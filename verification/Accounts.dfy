/** When two captured accounts are the same account (src/utils/account/current-account.ts). */
module Accounts {
  import opened Prelude

  /** The fields the match relation reads, and the id. */
  datatype Account = Account(id: string, email: Option<string>, refreshToken: Option<string>, token: Option<string>)

  /** How stored text is read: trimmed lower-case e-mail addresses, de-obfuscated credentials. */
  datatype Reading = Reading(normalize: string -> string, deobfuscate: string -> string)

  /** normalizeAccountIdentity */
  function Email(r: Reading, a: Account): string {
    if a.email.Some? then r.normalize(a.email.value) else ""
  }

  /** credentialValue */
  function Credential(r: Reading, value: Option<string>): string {
    if value.Some? && value.value != "" then r.deobfuscate(value.value) else ""
  }

  function Refresh(r: Reading, a: Account): string { Credential(r, a.refreshToken) }

  function Token(r: Reading, a: Account): string { Credential(r, a.token) }

  /** accounts.find for one key: the first account whose key is `wanted`. */
  function FirstWith(accounts: seq<Account>, key: Account -> string, wanted: string): Option<Account> {
    if accounts == [] then None
    else if key(accounts[0]) == wanted then Some(accounts[0])
    else FirstWith(accounts[1..], key, wanted)
  }

  /** The first of the accounts that the test accepts. */
  ghost predicate IsFirst(accounts: seq<Account>, test: Account -> bool, found: Account) {
    exists i :: 0 <= i < |accounts| && accounts[i] == found && test(accounts[i])
      && forall j :: 0 <= j < i ==> !test(accounts[j])
  }

  ghost predicate NoneIs(accounts: seq<Account>, test: Account -> bool) {
    forall i :: 0 <= i < |accounts| ==> !test(accounts[i])
  }

  lemma {:induction false} FirstWithIs(accounts: seq<Account>, key: Account -> string, wanted: string)
    ensures
      var found := FirstWith(accounts, key, wanted);
      && (found.None? ==> forall a :: a in accounts ==> key(a) != wanted)
      && (found.Some? ==> found.value in accounts && key(found.value) == wanted)
  {
    if accounts != [] {
      FirstWithIs(accounts[1..], key, wanted);
      assert accounts == [accounts[0]] + accounts[1..];
    }
  }

  lemma {:induction false} FirstWithIsFirst(
      accounts: seq<Account>, key: Account -> string, wanted: string, test: Account -> bool)
    requires forall a :: test(a) <==> key(a) == wanted
    ensures
      var found := FirstWith(accounts, key, wanted);
      && (found.None? ==> NoneIs(accounts, test))
      && (found.Some? ==> IsFirst(accounts, test, found.value))
  {
    if accounts != [] {
      var rest := accounts[1..];
      FirstWithIsFirst(rest, key, wanted, test);
      if test(accounts[0]) { assert IsFirst(accounts, test, accounts[0]); }
      if !test(accounts[0]) && FirstWith(rest, key, wanted).Some? {
        var i :| 0 <= i < |rest| && rest[i] == FirstWith(rest, key, wanted).value && test(rest[i])
          && forall j :: 0 <= j < i ==> !test(rest[j]);
        assert accounts[i + 1] == rest[i];
        forall j | 0 <= j < i + 1 ensures !test(accounts[j]) { if j > 0 { assert accounts[j] == rest[j - 1]; } }
      }
    }
  }

  /** findAntigravityAccountMatch */
  function FindMatch(r: Reading, accounts: seq<Account>, candidate: Account): Option<Account> {
    var email, refresh, token := Email(r, candidate), Refresh(r, candidate), Token(r, candidate);
    var byEmail := if email != "" then FirstWith(accounts, a => Email(r, a), email) else None;
    if byEmail.Some? then byEmail
    else
      var byRefresh := if refresh != "" then FirstWith(accounts, a => Refresh(r, a), refresh) else None;
      if byRefresh.Some? then byRefresh
      else if token != "" then FirstWith(accounts, a => Token(r, a), token) else None
  }

  /** Two accounts share an e-mail address, a refresh token or an access token. */
  predicate Match(r: Reading, a: Account, b: Account) {
    || (Email(r, b) != "" && Email(r, a) == Email(r, b))
    || (Refresh(r, b) != "" && Refresh(r, a) == Refresh(r, b))
    || (Token(r, b) != "" && Token(r, a) == Token(r, b))
  }

  predicate HasIdentity(r: Reading, a: Account) {
    Email(r, a) != "" || Refresh(r, a) != "" || Token(r, a) != ""
  }

  ghost predicate MatchedBy(r: Reading, accounts: seq<Account>, candidate: Account) {
    exists a :: a in accounts && Match(r, a, candidate)
  }

  /** The search finds an account exactly when one matches, and what it finds matches. */
  lemma FindsIffMatched(r: Reading, accounts: seq<Account>, candidate: Account)
    ensures
      var found := FindMatch(r, accounts, candidate);
      && (found.Some? <==> MatchedBy(r, accounts, candidate))
      && (found.Some? ==> found.value in accounts && Match(r, found.value, candidate))
  {
    hide Email, Credential, FirstWith;
    FirstWithIs(accounts, a => Email(r, a), Email(r, candidate));
    FirstWithIs(accounts, a => Refresh(r, a), Refresh(r, candidate));
    FirstWithIs(accounts, a => Token(r, a), Token(r, candidate));
  }

  /** An e-mail match outranks every credential match, a refresh token every access token. */
  lemma FindPrefersTheEmail(r: Reading, accounts: seq<Account>, candidate: Account, a: Account)
    requires a in accounts && Email(r, candidate) != "" && Email(r, a) == Email(r, candidate)
    ensures
      var found := FindMatch(r, accounts, candidate);
      found.Some? && Email(r, found.value) == Email(r, candidate)
  {
    hide Email, Credential, FirstWith;
    FirstWithIs(accounts, b => Email(r, b), Email(r, candidate));
    assert (b => Email(r, b))(a) == Email(r, candidate);
  }

  // The relation in terms of what is stored.

  /** Both texts are there and read as the same text, which is not empty. */
  predicate SameText(read: string -> string, a: Option<string>, b: Option<string>) {
    a.Some? && b.Some? && read(a.value) == read(b.value) && read(b.value) != ""
  }

  /** Both credentials are there, neither is empty, and they read as the same one. */
  predicate SameCredential(read: string -> string, a: Option<string>, b: Option<string>) {
    SameText(read, a, b) && a.value != "" && b.value != ""
  }

  function SharesEmail(r: Reading, c: Account): Account -> bool {
    (a: Account) => SameText(r.normalize, a.email, c.email)
  }

  function SharesRefresh(r: Reading, c: Account): Account -> bool {
    (a: Account) => SameCredential(r.deobfuscate, a.refreshToken, c.refreshToken)
  }

  function SharesToken(r: Reading, c: Account): Account -> bool {
    (a: Account) => SameCredential(r.deobfuscate, a.token, c.token)
  }

  /** The first account with the candidate's e-mail address is found; if there is none, the first
      with its refresh token; if there is none, the first with its access token; else nothing. */
  lemma FindsByRank(r: Reading, accounts: seq<Account>, candidate: Account)
    ensures
      var found := FindMatch(r, accounts, candidate);
      var email, refresh := SharesEmail(r, candidate), SharesRefresh(r, candidate);
      var token := SharesToken(r, candidate);
      if !NoneIs(accounts, email) then found.Some? && IsFirst(accounts, email, found.value)
      else if !NoneIs(accounts, refresh) then found.Some? && IsFirst(accounts, refresh, found.value)
      else if !NoneIs(accounts, token) then found.Some? && IsFirst(accounts, token, found.value)
      else found.None?
  {
    var email, refresh, token := Email(r, candidate), Refresh(r, candidate), Token(r, candidate);
    if email != "" { FirstWithIsFirst(accounts, a => Email(r, a), email, SharesEmail(r, candidate)); }
    if refresh != "" { FirstWithIsFirst(accounts, a => Refresh(r, a), refresh, SharesRefresh(r, candidate)); }
    if token != "" { FirstWithIsFirst(accounts, a => Token(r, a), token, SharesToken(r, candidate)); }
    hide FirstWith;
  }

  /** Two accounts match exactly when they share one of the three texts. */
  lemma MatchIff(r: Reading, a: Account, b: Account)
    ensures Match(r, a, b) <==>
      SharesEmail(r, b)(a) || SharesRefresh(r, b)(a) || SharesToken(r, b)(a)
  {}

  /** Symmetric, and reflexive exactly for accounts with an identity. */
  lemma MatchIsSymmetric(r: Reading, a: Account, b: Account)
    ensures Match(r, a, b) == Match(r, b, a)
    ensures Match(r, a, a) <==> HasIdentity(r, a)
  {
    hide Email, Credential;
  }

  /** The id plays no part. */
  lemma IdDoesNotMatter(r: Reading, a: Account, b: Account, id: string)
    ensures Match(r, a.(id := id), b) == Match(r, a, b) && Match(r, b, a.(id := id)) == Match(r, b, a)
  {}
}
