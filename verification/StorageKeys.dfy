/** Which storage keys hold credentials (src/utils/auth/secure-storage-types.ts). */
module StorageKeys {

  const ACCOUNTS_LIST := "antigravity-accounts-list"
  const CODEX_ACCOUNTS := "antigravity-codex-accounts"
  const LOCAL_SESSION := "quotashift_local_antigravity_session_v1"

  function BuiltInKeys(): seq<string> { [ACCOUNTS_LIST, CODEX_ACCOUNTS, LOCAL_SESSION] }

  predicate EndsWith(s: string, suffix: string) {
    |suffix| <= |s| && s[|s| - |suffix|..] == suffix
  }

  predicate IsSensitive(key: string) {
    key in BuiltInKeys() || ("antigravity-" <= key && EndsWith(key, "-accounts"))
  }

  lemma StartAndEnd(key: string)
    requires "antigravity-" <= key && EndsWith(key, "-accounts")
    ensures key == "antigravity-accounts" || exists name :: key == "antigravity-" + name + "-accounts"
  {
    var n := |key| - 9;
    assert key[..12] == "antigravity-" && key[11] == '-';
    assert key[n..] == "-accounts";
    if n >= 12 {
      assert key == "antigravity-" + key[12..n] + "-accounts";
    } else if n == 11 {
      assert key == key[..12] + key[n..][1..];
      assert "antigravity-accounts" == "antigravity-" + "-accounts"[1..];
    } else {
      assert false;
    }
  }

  lemma NamedKeyIsSensitive(name: string)
    ensures
      var key := "antigravity-" + name + "-accounts";
      "antigravity-" <= key && EndsWith(key, "-accounts")
  {
    var key := "antigravity-" + name + "-accounts";
    assert key == "antigravity-" + (name + "-accounts");
    assert key[|key| - 9..] == "-accounts";
  }

  lemma SharedHyphen()
    ensures "antigravity-" <= "antigravity-accounts" && EndsWith("antigravity-accounts", "-accounts")
  {
    var key := "antigravity-accounts";
    assert key == "antigravity-" + "accounts" && key[11..] == "-accounts";
  }

  /** The account keys are the built-in ones, those with a name between the two parts, and the one
      in which the parts share their hyphen. */
  lemma SensitiveKeysAre(key: string)
    ensures IsSensitive(key) <==>
      || key == "antigravity-accounts-list" || key == "antigravity-codex-accounts"
      || key == "quotashift_local_antigravity_session_v1"
      || key == "antigravity-accounts"
      || exists name :: key == "antigravity-" + name + "-accounts"
  {
    SharedHyphen();
    forall name ensures EndsWith("antigravity-" + name + "-accounts", "-accounts")
      ensures "antigravity-" <= "antigravity-" + name + "-accounts"
    {
      NamedKeyIsSensitive(name);
    }
    if "antigravity-" <= key && EndsWith(key, "-accounts") { StartAndEnd(key); }
    hide EndsWith;
  }
}
