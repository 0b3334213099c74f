/** The loops of the two scripts (src-tauri/src/python/write_vscdb.py,
    src-tauri/src/python/read_vscdb.py), each proved against module TopicSpec, and the
    round trip of a stored value. */
module TopicScripts {
  import opened Prelude
  import opened Varints
  import opened Wire
  import opened FieldReader
  import opened TopicSpec
  import opened TopicRewrite
  import Utf8
  import Base64

  const OAUTH_KEY := "oauthTokenInfoSentinelKey"
  const AUTH_STATE_KEY := "authStateWithContextSentinelKey"
  const USER_STATUS_KEY := "userStatusSentinelKey"

  // One step of each walk.

  lemma KeyFront(data: seq<Byte>)
    requires data != []
    ensures KeyOf(data) == match First(data)
      case None => Raised
      case Some(f) => if f.field == 1 && f.wire == 2 then Returned(Some(Utf8.DecodeIgnoring(f.content)))
                      else KeyOf(data[|f.raw|..])
  {
    MatchingFront(data, 1);
    ScanFront(data);
    hide First, Scan;
  }

  lemma KeyOfNothing()
    ensures KeyOf([]) == Returned(None)
  {}

  function Behind(kept: seq<Byte>, rest: Outcome<seq<Byte>>): Outcome<seq<Byte>> {
    if rest.Raised? then Raised else Returned(kept + rest.value)
  }

  lemma RemovedFront(data: seq<Byte>, key: string)
    requires data != []
    ensures Removed(data, key) == match First(data)
      case None => Raised
      case Some(f) =>
        if f.field == 1 && f.wire == 2 && KeyOf(f.content).Raised? then Raised
        else Behind(if f.field == 1 && f.wire == 2 && KeyOf(f.content) == Returned(Some(key)) then [] else f.raw,
                    Removed(data[|f.raw|..], key))
  {
    ScanFront(data);
    if First(data).Some? {
      var f := First(data).value;
      var rest := Scan(data[|f.raw|..]).records;
      hide First, Scan, KeyOf;
      AnyBadFront(f, rest);
      KeptFront(f, rest, key);
      JoinFront(f, Kept(rest, key));
      assert [] + Join(Kept(rest, key)) == Join(Kept(rest, key));
    }
  }

  lemma JoinFront(r: Record, rest: seq<Record>)
    ensures Join([r] + rest) == r.raw + Join(rest)
  {
    assert ([r] + rest)[1..] == rest;
  }

  lemma RemovedFromNothing(key: string)
    ensures Removed([], key) == Returned([])
  {}

  lemma BehindAgain(a: seq<Byte>, b: seq<Byte>, rest: Outcome<seq<Byte>>)
    ensures Behind(a + b, rest) == Behind(a, Behind(b, rest))
    ensures Behind([], rest) == rest
    ensures Behind(a, Returned([])) == Returned(a)
    ensures Behind(a, Raised) == Raised
  {
    if rest.Returned? { assert (a + b) + rest.value == a + (b + rest.value); }
    if rest.Returned? { assert [] + rest.value == rest.value; }
    assert a + [] == a;
  }

  // The walks.

  /** get_entry_key */
  method GetEntryKey(entry: seq<Byte>) returns (r: Outcome<Option<string>>)
    ensures r == KeyOf(entry)
  {
    hide *;
    var offset := 0;
    TailAll(entry);
    while offset < |entry|
      invariant KeyOf(Tail(entry, offset)) == KeyOf(entry)
      decreases |entry| - offset
    {
      TailStep(entry, offset);
      KeyFront(Tail(entry, offset));
      var step := ReadStep(entry, offset);
      if step.Raised? { return Raised; }
      if step.value.number == 1 && step.value.wire == 2 {
        var content := ReadContent(entry, step.value.body);
        return Returned(Some(Utf8.DecodeIgnoring(content.value)));
      }
      offset := step.value.next;
    }
    TailStep(entry, offset);
    KeyOfNothing();
    r := Returned(None);
  }

  /** The clipped slice a walk steps over is the field's own bytes. */
  lemma StepIsRaw(data: seq<Byte>, offset: nat, span: nat)
    requires offset < |data| && First(Tail(data, offset)).Some? && First(Tail(data, offset)).value.span == span
    ensures Clip(data, offset, offset + span) == First(Tail(data, offset)).value.raw
  {
    hide First;
  }

  /** remove_unified_topic_entry */
  method RemoveUnifiedTopicEntry(topic: seq<Byte>, key: string) returns (r: Outcome<seq<Byte>>)
    ensures r == Removed(topic, key)
  {
    hide Removed, First, Behind, Content, BodySize, KeyOf, Tail;
    var offset, result := 0, [];
    TailAll(topic);
    BehindAgain([], [], Removed(topic, key));
    while offset < |topic|
      invariant Behind(result, Removed(Tail(topic, offset), key)) == Removed(topic, key)
      decreases |topic| - offset
    {
      TailStep(topic, offset);
      RemovedFront(Tail(topic, offset), key);
      var step := ReadStep(topic, offset);
      BehindAgain(result, [], Raised);
      if step.Raised? { return Raised; }
      var shouldRemove := false;
      if step.value.number == 1 && step.value.wire == 2 {
        var content := ReadContent(topic, step.value.body);
        var entryKey := GetEntryKey(content.value);
        if entryKey.Raised? { return Raised; }
        shouldRemove := entryKey.value == Some(key);
      }
      ghost var rest := Removed(Tail(topic, step.value.next), key);
      StepIsRaw(topic, offset, step.value.next - offset);
      BehindAgain(result, Clip(topic, offset, step.value.next), rest);
      BehindAgain(result, [], rest);
      if !shouldRemove { result := result + Clip(topic, offset, step.value.next); }
      offset := step.value.next;
    }
    TailStep(topic, offset);
    RemovedFromNothing(key);
    BehindAgain(result, [], Raised);
    r := Returned(result);
  }

  /** The search for the sign-in state; anything unreadable ends it without a find. */
  function Finds(records: seq<Record>, key: string): bool {
    records != [] && !Bad(records[0]) && (Has(records[0], key) || Finds(records[1..], key))
  }

  lemma {:induction false} FindsIsCount(records: seq<Record>, key: string)
    requires !AnyBad(records)
    ensures Finds(records, key) <==> Count(records, key) > 0
  {
    hide Has, Bad, AnyBad;
    if records != [] {
      assert records == [records[0]] + records[1..];
      AnyBadFront(records[0], records[1..]);
      FindsIsCount(records[1..], key);
    }
  }

  lemma FindsFront(data: seq<Byte>, key: string)
    requires data != []
    ensures Finds(Scan(data).records, key) == match First(data)
      case None => false
      case Some(f) =>
        if f.field == 1 && f.wire == 2 && KeyOf(f.content).Raised? then false
        else if f.field == 1 && f.wire == 2 && KeyOf(f.content) == Returned(Some(key)) then true
        else Finds(Scan(data[|f.raw|..]).records, key)
  {
    ScanFront(data);
    hide First, Scan, KeyOf;
    if First(data).Some? {
      var f := First(data).value;
      assert ([f] + Scan(data[|f.raw|..]).records)[1..] == Scan(data[|f.raw|..]).records;
    }
  }

  lemma FindsInNothing(key: string)
    ensures !Finds(Scan([]).records, key)
  {}

  method HasEntry(topic: seq<Byte>, key: string) returns (found: bool)
    ensures found == Finds(Scan(topic).records, key)
  {
    hide *;
    var offset := 0;
    TailAll(topic);
    while offset < |topic|
      invariant Finds(Scan(Tail(topic, offset)).records, key) == Finds(Scan(topic).records, key)
      decreases |topic| - offset
    {
      TailStep(topic, offset);
      FindsFront(Tail(topic, offset), key);
      var step := ReadStep(topic, offset);
      if step.Raised? { return false; }
      if step.value.number == 1 && step.value.wire == 2 {
        var content := ReadContent(topic, step.value.body);
        var entryKey := GetEntryKey(content.value);
        if entryKey.Raised? { return false; }
        if entryKey.value == Some(key) { return true; }
      }
      offset := step.value.next;
    }
    TailStep(topic, offset);
    FindsInNothing(key);
    found := false;
  }

  // A stored value.

  /** The topic a stored value holds; a missing or undecodable one counts as empty. */
  function StoredTopic(stored: Option<string>): seq<Byte> {
    match stored
    case None => []
    case Some(text) => if Base64.Decode(text).Some? then Base64.Decode(text).value else []
  }

  function OrEmpty(text: Option<string>): string { if text.Some? then text.value else "" }

  /** The new stored value. */
  function SignedIn(
      stored: Option<string>, authJson: string, token: string, refresh: Option<string>, expiry: nat): Outcome<string> {
    match Rewritten(StoredTopic(stored), AUTH_STATE_KEY, Utf8.Encode(authJson), OAUTH_KEY,
      OAuthInfo(token, OrEmpty(refresh), expiry))
    case Raised => Raised
    case Returned(topic) => Returned(Base64.Encode(topic))
  }

  lemma RewrittenByParts(topic: seq<Byte>, authKey: string, auth: seq<Byte>, oauthKey: string, oauth: seq<Byte>)
    ensures Removed(topic, oauthKey).Raised? ==> Rewritten(topic, authKey, auth, oauthKey, oauth) == Raised
    ensures Removed(topic, oauthKey).Returned? ==>
      var left := Removed(topic, oauthKey).value;
      Rewritten(topic, authKey, auth, oauthKey, oauth) == Returned(
        (if Finds(Scan(left).records, authKey) then left else left + TopicEntry(authKey, auth)) +
          TopicEntry(oauthKey, oauth))
  {
    hide TopicEntry, Scan, Removed, Finds;
    if Removed(topic, oauthKey).Returned? {
      var left := Removed(topic, oauthKey).value;
      RemovalLeavesReadableEntries(topic, oauthKey);
      FindsIsCount(Scan(left).records, authKey);
      assert left + (TopicEntry(authKey, auth) + TopicEntry(oauthKey, oauth))
        == (left + TopicEntry(authKey, auth)) + TopicEntry(oauthKey, oauth);
      assert [] + TopicEntry(oauthKey, oauth) == TopicEntry(oauthKey, oauth);
    }
  }

  lemma RemovalLeavesReadableEntries(topic: seq<Byte>, key: string)
    requires Removed(topic, key).Returned?
    ensures !AnyBad(Scan(Removed(topic, key).value).records)
  {
    ScanGivesSequence(topic);
    RemovalKeepsTheOthers(topic, key);
    KeptSequence(Scan(topic).records, key);
  }

  /** The topic rewrite of one database (src-tauri/src/python/write_vscdb.py:180-234). */
  method SignIn(stored: Option<string>, authJson: string, token: string, refresh: Option<string>, expiry: nat)
    returns (r: Outcome<string>)
    ensures r == SignedIn(stored, authJson, token, refresh, expiry)
  {
    hide Rewritten, OAuthInfo, TopicEntry, Utf8.Encode, Base64.Encode, Base64.Decode, Removed, Finds, Scan;
    var current := [];
    if stored.Some? && Base64.Decode(stored.value).Some? { current := Base64.Decode(stored.value).value; }
    var removed := RemoveUnifiedTopicEntry(current, OAUTH_KEY);
    var oauth := OAuthInfo(token, OrEmpty(refresh), expiry);
    RewrittenByParts(current, AUTH_STATE_KEY, Utf8.Encode(authJson), OAUTH_KEY, oauth);
    if removed.Raised? { return Raised; }
    var topic := removed.value;
    var hasAuthState := HasEntry(topic, AUTH_STATE_KEY);
    if !hasAuthState { topic := topic + TopicEntry(AUTH_STATE_KEY, Utf8.Encode(authJson)); }
    topic := topic + TopicEntry(OAUTH_KEY, oauth);
    r := Returned(Base64.Encode(topic));
  }

  // The reader.

  method PayloadOfEntry(entry: seq<Byte>) returns (r: Option<seq<Byte>>)
    ensures r == PayloadOf(entry)
  {
    hide FieldText, Scan;
    var rows := FindFields(entry, 2);
    if rows == [] { return None; }
    var text := FindFieldStr(rows[0], 1);
    if text.None? || text.value == "" { return None; }
    r := Base64.Decode(text.value);
  }

  /** decode_unified_state_entry */
  method DecodeUnifiedStateEntry(outer: string, key: string) returns (r: Option<seq<Byte>>)
    ensures r == ReadState(outer, key)
  {
    hide FieldText, PayloadOf, Scan, Base64.Decode;
    var blob := Base64.Decode(outer);
    if blob.None? { return None; }
    var entries := FindFields(blob.value, 1);
    for i := 0 to |entries|
      invariant ReadEntries(entries, key) == ReadEntries(entries[i..], key)
    {
      assert entries[i..][0] == entries[i] && entries[i..][1..] == entries[i + 1..];
      var entryKey := FindFieldStr(entries[i], 1);
      if entryKey == Some(key) {
        r := PayloadOfEntry(entries[i]);
        if r.Some? { return; }
      }
    }
    r := None;
  }

  lemma StoredReadsBack(topic: seq<Byte>, key: string)
    ensures StoredTopic(Some(Base64.Encode(topic))) == topic
    ensures ReadState(Base64.Encode(topic), key) == ReadTopic(topic, key)
  {
    hide ReadTopic, Base64.Decode, Base64.Encode;
    Base64.DecodeInvertsEncode(topic);
  }

  /** What the reader finds in a stored value is what it finds in the topic the writer starts from. */
  lemma ReadingAStoredTopic(stored: Option<string>, key: string)
    ensures ReadTopic(StoredTopic(stored), key) == if stored.Some? then ReadState(stored.value, key) else None
  {
    hide Base64.Decode;
    NothingWrong();
    ReadsItsFields([], key);
    ScanNothing();
  }

  lemma SignedInIs(stored: Option<string>, authJson: string, token: string, refresh: Option<string>, expiry: nat)
    requires Rewritten(StoredTopic(stored), AUTH_STATE_KEY, Utf8.Encode(authJson), OAUTH_KEY,
        OAuthInfo(token, OrEmpty(refresh), expiry)).Returned?
    ensures SignedIn(stored, authJson, token, refresh, expiry) == Returned(Base64.Encode(
      Rewritten(StoredTopic(stored), AUTH_STATE_KEY, Utf8.Encode(authJson), OAUTH_KEY,
        OAuthInfo(token, OrEmpty(refresh), expiry)).value))
  {
    hide Rewritten, OAuthInfo, Utf8.Encode, Base64.Encode;
  }

  lemma KeysDiffer()
    ensures OAUTH_KEY != AUTH_STATE_KEY
  {
    assert |OAUTH_KEY| != |AUTH_STATE_KEY|;
  }

  lemma EncodedTextIsNotEmpty(text: string)
    requires text != ""
    ensures Utf8.Encode(text) != []
  {}

  /** Signing in over any stored topic whose kept fields lie inside it: the reader gets the token,
      its type, the refresh token and the expiry back, keeps every other key as it was (the sign-in
      state gets its default only if it had no entry), and the result is well-formed, so the
      same holds for the next sign-in. */
  lemma SignInReadsBack(
      stored: Option<string>, authJson: string, token: string, refresh: Option<string>, expiry: nat, key: string)
    requires Rewritable(StoredTopic(stored), OAUTH_KEY) && authJson != ""
    requires key != OAUTH_KEY && key != AUTH_STATE_KEY
    ensures var out := SignedIn(stored, authJson, token, refresh, expiry);
      && out.Returned? && WellFormed(StoredTopic(Some(out.value)))
      && ReadState(out.value, key) == (if stored.Some? then ReadState(stored.value, key) else None)
      && ReadState(out.value, AUTH_STATE_KEY) ==
         (if Count(Scan(StoredTopic(stored)).records, AUTH_STATE_KEY) == 0 then Some(Utf8.Encode(authJson))
          else if stored.Some? then ReadState(stored.value, AUTH_STATE_KEY) else None)
      && var payload := ReadState(out.value, OAUTH_KEY);
      && payload.Some?
      && FieldText(payload.value, 1) == Some(token)
      && FieldText(payload.value, 2) == Some("Bearer")
      && FieldText(payload.value, 3) == Some(OrEmpty(refresh))
      && ExpiresAt(payload.value, expiry)
      && FieldText(payload.value, 5) == None
  {
    hide *;
    var topic, auth, oauth := StoredTopic(stored), Utf8.Encode(authJson), OAuthInfo(token, OrEmpty(refresh), expiry);
    KeysDiffer();
    EncodedTextIsNotEmpty(authJson);
    OAuthInfoReadsBack(token, OrEmpty(refresh), expiry);
    OAuthInfoExpires(token, OrEmpty(refresh), expiry);
    OAuthInfoHasNoOtherText(token, OrEmpty(refresh), expiry, 5);
    RewriteReadsBack(topic, AUTH_STATE_KEY, auth, OAUTH_KEY, oauth, key);
    RewriteReadsBack(topic, AUTH_STATE_KEY, auth, OAUTH_KEY, oauth, OAUTH_KEY);
    RewriteReadsBack(topic, AUTH_STATE_KEY, auth, OAUTH_KEY, oauth, AUTH_STATE_KEY);
    ReadingAStoredTopic(stored, key);
    ReadingAStoredTopic(stored, AUTH_STATE_KEY);
    SignedInIs(stored, authJson, token, refresh, expiry);
    var out := Rewritten(topic, AUTH_STATE_KEY, auth, OAUTH_KEY, oauth).value;
    StoredReadsBack(out, key);
    StoredReadsBack(out, OAUTH_KEY);
    StoredReadsBack(out, AUTH_STATE_KEY);
  }

  /** create_minimal_user_status_payload */
  function UserStatus(email: string): seq<Byte> { StringField(3, email) + StringField(7, email) }

  lemma UserStatusFields(email: string)
    ensures UserStatus(email) != []
    ensures FieldText(UserStatus(email), 7) == Some(email) && FieldText(UserStatus(email), 3) == Some(email)
  {
    FieldReads(3, Utf8.Encode(email));
    hide LenDelim, FieldText;
    assert StringField(7, email) + [] == StringField(7, email);
    TextOfField(3, email, StringField(7, email));
    TextBehindField(3, Utf8.Encode(email), StringField(7, email), 7);
    TextOfField(7, email, []);
  }

  /** The first entry of a key that has a payload is the one that is read. */
  lemma FirstEntryReadsBack(key: string, payload: seq<Byte>, more: seq<Byte>)
    requires payload != []
    ensures ReadTopic(TopicEntry(key, payload) + more, key) == Some(payload)
  {
    hide EntryBody, LenDelim, FieldText, PayloadOf, ReadTopic;
    WrittenEntryReads(key, payload);
    EntryInFront(EntryBody(key, payload), more, key);
  }

  lemma EntryInFront(body: seq<Byte>, more: seq<Byte>, key: string)
    ensures ReadTopic(LenDelim(1, body) + more, key) ==
      if FieldText(body, 1) == Some(key) && PayloadOf(body).Some? then PayloadOf(body) else ReadTopic(more, key)
  {
    hide FieldText, PayloadOf, EntryBody, LenDelim, Scan, ReadEntries;
    ScanField(1, body, more);
    MatchingField(1, body, 1, Scan(more).records);
    ReadEntriesFront(body, Matching(Scan(more).records, 1), key);
  }

  /** An entry of the key without a payload field, or with an empty one, is passed over. */
  lemma EntryWithoutPayloadIsPassedOver(key: string, more: seq<Byte>)
    ensures ReadTopic(LenDelim(1, StringField(1, key)) + more, key) == ReadTopic(more, key)
    ensures ReadTopic(LenDelim(1, StringField(1, key) + LenDelim(2, StringField(1, ""))) + more, key)
      == ReadTopic(more, key)
  {
    hide ReadTopic;
    NoPayload(key);
    hide StringField, LenDelim, PayloadOf;
    EntryInFront(StringField(1, key), more, key);
    EntryInFront(StringField(1, key) + LenDelim(2, StringField(1, "")), more, key);
  }

  lemma NoPayload(key: string)
    ensures PayloadOf(StringField(1, key)) == None
    ensures PayloadOf(StringField(1, key) + LenDelim(2, StringField(1, ""))) == None
  {
    var none: seq<Record> := [];
    var keyData, row := Utf8.Encode(key), StringField(1, "");
    hide LenDelim, FieldText, Scan, Utf8.Encode;
    ScanOneField(1, keyData);
    MatchingField(1, keyData, 2, none);
    assert [Field(1, keyData)] + none == [Field(1, keyData)];
    ScanField(1, keyData, LenDelim(2, row));
    ScanOneField(2, row);
    MatchingField(1, keyData, 2, [Field(2, row)]);
    MatchingField(2, row, 2, none);
    assert [Field(2, row)] + none == [Field(2, row)];
    TextOfField(1, "", []);
    assert row + [] == row;
  }

  /** The user status entry: both fields the reader tries carry the email address. */
  lemma UserStatusReadsBack(email: string)
    ensures var payload := ReadState(Base64.Encode(TopicEntry(USER_STATUS_KEY, UserStatus(email))), USER_STATUS_KEY);
      payload.Some? && FieldText(payload.value, 7) == Some(email) && FieldText(payload.value, 3) == Some(email)
  {
    hide *;
    UserStatusFields(email);
    FirstEntryReadsBack(USER_STATUS_KEY, UserStatus(email), []);
    assert TopicEntry(USER_STATUS_KEY, UserStatus(email)) + [] == TopicEntry(USER_STATUS_KEY, UserStatus(email));
    StoredReadsBack(TopicEntry(USER_STATUS_KEY, UserStatus(email)), USER_STATUS_KEY);
  }
}
