/** Writing a sign-in into a topic and reading it back (src-tauri/src/python/write_vscdb.py,
    src-tauri/src/python/read_vscdb.py). */
module TopicRewrite {
  import opened Prelude
  import opened Varints
  import opened Wire
  import opened FieldReader
  import opened TopicSpec
  import Utf8
  import Base64

  // What the writer encodes.

  /** encode_len_delim_field */
  function LenDelim(number: nat, data: seq<Byte>): seq<Byte> {
    Varint(number * 8 + 2) + (Varint(|data|) + data)
  }

  /** encode_string_field */
  function StringField(number: nat, text: string): seq<Byte> { LenDelim(number, Utf8.Encode(text)) }

  function Row(payload: seq<Byte>): seq<Byte> { StringField(1, Base64.Encode(payload)) }

  function EntryBody(key: string, payload: seq<Byte>): seq<Byte> {
    StringField(1, key) + LenDelim(2, Row(payload))
  }

  /** create_unified_topic_entry */
  function TopicEntry(key: string, payload: seq<Byte>): seq<Byte> { LenDelim(1, EntryBody(key, payload)) }

  /** create_oauth_info: token, type, refresh token or empty, and an expiry timestamp. */
  function OAuthInfo(token: string, refresh: string, expiry: nat): seq<Byte> {
    StringField(1, token) + (StringField(2, "Bearer") + (StringField(3, refresh) + LenDelim(4, Timestamp(expiry))))
  }

  function Timestamp(expiry: nat): seq<Byte> {
    Varint(8) + Varint(expiry) + (Varint(16) + Varint(0))
  }

  /** What the rewrite appends behind the kept fields. */
  function Appended(
      records: seq<Record>, authKey: string, auth: seq<Byte>, oauthKey: string, oauth: seq<Byte>): seq<Byte> {
    (if Count(records, authKey) > 0 then [] else TopicEntry(authKey, auth)) + TopicEntry(oauthKey, oauth)
  }

  /** The topic rewrite: drop the key's entries, add the default sign-in state if there is none,
      add the new entry. */
  function Rewritten(
      topic: seq<Byte>, authKey: string, auth: seq<Byte>, oauthKey: string, oauth: seq<Byte>): Outcome<seq<Byte>> {
    match Removed(topic, oauthKey)
    case Raised => Raised
    case Returned(left) => Returned(left + Appended(Scan(left).records, authKey, auth, oauthKey, oauth))
  }

  // Encoded fields read back.

  function Field(number: nat, data: seq<Byte>): Record {
    Record(number, 2, data, LenDelim(number, data), |LenDelim(number, data)|)
  }

  lemma DelimitedBody(data: seq<Byte>)
    ensures
      var body := Varint(|data|) + data;
      BodySize(body, 2) == Some(|body|) && Content(body, 2) == data
  {
    DecodeInvertsVarint(|data|, data);
    hide Varint, Decode;
    assert (Varint(|data|) + data)[|Varint(|data|)|..] == data;
  }

  lemma FieldReads(number: nat, data: seq<Byte>)
    ensures First(LenDelim(number, data)) == Some(Field(number, data)) && LenDelim(number, data) != []
  {
    hide Varint, First, BodySize, Content, Clip;
    var body := Varint(|data|) + data;
    DelimitedBody(data);
    TaggedFirst(number, 2, body);
    assert LenDelim(number, data) == Tagged(number, 2, body);
    ClipAll(Tagged(number, 2, body), |Tagged(number, 2, body)|);
  }

  lemma ScanField(number: nat, data: seq<Byte>, more: seq<Byte>)
    ensures Scan(LenDelim(number, data) + more) ==
        Fields([Field(number, data)] + Scan(more).records, Scan(more).complete)
  {
    FieldReads(number, data);
    assert Field(number, data).Whole();
    hide LenDelim, First, Scan;
    FirstIsLocal(LenDelim(number, data), more);
    ScanFront(LenDelim(number, data) + more);
    assert (LenDelim(number, data) + more)[|LenDelim(number, data)|..] == more;
  }

  lemma ScanOneField(number: nat, data: seq<Byte>)
    ensures Scan(LenDelim(number, data)) == Fields([Field(number, data)], true)
  {
    hide LenDelim;
    ScanField(number, data, []);
    assert LenDelim(number, data) + [] == LenDelim(number, data);
  }

  lemma MatchingField(number: nat, data: seq<Byte>, wanted: nat, rest: seq<Record>)
    ensures Matching([Field(number, data)] + rest, wanted) ==
        (if number == wanted then [data] else []) + Matching(rest, wanted)
  {
    hide LenDelim;
    assert ([Field(number, data)] + rest)[1..] == rest;
  }

  lemma TextOfField(number: nat, text: string, more: seq<Byte>)
    ensures FieldText(StringField(number, text) + more, number) == Some(text)
  {
    var data := Utf8.Encode(text);
    ScanField(number, data, more);
    MatchingField(number, data, number, Scan(more).records);
    Utf8.DecodeInvertsEncode(text);
  }

  /** A string field is found behind string fields with other numbers. */
  lemma TextBehindField(other: nat, data: seq<Byte>, more: seq<Byte>, number: nat)
    requires other != number
    ensures FieldText(LenDelim(other, data) + more, number) == FieldText(more, number)
  {
    ScanField(other, data, more);
    MatchingField(other, data, number, Scan(more).records);
    assert [] + Matching(Scan(more).records, number) == Matching(Scan(more).records, number);
  }

  lemma RowReads(payload: seq<Byte>, more: seq<Byte>)
    requires payload != []
    ensures FieldText(Row(payload) + more, 1) == Some(Base64.Encode(payload)) && Base64.Encode(payload) != ""
    ensures Base64.Decode(Base64.Encode(payload)) == Some(payload)
  {
    Base64.DecodeInvertsEncode(payload);
    TextOfField(1, Base64.Encode(payload), more);
  }

  lemma EntryParts(key: string, payload: seq<Byte>, more: seq<Byte>)
    ensures EntryBody(key, payload) + more == StringField(1, key) + (LenDelim(2, Row(payload)) + more)
  {
    hide LenDelim, Utf8.Encode, Row;
  }

  lemma FirstMatching(number: nat, data: seq<Byte>, more: seq<Byte>, wanted: nat)
    ensures Matching(Scan(LenDelim(number, data) + more).records, wanted) ==
        (if number == wanted then [data] else []) + Matching(Scan(more).records, wanted)
  {
    hide LenDelim, Scan;
    ScanField(number, data, more);
    MatchingField(number, data, wanted, Scan(more).records);
  }

  lemma EntryKeyReads(key: string, tail: seq<Byte>)
    ensures KeyOf(StringField(1, key) + tail) == Returned(Some(key))
    ensures FieldText(StringField(1, key) + tail, 1) == Some(key)
  {
    hide Scan, LenDelim, Utf8.Encode, Matching;
    FirstMatching(1, Utf8.Encode(key), tail, 1);
    Utf8.DecodeInvertsEncode(key);
  }

  lemma EntryRowReads(key: string, row: seq<Byte>, more: seq<Byte>)
    ensures Matching(Scan(StringField(1, key) + (LenDelim(2, row) + more)).records, 2) ==
        [row] + Matching(Scan(more).records, 2)
  {
    hide Scan, LenDelim, Utf8.Encode, Matching;
    FirstMatching(1, Utf8.Encode(key), LenDelim(2, row) + more, 2);
    FirstMatching(2, row, more, 2);
    assert [] + ([row] + Matching(Scan(more).records, 2)) == [row] + Matching(Scan(more).records, 2);
  }

  /** Whatever follows inside the entry: its first key and its first payload count. */
  lemma EntryReadsBack(key: string, payload: seq<Byte>, more: seq<Byte>)
    requires payload != []
    ensures KeyOf(EntryBody(key, payload) + more) == Returned(Some(key))
    ensures FieldText(EntryBody(key, payload) + more, 1) == Some(key)
    ensures PayloadOf(EntryBody(key, payload) + more) == Some(payload)
  {
    hide Scan, LenDelim, EntryBody, StringField, FieldText, KeyOf, Matching, Base64.Encode, Base64.Decode, Row;
    EntryParts(key, payload, more);
    EntryKeyReads(key, LenDelim(2, Row(payload)) + more);
    EntryRowReads(key, Row(payload), more);
    RowReads(payload, []);
    assert Row(payload) + [] == Row(payload);
  }

  lemma WrittenEntryReads(key: string, payload: seq<Byte>)
    requires payload != []
    ensures KeyOf(EntryBody(key, payload)) == Returned(Some(key))
    ensures FieldText(EntryBody(key, payload), 1) == Some(key)
    ensures PayloadOf(EntryBody(key, payload)) == Some(payload)
  {
    hide *;
    EntryReadsBack(key, payload, []);
    assert EntryBody(key, payload) + [] == EntryBody(key, payload);
  }

  /** The token, type and refresh token are where the reader looks for them. */
  lemma OAuthInfoReadsBack(token: string, refresh: string, expiry: nat)
    ensures FieldText(OAuthInfo(token, refresh, expiry), 1) == Some(token)
    ensures FieldText(OAuthInfo(token, refresh, expiry), 2) == Some("Bearer")
    ensures FieldText(OAuthInfo(token, refresh, expiry), 3) == Some(refresh)
    ensures OAuthInfo(token, refresh, expiry) != []
  {
    var f4 := LenDelim(4, Timestamp(expiry));
    var f34 := StringField(3, refresh) + f4;
    var f234 := StringField(2, "Bearer") + f34;
    FieldReads(1, Utf8.Encode(token));
    hide LenDelim, Timestamp, FieldText, Utf8.Encode;
    TextOfField(1, token, f234);
    TextBehindField(1, Utf8.Encode(token), f234, 2);
    TextOfField(2, "Bearer", f34);
    TextBehindField(1, Utf8.Encode(token), f234, 3);
    TextBehindField(2, Utf8.Encode("Bearer"), f34, 3);
    TextOfField(3, refresh, f4);
  }

  /** There is no other text field, so no identity token appears (src-tauri/src/python/read_vscdb.py:126). */
  lemma OAuthInfoHasNoOtherText(token: string, refresh: string, expiry: nat, number: nat)
    requires number > 4
    ensures FieldText(OAuthInfo(token, refresh, expiry), number) == None
  {
    var f4 := LenDelim(4, Timestamp(expiry));
    var f34 := StringField(3, refresh) + f4;
    hide LenDelim, Timestamp, FieldText, Utf8.Encode;
    TextBehindField(1, Utf8.Encode(token), StringField(2, "Bearer") + f34, number);
    TextBehindField(2, Utf8.Encode("Bearer"), f34, number);
    TextBehindField(3, Utf8.Encode(refresh), f4, number);
    assert f4 + [] == f4;
    TextBehindField(4, Timestamp(expiry), [], number);
    NoTextInNothing(number);
  }

  /** The body is a complete message of two number fields: number 1 with the seconds, then
      number 2, the nanoseconds, with zero. */
  ghost predicate TellsTime(body: seq<Byte>, seconds: nat) {
    && Scan(body).complete
    && |Scan(body).records| == 2
    && var first, second := Scan(body).records[0], Scan(body).records[1];
    && first.field == 1 && first.wire == 0 && first.Whole() && Number(first) == Some(seconds)
    && second.field == 2 && second.wire == 0 && second.Whole() && Number(second) == Some(0)
  }

  lemma TimestampTellsTime(expiry: nat)
    ensures TellsTime(Timestamp(expiry), expiry)
  {
    hide Varint, Scan, Number;
    var nanos := NumberRecord(2, 0);
    NumberFieldReadsBack(1, expiry, nanos.raw);
    NumberFieldReadsBack(2, 0, []);
    ScanNothing();
    assert nanos.raw + [] == nanos.raw;
    assert Timestamp(expiry) == NumberRecord(1, expiry).raw + nanos.raw;
    assert Scan(Timestamp(expiry)).records == [NumberRecord(1, expiry), nanos];
  }

  /** Field 4 of a message occurs once and tells when the token expires. */
  ghost predicate ExpiresAt(message: seq<Byte>, expiry: nat) {
    var found := Matching(Scan(message).records, 4);
    |found| == 1 && TellsTime(found[0], expiry)
  }

  /** The message is a complete sequence of the four fields 1, 2, 3 and 4. */
  lemma OAuthInfoExpires(token: string, refresh: string, expiry: nat)
    ensures ExpiresAt(OAuthInfo(token, refresh, expiry), expiry)
    ensures
      var fields := Scan(OAuthInfo(token, refresh, expiry));
      && fields.complete && |fields.records| == 4
      && forall i | 0 <= i < 4 :: fields.records[i].Delimited(i + 1) && fields.records[i].Whole()
  {
    hide LenDelim, Utf8.Encode, Scan, Timestamp, TellsTime;
    var time := Timestamp(expiry);
    var r1, r2 := Field(1, Utf8.Encode(token)), Field(2, Utf8.Encode("Bearer"));
    var r3, r4 := Field(3, Utf8.Encode(refresh)), Field(4, time);
    var f4 := LenDelim(4, time);
    var f34 := StringField(3, refresh) + f4;
    ScanOneField(4, time);
    ScanField(3, Utf8.Encode(refresh), f4);
    ScanField(2, Utf8.Encode("Bearer"), f34);
    ScanField(1, Utf8.Encode(token), StringField(2, "Bearer") + f34);
    assert Scan(OAuthInfo(token, refresh, expiry)) == Fields([r1] + ([r2] + ([r3] + [r4])), true);
    MatchingField(4, time, 4, []);
    MatchingField(3, Utf8.Encode(refresh), 4, [r4]);
    MatchingField(2, Utf8.Encode("Bearer"), 4, [r3] + [r4]);
    MatchingField(1, Utf8.Encode(token), 4, [r2] + ([r3] + [r4]));
    assert [r4] + [] == [r4];
    assert Matching([r4], 4) == [time];
    TimestampTellsTime(expiry);
  }

  lemma NoTextInNothing(number: nat)
    ensures FieldText([], number) == None
  {}

  // Reading a topic made of kept and appended fields.

  lemma {:induction false} ReadEntriesConcat(a: seq<seq<Byte>>, b: seq<seq<Byte>>, key: string)
    ensures ReadEntries(a + b, key) == if ReadEntries(a, key).Some? then ReadEntries(a, key) else ReadEntries(b, key)
  {
    hide FieldText, PayloadOf;
    if a == [] {
      assert a + b == b;
    } else {
      ReadEntriesConcat(a[1..], b, key);
      assert (a + b)[1..] == a[1..] + b;
    }
  }

  /** Where the writer finds a key, the reader finds the same one. */
  lemma WriterAndReaderAgreeOnKeys(entry: seq<Byte>)
    requires KeyOf(entry).Returned?
    ensures FieldText(entry, 1) == KeyOf(entry).value
  {}

  function EntriesOf(records: seq<Record>): seq<seq<Byte>> { Matching(records, 1) }

  lemma EntriesFront(r: Record, rest: seq<Record>)
    ensures EntriesOf([r] + rest) == (if r.Delimited(1) then [r.content] else []) + EntriesOf(rest)
  {
    assert ([r] + rest)[1..] == rest;
  }

  lemma ReadEntriesFront(entry: seq<Byte>, rest: seq<seq<Byte>>, key: string)
    ensures ReadEntries([entry] + rest, key) ==
      if FieldText(entry, 1) == Some(key) && PayloadOf(entry).Some? then PayloadOf(entry) else ReadEntries(rest, key)
  {
    assert ([entry] + rest)[1..] == rest;
  }

  /** Dropping one key's entries hides that key and no other. */
  lemma {:induction false} ReadingWithoutAKey(records: seq<Record>, dropped: string, key: string)
    requires !AnyBad(records)
    ensures ReadEntries(EntriesOf(Kept(records, dropped)), key) ==
      if key == dropped then None else ReadEntries(EntriesOf(records), key)
  {
    if records != [] {
      var r, rest := records[0], records[1..];
      assert records == [r] + rest;
      AnyBadFront(r, rest);
      if r.Delimited(1) { WriterAndReaderAgreeOnKeys(r.content); }
      hide FieldText, PayloadOf, KeyOf, AnyBad, ReadEntries, EntriesOf;
      ReadingWithoutAKey(rest, dropped, key);
      KeptFront(r, rest, dropped);
      EntriesFront(r, rest);
      EntriesFront(r, Kept(rest, dropped));
      if r.Delimited(1) {
        ReadEntriesFront(r.content, EntriesOf(rest), key);
        ReadEntriesFront(r.content, EntriesOf(Kept(rest, dropped)), key);
      } else {
        assert [] + EntriesOf(rest) == EntriesOf(rest);
        assert [] + EntriesOf(Kept(rest, dropped)) == EntriesOf(Kept(rest, dropped));
      }
    }
  }

  /** A key no entry has is not read. */
  lemma {:induction false} ReadingAnAbsentKey(records: seq<Record>, key: string)
    requires !AnyBad(records) && Count(records, key) == 0
    ensures ReadEntries(EntriesOf(records), key) == None
  {
    KeptIs(records, key);
    ReadingWithoutAKey(records, key, key);
  }

  function NewEntry(key: string, payload: seq<Byte>): Record { Field(1, EntryBody(key, payload)) }

  function AppendedRecords(
      records: seq<Record>, authKey: string, auth: seq<Byte>, oauthKey: string, oauth: seq<Byte>): seq<Record> {
    (if Count(records, authKey) > 0 then [] else [NewEntry(authKey, auth)]) + [NewEntry(oauthKey, oauth)]
  }

  lemma NewEntryIsGood(key: string, payload: seq<Byte>, other: string)
    requires payload != []
    ensures NewEntry(key, payload).Delimited(1) && NewEntry(key, payload).Whole() && !Bad(NewEntry(key, payload))
    ensures Has(NewEntry(key, payload), other) <==> other == key
  {
    WrittenEntryReads(key, payload);
  }

  lemma AppendedScan(records: seq<Record>, authKey: string, auth: seq<Byte>, oauthKey: string, oauth: seq<Byte>)
    ensures Scan(Appended(records, authKey, auth, oauthKey, oauth))
      == Fields(AppendedRecords(records, authKey, auth, oauthKey, oauth), true)
  {
    hide LenDelim, EntryBody;
    ScanOneField(1, EntryBody(oauthKey, oauth));
    ScanField(1, EntryBody(authKey, auth), TopicEntry(oauthKey, oauth));
    assert [] + TopicEntry(oauthKey, oauth) == TopicEntry(oauthKey, oauth);
  }

  /** Removal accepts the topic, and every field it keeps lies inside the topic; an entry that it
      removes may run past the end. */
  ghost predicate Rewritable(topic: seq<Byte>, key: string) {
    Removed(topic, key).Returned? && AllWhole(Kept(Scan(topic).records, key))
  }

  lemma WellFormedIsRewritable(topic: seq<Byte>, key: string)
    requires WellFormed(topic)
    ensures Rewritable(topic, key)
  {
    ScanGivesSequence(topic);
    KeptSequence(Scan(topic).records, key);
  }

  lemma KeptAreReadable(topic: seq<Byte>, key: string)
    requires Removed(topic, key).Returned?
    ensures !AnyBad(Scan(topic).records) && !AnyBad(Kept(Scan(topic).records, key))
  {
    ScanGivesSequence(topic);
    KeptSequence(Scan(topic).records, key);
  }

  /** The fields of a rewritten topic: what removal kept, then what was appended. */
  lemma RewrittenFields(topic: seq<Byte>, authKey: string, auth: seq<Byte>, oauthKey: string, oauth: seq<Byte>)
    requires Rewritable(topic, oauthKey)
    ensures var kept := Kept(Scan(topic).records, oauthKey);
      && Rewritten(topic, authKey, auth, oauthKey, oauth).Returned?
      && Scan(Rewritten(topic, authKey, auth, oauthKey, oauth).value)
         == Fields(kept + AppendedRecords(kept, authKey, auth, oauthKey, oauth), true)
      && AllWhole(kept) && !AnyBad(kept)
  {
    hide Appended, AppendedRecords, AllWhole, AnyBad, Kept;
    KeptAreReadable(topic, oauthKey);
    RemovalKeepsTheOthers(topic, oauthKey);
    var left := Removed(topic, oauthKey).value;
    AppendedScan(Scan(left).records, authKey, auth, oauthKey, oauth);
    ScanConcat(left, Appended(Scan(left).records, authKey, auth, oauthKey, oauth));
  }

  lemma {:induction false} CountKept(records: seq<Record>, dropped: string, key: string)
    ensures Count(Kept(records, dropped), key) == if key == dropped then 0 else Count(records, key)
  {
    hide Has;
    if records != [] {
      var r, rest := records[0], records[1..];
      assert records == [r] + rest;
      CountKept(rest, dropped, key);
      KeptFront(r, rest, dropped);
      KeptFront(r, Kept(rest, dropped), key);
      if Has(r, dropped) && Has(r, key) { OneKeyPerEntry(r, dropped, key); }
    }
  }

  lemma OneKeyPerEntry(r: Record, a: string, b: string)
    requires Has(r, a) && Has(r, b)
    ensures a == b
  {}

  lemma AppendedCounts(
      records: seq<Record>, authKey: string, auth: seq<Byte>, oauthKey: string, oauth: seq<Byte>, key: string)
    requires auth != [] && oauth != [] && authKey != oauthKey
    ensures var appended := AppendedRecords(records, authKey, auth, oauthKey, oauth);
      && AllWhole(appended) && !AnyBad(appended)
      && Count(appended, oauthKey) == 1
      && Count(appended, authKey) == (if Count(records, authKey) > 0 then 0 else 1)
      && ReadEntries(EntriesOf(appended), key) ==
         if key == oauthKey then Some(oauth)
         else if key == authKey && Count(records, authKey) == 0 then Some(auth) else None
  {
    var a, b := NewEntry(authKey, auth), NewEntry(oauthKey, oauth);
    NewEntryIsGood(authKey, auth, authKey);
    NewEntryIsGood(authKey, auth, oauthKey);
    NewEntryIsGood(oauthKey, oauth, authKey);
    NewEntryIsGood(oauthKey, oauth, oauthKey);
    WrittenEntryReads(authKey, auth);
    WrittenEntryReads(oauthKey, oauth);
    var none: seq<Record> := [];
    assert [b] == [b] + none && [a] + [b] == [a, b];
    EntriesFront(b, none);
    EntriesFront(a, [b]);
    assert [EntryBody(oauthKey, oauth)] == [EntryBody(oauthKey, oauth)] + [];
    hide LenDelim, EntryBody, FieldText, PayloadOf, Has, Bad, ReadEntries, EntriesOf, AllWhole, AnyBad;
    AllWholeFront(b, none);
    AllWholeFront(a, [b]);
    AnyBadFront(b, none);
    AnyBadFront(a, [b]);
    NothingWrong();
    KeptFront(b, none, oauthKey);
    KeptFront(b, none, authKey);
    KeptFront(a, [b], oauthKey);
    KeptFront(a, [b], authKey);
    ReadEntriesFront(EntryBody(oauthKey, oauth), [], key);
    ReadEntriesFront(EntryBody(authKey, auth), [EntryBody(oauthKey, oauth)], key);
    assert [] + [b] == [b];
  }

  lemma NothingWrong()
    ensures AllWhole([]) && !AnyBad([]) && EntriesOf([]) == []
    ensures forall key :: ReadEntries([], key) == None
  {}

  lemma {:induction false} AllWholeConcat(a: seq<Record>, b: seq<Record>)
    ensures AllWhole(a + b) <==> AllWhole(a) && AllWhole(b)
    ensures AnyBad(a + b) <==> AnyBad(a) || AnyBad(b)
  {
    hide AllWhole, AnyBad, Bad;
    if a == [] {
      assert a + b == b;
      NothingWrong();
    } else {
      AllWholeConcat(a[1..], b);
      assert a == [a[0]] + a[1..];
      assert a + b == [a[0]] + (a[1..] + b);
      AllWholeFront(a[0], a[1..]);
      AllWholeFront(a[0], a[1..] + b);
      AnyBadFront(a[0], a[1..]);
      AnyBadFront(a[0], a[1..] + b);
    }
  }

  /** Rewriting a topic whose kept fields lie inside it: the new payload reads back, every other
      key reads as before (the sign-in state gets its default only if it had no entry), the
      result is well-formed, and there is exactly one entry of the rewritten key: the last
      field, the new one. */
  lemma RewriteReadsBack(
      topic: seq<Byte>, authKey: string, auth: seq<Byte>, oauthKey: string, oauth: seq<Byte>, key: string)
    requires Rewritable(topic, oauthKey) && authKey != oauthKey && auth != [] && oauth != []
    ensures Rewritten(topic, authKey, auth, oauthKey, oauth).Returned?
    ensures var out := Rewritten(topic, authKey, auth, oauthKey, oauth).value;
      && WellFormed(out)
      && Count(Scan(out).records, oauthKey) == 1
      && Scan(out).records != [] && Scan(out).records[|Scan(out).records| - 1] == NewEntry(oauthKey, oauth)
      && Count(Scan(out).records, authKey) == Max(1, Count(Scan(topic).records, authKey))
      && ReadTopic(out, key) ==
         if key == oauthKey then Some(oauth)
         else if key == authKey && Count(Scan(topic).records, authKey) == 0 then Some(auth)
         else ReadTopic(topic, key)
  {
    assert Removed(topic, oauthKey).Returned?;
    hide *;
    var records := Scan(topic).records;
    var kept := Kept(records, oauthKey);
    var appended := AppendedRecords(kept, authKey, auth, oauthKey, oauth);
    RewrittenFields(topic, authKey, auth, oauthKey, oauth);
    var out := Rewritten(topic, authKey, auth, oauthKey, oauth).value;
    assert Scan(out).records == kept + appended;
    KeptAreReadable(topic, oauthKey);
    CountKept(records, oauthKey, authKey);
    CountKept(records, oauthKey, oauthKey);
    AppendedCounts(kept, authKey, auth, oauthKey, oauth, key);
    AllWholeConcat(kept, appended);
    KeptConcat(kept, appended, oauthKey);
    KeptConcat(kept, appended, authKey);
    NewEntryIsLast(kept, kept, authKey, auth, oauthKey, oauth);
    AuthEntries(Count(records, authKey));
    ReadingBothParts(kept, appended, key);
    ReadingWithoutAKey(records, oauthKey, key);
    ReadsItsFields(topic, key);
    ReadsItsFields(out, key);
    if key == authKey && Count(records, authKey) == 0 { ReadingAnAbsentKey(records, authKey); }
  }

  lemma NewEntryIsLast(
      front: seq<Record>, records: seq<Record>, authKey: string, auth: seq<Byte>, oauthKey: string, oauth: seq<Byte>)
    ensures
      var all := front + AppendedRecords(records, authKey, auth, oauthKey, oauth);
      all != [] && all[|all| - 1] == NewEntry(oauthKey, oauth)
  {}

  lemma AuthEntries(n: nat)
    ensures n + (if n > 0 then 0 else 1) == Max(1, n)
  {}

  lemma ReadingBothParts(a: seq<Record>, b: seq<Record>, key: string)
    ensures
      var first := ReadEntries(EntriesOf(a), key);
      ReadEntries(EntriesOf(a + b), key) == if first.Some? then first else ReadEntries(EntriesOf(b), key)
  {
    MatchingConcat(a, b, 1);
    ReadEntriesConcat(EntriesOf(a), EntriesOf(b), key);
    hide ReadEntries, Matching;
  }

  lemma ReadsItsFields(topic: seq<Byte>, key: string)
    ensures ReadTopic(topic, key) == ReadEntries(EntriesOf(Scan(topic).records), key)
    ensures WellFormed(topic) <==>
      Scan(topic).complete && AllWhole(Scan(topic).records) && !AnyBad(Scan(topic).records)
  {
    hide Scan, ReadEntries, Matching;
  }

  /** A second sign-in replaces the first: one entry of the key, the newer one, and every
      other key still reads as in the original topic. */
  lemma SecondRewriteReplacesTheFirst(topic: seq<Byte>, authKey: string, auth: seq<Byte>, oauthKey: string,
                                      first: seq<Byte>, second: seq<Byte>, key: string)
    requires Rewritable(topic, oauthKey) && authKey != oauthKey && auth != [] && first != [] && second != []
    requires key != authKey && key != oauthKey
    ensures var once := Rewritten(topic, authKey, auth, oauthKey, first);
      && once.Returned?
      && Rewritten(once.value, authKey, auth, oauthKey, second).Returned?
      && var twice := Rewritten(once.value, authKey, auth, oauthKey, second).value;
      && Count(Scan(twice).records, oauthKey) == 1
      && ReadTopic(twice, oauthKey) == Some(second)
      && ReadTopic(twice, authKey) == ReadTopic(once.value, authKey)
      && ReadTopic(twice, key) == ReadTopic(topic, key)
  {
    hide *;
    RewriteReadsBack(topic, authKey, auth, oauthKey, first, key);
    var once := Rewritten(topic, authKey, auth, oauthKey, first).value;
    WellFormedIsRewritable(once, oauthKey);
    RewriteReadsBack(once, authKey, auth, oauthKey, second, key);
    RewriteReadsBack(once, authKey, auth, oauthKey, second, authKey);
    RewriteReadsBack(once, authKey, auth, oauthKey, second, oauthKey);
    AtLeastOne(Count(Scan(topic).records, authKey));
  }

  lemma AtLeastOne(n: nat)
    ensures Max(1, n) > 0
  {}

  // Why well-formedness matters.

  lemma PrefixFront(r: Record, a: seq<Record>, b: seq<Record>)
    ensures [r] + a <= [r] + b <==> a <= b
  {
    var x, y := [r] + a, [r] + b;
    assert x[1..] == a && y[1..] == b;
    if a <= b {
      assert y == x + b[|a|..];
    }
    if x <= y {
      assert x == y[..|x|];
      assert a == b[..|a|];
    }
  }

  lemma OverrunIsLost(data: seq<Byte>, more: seq<Byte>)
    requires data != [] && more != [] && Scan(data).complete && !First(data).value.Whole()
    ensures First(data).Some?
    ensures !(Scan(data).records <= Scan(data + more).records) && !AllWhole(Scan(data).records)
  {
    ScanFront(data);
    ScanFront(data + more);
    hide Scan;
    OverrunGrows(data, more);
    hide First;
    assert Scan(data).records[0] == First(data).value;
    assert Scan(data + more).records[0] == First(data + more).value;
  }

  /** Bytes appended to a readable topic leave its fields as they are exactly when every field
      lies inside the topic. */
  lemma {:induction false} AppendingKeepsFieldsIff(data: seq<Byte>, more: seq<Byte>)
    requires more != [] && Scan(data).complete
    ensures Scan(data).records <= Scan(data + more).records <==> AllWhole(Scan(data).records)
    decreases |data|
  {
    ScanNothing();
    NothingWrong();
    hide Scan, AllWhole, First;
    if data != [] {
      ScanFront(data);
      var r := First(data).value;
      if r.Whole() {
        var tail := data[|r.raw|..];
        FirstIsLocal(data, more);
        assert (data + more)[|r.raw|..] == tail + more;
        ScanFront(data + more);
        AppendingKeepsFieldsIff(tail, more);
        AllWholeFront(r, Scan(tail).records);
        PrefixFront(r, Scan(tail).records, Scan(tail + more).records);
      } else {
        OverrunIsLost(data, more);
      }
    }
  }

  lemma TopicEntryIsNotEmpty(key: string, payload: seq<Byte>)
    ensures TopicEntry(key, payload) != []
  {
    FieldReads(1, EntryBody(key, payload));
  }

  /** So the rewritten topic reads as the fields that removal kept followed by the appended
      entries exactly when each kept field lies inside the topic; and otherwise not even the
      kept fields read as before. */
  lemma RewriteKeepsFieldsIff(topic: seq<Byte>, authKey: string, auth: seq<Byte>, oauthKey: string, oauth: seq<Byte>)
    requires Removed(topic, oauthKey).Returned?
    ensures Rewritten(topic, authKey, auth, oauthKey, oauth).Returned?
    ensures
      var kept := Kept(Scan(topic).records, oauthKey);
      var fields := Scan(Rewritten(topic, authKey, auth, oauthKey, oauth).value);
      && (AllWhole(kept) <==> fields == Fields(kept + AppendedRecords(kept, authKey, auth, oauthKey, oauth), true))
      && (AllWhole(kept) <==> kept <= fields.records)
  {
    if AllWhole(Kept(Scan(topic).records, oauthKey)) { RewrittenFields(topic, authKey, auth, oauthKey, oauth); }
    hide TopicEntry, Scan, Removed, AllWhole, Kept, AppendedRecords;
    RemovalKeepsTheOthers(topic, oauthKey);
    var left := Removed(topic, oauthKey).value;
    TopicEntryIsNotEmpty(oauthKey, oauth);
    AppendingKeepsFieldsIff(left, Appended(Scan(left).records, authKey, auth, oauthKey, oauth));
  }

  /** A field number 2 that announces `size` bytes and brings none. */
  function Overrun(size: nat): seq<Byte> { Varint(2 * 8 + 2) + Varint(size) }

  function Swallowed(size: nat, more: seq<Byte>): Record {
    Record(2, 2, more, Overrun(size) + more, |Overrun(size)| + size)
  }

  lemma OverrunFirst(size: nat, more: seq<Byte>)
    requires |more| <= size
    ensures First(Overrun(size) + more) == Some(Swallowed(size, more)) && Overrun(size) != []
  {
    var tag := 2 * 8 + 2;
    var all, body := Overrun(size) + more, Varint(size) + more;
    DecodeInvertsVarint(tag, body);
    DecodeInvertsVarint(size, more);
    hide Varint, Decode;
    assert all == Varint(tag) + body;
    assert all[|Varint(tag)|..] == body;
    OverrunContent(size, more);
    hide Content, Clip;
    ClipAll(all, |Overrun(size)| + size);
  }

  lemma OverrunContent(size: nat, more: seq<Byte>)
    requires |more| <= size
    ensures Content(Varint(size) + more, 2) == more
  {
    DecodeInvertsVarint(size, more);
    hide Varint, Decode;
    assert (Varint(size) + more)[|Varint(size)|..] == more;
  }

  lemma ClipAll(data: seq<Byte>, end: nat)
    requires |data| <= end
    ensures Clip(data, 0, end) == data
  {}

  lemma OverrunSwallows(size: nat, more: seq<Byte>)
    requires |more| <= size
    ensures Scan(Overrun(size) + more) == Fields([Swallowed(size, more)], true)
  {
    OverrunFirst(size, more);
    ScanNothing();
    hide First, Overrun, Scan;
    var all := Overrun(size) + more;
    ScanFront(all);
    assert all[|all|..] == [];
    var none: seq<Record> := [];
    assert [Swallowed(size, more)] + none == [Swallowed(size, more)];
  }

  /** A topic whose last field runs past the end is accepted by the removal pass, but what the
      rewrite appends behind it disappears inside that field: the new token is not read back. */
  lemma OverrunningTopicLosesTheToken(authKey: string, auth: seq<Byte>, oauthKey: string, oauth: seq<Byte>, size: nat)
    requires |TopicEntry(authKey, auth) + TopicEntry(oauthKey, oauth)| <= size
    ensures var out := Rewritten(Overrun(size), authKey, auth, oauthKey, oauth);
      out.Returned? && ReadTopic(out.value, oauthKey) == None
    ensures Removed(Overrun(size), oauthKey).Returned? && !Rewritable(Overrun(size), oauthKey)
  {
    var topic := Overrun(size);
    assert topic + [] == topic;
    OverrunSwallows(size, []);
    var r := Swallowed(size, []);
    var none: seq<Record> := [];
    assert [r] == [r] + none;
    KeptFront(r, none, oauthKey);
    KeptFront(r, none, authKey);
    var more := TopicEntry(authKey, auth) + TopicEntry(oauthKey, oauth);
    OverrunSwallows(size, more);
    hide LenDelim, EntryBody, Scan, Overrun;
    assert Join([r]) == topic;
    assert !AnyBad([r]);
    assert Removed(topic, oauthKey) == Returned(topic);
    assert Rewritten(topic, authKey, auth, oauthKey, oauth) == Returned(topic + more);
    assert [r][0] == r;
    EntriesFront(Swallowed(size, more), none);
  }
}
