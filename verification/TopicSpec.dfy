/** Unified-state topics: what the writer keeps, appends and removes
    (src-tauri/src/python/write_vscdb.py) and what the reader finds
    (src-tauri/src/python/read_vscdb.py).

    A topic is a sequence of fields; an entry is a field number 1 whose body carries a
    sentinel key in its field 1 and a row in its field 2. */
module TopicSpec {
  import opened Prelude
  import opened Varints
  import opened Wire
  import opened FieldReader
  import Utf8
  import Base64

  // The writer's view of a topic.

  /** get_entry_key: stops at the first key field; raises if it meets something unreadable first. */
  function KeyOf(entry: seq<Byte>): Outcome<Option<string>> {
    var found := Matching(Scan(entry).records, 1);
    if found != [] then Returned(Some(Utf8.DecodeIgnoring(found[0])))
    else if Scan(entry).complete then Returned(None)
    else Raised
  }

  predicate Bad(r: Record) { r.Delimited(1) && KeyOf(r.content).Raised? }

  predicate Has(r: Record, key: string) { r.Delimited(1) && KeyOf(r.content) == Returned(Some(key)) }

  predicate AnyBad(records: seq<Record>) { exists i :: 0 <= i < |records| && Bad(records[i]) }

  function Kept(records: seq<Record>, key: string): seq<Record> {
    if records == [] then []
    else (if Has(records[0], key) then [] else [records[0]]) + Kept(records[1..], key)
  }

  function Count(records: seq<Record>, key: string): nat {
    if records == [] then 0 else (if Has(records[0], key) then 1 else 0) + Count(records[1..], key)
  }

  /** remove_unified_topic_entry: exactly the bytes of the fields that are not entries of the
      key, in order; raises when any field or any entry cannot be read. */
  function Removed(topic: seq<Byte>, key: string): Outcome<seq<Byte>> {
    if !Scan(topic).complete || AnyBad(Scan(topic).records) then Raised
    else Returned(Join(Kept(Scan(topic).records, key)))
  }

  /** A topic whose every field is readable and inside the data. */
  ghost predicate WellFormed(topic: seq<Byte>) {
    Scan(topic).complete && AllWhole(Scan(topic).records) && !AnyBad(Scan(topic).records)
  }

  // The reader's view of a topic.

  function PayloadOf(entry: seq<Byte>): Option<seq<Byte>> {
    var rows := Matching(Scan(entry).records, 2);
    if rows == [] then None
    else match FieldText(rows[0], 1)
      case None => None
      case Some(text) => if text == "" then None else Base64.Decode(text)
  }

  /** The payload of the first entry of the key that has a decodable one. */
  function ReadEntries(entries: seq<seq<Byte>>, key: string): Option<seq<Byte>> {
    if entries == [] then None
    else if FieldText(entries[0], 1) == Some(key) && PayloadOf(entries[0]).Some? then PayloadOf(entries[0])
    else ReadEntries(entries[1..], key)
  }

  function ReadTopic(topic: seq<Byte>, key: string): Option<seq<Byte>> {
    ReadEntries(Matching(Scan(topic).records, 1), key)
  }

  /** decode_unified_state_entry */
  function ReadState(stored: string, key: string): Option<seq<Byte>> {
    match Base64.Decode(stored)
    case None => None
    case Some(topic) => ReadTopic(topic, key)
  }

  // What the removal pass keeps.

  lemma KeptFront(r: Record, rest: seq<Record>, key: string)
    ensures Kept([r] + rest, key) == if Has(r, key) then Kept(rest, key) else [r] + Kept(rest, key)
    ensures Count([r] + rest, key) == (if Has(r, key) then 1 else 0) + Count(rest, key)
  {
    hide Has;
    assert ([r] + rest)[1..] == rest;
  }

  lemma {:induction false} KeptConcat(a: seq<Record>, b: seq<Record>, key: string)
    ensures Kept(a + b, key) == Kept(a, key) + Kept(b, key)
    ensures Count(a + b, key) == Count(a, key) + Count(b, key)
  {
    hide Has;
    if a == [] {
      assert a + b == b;
    } else {
      KeptConcat(a[1..], b, key);
      assert (a + b)[1..] == a[1..] + b;
      var front: seq<Record> := if Has(a[0], key) then [] else [a[0]];
      assert front + (Kept(a[1..], key) + Kept(b, key)) == (front + Kept(a[1..], key)) + Kept(b, key);
    }
  }

  /** Kept drops exactly the entries of the key. */
  lemma {:induction false} KeptIs(records: seq<Record>, key: string)
    ensures forall r :: r in Kept(records, key) <==> r in records && !Has(r, key)
    ensures Count(records, key) == 0 <==> Kept(records, key) == records
    ensures |Kept(records, key)| + Count(records, key) == |records|
  {
    hide Has;
    if records != [] {
      KeptIs(records[1..], key);
      assert records == [records[0]] + records[1..];
      if Has(records[0], key) { assert |Kept(records, key)| < |records|; }
    }
  }

  lemma ConsIndex<T>(r: T, rest: seq<T>)
    ensures ([r] + rest)[0] == r && forall i {:trigger ([r] + rest)[i]} :: 0 < i <= |rest| ==>
        ([r] + rest)[i] == rest[i - 1]
  {}

  lemma StandaloneFront(r: Record, rest: seq<Record>)
    ensures (forall i :: 0 <= i < |[r] + rest| ==> Standalone(([r] + rest)[i]))
      <==> Standalone(r) && forall i :: 0 <= i < |rest| ==> Standalone(rest[i])
  {
    hide Standalone;
    ConsIndex(r, rest);
    forall i | 0 <= i < |rest| ensures ([r] + rest)[i + 1] == rest[i] {}
  }

  lemma WholeButLastFront(r: Record, rest: seq<Record>)
    ensures (forall i :: 0 <= i < |[r] + rest| - 1 ==> ([r] + rest)[i].Whole())
      <==> (rest != [] ==> r.Whole()) && forall i :: 0 <= i < |rest| - 1 ==> rest[i].Whole()
  {
    ConsIndex(r, rest);
    forall i | 0 <= i < |rest| ensures ([r] + rest)[i + 1] == rest[i] {}
  }

  lemma SequenceFront(r: Record, rest: seq<Record>)
    ensures Sequence([r] + rest) <==> Standalone(r) && Sequence(rest) && (rest != [] ==> r.Whole())
  {
    hide Standalone;
    StandaloneFront(r, rest);
    WholeButLastFront(r, rest);
  }

  lemma AllWholeFront(r: Record, rest: seq<Record>)
    ensures AllWhole([r] + rest) <==> r.Whole() && AllWhole(rest)
  {
    ConsIndex(r, rest);
    forall i | 0 <= i < |rest| ensures ([r] + rest)[i + 1] == rest[i] {}
  }

  lemma AnyBadFront(r: Record, rest: seq<Record>)
    ensures AnyBad([r] + rest) <==> Bad(r) || AnyBad(rest)
  {
    hide Bad;
    ConsIndex(r, rest);
    if Bad(r) { assert Bad(([r] + rest)[0]); }
    if AnyBad(rest) {
      var i :| 0 <= i < |rest| && Bad(rest[i]);
      assert Bad(([r] + rest)[i + 1]);
    }
  }

  lemma {:induction false} KeptSequence(records: seq<Record>, key: string)
    requires Sequence(records)
    ensures Sequence(Kept(records, key))
    ensures AllWhole(records) ==> AllWhole(Kept(records, key))
    ensures !AnyBad(records) ==> !AnyBad(Kept(records, key))
  {
    hide Has, Sequence, AllWhole, AnyBad;
    if records != [] {
      var r, rest := records[0], records[1..];
      assert records == [r] + rest;
      SequenceFront(r, rest);
      AllWholeFront(r, rest);
      AnyBadFront(r, rest);
      KeptSequence(rest, key);
      KeptFront(r, rest, key);
      KeptIs(rest, key);
      SequenceFront(r, Kept(rest, key));
      AllWholeFront(r, Kept(rest, key));
      AnyBadFront(r, Kept(rest, key));
    }
  }

  lemma {:induction false} KeptTwice(records: seq<Record>, key: string)
    ensures Count(Kept(records, key), key) == 0 && Kept(Kept(records, key), key) == Kept(records, key)
  {
    hide Has;
    if records != [] {
      var r, rest := records[0], records[1..];
      assert records == [r] + rest;
      KeptTwice(rest, key);
      KeptFront(r, rest, key);
      KeptFront(r, Kept(rest, key), key);
    }
  }

  /** After removal the topic's fields are the others, unchanged and in order, and removing
      again changes nothing. */
  lemma RemovalKeepsTheOthers(topic: seq<Byte>, key: string)
    requires Removed(topic, key).Returned?
    ensures var left := Removed(topic, key).value;
      && Scan(left) == Fields(Kept(Scan(topic).records, key), true)
      && Count(Scan(left).records, key) == 0
      && Removed(left, key) == Returned(left)
      && (WellFormed(topic) ==> WellFormed(left))
  {
    ScanGivesSequence(topic);
    KeptSequence(Scan(topic).records, key);
    KeptTwice(Scan(topic).records, key);
    ScanInvertsJoin(Kept(Scan(topic).records, key));
  }

  /** There is an entry in which no key is found and which cannot be read to its end. */
  ghost predicate HasUnreadableEntry(records: seq<Record>) {
    exists body :: body in Matching(records, 1) && FieldText(body, 1) == None && !Scan(body).complete
  }

  lemma UnreadableEntryIsBad(r: Record)
    ensures Bad(r) <==> r.Delimited(1) && FieldText(r.content, 1) == None && !Scan(r.content).complete
  {}

  lemma {:induction false} UnreadableEntriesAreBad(records: seq<Record>)
    ensures AnyBad(records) <==> HasUnreadableEntry(records)
  {
    hide Bad, AnyBad, FieldText, Scan;
    if records == [] {
      NothingIsBad();
    } else {
      var r, rest := records[0], records[1..];
      assert records == [r] + rest;
      UnreadableEntriesAreBad(rest);
      AnyBadFront(r, rest);
      UnreadableEntryIsBad(r);
      var own := if r.Delimited(1) then [r.content] else [];
      assert Matching(records, 1) == own + Matching(rest, 1);
      assert forall body :: body in Matching(records, 1) <==> body in own || body in Matching(rest, 1);
    }
  }

  lemma NothingIsBad()
    ensures !AnyBad([])
  {}

  /** Removal raises exactly when the topic cannot be read to its end, or an entry cannot and no key
      is found in it. */
  lemma RemovalRaisesIff(topic: seq<Byte>, key: string)
    ensures Removed(topic, key).Raised? <==> !Scan(topic).complete || HasUnreadableEntry(Scan(topic).records)
  {
    hide AnyBad, HasUnreadableEntry, Scan, Kept;
    UnreadableEntriesAreBad(Scan(topic).records);
  }
}
