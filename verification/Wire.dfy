/** Fields of a serialized message, as both scripts walk them: tag, then a body whose length
    the wire type decides.  A body may run past the end of the data; slices then come short. */
module Wire {
  import opened Prelude
  import opened Varints

  /** One field: `raw` is the slice the walk steps over, `span` the length it steps, and
      `content` the body of a length-delimited field. */
  datatype Record = Record(field: nat, wire: nat, content: seq<Byte>, raw: seq<Byte>, span: nat) {

    /** The field lies completely inside the data. */
    predicate Whole() { |raw| == span }

    predicate Delimited(number: nat) { field == number && wire == 2 }
  }

  function Clip(data: seq<Byte>, start: nat, end: nat): seq<Byte>
    requires start <= end && start <= |data|
  {
    data[start..if end <= |data| then end else |data|]
  }

  /** skip_field relative to the body; None when it raises. */
  function BodySize(body: seq<Byte>, wire: nat): Option<nat> {
    if wire == 0 then (match Decode(body) case None => None case Some((_, size)) => Some(size))
    else if wire == 1 then Some(8)
    else if wire == 2 then (match Decode(body) case None => None case Some((length, size)) => Some(size + length))
    else if wire == 5 then Some(4)
    else None
  }

  function Content(body: seq<Byte>, wire: nat): seq<Byte> {
    if wire != 2 then [] else match Decode(body)
      case None => []
      case Some((length, size)) => Clip(body, size, size + length)
  }

  /** The field at the front of the data. */
  function First(data: seq<Byte>): (r: Option<Record>)
    ensures r.Some? ==> 0 < |r.value.raw| && |r.value.raw| == (if r.value.span <= |data| then r.value.span else |data|)
    ensures r.Some? ==> r.value.raw == data[..|r.value.raw|]
  {
    match Decode(data)
    case None => None
    case Some((tag, tagSize)) =>
      match BodySize(data[tagSize..], tag % 8)
      case None => None
      case Some(size) =>
        Some(Record(tag / 8, tag % 8, Content(data[tagSize..], tag % 8), Clip(data, 0, tagSize + size), tagSize + size))
  }

  datatype Fields = Fields(records: seq<Record>, complete: bool)

  /** Every field up to the end of the data, or up to the first one that cannot be read. */
  function Scan(data: seq<Byte>): Fields
    decreases |data|
  {
    if data == [] then Fields([], true)
    else match First(data)
      case None => Fields([], false)
      case Some(r) =>
        var rest := Scan(data[|r.raw|..]);
        Fields([r] + rest.records, rest.complete)
  }

  function Join(records: seq<Record>): seq<Byte> {
    if records == [] then [] else records[0].raw + Join(records[1..])
  }

  /** A field whose bytes read back as itself. */
  ghost predicate Standalone(r: Record) {
    First(r.raw) == Some(r)
  }

  /** Fields that can stand in sequence: only the last one may run past the end. */
  ghost predicate Sequence(records: seq<Record>) {
    && (forall i :: 0 <= i < |records| ==> Standalone(records[i]))
    && (forall i :: 0 <= i < |records| - 1 ==> records[i].Whole())
  }

  ghost predicate AllWhole(records: seq<Record>) {
    forall i :: 0 <= i < |records| ==> records[i].Whole()
  }

  lemma BodyIsLocal(body: seq<Byte>, more: seq<Byte>, wire: nat)
    requires BodySize(body, wire).Some? && BodySize(body, wire).value <= |body|
    ensures BodySize(body + more, wire) == BodySize(body, wire) && Content(body + more, wire) == Content(body, wire)
    ensures var own := body[..BodySize(body, wire).value];
      BodySize(own, wire) == BodySize(body, wire) && Content(own, wire) == Content(body, wire)
  {
    if wire == 0 || wire == 2 {
      var size, body' := Decode(body).value.1, body[..BodySize(body, wire).value];
      DecodeIsLocal(body, more);
      DecodeIsLocal(body[..size], body[size..BodySize(body, wire).value]);
      assert body' == body[..size] + body[size..BodySize(body, wire).value];
    }
  }

  /** The same tag and a body that reads the same give the same field. */
  lemma FirstByParts(data: seq<Byte>, other: seq<Byte>)
    requires First(data).Some? && First(data).value.Whole()
    requires Decode(other) == Decode(data)
    requires
      var (tag, tagSize) := Decode(data).value;
      && BodySize(other[tagSize..], tag % 8) == BodySize(data[tagSize..], tag % 8)
      && Content(other[tagSize..], tag % 8) == Content(data[tagSize..], tag % 8)
    requires |other| >= First(data).value.span && other[..First(data).value.span] == data[..First(data).value.span]
    ensures First(other) == First(data)
  {
    hide Decode, BodySize, Content;
  }

  lemma FirstStartsWhole(data: seq<Byte>)
    requires First(data).Some? && First(data).value.Whole()
    ensures Decode(data).Some? && Decode(data).value.1 <= First(data).value.span <= |data|
    ensures
      var (tag, tagSize) := Decode(data).value;
      BodySize(data[tagSize..], tag % 8) == Some(First(data).value.span - tagSize)
  {
    hide Decode, BodySize, Content;
  }

  lemma FirstWithMore(data: seq<Byte>, more: seq<Byte>)
    requires First(data).Some? && First(data).value.Whole()
    ensures First(data + more) == First(data)
  {
    FirstStartsWhole(data);
    var (tag, tagSize) := Decode(data).value;
    hide First, BodySize, Content, Decode;
    DecodeIsLocal(data, more);
    assert (data + more)[tagSize..] == data[tagSize..] + more;
    BodyIsLocal(data[tagSize..], more, tag % 8);
    FirstByParts(data, data + more);
  }

  lemma FirstRaw(data: seq<Byte>)
    requires First(data).Some? && First(data).value.Whole()
    ensures First(data).value.raw == data[..First(data).value.span]
  {
    hide First;
  }

  lemma Slices(data: seq<Byte>, a: nat, b: nat)
    requires a <= b <= |data|
    ensures data[..b] == data[..a] + data[a..b]
    ensures data[..b][a..] == data[a..b] == data[a..][..b - a]
    ensures data + [] == data
  {}

  lemma FirstAlone(data: seq<Byte>)
    requires First(data).Some? && First(data).value.Whole()
    ensures First(First(data).value.raw) == First(data)
  {
    FirstStartsWhole(data);
    var (tag, tagSize) := Decode(data).value;
    var raw := First(data).value.raw;
    var start, own := data[..tagSize], data[tagSize..First(data).value.span];
    hide First, BodySize, Content, Decode;
    FirstRaw(data);
    DecodeIsLocal(data, []);
    DecodeIsLocal(start, own);
    Slices(data, tagSize, First(data).value.span);
    BodyIsLocal(data[tagSize..], [], tag % 8);
    FirstByParts(data, raw);
  }

  /** A field inside the data does not depend on what follows it. */
  lemma FirstIsLocal(data: seq<Byte>, more: seq<Byte>)
    requires First(data).Some? && First(data).value.Whole()
    ensures First(data + more) == First(data)
    ensures Standalone(First(data).value)
  {
    hide First;
    FirstWithMore(data, more);
    FirstAlone(data);
  }

  lemma FirstIsStandalone(data: seq<Byte>)
    requires First(data).Some?
    ensures Standalone(First(data).value)
  {
    if First(data).value.Whole() { FirstIsLocal(data, []); } else { assert First(data).value.raw == data; }
  }

  lemma {:induction false} ScanGivesSequence(data: seq<Byte>)
    ensures Sequence(Scan(data).records)
    ensures Scan(data).complete ==> Join(Scan(data).records) == data
    decreases |data|
  {
    if data != [] && First(data).Some? {
      var r := First(data).value;
      var rest := Scan(data[|r.raw|..]).records;
      FirstIsStandalone(data);
      ScanGivesSequence(data[|r.raw|..]);
      assert data == r.raw + data[|r.raw|..];
      assert Scan(data).records[1..] == rest;
      forall i | 0 <= i < |rest| ensures Scan(data).records[i + 1] == rest[i] {}
    }
  }

  /** Reading fields back from their own bytes. */
  lemma {:induction false} ScanInvertsJoin(records: seq<Record>)
    requires Sequence(records)
    ensures Scan(Join(records)) == Fields(records, true)
  {
    if records != [] {
      var r, rest := records[0], records[1..];
      forall i | 0 <= i < |rest| ensures rest[i] == records[i + 1] {}
      ScanInvertsJoin(rest);
      if rest == [] {
        assert Join(records) == r.raw;
        assert r.raw[|r.raw|..] == [];
      } else {
        FirstIsLocal(r.raw, Join(rest));
        assert (r.raw + Join(rest))[|r.raw|..] == Join(rest);
      }
      assert records == [r] + rest;
    }
  }

  lemma ScanFront(data: seq<Byte>)
    requires data != []
    ensures match First(data)
      case None => Scan(data) == Fields([], false)
      case Some(r) => var rest := Scan(data[|r.raw|..]); Scan(data) == Fields([r] + rest.records, rest.complete)
  {}

  lemma WholeFront(r: Record, rest: seq<Record>)
    requires AllWhole([r] + rest)
    ensures r.Whole() && AllWhole(rest)
  {
    assert ([r] + rest)[0] == r;
    forall i | 0 <= i < |rest| ensures rest[i].Whole() { assert ([r] + rest)[i + 1] == rest[i]; }
  }

  lemma ScanFrontConcat(data: seq<Byte>, more: seq<Byte>) returns (r: Record, tail: seq<Byte>)
    requires data != [] && Scan(data).complete && AllWhole(Scan(data).records)
    ensures |tail| < |data| && Scan(tail).complete && AllWhole(Scan(tail).records)
    ensures Scan(data).records == [r] + Scan(tail).records
    ensures Scan(data + more) == Fields([r] + Scan(tail + more).records, Scan(tail + more).complete)
  {
    hide Scan, AllWhole;
    ScanFront(data);
    r := First(data).value;
    tail := data[|r.raw|..];
    WholeFront(r, Scan(tail).records);
    FirstIsLocal(data, more);
    hide First;
    assert (data + more)[|r.raw|..] == tail + more;
    ScanFront(data + more);
  }

  lemma ScanNothing()
    ensures Scan([]) == Fields([], true)
  {}

  /** Appending behind fields that are all inside the data appends to the reading. */
  lemma {:induction false} ScanConcat(data: seq<Byte>, more: seq<Byte>)
    requires Scan(data).complete && AllWhole(Scan(data).records)
    ensures Scan(data + more) == Fields(Scan(data).records + Scan(more).records, Scan(more).complete)
    decreases |data|
  {
    hide *;
    if data == [] {
      assert data + more == more;
      ScanNothing();
      assert [] + Scan(more).records == Scan(more).records;
    } else {
      var r, tail := ScanFrontConcat(data, more);
      ScanConcat(tail, more);
      assert Scan(data).records + Scan(more).records == [r] + (Scan(tail).records + Scan(more).records);
    }
  }

  /** The bytes of a field: its tag, then its body. */
  function Tagged(number: nat, wire: nat, body: seq<Byte>): seq<Byte> { Varint(number * 8 + wire) + body }

  lemma TagParts(number: nat, wire: nat)
    requires wire < 8
    ensures (number * 8 + wire) % 8 == wire && (number * 8 + wire) / 8 == number
  {}

  lemma TaggedFirst(number: nat, wire: nat, body: seq<Byte>)
    requires wire < 8
    ensures Tagged(number, wire, body) != []
    ensures First(Tagged(number, wire, body)) ==
      match BodySize(body, wire)
      case None => None
      case Some(size) =>
        var span := |Varint(number * 8 + wire)| + size;
        Some(Record(number, wire, Content(body, wire), Clip(Tagged(number, wire, body), 0, span), span))
  {
    DecodeInvertsVarint(number * 8 + wire, body);
    TagParts(number, wire);
    hide Varint, Decode, BodySize, Content;
    assert Tagged(number, wire, body)[|Varint(number * 8 + wire)|..] == body;
  }

  /** A tag and a body of the length its wire type gives stand as one field before anything. */
  lemma TaggedScan(number: nat, wire: nat, body: seq<Byte>, more: seq<Byte>)
    requires wire < 8 && BodySize(body, wire) == Some(|body|)
    ensures
      var raw := Tagged(number, wire, body);
      Scan(raw + more) ==
        Fields([Record(number, wire, Content(body, wire), raw, |raw|)] + Scan(more).records, Scan(more).complete)
  {
    TaggedFirst(number, wire, body);
    hide BodySize, Content, First, Scan, Varint;
    var raw := Tagged(number, wire, body);
    assert Clip(raw, 0, |raw|) == raw;
    FirstIsLocal(raw, more);
    ScanFront(raw + more);
    assert (raw + more)[|raw|..] == more;
  }

  /** Fixed-width fields: wire type 1 takes the next eight bytes and wire type 5 the next four. */
  lemma FixedFieldsReadBack(number: nat, body: seq<Byte>, more: seq<Byte>)
    ensures |body| == 8 ==>
      var raw := Varint(number * 8 + 1) + body;
      Scan(raw + more) == Fields([Record(number, 1, [], raw, |raw|)] + Scan(more).records, Scan(more).complete)
    ensures |body| == 4 ==>
      var raw := Varint(number * 8 + 5) + body;
      Scan(raw + more) == Fields([Record(number, 5, [], raw, |raw|)] + Scan(more).records, Scan(more).complete)
  {
    hide Scan, Varint;
    if |body| == 8 { TaggedScan(number, 1, body, more); }
    if |body| == 4 { TaggedScan(number, 5, body, more); }
  }

  /** A field of any other wire type ends the reading. */
  lemma OtherWireTypesAreUnreadable(number: nat, wire: nat, body: seq<Byte>)
    requires wire == 3 || wire == 4 || wire == 6 || wire == 7
    ensures Scan(Varint(number * 8 + wire) + body) == Fields([], false)
  {
    TaggedFirst(number, wire, body);
    hide First, Scan, Varint;
    ScanFront(Tagged(number, wire, body));
  }

  /** The number a field of wire type 0 carries, read behind its tag. */
  function Number(r: Record): Option<nat> {
    match Decode(r.raw)
    case None => None
    case Some((_, size)) =>
      match Decode(r.raw[size..])
      case None => None
      case Some((value, _)) => Some(value)
  }

  function NumberRecord(number: nat, value: nat): Record {
    var raw := Varint(number * 8) + Varint(value);
    Record(number, 0, [], raw, |raw|)
  }

  /** A number field reads back with its number. */
  lemma NumberFieldReadsBack(number: nat, value: nat, more: seq<Byte>)
    ensures Scan(NumberRecord(number, value).raw + more) ==
        Fields([NumberRecord(number, value)] + Scan(more).records, Scan(more).complete)
    ensures Number(NumberRecord(number, value)) == Some(value)
  {
    var body := Varint(value);
    DecodeInvertsVarint(number * 8, body);
    DecodeInvertsVarint(value, []);
    hide Varint, Decode, Scan;
    assert body + [] == body;
    assert NumberRecord(number, value).raw[|Varint(number * 8)|..] == body;
    TaggedScan(number, 0, body, more);
  }

  /** A field that runs past the end swallows bytes appended behind it. */
  lemma OverrunGrows(data: seq<Byte>, more: seq<Byte>)
    requires First(data).Some? && !First(data).value.Whole() && more != []
    ensures First(data).value.raw == data
    ensures First(data + more).Some? && |First(data + more).value.raw| > |data|
  {
    var (tag, tagSize) := Decode(data).value;
    var body := data[tagSize..];
    DecodeIsLocal(data, more);
    DecodeIsLocal(body, more);
    assert (data + more)[tagSize..] == body + more;
    assert BodySize(body + more, tag % 8) == BodySize(body, tag % 8);
    hide BodySize, Content, Decode;
  }
}
