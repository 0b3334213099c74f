/** The field walks both scripts share: skip_field, find_fields, find_field_str. */
module FieldReader {
  import opened Prelude
  import opened Varints
  import opened Wire
  import Utf8

  /** The bodies of the length-delimited fields with one number, in order. */
  function Matching(records: seq<Record>, number: nat): seq<seq<Byte>> {
    if records == [] then []
    else (if records[0].Delimited(number) then [records[0].content] else []) + Matching(records[1..], number)
  }

  /** find_field_str: the first match, decoded. */
  function FieldText(data: seq<Byte>, number: nat): Option<string> {
    var found := Matching(Scan(data).records, number);
    if found == [] then None else Some(Utf8.DecodeIgnoring(found[0]))
  }

  lemma {:induction false} MatchingConcat(a: seq<Record>, b: seq<Record>, number: nat)
    ensures Matching(a + b, number) == Matching(a, number) + Matching(b, number)
  {
    if a == [] {
      assert a + b == b;
    } else {
      MatchingConcat(a[1..], b, number);
      assert (a + b)[1..] == a[1..] + b;
      var front := if a[0].Delimited(number) then [a[0].content] else [];
      assert front + (Matching(a[1..], number) + Matching(b, number)) ==
        (front + Matching(a[1..], number)) + Matching(b, number);
    }
  }

  lemma TailAfter(data: seq<Byte>, offset: nat, size: nat)
    requires offset + size <= |data|
    ensures Tail(data, offset)[size..] == Tail(data, offset + size)
  {}

  /** skip_field */
  method SkipField(data: seq<Byte>, offset: nat, wire: nat) returns (r: Outcome<nat>)
    ensures r == match BodySize(Tail(data, offset), wire)
                 case None => Raised
                 case Some(size) => Returned(offset + size)
  {
    if wire == 0 {
      var read := ReadVarint(data, offset);
      if read.Raised? { return Raised; }
      return Returned(read.value.1);
    } else if wire == 1 {
      return Returned(offset + 8);
    } else if wire == 2 {
      var read := ReadVarint(data, offset);
      if read.Raised? { return Raised; }
      return Returned(read.value.1 + read.value.0);
    } else if wire == 5 {
      return Returned(offset + 4);
    }
    r := Raised;
  }

  /** A field at an offset: where its body starts and where the next field starts. */
  datatype Step = Step(number: nat, wire: nat, body: nat, next: nat)

  /** The parts of the field at an offset, by offsets. */
  lemma FirstAt(data: seq<Byte>, offset: nat)
    requires offset < |data|
    ensures
      match Decode(Tail(data, offset))
      case None => First(Tail(data, offset)) == None
      case Some((value, size)) =>
        var body := Tail(data, offset + size);
        (match BodySize(body, value % 8)
         case None => First(Tail(data, offset)) == None
         case Some(length) =>
           && 0 < size && offset + size <= |data|
           && var f := First(Tail(data, offset));
              && f.Some? && f.value.field == value / 8 && f.value.wire == value % 8 && f.value.span == size + length
              && f.value.content == Content(body, value % 8)
              && Tail(data, offset + size + length) == Tail(data, offset)[|f.value.raw|..])
  {
    var tail := Tail(data, offset);
    if Decode(tail).Some? {
      TailAfter(data, offset, Decode(tail).value.1);
    }
    hide Decode, BodySize, Content;
  }

  /** Reads the tag at an offset and skips its body, as every walk does. */
  method ReadStep(data: seq<Byte>, offset: nat) returns (r: Outcome<Step>)
    requires offset < |data|
    ensures match First(Tail(data, offset))
      case None => r == Raised
      case Some(f) =>
        (&& r.Returned? && r.value.number == f.field && r.value.wire == f.wire && r.value.next == offset + f.span
         && r.value.body <= |data| && offset < r.value.next
         && Tail(data, r.value.next) == Tail(data, offset)[|f.raw|..]
         && f.content == Content(Tail(data, r.value.body), f.wire)
         && BodySize(Tail(data, r.value.body), f.wire).Some?)
  {
    FirstAt(data, offset);
    hide Decode, BodySize, Content, First, Tail;
    var tag := ReadVarint(data, offset);
    if tag.Raised? { return Raised; }
    var (value, body) := tag.value;
    var next := SkipField(data, body, value % 8);
    if next.Raised? { return Raised; }
    r := Returned(Step(value / 8, value % 8, body, next.value));
  }

  /** data[content_offset:content_offset + length] of a length-delimited field. */
  method ReadContent(data: seq<Byte>, body: nat) returns (r: Outcome<seq<Byte>>)
    requires body <= |data|
    ensures r == if BodySize(Tail(data, body), 2).Some? then Returned(Content(Tail(data, body), 2)) else Raised
  {
    var read := ReadVarint(data, body);
    if read.Raised? { return Raised; }
    var (length, start) := read.value;
    var end := start + length;
    assert Clip(Tail(data, body), start - body, end - body) == Clip(data, start, end);
    r := Returned(Clip(data, start, end));
  }

  lemma MatchingFront(data: seq<Byte>, number: nat)
    requires data != []
    ensures Matching(Scan(data).records, number) == match First(data)
      case None => []
      case Some(f) =>
        (if f.field == number && f.wire == 2 then [f.content] else []) + Matching(Scan(data[|f.raw|..]).records, number)
  {
    ScanFront(data);
    hide Scan, First;
    if First(data).Some? {
      var f := First(data).value;
      assert ([f] + Scan(data[|f.raw|..]).records)[1..] == Scan(data[|f.raw|..]).records;
    }
  }

  lemma MatchingNothing(number: nat)
    ensures Matching(Scan([]).records, number) == []
  {}

  /** find_fields: collects up to the first field that cannot be read. */
  method FindFields(data: seq<Byte>, number: nat) returns (results: seq<seq<Byte>>)
    ensures results == Matching(Scan(data).records, number)
  {
    hide *;
    var offset := 0;
    results := [];
    TailAll(data);
    while offset < |data|
      invariant results + Matching(Scan(Tail(data, offset)).records, number) == Matching(Scan(data).records, number)
      decreases |data| - offset
    {
      TailStep(data, offset);
      MatchingFront(Tail(data, offset), number);
      var step := ReadStep(data, offset);
      if step.Raised? { return; }
      if step.value.number == number && step.value.wire == 2 {
        var content := ReadContent(data, step.value.body);
        results := results + [content.value];
      }
      offset := step.value.next;
    }
    TailStep(data, offset);
    MatchingNothing(number);
  }

  lemma TailAll(data: seq<Byte>)
    ensures Tail(data, 0) == data
  {}

  method FindFieldStr(data: seq<Byte>, number: nat) returns (r: Option<string>)
    ensures r == FieldText(data, number)
  {
    var fields := FindFields(data, number);
    r := if fields != [] then Some(Utf8.DecodeIgnoring(fields[0])) else None;
  }
}
