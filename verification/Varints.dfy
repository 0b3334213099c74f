/** Base 128 varints (Protocol Buffers Encoding, "Base 128 Varints"), as
    src-tauri/src/python/write_vscdb.py writes and both scripts read them. */
module Varints {
  import opened Prelude

  type Byte = b: nat | b < 256

  /** The bytes from an offset on; Python slices are empty beyond the end. */
  function Tail(data: seq<Byte>, offset: nat): seq<Byte> {
    if offset <= |data| then data[offset..] else []
  }

  function Varint(value: nat): (r: seq<Byte>)
    ensures |r| > 0
  {
    if value < 128 then [value] else [value % 128 + 128] + Varint(value / 128)
  }

  /** The number at the front of the data and how many bytes it takes; None when the data ends first. */
  function Decode(data: seq<Byte>): (r: Option<(nat, nat)>)
    ensures r.Some? ==> 0 < r.value.1 <= |data|
  {
    if data == [] then None
    else if data[0] < 128 then Some((data[0], 1))
    else match Decode(data[1..])
      case None => None
      case Some((value, size)) => Some((data[0] - 128 + 128 * value, size + 1))
  }

  lemma {:induction false} DecodeInvertsVarint(value: nat, rest: seq<Byte>)
    ensures Decode(Varint(value) + rest) == Some((value, |Varint(value)|))
  {
    if value >= 128 {
      DecodeInvertsVarint(value / 128, rest);
      assert (Varint(value) + rest)[1..] == Varint(value / 128) + rest;
    }
  }

  /** Known numbers ("Base 128 Varints"): the low groups come first. */
  lemma KnownNumbers()
    ensures Varint(1) == [1] && Varint(127) == [127] && Varint(128) == [128, 1]
    ensures Varint(150) == [0x96, 1] && Varint(300) == [0xAC, 2]
  {}

  /** Only the bytes of the number matter. */
  lemma {:induction false} DecodeIsLocal(data: seq<Byte>, more: seq<Byte>)
    ensures Decode(data).Some? ==> Decode(data + more) == Decode(data)
    ensures Decode(data).Some? ==> Decode(data[..Decode(data).value.1]) == Decode(data)
  {
    if data != [] && data[0] >= 128 {
      DecodeIsLocal(data[1..], more);
      assert (data + more)[1..] == data[1..] + more;
      if Decode(data).Some? {
        var size := Decode(data).value.1;
        assert data[..size][1..] == data[1..][..size - 1];
      }
    }
  }

  lemma VarintOfGroup(byte: Byte, value: nat)
    requires byte >= 128
    ensures Varint(byte - 128 + 128 * value) == if value == 0 then [byte - 128] else [byte] + Varint(value)
  {
    DivMod128(byte - 128, value);
  }

  lemma DivMod128(digit: nat, value: nat)
    requires digit < 128
    ensures (digit + 128 * value) / 128 == value && (digit + 128 * value) % 128 == digit
  {}

  /** No byte sequence shorter than the writer's decodes to the number, and one of the same
      length is the writer's. */
  lemma {:induction false} VarintIsShortest(data: seq<Byte>)
    requires Decode(data).Some?
    ensures |Varint(Decode(data).value.0)| <= Decode(data).value.1
    ensures |Varint(Decode(data).value.0)| == Decode(data).value.1
      ==> Varint(Decode(data).value.0) == data[..Decode(data).value.1]
  {
    if data[0] >= 128 {
      VarintIsShortest(data[1..]);
      var (value, size) := Decode(data[1..]).value;
      assert data[..size + 1] == [data[0]] + data[1..][..size];
      VarintOfGroup(data[0], value);
    }
  }

  /** encode_varint */
  method EncodeVarint(value: nat) returns (buf: seq<Byte>)
    ensures buf == Varint(value)
  {
    buf := [];
    var left := value;
    while left >= 128
      invariant buf + Varint(left) == Varint(value)
    {
      buf := buf + [left % 128 + 128];
      left := left / 128;
    }
    buf := buf + [left];
  }

  /** value << shift, where scale is 1 << shift. */
  function ShiftLeft(value: nat, scale: nat): nat { value * scale }

  lemma ShiftDigit(result: nat, digit: nat, value: nat, scale: nat)
    requires digit < 128
    ensures ShiftLeft(digit + 128 * value, scale) == ShiftLeft(digit, scale) + ShiftLeft(value, scale * 128)
    ensures result < scale ==> result + ShiftLeft(digit, scale) < scale * 128
  {
    assert (128 * value) * scale == value * (scale * 128);
    assert (digit + 128 * value) * scale == digit * scale + (128 * value) * scale;
    assert digit * scale <= 127 * scale;
  }

  /** Continues a reading that has `result` so far, at weight `scale`, after `taken` bytes. */
  function Resume(result: nat, scale: nat, taken: nat, rest: Option<(nat, nat)>): Option<(nat, nat)> {
    match rest
    case None => None
    case Some((value, size)) => Some((result + ShiftLeft(value, scale), taken + size))
  }

  lemma ResumeNext(result: nat, scale: nat, taken: nat, data: seq<Byte>, digit: nat)
    requires data != [] && result < scale && digit == if data[0] < 128 then data[0] else data[0] - 128
    ensures var next := result + ShiftLeft(digit, scale);
      && Resume(result, scale, taken, Decode(data)) ==
         (if data[0] < 128 then Some((next, taken + 1)) else Resume(next, scale * 128, taken + 1, Decode(data[1..])))
      && result <= next < scale * 128
  {
    ShiftDigit(result, digit, 0, scale);
    if data[0] >= 128 && Decode(data[1..]).Some? {
      ShiftDigit(result, digit, Decode(data[1..]).value.0, scale);
    }
    hide ShiftLeft;
  }

  lemma TailStep(data: seq<Byte>, offset: nat)
    ensures if offset >= |data| then Tail(data, offset) == []
            else (
              && Tail(data, offset) != [] && Tail(data, offset)[0] == data[offset]
              && Tail(data, offset)[1..] == Tail(data, offset + 1))
  {}

  lemma ResumeAtStart(rest: Option<(nat, nat)>)
    ensures Resume(0, 1, 0, rest) == rest
  {}

  lemma LowBits(byte: Byte)
    ensures byte % 128 == if byte < 128 then byte else byte - 128
  {}

  lemma ResumeAtEnd(result: nat, scale: nat, taken: nat)
    ensures Resume(result, scale, taken, Decode([])) == None
  {}

  /** read_varint.  `result` stays below `scale`, so the program's bitwise or is this addition. */
  method ReadVarint(data: seq<Byte>, offset: nat) returns (r: Outcome<(nat, nat)>)
    ensures r == match Decode(Tail(data, offset))
                 case None => Raised
                 case Some((value, size)) => Returned((value, offset + size))
  {
    var result: nat, scale: nat, pos := 0, 1, offset;
    hide *;
    ResumeAtStart(Decode(Tail(data, offset)));
    while true
      invariant pos >= offset && result < scale
      invariant Decode(Tail(data, offset)) == Resume(result, scale, pos - offset, Decode(Tail(data, pos)))
      decreases |data| - pos
    {
      TailStep(data, pos);
      if pos >= |data| {
        ResumeAtEnd(result, scale, pos - offset);
        return Raised;
      }
      var byte := data[pos];
      LowBits(byte);
      ResumeNext(result, scale, pos - offset, Tail(data, pos), byte % 128);
      result, pos := result + ShiftLeft(byte % 128, scale), pos + 1;
      if byte < 128 { break; }
      scale := scale * 128;
    }
    r := Returned((result, pos));
  }
}
