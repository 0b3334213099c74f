/** Base64 (section 4 of RFC 4648) with Python's decoder: characters outside the alphabet
    are skipped, and a completed pad sequence ends the input. */
module Base64 {
  import opened Prelude
  import opened Varints

  function Digit(n: nat): char
    requires n < 64
  {
    if n < 26 then ('A' as int + n) as char
    else if n < 52 then ('a' as int + (n - 26)) as char
    else if n < 62 then ('0' as int + (n - 52)) as char
    else if n == 62 then '+' else '/'
  }

  function ValueOf(c: char): (r: Option<nat>)
    ensures r.Some? ==> r.value < 64
  {
    if 'A' <= c <= 'Z' then Some(c as int - 'A' as int)
    else if 'a' <= c <= 'z' then Some(c as int - 'a' as int + 26)
    else if '0' <= c <= '9' then Some(c as int - '0' as int + 52)
    else if c == '+' then Some(62)
    else if c == '/' then Some(63)
    else None
  }

  lemma ValueOfDigit(n: nat)
    requires n < 64
    ensures ValueOf(Digit(n)) == Some(n) && Digit(n) != '='
  {}

  function Encode(data: seq<Byte>): (r: string)
    ensures data != [] ==> r != ""
  {
    if data == [] then ""
    else if |data| == 1 then
      [Digit(data[0] / 4), Digit(data[0] % 4 * 16), '=', '=']
    else if |data| == 2 then
      [Digit(data[0] / 4), Digit(data[0] % 4 * 16 + data[1] / 16), Digit(data[1] % 16 * 4), '=']
    else
      [Digit(data[0] / 4), Digit(data[0] % 4 * 16 + data[1] / 16), Digit(data[1] % 16 * 4 + data[2] / 64),
        Digit(data[2] % 64)]
      + Encode(data[3..])
  }

  /** The decoder's state: how many digits of the current group were read, the bits left over
      from them, and the pad characters seen since the last digit. */
  datatype Reading = Reading(digits: nat, left: nat, pads: nat)

  const START := Reading(0, 0, 0)

  predicate Consistent(state: Reading) {
    match state.digits
    case 0 => true
    case 1 => state.left < 64
    case 2 => state.left < 16
    case 3 => state.left < 4
    case _ => false
  }

  /** binascii.a2b_base64 in its lenient mode; None when the last group is incomplete. */
  function DecodeFrom(text: string, state: Reading): Option<seq<Byte>>
    requires Consistent(state)
    decreases |text|
  {
    if text == "" then (if state.digits == 0 then Some([]) else None)
    else
      var rest := text[1..];
      if text[0] == '=' then
        if state.digits >= 2 && state.digits + state.pads + 1 >= 4 then Some([])
        else DecodeFrom(rest, if state.digits >= 2 then state.(pads := state.pads + 1) else state)
      else match ValueOf(text[0])
        case None => DecodeFrom(rest, state)
        case Some(v) =>
          if state.digits == 0 then DecodeFrom(rest, Reading(1, v, 0))
          else if state.digits == 1 then After(state.left * 4 + v / 16, DecodeFrom(rest, Reading(2, v % 16, 0)))
          else if state.digits == 2 then After(state.left * 16 + v / 4, DecodeFrom(rest, Reading(3, v % 4, 0)))
          else After(state.left * 64 + v, DecodeFrom(rest, START))
  }

  function After(byte: Byte, rest: Option<seq<Byte>>): Option<seq<Byte>> {
    if rest.Some? then Some([byte] + rest.value) else None
  }

  /** base64.b64decode of a text: a character outside ASCII is an error. */
  function Decode(text: string): Option<seq<Byte>> {
    if exists c :: c in text && c as int >= 128 then None else DecodeFrom(text, START)
  }

  lemma DecodeDigit(n: nat, rest: string, state: Reading)
    requires n < 64 && Consistent(state)
    ensures DecodeFrom([Digit(n)] + rest, state) ==
      if state.digits == 0 then DecodeFrom(rest, Reading(1, n, 0))
      else if state.digits == 1 then After(state.left * 4 + n / 16, DecodeFrom(rest, Reading(2, n % 16, 0)))
      else if state.digits == 2 then After(state.left * 16 + n / 4, DecodeFrom(rest, Reading(3, n % 4, 0)))
      else After(state.left * 64 + n, DecodeFrom(rest, START))
  {
    ValueOfDigit(n);
    assert ([Digit(n)] + rest)[1..] == rest;
  }

  /** One group of four digits gives back its three bytes. */
  lemma DecodeGroup(a: Byte, b: Byte, c: Byte, rest: string)
    ensures DecodeFrom([Digit(a / 4), Digit(a % 4 * 16 + b / 16), Digit(b % 16 * 4 + c / 64), Digit(c % 64)] + rest,
        START)
      == After(a, After(b, After(c, DecodeFrom(rest, START))))
  {
    hide DecodeFrom, Digit;
    var d0, d1, d2, d3 := a / 4, a % 4 * 16 + b / 16, b % 16 * 4 + c / 64, c % 64;
    var t3 := [Digit(d3)] + rest;
    var t2 := [Digit(d2)] + t3;
    var t1 := [Digit(d1)] + t2;
    assert [Digit(d0), Digit(d1), Digit(d2), Digit(d3)] + rest == [Digit(d0)] + t1;
    DecodeDigit(d0, t1, START);
    DecodeDigit(d1, t2, Reading(1, d0, 0));
    DecodeDigit(d2, t3, Reading(2, d1 % 16, 0));
    DecodeDigit(d3, rest, Reading(3, d2 % 4, 0));
    assert d0 * 4 + d1 / 16 == a && d1 % 16 * 16 + d2 / 4 == b && d2 % 4 * 64 + d3 == c;
  }

  lemma DecodePad(rest: string, state: Reading)
    requires Consistent(state) && state.digits >= 2
    ensures DecodeFrom(['='] + rest, state) ==
      if state.digits + state.pads + 1 >= 4 then Some([]) else DecodeFrom(rest, state.(pads := state.pads + 1))
  {
    assert (['='] + rest)[1..] == rest;
  }

  lemma DecodeOneByte(a: Byte, more: string)
    ensures DecodeFrom(Encode([a]) + more, START) == Some([a])
  {
    var d0, d1 := a / 4, a % 4 * 16;
    var t3 := ['='] + more;
    var t2 := ['='] + t3;
    var t1 := [Digit(d1)] + t2;
    assert Encode([a]) + more == [Digit(d0)] + t1;
    hide DecodeFrom, Digit, Encode;
    DecodeDigit(d0, t1, START);
    DecodeDigit(d1, t2, Reading(1, d0, 0));
    DecodePad(t3, Reading(2, d1 % 16, 0));
    DecodePad(more, Reading(2, d1 % 16, 1));
    assert d0 * 4 + d1 / 16 == a;
    assert [a] + [] == [a];
  }

  lemma DecodeTwoBytes(a: Byte, b: Byte, more: string)
    ensures DecodeFrom(Encode([a, b]) + more, START) == Some([a, b])
  {
    var d0, d1, d2 := a / 4, a % 4 * 16 + b / 16, b % 16 * 4;
    var t3 := ['='] + more;
    var t2 := [Digit(d2)] + t3;
    var t1 := [Digit(d1)] + t2;
    assert Encode([a, b]) + more == [Digit(d0)] + t1;
    hide DecodeFrom, Digit, Encode;
    DecodeDigit(d0, t1, START);
    DecodeDigit(d1, t2, Reading(1, d0, 0));
    DecodeDigit(d2, t3, Reading(2, d1 % 16, 0));
    DecodePad(more, Reading(3, d2 % 4, 0));
    assert d0 * 4 + d1 / 16 == a && d1 % 16 * 16 + d2 / 4 == b;
    assert [a] + ([b] + []) == [a, b];
  }

  lemma EncodeFront(data: seq<Byte>, more: string)
    requires |data| > 2
    ensures
      var (a, b, c) := (data[0], data[1], data[2]);
      Encode(data) + more ==
        [Digit(a / 4), Digit(a % 4 * 16 + b / 16), Digit(b % 16 * 4 + c / 64), Digit(c % 64)]
        + (Encode(data[3..]) + more)
  {
    hide Digit;
  }

  function Before(data: seq<Byte>, rest: Option<seq<Byte>>): Option<seq<Byte>> {
    if rest.Some? then Some(data + rest.value) else None
  }

  lemma AfterIsBefore(byte: Byte, data: seq<Byte>, rest: Option<seq<Byte>>)
    ensures After(byte, Before(data, rest)) == Before([byte] + data, rest)
    ensures Before([], rest) == rest
  {
    if rest.Some? {
      assert [byte] + (data + rest.value) == ([byte] + data) + rest.value;
      assert [] + rest.value == rest.value;
    }
  }

  lemma GroupBefore(data: seq<Byte>, rest: Option<seq<Byte>>)
    requires |data| > 2
    ensures After(data[0], After(data[1], After(data[2], Before(data[3..], rest)))) == Before(data, rest)
  {
    hide After, Before;
    var tail := data[3..];
    AfterIsBefore(data[2], tail, rest);
    AfterIsBefore(data[1], [data[2]] + tail, rest);
    AfterIsBefore(data[0], [data[1]] + ([data[2]] + tail), rest);
    assert [data[0]] + ([data[1]] + ([data[2]] + tail)) == data;
  }

  lemma GroupBehind(data: seq<Byte>)
    requires |data| > 2
    ensures After(data[0], After(data[1], After(data[2], Some(data[3..])))) == Some(data)
    ensures |data| % 3 == |data[3..]| % 3
  {
    GroupBefore(data, Some([]));
    assert data[3..] + [] == data[3..] && data + [] == data;
  }

  lemma GroupAndTail(data: seq<Byte>, more: string)
    requires |data| > 2
    ensures
      DecodeFrom(Encode(data) + more, START) ==
        After(data[0], After(data[1], After(data[2], DecodeFrom(Encode(data[3..]) + more, START))))
  {
    hide DecodeFrom;
    EncodeFront(data, more);
    hide *;
    DecodeGroup(data[0], data[1], data[2], Encode(data[3..]) + more);
  }

  lemma ShortText(data: seq<Byte>, more: string)
    requires |data| < 3
    ensures
      DecodeFrom(Encode(data) + more, START) == if |data| == 0 then DecodeFrom(more, START) else Some(data)
  {
    if |data| == 0 { assert Encode(data) + more == more; }
    hide *;
    if |data| == 1 {
      DecodeOneByte(data[0], more);
      assert data == [data[0]];
    } else if |data| == 2 {
      DecodeTwoBytes(data[0], data[1], more);
      assert data == [data[0], data[1]];
    }
  }

  /** What follows whole groups is decoded behind them; what follows padding is not read. */
  lemma {:induction false} DecodeFromInvertsEncode(data: seq<Byte>, more: string)
    ensures DecodeFrom(Encode(data) + more, START) ==
      if |data| % 3 == 0 then Before(data, DecodeFrom(more, START)) else Some(data)
  {
    hide DecodeFrom, Encode, After, Before;
    if |data| < 3 {
      ShortText(data, more);
      AfterIsBefore(0, [], DecodeFrom(more, START));
    } else {
      DecodeFromInvertsEncode(data[3..], more);
      GroupAndTail(data, more);
      GroupBefore(data, DecodeFrom(more, START));
      GroupBehind(data);
    }
  }

  lemma {:induction false} EncodeIsAscii(data: seq<Byte>)
    ensures forall c :: c in Encode(data) ==> c as int < 128
  {
    if |data| > 2 { EncodeIsAscii(data[3..]); }
  }

  lemma NothingDecodes()
    ensures DecodeFrom("", START) == Some([])
  {}

  lemma DecodeInvertsEncode(data: seq<Byte>)
    ensures Decode(Encode(data)) == Some(data)
  {
    EncodeIsAscii(data);
    DecodeFromInvertsEncode(data, "");
    NothingDecodes();
    hide DecodeFrom, Encode;
    assert Encode(data) + "" == Encode(data);
    if |data| % 3 == 0 { assert data + [] == data; }
  }

  /** A padded text ends there: what follows is not read. */
  lemma PaddingEndsTheText(data: seq<Byte>, more: string)
    requires |data| % 3 != 0 && forall c :: c in more ==> c as int < 128
    ensures Decode(Encode(data) + more) == Some(data)
  {
    EncodeIsAscii(data);
    DecodeFromInvertsEncode(data, more);
    hide DecodeFrom, Encode;
  }

  /** An ASCII character outside the alphabet is skipped wherever it stands. */
  lemma {:induction false} ForeignCharacterIsSkipped(a: string, c: char, b: string, state: Reading)
    requires Consistent(state) && ValueOf(c).None? && c != '='
    ensures DecodeFrom(a + [c] + b, state) == DecodeFrom(a + b, state)
    decreases |a|
  {
    if a == "" {
      assert a + [c] + b == [c] + b && a + b == b;
      assert ([c] + b)[1..] == b;
    } else {
      var x, rest := a[0], a[1..];
      assert a + [c] + b == [x] + (rest + [c] + b) && a + b == [x] + (rest + b);
      forall next | Consistent(next) ensures DecodeFrom(rest + [c] + b, next) == DecodeFrom(rest + b, next) {
        ForeignCharacterIsSkipped(rest, c, b, next);
      }
      SameStep(x, rest + [c] + b, rest + b, state);
    }
  }

  /** One character leads both texts to the same state. */
  lemma SameStep(x: char, s: string, t: string, state: Reading)
    requires Consistent(state) && forall next | Consistent(next) :: DecodeFrom(s, next) == DecodeFrom(t, next)
    ensures DecodeFrom([x] + s, state) == DecodeFrom([x] + t, state)
  {
    assert ([x] + s)[1..] == s && ([x] + t)[1..] == t;
  }

  /** Known texts (section 10 of RFC 4648), and the two characters that are neither letters nor digits. */
  lemma KnownTexts()
    ensures Encode([102]) == "Zg==" && Encode([102, 111]) == "Zm8=" && Encode([102, 111, 111]) == "Zm9v"
    ensures Encode([251, 240]) == "+/A="
    ensures Decode("Zg") == None && Decode("Z") == None
  {}
}
