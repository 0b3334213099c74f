/** UTF-8 as the scripts use it: strict encoding, and decoding with errors='ignore'. */
module Utf8 {
  import opened Prelude
  import opened Varints

  function EncodeChar(c: char): (r: seq<Byte>)
    ensures |r| > 0
  {
    var v0 := c as int;
    var v1 := v0 / 64;
    var v2 := v1 / 64;
    if v0 < 0x80 then [v0]
    else if v0 < 0x800 then [0xC0 + v1, 0x80 + v0 % 64]
    else if v0 < 0x10000 then [0xE0 + v2, 0x80 + v1 % 64, 0x80 + v0 % 64]
    else [0xF0 + v2 / 64, 0x80 + v2 % 64, 0x80 + v1 % 64, 0x80 + v0 % 64]
  }

  function Encode(text: string): (r: seq<Byte>)
    ensures |r| >= |text|
  {
    if text == "" then [] else EncodeChar(text[0]) + Encode(text[1..])
  }

  predicate Continues(data: seq<Byte>, i: nat) {
    i < |data| && 0x80 <= data[i] < 0xC0
  }

  /** Appends the six bits of a continuation byte. */
  function Extend(high: int, data: seq<Byte>, i: nat): int
    requires i < |data|
  {
    high * 64 + (data[i] as int - 0x80)
  }

  /** The code point of a well-formed sequence at the front, and its length.  Overlong forms,
      surrogates and values beyond 0x10FFFF are not well-formed. */
  function DecodeChar(data: seq<Byte>): (r: Option<(char, nat)>)
    requires data != []
    ensures r.Some? ==> 0 < r.value.1 <= |data|
  {
    var b := data[0] as int;
    if b < 0x80 then Some((b as char, 1))
    else if 0xC0 <= b < 0xE0 && Continues(data, 1) then
      var v := Extend(b - 0xC0, data, 1);
      if v >= 0x80 then Some((v as char, 2)) else None
    else if 0xE0 <= b < 0xF0 && Continues(data, 1) && Continues(data, 2) then
      var v := Extend(Extend(b - 0xE0, data, 1), data, 2);
      if 0x800 <= v < 0xD800 || 0xE000 <= v then Some((v as char, 3)) else None
    else if 0xF0 <= b < 0xF8 && Continues(data, 1) && Continues(data, 2) && Continues(data, 3) then
      var v := Extend(Extend(Extend(b - 0xF0, data, 1), data, 2), data, 3);
      if 0x10000 <= v < 0x110000 then Some((v as char, 4)) else None
    else None
  }

  /** bytes.decode('utf-8', errors='ignore').  Dropping only the first byte of an ill-formed
      sequence is enough: the continuation bytes after it are ill-formed on their own. */
  function DecodeIgnoring(data: seq<Byte>): string {
    if data == [] then ""
    else match DecodeChar(data)
      case Some((c, size)) => [c] + DecodeIgnoring(data[size..])
      case None => DecodeIgnoring(data[1..])
  }

  lemma DecodeEncodedChar(c: char, rest: seq<Byte>)
    ensures DecodeChar(EncodeChar(c) + rest) == Some((c, |EncodeChar(c)|))
  {
    var code := EncodeChar(c);
    var data := code + rest;
    assert forall i :: 0 <= i < |code| ==> data[i] == code[i];
    var v0 := c as int;
    var v1 := v0 / 64;
    var v2 := v1 / 64;
    if v0 < 0x80 {
    } else if v0 < 0x800 {
      assert Extend(v1, data, 1) == v0;
    } else if v0 < 0x10000 {
      assert Extend(v2, data, 1) == v1;
      assert Extend(v1, data, 2) == v0;
    } else {
      assert Extend(v2 / 64, data, 1) == v2;
      assert Extend(v2, data, 2) == v1;
      assert Extend(v1, data, 3) == v0;
    }
  }

  lemma {:induction false} DecodeInvertsEncode(text: string)
    ensures DecodeIgnoring(Encode(text)) == text
  {
    if text != "" {
      var c, rest := text[0], Encode(text[1..]);
      DecodeEncodedChar(c, rest);
      assert (EncodeChar(c) + rest)[|EncodeChar(c)|..] == rest;
      DecodeInvertsEncode(text[1..]);
    }
  }

  /** A byte that starts nothing is dropped and the text behind it is kept. */
  lemma StrayByteIsDropped(byte: Byte, text: string)
    requires 0x80 <= byte < 0xC0 || byte >= 0xF8
    ensures DecodeIgnoring([byte] + Encode(text)) == text
  {
    DecodeInvertsEncode(text);
    assert ([byte] + Encode(text))[1..] == Encode(text);
  }

  /** One character of each length (section 7 of RFC 3629), and two ill-formed codings of others:
      an overlong one and a surrogate. */
  lemma KnownCharacters()
    ensures EncodeChar('A') == [0x41] && EncodeChar('\U{03A9}') == [0xCE, 0xA9]
    ensures EncodeChar('\U{65E5}') == [0xE6, 0x97, 0xA5] && EncodeChar('\U{233B4}') == [0xF0, 0xA3, 0x8E, 0xB4]
    ensures DecodeChar([0xC0, 0x80]) == None && DecodeChar([0xED, 0xA0, 0x80]) == None
  {}
}
