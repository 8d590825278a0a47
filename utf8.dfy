/**
 * Strict UTF-8, as `bytes.decode()` applies it: a byte sequence decodes
 * only when it is a concatenation of the well-formed sequences of table 3-7
 * of the Unicode Standard (chapter 3, section 3.9), so overlong forms,
 * surrogates and values above U+10FFFF are refused. The encoder is the
 * inverse; the two round trips are proved below.
 */
module Utf8 {
  import opened Wrappers
  import opened Ints
  import opened Bits

  /** A continuation byte `10xxxxxx`. */
  predicate IsCont(b: byte)
  {
    0x80 <= b <= 0xBF
  }

  /**
   * The range the second byte must lie in after a lead byte of a three- or
   * four-byte sequence; the narrowed ranges exclude overlong forms,
   * surrogates and values above U+10FFFF.
   */
  predicate SecondOk(lead: byte, b: byte)
  {
    if lead == 0xE0 then 0xA0 <= b <= 0xBF
    else if lead == 0xED then 0x80 <= b <= 0x9F
    else if lead == 0xF0 then 0x90 <= b <= 0xBF
    else if lead == 0xF4 then 0x80 <= b <= 0x8F
    else IsCont(b)
  }

  /** The scalar values a Dafny `char` holds. */
  predicate IsScalar(v: int)
  {
    0 <= v < 0xD800 || 0xE000 <= v < 0x11_0000
  }

  function Value2(b0: byte, b1: byte): int
  {
    (b0 - 0xC0) * 64 + (b1 - 0x80)
  }

  function Value3(b0: byte, b1: byte, b2: byte): int
  {
    (b0 - 0xE0) * 4096 + (b1 - 0x80) * 64 + (b2 - 0x80)
  }

  function Value4(b0: byte, b1: byte, b2: byte, b3: byte): int
  {
    (b0 - 0xF0) * 0x4_0000 + (b1 - 0x80) * 4096 + (b2 - 0x80) * 64 + (b3 - 0x80)
  }

  /**
   * The character that the well-formed sequence at the start of `b`
   * encodes, with the length of that sequence; None when `b` does not start
   * with a well-formed sequence.
   */
  function DecodeFirst(b: seq<byte>): (r: Option<(char, nat)>)
    ensures r.Some? ==> 1 <= r.value.1 <= 4 && r.value.1 <= |b|
    ensures r.None? ==> |b| == 0 || b[0] >= 0x80
  {
    if |b| == 0 then None
    else if b[0] < 0x80 then Some((b[0] as char, 1))
    else if 0xC2 <= b[0] <= 0xDF && 2 <= |b| && IsCont(b[1]) then
      Some((Value2(b[0], b[1]) as char, 2))
    else if 0xE0 <= b[0] <= 0xEF && 3 <= |b| && SecondOk(b[0], b[1]) && IsCont(b[2]) then
      Some((Value3(b[0], b[1], b[2]) as char, 3))
    else if 0xF0 <= b[0] <= 0xF4 && 4 <= |b| && SecondOk(b[0], b[1]) && IsCont(b[2]) && IsCont(b[3]) then
      Some((Value4(b[0], b[1], b[2], b[3]) as char, 4))
    else None
  }

  /** `b.decode()`: the decoded text, or None where Python raises UnicodeDecodeError. */
  function Decode(b: seq<byte>): (r: Option<string>)
    ensures r.Some? ==> |r.value| <= |b| <= 4 * |r.value|
    decreases |b|
  {
    if |b| == 0 then Some([])
    else match DecodeFirst(b)
      case None => None
      case Some(first) =>
        match Decode(b[first.1..])
        case None => None
        case Some(rest) => Some([first.0] + rest)
  }

  /** The shortest UTF-8 sequence of a character. */
  function EncodeChar(c: char): (r: seq<byte>)
    ensures 1 <= |r| <= 4
  {
    var v := c as int;
    if v < 0x80 then [v]
    else if v < 0x800 then [0xC0 + v / 64, 0x80 + v % 64]
    else if v < 0x1_0000 then
      var w := v % 4096;
      [0xE0 + v / 4096, 0x80 + w / 64, 0x80 + w % 64]
    else
      var w := v % 0x4_0000;
      var x := w % 4096;
      [0xF0 + v / 0x4_0000, 0x80 + w / 4096, 0x80 + x / 64, 0x80 + x % 64]
  }

  /** `s.encode()` */
  function Encode(s: string): (r: seq<byte>)
    ensures |r| >= |s|
  {
    if |s| == 0 then [] else EncodeChar(s[0]) + Encode(s[1..])
  }

  /** ASCII is its own encoding. */
  lemma AsciiDecodes(b: seq<byte>)
    requires forall k :: 0 <= k < |b| ==> b[k] < 0x80
    ensures Decode(b).Some? && |Decode(b).value| == |b|
    ensures forall k :: 0 <= k < |b| ==> Decode(b).value[k] as int == b[k]
    decreases |b|
  {
    if |b| > 0 {
      AsciiDecodes(b[1..]);
      var rest := Decode(b[1..]).value;
      assert Decode(b).value == [b[0] as char] + rest;
    }
  }

  // The encoder's digits, worked out one sequence length at a time.

  lemma EncodeTwo(v: int)
    requires 0x80 <= v < 0x800
    ensures 0xC2 <= 0xC0 + v / 64 <= 0xDF && IsCont(0x80 + v % 64)
    ensures Value2(0xC0 + v / 64, 0x80 + v % 64) == v
  {
  }

  lemma EncodeThree(v: int)
    requires 0x800 <= v < 0x1_0000 && IsScalar(v)
    ensures var w := v % 4096;
            var b0, b1, b2 := 0xE0 + v / 4096, 0x80 + w / 64, 0x80 + w % 64;
            0xE0 <= b0 <= 0xEF && SecondOk(b0, b1) && IsCont(b2) && Value3(b0, b1, b2) == v
  {
  }

  lemma EncodeFour(v: int)
    requires 0x1_0000 <= v < 0x11_0000
    ensures var w := v % 0x4_0000;
            var x := w % 4096;
            var b0, b1, b2, b3 := 0xF0 + v / 0x4_0000, 0x80 + w / 4096, 0x80 + x / 64, 0x80 + x % 64;
            0xF0 <= b0 <= 0xF4 && SecondOk(b0, b1) && IsCont(b2) && IsCont(b3)
            && Value4(b0, b1, b2, b3) == v
  {
  }

  lemma DecodeFirstTwo(b0: byte, b1: byte, rest: seq<byte>)
    requires 0xC2 <= b0 <= 0xDF && IsCont(b1)
    ensures DecodeFirst([b0, b1] + rest) == Some((Value2(b0, b1) as char, 2))
  {
    var b := [b0, b1] + rest;
    assert b[0] == b0 && b[1] == b1;
  }

  lemma DecodeFirstThree(b0: byte, b1: byte, b2: byte, rest: seq<byte>)
    requires 0xE0 <= b0 <= 0xEF && SecondOk(b0, b1) && IsCont(b2)
    requires IsScalar(Value3(b0, b1, b2))
    ensures DecodeFirst([b0, b1, b2] + rest) == Some((Value3(b0, b1, b2) as char, 3))
  {
    var b := [b0, b1, b2] + rest;
    assert b[0] == b0 && b[1] == b1 && b[2] == b2;
  }

  lemma DecodeFirstFour(b0: byte, b1: byte, b2: byte, b3: byte, rest: seq<byte>)
    requires 0xF0 <= b0 <= 0xF4 && SecondOk(b0, b1) && IsCont(b2) && IsCont(b3)
    requires IsScalar(Value4(b0, b1, b2, b3))
    ensures DecodeFirst([b0, b1, b2, b3] + rest) == Some((Value4(b0, b1, b2, b3) as char, 4))
  {
    var b := [b0, b1, b2, b3] + rest;
    assert b[0] == b0 && b[1] == b1 && b[2] == b2 && b[3] == b3;
  }

  lemma DecodeFirstOfEncodeTwo(c: char, rest: seq<byte>)
    requires 0x80 <= c as int < 0x800
    ensures DecodeFirst(EncodeChar(c) + rest) == Some((c, 2))
  {
    var v := c as int;
    var b0, b1 := 0xC0 + v / 64, 0x80 + v % 64;
    EncodeTwo(v);
    assert EncodeChar(c) == [b0, b1];
    DecodeFirstTwo(b0, b1, rest);
    assert Value2(b0, b1) as char == c;
  }

  lemma DecodeFirstOfEncodeThree(c: char, rest: seq<byte>)
    requires 0x800 <= c as int < 0x1_0000
    ensures DecodeFirst(EncodeChar(c) + rest) == Some((c, 3))
  {
    var v := c as int;
    var w := v % 4096;
    var b0, b1, b2 := 0xE0 + v / 4096, 0x80 + w / 64, 0x80 + w % 64;
    EncodeThree(v);
    assert EncodeChar(c) == [b0, b1, b2];
    DecodeFirstThree(b0, b1, b2, rest);
    assert Value3(b0, b1, b2) as char == c;
  }

  lemma DecodeFirstOfEncodeFour(c: char, rest: seq<byte>)
    requires 0x1_0000 <= c as int
    ensures DecodeFirst(EncodeChar(c) + rest) == Some((c, 4))
  {
    var v := c as int;
    var w := v % 0x4_0000;
    var x := w % 4096;
    var b0, b1, b2, b3 := 0xF0 + v / 0x4_0000, 0x80 + w / 4096, 0x80 + x / 64, 0x80 + x % 64;
    EncodeFour(v);
    assert EncodeChar(c) == [b0, b1, b2, b3];
    DecodeFirstFour(b0, b1, b2, b3, rest);
    assert Value4(b0, b1, b2, b3) as char == c;
  }

  /** Decoding the front of an encoded character gives the character back, whatever follows. */
  lemma DecodeFirstOfEncodeChar(c: char, rest: seq<byte>)
    ensures DecodeFirst(EncodeChar(c) + rest) == Some((c, |EncodeChar(c)|))
  {
    var v := c as int;
    if v < 0x80 {
      assert (EncodeChar(c) + rest)[0] == v;
    } else if v < 0x800 {
      DecodeFirstOfEncodeTwo(c, rest);
    } else if v < 0x1_0000 {
      DecodeFirstOfEncodeThree(c, rest);
    } else {
      DecodeFirstOfEncodeFour(c, rest);
    }
  }

  // The decoder's value, split back into the encoder's digits.

  lemma DecodeTwo(b0: byte, b1: byte)
    requires 0xC2 <= b0 <= 0xDF && IsCont(b1)
    ensures var v := Value2(b0, b1);
            0x80 <= v < 0x800 && 0xC0 + v / 64 == b0 && 0x80 + v % 64 == b1
  {
    DivModUnique(Value2(b0, b1), 64, b0 - 0xC0, b1 - 0x80);
  }

  lemma DecodeThree(b0: byte, b1: byte, b2: byte)
    requires 0xE0 <= b0 <= 0xEF && SecondOk(b0, b1) && IsCont(b2)
    ensures var v := Value3(b0, b1, b2);
            var w := v % 4096;
            0x800 <= v < 0x1_0000 && IsScalar(v)
            && 0xE0 + v / 4096 == b0 && 0x80 + w / 64 == b1 && 0x80 + w % 64 == b2
  {
    var low := (b1 - 0x80) * 64 + (b2 - 0x80);
    DivModUnique(Value3(b0, b1, b2), 4096, b0 - 0xE0, low);
    DivModUnique(low, 64, b1 - 0x80, b2 - 0x80);
  }

  lemma DecodeFour(b0: byte, b1: byte, b2: byte, b3: byte)
    requires 0xF0 <= b0 <= 0xF4 && SecondOk(b0, b1) && IsCont(b2) && IsCont(b3)
    ensures var v := Value4(b0, b1, b2, b3);
            var w := v % 0x4_0000;
            var x := w % 4096;
            0x1_0000 <= v < 0x11_0000
            && 0xF0 + v / 0x4_0000 == b0 && 0x80 + w / 4096 == b1
            && 0x80 + x / 64 == b2 && 0x80 + x % 64 == b3
  {
    var low := (b2 - 0x80) * 64 + (b3 - 0x80);
    var mid := (b1 - 0x80) * 4096 + low;
    DivModUnique(Value4(b0, b1, b2, b3), 0x4_0000, b0 - 0xF0, mid);
    DivModUnique(mid, 4096, b1 - 0x80, low);
    DivModUnique(low, 64, b2 - 0x80, b3 - 0x80);
  }

  /** A well-formed sequence is the encoding of the character it decodes to. */
  lemma EncodeCharOfDecodeFirst(b: seq<byte>)
    requires DecodeFirst(b).Some?
    ensures EncodeChar(DecodeFirst(b).value.0) == b[..DecodeFirst(b).value.1]
  {
    if b[0] < 0x80 {
    } else if 0xC2 <= b[0] <= 0xDF && IsCont(b[1]) {
      DecodeTwo(b[0], b[1]);
    } else if 0xE0 <= b[0] <= 0xEF {
      DecodeThree(b[0], b[1], b[2]);
    } else {
      DecodeFour(b[0], b[1], b[2], b[3]);
    }
  }

  /** Round trip: every string decodes from its encoding. */
  lemma {:induction false} DecodeEncode(s: string)
    ensures Decode(Encode(s)) == Some(s)
  {
    if |s| > 0 {
      var e := EncodeChar(s[0]);
      var tail := Encode(s[1..]);
      DecodeFirstOfEncodeChar(s[0], tail);
      assert (e + tail)[|e|..] == tail;
      DecodeEncode(s[1..]);
      assert [s[0]] + s[1..] == s;
    }
  }

  /** One step of Decode: the first character, then the decoding of what follows it. */
  lemma DecodeStep(b: seq<byte>)
    requires |b| > 0 && Decode(b).Some?
    ensures DecodeFirst(b).Some?
    ensures var n := DecodeFirst(b).value.1;
            Decode(b[n..]).Some? && Decode(b).value == [DecodeFirst(b).value.0] + Decode(b[n..]).value
  {
  }

  /** The encoding of a decoded text splits after its first character. */
  lemma EncodeOfDecodeStep(b: seq<byte>)
    requires |b| > 0 && Decode(b).Some?
    ensures DecodeFirst(b).Some? && Decode(b[DecodeFirst(b).value.1..]).Some?
    ensures Encode(Decode(b).value)
         == EncodeChar(DecodeFirst(b).value.0) + Encode(Decode(b[DecodeFirst(b).value.1..]).value)
  {
    DecodeStep(b);
    var s := Decode(b).value;
    var first := DecodeFirst(b).value;
    assert s[0] == first.0 && s[1..] == Decode(b[first.1..]).value;
  }

  /** The bytes split the same way: the encoded first character, then the rest. */
  lemma FrontOfDecodeFirst(b: seq<byte>)
    requires DecodeFirst(b).Some?
    ensures b == EncodeChar(DecodeFirst(b).value.0) + b[DecodeFirst(b).value.1..]
  {
    var n := DecodeFirst(b).value.1;
    EncodeCharOfDecodeFirst(b);
    assert b[..n] + b[n..] == b;
  }

  /** Round trip the other way: a byte sequence that decodes is the encoding of its text. */
  lemma {:induction false} EncodeDecode(b: seq<byte>)
    requires Decode(b).Some?
    ensures Encode(Decode(b).value) == b
    decreases |b|
  {
    if |b| > 0 {
      EncodeOfDecodeStep(b);
      FrontOfDecodeFirst(b);
      EncodeDecode(b[DecodeFirst(b).value.1..]);
    }
  }
}
