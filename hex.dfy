/**
 * `bytes.hex()`: two lower-case hexadecimal digits per byte, high nibble
 * first, and the parser that inverts it.
 */
module Hex {
  import opened Wrappers
  import opened Ints
  import opened Bits

  predicate IsDigit(c: char)
  {
    '0' <= c <= '9' || 'a' <= c <= 'f'
  }

  /** The lower-case hexadecimal digit of a nibble. */
  function DigitChar(d: nat): (r: char)
    requires d < 16
    ensures IsDigit(r)
  {
    if d < 10 then ('0' as int + d) as char else ('a' as int + d - 10) as char
  }

  /** The value of a lower-case hexadecimal digit. */
  function DigitValue(c: char): (r: Option<nat>)
    ensures r.Some? <==> IsDigit(c)
    ensures r.Some? ==> r.value < 16 && DigitChar(r.value) == c
  {
    if '0' <= c <= '9' then Some(c as int - '0' as int)
    else if 'a' <= c <= 'f' then Some(c as int - 'a' as int + 10)
    else None
  }

  lemma DigitValueOfChar(d: nat)
    requires d < 16
    ensures DigitValue(DigitChar(d)) == Some(d)
  {
  }

  /** The two digits of one byte. */
  function HexByte(b: byte): (r: string)
    ensures |r| == 2
  {
    [DigitChar(b / 16), DigitChar(b % 16)]
  }

  /** `p.hex()` */
  function Hex(p: seq<byte>): (r: string)
    ensures |r| == 2 * |p|
    ensures forall k :: 0 <= k < |r| ==> IsDigit(r[k])
  {
    if |p| == 0 then [] else HexByte(p[0]) + Hex(p[1..])
  }

  /** `bytes.fromhex` restricted to the digits `hex()` writes: pairs of lower-case digits, no spaces. */
  function FromHex(t: string): (r: Option<seq<byte>>)
    ensures r.Some? ==> 2 * |r.value| == |t|
    decreases |t|
  {
    if |t| < 2 then (if |t| == 0 then Some([]) else None)
    else
      var hi, lo, rest := DigitValue(t[0]), DigitValue(t[1]), FromHex(t[2..]);
      if hi.Some? && lo.Some? && rest.Some? then Some([hi.value * 16 + lo.value] + rest.value) else None
  }

  /** Round trip: the bytes are recovered from their hexadecimal text. */
  lemma {:induction false} FromHexOfHex(p: seq<byte>)
    ensures FromHex(Hex(p)) == Some(p)
  {
    if |p| > 0 {
      var t := Hex(p);
      var h := HexByte(p[0]);
      assert t[0] == h[0] && t[1] == h[1] && t[2..] == Hex(p[1..]);
      DigitValueOfChar(p[0] / 16);
      DigitValueOfChar(p[0] % 16);
      FromHexOfHex(p[1..]);
      assert [p[0] / 16 * 16 + p[0] % 16] + p[1..] == p;
    }
  }

  /** Two digits make the byte whose hexadecimal form they are. */
  lemma HexByteOfDigits(hi: nat, lo: nat)
    requires hi < 16 && lo < 16
    ensures HexByte(hi * 16 + lo) == [DigitChar(hi), DigitChar(lo)]
  {
    DivModUnique(hi * 16 + lo, 16, hi, lo);
  }

  /** One step of FromHex: the first byte, then the parse of what follows it. */
  lemma FromHexStep(t: string)
    requires |t| > 0 && FromHex(t).Some?
    ensures |t| >= 2 && DigitValue(t[0]).Some? && DigitValue(t[1]).Some? && FromHex(t[2..]).Some?
    ensures FromHex(t).value
         == [DigitValue(t[0]).value * 16 + DigitValue(t[1]).value] + FromHex(t[2..]).value
  {
  }

  /** And the other way: text that parses is the hexadecimal form of what it parses to. */
  lemma {:induction false} HexOfFromHex(t: string)
    requires FromHex(t).Some?
    ensures Hex(FromHex(t).value) == t
    decreases |t|
  {
    if |t| > 0 {
      FromHexStep(t);
      var hi, lo := DigitValue(t[0]).value, DigitValue(t[1]).value;
      var p := FromHex(t).value;
      var tail := t[2..];
      assert p[0] == hi * 16 + lo && p[1..] == FromHex(tail).value;
      HexOfFromHex(tail);
      HexByteOfDigits(hi, lo);
      assert HexByte(p[0]) == t[..2];
      assert Hex(p) == HexByte(p[0]) + Hex(p[1..]);
      assert t == t[..2] + tail;
    }
  }
}
