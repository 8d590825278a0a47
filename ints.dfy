/**
 * Bytes and Python's `int.from_bytes(..., "little")`, with the little-endian
 * encoding that it inverts (the layout a device writes the EEG index and
 * samples in).
 */
module Ints {

  type byte = b: int | 0 <= b < 256

  function Pow256(n: nat): (r: int)
    ensures r >= 1
  {
    if n == 0 then 1 else 256 * Pow256(n - 1)
  }

  /** `int.from_bytes(b, "little")`: the unsigned value, least significant byte first. */
  function FromBytesLittle(b: seq<byte>): (r: nat)
    ensures r < Pow256(|b|)
    decreases |b|
  {
    if |b| == 0 then 0 else b[0] + 256 * FromBytesLittle(b[1..])
  }

  lemma FromBytesLittleTwo(b: seq<byte>)
    requires |b| == 2
    ensures FromBytesLittle(b) == b[0] as int + 256 * (b[1] as int)
  {
    assert FromBytesLittle(b[1..][1..]) == 0;
  }

  /**
   * `int.from_bytes(b, "little", signed=True)`: two's complement over
   * `8 * |b|` bits (the empty sequence reads as 0).
   */
  function FromBytesLittleSigned(b: seq<byte>): (r: int)
    ensures |b| > 0 ==> -(Pow256(|b|) / 2) <= r < Pow256(|b|) / 2
    ensures |b| == 0 ==> r == 0
  {
    var u := FromBytesLittle(b);
    if |b| > 0 && u >= Pow256(|b|) / 2 then u - Pow256(|b|) else u
  }

  /** The `len` little-endian bytes of `n`. */
  function ToBytesLittle(n: nat, len: nat): (r: seq<byte>)
    requires n < Pow256(len)
    ensures |r| == len
    decreases len
  {
    if len == 0 then [] else [n % 256] + ToBytesLittle(n / 256, len - 1)
  }

  /** The `len` little-endian two's-complement bytes of `v`. */
  function ToBytesLittleSigned(v: int, len: nat): (r: seq<byte>)
    requires len > 0
    requires -(Pow256(len) / 2) <= v < Pow256(len) / 2
    ensures |r| == len
  {
    ToBytesLittle(if v < 0 then v + Pow256(len) else v, len)
  }

  lemma {:induction false} FromToLittle(n: nat, len: nat)
    requires n < Pow256(len)
    ensures FromBytesLittle(ToBytesLittle(n, len)) == n
    decreases len
  {
    if len > 0 {
      FromToLittle(n / 256, len - 1);
      assert ToBytesLittle(n, len)[1..] == ToBytesLittle(n / 256, len - 1);
    }
  }

  lemma {:induction false} ToFromLittle(b: seq<byte>)
    ensures ToBytesLittle(FromBytesLittle(b), |b|) == b
    decreases |b|
  {
    if |b| > 0 {
      ToFromLittle(b[1..]);
      var n := FromBytesLittle(b);
      assert n % 256 == b[0] && n / 256 == FromBytesLittle(b[1..]);
      assert b == [b[0]] + b[1..];
    }
  }

  /** Reading back the signed encoding of `v` gives `v`. */
  lemma FromToLittleSigned(v: int, len: nat)
    requires len > 0
    requires -(Pow256(len) / 2) <= v < Pow256(len) / 2
    ensures FromBytesLittleSigned(ToBytesLittleSigned(v, len)) == v
  {
    var p := Pow256(len);
    assert p == 256 * Pow256(len - 1);
    var half := p / 2;
    assert half == 128 * Pow256(len - 1) && p == 2 * half;
    var u := if v < 0 then v + p else v;
    var b := ToBytesLittleSigned(v, len);
    assert b == ToBytesLittle(u, len);
    FromToLittle(u, len);
    assert FromBytesLittle(b) == u;
    if v < 0 {
      assert u >= half;
    } else {
      assert u < half;
    }
  }

  /** Every `len`-byte sequence is the signed encoding of the value it reads as. */
  lemma ToFromLittleSigned(b: seq<byte>)
    requires |b| > 0
    ensures ToBytesLittleSigned(FromBytesLittleSigned(b), |b|) == b
  {
    ToFromLittle(b);
    assert Pow256(|b|) == 2 * (128 * Pow256(|b| - 1));
  }
}
