/**
 * Python's bitwise `|` and `&` on non-negative integers. Python integers are
 * unbounded, so these are defined bit by bit on `nat` rather than on a
 * fixed-width bit-vector; a field that is too wide really does spill into
 * its neighbour.
 */
module Bits {

  function Pow2(k: nat): (r: nat)
    ensures r >= 1
  {
    if k == 0 then 1 else 2 * Pow2(k - 1)
  }

  /** `a | b`: it never clears a bit of either operand, and never carries. */
  function Or(a: nat, b: nat): (r: nat)
    ensures a <= r && b <= r && r <= a + b
    decreases a
  {
    if a == 0 then b
    else if b == 0 then a
    else 2 * Or(a / 2, b / 2) + (if a % 2 == 1 || b % 2 == 1 then 1 else 0)
  }

  /** `a & b`: it keeps only bits both operands have. */
  function And(a: nat, b: nat): (r: nat)
    ensures r <= a && r <= b
    decreases a
  {
    if a == 0 || b == 0 then 0
    else 2 * And(a / 2, b / 2) + (if a % 2 == 1 && b % 2 == 1 then 1 else 0)
  }

  lemma {:induction false} MulAtLeast(d: nat, n: int)
    requires n >= 1
    ensures d * n >= d
    decreases n
  {
    if n > 1 {
      MulAtLeast(d, n - 1);
      assert d * n == d * (n - 1) + d;
    }
  }

  /** Euclidean division has one quotient and one remainder. */
  lemma DivModUnique(a: int, d: int, q: int, r: int)
    requires 0 <= r < d
    requires a == d * q + r
    ensures a / d == q && a % d == r
  {
    var q', r' := a / d, a % d;
    assert a == d * q' + r' && 0 <= r' < d;
    if q > q' {
      assert d * q == d * q' + d * (q - q');
      MulAtLeast(d, q - q');
      assert false;
    } else if q < q' {
      assert d * q' == d * q + d * (q' - q);
      MulAtLeast(d, q' - q);
      assert false;
    }
  }

  /** Or-ing onto an even number: the low bit comes from `b` alone. */
  lemma OrEven(h: nat, b: nat)
    requires h != 0
    ensures Or(2 * h, b) == 2 * Or(h, b / 2) + b % 2
  {
    DivModUnique(2 * h, 2, h, 0);
  }

  /** When `b` fits below bit `k`, or-ing it onto `a << k` is addition. */
  lemma {:induction false} OrDisjoint(a: nat, k: nat, b: nat)
    requires b < Pow2(k)
    ensures Or(a * Pow2(k), b) == a * Pow2(k) + b
    decreases k
  {
    if k == 0 {
      assert b == 0;
    } else {
      var p := Pow2(k - 1);
      var half := a * p;
      assert a * Pow2(k) == 2 * half;
      if half != 0 {
        OrDisjoint(a, k - 1, b / 2);
        OrEven(half, b);
      }
    }
  }

  /** The low bit and the rest of `a % 2p`, for a power of two `2p`. */
  lemma ModDoubleSplit(a: nat, p: nat)
    requires p >= 1
    ensures a % (2 * p) == 2 * ((a / 2) % p) + a % 2
  {
    var x, low := a / 2, a % 2;
    var y, z := x / p, x % p;
    assert x == p * y + z && 0 <= z < p;
    assert 2 * (p * y) == (2 * p) * y;
    assert a == (2 * p) * y + (2 * z + low);
    DivModUnique(a, 2 * p, y, 2 * z + low);
  }

  /** Against an odd mask `2h + 1`, `&` keeps the low bit of `a`. */
  lemma AndOddMask(a: nat, h: nat)
    requires a != 0
    ensures And(a, 2 * h + 1) == 2 * And(a / 2, h) + a % 2
  {
    DivModUnique(2 * h + 1, 2, h, 1);
  }

  /** The low `k` bits of `a`, read off one at a time. */
  function LowBits(a: nat, k: nat): nat
  {
    if k == 0 then 0 else 2 * LowBits(a / 2, k - 1) + a % 2
  }

  /** `2^k - 1`, the mask of `k` one bits. */
  function Mask(k: nat): (r: nat)
    ensures r == Pow2(k) - 1
  {
    if k == 0 then 0 else 2 * Mask(k - 1) + 1
  }

  /** `a & (2^k - 1)` keeps the low `k` bits. */
  lemma {:induction false} AndLowBits(a: nat, k: nat)
    ensures And(a, Mask(k)) == LowBits(a, k)
    decreases k
  {
    if k > 0 {
      AndLowBits(a / 2, k - 1);
      if a != 0 {
        AndOddMask(a, Mask(k - 1));
      }
    }
  }

  /** The low `k` bits are the remainder modulo `2^k`. */
  lemma {:induction false} LowBitsMod(a: nat, k: nat)
    ensures LowBits(a, k) == a % Pow2(k)
    decreases k
  {
    if k > 0 {
      var p := Pow2(k - 1);
      LowBitsMod(a / 2, k - 1);
      ModDoubleSplit(a, p);
      assert Pow2(k) == 2 * p;
    }
  }

  /** `a & (2^k - 1)` is `a % 2^k`. */
  lemma AndLowMask(a: nat, k: nat)
    ensures And(a, Pow2(k) - 1) == a % Pow2(k)
  {
    AndLowBits(a, k);
    LowBitsMod(a, k);
    assert Mask(k) == Pow2(k) - 1;
  }

  /** The instances the protocol header uses. */
  lemma OrLowByte(a: nat, b: nat)
    requires b < 256
    ensures Or(a * 256, b) == a * 256 + b
  {
    assert Pow2(8) == 256;
    OrDisjoint(a, 8, b);
  }

  lemma AndTwoBits(a: nat)
    ensures And(a, 0x03) == a % 4
  {
    assert Pow2(2) == 4;
    AndLowMask(a, 2);
  }

  lemma AndSevenBits(a: nat)
    ensures And(a, 0x7F) == a % 128
  {
    assert Pow2(7) == 128;
    AndLowMask(a, 7);
  }
}
