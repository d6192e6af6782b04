/**
  Bit-level operators of C on non-negative integers.

  The renderer packs colours and tests glyph bits with `&`, `|`, `<<` and
  `>>` on small unsigned values that never overflow their C types, so the
  operators are modelled on unbounded naturals, one binary digit at a time.
  The lemmas relate them to ordinary arithmetic.
 */
module Bits {

  function Pow2(n: nat): (r: nat)
    ensures r >= 1
  {
    if n == 0 then 1 else 2 * Pow2(n - 1)
  }

  /** Bitwise AND, digit by digit from the least significant bit. */
  function And(a: nat, b: nat): nat
    decreases a
  {
    if a == 0 || b == 0 then 0
    else 2 * And(a / 2, b / 2) + (if a % 2 == 1 && b % 2 == 1 then 1 else 0)
  }

  /** Bitwise OR, digit by digit from the least significant bit. */
  function Or(a: nat, b: nat): nat
    decreases a + b
  {
    if a == 0 then b
    else if b == 0 then a
    else 2 * Or(a / 2, b / 2) + (if a % 2 == 1 || b % 2 == 1 then 1 else 0)
  }

  /** `a << n` for a value that does not overflow. */
  function ShiftLeft(a: nat, n: nat): nat
  {
    a * Pow2(n)
  }

  /** `a >> n` on an unsigned value. */
  function ShiftRight(a: nat, n: nat): nat
  {
    DivOfNatural(a, Pow2(n));
    a / Pow2(n)
  }

  lemma DivOfNatural(a: nat, d: int)
    requires d > 0
    ensures a / d >= 0
  {
    var q, r := a / d, a % d;
    assert a == d * q + r && 0 <= r < d;
  }

  lemma {:induction false} OrCommutes(a: nat, b: nat)
    ensures Or(a, b) == Or(b, a)
    decreases a + b
  {
    if a != 0 && b != 0 {
      OrCommutes(a / 2, b / 2);
    }
  }

  /** OR of a value with a multiple of 2^k above it is their sum: the bits do not overlap. */
  lemma {:induction false} OrDisjoint(lo: nat, hi: nat, k: nat)
    requires lo < Pow2(k)
    ensures Or(lo, hi * Pow2(k)) == lo + hi * Pow2(k)
    decreases k
  {
    if k == 0 {
      assert lo == 0;
    } else if lo != 0 && hi != 0 {
      var h := hi * Pow2(k - 1);
      assert hi * Pow2(k) == 2 * h;
      assert (hi * Pow2(k)) / 2 == h;
      assert (hi * Pow2(k)) % 2 == 0;
      OrDisjoint(lo / 2, hi, k - 1);
    }
  }

  /** The same fact with the high part written first, as `(hi << k) | lo`. */
  lemma OrDisjointHighFirst(lo: nat, hi: nat, k: nat)
    requires lo < Pow2(k)
    ensures Or(hi * Pow2(k), lo) == lo + hi * Pow2(k)
  {
    OrCommutes(hi * Pow2(k), lo);
    OrDisjoint(lo, hi, k);
  }

  /** Masking with an even mask drops the lowest bit and halves both sides. */
  lemma AndEvenMask(a: nat, m: nat)
    ensures And(a, 2 * m) == 2 * And(a / 2, m)
  {
    if a != 0 && m != 0 {
      assert (2 * m) / 2 == m && (2 * m) % 2 == 0;
      assert And(a, 2 * m) == 2 * And(a / 2, m) + 0;
    }
  }

  /** Masking with 2^n - 1 keeps exactly the low n bits. */
  lemma {:induction false} AndLowBits(lo: nat, hi: nat, n: nat)
    requires lo < Pow2(n)
    ensures And(lo + hi * Pow2(n), Pow2(n) - 1) == lo
    decreases n
  {
    if n == 0 {
      assert lo == 0;
    } else {
      var y := lo + hi * Pow2(n);
      var h := hi * Pow2(n - 1);
      assert hi * Pow2(n) == 2 * h;
      if y != 0 {
        assert y / 2 == lo / 2 + h;
        assert y % 2 == lo % 2;
        assert (Pow2(n) - 1) / 2 == Pow2(n - 1) - 1;
        assert (Pow2(n) - 1) % 2 == 1;
        AndLowBits(lo / 2, hi, n - 1);
      }
    }
  }

  /** Testing a single bit `a & (1 << k)` for the three bit positions a glyph row uses. */
  lemma AndSingleBit(a: nat, k: nat)
    requires k < 3
    ensures And(a, ShiftLeft(1, k)) != 0 <==> (a / Pow2(k)) % 2 == 1
  {
    assert Pow2(1) == 2 && Pow2(2) == 4;
    if k == 0 {
      assert And(a, 1) == a % 2;
    } else if k == 1 {
      AndEvenMask(a, 1);
      assert And(a / 2, 1) == (a / 2) % 2;
    } else {
      AndEvenMask(a, 2);
      AndEvenMask(a / 2, 1);
      assert And(a / 2 / 2, 1) == (a / 2 / 2) % 2;
      assert a / 2 / 2 == a / 4;
    }
  }
}
