/**
 * Bytes, 32-bit words, and the laws of exclusive or that word arithmetic needs. On unsigned numbers, C's
 * `x >> k` is `x / 2^k` and `x & (2^k - 1)` is `x % 2^k`.
 */
module Bitwise {

  type Byte = b: int | 0 <= b < 0x100
  type Word32 = w: int | 0 <= w < 0x1_0000_0000

  /** Bit by bit exclusive or, as C's `^` computes it on unsigned numbers. */
  function XorNat(a: nat, b: nat): nat
    decreases a + b
  {
    if a == 0 then b
    else if b == 0 then a
    else (if a % 2 == b % 2 then 0 else 1) + 2 * XorNat(a / 2, b / 2)
  }

  function Pow2(n: nat): (p: nat)
    ensures p >= 1
  {
    if n == 0 then 1 else 2 * Pow2(n - 1)
  }

  predicate Odd(a: nat) {
    a % 2 == 1
  }

  lemma XorParts(a: nat, b: nat)
    ensures Odd(XorNat(a, b)) == (Odd(a) != Odd(b))
    ensures XorNat(a, b) / 2 == XorNat(a / 2, b / 2)
  {
  }

  lemma {:induction false} XorCommutes(a: nat, b: nat)
    ensures XorNat(a, b) == XorNat(b, a)
    decreases a + b
  {
    if a != 0 && b != 0 {
      XorCommutes(a / 2, b / 2);
    }
  }

  lemma {:induction false} XorSelf(a: nat)
    ensures XorNat(a, a) == 0
  {
    if a != 0 {
      XorSelf(a / 2);
    }
  }

  lemma {:induction false} XorAssociates(a: nat, b: nat, c: nat)
    ensures XorNat(XorNat(a, b), c) == XorNat(a, XorNat(b, c))
    decreases a + b + c
  {
    if a != 0 && b != 0 && c != 0 {
      var left, right := XorNat(XorNat(a, b), c), XorNat(a, XorNat(b, c));
      XorParts(a, b);
      XorParts(b, c);
      assert Odd(left) == Odd(right) && left / 2 == right / 2 by {
        XorParts(XorNat(a, b), c);
        XorParts(a, XorNat(b, c));
        XorAssociates(a / 2, b / 2, c / 2);
      }
      SameParts(left, right);
    }
  }

  lemma SameParts(x: nat, y: nat)
    requires Odd(x) == Odd(y) && x / 2 == y / 2
    ensures x == y
  {
  }

  /** What is added twice disappears. */
  lemma XorCancels(a: nat, b: nat)
    ensures XorNat(a, XorNat(a, b)) == b
  {
    XorAssociates(a, a, b);
    XorSelf(a);
  }

  lemma {:induction false} XorFits(a: nat, b: nat, n: nat)
    requires a < Pow2(n) && b < Pow2(n)
    ensures XorNat(a, b) < Pow2(n)
    decreases n
  {
    if a != 0 && b != 0 {
      XorFits(a / 2, b / 2, n - 1);
    }
  }

  /** Bits below and above position `n` do not meet. */
  lemma {:induction false} XorDisjoint(low: nat, high: nat, n: nat)
    requires low < Pow2(n)
    ensures XorNat(low, Pow2(n) * high) == low + Pow2(n) * high
    decreases n
  {
    if n > 0 {
      var p := Pow2(n - 1) * high;
      assert Pow2(n) * high == 2 * p;
      XorDisjoint(low / 2, high, n - 1);
      XorParts(low, 2 * p);
    }
  }

  lemma {:induction false} Pow2Add(m: nat, n: nat)
    ensures Pow2(m + n) == Pow2(m) * Pow2(n)
    decreases m
  {
    if m > 0 {
      Pow2Add(m - 1, n);
    }
  }

  lemma Pow2Values()
    ensures Pow2(8) == 0x100 && Pow2(24) == 0x100_0000
    ensures Pow2(31) == 0x8000_0000 && Pow2(32) == 0x1_0000_0000
  {
    assert Pow2(4) == 16;
    Pow2Add(4, 4);
    Pow2Add(8, 8);
    Pow2Add(16, 8);
    Pow2Add(16, 16);
    assert Pow2(32) == 2 * Pow2(31);
  }

  function Xor(a: Word32, b: Word32): Word32 {
    Pow2Values();
    XorFits(a, b, 32);
    XorNat(a, b)
  }

  /** Regrouping sums that contain one word twice, or out of order. */
  lemma XorRegroups(p: nat, x: nat, y: nat)
    ensures XorNat(XorNat(p, x), y) == XorNat(p, XorNat(x, y))
    ensures XorNat(x, XorNat(p, y)) == XorNat(p, XorNat(x, y))
    ensures XorNat(XorNat(p, x), XorNat(p, y)) == XorNat(x, y)
    ensures XorNat(XorNat(x, p), y) == XorNat(p, XorNat(x, y))
  {
    XorAssociates(p, x, y);
    XorAssociates(x, p, y);
    XorCommutes(p, x);
    XorAssociates(x, p, XorNat(p, y));
    XorCancels(p, y);
  }

  lemma XorInjective(p: nat, x: nat, y: nat)
    requires XorNat(p, x) == XorNat(p, y)
    ensures x == y
  {
    XorCancels(p, x);
    XorCancels(p, y);
  }

  /** Adding a number below 2^n changes the low n bits only. */
  lemma XorLow(low: nat, high: nat, b: nat, n: nat, h: nat)
    requires low < Pow2(n) && b < Pow2(n) && h == Pow2(n) * high
    ensures XorNat(low + h, b) == XorNat(low, b) + h
    ensures XorNat(low, b) < Pow2(n)
  {
    XorFits(low, b, n);
    XorDisjoint(low, high, n);
    XorDisjoint(XorNat(low, b), high, n);
    MoveLast(low, h, b, low + h, XorNat(low, b) + h);
  }

  lemma MoveLast(x: nat, y: nat, z: nat, xy: nat, xzy: nat)
    requires xy == XorNat(x, y) && xzy == XorNat(XorNat(x, z), y)
    ensures XorNat(xy, z) == xzy
  {
    XorAssociates(x, y, z);
    XorCommutes(y, z);
    XorAssociates(x, z, y);
  }
}
