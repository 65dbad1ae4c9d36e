/**
 * Shift registers over an abstract word type: what follows for every run once single steps are linear over
 * `xor` and injective in the register.
 */
module LinearRegister {

  function Iterate<T>(f: T -> T, x: T, count: nat): T
    decreases count
  {
    if count == 0 then x else Iterate(f, f(x), count - 1)
  }

  function Feed<T>(step: (T, bool) -> T, register: T, bits: seq<bool>): T
    decreases bits
  {
    if bits == [] then register else Feed(step, step(register, bits[0]), bits[1..])
  }

  function XorBits(u: seq<bool>, v: seq<bool>): seq<bool>
    requires |u| == |v|
  {
    seq(|u|, i requires 0 <= i < |u| => u[i] != v[i])
  }

  lemma {:induction false} IterateFixed<T>(f: T -> T, x: T, n: nat)
    requires f(x) == x
    ensures Iterate(f, x, n) == x
  {
    if n > 0 {
      IterateFixed(f, x, n - 1);
    }
  }

  lemma {:induction false} IterateLinear<T(!new)>(f: T -> T, xor: (T, T) -> T, a: T, b: T, n: nat)
    requires forall x, y :: f(xor(x, y)) == xor(f(x), f(y))
    ensures Iterate(f, xor(a, b), n) == xor(Iterate(f, a, n), Iterate(f, b, n))
    decreases n
  {
    if n > 0 {
      IterateLinear(f, xor, f(a), f(b), n - 1);
    }
  }

  /** A word in two parts, one of which is known to become `top`. */
  lemma IterateParts<T(!new)>(f: T -> T, xor: (T, T) -> T, x: T, low: T, high: T, top: T, n: nat)
    requires forall x, y :: f(xor(x, y)) == xor(f(x), f(y))
    requires xor(low, high) == x && Iterate(f, high, n) == top
    ensures Iterate(f, x, n) == xor(Iterate(f, low, n), top)
  {
    IterateLinear(f, xor, low, high, n);
  }

  lemma {:induction false} IterateInjective<T(!new)>(f: T -> T, a: T, b: T, n: nat)
    requires forall x, y :: f(x) == f(y) ==> x == y
    requires Iterate(f, a, n) == Iterate(f, b, n)
    ensures a == b
    decreases n
  {
    if n > 0 {
      IterateInjective(f, f(a), f(b), n - 1);
    }
  }

  lemma {:induction false} FeedAppend<T>(step: (T, bool) -> T, register: T, u: seq<bool>, v: seq<bool>)
    ensures Feed(step, register, u + v) == Feed(step, Feed(step, register, u), v)
    decreases u
  {
    if u == [] {
      assert u + v == v;
    } else {
      assert (u + v)[1..] == u[1..] + v;
      FeedAppend(step, step(register, u[0]), u[1..], v);
    }
  }

  lemma {:induction false} FeedInjective<T(!new)>(step: (T, bool) -> T, a: T, b: T, bits: seq<bool>)
    requires forall x, y, bit :: step(x, bit) == step(y, bit) ==> x == y
    requires Feed(step, a, bits) == Feed(step, b, bits)
    ensures a == b
    decreases bits
  {
    if bits != [] {
      FeedInjective(step, step(a, bits[0]), step(b, bits[0]), bits[1..]);
    }
  }

  lemma {:induction false} FeedLinear<T(!new)>(
    step: (T, bool) -> T, xor: (T, T) -> T, a: T, b: T, u: seq<bool>, v: seq<bool>)
    requires |u| == |v|
    requires forall x, y, c, d :: step(xor(x, y), c != d) == xor(step(x, c), step(y, d))
    ensures Feed(step, xor(a, b), XorBits(u, v)) == xor(Feed(step, a, u), Feed(step, b, v))
    decreases u
  {
    if u != [] {
      FeedLinear(step, xor, step(a, u[0]), step(b, v[0]), u[1..], v[1..]);
      assert XorBits(u, v)[1..] == XorBits(u[1..], v[1..]);
    }
  }

  /** `word` puts up to `width` bits into one register word, so that a shift moves the next bit into place. */
  ghost predicate Absorbs<T(!new)>(
    step: (T, bool) -> T, shift: T -> T, xor: (T, T) -> T, word: seq<bool> -> T, width: nat)
  {
    && (forall r :: xor(r, word([])) == r)
    && forall r, d: seq<bool> :: 0 < |d| <= width ==> shift(xor(r, word(d))) == xor(step(r, d[0]), word(d[1..]))
  }

  /** Feeding bits one at a time is the same as adding them all to the register and then shifting them out. */
  lemma {:induction false} Absorb<T(!new)>(
    step: (T, bool) -> T, shift: T -> T, xor: (T, T) -> T, word: seq<bool> -> T, width: nat,
    register: T, d: seq<bool>, w: T, count: nat)
    requires Absorbs(step, shift, xor, word, width) && |d| == count <= width && word(d) == w
    ensures Feed(step, register, d) == Iterate(shift, xor(register, w), count)
    decreases d
  {
    if d != [] {
      Absorb(step, shift, xor, word, width, step(register, d[0]), d[1..], word(d[1..]), count - 1);
    }
  }

  /** Two messages that differ only in a window no wider than the register leave different registers. */
  lemma BurstIsSeen<T(!new)>(
    step: (T, bool) -> T, shift: T -> T, xor: (T, T) -> T, word: seq<bool> -> T, width: nat,
    register: T, p: seq<bool>, u: seq<bool>, v: seq<bool>, s: seq<bool>)
    requires Absorbs(step, shift, xor, word, width)
    requires forall x, y, bit :: step(x, bit) == step(y, bit) ==> x == y
    requires forall x, y :: shift(x) == shift(y) ==> x == y
    requires forall r, x, y :: xor(r, x) == xor(r, y) ==> x == y
    requires forall a, b :: |a| == |b| <= width && word(a) == word(b) ==> a == b
    requires |u| == |v| <= width
    requires Feed(step, register, p + u + s) == Feed(step, register, p + v + s)
    ensures u == v
  {
    var r := Feed(step, register, p);
    FeedAppend(step, register, p + u, s);
    FeedAppend(step, register, p + v, s);
    FeedAppend(step, register, p, u);
    FeedAppend(step, register, p, v);
    FeedInjective(step, Feed(step, r, u), Feed(step, r, v), s);
    Absorb(step, shift, xor, word, width, r, u, word(u), |u|);
    Absorb(step, shift, xor, word, width, r, v, word(v), |u|);
    IterateInjective(shift, xor(r, word(u)), xor(r, word(v)), |u|);
  }
}
