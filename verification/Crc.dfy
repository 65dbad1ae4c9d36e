/**
 * The CRC-32 of CyclicRedundancyCheck.cpp: a table of 256 words drives the register one byte at a time.
 * The reference is the bit-serial register of section 3.4 of RFC 2083, which takes each byte's least
 * significant bit first.
 */
module Crc {
  import opened Bitwise
  import opened LinearRegister

  /** The reversed generator polynomial, written in the source as a negative number. */
  const POLY: Word32 := 0x1_0000_0000 - 306674912

  const ONES: Word32 := 0xffff_ffff

  const BYTE_BITS: nat := 8
  const WORD_BITS: nat := 32

  // ---------------------------------------------------------------- the reference

  /** One bit of the message enters a register with feedback polynomial `poly`. */
  function StepBy(poly: Word32, register: Word32, bit: bool): Word32 {
    if Odd(register) != bit then Xor(register / 2, poly) else register / 2
  }

  function BitStep(register: Word32, bit: bool): Word32 {
    StepBy(POLY, register, bit)
  }

  /** The `count` low bits of a number, the least significant first. */
  function Bits(w: nat, count: nat): (bits: seq<bool>)
    ensures |bits| == count
    decreases count
  {
    if count == 0 then [] else [Odd(w)] + Bits(w / 2, count - 1)
  }

  function Message(buffer: seq<Byte>): seq<bool> {
    if buffer == [] then [] else Bits(buffer[0], BYTE_BITS) + Message(buffer[1..])
  }

  function Crc32(buffer: seq<Byte>): Word32 {
    Xor(Feed<Word32>(BitStep, ONES, Message(buffer)), ONES)
  }

  // ---------------------------------------------------------------- single steps

  function ShiftBy(poly: Word32, c: Word32): Word32 {
    if Odd(c) then Xor(poly, c / 2 % 0x8000_0000) else c / 2
  }

  /** One turn of the inner loop that makes a table entry. */
  function Shift(c: Word32): Word32 {
    ShiftBy(POLY, c)
  }

  /** Table entry `i`. */
  function Entry(i: Word32): Word32 {
    Iterate<Word32>(Shift, i, BYTE_BITS)
  }

  /** What the loop of `computeCrc` does with one byte. */
  function Update(crc: Word32, b: Byte): Word32 {
    Xor(Entry(Xor(crc, b) % 0x100), crc / 0x100 % 0x100_0000)
  }

  /** A shift depends on the bit that leaves and the bits that stay. */
  lemma ShiftParts(p: Word32, c: Word32, odd: bool, half: nat)
    requires Odd(c) == odd && c / 2 == half
    ensures ShiftBy(p, c) == if odd then XorNat(p, half) else half
  {
  }

  lemma ShiftLinear(p: Word32, a: Word32, b: Word32)
    ensures ShiftBy(p, Xor(a, b)) == Xor(ShiftBy(p, a), ShiftBy(p, b))
  {
    var x, y := a / 2, b / 2;
    XorParts(a, b);
    ShiftParts(p, Xor(a, b), Odd(a) != Odd(b), XorNat(x, y));
    ShiftParts(p, a, Odd(a), x);
    ShiftParts(p, b, Odd(b), y);
    XorRegroups(p, x, y);
  }

  /** The polynomial's top bit shows whether it was added. */
  lemma TopBit(p: Word32, x: nat)
    requires x < 0x8000_0000 <= p
    ensures 0x8000_0000 <= XorNat(p, x)
  {
    Pow2Values();
    if XorNat(p, x) < 0x8000_0000 {
      XorCommutes(p, x);
      XorCancels(x, p);
      XorFits(x, XorNat(p, x), 31);
    }
  }

  lemma ShiftInjective(p: Word32, a: Word32, b: Word32)
    requires p >= 0x8000_0000 && ShiftBy(p, a) == ShiftBy(p, b)
    ensures a == b
  {
    var x, y := a / 2, b / 2;
    ShiftParts(p, a, Odd(a), x);
    ShiftParts(p, b, Odd(b), y);
    assert Odd(a) == Odd(b) by {
      TopBit(p, x);
      TopBit(p, y);
    }
    if Odd(a) {
      XorInjective(p, x, y);
    }
    SameParts(a, b);
  }

  lemma StepIsShift(p: Word32, a: Word32, bit: bool)
    ensures StepBy(p, a, bit) == ShiftBy(p, Xor(a, if bit then 1 else 0))
  {
    XorParts(a, if bit then 1 else 0);
    XorZero(a / 2);
    XorCommutes(a / 2, p);
  }

  lemma XorZero(a: nat)
    ensures XorNat(a, 0) == a
  {
  }

  lemma StepInjective(p: Word32, a: Word32, b: Word32, bit: bool)
    requires p >= 0x8000_0000 && StepBy(p, a, bit) == StepBy(p, b, bit)
    ensures a == b
  {
    var c: Word32 := if bit then 1 else 0;
    StepIsShift(p, a, bit);
    StepIsShift(p, b, bit);
    ShiftInjective(p, Xor(a, c), Xor(b, c));
    XorCommutes(a, c);
    XorCommutes(b, c);
    XorInjective(c, a, b);
  }

  // ---------------------------------------------------------------- bits as a word

  /** The word whose bit number i is bit number i of the sequence. */
  function WordOf(bits: seq<bool>): Word32 {
    if bits == [] then 0 else ((if bits[0] then 1 else 0) + 2 * WordOf(bits[1..])) % 0x1_0000_0000
  }

  lemma {:induction false} WordFits(bits: seq<bool>)
    requires |bits| <= 32
    ensures WordOf(bits) < Pow2(|bits|)
    ensures bits != [] ==> WordOf(bits) == (if bits[0] then 1 else 0) + 2 * WordOf(bits[1..])
  {
    if bits != [] {
      WordFits(bits[1..]);
      Pow2Grows(|bits|, 32);
      Pow2Values();
      NoWrap(if bits[0] then 1 else 0, WordOf(bits[1..]), Pow2(|bits| - 1));
    }
  }

  lemma NoWrap(b: nat, w: nat, p: nat)
    requires b <= 1 && w < p && 2 * p <= 0x1_0000_0000
    ensures (b + 2 * w) % 0x1_0000_0000 == b + 2 * w < 2 * p
  {
  }

  /** The first bit and the word of the others. */
  lemma WordParts(bits: seq<bool>)
    requires 0 < |bits| <= 32
    ensures Odd(WordOf(bits)) == bits[0] && WordOf(bits) / 2 == WordOf(bits[1..])
  {
    WordFits(bits);
    HalfParts(bits[0], WordOf(bits[1..]), WordOf(bits));
  }

  lemma HalfParts(odd: bool, half: nat, w: nat)
    requires w == (if odd then 1 else 0) + 2 * half
    ensures Odd(w) == odd && w / 2 == half
  {
  }

  lemma {:induction false} Pow2Grows(m: nat, n: nat)
    requires m <= n
    ensures Pow2(m) <= Pow2(n)
    decreases n
  {
    if m < n {
      Pow2Grows(m, n - 1);
    }
  }

  lemma {:induction false} WordInjective(a: seq<bool>, b: seq<bool>)
    requires |a| == |b| <= 32 && WordOf(a) == WordOf(b)
    ensures a == b
  {
    if a != [] {
      WordFits(a);
      WordFits(b);
      WordInjective(a[1..], b[1..]);
      assert a == [a[0]] + a[1..] && b == [b[0]] + b[1..];
    }
  }

  lemma {:induction false} WordOfBits(w: nat, count: nat)
    requires w < Pow2(count) && count <= 32
    ensures WordOf(Bits(w, count)) == w
    decreases count
  {
    if count > 0 {
      WordOfBits(w / 2, count - 1);
      WordFits(Bits(w, count));
      assert Bits(w, count)[1..] == Bits(w / 2, count - 1);
    }
  }

  /** Adding the bits still to come to the register does not disturb the bit that leaves it. */
  lemma AbsorbOne(p: Word32, r: Word32, d: seq<bool>)
    requires 0 < |d| <= 32
    ensures ShiftBy(p, Xor(r, WordOf(d))) == Xor(StepBy(p, r, d[0]), WordOf(d[1..]))
  {
    var w, x := WordOf(d[1..]), r / 2;
    WordParts(d);
    XorParts(r, WordOf(d));
    ShiftParts(p, Xor(r, WordOf(d)), Odd(r) != d[0], XorNat(x, w));
    XorRegroups(p, x, w);
  }

  lemma RegisterAbsorbs()
    ensures Absorbs<Word32>(BitStep, Shift, Xor, WordOf, 32)
  {
    forall r: Word32, d | 0 < |d| <= 32
      ensures Shift(Xor(r, WordOf(d))) == Xor(BitStep(r, d[0]), WordOf(d[1..]))
    {
      AbsorbOne(POLY, r, d);
    }
    forall r: Word32
      ensures Xor(r, WordOf([])) == r
    {
      XorZero(r);
    }
  }

  lemma ShiftIsLinear()
    ensures forall x, y :: Shift(Xor(x, y)) == Xor(Shift(x), Shift(y))
  {
    forall x: Word32, y: Word32
      ensures Shift(Xor(x, y)) == Xor(Shift(x), Shift(y))
    {
      ShiftLinear(POLY, x, y);
    }
  }

  // ---------------------------------------------------------------- a byte at a time

  /** The table is linear. */
  lemma EntryLinear(i: Word32, j: Word32)
    ensures Entry(Xor(i, j)) == Xor(Entry(i), Entry(j))
  {
    ShiftIsLinear();
    IterateLinear<Word32>(Shift, Xor, i, j, BYTE_BITS);
  }

  lemma HalfOf(high: nat, n: nat, x: nat)
    requires n > 0 && x == Pow2(n) * high
    ensures !Odd(x) && x / 2 == Pow2(n - 1) * high
  {
    var half := Pow2(n - 1) * high;
    assert x == 2 * half;
  }

  /** Zero bits leave the register without touching the polynomial. */
  lemma {:induction false} ShiftHigh(high: nat, n: nat, x: Word32)
    requires x == Pow2(n) * high
    ensures Iterate<Word32>(Shift, x, n) == high
    decreases n
  {
    if n > 0 {
      HalfOf(high, n, x);
      ShiftHigh(high, n - 1, x / 2);
    }
  }

  /** The register after adding a byte: the byte meets the low eight bits only. */
  lemma ByteMeetsLow(crc: Word32, b: Byte)
    ensures var x := Xor(crc, b);
      x / 0x100 == crc / 0x100 && Xor(x % 0x100, 0x100 * (x / 0x100)) == x
  {
    var low, high := crc % 0x100, crc / 0x100;
    Pow2Values();
    assert crc == low + 0x100 * high;
    XorLow(low, high, b, 8, 0x100 * high);
    XorDisjoint(XorNat(low, b), high, BYTE_BITS);
  }

  lemma EightShiftsOf(x: Word32, low: Word32, high: Word32)
    requires 0x100 * high < 0x1_0000_0000 && Xor(low, 0x100 * high) == x
    ensures Iterate<Word32>(Shift, x, BYTE_BITS) == Xor(Entry(low), high)
  {
    Pow2Values();
    ShiftHigh(high, BYTE_BITS, 0x100 * high);
    ShiftIsLinear();
    IterateParts<Word32>(Shift, Xor, x, low, 0x100 * high, high, BYTE_BITS);
  }

  lemma EightShifts(crc: Word32, b: Byte)
    ensures Iterate<Word32>(Shift, Xor(crc, b), BYTE_BITS) == Update(crc, b)
  {
    var low, high := Xor(crc, b) % 0x100, crc / 0x100;
    assert high % 0x100_0000 == high;
    assert Xor(low, 0x100 * high) == Xor(crc, b) by {
      ByteMeetsLow(crc, b);
    }
    EightShiftsOf(Xor(crc, b), low, high);
  }

  /** One table lookup does what eight bit steps do. */
  lemma UpdateIsEightBits(crc: Word32, b: Byte)
    ensures Feed<Word32>(BitStep, crc, Bits(b, BYTE_BITS)) == Update(crc, b)
  {
    RegisterAbsorbs();
    Pow2Values();
    WordOfBits(b, BYTE_BITS);
    Absorb<Word32>(BitStep, Shift, Xor, WordOf, 32, crc, Bits(b, BYTE_BITS), b, BYTE_BITS);
    EightShifts(crc, b);
  }

  /** A table entry is what eight bit steps make of its index in a cleared register. */
  lemma EntryIsEightBits(b: Byte)
    ensures Entry(b) == Feed<Word32>(BitStep, 0, Bits(b, BYTE_BITS))
  {
    RegisterAbsorbs();
    Pow2Values();
    WordOfBits(b, BYTE_BITS);
    Absorb<Word32>(BitStep, Shift, Xor, WordOf, 32, 0, Bits(b, BYTE_BITS), b, BYTE_BITS);
    assert Xor(0, b) == b;
  }

  // ---------------------------------------------------------------- the program

  /** The function-static table of `computeCrc` and the flag that says whether it has been made. */
  class CrcTable {
    const crcTable: array<Word32>
    var crcTableComputed: bool

    ghost predicate Valid()
      reads this, crcTable
    {
      crcTable.Length == 256 && (crcTableComputed ==> Holds(crcTable[..]))
    }

    /** The words are the first table entries. */
    static ghost predicate Holds(words: seq<Word32>) {
      |words| <= 256 && forall i {:trigger words[i]} :: 0 <= i < |words| ==> words[i] == Entry(i)
    }

    constructor ()
      ensures Valid() && fresh(crcTable) && !crcTableComputed
    {
      crcTable := new Word32[256];
      crcTableComputed := false;
    }

    method MakeCrcTable()
      requires crcTable.Length == 256
      modifies crcTable
      ensures Holds(crcTable[..])
    {
      for i := 0 to 256
        invariant Holds(crcTable[..i])
      {
        crcTable[i] := MakeEntry(i);
        assert crcTable[..i + 1] == crcTable[..i] + [crcTable[i]];
      }
      assert crcTable[..256] == crcTable[..];
    }

    /** The inner loop of `makeCrcTable`. */
    static method MakeEntry(i: Word32) returns (c: Word32)
      ensures c == Entry(i)
    {
      c := i;
      for k := 0 to BYTE_BITS
        invariant Iterate<Word32>(Shift, c, BYTE_BITS - k) == Entry(i)
      {
        var next := Shift(c);
        if c % 2 == 1 {
          c := Xor(POLY, c / 2 % 0x8000_0000);
        } else {
          c := c / 2;
        }
        assert c == next;
      }
    }

    method ComputeCrc(buffer: seq<Byte>) returns (r: Word32)
      requires Valid()
      modifies this, crcTable
      ensures Valid() && crcTableComputed
      ensures r == Crc32(buffer)
    {
      if !crcTableComputed {
        MakeCrcTable();
        crcTableComputed := true;
      }
      var crc := ONES;
      for i := 0 to |buffer|
        invariant Valid() && crcTableComputed
        invariant Feed<Word32>(BitStep, crc, Message(buffer[i..])) == Feed<Word32>(BitStep, ONES, Message(buffer))
      {
        FeedAppend<Word32>(BitStep, crc, Bits(buffer[i], BYTE_BITS), Message(buffer[i + 1..]));
        assert buffer[i..][1..] == buffer[i + 1..];
        UpdateIsEightBits(crc, buffer[i]);
        assert crcTable[..][Xor(crc, buffer[i]) % 0x100] == Entry(Xor(crc, buffer[i]) % 0x100);
        crc := Xor(crcTable[Xor(crc, buffer[i]) % 0x100], crc / 0x100 % 0x100_0000);
      }
      r := Xor(crc, ONES);
    }
  }

  // ---------------------------------------------------------------- error detection

  lemma {:induction false} MessageLength(buffer: seq<Byte>)
    ensures |Message(buffer)| == BYTE_BITS * |buffer|
  {
    if buffer != [] {
      MessageLength(buffer[1..]);
    }
  }

  lemma SameSplit(u: seq<bool>, s: seq<bool>, v: seq<bool>, t: seq<bool>)
    requires u + s == v + t && |u| == |v|
    ensures u == v && s == t
  {
    assert u == (u + s)[..|u|] && v == (v + t)[..|u|];
    assert s == (u + s)[|u|..] && t == (v + t)[|u|..];
  }

  lemma {:induction false} MessageInjective(x: seq<Byte>, y: seq<Byte>)
    requires |x| == |y| && Message(x) == Message(y)
    ensures x == y
  {
    if x != [] {
      SameSplit(Bits(x[0], BYTE_BITS), Message(x[1..]), Bits(y[0], BYTE_BITS), Message(y[1..]));
      Pow2Values();
      WordOfBits(x[0], BYTE_BITS);
      WordOfBits(y[0], BYTE_BITS);
      MessageInjective(x[1..], y[1..]);
      assert x == [x[0]] + x[1..] && y == [y[0]] + y[1..];
    }
  }

  lemma RegisterInjective()
    ensures forall x: Word32, y: Word32, bit :: BitStep(x, bit) == BitStep(y, bit) ==> x == y
    ensures forall x: Word32, y: Word32 :: Shift(x) == Shift(y) ==> x == y
    ensures forall r: Word32, x: Word32, y: Word32 :: Xor(r, x) == Xor(r, y) ==> x == y
  {
    forall x: Word32, y: Word32, bit | BitStep(x, bit) == BitStep(y, bit)
      ensures x == y
    {
      StepInjective(POLY, x, y, bit);
    }
    forall x: Word32, y: Word32 | Shift(x) == Shift(y)
      ensures x == y
    {
      ShiftInjective(POLY, x, y);
    }
    forall r: Word32, x: Word32, y: Word32 | Xor(r, x) == Xor(r, y)
      ensures x == y
    {
      XorInjective(r, x, y);
    }
  }

  /** A window of at most 32 bits in which the messages differ shows in the register. */
  lemma WindowIsSeen(p: seq<bool>, u: seq<bool>, v: seq<bool>, s: seq<bool>)
    requires |u| == |v| <= 32
    requires Feed<Word32>(BitStep, ONES, p + u + s) == Feed<Word32>(BitStep, ONES, p + v + s)
    ensures u == v
  {
    RegisterAbsorbs();
    RegisterInjective();
    forall a, b | |a| == |b| <= 32 && WordOf(a) == WordOf(b)
      ensures a == b
    {
      WordInjective(a, b);
    }
    BurstIsSeen<Word32>(BitStep, Shift, Xor, WordOf, 32, ONES, p, u, v, s);
  }

  /** The two messages agree outside a window of `width` bits that starts at bit `from`. */
  ghost predicate DifferWithin(a: seq<bool>, b: seq<bool>, from: nat, width: nat) {
    |a| == |b| && forall i :: 0 <= i < |a| && !(from <= i < from + width) ==> a[i] == b[i]
  }

  /** Two different buffers of one length that differ in a burst of at most 32 bits have different CRCs. */
  lemma BurstChangesCrc(x: seq<Byte>, y: seq<Byte>, from: nat)
    requires |x| == |y| && x != y && DifferWithin(Message(x), Message(y), from, 32)
    ensures Crc32(x) != Crc32(y)
  {
    if Crc32(x) == Crc32(y) {
      SameCrc(x, y);
      SameMessage(Message(x), Message(y), from);
      MessageInjective(x, y);
    }
  }

  lemma SameCrc(x: seq<Byte>, y: seq<Byte>)
    ensures Crc32(x) == Crc32(y)
      <==> Feed<Word32>(BitStep, ONES, Message(x)) == Feed<Word32>(BitStep, ONES, Message(y))
  {
    var a, b := Feed<Word32>(BitStep, ONES, Message(x)), Feed<Word32>(BitStep, ONES, Message(y));
    XorCommutes(a, ONES);
    XorCommutes(b, ONES);
    if Xor(a, ONES) == Xor(b, ONES) {
      XorInjective(ONES, a, b);
    }
  }

  lemma SameMessage(a: seq<bool>, b: seq<bool>, from: nat)
    requires DifferWithin(a, b, from, 32)
    requires Feed<Word32>(BitStep, ONES, a) == Feed<Word32>(BitStep, ONES, b)
    ensures a == b
  {
    var lo := if from <= |a| then from else |a|;
    var hi := if lo + 32 <= |a| then lo + 32 else |a|;
    SplitAround(a, b, lo, hi);
    WindowIsSeen(a[..lo], a[lo..hi], b[lo..hi], a[hi..]);
  }

  lemma SplitAround(a: seq<bool>, b: seq<bool>, lo: nat, hi: nat)
    requires lo <= hi <= |a| == |b| && forall i :: 0 <= i < |a| && !(lo <= i < hi) ==> a[i] == b[i]
    ensures a == a[..lo] + a[lo..hi] + a[hi..] && b == a[..lo] + b[lo..hi] + a[hi..]
  {
    assert b[..lo] == a[..lo] && b[hi..] == a[hi..];
  }

  /** The generator polynomial itself, as 33 message bits. */
  function Generator(): (g: seq<bool>)
    ensures |g| == 33
  {
    [true] + Bits(POLY, WORD_BITS)
  }

  lemma StepLinear(p: Word32, x: Word32, y: Word32, c: bool, d: bool)
    ensures StepBy(p, Xor(x, y), c != d) == Xor(StepBy(p, x, c), StepBy(p, y, d))
  {
    var cw: Word32, dw: Word32 := if c then 1 else 0, if d then 1 else 0;
    StepIsShift(p, x, c);
    StepIsShift(p, y, d);
    StepIsShift(p, Xor(x, y), c != d);
    ShiftLinear(p, Xor(x, cw), Xor(y, dw));
    XorPairs(x, cw, y, dw);
  }

  lemma XorPairs(a: nat, b: nat, c: nat, d: nat)
    ensures XorNat(XorNat(a, b), XorNat(c, d)) == XorNat(XorNat(a, c), XorNat(b, d))
  {
    XorAssociates(a, b, XorNat(c, d));
    XorAssociates(a, c, XorNat(b, d));
    XorRegroups(c, b, d);
  }

  lemma GeneratorVanishes()
    ensures Feed<Word32>(BitStep, 0, Generator()) == 0
  {
    var bits := Bits(POLY, WORD_BITS);
    assert Generator()[1..] == bits;
    assert BitStep(0, true) == POLY by {
      XorZero(POLY);
      XorCommutes(POLY, 0);
    }
    Pow2Values();
    WordOfBits(POLY, WORD_BITS);
    RegisterAbsorbs();
    Absorb<Word32>(BitStep, Shift, Xor, WordOf, 32, POLY, bits, POLY, WORD_BITS);
    XorSelf(POLY);
    IterateFixed<Word32>(Shift, 0, WORD_BITS);
  }

  /** Adding the generator to any 33 bits of any message leaves the register alone. */
  lemma GeneratorIsMissed(register: Word32, p: seq<bool>, u: seq<bool>, s: seq<bool>)
    requires |u| == 33
    ensures Generator()[0] && Generator()[32]
    ensures Feed<Word32>(BitStep, register, p + XorBits(u, Generator()) + s)
         == Feed<Word32>(BitStep, register, p + u + s)
  {
    var g := Generator();
    var r := Feed<Word32>(BitStep, register, p);
    FeedAppend<Word32>(BitStep, register, p + XorBits(u, g), s);
    FeedAppend<Word32>(BitStep, register, p + u, s);
    FeedAppend<Word32>(BitStep, register, p, XorBits(u, g));
    FeedAppend<Word32>(BitStep, register, p, u);
    forall x: Word32, y: Word32, c, d
      ensures BitStep(Xor(x, y), c != d) == Xor(BitStep(x, c), BitStep(y, d))
    {
      StepLinear(POLY, x, y, c, d);
    }
    FeedLinear<Word32>(BitStep, Xor, r, 0, u, g);
    GeneratorVanishes();
    XorZero(r);
    XorZero(Feed<Word32>(BitStep, r, u));
    TopOfPoly();
  }

  /** Nothing else does: the other window is the same or differs by the generator. */
  lemma OnlyGeneratorIsMissed(p: seq<bool>, u: seq<bool>, v: seq<bool>, s: seq<bool>)
    requires |u| == |v| == 33
    ensures Feed<Word32>(BitStep, ONES, p + u + s) == Feed<Word32>(BitStep, ONES, p + v + s)
      <==> u == v || v == XorBits(u, Generator())
  {
    GeneratorIsMissed(ONES, p, u, s);
    if Feed<Word32>(BitStep, ONES, p + u + s) == Feed<Word32>(BitStep, ONES, p + v + s) {
      if u[0] == v[0] {
        SameWindow(p, u, v, s);
      } else {
        SameWindow(p, XorBits(u, Generator()), v, s);
      }
    }
  }

  /** One bit more can be told apart if the first bits are known to agree. */
  lemma SameWindow(p: seq<bool>, u: seq<bool>, v: seq<bool>, s: seq<bool>)
    requires |u| == |v| == 33 && u[0] == v[0]
    requires Feed<Word32>(BitStep, ONES, p + u + s) == Feed<Word32>(BitStep, ONES, p + v + s)
    ensures u == v
  {
    SameFirst(p, u, s);
    SameFirst(p, v, s);
    WindowIsSeen(p + [u[0]], u[1..], v[1..], s);
    assert u == [u[0]] + u[1..] && v == [v[0]] + v[1..];
  }

  lemma SameFirst(p: seq<bool>, u: seq<bool>, s: seq<bool>)
    requires u != []
    ensures p + u + s == p + [u[0]] + u[1..] + s
  {
    assert u == [u[0]] + u[1..];
  }

  /** The part of a message that a burst of 33 bits from `from` can change. */
  function Window(m: seq<bool>, from: nat): (w: seq<bool>)
    requires from + 33 <= |m|
    ensures |w| == 33
  {
    m[from..from + 33]
  }

  /**
   * Two buffers of one length that differ in a burst of at most 33 bits have the same CRC exactly when they are
   * equal or differ by the generator polynomial.
   */
  lemma BurstOf33(x: seq<Byte>, y: seq<Byte>, from: nat)
    requires |x| == |y| && DifferWithin(Message(x), Message(y), from, 33)
    ensures Crc32(x) == Crc32(y) <==>
      || x == y
      || (&& from + 33 <= |Message(x)|
          && Window(Message(y), from) == XorBits(Window(Message(x), from), Generator()))
  {
    var a, b := Message(x), Message(y);
    if from + 33 <= |a| {
      var u, v := Window(a, from), Window(b, from);
      WindowSplits(a, b, from);
      OnlyGeneratorIsMissed(a[..from], u, v, a[from + 33..]);
      SameCrc(x, y);
      if u == v {
        MessageInjective(x, y);
      }
    } else if x != y {
      BurstChangesCrc(x, y, from);
    }
  }

  lemma WindowSplits(a: seq<bool>, b: seq<bool>, from: nat)
    requires DifferWithin(a, b, from, 33) && from + 33 <= |a|
    ensures a == a[..from] + Window(a, from) + a[from + 33..]
    ensures b == a[..from] + Window(b, from) + a[from + 33..]
  {
  }

  lemma {:induction false} BitsOfWord(bits: seq<bool>)
    requires |bits| <= 32
    ensures Bits(WordOf(bits), |bits|) == bits
  {
    if bits != [] {
      var w, half := WordOf(bits), WordOf(bits[1..]);
      WordParts(bits);
      BitsOfWord(bits[1..]);
      assert Bits(w, |bits|) == [bits[0]] + Bits(half, |bits| - 1);
      assert bits == [bits[0]] + bits[1..];
    }
  }

  /** Every sequence of whole bytes of bits is the message of a buffer. */
  lemma {:induction false} MessageOnto(bits: seq<bool>, size: nat) returns (buffer: seq<Byte>)
    requires |bits| == BYTE_BITS * size
    ensures |buffer| == size && Message(buffer) == bits
    decreases size
  {
    if size == 0 {
      buffer := [];
    } else {
      var first := bits[..BYTE_BITS];
      var rest := MessageOnto(bits[BYTE_BITS..], size - 1);
      Pow2Values();
      WordFits(first);
      BitsOfWord(first);
      buffer := [WordOf(first)] + rest;
      assert buffer[1..] == rest;
      assert bits == first + bits[BYTE_BITS..];
    }
  }

  /** 32 is the best bound: a burst of 33 bits can be missed in every buffer, wherever there is room for it. */
  lemma BurstOf33IsMissed(x: seq<Byte>, from: nat) returns (y: seq<Byte>)
    requires from + 33 <= BYTE_BITS * |x|
    ensures |y| == |x| && y != x && DifferWithin(Message(x), Message(y), from, 33) && Crc32(x) == Crc32(y)
  {
    MessageLength(x);
    var b := Flipped(Message(x), from, Generator());
    y := MessageOnto(b, |x|);
    GeneratorStarts();
    BurstOf33(x, y, from);
  }

  /** The message with `g` added to the 33 bits from `from` on. */
  function Flipped(m: seq<bool>, from: nat, g: seq<bool>): (r: seq<bool>)
    requires from + 33 <= |m| && |g| == 33
    ensures |r| == |m| && Window(r, from) == XorBits(Window(m, from), g) && DifferWithin(m, r, from, 33)
    ensures g[0] ==> r != m
  {
    var w := XorBits(Window(m, from), g);
    var r := m[..from] + w + m[from + 33..];
    assert Window(r, from) == w && r[from] == (m[from] != g[0]);
    r
  }

  lemma GeneratorStarts()
    ensures Generator()[0]
  {
  }

  lemma TopOfPoly()
    ensures Bits(POLY, WORD_BITS)[31]
  {
    Pow2Values();
    HighestBit(POLY, WORD_BITS);
  }

  /** The last bit of a word shows whether it is in the upper half of its range. */
  lemma {:induction false} HighestBit(w: nat, count: nat)
    requires count > 0 && w < Pow2(count)
    ensures Bits(w, count)[count - 1] <==> w >= Pow2(count - 1)
    decreases count
  {
    if count > 1 {
      HighestBit(w / 2, count - 1);
    }
  }
}
