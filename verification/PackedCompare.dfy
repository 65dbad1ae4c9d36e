/**
 * The COMPARE_n macros that KeywordLookupGenerator.py writes in front of the generated lexer code: several
 * characters are compared at once by loading them as one little-endian integer.
 */
module PackedCompare {
  import opened KeywordTrie

  /** How a CPU compares: unit by unit, pairs at once, or (x86-64) up to four units at once. */
  datatype Access = Aligned | Pairs | Quads

  /** LChar code has 8-bit units, UChar code 16-bit ones. */
  function Radix(wide: bool): int {
    if wide then 0x10000 else 0x100
  }

  ghost predicate Fits(units: seq<Unit>, wide: bool) {
    forall u :: u in units ==> u < Radix(wide)
  }

  /** The integer that a little-endian machine sees when it loads these units. */
  function Little(units: seq<Unit>, wide: bool): int {
    if units == [] then 0
    else units[0] + (if wide then 0x10000 * Little(units[1..], wide) else 0x100 * Little(units[1..], wide))
  }

  function Load(code: seq<Unit>, at: nat, count: nat, wide: bool): int
    requires at + count <= |code|
  {
    Little(code[at..at + count], wide)
  }

  /** CHARPAIR_TOUINT16 and UCHARPAIR_TOUINT32, little-endian. */
  function Pair(a: Unit, b: Unit, wide: bool): int {
    if wide then b * 0x10000 + a else b * 0x100 + a
  }

  /** CHARQUAD_TOUINT32 and UCHARQUAD_TOUINT64, little-endian. */
  function Quad(a: Unit, b: Unit, c: Unit, d: Unit, wide: bool): int {
    if wide then Pair(c, d, wide) * 0x1_0000_0000 + Pair(a, b, wide)
    else Pair(c, d, wide) * 0x10000 + Pair(a, b, wide)
  }

  predicate Compare2(access: Access, wide: bool, code: seq<Unit>, at: nat, a: Unit, b: Unit)
    requires at + 2 <= |code|
  {
    if access.Aligned? then code[at] == a && code[at + 1] == b
    else Load(code, at, 2, wide) == Pair(a, b, wide)
  }

  predicate Compare4(access: Access, wide: bool, code: seq<Unit>, at: nat, a: Unit, b: Unit, c: Unit, d: Unit)
    requires at + 4 <= |code|
  {
    if access.Quads? then Load(code, at, 4, wide) == Quad(a, b, c, d, wide)
    else Compare2(access, wide, code, at, a, b) && Compare2(access, wide, code, at + 2, c, d)
  }

  /** There is a test for one character and a macro for each of two to eight. */
  predicate HasMacro(count: nat) {
    1 <= count <= 8
  }

  predicate Compare(access: Access, wide: bool, code: seq<Unit>, at: nat, cs: Word)
    requires HasMacro(|cs|) && at + |cs| <= |code|
  {
    match |cs|
    case 1 => code[at] == cs[0]
    case 2 => Compare2(access, wide, code, at, cs[0], cs[1])
    case 3 => Compare2(access, wide, code, at, cs[0], cs[1]) && code[at + 2] == cs[2]
    case 4 => Compare4(access, wide, code, at, cs[0], cs[1], cs[2], cs[3])
    case 5 => Compare4(access, wide, code, at, cs[0], cs[1], cs[2], cs[3]) && code[at + 4] == cs[4]
    case 6 =>
      Compare4(access, wide, code, at, cs[0], cs[1], cs[2], cs[3])
      && Compare2(access, wide, code, at + 4, cs[4], cs[5])
    case 7 =>
      Compare4(access, wide, code, at, cs[0], cs[1], cs[2], cs[3])
      && Compare4(access, wide, code, at + 3, cs[3], cs[4], cs[5], cs[6])
    case _ =>
      Compare4(access, wide, code, at, cs[0], cs[1], cs[2], cs[3])
      && Compare4(access, wide, code, at + 4, cs[4], cs[5], cs[6], cs[7])
  }

  lemma Compare2Exact(access: Access, wide: bool, code: seq<Unit>, at: nat, a: Unit, b: Unit)
    requires at + 2 <= |code| && Fits(code, wide) && a < Radix(wide) && b < Radix(wide)
    ensures Compare2(access, wide, code, at, a, b) <==> code[at] == a && code[at + 1] == b
  {
    var u := code[at..at + 2];
    assert code[at] in code && code[at + 1] in code;
    assert u[1..][1..] == [];
    assert Little(u[1..], wide) == u[1];
  }

  lemma LoadFour(u: seq<Unit>, wide: bool)
    requires |u| == 4
    ensures Little(u, wide) == Quad(u[0], u[1], u[2], u[3], wide)
  {
    assert u[1..][1..] == u[2..] && u[2..][1..] == u[3..] && u[3..][1..] == [];
    assert Little(u[3..], wide) == u[3];
    assert Little(u[2..], wide) == Pair(u[2], u[3], wide);
  }

  // Packing is injective, one width at a time.

  lemma FourNarrow(t: int, u: int, v: int, w: int, a: int, b: int, c: int, d: int)
    requires 0 <= t < 0x100 && 0 <= u < 0x100 && 0 <= v < 0x100 && 0 <= w < 0x100
    requires 0 <= a < 0x100 && 0 <= b < 0x100 && 0 <= c < 0x100 && 0 <= d < 0x100
    ensures (w * 0x100 + v) * 0x10000 + (u * 0x100 + t) == (d * 0x100 + c) * 0x10000 + (b * 0x100 + a)
      <==> t == a && u == b && v == c && w == d
  {
    var high, low, high', low' := w * 0x100 + v, u * 0x100 + t, d * 0x100 + c, b * 0x100 + a;
    assert high * 0x10000 + low == high' * 0x10000 + low' <==> high == high' && low == low';
  }

  lemma FourWide(t: int, u: int, v: int, w: int, a: int, b: int, c: int, d: int)
    requires 0 <= t < 0x10000 && 0 <= u < 0x10000 && 0 <= v < 0x10000 && 0 <= w < 0x10000
    requires 0 <= a < 0x10000 && 0 <= b < 0x10000 && 0 <= c < 0x10000 && 0 <= d < 0x10000
    ensures (w * 0x10000 + v) * 0x1_0000_0000 + (u * 0x10000 + t)
         == (d * 0x10000 + c) * 0x1_0000_0000 + (b * 0x10000 + a)
      <==> t == a && u == b && v == c && w == d
  {
    var high, low, high', low' := w * 0x10000 + v, u * 0x10000 + t, d * 0x10000 + c, b * 0x10000 + a;
    assert high * 0x1_0000_0000 + low == high' * 0x1_0000_0000 + low' <==> high == high' && low == low';
  }

  lemma Compare4Exact(access: Access, wide: bool, code: seq<Unit>, at: nat, a: Unit, b: Unit, c: Unit, d: Unit)
    requires at + 4 <= |code| && Fits(code, wide)
    requires a < Radix(wide) && b < Radix(wide) && c < Radix(wide) && d < Radix(wide)
    ensures Compare4(access, wide, code, at, a, b, c, d)
      <==> code[at] == a && code[at + 1] == b && code[at + 2] == c && code[at + 3] == d
  {
    if access.Quads? {
      assert code[at] in code && code[at + 1] in code && code[at + 2] in code && code[at + 3] in code;
      LoadFour(code[at..at + 4], wide);
      if wide {
        FourWide(code[at], code[at + 1], code[at + 2], code[at + 3], a, b, c, d);
      } else {
        FourNarrow(code[at], code[at + 1], code[at + 2], code[at + 3], a, b, c, d);
      }
    } else {
      Compare2Exact(access, wide, code, at, a, b);
      Compare2Exact(access, wide, code, at + 2, c, d);
    }
  }

  /** Every macro is true exactly when all its characters are equal, on every kind of CPU. */
  lemma CompareExact(access: Access, wide: bool, code: seq<Unit>, at: nat, cs: Word)
    requires HasMacro(|cs|) && at + |cs| <= |code|
    requires Fits(code, wide) && Fits(cs, wide)
    ensures Compare(access, wide, code, at, cs) <==> code[at..at + |cs|] == cs
  {
    assert forall i :: 0 <= i < |cs| ==> cs[i] in cs;
    if |cs| in {2, 3} {
      Compare2Exact(access, wide, code, at, cs[0], cs[1]);
    }
    if |cs| >= 4 {
      Compare4Exact(access, wide, code, at, cs[0], cs[1], cs[2], cs[3]);
    }
    if |cs| == 6 {
      Compare2Exact(access, wide, code, at + 4, cs[4], cs[5]);
    } else if |cs| == 7 {
      Compare4Exact(access, wide, code, at + 3, cs[3], cs[4], cs[5], cs[6]);
    } else if |cs| == 8 {
      Compare4Exact(access, wide, code, at + 4, cs[4], cs[5], cs[6], cs[7]);
    }
    SameUnits(code, at, cs);
  }

  lemma SameUnits(code: seq<Unit>, at: nat, cs: Word)
    requires at + |cs| <= |code|
    ensures code[at..at + |cs|] == cs <==> forall i :: 0 <= i < |cs| ==> code[at + i] == cs[i]
  {
  }
}
