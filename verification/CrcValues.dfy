/**
 * The CRC in the terms of section 3.4 of RFC 2083: its polynomial, written out, and known values.
 */
module CrcValues {
  import opened Bitwise
  import opened LinearRegister
  import opened Crc

  // ---------------------------------------------------------------- the polynomial

  function Bit(b: bool): nat {
    if b then 1 else 0
  }

  /** The number with these bits, the least significant first. */
  function Num(bits: seq<bool>): nat {
    if bits == [] then 0 else Bit(bits[0]) + 2 * Num(bits[1..])
  }

  lemma {:induction false} NumIsWord(bits: seq<bool>)
    requires |bits| <= 32
    ensures WordOf(bits) == Num(bits)
  {
    if bits != [] {
      WordFits(bits);
      NumIsWord(bits[1..]);
    }
  }

  lemma NumByte(a: seq<bool>, b: seq<bool>)
    requires |a| == 8
    ensures Num(a + b) == Num(a) + 0x100 * Num(b)
  {
    var c, d := a[..4], a[4..];
    assert a + b == c + (d + b) && a == c + d;
    NumNibble(c, d + b);
    NumNibble(d, b);
    NumNibble(c, d);
  }

  lemma NumNibble(a: seq<bool>, b: seq<bool>)
    requires |a| == 4
    ensures Num(a + b) == Num(a) + 16 * Num(b)
  {
    assert a == [a[0], a[1], a[2], a[3]] && a + [] == a;
    NumFour(a[0], a[1], a[2], a[3], b);
    NumFour(a[0], a[1], a[2], a[3], []);
  }

  lemma NumEight(a: bool, b: bool, c: bool, d: bool, e: bool, f: bool, g: bool, h: bool)
    ensures Num([a, b, c, d, e, f, g, h])
         == Bit(a) + 2 * Bit(b) + 4 * Bit(c) + 8 * Bit(d) + 16 * Bit(e) + 32 * Bit(f) + 64 * Bit(g) + 128 * Bit(h)
  {
    NumFour(a, b, c, d, [e, f, g, h]);
    NumFour(e, f, g, h, []);
    assert [a, b, c, d] + [e, f, g, h] == [a, b, c, d, e, f, g, h] && [e, f, g, h] + [] == [e, f, g, h];
  }

  lemma NumFour(a: bool, b: bool, c: bool, d: bool, rest: seq<bool>)
    ensures Num([a, b, c, d] + rest) == Bit(a) + 2 * Bit(b) + 4 * Bit(c) + 8 * Bit(d) + 16 * Num(rest)
  {
    var s := [a, b, c, d] + rest;
    assert s[1..][1..] == s[2..] && s[2..][1..] == s[3..] && s[3..][1..] == rest;
    assert Num(s[3..]) == Bit(d) + 2 * Num(rest);
    assert Num(s[2..]) == Bit(c) + 2 * Num(s[3..]);
    assert Num(s[1..]) == Bit(b) + 2 * Num(s[2..]);
  }

  /** The bits of the reversed polynomial, byte by byte. */
  lemma PolynomialBits(a: seq<bool>, b: seq<bool>, c: seq<bool>, d: seq<bool>)
    requires a == [false, false, false, false, false, true, false, false]
    requires b == [true, true, false, false, false, false, false, true]
    requires c == [false, false, false, true, true, true, false, true]
    requires d == [true, false, true, true, false, true, true, true]
    ensures Bits(POLY, WORD_BITS) == a + (b + (c + d))
  {
    NumEight(false, false, false, false, false, true, false, false);
    NumEight(true, true, false, false, false, false, false, true);
    NumEight(false, false, false, true, true, true, false, true);
    NumEight(true, false, true, true, false, true, true, true);
    NumByte(c, d);
    NumByte(b, c + d);
    NumByte(a, b + (c + d));
    var bits := a + (b + (c + d));
    assert Num(bits) == POLY && |bits| == WORD_BITS;
    NumIsWord(bits);
    BitsOfWord(bits);
  }

  lemma GeneratorBit(a: seq<bool>, b: seq<bool>, c: seq<bool>, d: seq<bool>, i: nat)
    requires i < 33 && |a| == |b| == |c| == |d| == 8 && Bits(POLY, WORD_BITS) == a + (b + (c + d))
    ensures Generator()[i] == (
              if i == 0 then true
              else if i <= 8 then a[i - 1]
              else if i <= 16 then b[i - 9]
              else if i <= 24 then c[i - 17]
              else d[i - 25])
  {
  }

  /** The generator is the polynomial: these are the powers of x in it, and bit `i` stands for power 32 - i. */
  lemma GeneratorIs(i: nat)
    requires i < 33
    ensures Generator()[i] <==> 32 - i in {32, 26, 23, 22, 16, 12, 11, 10, 8, 7, 5, 4, 2, 1, 0}
  {
    var a := [false, false, false, false, false, true, false, false];
    var b := [true, true, false, false, false, false, false, true];
    var c := [false, false, false, true, true, true, false, true];
    var d := [true, false, true, true, false, true, true, true];
    PolynomialBits(a, b, c, d);
    GeneratorBit(a, b, c, d, i);
    if 0 < i <= 16 {
      HighPowers(a, b, i);
    } else if 16 < i {
      LowPowers(c, d, i);
    }
  }

  lemma HighPowers(a: seq<bool>, b: seq<bool>, i: nat)
    requires 0 < i <= 16
    requires a == [false, false, false, false, false, true, false, false]
    requires b == [true, true, false, false, false, false, false, true]
    ensures (if i <= 8 then a[i - 1] else b[i - 9]) <==> 32 - i in {26, 23, 22, 16}
  {
  }

  lemma LowPowers(c: seq<bool>, d: seq<bool>, i: nat)
    requires 16 < i <= 32
    requires c == [false, false, false, true, true, true, false, true]
    requires d == [true, false, true, true, false, true, true, true]
    ensures (if i <= 24 then c[i - 17] else d[i - 25]) <==> 32 - i in {12, 11, 10, 8, 7, 5, 4, 2, 1, 0}
  {
  }

  // ---------------------------------------------------------------- known values

  lemma {:induction false} XorOnes(x: nat, n: nat)
    requires x < Pow2(n)
    ensures XorNat(x, Pow2(n) - 1) == Pow2(n) - 1 - x
    decreases n
  {
    if n > 0 {
      var ones := Pow2(n - 1) - 1;
      var r := XorNat(x, 2 * ones + 1);
      assert Odd(r) != Odd(x) && r / 2 == ones - x / 2 by {
        HalfParts(true, ones, 2 * ones + 1);
        XorParts(x, 2 * ones + 1);
        XorOnes(x / 2, n - 1);
      }
      Complement(x, ones, r);
    }
  }

  lemma Complement(x: nat, ones: nat, r: nat)
    requires Odd(r) != Odd(x) && r / 2 == ones - x / 2
    ensures r == 2 * ones + 1 - x
  {
  }

  /** The complement of a word. */
  lemma XorComplement(x: Word32)
    ensures Xor(x, ONES) == 0xFFFF_FFFF - x == Xor(ONES, x)
  {
    Pow2Values();
    XorOnes(x, 32);
    XorCommutes(x, ONES);
  }

  lemma NumOfByte(b: Byte)
    ensures Num(Bits(b, BYTE_BITS)) == b
  {
    Pow2Values();
    WordOfBits(b, BYTE_BITS);
    NumIsWord(Bits(b, BYTE_BITS));
  }

  lemma NumOfMessage(b: Byte, rest: seq<Byte>)
    ensures Num(Message([b] + rest)) == b + 0x100 * Num(Message(rest))
  {
    assert ([b] + rest)[1..] == rest;
    NumByte(Bits(b, BYTE_BITS), Message(rest));
    NumOfByte(b);
  }

  /** A message of four bytes is one word, the first byte lowest. */
  lemma FourBytes(a: Byte, b: Byte, c: Byte, d: Byte)
    ensures |Message([a, b, c, d])| == 32
    ensures WordOf(Message([a, b, c, d])) == a + 0x100 * b + 0x1_0000 * c + 0x100_0000 * d
  {
    var s: seq<Byte> := [a, b, c, d];
    MessageLength(s);
    NumOfMessage(a, [b, c, d]);
    NumOfMessage(b, [c, d]);
    NumOfMessage(c, [d]);
    NumOfMessage(d, []);
    assert [a] + [b, c, d] == s && [b] + [c, d] == [b, c, d] && [c] + [d] == [c, d] && [d] + [] == [d];
    NumIsWord(Message(s));
  }

  /** The CRC of four bytes: they are added to the ones, and shifted out. */
  lemma CrcOfFour(a: Byte, b: Byte, c: Byte, d: Byte, word: Word32)
    requires word == a + 0x100 * b + 0x1_0000 * c + 0x100_0000 * d
    ensures Crc32([a, b, c, d]) == Xor(Iterate<Word32>(Shift, 0xFFFF_FFFF - word, WORD_BITS), ONES)
  {
    FourBytes(a, b, c, d);
    ShiftedOut(Message([a, b, c, d]), word);
  }

  lemma ShiftedOut(m: seq<bool>, word: Word32)
    requires |m| == 32 && WordOf(m) == word
    ensures Feed<Word32>(BitStep, ONES, m) == Iterate<Word32>(Shift, 0xFFFF_FFFF - word, WORD_BITS)
  {
    RegisterAbsorbs();
    Absorb<Word32>(BitStep, Shift, Xor, WordOf, 32, ONES, m, word, WORD_BITS);
    XorComplement(word);
  }

  lemma LastShift(n: nat)
    ensures n < 32 ==> Iterate<Word32>(Shift, Top(n), n + 1) == POLY
  {
    if n < 32 {
      ShiftHigh(1, n, Top(n));
      IterateLast<Word32>(Shift, Top(n), n);
      assert Shift(1) == POLY by {
        XorZero(POLY);
      }
    }
  }

  /** The word with bit number `n` set. */
  function Top(n: nat): Word32
    requires n < 32
  {
    Pow2Grows(n, 31);
    Pow2Values();
    Pow2(n)
  }

  lemma {:induction false} IterateLast<T>(f: T -> T, x: T, n: nat)
    ensures Iterate(f, x, n + 1) == f(Iterate(f, x, n))
    decreases n
  {
    if n > 0 {
      IterateLast(f, f(x), n - 1);
    }
  }

  /** Known values: the empty buffer, four bytes of ones, and the same with the last bit clear. */
  lemma KnownValues()
    ensures Crc32([]) == 0
    ensures Crc32([0xFF, 0xFF, 0xFF, 0xFF]) == 0xFFFF_FFFF
    ensures Crc32([0xFF, 0xFF, 0xFF, 0x7F]) == 0x1247_7CDF
  {
    XorComplement(ONES);
    XorComplement(0);
    XorComplement(POLY);
    CrcOfFour(0xFF, 0xFF, 0xFF, 0xFF, 0xFFFF_FFFF);
    IterateFixed<Word32>(Shift, 0, WORD_BITS);
    CrcOfFour(0xFF, 0xFF, 0xFF, 0x7F, 0x7FFF_FFFF);
    LastShift(31);
    Pow2Values();
  }
}
