/**
 * Decimal numerals: what `printf` writes for a number and what `atoi` reads back.
 */
module Decimals {

  function Digit(d: nat): char
    requires d < 10
  {
    '0' + d as char
  }

  predicate IsDigit(c: char) {
    '0' <= c <= '9'
  }

  function DigitValue(c: char): nat
    requires IsDigit(c)
  {
    c as int - '0' as int
  }

  function Numeral(n: nat): string {
    if n < 10 then [Digit(n)] else Numeral(n / 10) + [Digit(n % 10)]
  }

  predicate AllDigits(s: string) {
    forall c :: c in s ==> IsDigit(c)
  }

  function Value(s: string): nat
    requires AllDigits(s)
  {
    if s == [] then 0
    else
      assert s[|s| - 1] in s;
      10 * Value(s[..|s| - 1]) + DigitValue(s[|s| - 1])
  }

  /** A numeral is a non-empty string of digits that stands for its number. */
  lemma {:induction false} NumeralValue(n: nat)
    ensures Numeral(n) != [] && AllDigits(Numeral(n)) && Value(Numeral(n)) == n
  {
    if n < 10 {
      assert Numeral(n)[..0] == [];
    } else {
      NumeralValue(n / 10);
      var s := Numeral(n / 10);
      assert (s + [Digit(n % 10)])[..|s|] == s;
    }
  }
}
