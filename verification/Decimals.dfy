/** Base-ten numerals as ASCII bytes. */
module Decimals {
  import opened Arithmetic
  import opened Octets
  import opened Widths

  const ZERO: Octet := 48
  const DOT: Octet := 46

  function Pow10(n: nat): (p: nat)
    ensures p >= 1
  {
    if n == 0 then 1 else 10 * Pow10(n - 1)
  }

  predicate IsDigit(b: Octet) {
    48 <= b <= 57
  }

  predicate Digits(s: Octets) {
    forall i | 0 <= i < |s| :: IsDigit(s[i])
  }

  /** The value of a numeral. */
  function Number(s: Octets): nat
    requires Digits(s)
  {
    if s == [] then 0 else 10 * Number(s[..|s| - 1]) + (s[|s| - 1] - 48)
  }

  /** `to_string` of an unsigned integer. */
  function Numeral(n: nat): (s: Octets)
    ensures s != [] && Digits(s)
  {
    if n < 10 then [48 + n] else Numeral(n / 10) + [48 + n % 10]
  }

  // ---------------------------------------------------------------------------------------------
  // Powers of ten
  // ---------------------------------------------------------------------------------------------

  lemma {:induction false} PowAdd(a: nat, b: nat)
    ensures Pow10(a + b) == Pow10(a) * Pow10(b)
  {
    if a > 0 {
      PowAdd(a - 1, b);
      assert Pow10(a + b) == 10 * Pow10(a - 1 + b);
      assert (10 * Pow10(a - 1)) * Pow10(b) == 10 * (Pow10(a - 1) * Pow10(b));
    }
  }

  lemma {:induction false} PowMonotone(a: nat, b: nat)
    requires a <= b
    ensures Pow10(a) <= Pow10(b)
  {
    if a < b { PowMonotone(a, b - 1); }
  }

  lemma SmallPowers()
    ensures Pow10(19) == 10_000_000_000_000_000_000
    ensures Pow10(38) == 100_000_000_000_000_000_000_000_000_000_000_000_000 < U128_LIMIT
    ensures U128_LIMIT <= Pow10(39) == 1_000_000_000_000_000_000_000_000_000_000_000_000_000
  {
    assert Pow10(5) == 100_000;
    PowAdd(5, 5);
    PowAdd(10, 9);
    PowAdd(5, 4);
    assert Pow10(4) == 10_000;
    PowAdd(19, 19);
  }

  // ---------------------------------------------------------------------------------------------
  // Numerals
  // ---------------------------------------------------------------------------------------------

  lemma {:induction false} NumberBelow(s: Octets)
    requires Digits(s)
    ensures Number(s) < Pow10(|s|)
  {
    if s != [] { NumberBelow(s[..|s| - 1]); }
  }

  lemma {:induction false} NumberConcat(a: Octets, b: Octets)
    requires Digits(a) && Digits(b)
    ensures Digits(a + b) && Number(a + b) == Number(a) * Pow10(|b|) + Number(b)
  {
    if b == [] {
      assert a + b == a;
    } else {
      var n := |b| - 1;
      NumberConcat(a, b[..n]);
      NumberLast(a, b);
      Rearranged(Number(a), 10, Pow10(n));
    }
  }

  /** Putting digits in front changes nothing about how the last digit counts. */
  lemma NumberLast(a: Octets, b: Octets)
    requires Digits(a) && Digits(b) && b != [] && Digits(a + b[..|b| - 1])
    ensures Digits(a + b)
    ensures Number(a + b) - 10 * Number(a + b[..|b| - 1]) == Number(b) - 10 * Number(b[..|b| - 1])
  {
    assert (a + b)[..|a + b| - 1] == a + b[..|b| - 1];
  }

  lemma {:induction false} NumberZero(s: Octets)
    requires Digits(s)
    ensures Number(s) == 0 <==> forall i | 0 <= i < |s| :: s[i] == ZERO
  {
    if s != [] {
      var n := |s| - 1;
      NumberZero(s[..n]);
      assert forall i | 0 <= i < n :: s[..n][i] == s[i];
    }
  }

  lemma {:induction false} NumberOfNumeral(n: nat)
    ensures Number(Numeral(n)) == n
    ensures |Numeral(n)| > 1 ==> Numeral(n)[0] != ZERO
    ensures n > 0 ==> Numeral(n)[0] != ZERO && Pow10(|Numeral(n)| - 1) <= n
    ensures n < Pow10(|Numeral(n)|)
  {
    if n < 10 {
      assert Numeral(n)[..0] == [];
      assert Number(Numeral(n)) == n;
      assert Pow10(1) == 10;
    } else {
      var front := Numeral(n / 10);
      NumberOfNumeral(n / 10);
      assert Numeral(n)[..|Numeral(n)| - 1] == front;
      assert Numeral(n)[0] == front[0];
      assert Pow10(|front|) == 10 * Pow10(|front| - 1);
    }
  }

  /** A bound on the value bounds the digits printed. */
  lemma {:induction false} NumeralLength(n: nat, digits: nat)
    requires 1 <= digits && n < Pow10(digits)
    ensures |Numeral(n)| <= digits
  {
    if n >= 10 { NumeralLength(n / 10, digits - 1); }
  }

  lemma ZerosNumber(n: nat)
    ensures Digits(seq(n, _ => ZERO)) && Number(seq(n, _ => ZERO)) == 0
  {
    NumberZero(seq(n, _ => ZERO));
  }

  // ---------------------------------------------------------------------------------------------
  // The two parts of a decimal text
  // ---------------------------------------------------------------------------------------------

  /** The first dot, or the end. */
  function Dot(text: Octets): (d: nat)
    ensures d <= |text| && (d < |text| ==> text[d] == DOT)
    ensures forall i | 0 <= i < d :: text[i] != DOT
  {
    if text == [] || text[0] == DOT then 0 else 1 + Dot(text[1..])
  }

  lemma DotIs(text: Octets, d: nat)
    requires d <= |text| && (d < |text| ==> text[d] == DOT) && forall i | 0 <= i < d :: text[i] != DOT
    ensures Dot(text) == d
  {}

  function Whole(text: Octets): Octets {
    text[..Dot(text)]
  }

  function Fraction(text: Octets): Octets {
    if Dot(text) < |text| then text[Dot(text) + 1..] else []
  }

  /** A whole part, and possibly a dot and a fraction, in digits throughout. */
  predicate DecimalText(text: Octets) {
    Whole(text) != [] && Digits(Whole(text)) && Digits(Fraction(text))
  }

  /** The text's digits read as one number; its value is that number over 10 to the fraction's length. */
  function Numerator(text: Octets): nat
    requires DecimalText(text)
  {
    NumberConcat(Whole(text), Fraction(text));
    Number(Whole(text) + Fraction(text))
  }

  /** The text's exact value is units / 10^scale. */
  ghost predicate ValueIs(text: Octets, units: nat, scale: nat)
    requires DecimalText(text)
  {
    units * Pow10(|Fraction(text)|) == Numerator(text) * Pow10(scale)
  }
}
