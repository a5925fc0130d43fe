/** The other connector's decimal parser: straight from text to atomic units. It was written on its own
and is shown to agree. */
module ThunesAmounts {
  import opened Arithmetic
  import opened Octets
  import opened Decimals
  import Ntzs = NtzsAmounts
  import opened Widths

  const MAX_PRECISION: nat := 38

  datatype AmountError = Invalid | Precision | Overflow

  datatype Result = Ok(units: nat) | Err(error: AmountError)

  const MINUS: Octet := 45
  const PLUS: Octet := 43
  const LOWER_E: Octet := 101
  const UPPER_E: Octet := 69

  /** `10.checked_pow(n)`: missing from 10^39 on. */
  predicate PowFits(n: nat) {
    Pow10(n) < U128_LIMIT
  }

  function ParseDecimal(text: Octets, precision: nat): Result {
    if text == [] || text[0] == MINUS || text[0] == PLUS || LOWER_E in text || UPPER_E in text then Err(Invalid)
    else
      var whole, fraction := Whole(text), Fraction(text);
      if DOT in fraction || whole == [] || !Digits(whole) then Err(Invalid)
      else if !Digits(fraction) then Err(Invalid)
      else if |fraction| > precision && exists i | precision <= i < |fraction| :: fraction[i] != ZERO
        then Err(Precision)
      else Convert(whole, fraction[..Least(|fraction|, precision)], precision)
  }

  /** The checked arithmetic on the whole part and the digits of the fraction that are kept. */
  function Convert(whole: Octets, kept: Octets, precision: nat): Result
    requires Digits(whole) && Digits(kept) && |kept| <= precision
  {
    if !PowFits(precision) || Number(whole) >= U128_LIMIT then Err(Overflow)
    else if Number(whole) * Pow10(precision) >= U128_LIMIT then Err(Overflow)
    else if kept == [] then Ok(Number(whole) * Pow10(precision))
    else Add(Number(whole) * Pow10(precision), Number(kept), precision - |kept|)
  }

  function Add(result: nat, fractionValue: nat, padding: nat): Result {
    if !PowFits(padding) || fractionValue * Pow10(padding) >= U128_LIMIT then Err(Overflow)
    else if result + fractionValue * Pow10(padding) >= U128_LIMIT then Err(Overflow)
    else Ok(result + fractionValue * Pow10(padding))
  }

  // ---------------------------------------------------------------------------------------------
  // The value it computes
  // ---------------------------------------------------------------------------------------------

  function Least(a: nat, b: nat): nat {
    if a < b then a else b
  }

  /** The digits after the point that the precision can hold. */
  function Kept(text: Octets, precision: nat): (kept: Octets)
    requires DecimalText(text)
    ensures Digits(kept) && |kept| <= precision
  {
    var fraction := Fraction(text);
    fraction[..Least(|fraction|, precision)]
  }

  /** The part of the value the precision can hold. */
  function Units(text: Octets, precision: nat): nat
    requires DecimalText(text)
  {
    var kept := Kept(text, precision);
    Number(Whole(text)) * Pow10(precision) + Number(kept) * Pow10(precision - |kept|)
  }

  /** Nothing but zeros is dropped. */
  predicate NothingDropped(text: Octets, precision: nat)
    requires DecimalText(text)
  {
    forall i | precision <= i < |Fraction(text)| :: Fraction(text)[i] == ZERO
  }

  lemma DigitsAreNeither(s: Octets)
    requires Digits(s)
    ensures DOT !in s && MINUS !in s && PLUS !in s && LOWER_E !in s && UPPER_E !in s
  {}

  lemma DecimalTextIsPlain(text: Octets)
    requires DecimalText(text)
    ensures text != [] && text[0] != MINUS && text[0] != PLUS && LOWER_E !in text && UPPER_E !in text
    ensures DOT !in Fraction(text)
  {
    DigitsAreNeither(Whole(text));
    DigitsAreNeither(Fraction(text));
    assert text[0] == Whole(text)[0];
    if Dot(text) < |text| {
      assert text == Whole(text) + [DOT] + Fraction(text);
    } else {
      assert text == Whole(text);
    }
  }

  lemma LargeParts(w: nat, p: nat, f: nat, q: nat)
    requires p >= 1 && w * p + f * q < U128_LIMIT
    ensures w < U128_LIMIT && w * p < U128_LIMIT && f * q < U128_LIMIT
  {
    assert w <= w * p;
    assert 0 <= f * q;
  }

  lemma PowFitsExactly(n: nat)
    ensures PowFits(n) <==> n <= MAX_PRECISION
  {
    SmallPowers();
    if n <= MAX_PRECISION { PowMonotone(n, MAX_PRECISION); } else { PowMonotone(MAX_PRECISION + 1, n); }
  }

  /** The outcome of every text and precision, with no intermediate overflow left in it. */
  lemma ParseOutcome(text: Octets, precision: nat)
    ensures ParseDecimal(text, precision) ==
            if !DecimalText(text) then Err(Invalid)
            else if !NothingDropped(text, precision) then Err(Precision)
            else if precision > MAX_PRECISION || Units(text, precision) >= U128_LIMIT then Err(Overflow)
            else Ok(Units(text, precision))
  {
    if DecimalText(text) {
      DecimalTextIsPlain(text);
      var kept := Kept(text, precision);
      PowFitsExactly(precision);
      PowFitsExactly(precision - |kept|);
      if Units(text, precision) < U128_LIMIT {
        LargeParts(Number(Whole(text)), Pow10(precision), Number(kept), Pow10(precision - |kept|));
      }
    }
  }

  // ---------------------------------------------------------------------------------------------
  // It never rounds
  // ---------------------------------------------------------------------------------------------

  lemma Distribute(a: nat, b: nat, p: nat, q: nat, k: nat)
    ensures (a * p + b * q) * k == a * (p * k) + b * (q * k)
  {
    assert (a * p + b * q) * k == (a * p) * k + (b * q) * k;
    assert (a * p) * k == a * (p * k) && (b * q) * k == b * (q * k);
  }

  /** With room for the whole fraction, the units are exact. */
  lemma UnitsOfShort(text: Octets, precision: nat)
    requires DecimalText(text) && |Fraction(text)| <= precision
    ensures ValueIs(text, Units(text, precision), precision)
  {
    var w, f, s := Number(Whole(text)), Number(Fraction(text)), |Fraction(text)|;
    assert Fraction(text)[..s] == Fraction(text);
    NumberConcat(Whole(text), Fraction(text));
    PowAdd(s, precision - s);
    ShortArithmetic(w, f, Pow10(s), Pow10(precision - s));
  }

  lemma ShortArithmetic(w: nat, f: nat, p: nat, q: nat)
    ensures (w * (p * q) + f * q) * p == (w * p + f) * (p * q)
  {
    Distribute(w, f, p * q, q, p);
    assert (w * p + f) * (p * q) == (w * p) * (p * q) + f * (p * q);
    assert w * ((p * q) * p) == (w * p) * (p * q);
    assert q * p == p * q;
  }

  /** With a longer fraction, the text is its kept part and a rest below one unit. */
  lemma UnitsOfLong(text: Octets, precision: nat)
    requires DecimalText(text) && |Fraction(text)| > precision
    ensures var rest := Fraction(text)[precision..];
            && Digits(rest) && Number(rest) < Pow10(|rest|)
            && Numerator(text) == Units(text, precision) * Pow10(|rest|) + Number(rest)
            && Pow10(|Fraction(text)|) == Pow10(precision) * Pow10(|rest|)
  {
    var whole, fraction := Whole(text), Fraction(text);
    var kept, rest := fraction[..precision], fraction[precision..];
    NumberConcat(whole, kept);
    NumberConcat(whole + kept, rest);
    NumberBelow(rest);
    assert whole + fraction == whole + kept + rest;
    PowAdd(precision, |rest|);
    assert Units(text, precision) == Number(whole + kept);
  }

  lemma LongArithmetic(n: nat, u: nat, r: nat, p: nat, k: nat)
    requires p >= 1 && r < k
    ensures n * (p * k) == (u * k + r) * p <==> r == 0 && n == u
  {
    Rearranged(n, p, k);
    if n * (p * k) == (u * k + r) * p {
      CancelFactor(p, n * k, u * k + r);
      Quotient(n, u, r, k);
    }
  }

  lemma Quotient(n: nat, u: nat, r: nat, k: nat)
    requires r < k && n * k == u * k + r
    ensures n == u && r == 0
  {
    if n > u { MulAtMost(u + 1, n, k); } else { MulAtMost(n, u, k); }
    if r == 0 { CancelFactor(k, n, u); }
  }

  /** The units are the text's value at this precision if and only if only zeros are dropped. */
  lemma UnitsExact(text: Octets, precision: nat, n: nat)
    requires DecimalText(text)
    ensures ValueIs(text, n, precision) <==> NothingDropped(text, precision) && n == Units(text, precision)
  {
    if |Fraction(text)| <= precision {
      UnitsOfShort(text, precision);
      if ValueIs(text, n, precision) {
        CancelFactor(Pow10(|Fraction(text)|), n, Units(text, precision));
      }
    } else {
      UnitsOfLong(text, precision);
      DroppedIsNumber(text, precision);
      var rest := Fraction(text)[precision..];
      LongArithmetic(n, Units(text, precision), Number(rest), Pow10(precision), Pow10(|rest|));
    }
  }

  lemma DroppedIsNumber(text: Octets, precision: nat)
    requires DecimalText(text) && precision < |Fraction(text)|
    ensures Digits(Fraction(text)[precision..])
    ensures NothingDropped(text, precision) <==> Number(Fraction(text)[precision..]) == 0
  {
    var rest := Fraction(text)[precision..];
    assert forall i | 0 <= i < |rest| :: rest[i] == Fraction(text)[precision + i];
    assert forall i | precision <= i < |Fraction(text)| :: Fraction(text)[i] == rest[i - precision];
    NumberZero(rest);
  }

  /** A text parses to n units if and only if it is a decimal whose exact value is n / 10^precision, the
      precision is at most 38 and n fits in 128 bits: nothing is ever rounded, and nothing exact is refused. */
  lemma ParseDecimalIsExact(text: Octets, precision: nat, n: nat)
    ensures ParseDecimal(text, precision) == Ok(n)
       <==> DecimalText(text) && precision <= MAX_PRECISION && n < U128_LIMIT && ValueIs(text, n, precision)
  {
    ParseOutcome(text, precision);
    if DecimalText(text) { UnitsExact(text, precision, n); }
  }

  // ---------------------------------------------------------------------------------------------
  // The two connectors agree
  // ---------------------------------------------------------------------------------------------

  /** Whenever the other connector parses a text and converts it into n atomic units, this one gives the
      same n from the same text. */
  lemma ConnectorsAgree(text: Octets, maximumScale: nat, decimals: nat, n: nat)
    requires Ntzs.Parsed(text, maximumScale).Ok?
    requires Ntzs.AtomicUnits(Ntzs.Parsed(text, maximumScale).value, decimals) == Ntzs.Ok(n)
    ensures ParseDecimal(text, decimals) == Ok(n)
  {
    var a := Ntzs.Parsed(text, maximumScale).value;
    Ntzs.ParseIsExact(text, maximumScale, a);
    Ntzs.AtomicUnitsExact(a, decimals, n);
    Ntzs.CrossCancel(n, Numerator(text), a.coefficient, Pow10(a.scale), Pow10(decimals), Pow10(|Fraction(text)|));
    ParseDecimalIsExact(text, decimals, n);
  }

  /** And the other way: on a text the first connector can parse, it refuses only what does not fit. */
  lemma ConnectorsAgreeBack(text: Octets, maximumScale: nat, decimals: nat, n: nat)
    requires Ntzs.Parsable(text, maximumScale) && ParseDecimal(text, decimals) == Ok(n)
    ensures Ntzs.Parsed(text, maximumScale).Ok?
    ensures Ntzs.AtomicUnits(Ntzs.Parsed(text, maximumScale).value, decimals) == Ntzs.Ok(n)
  {
    var a := Ntzs.Normalized(Numerator(text), |Fraction(text)|);
    Ntzs.NormalizedExact(Numerator(text), |Fraction(text)|);
    Ntzs.ParseIsExact(text, maximumScale, a);
    ParseDecimalIsExact(text, decimals, n);
    Ntzs.CrossCancel(n, a.coefficient, Numerator(text), Pow10(|Fraction(text)|), Pow10(decimals), Pow10(a.scale));
    Ntzs.AtomicUnitsExact(a, decimals, n);
  }
}
