/** Exact provider amounts: a positive coefficient over a power of ten, parsed from text, printed, and
converted into atomic units, in 128-bit checked arithmetic throughout. */
module NtzsAmounts {
  import opened Arithmetic
  import opened Octets
  import opened Decimals
  import opened Widths

  const MAX_DECIMAL_DIGITS: nat := 38

  datatype AmountError = InvalidSyntax | Precision | Overflow | Zero

  datatype Result<+T> = Ok(value: T) | Err(error: AmountError)

  datatype ExactAmount = ExactAmount(coefficient: nat, scale: nat) {
    /** Positive, and no trailing zero after the point. */
    predicate Normal() {
      coefficient > 0 && (scale == 0 || coefficient % 10 != 0)
    }

    /** What a parse can give. */
    predicate Representable() {
      Normal() && coefficient < Pow10(MAX_DECIMAL_DIGITS) && scale < MAX_DECIMAL_DIGITS
    }
  }

  // ---------------------------------------------------------------------------------------------
  // Parsing
  // ---------------------------------------------------------------------------------------------

  /** No leading zero, and digits after a point. */
  predicate PlainForm(text: Octets)
    requires DecimalText(text)
  {
    && (|Whole(text)| > 1 ==> Whole(text)[0] != ZERO)
    && (Dot(text) < |text| ==> Fraction(text) != [])
  }

  function Normalized(coefficient: nat, scale: nat): ExactAmount
    decreases scale
  {
    if scale > 0 && coefficient % 10 == 0 then Normalized(coefficient / 10, scale - 1)
    else ExactAmount(coefficient, scale)
  }

  function Parsed(text: Octets, maximumScale: nat): Result<ExactAmount> {
    if text == [] || |text| > MAX_DECIMAL_DIGITS + 1 then Err(InvalidSyntax)
    else if !Digits(Whole(text)) || !Digits(Fraction(text)) then Err(InvalidSyntax)
    else if |Whole(text)| + |Fraction(text)| > MAX_DECIMAL_DIGITS then Err(Overflow)
    else if !DecimalText(text) || !PlainForm(text) then Err(InvalidSyntax)
    else if |Fraction(text)| > maximumScale then Err(Precision)
    else if Numerator(text) == 0 then Err(Zero)
    else Ok(Normalized(Numerator(text), |Fraction(text)|))
  }

  /** The digits seen in a prefix of the text: those before the dot, and those after it. */
  ghost predicate Scanned(text: Octets, i: nat, seen: bool, whole: nat, scale: nat, coefficient: nat)
    requires i <= |text|
  {
    && seen == (Dot(text) < i)
    && whole == (if seen then Dot(text) else i)
    && scale == (if seen then i - Dot(text) - 1 else 0)
    && Digits(text[..whole]) && Digits(text[i - scale..i])
    && coefficient == Number(text[..whole] + text[i - scale..i])
    && coefficient < Pow10(whole + scale)
  }

  lemma NumberSnoc(digits: Octets, b: Octet)
    requires Digits(digits) && IsDigit(b)
    ensures Digits(digits + [b]) && Number(digits + [b]) == Number(digits) * 10 + (b - 48)
  {
    assert (digits + [b])[..|digits|] == digits;
  }

  lemma ScanWholeDigit(text: Octets, i: nat, coefficient: nat)
    requires i < |text| && Scanned(text, i, false, i, 0, coefficient) && IsDigit(text[i])
    ensures Scanned(text, i + 1, false, i + 1, 0, coefficient * 10 + (text[i] - 48))
  {
    assert text[..i] + text[i..i] == text[..i] && text[..i + 1] + text[i + 1..i + 1] == text[..i + 1];
    assert text[..i + 1] == text[..i] + [text[i]];
    NumberSnoc(text[..i], text[i]);
  }

  lemma ScanFractionDigit(text: Octets, i: nat, whole: nat, scale: nat, coefficient: nat)
    requires i < |text| && Scanned(text, i, true, whole, scale, coefficient) && IsDigit(text[i])
    ensures Scanned(text, i + 1, true, whole, scale + 1, coefficient * 10 + (text[i] - 48))
  {
    var f := text[i - scale..i];
    assert text[i - scale..i + 1] == f + [text[i]];
    assert text[..whole] + (f + [text[i]]) == text[..whole] + f + [text[i]];
    NumberSnoc(text[..whole] + f, text[i]);
  }

  lemma ScanDigit(text: Octets, i: nat, seen: bool, whole: nat, scale: nat, coefficient: nat)
    requires i < |text| && Scanned(text, i, seen, whole, scale, coefficient) && IsDigit(text[i])
    ensures Scanned(text, i + 1, seen, if seen then whole else whole + 1, if seen then scale + 1 else scale,
                    coefficient * 10 + (text[i] - 48))
  {
    if seen {
      ScanFractionDigit(text, i, whole, scale, coefficient);
    } else {
      ScanWholeDigit(text, i, coefficient);
    }
  }

  lemma ScanDot(text: Octets, i: nat, whole: nat, scale: nat, coefficient: nat)
    requires i < |text| && Scanned(text, i, false, whole, scale, coefficient) && text[i] == DOT
    ensures Scanned(text, i + 1, true, whole, scale, coefficient)
  {
    assert text[i + 1 - scale..i + 1] == [] == text[i - scale..i];
  }

  /** A byte that is neither a digit nor the first dot spoils one of the parts. */
  lemma ScanOther(text: Octets, i: nat, seen: bool, whole: nat, scale: nat, coefficient: nat, maximumScale: nat)
    requires i < |text| && Scanned(text, i, seen, whole, scale, coefficient)
    requires !IsDigit(text[i]) && (text[i] == DOT ==> seen)
    ensures Parsed(text, maximumScale) == Err(InvalidSyntax)
  {
    var d := Dot(text);
    if i < d {
      assert Whole(text)[i] == text[i];
    } else {
      assert Fraction(text)[i - d - 1] == text[i];
    }
  }

  lemma ScannedAll(text: Octets, seen: bool, whole: nat, scale: nat, coefficient: nat)
    requires Scanned(text, |text|, seen, whole, scale, coefficient)
    ensures text[..whole] == Whole(text) && text[|text| - scale..] == Fraction(text)
    ensures seen == (Dot(text) < |text|)
    ensures Digits(Whole(text)) && Digits(Fraction(text)) && |Whole(text)| == whole && |Fraction(text)| == scale
    ensures whole > 0 ==> DecimalText(text) && coefficient == Numerator(text)
  {
    assert text[|text| - scale..|text|] == text[|text| - scale..];
    assert text[..whole] == Whole(text);
    assert text[|text| - scale..] == Fraction(text);
  }

  /** A text of at most 39 bytes has a 39th digit only when it is all digits. */
  lemma TooManyDigits(text: Octets, i: nat, seen: bool, whole: nat, scale: nat, coefficient: nat, maximumScale: nat)
    requires |text| <= MAX_DECIMAL_DIGITS + 1 && i < |text| && IsDigit(text[i])
    requires Scanned(text, i, seen, whole, scale, coefficient) && whole + scale + 1 > MAX_DECIMAL_DIGITS
    ensures Parsed(text, maximumScale) == Err(Overflow)
  {
    assert i + 1 == |text|;
    ScanDigit(text, i, seen, whole, scale, coefficient);
    ScannedAll(text, seen, if seen then whole else whole + 1, if seen then scale + 1 else scale,
               coefficient * 10 + (text[i] - 48));
  }

  datatype Scan = Scan(coefficient: nat, scale: nat, wholeDigits: nat, decimalSeen: bool)

  ghost predicate ScannedTo(text: Octets, i: nat, scan: Scan)
    requires i <= |text|
  {
    && Scanned(text, i, scan.decimalSeen, scan.wholeDigits, scan.scale, scan.coefficient)
    && scan.wholeDigits + scan.scale <= MAX_DECIMAL_DIGITS
  }

  /** The body of the first loop: one byte. */
  method ScanByte(text: Octets, i: nat, scan: Scan, maximumScale: nat) returns (r: Result<Scan>)
    requires i < |text| <= MAX_DECIMAL_DIGITS + 1 && ScannedTo(text, i, scan)
    ensures r.Err? ==> Parsed(text, maximumScale) == Err(r.error)
    ensures r.Ok? ==> ScannedTo(text, i + 1, r.value)
  {
    var Scan(coefficient, scale, wholeDigits, seen) := scan;
    var b := text[i];
    if IsDigit(b) {
      if wholeDigits + scale + 1 > MAX_DECIMAL_DIGITS {
        TooManyDigits(text, i, seen, wholeDigits, scale, coefficient, maximumScale);
        return Err(Overflow);
      }
      ScanDigit(text, i, seen, wholeDigits, scale, coefficient);
      CheckedStepFits(coefficient, b - 48, wholeDigits + scale);
      assert coefficient * 10 < U128_LIMIT && coefficient * 10 + (b - 48) < U128_LIMIT;
      coefficient := coefficient * 10 + (b - 48);
      if seen {
        r := Ok(Scan(coefficient, scale + 1, wholeDigits, seen));
      } else {
        r := Ok(Scan(coefficient, scale, wholeDigits + 1, seen));
      }
    } else if b == DOT && !seen {
      ScanDot(text, i, wholeDigits, scale, coefficient);
      r := Ok(Scan(coefficient, scale, wholeDigits, true));
    } else {
      ScanOther(text, i, seen, wholeDigits, scale, coefficient, maximumScale);
      r := Err(InvalidSyntax);
    }
  }

  lemma ScanStart(text: Octets)
    ensures ScannedTo(text, 0, Scan(0, 0, 0, false))
  {}

  method ScanBytes(text: Octets, maximumScale: nat) returns (r: Result<Scan>)
    requires 0 < |text| <= MAX_DECIMAL_DIGITS + 1
    ensures r.Err? ==> Parsed(text, maximumScale) == Err(r.error)
    ensures r.Ok? ==> ScannedTo(text, |text|, r.value)
  {
    var scan := Scan(0, 0, 0, false);
    ScanStart(text);
    for i := 0 to |text|
      invariant ScannedTo(text, i, scan)
    {
      r := ScanByte(text, i, scan, maximumScale);
      if r.Err? {
        return;
      }
      scan := r.value;
    }
    r := Ok(scan);
  }

  /** The second loop: trailing zeros after the point go. */
  method Normalize(coefficient: nat, scale: nat) returns (a: ExactAmount)
    ensures a == Normalized(coefficient, scale)
  {
    var c, s := coefficient, scale;
    while s > 0 && c % 10 == 0
      invariant Normalized(c, s) == Normalized(coefficient, scale)
    {
      c := c / 10;
      s := s - 1;
    }
    a := ExactAmount(c, s);
  }

  method Parse(text: Octets, maximumScale: nat) returns (r: Result<ExactAmount>)
    ensures r == Parsed(text, maximumScale)
  {
    if |text| == 0 || |text| > MAX_DECIMAL_DIGITS + 1 {
      return Err(InvalidSyntax);
    }
    var scanned := ScanBytes(text, maximumScale);
    if scanned.Err? {
      return Err(scanned.error);
    }
    var scan := scanned.value;
    ScannedAll(text, scan.decimalSeen, scan.wholeDigits, scan.scale, scan.coefficient);
    if scan.wholeDigits == 0 || (scan.wholeDigits > 1 && text[0] == ZERO) || (scan.decimalSeen && scan.scale == 0) {
      return Err(InvalidSyntax);
    }
    if scan.scale > maximumScale {
      return Err(Precision);
    }
    if scan.coefficient == 0 {
      return Err(Zero);
    }
    var a := Normalize(scan.coefficient, scan.scale);
    r := Ok(a);
  }

  /** Within 38 digits the checked multiply and add cannot overflow. */
  lemma CheckedStepFits(coefficient: nat, digit: nat, digits: nat)
    requires digits < MAX_DECIMAL_DIGITS && coefficient < Pow10(digits) && digit <= 9
    ensures coefficient * 10 + digit < U128_LIMIT
  {
    PowMonotone(digits + 1, MAX_DECIMAL_DIGITS);
    SmallPowers();
  }

  // ---------------------------------------------------------------------------------------------
  // The parsed amount is the text's exact value, in normal form
  // ---------------------------------------------------------------------------------------------

  lemma {:induction false} NormalizedExact(coefficient: nat, scale: nat)
    ensures var a := Normalized(coefficient, scale);
            && a.scale <= scale && a.coefficient * Pow10(scale) == coefficient * Pow10(a.scale)
            && a.coefficient <= coefficient
            && (coefficient > 0 ==> a.Normal())
    decreases scale
  {
    if scale > 0 && coefficient % 10 == 0 {
      NormalizedExact(coefficient / 10, scale - 1);
      var a := Normalized(coefficient / 10, scale - 1);
      ScaleBoth(a.coefficient, Pow10(scale - 1), coefficient / 10, Pow10(a.scale));
    }
  }

  lemma ScaleBoth(a: nat, p: nat, c: nat, q: nat)
    requires a * p == c * q
    ensures a * (10 * p) == (10 * c) * q
  {}

  lemma Swap(a: nat, b: nat, c: nat)
    ensures (a * b) * c == (a * c) * b == b * (a * c)
  {}

  /** Two fractions equal to n / p are equal. */
  lemma CrossCancel(a: nat, b: nat, n: nat, p: nat, pa: nat, pb: nat)
    requires p > 0 && a * p == n * pa && b * p == n * pb
    ensures a * pb == b * pa
  {
    Swap(a, p, pb);
    Swap(n, pa, pb);
    Swap(b, p, pa);
    CancelFactor(p, a * pb, b * pa);
  }

  /** Scaling by p and k against scaling by p alone. */
  lemma ScaleUp(c: nat, p: nat, k: nat, n: nat)
    requires p > 0
    ensures n * p == c * (p * k) <==> n == c * k
  {
    Rearranged(c, p, k);
    if n * p == c * (p * k) { CancelFactor(p, n, c * k); }
  }

  /** With fewer decimals than a normal amount has, no number of units is exactly that amount. */
  lemma TooFine(a: ExactAmount, decimals: nat, n: nat)
    requires a.Normal() && decimals < a.scale
    ensures n * Pow10(a.scale) != a.coefficient * Pow10(decimals)
  {
    if n * Pow10(a.scale) == a.coefficient * Pow10(decimals) {
      var k := a.scale - decimals;
      PowAdd(decimals, k);
      Rearranged(n, Pow10(decimals), Pow10(k));
      CancelFactor(Pow10(decimals), n * Pow10(k), a.coefficient);
      Rearranged(n, 10, Pow10(k - 1));
      MultipleOfTen(n * Pow10(k - 1));
      assert false;
    }
  }

  /** A smaller scale with the same value needs a trailing zero in the other coefficient. */
  lemma ScalesEqual(a: ExactAmount, b: ExactAmount)
    requires a.Normal() && b.Normal() && a.coefficient * Pow10(b.scale) == b.coefficient * Pow10(a.scale)
    ensures a.scale >= b.scale
  {
    if a.scale < b.scale { TooFine(b, a.scale, a.coefficient); }
  }

  lemma MultipleOfTen(n: nat)
    ensures (10 * n) % 10 == 0
  {}

  /** Normal forms are unique: equal values are equal amounts. */
  lemma NormalIsUnique(a: ExactAmount, b: ExactAmount)
    requires a.Normal() && b.Normal() && a.coefficient * Pow10(b.scale) == b.coefficient * Pow10(a.scale)
    ensures a == b
  {
    ScalesEqual(a, b);
    ScalesEqual(b, a);
    CancelFactor(Pow10(a.scale), a.coefficient, b.coefficient);
  }

  /** The texts the parser takes. */
  predicate Parsable(text: Octets, maximumScale: nat) {
    && DecimalText(text) && PlainForm(text)
    && |Whole(text)| + |Fraction(text)| <= MAX_DECIMAL_DIGITS && |Fraction(text)| <= maximumScale
    && Numerator(text) > 0
  }

  /** A text parses to an amount if and only if it is parsable and the amount is the normal form of its
      exact value. */
  lemma ParseIsExact(text: Octets, maximumScale: nat, a: ExactAmount)
    ensures Parsed(text, maximumScale) == Ok(a)
       <==> Parsable(text, maximumScale) && a.Normal() && ValueIs(text, a.coefficient, a.scale)
  {
    assert |text| <= |Whole(text)| + |Fraction(text)| + 1;
    if Parsable(text, maximumScale) {
      var s := |Fraction(text)|;
      NormalizedExact(Numerator(text), s);
      var b := Normalized(Numerator(text), s);
      assert Parsed(text, maximumScale) == Ok(b);
      if a.Normal() && ValueIs(text, a.coefficient, a.scale) {
        CrossCancel(a.coefficient, b.coefficient, Numerator(text), Pow10(s), Pow10(a.scale), Pow10(b.scale));
        NormalIsUnique(a, b);
      }
    }
  }

  /** Every parsed amount fits in 38 digits, with a whole digit to spare. */
  lemma ParsedIsRepresentable(text: Octets, maximumScale: nat)
    requires Parsed(text, maximumScale).Ok?
    ensures var a := Parsed(text, maximumScale).value; a.Representable() && a.scale <= maximumScale
  {
    NormalizedExact(Numerator(text), |Fraction(text)|);
    var digits := Whole(text) + Fraction(text);
    NumberConcat(Whole(text), Fraction(text));
    NumberBelow(digits);
    PowMonotone(|digits|, MAX_DECIMAL_DIGITS);
  }

  lemma PartsOfText(text: Octets)
    ensures |text| == |Whole(text)| + |Fraction(text)| + if Dot(text) < |text| then 1 else 0
    ensures Dot(text) == |text| ==> Whole(text) == text && Fraction(text) == []
    ensures Digits(text) ==> Dot(text) == |text|
  {}

  ghost predicate AllZeros(text: Octets) {
    forall i | 0 <= i < |text| && i != Dot(text) :: text[i] == ZERO
  }

  lemma ZeroMeansZeros(text: Octets)
    requires DecimalText(text)
    ensures Numerator(text) == 0 <==> AllZeros(text)
  {
    var d, digits := Dot(text), Whole(text) + Fraction(text);
    NumberConcat(Whole(text), Fraction(text));
    NumberZero(digits);
    if forall i | 0 <= i < |digits| :: digits[i] == ZERO {
      forall i | 0 <= i < |text| && i != d ensures text[i] == ZERO {
        assert text[i] == digits[if i < d then i else i - 1];
      }
    }
    if AllZeros(text) {
      forall i | 0 <= i < |digits| ensures digits[i] == ZERO {
        assert digits[i] == text[if i < d then i else i + 1];
      }
    }
  }

  /** The condition of each error: 39 digits and no point overflow, then the form, then the scale, then a
      text whose digits are all zero. */
  lemma ParseErrorsExact(text: Octets, maximumScale: nat)
    ensures var r, full := Parsed(text, maximumScale), |text| == 39 && Digits(text);
            var written := |text| <= 39 && DecimalText(text) && PlainForm(text);
            && (r == Err(Overflow) <==> full)
            && (r == Err(InvalidSyntax) <==> !full && !written)
            && (r == Err(Precision) <==> !full && written && |Fraction(text)| > maximumScale)
            && (r == Err(Zero) <==> !full && written && |Fraction(text)| <= maximumScale && AllZeros(text))
  {
    PartsOfText(text);
    if DecimalText(text) { ZeroMeansZeros(text); }
  }

  // ---------------------------------------------------------------------------------------------
  // Printing, then parsing
  // ---------------------------------------------------------------------------------------------

  function ToDecimalString(a: ExactAmount): Octets {
    var digits := Numeral(a.coefficient);
    if a.scale == 0 then digits
    else if |digits| > a.scale then
      var split := |digits| - a.scale;
      digits[..split] + [DOT] + digits[split..]
    else [ZERO] + [DOT] + seq(a.scale - |digits|, _ => ZERO) + digits
  }

  /** A text put together from two digit strings falls apart into them again. */
  lemma Joined(whole: Octets, fraction: Octets)
    requires Digits(whole) && Digits(fraction)
    ensures var text := whole + [DOT] + fraction;
            Dot(text) == |whole| && Whole(text) == whole && Fraction(text) == fraction
  {
    var text := whole + [DOT] + fraction;
    assert forall i | 0 <= i < |whole| :: text[i] == whole[i];
    assert text[|whole|] == DOT;
    DotIs(text, |whole|);
  }

  lemma Unjoined(whole: Octets)
    requires Digits(whole)
    ensures Dot(whole) == |whole| && Whole(whole) == whole && Fraction(whole) == []
  {
    DotIs(whole, |whole|);
  }

  /** The printed parts: no leading zero, the scale's digits after the point, the coefficient in all. */
  lemma Printed(a: ExactAmount)
    requires a.Normal()
    ensures var text := ToDecimalString(a);
            && DecimalText(text) && PlainForm(text)
            && |Fraction(text)| == a.scale && Numerator(text) == a.coefficient
            && |Whole(text)| + a.scale
               <= (if |Numeral(a.coefficient)| > a.scale then |Numeral(a.coefficient)| else a.scale + 1)
  {
    var digits := Numeral(a.coefficient);
    NumberOfNumeral(a.coefficient);
    if a.scale == 0 {
      Unjoined(digits);
      assert digits + [] == digits;
    } else if |digits| > a.scale {
      PrintedSplit(a);
    } else {
      PrintedSmall(a);
    }
  }

  lemma PrintedSplit(a: ExactAmount)
    requires a.Normal() && 0 < a.scale < |Numeral(a.coefficient)|
    ensures var text := ToDecimalString(a);
            && DecimalText(text) && PlainForm(text)
            && |Fraction(text)| == a.scale && Numerator(text) == a.coefficient
            && |Whole(text)| + a.scale == |Numeral(a.coefficient)|
  {
    var digits := Numeral(a.coefficient);
    NumberOfNumeral(a.coefficient);
    var split := |digits| - a.scale;
    Joined(digits[..split], digits[split..]);
    assert digits[..split] + digits[split..] == digits;
  }

  lemma LeadingZeros(k: nat, digits: Octets)
    requires Digits(digits)
    ensures var fraction := seq(k, _ => ZERO) + digits;
            Digits(fraction) && Digits([ZERO] + fraction) && Number([ZERO] + fraction) == Number(digits)
  {
    var zeros := seq(k, _ => ZERO);
    assert [ZERO] + (zeros + digits) == seq(k + 1, _ => ZERO) + digits;
    ZerosNumber(k);
    NumberConcat(zeros, digits);
    ZerosNumber(k + 1);
    NumberConcat(seq(k + 1, _ => ZERO), digits);
  }

  lemma PrintedSmall(a: ExactAmount)
    requires a.Normal() && 0 < a.scale && |Numeral(a.coefficient)| <= a.scale
    ensures var text := ToDecimalString(a);
            && DecimalText(text) && PlainForm(text)
            && |Fraction(text)| == a.scale && Numerator(text) == a.coefficient && |Whole(text)| == 1
  {
    var digits := Numeral(a.coefficient);
    NumberOfNumeral(a.coefficient);
    LeadingZeros(a.scale - |digits|, digits);
    var fraction := seq(a.scale - |digits|, _ => ZERO) + digits;
    Joined([ZERO], fraction);
    assert ToDecimalString(a) == [ZERO] + [DOT] + fraction;
  }

  /** Printing a representable amount and parsing the text gives the amount back; with
      ParsedIsRepresentable, so does printing anything that was parsed. */
  lemma PrintThenParse(a: ExactAmount, maximumScale: nat)
    requires a.Representable() && a.scale <= maximumScale
    ensures Parsed(ToDecimalString(a), maximumScale) == Ok(a)
  {
    Printed(a);
    NumeralLength(a.coefficient, MAX_DECIMAL_DIGITS);
    ParseIsExact(ToDecimalString(a), maximumScale, a);
  }

  // ---------------------------------------------------------------------------------------------
  // Atomic units
  // ---------------------------------------------------------------------------------------------

  method CheckedPow10(exponent: nat) returns (r: Result<nat>)
    ensures r == if Pow10(exponent) < U128_LIMIT then Ok(Pow10(exponent)) else Err(Overflow)
  {
    var value: nat := 1;
    for i := 0 to exponent
      invariant value == Pow10(i) < U128_LIMIT
    {
      if value * 10 >= U128_LIMIT {
        PowMonotone(i + 1, exponent);
        return Err(Overflow);
      }
      value := value * 10;
    }
    r := Ok(value);
  }

  method ToAtomicUnits(a: ExactAmount, assetDecimals: nat) returns (r: Result<nat>)
    ensures r == AtomicUnits(a, assetDecimals)
  {
    if assetDecimals < a.scale || assetDecimals > MAX_DECIMAL_DIGITS {
      return Err(Precision);
    }
    var power := CheckedPow10(assetDecimals - a.scale);
    SmallPowers();
    PowMonotone(assetDecimals - a.scale, MAX_DECIMAL_DIGITS);
    if a.coefficient * power.value >= U128_LIMIT {
      return Err(Overflow);
    }
    r := Ok(a.coefficient * power.value);
  }

  function AtomicUnits(a: ExactAmount, assetDecimals: nat): Result<nat> {
    if assetDecimals < a.scale || assetDecimals > MAX_DECIMAL_DIGITS then Err(Precision)
    else if a.coefficient * Pow10(assetDecimals - a.scale) >= U128_LIMIT then Err(Overflow)
    else Ok(a.coefficient * Pow10(assetDecimals - a.scale))
  }

  /** The conversion gives n if and only if n atomic units are exactly the amount, n fits in 128 bits
      and the asset has at most 38 decimals. */
  lemma AtomicUnitsExact(a: ExactAmount, assetDecimals: nat, n: nat)
    requires a.Normal()
    ensures AtomicUnits(a, assetDecimals) == Ok(n)
       <==> assetDecimals <= MAX_DECIMAL_DIGITS && n < U128_LIMIT
            && n * Pow10(a.scale) == a.coefficient * Pow10(assetDecimals)
  {
    if a.scale <= assetDecimals {
      ScaledExact(a, assetDecimals, n);
    } else {
      TooFine(a, assetDecimals, n);
    }
  }

  lemma ScaledExact(a: ExactAmount, decimals: nat, n: nat)
    requires a.scale <= decimals
    ensures n * Pow10(a.scale) == a.coefficient * Pow10(decimals) <==> n == a.coefficient * Pow10(decimals - a.scale)
  {
    PowAdd(a.scale, decimals - a.scale);
    ScaleUp(a.coefficient, Pow10(a.scale), Pow10(decimals - a.scale), n);
  }

  /** That many atomic units are exactly the amount. */
  ghost predicate IsUnits(a: ExactAmount, decimals: nat, n: nat) {
    n * Pow10(a.scale) == a.coefficient * Pow10(decimals)
  }

  /** The condition of each error: no whole number of units is the amount, or the number does not fit. */
  lemma AtomicErrorsExact(a: ExactAmount, assetDecimals: nat)
    requires a.Normal()
    ensures AtomicUnits(a, assetDecimals) == Err(Precision) <==>
            assetDecimals > 38 || forall n: nat :: !IsUnits(a, assetDecimals, n)
    ensures AtomicUnits(a, assetDecimals) == Err(Overflow) <==>
            assetDecimals <= 38 && exists n: nat :: IsUnits(a, assetDecimals, n) && n >= U128_LIMIT
  {
    forall n: nat
      ensures IsUnits(a, assetDecimals, n) <==>
              a.scale <= assetDecimals && n == a.coefficient * Pow10(assetDecimals - a.scale)
    {
      if a.scale <= assetDecimals {
        ScaledExact(a, assetDecimals, n);
      } else {
        TooFine(a, assetDecimals, n);
      }
    }
    if a.scale <= assetDecimals {
      assert IsUnits(a, assetDecimals, a.coefficient * Pow10(assetDecimals - a.scale));
    }
  }
}
