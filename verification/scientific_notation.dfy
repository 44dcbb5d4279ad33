/**
 The scientific-notation value type: a decimal coefficient, a 16-bit
 exponent and the number of coefficient decimals to display. Values are
 built from a default through field setters, parsed from text of the form
 `<coefficient>x10^<exponent>`, and written back in that form with the
 coefficient rounded to the display decimals.
 */
module SciNotation {
  import opened Wrappers
  import opened Digits
  import opened Decimals
  import opened Int16Text
  import TextSearch

  /** The text between coefficient and exponent. */
  const Separator := "x10^"

  /** `display_decimals` is cast `as u32` when formatting, which keeps it modulo 2^32. */
  const U32Modulus := 0x1_0000_0000

  /**
   Why parsing failed. `FormatErr` is raised by the two separator checks,
   without an error code; `ParseErr` carries the `ParseError` code and is
   raised when a segment does not convert.
   */
  datatype ErrorKind = FormatErr | ParseErr

  /** coefficient × 10^exponent, displayed with `displayDecimals` coefficient decimals. */
  datatype ScientificNotation = ScientificNotation(coefficient: Decimal, exponent: Int16, displayDecimals: nat)

  /** The default value: coefficient 1, exponent 0, two display decimals. */
  function Default(): (v: ScientificNotation)
    ensures v.coefficient == Decimal(1, 0) && v.exponent == 0 && v.displayDecimals == 2
  {
    ScientificNotation(Decimal(1, 0), 0, 2)
  }

  /** `build()`: the starting point of the builder is the default value. */
  function Build(): (v: ScientificNotation)
    ensures v.coefficient == Decimal(1, 0) && v.exponent == 0 && v.displayDecimals == 2
  {
    Default()
  }

  /** Builder step: replaces the coefficient and keeps the other two fields. */
  function WithCoefficient(v: ScientificNotation, coefficient: Decimal): (r: ScientificNotation)
    ensures r.coefficient == coefficient
    ensures r.exponent == v.exponent && r.displayDecimals == v.displayDecimals
  {
    v.(coefficient := coefficient)
  }

  /** Builder step: replaces the exponent and keeps the other two fields. */
  function WithExponent(v: ScientificNotation, exponent: Int16): (r: ScientificNotation)
    ensures r.exponent == exponent
    ensures r.coefficient == v.coefficient && r.displayDecimals == v.displayDecimals
  {
    v.(exponent := exponent)
  }

  /** Builder step: replaces the display decimals and keeps the other two fields. */
  function WithDisplayDecimals(v: ScientificNotation, decimals: nat): (r: ScientificNotation)
    ensures r.displayDecimals == decimals
    ensures r.coefficient == v.coefficient && r.exponent == v.exponent
  {
    v.(displayDecimals := decimals)
  }

  /**
   How parsing derives the display decimals: zero when the coefficient's
   fractional part is zero, otherwise the length of what follows the point
   in the text of that fractional part.
   */
  function DisplayDecimalsOf(c: Decimal): (n: nat)
    ensures n == if IsIntegral(c) then 0 else c.scale
  {
    var f := Fract(c);
    if f.mantissa == 0 then
      0
    else
      LemmaSplitAtPoint(f);
      |TextSearch.Split(ToText(f), ".")[1]|
  }

  /**
   `parse_from_str`: the separator must occur, and only once; the text
   before it must be a decimal within `range` and the text after it an
   `i16`. The checks run in that order and the first failure is returned.
   */
  function Parse(input: string, range: MantissaRange): (r: Result<ScientificNotation, ErrorKind>)
    ensures !TextSearch.Contains(input, Separator) ==> r == Failure(FormatErr)
    ensures r.Success? ==> DerivesDecimals(r.value)
  {
    if TextSearch.Find(input, Separator).None? then
      Failure(FormatErr)
    else
      var segments := TextSearch.Split(input, Separator);
      if |segments| > 2 then
        Failure(FormatErr)
      else
        match ParseDecimal(segments[0], range)
        case None => Failure(ParseErr)
        case Some(coefficient) =>
          match ParseI16(segments[1])
          case None => Failure(ParseErr)
          case Some(exponent) => Success(ScientificNotation(coefficient, exponent, DisplayDecimalsOf(coefficient)))
  }

  /**
   The coefficient `Display` writes: rounded to the display decimals (cast to
   32 bits) with ties toward zero, and never given more digits than it has.
   */
  function DisplayedCoefficient(v: ScientificNotation): (r: Decimal)
    ensures var dp := v.displayDecimals % U32Modulus;
            r.scale == if v.coefficient.scale <= dp then v.coefficient.scale else dp
    ensures r.scale <= v.coefficient.scale
    ensures IsNearestTiesTowardZero(v.coefficient.mantissa, Pow10(v.coefficient.scale - r.scale), r.mantissa)
  {
    var r := RoundDp(v.coefficient, v.displayDecimals % U32Modulus);
    assert Pow10(0) == 1;
    r
  }

  /**
   `Display`: the displayed coefficient, the separator, then the exponent.
   The separator occurs once; the text before it reads back as the displayed
   coefficient, in canonical form, and the text after it as the exponent.
   */
  function Format(v: ScientificNotation): (r: string)
    ensures TextSearch.Find(r, Separator).Some?
    ensures var i := TextSearch.Find(r, Separator).value;
            && (forall j :: TextSearch.OccursAt(r, Separator, j) ==> j == i)
            && ParseLiteral(r[..i]) == Some(DisplayedCoefficient(v))
            && IsCanonicalLiteral(r[..i])
            && ParseI16(r[i + 4..]) == Some(v.exponent)
            && IsCanonicalInteger(r[i + 4..])
  {
    var c := DisplayedCoefficient(v);
    var a, b := ToText(c), IntToText(v.exponent);
    var r := a + Separator + b;
    LemmaIntTextIsNumberText(v.exponent);
    LemmaJoinNumberTexts(a, b);
    LemmaParseOfText(c);
    LemmaTextIsCanonical(c);
    LemmaParseI16OfIntText(v.exponent);
    r
  }

  /**
   `Display` writes the coefficient unrounded: its scale fits the 32-bit cast,
   and a fractional part that is zero is not written with trailing zeros.
   */
  predicate KeepsDigits(c: Decimal) {
    c.scale < U32Modulus && (c.scale == 0 || !IsIntegral(c))
  }

  /** The separator occurs exactly once in `s`. */
  ghost predicate HasOneSeparator(s: string) {
    exists i :: TextSearch.OccursAt(s, Separator, i) && forall j :: TextSearch.OccursAt(s, Separator, j) ==> j == i
  }

  /** Setters on different fields commute, and a later write to a field overrides an earlier one. */
  lemma LemmaBuilderIndependence(v: ScientificNotation, c: Decimal, c': Decimal, e: Int16, n: nat)
    ensures WithExponent(WithCoefficient(v, c), e) == WithCoefficient(WithExponent(v, e), c)
    ensures WithDisplayDecimals(WithCoefficient(v, c), n) == WithCoefficient(WithDisplayDecimals(v, n), c)
    ensures WithDisplayDecimals(WithExponent(v, e), n) == WithExponent(WithDisplayDecimals(v, n), e)
    ensures WithCoefficient(WithCoefficient(v, c), c') == WithCoefficient(v, c')
    ensures WithCoefficient(v, v.coefficient) == v
  {
  }

  /** Any value is reached from `Build()` by setting its three fields. */
  lemma LemmaBuilderReachesAll(v: ScientificNotation)
    ensures WithDisplayDecimals(WithExponent(WithCoefficient(Build(), v.coefficient), v.exponent), v.displayDecimals) == v
  {
  }

  /** Two different occurrences of the separator are rejected with a format error, whatever the segments hold. */
  lemma LemmaRepeatedSeparatorRejected(input: string, range: MantissaRange, i: int, j: int)
    requires TextSearch.OccursAt(input, Separator, i) && TextSearch.OccursAt(input, Separator, j) && i != j
    ensures Parse(input, range) == Failure(FormatErr)
  {
    TextSearch.LemmaTwoMatchesSplitThree(input, Separator, i, j);
  }

  /**
   With exactly one separator, at `i`, the coefficient text is checked first
   and its failure wins; then the exponent text; success carries both values
   and the derived display decimals.
   */
  lemma LemmaParseAtSeparator(input: string, range: MantissaRange, i: int)
    requires TextSearch.OccursAt(input, Separator, i)
    requires forall j :: TextSearch.OccursAt(input, Separator, j) ==> j == i
    ensures ParseDecimal(input[..i], range).None? ==> Parse(input, range) == Failure(ParseErr)
    ensures ParseDecimal(input[..i], range).Some? && ParseI16(input[i + 4..]).None? ==>
              Parse(input, range) == Failure(ParseErr)
    ensures ParseDecimal(input[..i], range).Some? && ParseI16(input[i + 4..]).Some? ==>
              var c := ParseDecimal(input[..i], range).value;
              Parse(input, range) == Success(ScientificNotation(c, ParseI16(input[i + 4..]).value, if IsIntegral(c) then 0 else c.scale))
  {
    TextSearch.LemmaSplitAtOnlyMatch(input, Separator, i);
  }

  /** A format error is returned exactly when the separator does not occur exactly once. */
  lemma LemmaFormatErrorIff(input: string, range: MantissaRange)
    ensures Parse(input, range) == Failure(FormatErr) <==> !HasOneSeparator(input)
  {
    if HasOneSeparator(input) {
      var i :| TextSearch.OccursAt(input, Separator, i) && forall j :: TextSearch.OccursAt(input, Separator, j) ==> j == i;
      LemmaParseAtSeparator(input, range, i);
    } else if TextSearch.Contains(input, Separator) {
      var i :| TextSearch.OccursAt(input, Separator, i);
      var j :| TextSearch.OccursAt(input, Separator, j) && j != i;
      LemmaRepeatedSeparatorRejected(input, range, i, j);
    }
  }

  /**
   A successful parse saw a single separator, at the first match: the input
   is the coefficient text, the separator and the exponent text, and the
   value holds what those texts denote.
   */
  lemma LemmaParseSuccess(input: string, range: MantissaRange)
    requires Parse(input, range).Success?
    ensures TextSearch.Find(input, Separator).Some?
    ensures var i := TextSearch.Find(input, Separator).value;
            var v := Parse(input, range).value;
            && (forall j :: TextSearch.OccursAt(input, Separator, j) ==> j == i)
            && input == input[..i] + Separator + input[i + 4..]
            && ParseDecimal(input[..i], range) == Some(v.coefficient)
            && ParseI16(input[i + 4..]) == Some(v.exponent)
  {
    var i := TextSearch.Find(input, Separator).value;
    forall j | TextSearch.OccursAt(input, Separator, j)
      ensures j == i
    {
      if j != i {
        LemmaRepeatedSeparatorRejected(input, range, i, j);
      }
    }
    TextSearch.LemmaSplitAtOnlyMatch(input, Separator, i);
    TextSearch.LemmaAroundMatch(input, Separator, i);
  }

  /** Between two texts without an 'x', the separator occurs once, between them. */
  lemma LemmaOnlySeparator(a: string, b: string)
    requires 'x' !in a && 'x' !in b
    ensures TextSearch.OccursAt(a + Separator + b, Separator, |a|)
    ensures forall j :: TextSearch.OccursAt(a + Separator + b, Separator, j) ==> j == |a|
  {
    var s := a + Separator + b;
    assert s[|a|..|a| + 4] == Separator;
    forall j | 0 <= j < |s| && j != |a|
      ensures s[j] != 'x'
    {
      if j < |a| {
        assert s[j] == a[j];
      } else if j < |a| + 4 {
        assert s[j] == Separator[j - |a|];
      } else {
        assert s[j] == b[j - |a| - 4];
      }
    }
    forall j | TextSearch.OccursAt(s, Separator, j)
      ensures j == |a|
    {
      TextSearch.LemmaMatchChar(s, Separator, j, j);
    }
  }

  /** Two texts of numbers joined by the separator are found and split again at the join. */
  lemma LemmaJoinNumberTexts(a: string, b: string)
    requires IsNumberText(a) && IsNumberText(b)
    ensures var r := a + Separator + b;
            && TextSearch.Find(r, Separator) == Some(|a|)
            && (forall j :: TextSearch.OccursAt(r, Separator, j) ==> j == |a|)
            && r[..|a|] == a && r[|a| + 4..] == b
  {
    var r := a + Separator + b;
    LemmaNoXInNumberText(a);
    LemmaNoXInNumberText(b);
    LemmaOnlySeparator(a, b);
    assert r[..|a|] == a && r[|a| + 4..] == b;
  }

  /** Text of numbers has no 'x'. */
  lemma LemmaNoXInNumberText(s: string)
    requires IsNumberText(s)
    ensures 'x' !in s
  {
  }

  /**
   Parsing what `Display` writes gives the displayed coefficient (when its
   mantissa is within the bound) and the same exponent; the display
   decimals are derived afresh from the displayed coefficient.
   */
  lemma LemmaParseOfFormat(v: ScientificNotation, range: MantissaRange)
    ensures var c := DisplayedCoefficient(v);
            Parse(Format(v), range) ==
              if InRange(c, range) then Success(ScientificNotation(c, v.exponent, if IsIntegral(c) then 0 else c.scale))
              else Failure(ParseErr)
  {
    var r := Format(v);
    var i := TextSearch.Find(r, Separator).value;
    LemmaParseAtSeparator(r, range, i);
  }

  /**
   Round trip from the value side: a coefficient whose scale is zero or whose
   fractional part is non-zero, written with any exponent, parses to a value
   that formats back to the same text.
   */
  lemma LemmaRoundTrip(c: Decimal, e: Int16, range: MantissaRange)
    requires KeepsDigits(c) && InRange(c, range)
    ensures var text := ToText(c) + Separator + IntToText(e);
            && Parse(text, range) == Success(ScientificNotation(c, e, c.scale))
            && Format(Parse(text, range).value) == text
  {
    var v := ScientificNotation(c, e, c.scale);
    LemmaDisplayedIff(v);
    LemmaParseOfFormat(v, range);
  }

  /** Text without an 'x' cannot hold the separator and is rejected with a format error. */
  lemma LemmaNoSeparatorRejected(input: string, range: MantissaRange)
    requires 'x' !in input
    ensures Parse(input, range) == Failure(FormatErr)
  {
    forall j | TextSearch.OccursAt(input, Separator, j)
      ensures false
    {
      TextSearch.LemmaMatchChar(input, Separator, j, j);
    }
  }

  /** The display decimals are those parsing derives from the coefficient. */
  predicate DerivesDecimals(v: ScientificNotation) {
    v.displayDecimals == if IsIntegral(v.coefficient) then 0 else v.coefficient.scale
  }

  /** The 32-bit cast leaves a count unchanged exactly when the count is below 2^32. */
  lemma LemmaCastToU32(x: nat)
    ensures x < U32Modulus ==> x % U32Modulus == x
    ensures x % U32Modulus >= x ==> x < U32Modulus
  {
    LemmaDivModNat(x, U32Modulus);
    LemmaMultipleOutsideBand(x / U32Modulus, U32Modulus);
  }

  /**
   For a value with derived display decimals, `Display` writes the coefficient
   unrounded exactly when the coefficient keeps its digits.
   */
  lemma LemmaDisplayedIff(v: ScientificNotation)
    requires DerivesDecimals(v)
    ensures DisplayedCoefficient(v) == v.coefficient <==> KeepsDigits(v.coefficient)
  {
    var c := v.coefficient;
    LemmaCastToU32(v.displayDecimals);
    if DisplayedCoefficient(v) == c {
      assert c.scale <= v.displayDecimals % U32Modulus;
    }
  }

  /** Segments in the form `Display` writes, around the only separator, are written back unchanged. */
  lemma LemmaCanonicalFormatsBack(input: string, range: MantissaRange)
    requires Parse(input, range).Success?
    requires var i := TextSearch.Find(input, Separator).value;
             IsCanonicalLiteral(input[..i]) && IsCanonicalInteger(input[i + 4..]) && KeepsDigits(Parse(input, range).value.coefficient)
    ensures Format(Parse(input, range).value) == input
  {
    LemmaParseSuccess(input, range);
    var i := TextSearch.Find(input, Separator).value;
    var v := Parse(input, range).value;
    LemmaCanonicalIsText(input[..i]);
    LemmaCanonicalIsIntText(input[i + 4..]);
    LemmaDisplayedIff(v);
  }

  /** A parsed text that is written back unchanged had segments in the form `Display` writes. */
  lemma LemmaFormatsBackIsCanonical(input: string, range: MantissaRange)
    requires Parse(input, range).Success?
    requires Format(Parse(input, range).value) == input
    ensures var i := TextSearch.Find(input, Separator).value;
            IsCanonicalLiteral(input[..i]) && IsCanonicalInteger(input[i + 4..]) && KeepsDigits(Parse(input, range).value.coefficient)
  {
    LemmaParseSuccess(input, range);
    LemmaDisplayedIff(Parse(input, range).value);
  }

  /**
   Round trip from the text side: a parsed text is written back unchanged
   exactly when both segments are in the form `Display` writes and the
   coefficient keeps its digits when displayed.
   */
  lemma LemmaFormatOfParse(input: string, range: MantissaRange)
    requires Parse(input, range).Success?
    ensures TextSearch.Find(input, Separator).Some?
    ensures var i := TextSearch.Find(input, Separator).value;
            Format(Parse(input, range).value) == input <==>
              IsCanonicalLiteral(input[..i]) && IsCanonicalInteger(input[i + 4..]) && KeepsDigits(Parse(input, range).value.coefficient)
  {
    LemmaParseSuccess(input, range);
    var i := TextSearch.Find(input, Separator).value;
    if IsCanonicalLiteral(input[..i]) && IsCanonicalInteger(input[i + 4..]) && KeepsDigits(Parse(input, range).value.coefficient) {
      LemmaCanonicalFormatsBack(input, range);
    }
    if Format(Parse(input, range).value) == input {
      LemmaFormatsBackIsCanonical(input, range);
    }
  }

  /** `parse_scientific_notation_from_string`: an integral coefficient gets no display decimals. */
  lemma ExampleParseWholeCoefficient()
    ensures Parse("5x10^15", I64Mantissa) == Success(ScientificNotation(Decimal(5, 0), 15, 0))
  {
    WholeCoefficientText();
    LemmaTwoDigitIntText(15, "15");
    WholeCoefficientJoined();
    LemmaParseFromParts(Decimal(5, 0), 15, I64Mantissa, "5", "15", "5x10^15");
  }

  /** The text of the whole coefficient 5. */
  lemma WholeCoefficientText()
    ensures ToText(Decimal(5, 0)) == "5"
  {
  }

  /** 5 and the exponent 15 joined by the separator. */
  lemma WholeCoefficientJoined()
    ensures "5" + Separator + "15" == "5x10^15"
  {
  }

  /** `parse_scientific_notation_from_string_2`: ten written decimals give ten display decimals. */
  lemma ExampleParseFractionalCoefficient()
    ensures Parse("5.1237514651x10^38", I64Mantissa) == Success(ScientificNotation(Decimal(51237514651, 10), 38, 10))
  {
    TenDecimalsKept();
    TenDecimalsText();
    LemmaTwoDigitIntText(38, "38");
    TenDecimalsJoined();
    LemmaParseFromParts(Decimal(51237514651, 10), 38, I64Mantissa, "5.1237514651", "38", "5.1237514651x10^38");
  }

  /** Text assembled from a coefficient's text, the separator and an exponent's text parses back to them. */
  lemma LemmaParseFromParts(c: Decimal, e: Int16, range: MantissaRange, coefficientText: string, exponentText: string, text: string)
    requires KeepsDigits(c) && InRange(c, range)
    requires ToText(c) == coefficientText && IntToText(e) == exponentText
    requires text == coefficientText + Separator + exponentText
    ensures Parse(text, range) == Success(ScientificNotation(c, e, c.scale))
  {
    LemmaRoundTrip(c, e, range);
  }

  /** 5.1237514651 and the exponent 38 joined by the separator. */
  lemma TenDecimalsJoined()
    ensures "5.1237514651" + Separator + "38" == "5.1237514651x10^38"
  {
  }

  /** The text of 5.1237514651. */
  lemma TenDecimalsText()
    ensures ToText(Decimal(51237514651, 10)) == "5.1237514651"
  {
    TenDecimalsSplit();
    TenDecimalsDigits();
    TenDecimalsPoint();
    LemmaTextOfNonNegative(Decimal(51237514651, 10), "5.1237514651");
  }

  /** The quotient 5, the point and the ten digits of the remainder. */
  lemma TenDecimalsPoint()
    ensures "5" + "." + "1237514651" == "5.1237514651"
  {
  }

  /** 5.1237514651 keeps its ten digits when displayed, and its mantissa fits 64 bits. */
  lemma TenDecimalsKept()
    ensures KeepsDigits(Decimal(51237514651, 10)) && InRange(Decimal(51237514651, 10), I64Mantissa)
  {
    assert Pow10(10) == 10_000_000_000;
  }

  /** The text of 51237514651 at scale 10 is the quotient and the padded remainder by 10^10. */
  lemma TenDecimalsSplit()
    ensures UnsignedText(51237514651, 10) == ToNumeral(5) + "." + Padded(1237514651, 10)
  {
    assert Pow10(10) == 10_000_000_000;
    LemmaUnsignedTextOfQuotient(51237514651, 5, 1237514651, 10);
  }

  /** The numerals of the quotient 5 and of the ten-digit remainder. */
  lemma TenDecimalsDigits()
    ensures ToNumeral(5) == "5" && Padded(1237514651, 10) == "1237514651"
  {
  }

  /** `parse_with_error_invalid_exponent`: a fractional exponent is not an `i16`. */
  lemma ExampleFractionalExponentRejected()
    ensures Parse("2x10^23.4", I64Mantissa) == Failure(ParseErr)
  {
    LemmaOnlySeparator("2", "23.4");
    assert "2" + Separator + "23.4" == "2x10^23.4";
    LemmaParseAtSeparator("2x10^23.4", I64Mantissa, 1);
    assert "2x10^23.4"[5..] == "23.4";
  }

  /** `parse_with_error_invalid_coefficient`: a letter in the coefficient is not a decimal. */
  lemma ExampleLetterInCoefficientRejected()
    ensures Parse("2ax10^20", I64Mantissa) == Failure(ParseErr)
  {
    LemmaOnlySeparator("2a", "20");
    assert "2a" + Separator + "20" == "2ax10^20";
    LemmaParseAtSeparator("2ax10^20", I64Mantissa, 2);
    assert "2ax10^20"[..2] == "2a";
    assert !IsNumberText("2a") by {
      assert "2a"[1] == 'a';
    }
  }

  /** `parse_with_error_x10_repeated`: a second separator is a format error. */
  lemma ExampleRepeatedSeparatorRejected()
    ensures Parse("2x10^x10^23", I64Mantissa) == Failure(FormatErr)
  {
    var s := "2x10^x10^23";
    assert s[1..5] == Separator && s[5..9] == Separator;
    LemmaRepeatedSeparatorRejected(s, I64Mantissa, 1, 5);
  }

  /** `parse_with_error_invalid_input`: text without the separator is a format error. */
  lemma ExampleNoSeparatorRejected()
    ensures Parse("asd1234", I64Mantissa) == Failure(FormatErr)
  {
    LemmaNoSeparatorRejected("asd1234", I64Mantissa);
  }

  /** `parse_and_display_back`: a coefficient with a non-zero fraction is written back as it was read. */
  lemma ExampleParseAndDisplayBack()
    ensures Parse("315.2x10^14", I64Mantissa).Success?
    ensures Format(Parse("315.2x10^14", I64Mantissa).value) == "315.2x10^14"
  {
    var c := Decimal(3152, 1);
    LemmaUnsignedTextOfQuotient(3152, 315, 2, 1);
    assert ToText(c) == "315.2";
    LemmaTwoDigitIntText(14, "14");
    assert "315.2" + Separator + "14" == "315.2x10^14";
    LemmaRoundTrip(c, 14, I64Mantissa);
  }

  /** `from_builder_into_string`: 62.78964 shown with three decimals is 62.790. */
  lemma ExampleBuilderDisplay()
    ensures Format(WithDisplayDecimals(WithExponent(WithCoefficient(Build(), Decimal(6278964, 5)), 20), 3)) == "62.790x10^20"
  {
    var v := WithDisplayDecimals(WithExponent(WithCoefficient(Build(), Decimal(6278964, 5)), 20), 3);
    assert v == ScientificNotation(Decimal(6278964, 5), 20, 3);
    BuilderRounding();
    BuilderText();
    LemmaFormatFromParts(v, Decimal(62790, 3), "62.790", "20");
  }

  /** `Display` assembled from the texts of its two parts. */
  lemma LemmaFormatFromParts(v: ScientificNotation, shown: Decimal, coefficientText: string, exponentText: string)
    requires DisplayedCoefficient(v) == shown && ToText(shown) == coefficientText && IntToText(v.exponent) == exponentText
    ensures Format(v) == coefficientText + Separator + exponentText
  {
  }

  /** 62.78964 to three decimals, ties toward zero, is 62.790. */
  lemma BuilderRounding()
    ensures DisplayedCoefficient(ScientificNotation(Decimal(6278964, 5), 20, 3)) == Decimal(62790, 3)
  {
    assert Pow10(2) == 100;
    assert IsNearestTiesTowardZero(6278964, 100, 62790);
    LemmaRoundDpUnique(Decimal(6278964, 5), 3, 62790);
  }

  /** The text of 62.790 keeps its trailing zero; the exponent is written as 20. */
  lemma BuilderText()
    ensures ToText(Decimal(62790, 3)) == "62.790" && IntToText(20) == "20"
    ensures "62.790" + Separator + "20" == "62.790x10^20"
  {
    BuilderCoefficientText();
    BuilderExponentText();
    BuilderJoined();
  }

  /** 62.790 and the exponent 20 joined by the separator. */
  lemma BuilderJoined()
    ensures "62.790" + Separator + "20" == "62.790x10^20"
  {
  }

  /** The text of 62790 at scale 3 is 62, the point, then 790. */
  lemma BuilderCoefficientText()
    ensures ToText(Decimal(62790, 3)) == "62.790"
  {
    BuilderCoefficientDigits();
    LemmaTextOfNonNegative(Decimal(62790, 3), "62.790");
  }

  /** 62790 at scale 3 is the quotient 62, the point and the remainder 790 padded to three digits. */
  lemma BuilderCoefficientDigits()
    ensures UnsignedText(62790, 3) == "62.790"
  {
    assert Pow10(3) == 1000;
    LemmaUnsignedTextOfQuotient(62790, 62, 790, 3);
    assert ToNumeral(62) == "62" && Padded(790, 3) == "790";
  }

  /** The exponent 20 is written as its numeral. */
  lemma BuilderExponentText()
    ensures IntToText(20) == "20"
  {
    LemmaTwoDigitIntText(20, "20");
  }

  /** A two-digit exponent is written as its two digits. */
  lemma LemmaTwoDigitIntText(n: nat, text: string)
    requires 10 <= n < 100 && text == [DigitChar(n / 10), DigitChar(n % 10)]
    ensures IntToText(n) == text
  {
    assert ToNumeral(n / 10) == [DigitChar(n / 10)];
  }

  /** The default value is written as "1x10^0": an integral coefficient gets no decimal point. */
  lemma ExampleDefaultDisplay()
    ensures Format(Default()) == "1x10^0"
  {
    assert DisplayedCoefficient(Default()) == Decimal(1, 0);
    assert ToText(Decimal(1, 0)) == "1";
    assert IntToText(0) == "0";
  }
}
