/**
 Text conversions of 16-bit signed integers, as Rust's `i16` implements
 `FromStr` and `Display`.
 */
module Int16Text {
  import opened Wrappers
  import opened Digits

  const MinInt16 := -0x8000
  const MaxInt16 := 0x7FFF

  predicate IsInt16(n: int) {
    MinInt16 <= n <= MaxInt16
  }

  type Int16 = n: int | MinInt16 <= n <= MaxInt16

  /**
   What integer `Display` writes: '-' for negatives, then the shortest numeral
   of the magnitude. The text parses back to `n` and is canonical.
   */
  function IntToText(n: int): (t: string)
    ensures ParseInteger(t) == Some(n)
    ensures IsCanonicalInteger(t)
  {
    if n < 0 then
      var digits := ToNumeral(-n);
      LemmaValueZero(digits);
      assert ("-" + digits)[1..] == digits;
      "-" + digits
    else
      ToNumeral(n)
  }

  /** The integer grammar of `FromStr`: an optional '+' or '-', then one or more digits (leading zeros allowed). */
  function ParseInteger(s: string): (r: Option<int>)
    ensures '.' in s ==> r.None?
    ensures r.Some? ==> |s| > 0
  {
    if |s| == 0 then
      None
    else
      var digits := if s[0] == '-' || s[0] == '+' then s[1..] else s;
      if IsNumeral(digits) then
        var magnitude: int := Value(digits);
        Some(if s[0] == '-' then -magnitude else magnitude)
      else
        assert '.' in s ==> '.' in digits || s[0] == '.';
        None
  }

  /** `str::parse::<i16>`: the integer grammar, then a range check; overflow is an error. */
  function ParseI16(s: string): (r: Option<Int16>)
    ensures '.' in s ==> r.None?
    ensures r.Some? <==> ParseInteger(s).Some? && IsInt16(ParseInteger(s).value)
    ensures r.Some? ==> ParseInteger(s) == Some(r.value as int)
  {
    match ParseInteger(s)
    case None => None
    case Some(n) => if IsInt16(n) then Some(n) else None
  }

  /** The texts integer `Display` writes: no '+', no superfluous leading zero, no "-0". */
  predicate IsCanonicalInteger(s: string) {
    if |s| > 0 && s[0] == '-' then
      IsCanonicalNumeral(s[1..]) && HasNonZeroDigit(s[1..])
    else
      IsCanonicalNumeral(s)
  }

  /** A printed integer is accepted as an `i16` exactly when it is in range. */
  lemma LemmaParseI16OfIntText(n: int)
    ensures ParseI16(IntToText(n)) == if IsInt16(n) then Some(n) else None
  {
  }

  /** A canonical integer literal is printed back as itself. */
  lemma LemmaCanonicalIsIntText(s: string)
    requires ParseInteger(s).Some? && IsCanonicalInteger(s)
    ensures IntToText(ParseInteger(s).value) == s
  {
    if s[0] == '-' {
      var digits := s[1..];
      LemmaValueZero(digits);
      LemmaNumeralOfValue(digits);
      assert s == "-" + digits;
    } else {
      LemmaNumeralOfValue(s);
    }
  }

  /** Printing a parsed integer reproduces the text exactly when, and only when, the text is canonical. */
  lemma LemmaIntTextOfParse(s: string)
    requires ParseInteger(s).Some?
    ensures IntToText(ParseInteger(s).value) == s <==> IsCanonicalInteger(s)
  {
    if IsCanonicalInteger(s) {
      LemmaCanonicalIsIntText(s);
    }
  }

  /** The text of an integer uses only digits and '-'. */
  lemma LemmaIntTextIsNumberText(n: int)
    ensures IsNumberText(IntToText(n))
  {
  }
}
