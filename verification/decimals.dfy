/**
 Fixed-point decimal numbers in the shape of rust_decimal's `Decimal`: an
 integer mantissa and a scale, denoting mantissa × 10^-scale. The module
 gives the literal grammar the parser accepts, the text `Display` writes,
 the fractional part (`fract`) and rounding to a number of decimal places
 with ties going toward zero (`round_dp_with_strategy` with
 `MidpointTowardZero`).
 */
module Decimals {
  import opened Wrappers
  import opened Digits
  import TextSearch

  /** mantissa × 10^-scale; the scale is the number of fractional digits carried. */
  datatype Decimal = Decimal(mantissa: int, scale: nat)

  /**
   Bounds on the mantissa that a literal may denote. The real decimal type
   stores a 96-bit magnitude; the bound is a parameter of the model.
   */
  datatype MantissaRange = MantissaRange(min: int, max: int)

  /** The signed 64-bit range the value type's documentation promises for parsed mantissas. */
  const I64Mantissa := MantissaRange(-0x8000_0000_0000_0000, 0x7FFF_FFFF_FFFF_FFFF)

  predicate InRange(d: Decimal, range: MantissaRange) {
    range.min <= d.mantissa <= range.max
  }

  function Abs(x: int): nat {
    if x < 0 then -x else x
  }

  /** The value has no fractional part (what comparing `fract()` with zero decides). */
  predicate IsIntegral(d: Decimal) {
    Abs(d.mantissa) % Pow10(d.scale) == 0
  }

  /** `fract()`: the value minus its truncation toward zero, kept at the same scale. */
  function Fract(d: Decimal): (f: Decimal)
    ensures f.scale == d.scale
    ensures Abs(f.mantissa) < Pow10(d.scale)
    ensures f.mantissa == 0 <==> IsIntegral(d)
    ensures f.mantissa * d.mantissa >= 0
    ensures (d.mantissa - f.mantissa) % Pow10(d.scale) == 0
  {
    var p := Pow10(d.scale);
    var a := Abs(d.mantissa);
    var r := a % p;
    LemmaDivModNat(a, p);
    var f := Decimal(if d.mantissa < 0 then -r else r, d.scale);
    var whole := if d.mantissa < 0 then -(a / p) else a / p;
    assert d.mantissa - f.mantissa == whole * p;
    LemmaDivModUnique(d.mantissa - f.mantissa, p, whole, 0);
    f
  }

  /** The unsigned digits of `a × 10^-scale`: integer digits, then a point and exactly `scale` fractional digits. */
  function UnsignedText(a: nat, scale: nat): (t: string)
    ensures |t| > 0 && IsDigit(t[0])
  {
    var p := Pow10(scale);
    LemmaDivModNat(a, p);
    ToNumeral(a / p) + (if scale == 0 then "" else "." + Padded(a % p, scale))
  }

  /** The text `Display` writes: a '-' for negative values, then the unsigned digits. */
  function ToText(d: Decimal): (t: string)
    ensures |t| > 0 && (t[0] == '-' <==> d.mantissa < 0)
    ensures IsNumberText(t)
    ensures '.' in t <==> d.scale > 0
  {
    var a := Abs(d.mantissa);
    var p := Pow10(d.scale);
    LemmaDivModNat(a, p);
    var t := (if d.mantissa < 0 then "-" else "") + UnsignedText(a, d.scale);
    assert d.scale > 0 ==> t[|t| - d.scale - 1] == '.';
    t
  }

  /** Unsigned part of the literal grammar: digits, optionally followed by '.' and more digits. */
  function ParseMagnitude(body: string): (r: Option<Decimal>)
    ensures r.Some? ==> r.value.mantissa >= 0
  {
    match TextSearch.Find(body, ".")
    case None =>
      if IsNumeral(body) then Some(Decimal(Value(body), 0)) else None
    case Some(i) =>
      var whole, fraction := body[..i], body[i + 1..];
      if IsNumeral(whole) && IsNumeral(fraction) then
        Some(Decimal(Value(whole) * Pow10(|fraction|) + Value(fraction), |fraction|))
      else
        None
  }

  /** Whether a literal starts with '-', and the text after that sign. */
  function SignAndBody(s: string): (bool, string) {
    if |s| > 0 && s[0] == '-' then (true, s[1..]) else (false, s)
  }

  /**
   The literal grammar: an optional '-', digits, and optionally '.' followed by
   digits. The scale is the number of digits written after the point,
   trailing zeros included.
   */
  function ParseLiteral(s: string): (r: Option<Decimal>)
    ensures r.Some? ==> IsNumberText(s)
  {
    var (negative, body) := SignAndBody(s);
    match ParseMagnitude(body)
    case None => None
    case Some(u) =>
      LemmaMagnitudeIsNumberText(body);
      LemmaSignedNumberText(s);
      Some(Decimal(if negative then -u.mantissa else u.mantissa, u.scale))
  }

  /** `str::parse::<Decimal>` with the mantissa bound of `range`. */
  function ParseDecimal(s: string, range: MantissaRange): (r: Option<Decimal>)
    ensures r.Some? <==> ParseLiteral(s).Some? && InRange(ParseLiteral(s).value, range)
    ensures r.Some? ==> r == ParseLiteral(s)
  {
    match ParseLiteral(s)
    case None => None
    case Some(d) => if InRange(d, range) then Some(d) else None
  }

  /** Unsigned literals without a superfluous leading zero and with at least one digit after a point. */
  predicate IsCanonicalMagnitude(body: string) {
    match TextSearch.Find(body, ".")
    case None => IsCanonicalNumeral(body)
    case Some(i) => IsCanonicalNumeral(body[..i]) && IsNumeral(body[i + 1..])
  }

  /** The literals `ToText` writes: a canonical magnitude, signed only when it is not zero. */
  predicate IsCanonicalLiteral(s: string) {
    var (negative, body) := SignAndBody(s);
    IsCanonicalMagnitude(body) && (negative ==> HasNonZeroDigit(body))
  }

  /** `c × p` is a multiple of `p` nearest to `m`; of two equally near multiples, it is the one nearer zero. */
  ghost predicate IsNearestTiesTowardZero(m: int, p: nat, c: int) {
    var err := Abs(m - c * p);
    2 * err <= p && (2 * err == p ==> Abs(c * p) < Abs(m))
  }

  /**
   `round_dp_with_strategy(dp, MidpointTowardZero)`: a decimal with at most
   `dp` fractional digits is returned unchanged; otherwise the mantissa is
   rounded to the nearest multiple of the dropped power of ten, ties toward
   zero, and the scale becomes `dp`.
   */
  function RoundDp(d: Decimal, dp: nat): (r: Decimal)
    ensures d.scale <= dp ==> r == d
    ensures d.scale > dp ==> r.scale == dp && IsNearestTiesTowardZero(d.mantissa, Pow10(d.scale - dp), r.mantissa)
  {
    if d.scale <= dp then
      d
    else
      var p := Pow10(d.scale - dp);
      var a := Abs(d.mantissa);
      var magnitude: int := RoundedMagnitude(a, p);
      LemmaRoundMagnitude(a, p);
      if d.mantissa < 0 then
        LemmaNearestNegate(a, p, magnitude);
        Decimal(-magnitude, dp)
      else
        Decimal(magnitude, dp)
  }

  /** The magnitude `RoundDp` keeps for `a` when dropping a factor `p`: the quotient, plus one above the midpoint. */
  function RoundedMagnitude(a: nat, p: nat): nat
    requires p >= 1
  {
    LemmaDivModNat(a, p);
    if 2 * (a % p) > p then a / p + 1 else a / p
  }

  /** The magnitude `RoundDp` picks is a nearest multiple, ties toward zero. */
  lemma LemmaRoundMagnitude(a: nat, p: nat)
    requires p >= 1
    ensures IsNearestTiesTowardZero(a, p, RoundedMagnitude(a, p))
  {
    LemmaDivModNat(a, p);
    var q, rem := a / p, a % p;
    var qp := q * p;
    assert a == qp + rem;
    if 2 * rem > p {
      assert (q + 1) * p == qp + p;
      assert Abs(a - (q + 1) * p) == p - rem;
    } else {
      assert Abs(a - q * p) == rem;
    }
  }

  /** Rounding commutes with negation. */
  lemma LemmaNearestNegate(m: int, p: nat, c: int)
    requires IsNearestTiesTowardZero(m, p, c)
    ensures IsNearestTiesTowardZero(-m, p, -c)
  {
    assert (-c) * p == -(c * p);
    assert -m - (-c) * p == -(m - c * p);
  }

  /** The nearest multiple with ties toward zero is unique, so `RoundDp` is fully determined by it. */
  lemma LemmaNearestUnique(m: int, p: nat, c1: int, c2: int)
    requires p >= 1
    requires IsNearestTiesTowardZero(m, p, c1) && IsNearestTiesTowardZero(m, p, c2)
    ensures c1 == c2
  {
    assert (c2 - c1) * p == c2 * p - c1 * p;
    LemmaMultipleOutsideBand(c2 - c1, p);
  }

  /** Any rounding of `d` to `dp` places that is nearest with ties toward zero is `RoundDp(d, dp)`. */
  lemma LemmaRoundDpUnique(d: Decimal, dp: nat, c: int)
    requires d.scale > dp && IsNearestTiesTowardZero(d.mantissa, Pow10(d.scale - dp), c)
    ensures RoundDp(d, dp) == Decimal(c, dp)
  {
    LemmaNearestUnique(d.mantissa, Pow10(d.scale - dp), RoundDp(d, dp).mantissa, c);
  }

  /** Text without a point has no match for "." . */
  lemma LemmaNoPointInDigits(a: string)
    requires '.' !in a
    ensures TextSearch.Find(a, ".").None?
  {
    forall j | 0 <= j < |a|
      ensures !TextSearch.OccursAt(a, ".", j)
    {
      assert a[j..j + 1][0] == a[j] != '.';
    }
  }

  /** When `a` has no point, the first point of `a + "." + b` is the one after `a`. */
  lemma LemmaPointAfterDigits(a: string, b: string)
    requires '.' !in a
    ensures TextSearch.Find(a + "." + b, ".") == Some(|a|)
  {
    var s := a + "." + b;
    assert s[|a|..|a| + 1] == ".";
    assert TextSearch.OccursAt(s, ".", |a|);
    forall j | 0 <= j < |a|
      ensures !TextSearch.OccursAt(s, ".", j)
    {
      assert s[j..j + 1][0] == a[j] != '.';
    }
  }

  /** How the unsigned text of `a` at `scale` splits at its point, if it has one. */
  lemma LemmaUnsignedTextParts(a: nat, scale: nat)
    ensures var t := UnsignedText(a, scale);
            var p := Pow10(scale);
            && (scale == 0 ==> TextSearch.Find(t, ".").None? && t == ToNumeral(a / p))
            && (scale > 0 ==>
                  var i := |ToNumeral(a / p)|;
                  && TextSearch.Find(t, ".") == Some(i)
                  && t[..i] == ToNumeral(a / p)
                  && t[i + 1..] == Padded(a % p, scale))
  {
    var p := Pow10(scale);
    LemmaDivModNat(a, p);
    var whole := ToNumeral(a / p);
    if scale == 0 {
      assert UnsignedText(a, scale) == whole;
      LemmaNoPointInDigits(whole);
    } else {
      var fraction := Padded(a % p, scale);
      var t := whole + "." + fraction;
      assert UnsignedText(a, scale) == t;
      LemmaPointAfterDigits(whole, fraction);
      assert t[..|whole|] == whole;
      assert t[|whole| + 1..] == fraction;
    }
  }

  /** Reading the unsigned text back gives the same magnitude and scale. */
  lemma LemmaMagnitudeOfText(a: nat, scale: nat)
    ensures ParseMagnitude(UnsignedText(a, scale)) == Some(Decimal(a, scale))
  {
    if scale == 0 {
      LemmaUnsignedTextWhole(a);
      LemmaNoPointInDigits(ToNumeral(a));
    } else {
      var p := Pow10(scale);
      LemmaDivModNat(a, p);
      LemmaMagnitudeOfFractionText(a, a / p, a % p, scale);
    }
  }

  /** With fractional digits, the text reads back as quotient and remainder by 10^scale. */
  lemma LemmaMagnitudeOfFractionText(a: nat, q: nat, r: nat, scale: nat)
    requires scale > 0 && a / Pow10(scale) == q && a % Pow10(scale) == r
    requires a == q * Pow10(scale) + r
    ensures ParseMagnitude(UnsignedText(a, scale)) == Some(Decimal(a, scale))
  {
    var whole, fraction := ToNumeral(q), Padded(r, scale);
    var t := whole + "." + fraction;
    LemmaUnsignedTextOfQuotient(a, q, r, scale);
    LemmaPointAfterDigits(whole, fraction);
    assert t[..|whole|] == whole && t[|whole| + 1..] == fraction;
    LemmaValueOfPadded(r, scale);
    LemmaDivModUnique(r, Pow10(scale), 0, r);
  }

  /** The unsigned text is canonical. */
  lemma LemmaUnsignedTextCanonical(a: nat, scale: nat)
    ensures IsCanonicalMagnitude(UnsignedText(a, scale))
  {
    LemmaUnsignedTextParts(a, scale);
  }

  /** The unsigned text shows a non-zero digit exactly when the magnitude is not zero. */
  lemma LemmaUnsignedTextNonZero(a: nat, scale: nat)
    ensures HasNonZeroDigit(UnsignedText(a, scale)) <==> a != 0
  {
    if scale > 0 {
      var p := Pow10(scale);
      LemmaDivModNat(a, p);
      LemmaFractionalTextNonZero(a, a / p, a % p, scale);
    } else {
      LemmaUnsignedTextWhole(a);
      LemmaValueZero(ToNumeral(a));
    }
  }

  /** Without fractional digits, the unsigned text is the numeral of the magnitude. */
  lemma LemmaUnsignedTextWhole(a: nat)
    ensures UnsignedText(a, 0) == ToNumeral(a)
  {
    assert Pow10(0) == 1;
  }

  /** With fractional digits, the text shows a non-zero digit exactly when the quotient or the remainder is non-zero. */
  lemma LemmaFractionalTextNonZero(a: nat, q: nat, r: nat, scale: nat)
    requires scale > 0 && a / Pow10(scale) == q && a % Pow10(scale) == r
    ensures HasNonZeroDigit(UnsignedText(a, scale)) <==> q != 0 || r != 0
  {
    var p := Pow10(scale);
    var whole, fraction := ToNumeral(q), Padded(r, scale);
    LemmaUnsignedTextOfQuotient(a, q, r, scale);
    LemmaValueOfPadded(r, scale);
    LemmaDivModUnique(r, p, 0, r);
    LemmaValueZero(whole);
    LemmaValueZero(fraction);
    LemmaNonZeroAroundPoint(whole, fraction);
  }

  /** A digit '1'..'9' in `a + "." + b` is one in `a` or one in `b`. */
  lemma LemmaNonZeroAroundPoint(a: string, b: string)
    ensures HasNonZeroDigit(a + "." + b) <==> HasNonZeroDigit(a) || HasNonZeroDigit(b)
  {
    var t := a + "." + b;
    if HasNonZeroDigit(t) {
      var k :| 0 <= k < |t| && '1' <= t[k] <= '9';
      if k < |a| {
        assert a[k] == t[k];
      } else {
        assert b[k - |a| - 1] == t[k];
      }
    }
    if HasNonZeroDigit(a) {
      var k :| 0 <= k < |a| && '1' <= a[k] <= '9';
      assert t[k] == a[k];
    }
    if HasNonZeroDigit(b) {
      var k :| 0 <= k < |b| && '1' <= b[k] <= '9';
      assert t[|a| + 1 + k] == b[k];
    }
  }

  /** A canonical unsigned literal is the unsigned text of the magnitude it denotes. */
  lemma LemmaCanonicalMagnitudeIsText(body: string)
    requires ParseMagnitude(body).Some? && IsCanonicalMagnitude(body)
    ensures var u := ParseMagnitude(body).value; UnsignedText(u.mantissa, u.scale) == body
  {
    match TextSearch.Find(body, ".")
    case None =>
      LemmaUnsignedTextOfNumeral(body);
    case Some(i) =>
      LemmaUnsignedTextOfParts(body[..i], body[i + 1..], ParseMagnitude(body).value.mantissa);
      TextSearch.LemmaAroundMatch(body, ".", i);
  }

  /** A canonical numeral is the unsigned text of its value at scale zero. */
  lemma LemmaUnsignedTextOfNumeral(whole: string)
    requires IsCanonicalNumeral(whole)
    ensures UnsignedText(Value(whole), 0) == whole
  {
    LemmaNumeralOfValue(whole);
    assert Value(whole) / Pow10(0) == Value(whole);
  }

  /** Canonical integer digits, a point and fractional digits are the unsigned text of the value they spell. */
  lemma LemmaUnsignedTextOfParts(whole: string, fraction: string, a: nat)
    requires IsCanonicalNumeral(whole) && IsNumeral(fraction)
    requires a == Value(whole) * Pow10(|fraction|) + Value(fraction)
    ensures UnsignedText(a, |fraction|) == whole + "." + fraction
  {
    var w, f, p := Value(whole), Value(fraction), Pow10(|fraction|);
    LemmaValueBound(fraction);
    LemmaDivModUnique(a, p, w, f);
    LemmaNumeralOfValue(whole);
    LemmaPaddedOfValue(fraction);
    LemmaUnsignedTextOfQuotient(a, w, f, |fraction|);
  }

  /** The unsigned text writes the quotient and the remainder by `10^width` around the point. */
  lemma LemmaUnsignedTextOfQuotient(a: nat, w: nat, f: nat, width: nat)
    requires width > 0 && a / Pow10(width) == w && a % Pow10(width) == f
    ensures UnsignedText(a, width) == ToNumeral(w) + "." + Padded(f, width)
  {
  }

  /** A non-negative value is written without a sign. */
  lemma LemmaTextOfNonNegative(d: Decimal, text: string)
    requires d.mantissa >= 0 && UnsignedText(d.mantissa, d.scale) == text
    ensures ToText(d) == text
  {
  }

  /** `ToText(d)` starts with '-' exactly for negative mantissas, followed by the unsigned text. */
  lemma LemmaTextSign(d: Decimal)
    ensures SignAndBody(ToText(d)) == (d.mantissa < 0, UnsignedText(Abs(d.mantissa), d.scale))
  {
    var body := UnsignedText(Abs(d.mantissa), d.scale);
    if d.mantissa < 0 {
      assert ("-" + body)[1..] == body;
    } else {
      assert ToText(d) == body;
    }
  }

  /** Parsing the text `Display` writes gives back the same decimal, scale included. */
  lemma LemmaParseOfText(d: Decimal)
    ensures ParseLiteral(ToText(d)) == Some(d)
  {
    LemmaTextSign(d);
    LemmaMagnitudeOfText(Abs(d.mantissa), d.scale);
  }

  /** Every text `Display` writes is canonical. */
  lemma LemmaTextIsCanonical(d: Decimal)
    ensures IsCanonicalLiteral(ToText(d))
  {
    LemmaTextSign(d);
    LemmaUnsignedTextCanonical(Abs(d.mantissa), d.scale);
    LemmaUnsignedTextNonZero(Abs(d.mantissa), d.scale);
  }

  /** A canonical literal is printed back as itself. */
  lemma LemmaCanonicalIsText(s: string)
    requires ParseLiteral(s).Some? && IsCanonicalLiteral(s)
    ensures ToText(ParseLiteral(s).value) == s
  {
    var (negative, body) := SignAndBody(s);
    var u := ParseMagnitude(body).value;
    LemmaCanonicalMagnitudeIsText(body);
    LemmaUnsignedTextNonZero(u.mantissa, u.scale);
    assert s == (if negative then "-" else "") + body;
  }

  /** Printing a parsed literal reproduces it exactly when, and only when, the literal is canonical. */
  lemma LemmaTextOfParse(s: string)
    requires ParseLiteral(s).Some?
    ensures ToText(ParseLiteral(s).value) == s <==> IsCanonicalLiteral(s)
  {
    if IsCanonicalLiteral(s) {
      LemmaCanonicalIsText(s);
    }
    if ToText(ParseLiteral(s).value) == s {
      LemmaTextIsCanonical(ParseLiteral(s).value);
    }
  }

  /** `ParseDecimal` accepts a printed decimal exactly when its mantissa is within the bound. */
  lemma LemmaParseDecimalOfText(d: Decimal, range: MantissaRange)
    ensures ParseDecimal(ToText(d), range) == if InRange(d, range) then Some(d) else None
  {
    LemmaParseOfText(d);
  }

  /** The text of a decimal with fractional digits splits at its point into two segments, the second `scale` long. */
  lemma LemmaSplitAtPoint(d: Decimal)
    requires d.scale > 0
    ensures var parts := TextSearch.Split(ToText(d), ".");
            |parts| == 2 && |parts[1]| == d.scale
  {
    var p := Pow10(d.scale);
    var a := Abs(d.mantissa);
    LemmaDivModNat(a, p);
    LemmaUnsignedTextOfQuotient(a, a / p, a % p, d.scale);
    var front := (if d.mantissa < 0 then "-" else "") + ToNumeral(a / p);
    var fraction := Padded(a % p, d.scale);
    assert ToText(d) == front + "." + fraction;
    assert '.' !in front by {
      assert forall k :: 0 <= k < |front| ==> front[k] == '-' || IsDigit(front[k]);
    }
    LemmaSplitAroundPoint(front, fraction);
  }

  /** Text with a single point splits into the parts before and after it. */
  lemma LemmaSplitAroundPoint(front: string, fraction: string)
    requires '.' !in front && AllDigits(fraction)
    ensures TextSearch.Split(front + "." + fraction, ".") == [front, fraction]
  {
    var s := front + "." + fraction;
    LemmaPointAfterDigits(front, fraction);
    LemmaNoPointInDigits(fraction);
    assert s[..|front|] == front && s[|front| + 1..] == fraction;
  }

  /** A sign followed by digits and points is written with the characters of numbers only. */
  lemma LemmaSignedNumberText(s: string)
    requires var body := SignAndBody(s).1; forall k :: 0 <= k < |body| ==> IsDigit(body[k]) || body[k] == '.'
    ensures IsNumberText(s)
  {
    var (negative, body) := SignAndBody(s);
    forall k | 0 <= k < |s|
      ensures IsDigit(s[k]) || s[k] == '-' || s[k] == '.'
    {
      if negative && k > 0 {
        assert s[k] == body[k - 1];
      }
    }
  }

  /** Only digits and '.' make up an accepted magnitude. */
  lemma LemmaMagnitudeIsNumberText(body: string)
    requires ParseMagnitude(body).Some?
    ensures forall k :: 0 <= k < |body| ==> IsDigit(body[k]) || body[k] == '.'
  {
    match TextSearch.Find(body, ".")
    case None =>
    case Some(i) =>
      forall k | 0 <= k < |body|
        ensures IsDigit(body[k]) || body[k] == '.'
      {
        if k < i {
          assert body[k] == body[..i][k];
        } else if k > i {
          assert body[k] == body[i + 1..][k - i - 1];
        }
      }
  }
}
