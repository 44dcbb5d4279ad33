/**
 Decimal numerals: runs of ASCII digits, their values, and the two ways the
 formatters render a natural number (shortest form, and zero-padded to a
 fixed width for fractional digits).
 */
module Digits {

  predicate IsDigit(c: char) {
    '0' <= c <= '9'
  }

  function DigitValue(c: char): (v: nat)
    requires IsDigit(c)
    ensures v < 10
  {
    c as int - '0' as int
  }

  function DigitChar(v: nat): (c: char)
    requires v < 10
    ensures IsDigit(c) && DigitValue(c) == v
  {
    ('0' as int + v) as char
  }

  predicate AllDigits(s: string) {
    forall i :: 0 <= i < |s| ==> IsDigit(s[i])
  }

  /** Every character is a digit, a '-' or a '.': the characters numbers are written with. */
  predicate IsNumberText(s: string) {
    forall i :: 0 <= i < |s| ==> IsDigit(s[i]) || s[i] == '-' || s[i] == '.'
  }

  /** A non-empty run of digits. */
  predicate IsNumeral(s: string) {
    |s| > 0 && AllDigits(s)
  }

  /** A numeral without superfluous leading zeros ("0", "7", "120", but not "007"). */
  predicate IsCanonicalNumeral(s: string) {
    IsNumeral(s) && (s[0] == '0' ==> |s| == 1)
  }

  /** Some digit of `s` is '1' through '9'. */
  predicate HasNonZeroDigit(s: string) {
    exists k :: 0 <= k < |s| && '1' <= s[k] <= '9'
  }

  function Pow10(n: nat): (p: nat)
    ensures p >= 1
  {
    if n == 0 then 1 else 10 * Pow10(n - 1)
  }

  /** The value of a run of digits read in base ten (the empty run reads as 0). */
  function Value(s: string): nat
    requires AllDigits(s)
  {
    if |s| == 0 then 0 else Value(s[..|s| - 1]) * 10 + DigitValue(s[|s| - 1])
  }

  /** The shortest numeral of `n`, as integer `Display` writes it. */
  function ToNumeral(n: nat): (s: string)
    ensures IsCanonicalNumeral(s) && Value(s) == n
  {
    if n < 10 then
      [DigitChar(n)]
    else
      var front := ToNumeral(n / 10);
      var s := front + [DigitChar(n % 10)];
      assert s[..|s| - 1] == front;
      s
  }

  /** The last `width` digits of `n`, with leading zeros: how fractional digits are written. */
  function Padded(n: nat, width: nat): (s: string)
    ensures |s| == width && AllDigits(s)
  {
    if width == 0 then [] else Padded(n / 10, width - 1) + [DigitChar(n % 10)]
  }

  /** The padded rendering reads back as the low `width` digits of `n`. */
  lemma {:induction false} LemmaValueOfPadded(n: nat, width: nat)
    ensures Value(Padded(n, width)) == n % Pow10(width)
  {
    if width > 0 {
      var front := Padded(n / 10, width - 1);
      var s := Padded(n, width);
      assert s[..|s| - 1] == front;
      LemmaValueOfPadded(n / 10, width - 1);
      LemmaModSplit(n, Pow10(width - 1));
    }
  }

  /** The quotient and remainder of a natural number by a positive divisor. */
  lemma LemmaDivModNat(a: nat, p: nat)
    requires p >= 1
    ensures 0 <= a / p && 0 <= a % p < p && a == (a / p) * p + a % p
    ensures a == 0 <==> a / p == 0 && a % p == 0
  {
    var q, r := a / p, a % p;
    LemmaMultipleOutsideBand(q, p);
    if a == 0 {
      LemmaDivModUnique(a, p, 0, 0);
    }
  }

  /** Euclidean division is determined by its defining equation. */
  lemma LemmaDivModUnique(n: int, k: int, q: int, r: int)
    requires k > 0 && 0 <= r < k && n == q * k + r
    ensures n / k == q && n % k == r
  {
    var q', r' := n / k, n % k;
    assert (q - q') * k == r' - r;
    LemmaMultipleOutsideBand(q - q', k);
  }

  /** A non-zero multiple of `k` lies at least `k` away from zero. */
  lemma LemmaMultipleOutsideBand(d: int, k: int)
    requires k > 0
    ensures d >= 1 ==> d * k >= k
    ensures d <= -1 ==> d * k <= -k
  {
    if d >= 1 {
      assert d * k == (d - 1) * k + k;
    } else if d <= -1 {
      assert d * k == (d + 1) * k - k;
    }
  }

  /** Taking the low digits of `n` modulo `10 * p` splits off its last digit. */
  lemma LemmaModSplit(n: nat, p: nat)
    requires p >= 1
    ensures n % (10 * p) == ((n / 10) % p) * 10 + n % 10
  {
    var q := (n / 10) / p;
    var r := (n / 10) % p;
    assert n / 10 == q * p + r;
    assert n == q * (10 * p) + (r * 10 + n % 10);
    LemmaDivModUnique(n, 10 * p, q, r * 10 + n % 10);
  }

  /** A run of `k` digits reads as less than `10^k`. */
  lemma {:induction false} LemmaValueBound(s: string)
    requires AllDigits(s)
    ensures Value(s) < Pow10(|s|)
  {
    if |s| > 0 {
      LemmaValueBound(s[..|s| - 1]);
    }
  }

  /** A numeral that starts with a non-zero digit denotes a positive number. */
  lemma {:induction false} LemmaLeadingDigitPositive(s: string)
    requires IsNumeral(s) && s[0] != '0'
    ensures Value(s) > 0
  {
    if |s| > 1 {
      LemmaLeadingDigitPositive(s[..|s| - 1]);
    }
  }

  /** Canonical numerals are exactly the ones `ToNumeral` writes. */
  lemma {:induction false} LemmaNumeralOfValue(s: string)
    requires IsCanonicalNumeral(s)
    ensures ToNumeral(Value(s)) == s
  {
    var n := Value(s);
    if |s| == 1 {
      assert s == [DigitChar(DigitValue(s[0]))];
    } else {
      var front := s[..|s| - 1];
      LemmaLeadingDigitPositive(front);
      LemmaDivModUnique(n, 10, Value(front), DigitValue(s[|s| - 1]));
      LemmaNumeralOfValue(front);
      assert s == front + [DigitChar(DigitValue(s[|s| - 1]))];
    }
  }

  /** Any run of digits is the padded rendering of its own value at its own width. */
  lemma {:induction false} LemmaPaddedOfValue(s: string)
    requires AllDigits(s)
    ensures Padded(Value(s), |s|) == s
  {
    if |s| > 0 {
      var front := s[..|s| - 1];
      LemmaDivModUnique(Value(s), 10, Value(front), DigitValue(s[|s| - 1]));
      LemmaPaddedOfValue(front);
      assert s == front + [DigitChar(DigitValue(s[|s| - 1]))];
    }
  }

  /** A run of digits reads as zero exactly when every digit is '0'. */
  lemma {:induction false} LemmaValueZero(s: string)
    requires AllDigits(s)
    ensures Value(s) == 0 <==> !HasNonZeroDigit(s)
  {
    if |s| > 0 {
      var front := s[..|s| - 1];
      LemmaValueZero(front);
      if HasNonZeroDigit(front) {
        var k :| 0 <= k < |front| && '1' <= front[k] <= '9';
        assert s[k] == front[k];
      }
      if HasNonZeroDigit(s) && DigitValue(s[|s| - 1]) == 0 {
        var k :| 0 <= k < |s| && '1' <= s[k] <= '9';
        assert front[k] == s[k];
      }
    }
  }
}
