/**
 Substring search and splitting on a separator, with the semantics of Rust's
 `str::contains` and `str::split` for a non-empty pattern: matches are taken
 left to right without overlapping, and the text between them (possibly
 empty) becomes the segments.
 */
module TextSearch {
  import opened Wrappers

  /** `pattern` appears in `s` starting at index `i`. */
  predicate OccursAt(s: string, pattern: string, i: int) {
    0 <= i && i + |pattern| <= |s| && s[i..i + |pattern|] == pattern
  }

  ghost predicate Contains(s: string, pattern: string) {
    exists i :: OccursAt(s, pattern, i)
  }

  /** No character after the first one repeats the first: two matches of such a pattern never overlap. */
  predicate HeadUnique(pattern: string) {
    |pattern| > 0 && forall k :: 0 < k < |pattern| ==> pattern[k] != pattern[0]
  }

  /** The first match of `pattern` at or after index `from`. */
  function FindFrom(s: string, pattern: string, from: nat): (r: Option<nat>)
    requires from <= |s|
    ensures r.Some? ==> from <= r.value && OccursAt(s, pattern, r.value)
    ensures forall j :: from <= j && (r.None? || j < r.value) ==> !OccursAt(s, pattern, j)
    decreases |s| - from
  {
    if from + |pattern| > |s| then None
    else if s[from..from + |pattern|] == pattern then Some(from)
    else if from == |s| then None
    else FindFrom(s, pattern, from + 1)
  }

  /** The first match of `pattern` in `s`, if any. */
  function Find(s: string, pattern: string): (r: Option<nat>)
    ensures r.None? <==> !Contains(s, pattern)
    ensures r.Some? ==> OccursAt(s, pattern, r.value)
    ensures r.Some? ==> forall j :: 0 <= j < r.value ==> !OccursAt(s, pattern, j)
  {
    FindFrom(s, pattern, 0)
  }

  /** The segments of `s` between the matches of `sep`, as `str::split` yields them. */
  function Split(s: string, sep: string): (parts: seq<string>)
    requires |sep| > 0
    ensures |parts| >= 1
    ensures Join(parts, sep) == s
    ensures forall k :: 0 <= k < |parts| ==> !Contains(parts[k], sep)
    ensures |parts| == 1 <==> !Contains(s, sep)
    decreases |s|
  {
    match Find(s, sep)
    case None => [s]
    case Some(i) =>
      var rest := Split(s[i + |sep|..], sep);
      LemmaBeforeFirstIsFree(s, sep, i);
      LemmaJoinCons(s[..i], rest, sep);
      LemmaAroundMatch(s, sep, i);
      [s[..i]] + rest
  }

  /** Glues segments back together with `sep` between neighbours. */
  function Join(parts: seq<string>, sep: string): string
    requires |parts| >= 1
  {
    if |parts| == 1 then parts[0] else parts[0] + sep + Join(parts[1..], sep)
  }

  lemma LemmaJoinCons(first: string, rest: seq<string>, sep: string)
    requires |rest| >= 1
    ensures Join([first] + rest, sep) == first + sep + Join(rest, sep)
  {
    assert ([first] + rest)[1..] == rest;
  }

  /** A text is the part before a match, the match, and the part after it. */
  lemma LemmaAroundMatch(s: string, pattern: string, i: int)
    requires OccursAt(s, pattern, i)
    ensures s == s[..i] + pattern + s[i + |pattern|..]
  {
    assert s == s[..i] + s[i..i + |pattern|] + s[i + |pattern|..];
  }

  /** The text in front of the first match contains no match. */
  lemma LemmaBeforeFirstIsFree(s: string, pattern: string, i: nat)
    requires |pattern| > 0 && i <= |s|
    requires forall j :: 0 <= j < i ==> !OccursAt(s, pattern, j)
    ensures !Contains(s[..i], pattern)
  {
    forall j | OccursAt(s[..i], pattern, j)
      ensures false
    {
      assert s[..i][j..j + |pattern|] == s[j..j + |pattern|];
      assert OccursAt(s, pattern, j);
    }
  }

  /** A match inside a suffix is a match in the whole text, shifted by the suffix's start. */
  lemma LemmaOccursInSuffix(s: string, pattern: string, start: nat, j: int)
    requires start <= |s|
    ensures OccursAt(s[start..], pattern, j) <==> j >= 0 && OccursAt(s, pattern, start + j)
  {
    if j >= 0 && start + j + |pattern| <= |s| {
      assert s[start..][j..j + |pattern|] == s[start + j..start + j + |pattern|];
    }
  }

  /** Two different matches of a head-unique pattern are at least a pattern's length apart. */
  lemma LemmaNoOverlap(s: string, pattern: string, i: int, j: int)
    requires HeadUnique(pattern)
    requires OccursAt(s, pattern, i) && OccursAt(s, pattern, j) && i < j
    ensures i + |pattern| <= j
  {
    LemmaMatchChar(s, pattern, i, j);
    LemmaMatchChar(s, pattern, j, j);
  }

  /** Inside a match, the text agrees with the pattern character by character. */
  lemma LemmaMatchChar(s: string, pattern: string, i: int, k: int)
    requires OccursAt(s, pattern, i)
    ensures i <= k < i + |pattern| ==> s[k] == pattern[k - i]
  {
    if i <= k < i + |pattern| {
      assert s[k] == s[i..i + |pattern|][k - i];
    }
  }

  /** Text with exactly one match splits into the parts before and after it. */
  lemma LemmaSplitAtOnlyMatch(s: string, sep: string, i: int)
    requires |sep| > 0
    requires OccursAt(s, sep, i)
    requires forall j :: OccursAt(s, sep, j) ==> j == i
    ensures Split(s, sep) == [s[..i], s[i + |sep|..]]
  {
    assert Find(s, sep) == Some(i);
    var rest := s[i + |sep|..];
    forall j | OccursAt(rest, sep, j)
      ensures false
    {
      LemmaOccursInSuffix(s, sep, i + |sep|, j);
    }
    assert Split(rest, sep) == [rest];
  }

  /** Two different matches of a head-unique separator make `split` yield more than two segments. */
  lemma LemmaTwoMatchesSplitThree(s: string, sep: string, i: int, j: int)
    requires HeadUnique(sep)
    requires OccursAt(s, sep, i) && OccursAt(s, sep, j) && i != j
    ensures |Split(s, sep)| > 2
  {
    var f := Find(s, sep).value;
    var k := if i != f then i else j;
    assert f <= k && k != f;
    LemmaNoOverlap(s, sep, f, k);
    var rest := s[f + |sep|..];
    LemmaOccursInSuffix(s, sep, f + |sep|, k - f - |sep|);
    assert Contains(rest, sep);
    assert |Split(rest, sep)| >= 2;
    assert Split(s, sep) == [s[..f]] + Split(rest, sep);
  }
}
