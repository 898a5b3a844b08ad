/**
 * The string operations the engine relies on from Rust's `str`:
 * substring search (`find`, `rfind`), `trim`, `starts_with`/`strip_prefix`
 * and slice `join`, each specified by what it returns.
 */
module Text {
  import opened Errors

  /**
   * The characters with the Unicode White_Space property, which is the set
   * `char::is_whitespace` and therefore `str::trim` use.
   */
  predicate IsWhitespace(c: char) {
    || ('\U{9}' <= c <= '\U{D}')
    || c == ' '
    || c == '\U{85}'
    || c == '\U{A0}'
    || c == '\U{1680}'
    || ('\U{2000}' <= c <= '\U{200A}')
    || c == '\U{2028}'
    || c == '\U{2029}'
    || c == '\U{202F}'
    || c == '\U{205F}'
    || c == '\U{3000}'
  }

  /** `pat` occurs in `s` starting at index `k`. */
  predicate OccursAt(s: string, pat: string, k: int) {
    0 <= k && k + |pat| <= |s| && s[k..k + |pat|] == pat
  }

  ghost predicate Contains(s: string, pat: string) {
    exists k :: OccursAt(s, pat, k)
  }

  /** The first occurrence of `pat` in `s` at or after index `k`. */
  function FindFrom(s: string, pat: string, k: nat): (r: Option<nat>)
    requires k <= |s|
    decreases |s| - k
    ensures r.Some? ==> k <= r.value && OccursAt(s, pat, r.value)
    ensures r.Some? ==> forall j :: k <= j < r.value ==> !OccursAt(s, pat, j)
    ensures r.None? ==> forall j :: k <= j ==> !OccursAt(s, pat, j)
  {
    if k + |pat| > |s| then None
    else if s[k..k + |pat|] == pat then Some(k)
    else FindFrom(s, pat, k + 1)
  }

  /** Rust's `str::find`: the index of the first occurrence of `pat`. */
  function Find(s: string, pat: string): (r: Option<nat>)
    ensures r.Some? ==> OccursAt(s, pat, r.value)
    ensures r.Some? ==> forall j :: 0 <= j < r.value ==> !OccursAt(s, pat, j)
    ensures r.None? <==> !Contains(s, pat)
  {
    FindFrom(s, pat, 0)
  }

  /** Rust's `str::find` for one character: the index of its first occurrence. */
  function IndexOf(s: string, c: char): (r: Option<nat>)
    ensures r.Some? ==> r.value < |s| && s[r.value] == c
    ensures r.Some? ==> forall j :: 0 <= j < r.value ==> s[j] != c
    ensures r.None? <==> c !in s
  {
    if |s| == 0 then None
    else if s[0] == c then Some(0)
    else
      match IndexOf(s[1..], c)
      case None => None
      case Some(i) => Some(i + 1)
  }

  /** Rust's `str::rfind` for one character: the index of its last occurrence. */
  function LastIndexOf(s: string, c: char): (r: Option<nat>)
    ensures r.Some? ==> r.value < |s| && s[r.value] == c
    ensures r.Some? ==> forall j :: r.value < j < |s| ==> s[j] != c
    ensures r.None? <==> c !in s
  {
    if |s| == 0 then None
    else if s[|s| - 1] == c then Some(|s| - 1)
    else
      assert s == s[..|s| - 1] + [s[|s| - 1]];
      LastIndexOf(s[..|s| - 1], c)
  }

  /** The number of whitespace characters `trim` removes at the front. */
  function LeadingWhitespace(s: string): (n: nat)
    ensures n <= |s|
  {
    if |s| == 0 || !IsWhitespace(s[0]) then 0
    else 1 + LeadingWhitespace(s[1..])
  }

  /** The number of whitespace characters `trim` removes at the back. */
  function TrailingWhitespace(s: string): (n: nat)
    ensures n <= |s|
  {
    if |s| == 0 || !IsWhitespace(s[|s| - 1]) then 0
    else 1 + TrailingWhitespace(s[..|s| - 1])
  }

  /** The leading run is all whitespace and is followed by a non-whitespace character or the end. */
  lemma {:induction false} LeadingWhitespaceSpec(s: string)
    ensures forall i :: 0 <= i < LeadingWhitespace(s) ==> IsWhitespace(s[i])
    ensures LeadingWhitespace(s) < |s| ==> !IsWhitespace(s[LeadingWhitespace(s)])
    decreases |s|
  {
    if |s| > 0 && IsWhitespace(s[0]) {
      LeadingWhitespaceSpec(s[1..]);
    }
  }

  /** The trailing run is all whitespace and is preceded by a non-whitespace character or the start. */
  lemma {:induction false} TrailingWhitespaceSpec(s: string)
    ensures forall i :: |s| - TrailingWhitespace(s) <= i < |s| ==> IsWhitespace(s[i])
    ensures TrailingWhitespace(s) < |s| ==> !IsWhitespace(s[|s| - 1 - TrailingWhitespace(s)])
    decreases |s|
  {
    if |s| > 0 && IsWhitespace(s[|s| - 1]) {
      TrailingWhitespaceSpec(s[..|s| - 1]);
    }
  }

  /** Rust's `str::trim`. */
  function Trim(s: string): (r: string)
    ensures |r| <= |s|
  {
    var t := s[LeadingWhitespace(s)..];
    t[..|t| - TrailingWhitespace(t)]
  }

  /** `trim` returns the slice of `s` that starts after the leading whitespace. */
  lemma TrimSlice(s: string)
    ensures LeadingWhitespace(s) + |Trim(s)| <= |s|
    ensures Trim(s) == s[LeadingWhitespace(s)..LeadingWhitespace(s) + |Trim(s)|]
  {
    var n := LeadingWhitespace(s);
    var t := s[n..];
    assert Trim(s) == t[..|t| - TrailingWhitespace(t)];
  }

  /** Everything `trim` cuts off at the back is whitespace. */
  lemma TrimBack(s: string)
    ensures forall i :: LeadingWhitespace(s) + |Trim(s)| <= i < |s| ==> IsWhitespace(s[i])
  {
    var n := LeadingWhitespace(s);
    var t := s[n..];
    TrailingWhitespaceSpec(t);
    assert |Trim(s)| == |t| - TrailingWhitespace(t);
    forall i | n + |Trim(s)| <= i < |s|
      ensures IsWhitespace(s[i])
    {
      assert s[i] == t[i - n];
    }
  }

  /** What `trim` returns neither starts nor ends with whitespace. */
  lemma TrimEnds(s: string)
    ensures Trim(s) == [] || (!IsWhitespace(Trim(s)[0]) && !IsWhitespace(Trim(s)[|Trim(s)| - 1]))
  {
    var n := LeadingWhitespace(s);
    var t := s[n..];
    var m := TrailingWhitespace(t);
    var r := Trim(s);
    LeadingWhitespaceSpec(s);
    TrailingWhitespaceSpec(t);
    assert r == t[..|t| - m];
    if r != [] {
      assert r[0] == s[n];
      assert r[|r| - 1] == t[|t| - 1 - m];
    }
  }

  /**
   * What `trim` returns: the slice of `s` that starts after the leading
   * whitespace, such that everything cut off at either end is whitespace
   * and the result neither starts nor ends with whitespace.
   */
  lemma TrimSpec(s: string)
    ensures LeadingWhitespace(s) + |Trim(s)| <= |s|
    ensures Trim(s) == s[LeadingWhitespace(s)..LeadingWhitespace(s) + |Trim(s)|]
    ensures forall i :: 0 <= i < LeadingWhitespace(s) ==> IsWhitespace(s[i])
    ensures forall i :: LeadingWhitespace(s) + |Trim(s)| <= i < |s| ==> IsWhitespace(s[i])
    ensures Trim(s) == [] || (!IsWhitespace(Trim(s)[0]) && !IsWhitespace(Trim(s)[|Trim(s)| - 1]))
  {
    LeadingWhitespaceSpec(s);
    TrimSlice(s);
    TrimBack(s);
    TrimEnds(s);
  }

  /** The strings agree from index `i` on; with equal lengths from 0, this is `==`. */
  predicate SameFrom(a: string, b: string, i: nat)
    requires |a| == |b|
    decreases |a| - i
  {
    i >= |a| || (a[i] == b[i] && SameFrom(a, b, i + 1))
  }

  /** String equality decided one character at a time. */
  predicate SameChars(a: string, b: string) {
    |a| == |b| && SameFrom(a, b, 0)
  }

  lemma {:induction false} SameFromSpec(a: string, b: string, i: nat)
    requires |a| == |b|
    decreases |a| - i
    ensures SameFrom(a, b, i) <==> forall j :: i <= j < |a| ==> a[j] == b[j]
  {
    if i < |a| {
      SameFromSpec(a, b, i + 1);
    }
  }

  lemma SameCharsIsEquality(a: string, b: string)
    ensures SameChars(a, b) <==> a == b
  {
    if |a| == |b| {
      SameFromSpec(a, b, 0);
    }
  }

  /** `s` starts with `p` (Rust's `starts_with`, and `strip_prefix` succeeding). */
  predicate StartsWith(s: string, p: string) {
    |p| <= |s| && s[..|p|] == p
  }

  /** Rust's `[String]::join(sep)`. */
  function Join(xs: seq<string>, sep: string): string
  {
    if |xs| == 0 then ""
    else if |xs| == 1 then xs[0]
    else Join(xs[..|xs| - 1], sep) + sep + xs[|xs| - 1]
  }

  /** `join` read from the front: the first element, the separator, then the rest joined. */
  lemma {:induction false} JoinCons(xs: seq<string>, sep: string)
    requires |xs| >= 2
    ensures Join(xs, sep) == xs[0] + sep + Join(xs[1..], sep)
    decreases |xs|
  {
    var n := |xs|;
    if n > 2 {
      JoinCons(xs[..n - 1], sep);
      assert xs[..n - 1][1..] == xs[1..][..n - 2];
    }
  }

  /** Leading whitespace `a` in front of a text that starts with a non-whitespace character is exactly what is counted. */
  lemma {:induction false} LeadingWhitespaceOf(a: string, x: string)
    requires forall i :: 0 <= i < |a| ==> IsWhitespace(a[i])
    requires |x| > 0 && !IsWhitespace(x[0])
    ensures LeadingWhitespace(a + x) == |a|
    decreases |a|
  {
    if |a| > 0 {
      assert (a + x)[1..] == a[1..] + x;
      LeadingWhitespaceOf(a[1..], x);
    }
  }

  /** Trailing whitespace `b` after a text that ends with a non-whitespace character is exactly what is counted. */
  lemma {:induction false} TrailingWhitespaceOf(x: string, b: string)
    requires forall i :: 0 <= i < |b| ==> IsWhitespace(b[i])
    requires |x| > 0 && !IsWhitespace(x[|x| - 1])
    ensures TrailingWhitespace(x + b) == |b|
    decreases |b|
  {
    if |b| > 0 {
      assert (x + b)[..|x + b| - 1] == x + b[..|b| - 1];
      TrailingWhitespaceOf(x, b[..|b| - 1]);
    }
  }

  /** Trimming `a + x + b` gives `x` when `a` and `b` are whitespace and `x` neither starts nor ends with it. */
  lemma TrimPadded(a: string, x: string, b: string)
    requires forall i :: 0 <= i < |a| ==> IsWhitespace(a[i])
    requires forall i :: 0 <= i < |b| ==> IsWhitespace(b[i])
    requires |x| > 0 && !IsWhitespace(x[0]) && !IsWhitespace(x[|x| - 1])
    ensures Trim(a + x + b) == x
  {
    var s := a + x + b;
    assert s == a + (x + b);
    LeadingWhitespaceOf(a, x + b);
    var t := s[|a|..];
    assert t == x + b;
    TrailingWhitespaceOf(x, b);
    assert Trim(s) == t[..|t| - |b|];
  }

  /** How many times `c` occurs in `s`. */
  function Count(c: char, s: string): nat
  {
    if |s| == 0 then 0
    else Count(c, s[..|s| - 1]) + (if s[|s| - 1] == c then 1 else 0)
  }

  lemma {:induction false} CountAppend(c: char, a: string, b: string)
    ensures Count(c, a + b) == Count(c, a) + Count(c, b)
    decreases |b|
  {
    if |b| == 0 {
      assert a + b == a;
    } else {
      assert (a + b)[..|a + b| - 1] == a + b[..|b| - 1];
      CountAppend(c, a, b[..|b| - 1]);
    }
  }

  lemma {:induction false} CountZero(c: char, s: string)
    ensures Count(c, s) == 0 <==> c !in s
    decreases |s|
  {
    if |s| > 0 {
      CountZero(c, s[..|s| - 1]);
      assert s == s[..|s| - 1] + [s[|s| - 1]];
    }
  }

  /** Replacing a part that starts with two `c` by a text without `c` removes at least two `c`. */
  lemma CountReplaced(c: char, a: string, mid: string, b: string, rep: string)
    requires |mid| >= 2 && mid[0] == c && mid[1] == c && c !in rep
    ensures Count(c, a + rep + b) + 2 <= Count(c, a + mid + b)
  {
    CountAppend(c, a + mid, b);
    CountAppend(c, a, mid);
    CountAppend(c, a + rep, b);
    CountAppend(c, a, rep);
    CountZero(c, rep);
    assert mid == mid[..2] + mid[2..];
    CountAppend(c, mid[..2], mid[2..]);
    assert mid[..2][..1] == [c];
    assert [c][..0] == [];
  }

  /** Trimming never adds an occurrence. */
  lemma CountTrim(c: char, s: string)
    ensures Count(c, Trim(s)) <= Count(c, s)
  {
    TrimSlice(s);
    var w := LeadingWhitespace(s);
    var t := Trim(s);
    assert s == s[..w] + t + s[w + |t|..];
    CountAppend(c, s[..w], t);
    CountAppend(c, s[..w] + t, s[w + |t|..]);
  }

  /** A slice of a slice is a slice of the original. */
  lemma SubSlice(s: string, a: nat, b: nat, c: nat, d: nat)
    requires a <= b <= |s| && c <= d <= b - a
    ensures s[a..b][c..d] == s[a + c..a + d]
  {
    var left := s[a..b][c..d];
    var right := s[a + c..a + d];
    forall n | 0 <= n < |left|
      ensures left[n] == right[n]
    {
    }
  }

  /** An occurrence that ends within the first `n` characters is an occurrence in the prefix of length `n`, and back. */
  lemma OccursInPrefix(s: string, n: nat, pat: string)
    requires n <= |s|
    ensures forall k :: 0 <= k && k + |pat| <= n ==> (OccursAt(s[..n], pat, k) <==> OccursAt(s, pat, k))
  {
    forall k | 0 <= k && k + |pat| <= n
      ensures OccursAt(s[..n], pat, k) <==> OccursAt(s, pat, k)
    {
      SubSlice(s, 0, n, k, k + |pat|);
    }
  }

  /** A string is its three slices at `i` and `j` put back together. */
  lemma SplitThree(s: string, i: nat, j: nat)
    requires i <= j <= |s|
    ensures s == s[..i] + s[i..j] + s[j..]
  {
    var t := s[..i] + s[i..j] + s[j..];
    forall n | 0 <= n < |s|
      ensures s[n] == t[n]
    {
      if n < i {
      } else if n < j {
        assert t[n] == s[i..j][n - i];
      } else {
        assert t[n] == s[j..][n - j];
      }
    }
  }
}
