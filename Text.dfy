/**
 * The string operations the assistant relies on, written over `seq<char>`:
 * ASCII lower-casing, `startswith`/`endswith`, substring search
 * (`t in s`, `s.find(t)`), `strip()` and `replace(pat, "")`.
 */
module Text {
  import opened Wrappers

  /** `str.isspace()` on the ASCII range: tab, line feed, vertical tab, form feed,
      carriage return, the four separator controls 0x1C-0x1F, and space. */
  predicate IsSpace(c: char) {
    var n := c as int;
    (9 <= n <= 13) || (28 <= n <= 32)
  }

  function LowerChar(c: char): char {
    if 'A' <= c <= 'Z' then (c as int + 32) as char else c
  }

  /** ASCII `str.lower()`: a letter-by-letter map, so the length is unchanged. */
  function Lower(s: string): (r: string)
    ensures |r| == |s|
    ensures forall i :: 0 <= i < |s| ==> r[i] == LowerChar(s[i])
  {
    seq(|s|, i requires 0 <= i < |s| => LowerChar(s[i]))
  }

  predicate StartsWith(s: string, p: string) {
    |p| <= |s| && s[..|p|] == p
  }

  predicate EndsWith(s: string, p: string) {
    |p| <= |s| && s[|s| - |p|..] == p
  }

  /** `t` occurs in `s` starting at index `i`. */
  predicate OccursAt(s: string, t: string, i: nat) {
    i + |t| <= |s| && s[i..i + |t|] == t
  }

  /** The first index `>= i` at which `t` occurs in `s` (`s.find(t, i)`). */
  function IndexFrom(s: string, t: string, i: nat): (r: Option<nat>)
    decreases |s| - i
    ensures r.Some? ==> i <= r.value && OccursAt(s, t, r.value)
    ensures r.Some? ==> forall j: nat :: i <= j < r.value ==> !OccursAt(s, t, j)
    ensures r.None? ==> forall j: nat :: i <= j ==> !OccursAt(s, t, j)
  {
    if i + |t| > |s| then None
    else if s[i..i + |t|] == t then Some(i)
    else IndexFrom(s, t, i + 1)
  }

  /** The first occurrence of `t` in `s`, if any. */
  function IndexOf(s: string, t: string): (r: Option<nat>)
    ensures r.Some? ==> OccursAt(s, t, r.value) && forall j: nat :: j < r.value ==> !OccursAt(s, t, j)
    ensures r.None? <==> !Contains(s, t)
  {
    IndexFrom(s, t, 0)
  }

  /** Python's `t in s`: `t` occurs somewhere in `s`. */
  predicate Contains(s: string, t: string) {
    exists j: nat :: j <= |s| - |t| && OccursAt(s, t, j)
  }

  /** An occurrence in a slice is an occurrence in the whole string, shifted by the slice's start. */
  lemma SliceOccurrence(s: string, t: string, a: nat, b: nat, j: nat)
    requires a <= b <= |s|
    ensures OccursAt(s[a..b], t, j) ==> OccursAt(s, t, a + j)
  {
    if OccursAt(s[a..b], t, j) {
      var u := s[a..b];
      forall k | 0 <= k < |t| ensures s[a + j + k] == t[k] {
        assert u[j..j + |t|][k] == t[k];
        assert u[j + k] == s[a + j + k];
      }
      assert s[a + j..a + j + |t|] == t;
    }
  }

  /** A slice of a string that does not contain `t` does not contain `t` either. */
  lemma NotContainsSlice(s: string, t: string, a: nat, b: nat)
    requires a <= b <= |s|
    requires !Contains(s, t)
    ensures !Contains(s[a..b], t)
  {
    forall j: nat ensures !OccursAt(s[a..b], t, j) {
      SliceOccurrence(s, t, a, b, j);
    }
  }

  /** The first index at or after `i` that does not hold whitespace. */
  function SkipSpace(s: string, i: nat): (r: nat)
    requires i <= |s|
    decreases |s| - i
    ensures i <= r <= |s|
    ensures forall k :: i <= k < r ==> IsSpace(s[k])
    ensures r < |s| ==> !IsSpace(s[r])
  {
    if i < |s| && IsSpace(s[i]) then SkipSpace(s, i + 1) else i
  }

  /** The end of `s[lo..j]` once trailing whitespace is dropped. */
  function SkipSpaceBack(s: string, lo: nat, j: nat): (r: nat)
    requires lo <= j <= |s|
    decreases j
    ensures lo <= r <= j
    ensures forall k :: r <= k < j ==> IsSpace(s[k])
    ensures lo < r ==> !IsSpace(s[r - 1])
  {
    if lo < j && IsSpace(s[j - 1]) then SkipSpaceBack(s, lo, j - 1) else j
  }

  /** Python's `str.strip()` over the whitespace set of `IsSpace`: the slice
      between the leading and the trailing whitespace. */
  function Strip(s: string): (r: string)
    ensures |r| <= |s|
    ensures r != [] ==> !IsSpace(r[0]) && !IsSpace(r[|r| - 1])
  {
    var a := SkipSpace(s, 0);
    s[a..SkipSpaceBack(s, a, |s|)]
  }

  /** `Strip(s)` is a slice `s[a..b]` of its argument, with only whitespace
      outside it and no whitespace at either of its ends. */
  lemma StripIsSlice(s: string) returns (a: nat, b: nat)
    ensures a <= b <= |s| && Strip(s) == s[a..b]
    ensures forall k :: 0 <= k < a || b <= k < |s| ==> IsSpace(s[k])
    ensures a < b ==> !IsSpace(s[a]) && !IsSpace(s[b - 1])
  {
    a := SkipSpace(s, 0);
    b := SkipSpaceBack(s, a, |s|);
  }

  /** A string without `t` still has none after stripping. */
  lemma StripKeepsAbsence(s: string, t: string)
    requires !Contains(s, t)
    ensures !Contains(Strip(s), t)
  {
    var a, b := StripIsSlice(s);
    NotContainsSlice(s, t, a, b);
  }

  /** Python's `s.replace(pat, "")`: occurrences are removed left to right,
      never overlapping. */
  function RemoveAll(s: string, pat: string): (r: string)
    requires pat != []
    decreases |s|
    ensures |r| <= |s|
  {
    if |s| < |pat| then s
    else if s[..|pat|] == pat then RemoveAll(s[|pat|..], pat)
    else [s[0]] + RemoveAll(s[1..], pat)
  }

  /** Replacing a pattern that does not occur changes nothing. */
  lemma {:induction false} RemoveAllAbsent(s: string, pat: string)
    requires pat != []
    requires !Contains(s, pat)
    ensures RemoveAll(s, pat) == s
    decreases |s|
  {
    assert !OccursAt(s, pat, 0);
    if |s| >= |pat| {
      NotContainsSlice(s, pat, 1, |s|);
      assert s[1..|s|] == s[1..];
      RemoveAllAbsent(s[1..], pat);
    }
  }

  /** Lower-casing commutes with taking a prefix. */
  lemma LowerPrefix(s: string, n: nat)
    requires n <= |s|
    ensures Lower(s)[..n] == Lower(s[..n])
  {
  }

  /** A string without a character of `t` does not contain `t`. */
  lemma CharAbsentNotContains(s: string, t: string, i: nat)
    requires i < |t| && t[i] !in s
    ensures !Contains(s, t)
  {
    assert forall j: nat :: !OccursAt(s, t, j);
  }

  /** `t` occurs at `k`, and one of its characters does not appear early enough
      for an earlier occurrence: `k` is the first occurrence. */
  lemma FirstOccurrence(s: string, t: string, k: nat, i: nat)
    requires OccursAt(s, t, k) && i < |t| && t[i] !in s[..k + i]
    ensures IndexOf(s, t) == Some(k)
  {
    assert forall j: nat :: j < k ==> !OccursAt(s, t, j);
  }

  /** `t` occurs in `a + t + b` right after `a`. */
  lemma OccursBetween(a: string, t: string, b: string)
    ensures OccursAt(a + t + b, t, |a|)
    ensures t != [] ==> (a + t + b)[..|a| + 1] == a + [t[0]]
  {
    assert (a + t + b)[|a|..|a| + |t|] == t;
  }

  /** A string with no whitespace at either end is its own `strip()`. */
  lemma StripTrimmed(s: string)
    requires s != [] && !IsSpace(s[0]) && !IsSpace(s[|s| - 1])
    ensures Strip(s) == s
  {
    assert SkipSpace(s, 0) == 0;
    assert SkipSpaceBack(s, 0, |s|) == |s|;
  }

  /** Text before the first possible start of `pat` is kept by `replace(pat, "")`. */
  lemma {:induction false} RemoveAllPrefixFree(a: string, b: string, pat: string)
    requires pat != [] && pat[0] !in a
    ensures RemoveAll(a + b, pat) == a + RemoveAll(b, pat)
    decreases |a|
  {
    if a != [] {
      var s := a + b;
      assert s[0] == a[0] != pat[0];
      if |s| >= |pat| { assert s[..|pat|][0] == s[0]; }
      assert s[1..] == a[1..] + b;
      RemoveAllPrefixFree(a[1..], b, pat);
    } else {
      assert a + b == b;
    }
  }
}
