/**
 * The handful of Python `str` operations the alert extractor and the
 * delete command rely on: `str.find`, slicing `s[i:j]` with Python's
 * index wrapping and clamping, `str.strip()` and `str.lower()`.
 */
module PyStr {

  /** `pat` occurs in `s` starting at index `k`. */
  predicate OccursAt(s: string, pat: string, k: int)
  {
    0 <= k && k + |pat| <= |s| && s[k..k + |pat|] == pat
  }

  /** `r` is the piece of `s` that starts at index `lo`. */
  predicate InfixAt(r: string, s: string, lo: int)
  {
    0 <= lo && lo + |r| <= |s| && s[lo..lo + |r|] == r
  }

  /** A piece of a piece of `s` is a piece of `s`, at the summed offset. */
  lemma InfixShift(s: string, t: string, c: nat, r: string, lo: nat)
    requires InfixAt(t, s, c)
    requires InfixAt(r, t, lo)
    ensures InfixAt(r, s, c + lo)
  {
    forall k | 0 <= k < |r|
      ensures s[c + lo..c + lo + |r|][k] == r[k]
    {
      assert r[k] == t[lo + k];
      assert t[lo + k] == s[c + lo + k];
    }
    assert s[c + lo..c + lo + |r|] == r;
  }

  /** `s.find(pat, i)`: the first occurrence of `pat` at or after `i`, or -1. */
  function FindFrom(s: string, pat: string, i: nat): (r: int)
    decreases |s| - i + 1
    ensures r == -1 || (i <= r && OccursAt(s, pat, r))
    ensures r == -1 ==> forall k :: i <= k ==> !OccursAt(s, pat, k)
    ensures r != -1 ==> forall k :: i <= k < r ==> !OccursAt(s, pat, k)
  {
    if i + |pat| > |s| then -1
    else if s[i..i + |pat|] == pat then i
    else FindFrom(s, pat, i + 1)
  }

  /** `s.find(pat)`: the index of the first occurrence of `pat`, -1 when there is none. */
  function Find(s: string, pat: string): (r: int)
    ensures -1 <= r <= |s|
    ensures r >= 0 ==> OccursAt(s, pat, r) && forall k :: 0 <= k < r ==> !OccursAt(s, pat, k)
    ensures r == -1 <==> forall k :: !OccursAt(s, pat, k)
  {
    FindFrom(s, pat, 0)
  }

  /**
   * How Python normalises one bound of a slice over a sequence of length `n`:
   * a negative index is counted from the end once, then the result is clamped to [0, n].
   */
  function ClampIndex(i: int, n: nat): (r: nat)
    ensures r <= n
    ensures 0 <= i <= n ==> r == i
    ensures i < 0 <= n + i ==> r == n + i
    ensures n + i < 0 ==> r == 0
    ensures n < i ==> r == n
  {
    if i < 0 then (if n + i < 0 then 0 else n + i)
    else if i > n then n
    else i
  }

  /** `s[i:j]` in Python: never fails; an empty slice when the normalised bounds cross. */
  function PySlice<T>(s: seq<T>, i: int, j: int): (r: seq<T>)
    ensures ClampIndex(i, |s|) + |r| <= |s|
    ensures r == s[ClampIndex(i, |s|)..ClampIndex(i, |s|) + |r|]
    ensures |r| == if ClampIndex(i, |s|) <= ClampIndex(j, |s|) then ClampIndex(j, |s|) - ClampIndex(i, |s|) else 0
    ensures 0 <= i <= j <= |s| ==> r == s[i..j]
  {
    var lo, hi := ClampIndex(i, |s|), ClampIndex(j, |s|);
    if lo < hi then s[lo..hi] else []
  }

  /**
   * The characters `str.strip()` removes, restricted to ASCII: space,
   * 0x09-0x0d (tab, line feed, vertical tab, form feed, carriage return) and
   * the four separators 0x1c-0x1f, which Python also counts as whitespace.
   */
  predicate IsSpace(c: char)
  {
    c == ' ' || (9 <= c as int <= 13) || (0x1c <= c as int <= 0x1f)
  }

  /** Neither end of `s` is whitespace (the empty string qualifies). */
  predicate NoOuterSpace(s: string)
  {
    s == [] || (!IsSpace(s[0]) && !IsSpace(s[|s| - 1]))
  }

  /** Every character of `s` is whitespace. */
  predicate AllSpace(s: string)
  {
    forall k :: 0 <= k < |s| ==> IsSpace(s[k])
  }

  /** Number of leading whitespace characters of `s`. */
  function LeadingSpace(s: string): (n: nat)
    ensures n <= |s|
    ensures AllSpace(s[..n])
    ensures n < |s| ==> !IsSpace(s[n])
  {
    if s == [] || !IsSpace(s[0]) then 0
    else
      var n := 1 + LeadingSpace(s[1..]);
      assert s[..n] == [s[0]] + s[1..][..n - 1];
      n
  }

  /** Length of `s` without its trailing whitespace. */
  function TrailingStart(s: string): (n: nat)
    ensures n <= |s|
    ensures AllSpace(s[n..])
    ensures 0 < n ==> !IsSpace(s[n - 1])
  {
    if s == [] || !IsSpace(s[|s| - 1]) then |s|
    else
      var init := s[..|s| - 1];
      var n := TrailingStart(init);
      assert s[n..] == init[n..] + [s[|s| - 1]];
      n
  }

  /** `s.strip()` over the whitespace set above. */
  function Strip(s: string): (r: string)
    ensures NoOuterSpace(r)
    ensures r == [] <==> AllSpace(s)
    ensures InfixAt(r, s, LeadingSpace(s))
    ensures AllSpace(s[LeadingSpace(s) + |r|..])
  {
    var lo := LeadingSpace(s);
    if lo == |s| then
      assert s[..lo] == s;
      assert InfixAt([], s, lo);
      []
    else
      var hi := TrailingStart(s);
      assert lo < hi;
      var r := s[lo..hi];
      assert !AllSpace(s) by { assert !IsSpace(s[lo]); }
      assert InfixAt(r, s, lo);
      r
  }

  /** Stripping a slice yields a piece of the sliced string, right after the slice's leading whitespace. */
  lemma StripSliceIsInfix(s: string, i: int, j: int)
    ensures InfixAt(Strip(PySlice(s, i, j)), s, ClampIndex(i, |s|) + LeadingSpace(PySlice(s, i, j)))
  {
    var t := PySlice(s, i, j);
    InfixShift(s, t, ClampIndex(i, |s|), Strip(t), LeadingSpace(t));
  }

  /** A negative stop index counts from the end of the sequence. */
  lemma NegativeStop<T>(s: seq<T>, i: int, j: int)
    requires -|s| <= j < 0
    ensures PySlice(s, i, j) == PySlice(s, i, |s| + j)
  {
    assert ClampIndex(j, |s|) == ClampIndex(|s| + j, |s|);
  }

  /** Stripping a slice of `s` always yields a substring of `s`. */
  lemma StripSliceSubstring(s: string, i: int, j: int)
    ensures exists lo :: InfixAt(Strip(PySlice(s, i, j)), s, lo)
  {
    StripSliceIsInfix(s, i, j);
  }

  /** Within bounds, the stripped Python slice is the stripped subsequence. */
  lemma SliceInRange(s: string, i: int, j: int)
    requires 0 <= i <= j <= |s|
    ensures Strip(PySlice(s, i, j)) == Strip(s[i..j])
  {
    assert PySlice(s, i, j) == s[i..j];
  }

  /** Stripping a string that has no outer whitespace leaves it as it is. */
  lemma StripTrimmed(s: string)
    requires NoOuterSpace(s)
    ensures Strip(s) == s
  {
    if s != [] {
      assert LeadingSpace(s) == 0;
      assert TrailingStart(s) == |s|;
    }
  }

  /** `strip()` is idempotent. */
  lemma StripIdempotent(s: string)
    ensures Strip(Strip(s)) == Strip(s)
  {
    StripTrimmed(Strip(s));
  }

  /** `str.lower()` on one character, ASCII letters only. */
  function LowerChar(c: char): char
  {
    if 'A' <= c <= 'Z' then (c as int + 32) as char else c
  }

  /** `s.lower()` restricted to ASCII letters. */
  function Lower(s: string): (r: string)
    ensures |r| == |s|
    ensures forall k :: 0 <= k < |s| ==> r[k] == LowerChar(s[k])
  {
    if s == [] then [] else [LowerChar(s[0])] + Lower(s[1..])
  }
}
