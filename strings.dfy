/**
 * The few Python `str` operations the two scripts rely on, over Dafny strings:
 * `startswith`, `endswith`, `in`, `replace`, `split('/')[-1]` and `strip()`.
 */
module Strings {
  import opened Wrappers

  /** Python `s.startswith(p)`. */
  predicate StartsWith(s: string, p: string) {
    |p| <= |s| && s[..|p|] == p
  }

  /** Python `s.endswith(p)`. */
  predicate EndsWith(s: string, p: string) {
    |p| <= |s| && s[|s| - |p|..] == p
  }

  /** `pat` occurs in `s` starting at index `i`. */
  predicate OccursAt(s: string, pat: string, i: nat) {
    i + |pat| <= |s| && s[i..i + |pat|] == pat
  }

  /** Python `pat in s`. */
  predicate Contains(s: string, pat: string) {
    exists i: nat | i <= |s| :: OccursAt(s, pat, i)
  }

  lemma OccursAtTail(s: string, pat: string, k: nat)
    requires |s| > 0
    ensures OccursAt(s, pat, k + 1) <==> OccursAt(s[1..], pat, k)
  {
    if k + 1 + |pat| <= |s| {
      assert s[1..][k..k + |pat|] == s[k + 1..k + 1 + |pat|];
    }
  }

  /** Past a position where `pat` does not start, the occurrences are those of the tail, shifted by one. */
  lemma OccursInTail(s: string, pat: string)
    requires |s| > 0 && !OccursAt(s, pat, 0)
    ensures forall j: nat :: 0 < j ==> (OccursAt(s, pat, j) <==> OccursAt(s[1..], pat, j - 1))
    ensures Contains(s, pat) <==> Contains(s[1..], pat)
  {
    forall j: nat | 0 < j ensures OccursAt(s, pat, j) <==> OccursAt(s[1..], pat, j - 1) {
      OccursAtTail(s, pat, j - 1);
    }
    if Contains(s[1..], pat) {
      var k: nat :| k <= |s[1..]| && OccursAt(s[1..], pat, k);
      assert OccursAt(s, pat, k + 1);
    }
  }

  /**
   * Python `s.replace(pat, rep)` for a non-empty `pat`: every occurrence, found
   * left to right and never overlapping the previous one, is replaced by `rep`.
   */
  function ReplaceAll(s: string, pat: string, rep: string): string
    requires |pat| > 0
    decreases |s|
  {
    if |s| < |pat| then s
    else
      var hit := StartsWith(s, pat);
      (if hit then rep else [s[0]]) + ReplaceAll(s[if hit then |pat| else 1..], pat, rep)
  }

  /** The two ways a scan step of ReplaceAll goes. */
  lemma ReplaceAllStep(s: string, pat: string, rep: string)
    requires |pat| > 0 && |pat| <= |s|
    ensures StartsWith(s, pat) ==> ReplaceAll(s, pat, rep) == rep + ReplaceAll(s[|pat|..], pat, rep)
    ensures !StartsWith(s, pat) ==> ReplaceAll(s, pat, rep) == [s[0]] + ReplaceAll(s[1..], pat, rep)
  {
  }

  /** A string in which `pat` does not occur is returned unchanged. */
  lemma {:induction false} ReplaceAllAbsent(s: string, pat: string, rep: string)
    requires |pat| > 0
    requires !Contains(s, pat)
    ensures ReplaceAll(s, pat, rep) == s
    decreases |s|
  {
    if |s| >= |pat| {
      assert !OccursAt(s, pat, 0);
      forall k: nat ensures !OccursAt(s[1..], pat, k) {
        OccursAtTail(s, pat, k);
      }
      ReplaceAllAbsent(s[1..], pat, rep);
      assert s == [s[0]] + s[1..];
    }
  }

  /** `i` is the position of the leftmost occurrence of `pat` in `s` (what Python's `s.find(pat)` returns). */
  predicate IsFirstOccurrence(s: string, pat: string, i: nat) {
    OccursAt(s, pat, i) && forall j: nat :: j < i ==> !OccursAt(s, pat, j)
  }

  /**
   * The leftmost occurrence is replaced, the text before it is kept, and the
   * scan resumes right after the occurrence.
   */
  lemma ReplaceAllFirst(s: string, pat: string, rep: string, i: nat)
    requires |pat| > 0
    requires IsFirstOccurrence(s, pat, i)
    ensures ReplaceAll(s, pat, rep) == s[..i] + rep + ReplaceAll(s[i + |pat|..], pat, rep)
  {
    ReplaceAllFrom(s, pat, rep, i, 0);
    assert s[0..] == s && s[0..i] == s[..i];
  }

  /** ReplaceAllFirst for the suffix that starts at `k`, at or before the first occurrence. */
  lemma {:induction false} ReplaceAllFrom(s: string, pat: string, rep: string, i: nat, k: nat)
    requires |pat| > 0 && IsFirstOccurrence(s, pat, i) && k <= i
    ensures ReplaceAll(s[k..], pat, rep) == s[k..i] + rep + ReplaceAll(s[i + |pat|..], pat, rep)
    decreases i - k
  {
    OccursAtSuffix(s, pat, k);
    ReplaceAllStep(s[k..], pat, rep);
    if k == i {
      assert s[k..][|pat|..] == s[i + |pat|..];
      Prefix0(ReplaceAll(s[k..], pat, rep), rep, ReplaceAll(s[i + |pat|..], pat, rep), s[k..i]);
    } else {
      assert !OccursAt(s, pat, k);
      ReplaceAllFrom(s, pat, rep, i, k + 1);
      assert s[k..][1..] == s[k + 1..];
      ConsSlice(s, k, i);
      Regroup(ReplaceAll(s[k..], pat, rep), s[k], ReplaceAll(s[k + 1..], pat, rep), s[k + 1..i], rep,
              ReplaceAll(s[i + |pat|..], pat, rep), s[k..i]);
    }
  }

  lemma OccursAtSuffix(s: string, pat: string, k: nat)
    requires k <= |s|
    ensures OccursAt(s, pat, k) <==> StartsWith(s[k..], pat)
    ensures OccursAt(s, pat, k) ==> |pat| <= |s[k..]|
  {
    if k + |pat| <= |s| {
      assert s[k..][..|pat|] == s[k..k + |pat|];
    }
  }

  lemma ConsSlice(s: string, k: nat, i: nat)
    requires k < i <= |s|
    ensures [s[k]] + s[k + 1..i] == s[k..i]
  {
  }

  lemma Prefix0(x: string, r: string, z: string, e: string)
    requires x == r + z && e == []
    ensures x == e + r + z
  {
  }

  lemma Regroup(x: string, c: char, y: string, h: string, r: string, z: string, p: string)
    requires x == [c] + y && y == h + r + z && [c] + h == p
    ensures x == p + r + z
  {
  }

  /** Replacing by something no longer never lengthens the string, and shortens it when `pat` occurs. */
  lemma {:induction false} ReplaceAllLength(s: string, pat: string, rep: string)
    requires |pat| > 0 && |rep| <= |pat|
    ensures |ReplaceAll(s, pat, rep)| <= |s|
    ensures |rep| < |pat| && Contains(s, pat) ==> |ReplaceAll(s, pat, rep)| < |s|
    decreases |s|
  {
    if |s| >= |pat| {
      if StartsWith(s, pat) {
        ReplaceAllLength(s[|pat|..], pat, rep);
      } else {
        ReplaceAllLength(s[1..], pat, rep);
        OccursInTail(s, pat);
      }
    }
  }

  /** Python `s.split('/')[-1]`: the text after the last `/`, or all of `s` without one. */
  function LastSegment(s: string): (r: string)
    ensures '/' !in r
    ensures EndsWith(s, r)
    ensures |r| < |s| ==> s[|s| - |r| - 1] == '/'
    decreases |s|
  {
    if s == [] then []
    else if s[|s| - 1] == '/' then []
    else LastSegment(s[..|s| - 1]) + [s[|s| - 1]]
  }

  /**
   * The last segment has no `.` exactly when every `.` of `s` is followed,
   * somewhere later, by a `/`.
   */
  lemma NoDotInLastSegment(s: string)
    ensures '.' !in LastSegment(s) <==>
            forall i :: 0 <= i < |s| && s[i] == '.' ==> '/' in s[i + 1..]
  {
    var r := LastSegment(s);
    if '.' !in r {
      forall i | 0 <= i < |s| && s[i] == '.' ensures '/' in s[i + 1..] {
        DotBeforeLastSegment(s, i);
      }
    } else {
      var k :| 0 <= k < |r| && r[k] == '.';
      DotInLastSegment(s, k);
    }
  }

  lemma DotBeforeLastSegment(s: string, i: nat)
    requires i < |s| && s[i] == '.' && '.' !in LastSegment(s)
    ensures '/' in s[i + 1..]
  {
    var r := LastSegment(s);
    var b := |s| - |r|;
    assert s[i + 1..][b - 1 - (i + 1)] == s[b - 1];
  }

  lemma DotInLastSegment(s: string, k: nat)
    requires k < |LastSegment(s)| && LastSegment(s)[k] == '.'
    ensures var i := |s| - |LastSegment(s)| + k; s[i] == '.' && '/' !in s[i + 1..]
  {
    var r := LastSegment(s);
    var i := |s| - |r| + k;
    assert s[i + 1..] == r[k + 1..];
  }

  /** Whitespace as Python's `str.strip()` sees it, restricted to the ASCII and Latin-1 range. */
  predicate IsSpace(c: char) {
    var n := c as int;
    (9 <= n <= 13) || (28 <= n <= 32) || n == 0x85 || n == 0xA0
  }

  function TrimStart(s: string): (r: string)
    ensures |r| <= |s| && r == s[|s| - |r|..]
    ensures forall i :: 0 <= i < |s| - |r| ==> IsSpace(s[i])
    ensures r == [] || !IsSpace(r[0])
    decreases |s|
  {
    if s != [] && IsSpace(s[0]) then TrimStart(s[1..]) else s
  }

  function TrimEnd(s: string): (r: string)
    ensures |r| <= |s| && r == s[..|r|]
    ensures forall i :: |r| <= i < |s| ==> IsSpace(s[i])
    ensures r == [] || !IsSpace(r[|r| - 1])
    decreases |s|
  {
    if s != [] && IsSpace(s[|s| - 1]) then TrimEnd(s[..|s| - 1]) else s
  }

  /** Python `s.strip()`. */
  function Strip(s: string): string {
    TrimEnd(TrimStart(s))
  }

  lemma StripIsSlice(s: string) returns (i: nat, j: nat)
    ensures i <= j <= |s| && Strip(s) == s[i..j]
    ensures forall k :: 0 <= k < i ==> IsSpace(s[k])
    ensures forall k :: j <= k < |s| ==> IsSpace(s[k])
  {
    var t := TrimStart(s);
    i := |s| - |t|;
    j := i + |TrimEnd(t)|;
    forall k | j <= k < |s| ensures IsSpace(s[k]) {
      assert s[k] == t[k - i];
    }
  }

  /**
   * Stripping whitespace never changes whether a pattern occurs, as long as the
   * pattern neither starts nor ends with whitespace.
   */
  lemma {:induction false} ContainsStrip(s: string, pat: string)
    requires |pat| > 0 && !IsSpace(pat[0]) && !IsSpace(pat[|pat| - 1])
    ensures Contains(Strip(s), pat) <==> Contains(s, pat)
  {
    var i, j := StripIsSlice(s);
    if Contains(s, pat) {
      var k: nat :| k <= |s| && OccursAt(s, pat, k);
      OccurrenceInsideTrim(s, pat, k, i, j);
      assert k - i <= |s[i..j]|;
    }
    if Contains(s[i..j], pat) {
      var k: nat :| k <= |s[i..j]| && OccursAt(s[i..j], pat, k);
      OccurrenceOfSlice(s, pat, k, i, j);
    }
  }

  /** An occurrence of a pattern with non-blank ends lies inside the blank-free middle `s[i..j]`. */
  lemma OccurrenceInsideTrim(s: string, pat: string, k: nat, i: nat, j: nat)
    requires |pat| > 0 && !IsSpace(pat[0]) && !IsSpace(pat[|pat| - 1])
    requires i <= j <= |s|
    requires forall n :: 0 <= n < i ==> IsSpace(s[n])
    requires forall n :: j <= n < |s| ==> IsSpace(s[n])
    requires OccursAt(s, pat, k)
    ensures i <= k && OccursAt(s[i..j], pat, k - i)
  {
    assert s[k] == s[k..k + |pat|][0];
    assert s[k + |pat| - 1] == s[k..k + |pat|][|pat| - 1];
    assert i <= k && k + |pat| <= j;
    var t := s[i..j];
    assert forall m :: 0 <= m < |t| ==> t[m] == s[i + m];
    assert t[k - i..k - i + |pat|] == s[k..k + |pat|];
  }

  lemma OccurrenceOfSlice(s: string, pat: string, k: nat, i: nat, j: nat)
    requires i <= j <= |s|
    requires OccursAt(s[i..j], pat, k)
    ensures OccursAt(s, pat, i + k)
  {
    var t := s[i..j];
    assert forall m :: 0 <= m < |t| ==> t[m] == s[i + m];
    assert s[i + k..i + k + |pat|] == t[k..k + |pat|];
  }
}
