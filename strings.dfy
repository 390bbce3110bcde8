/** The few operations of Python's `str` the report relies on, over strings as sequences of characters. */
module Strings {

  /** `pat` occurs in `s` starting at index `i`. */
  predicate OccursAt(s: string, pat: string, i: int) {
    0 <= i && i + |pat| <= |s| && s[i..i + |pat|] == pat
  }

  /** Python's `pat in s` for two strings: a substring test (the empty string is in every string). */
  predicate Contains(s: string, pat: string) {
    exists i :: 0 <= i <= |s| - |pat| && OccursAt(s, pat, i)
  }

  /** Python's `s.replace(pat, rep)`: scan from the left and replace every non-overlapping occurrence. */
  function ReplaceAll(s: string, pat: string, rep: string): (r: string)
    requires pat != []
    decreases |s|
  {
    if |s| < |pat| then s
    else if s[..|pat|] == pat then rep + ReplaceAll(s[|pat|..], pat, rep)
    else [s[0]] + ReplaceAll(s[1..], pat, rep)
  }

  /** A string without an occurrence of the pattern is left as it is. */
  lemma {:induction false} ReplaceAllAbsent(s: string, pat: string, rep: string)
    requires pat != []
    requires !Contains(s, pat)
    ensures ReplaceAll(s, pat, rep) == s
    decreases |s|
  {
    if |s| >= |pat| {
      assert !OccursAt(s, pat, 0);
      assert s[..|pat|] != pat;
      forall i | 0 <= i <= |s[1..]| - |pat|
        ensures !OccursAt(s[1..], pat, i)
      {
        assert !OccursAt(s, pat, i + 1);
        assert s[1..][i..i + |pat|] == s[i + 1..i + 1 + |pat|];
      }
      ReplaceAllAbsent(s[1..], pat, rep);
      assert [s[0]] + s[1..] == s;
    }
  }

  /** The leftmost occurrence is replaced and the scan resumes just after it:
      with ReplaceAllAbsent this pins down Python's left-to-right, non-overlapping replacement. */
  lemma {:induction false} ReplaceAllLeftmost(s: string, pat: string, rep: string, k: nat)
    requires pat != []
    requires OccursAt(s, pat, k)
    requires forall i :: 0 <= i < k ==> !OccursAt(s, pat, i)
    ensures ReplaceAll(s, pat, rep) == s[..k] + rep + ReplaceAll(s[k + |pat|..], pat, rep)
    decreases k
  {
    if k == 0 {
      LeftmostAtStart(s, pat, rep);
    } else {
      ShiftOccurrences(s, pat, k);
      ReplaceAllLeftmost(s[1..], pat, rep, k - 1);
      LeftmostStep(s, pat, rep, k);
    }
  }

  /** An occurrence at the start is replaced first. */
  lemma LeftmostAtStart(s: string, pat: string, rep: string)
    requires pat != [] && OccursAt(s, pat, 0)
    ensures ReplaceAll(s, pat, rep) == s[..0] + rep + ReplaceAll(s[|pat|..], pat, rep)
  {
    assert s[..|pat|] == pat;
    assert ReplaceAll(s, pat, rep) == rep + ReplaceAll(s[|pat|..], pat, rep);
    assert s[..0] + rep == rep;
  }

  /** One step of the scan before the leftmost occurrence: the first character is kept. */
  lemma LeftmostStep(s: string, pat: string, rep: string, k: nat)
    requires pat != [] && 0 < k && k + |pat| <= |s| && s[..|pat|] != pat
    requires ReplaceAll(s[1..], pat, rep) == s[1..][..k - 1] + rep + ReplaceAll(s[1..][k - 1 + |pat|..], pat, rep)
    ensures ReplaceAll(s, pat, rep) == s[..k] + rep + ReplaceAll(s[k + |pat|..], pat, rep)
  {
    var head, tail := s[1..][..k - 1], ReplaceAll(s[k + |pat|..], pat, rep);
    assert s[1..][k - 1 + |pat|..] == s[k + |pat|..];
    assert ReplaceAll(s, pat, rep) == [s[0]] + (head + rep + tail);
    assert [s[0]] + head == s[..k];
    ConcatAssociative([s[0]], head, rep, tail);
  }

  lemma ConcatAssociative<T>(a: seq<T>, b: seq<T>, c: seq<T>, d: seq<T>)
    ensures a + (b + c + d) == (a + b) + c + d
  {
  }

  /** Dropping the first character moves every occurrence one place to the left. */
  lemma ShiftOccurrences(s: string, pat: string, k: nat)
    requires 0 < k && OccursAt(s, pat, k)
    requires forall i :: 0 <= i < k ==> !OccursAt(s, pat, i)
    ensures |s| >= |pat| && s[..|pat|] != pat
    ensures OccursAt(s[1..], pat, k - 1)
    ensures forall i :: 0 <= i < k - 1 ==> !OccursAt(s[1..], pat, i)
  {
    assert !OccursAt(s, pat, 0);
    assert s[1..][k - 1..k - 1 + |pat|] == s[k..k + |pat|];
    forall i | 0 <= i < k - 1
      ensures !OccursAt(s[1..], pat, i)
    {
      assert !OccursAt(s, pat, i + 1);
      assert s[1..][i..i + |pat|] == s[i + 1..i + 1 + |pat|];
    }
  }

  /** The last field of Python's `s.split(sep)` for a one-character separator:
      the longest suffix of `s` that holds no `sep`. */
  function AfterLast(s: string, sep: char): string {
    if s == [] then []
    else if s[|s| - 1] == sep then []
    else AfterLast(s[..|s| - 1], sep) + [s[|s| - 1]]
  }

  /** What `AfterLast` answers is the longest suffix without the separator: a suffix, free of the
      separator, and either all of `s` or preceded by the separator. */
  lemma {:induction false} AfterLastSuffix(s: string, sep: char)
    ensures var r := AfterLast(s, sep);
      && |r| <= |s| && r == s[|s| - |r|..]
      && sep !in r
      && (|r| < |s| ==> s[|s| - |r| - 1] == sep)
  {
    if s != [] && s[|s| - 1] != sep {
      var init := s[..|s| - 1];
      AfterLastSuffix(init, sep);
      var r0 := AfterLast(init, sep);
      assert AfterLast(s, sep) == r0 + [s[|s| - 1]];
      assert init[|init| - |r0|..] + [s[|s| - 1]] == s[|s| - |r0| - 1..];
    }
  }

  /** The part after a separator that is followed by no other is what `AfterLast` answers. */
  lemma {:induction false} AfterLastAppend(prefix: string, sep: char, name: string)
    requires sep !in name
    ensures AfterLast(prefix + [sep] + name, sep) == name
    decreases |name|
  {
    var s := prefix + [sep] + name;
    if name == [] {
      assert s[|s| - 1] == sep;
    } else {
      var last := |name| - 1;
      assert s[..|s| - 1] == prefix + [sep] + name[..last];
      assert s[|s| - 1] == name[last];
      AfterLastAppend(prefix, sep, name[..last]);
      assert name[..last] + [name[last]] == name;
    }
  }

  /** Python's ordering of strings: lexicographic by code point, a proper prefix first. */
  predicate LessEq(a: string, b: string) {
    a == [] || (b != [] && (a[0] < b[0] || (a[0] == b[0] && LessEq(a[1..], b[1..]))))
  }

  predicate Less(a: string, b: string) {
    LessEq(a, b) && a != b
  }

  lemma {:induction false} LessEqTotal(a: string, b: string)
    ensures LessEq(a, b) || LessEq(b, a)
  {
    if a != [] && b != [] && a[0] == b[0] {
      LessEqTotal(a[1..], b[1..]);
    }
  }

  lemma {:induction false} LessEqAntisymmetric(a: string, b: string)
    requires LessEq(a, b) && LessEq(b, a)
    ensures a == b
  {
    if a != [] && b != [] {
      LessEqAntisymmetric(a[1..], b[1..]);
      assert a == [a[0]] + a[1..];
      assert b == [b[0]] + b[1..];
    }
  }

  lemma {:induction false} LessEqTransitive(a: string, b: string, c: string)
    requires LessEq(a, b) && LessEq(b, c)
    ensures LessEq(a, c)
  {
    if a != [] && a[0] == b[0] && b[0] == c[0] {
      LessEqTransitive(a[1..], b[1..], c[1..]);
    }
  }
}
