/** The ordering of pandas' `sort_values` over up to four columns: ascending, missing values (NaN)
    after every present one in each column, ties kept in their original order. */
module Sorting {
  import opened Wrappers
  import Strings

  /** The sort columns of one row: two weights and a parent path that may be missing, then a path. */
  datatype SortKey = SortKey(first: Option<real>, second: Option<string>, third: Option<real>, fourth: string)

  /** `a` sorts strictly before `b` in a numeric column. */
  predicate RealBefore(a: Option<real>, b: Option<real>) {
    a.Some? && (b.None? || a.value < b.value)
  }

  /** `a` sorts strictly before `b` in a string column. */
  predicate StringBefore(a: Option<string>, b: Option<string>) {
    a.Some? && (b.None? || Strings.Less(a.value, b.value))
  }

  /** Lexicographic order on the four columns. */
  predicate KeyLessEq(a: SortKey, b: SortKey) {
    || RealBefore(a.first, b.first)
    || (a.first == b.first && StringBefore(a.second, b.second))
    || (a.first == b.first && a.second == b.second && RealBefore(a.third, b.third))
    || (a.first == b.first && a.second == b.second && a.third == b.third && Strings.LessEq(a.fourth, b.fourth))
  }

  lemma StringBeforeTrichotomy(a: Option<string>, b: Option<string>)
    ensures StringBefore(a, b) || a == b || StringBefore(b, a)
  {
    if a.Some? && b.Some? && a != b {
      Strings.LessEqTotal(a.value, b.value);
    }
  }

  lemma StringBeforeTransitive(a: Option<string>, b: Option<string>, c: Option<string>)
    requires StringBefore(a, b) && StringBefore(b, c)
    ensures StringBefore(a, c)
  {
    if c.Some? {
      Strings.LessEqTransitive(a.value, b.value, c.value);
      if a.value == c.value {
        Strings.LessEqAntisymmetric(a.value, b.value);
      }
    }
  }

  lemma StringBeforeAsymmetric(a: Option<string>, b: Option<string>)
    requires StringBefore(a, b)
    ensures !StringBefore(b, a)
  {
    if b.Some? && StringBefore(b, a) {
      Strings.LessEqAntisymmetric(a.value, b.value);
    }
  }

  lemma KeyLessEqTotal(a: SortKey, b: SortKey)
    ensures KeyLessEq(a, b) || KeyLessEq(b, a)
  {
    StringBeforeTrichotomy(a.second, b.second);
    Strings.LessEqTotal(a.fourth, b.fourth);
  }

  lemma KeyLessEqReflexive(a: SortKey)
    ensures KeyLessEq(a, a)
  {
    Strings.LessEqTotal(a.fourth, a.fourth);
  }

  lemma KeyLessEqTransitive(a: SortKey, b: SortKey, c: SortKey)
    requires KeyLessEq(a, b) && KeyLessEq(b, c)
    ensures KeyLessEq(a, c)
  {
    if a.first == b.first == c.first {
      if StringBefore(a.second, b.second) && StringBefore(b.second, c.second) {
        StringBeforeTransitive(a.second, b.second, c.second);
      }
      if a.second == b.second == c.second && a.third == b.third == c.third {
        Strings.LessEqTransitive(a.fourth, b.fourth, c.fourth);
      }
    }
  }

  lemma KeyLessEqAntisymmetric(a: SortKey, b: SortKey)
    requires KeyLessEq(a, b) && KeyLessEq(b, a)
    ensures a == b
  {
    if a.first == b.first && StringBefore(a.second, b.second) {
      StringBeforeAsymmetric(a.second, b.second);
    }
    if a.first == b.first && StringBefore(b.second, a.second) {
      StringBeforeAsymmetric(b.second, a.second);
    }
    if a.first == b.first && a.second == b.second && a.third == b.third {
      Strings.LessEqAntisymmetric(a.fourth, b.fourth);
    }
  }

  predicate Sorted<T>(s: seq<T>, key: T -> SortKey) {
    forall i, j | 0 <= i < j < |s| :: KeyLessEq(key(s[i]), key(s[j]))
  }

  /** Insert `x` after every element whose key is not above its own. */
  function Insert<T>(x: T, s: seq<T>, key: T -> SortKey): (r: seq<T>)
    requires Sorted(s, key)
    ensures Sorted(r, key)
    ensures multiset(r) == multiset(s) + multiset{x}
  {
    if s == [] then [x]
    else if !KeyLessEq(key(s[0]), key(x)) then
      InsertFront(x, s, key);
      [x] + s
    else
      var rest := Insert(x, s[1..], key);
      InsertPast(x, s, rest, key);
      [s[0]] + rest
  }

  /** `x` in front of a list whose keys are all above its own keeps it sorted. */
  lemma InsertFront<T>(x: T, s: seq<T>, key: T -> SortKey)
    requires Sorted(s, key) && s != [] && !KeyLessEq(key(s[0]), key(x))
    ensures Sorted([x] + s, key)
  {
    KeyLessEqTotal(key(s[0]), key(x));
    forall j | 0 <= j < |s|
      ensures KeyLessEq(key(x), key(s[j]))
    {
      if j > 0 {
        KeyLessEqTransitive(key(x), key(s[0]), key(s[j]));
      }
    }
    forall i, j | 0 <= i < j < |s| + 1
      ensures KeyLessEq(key(([x] + s)[i]), key(([x] + s)[j]))
    {
      if i > 0 {
        assert ([x] + s)[i] == s[i - 1] && ([x] + s)[j] == s[j - 1];
      } else {
        assert ([x] + s)[j] == s[j - 1];
      }
    }
  }

  /** The first element in front of the insertion into the rest keeps the order and the elements. */
  lemma InsertPast<T>(x: T, s: seq<T>, rest: seq<T>, key: T -> SortKey)
    requires Sorted(s, key) && s != [] && KeyLessEq(key(s[0]), key(x))
    requires Sorted(rest, key) && multiset(rest) == multiset(s[1..]) + multiset{x}
    ensures Sorted([s[0]] + rest, key)
    ensures multiset([s[0]] + rest) == multiset(s) + multiset{x}
  {
    forall j | 0 <= j < |rest|
      ensures KeyLessEq(key(s[0]), key(rest[j]))
    {
      assert rest[j] in multiset(rest);
      if rest[j] != x {
        assert rest[j] in s[1..];
      }
    }
    forall i, j | 0 <= i < j < |rest| + 1
      ensures KeyLessEq(key(([s[0]] + rest)[i]), key(([s[0]] + rest)[j]))
    {
      if i > 0 {
        assert ([s[0]] + rest)[i] == rest[i - 1];
      }
      assert ([s[0]] + rest)[j] == rest[j - 1];
    }
    assert s == [s[0]] + s[1..];
  }

  /** Stable insertion sort. */
  function SortBy<T>(s: seq<T>, key: T -> SortKey): (r: seq<T>)
    ensures Sorted(r, key)
    ensures multiset(r) == multiset(s)
  {
    if s == [] then []
    else
      assert s == s[..|s| - 1] + [s[|s| - 1]];
      Insert(s[|s| - 1], SortBy(s[..|s| - 1], key), key)
  }

  /** The elements of `s` whose key is `k`, in order. */
  function WithKey<T>(s: seq<T>, key: T -> SortKey, k: SortKey): seq<T> {
    if s == [] then []
    else (if key(s[0]) == k then [s[0]] else []) + WithKey(s[1..], key, k)
  }

  lemma {:induction false} WithKeyConcat<T>(a: seq<T>, b: seq<T>, key: T -> SortKey, k: SortKey)
    ensures WithKey(a + b, key, k) == WithKey(a, key, k) + WithKey(b, key, k)
  {
    if a == [] {
      assert a + b == b;
    } else {
      assert (a + b)[1..] == a[1..] + b;
      WithKeyConcat(a[1..], b, key, k);
      var head := if key(a[0]) == k then [a[0]] else [];
      assert WithKey(a + b, key, k) == head + (WithKey(a[1..], key, k) + WithKey(b, key, k));
      assert head + (WithKey(a[1..], key, k) + WithKey(b, key, k)) == (head + WithKey(a[1..], key, k)) + WithKey(b, key, k);
    }
  }

  lemma {:induction false} WithKeyNone<T>(s: seq<T>, key: T -> SortKey, k: SortKey)
    requires forall i | 0 <= i < |s| :: key(s[i]) != k
    ensures WithKey(s, key, k) == []
  {
    if s != [] {
      WithKeyNone(s[1..], key, k);
    }
  }

  lemma {:induction false} InsertStable<T>(x: T, s: seq<T>, key: T -> SortKey, k: SortKey)
    requires Sorted(s, key)
    ensures WithKey(Insert(x, s, key), key, k) == WithKey(s, key, k) + (if key(x) == k then [x] else [])
  {
    if s == [] {
    } else if !KeyLessEq(key(s[0]), key(x)) {
      assert Insert(x, s, key) == [x] + s;
      if key(x) == k {
        forall i | 0 <= i < |s|
          ensures key(s[i]) != k
        {
          if i == 0 {
            KeyLessEqReflexive(key(s[0]));
          } else {
            assert KeyLessEq(key(s[0]), key(s[i]));
          }
        }
        WithKeyNone(s, key, k);
      }
      assert ([x] + s)[1..] == s;
    } else {
      var rest := Insert(x, s[1..], key);
      assert Insert(x, s, key) == [s[0]] + rest;
      InsertStable(x, s[1..], key, k);
      assert ([s[0]] + rest)[1..] == rest;
    }
  }

  /** Sorting keeps the relative order of rows with equal keys. */
  lemma {:induction false} SortByStable<T>(s: seq<T>, key: T -> SortKey, k: SortKey)
    ensures WithKey(SortBy(s, key), key, k) == WithKey(s, key, k)
  {
    if s != [] {
      var init, x := s[..|s| - 1], s[|s| - 1];
      assert s == init + [x];
      var tail := if key(x) == k then [x] else [];
      SortByStable(init, key, k);
      InsertStable(x, SortBy(init, key), key, k);
      assert SortBy(s, key) == Insert(x, SortBy(init, key), key);
      WithKeyConcat(init, [x], key, k);
      assert WithKey([x], key, k) == tail by {
        assert WithKey([x], key, k) == tail + WithKey([], key, k);
      }
    }
  }

  /** When no two elements share a key, there is only one sorted order of a set of distinct
      elements. */
  lemma {:induction false} SortedUnique<T>(a: seq<T>, b: seq<T>, key: T -> SortKey)
    requires Sorted(a, key) && Sorted(b, key)
    requires forall x :: x in a <==> x in b
    requires forall i, j | 0 <= i < j < |a| :: a[i] != a[j]
    requires forall i, j | 0 <= i < j < |b| :: b[i] != b[j]
    requires forall x, y | x in a && y in a && key(x) == key(y) :: x == y
    ensures a == b
    decreases |a|
  {
    SameElementsEmpty(a, b);
    if a != [] {
      LeastAgree(a, b, key);
      SameTails(a, b);
      SortedUnique(a[1..], b[1..], key);
      assert a == [a[0]] + a[1..] && b == [b[0]] + b[1..];
    }
  }

  /** Without repeats, the same elements after the same first one. */
  lemma SameTails<T>(a: seq<T>, b: seq<T>)
    requires a != [] && b != [] && a[0] == b[0]
    requires forall x :: x in a <==> x in b
    requires forall i, j | 0 <= i < j < |a| :: a[i] != a[j]
    requires forall i, j | 0 <= i < j < |b| :: b[i] != b[j]
    ensures forall x :: x in a[1..] <==> x in b[1..]
  {
    var ra, rb := a[1..], b[1..];
    forall x
      ensures x in ra <==> x in rb
    {
      if x in ra {
        var i :| 0 <= i < |ra| && ra[i] == x;
        assert a[i + 1] == x;
        assert x in a && x in b;
        var k :| 0 <= k < |b| && b[k] == x;
        assert k != 0;
        assert rb[k - 1] == x;
      }
      if x in rb {
        var k :| 0 <= k < |rb| && rb[k] == x;
        assert b[k + 1] == x;
        assert x in b && x in a;
        var i :| 0 <= i < |a| && a[i] == x;
        assert i != 0;
        assert ra[i - 1] == x;
      }
    }
  }

  /** Sequences with the same elements are empty together. */
  lemma SameElementsEmpty<T>(a: seq<T>, b: seq<T>)
    requires forall x :: x in a <==> x in b
    ensures a == [] <==> b == []
  {
    if a != [] {
      assert a[0] in b;
    }
    if b != [] {
      assert b[0] in a;
    }
  }

  /** The first elements of two such orders are the same least element. */
  lemma LeastAgree<T>(a: seq<T>, b: seq<T>, key: T -> SortKey)
    requires a != [] && b != []
    requires Sorted(a, key) && Sorted(b, key)
    requires forall x :: x in a <==> x in b
    requires forall x, y | x in a && y in a && key(x) == key(y) :: x == y
    ensures a[0] == b[0]
  {
    if a[0] != b[0] {
      assert a[0] in b && b[0] in a;
      var k :| 0 <= k < |b| && b[k] == a[0];
      var l :| 0 <= l < |a| && a[l] == b[0];
      assert KeyLessEq(key(b[0]), key(b[k]));
      assert KeyLessEq(key(a[0]), key(a[l]));
      KeyLessEqAntisymmetric(key(a[0]), key(b[0]));
      assert false;
    }
  }
}
