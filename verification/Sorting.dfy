/** Stable sorting by an integer key: the meaning given to the source's calls of sort and sort_by_key. */
module Sorting {
  import opened Base

  /** The order of paths, given from outside. */
  type PathOrder = (bytes, bytes) -> bool

  ghost predicate TotalOrder(before: PathOrder) {
    && (forall p, q :: p != q ==> before(p, q) || before(q, p))
    && (forall p :: !before(p, p))
    && (forall p, q, r :: before(p, q) && before(q, r) ==> before(p, r))
  }

  function Insert<T(!new)>(x: T, s: seq<T>, key: T -> int): (r: seq<T>)
    ensures |r| == |s| + 1
    ensures forall y :: y in r <==> y == x || y in s
  {
    if s == [] || key(x) <= key(s[0]) then [x] + s
    else
      assert forall y :: y in s <==> y == s[0] || y in s[1..];
      [s[0]] + Insert(x, s[1..], key)
  }

  function SortBy<T(!new)>(s: seq<T>, key: T -> int): (r: seq<T>)
    ensures |r| == |s|
    ensures forall y :: y in r <==> y in s
  {
    if s == [] then []
    else
      assert forall y :: y in s <==> y == s[0] || y in s[1..];
      Insert(s[0], SortBy(s[1..], key), key)
  }

  ghost predicate SortedBy<T(!new)>(s: seq<T>, key: T -> int) {
    forall i, j :: 0 <= i < j < |s| ==> key(s[i]) <= key(s[j])
  }

  lemma {:induction false} InsertSorted<T(!new)>(x: T, s: seq<T>, key: T -> int)
    requires SortedBy(s, key)
    ensures SortedBy(Insert(x, s, key), key)
  {
    if s != [] && key(x) > key(s[0]) {
      InsertSorted(x, s[1..], key);
      var rest := Insert(x, s[1..], key);
      forall j | 0 <= j < |rest| ensures key(s[0]) <= key(rest[j]) {
        assert rest[j] in rest;
        if rest[j] != x { var k :| 0 <= k < |s[1..]| && s[1..][k] == rest[j]; assert s[k + 1] == rest[j]; }
      }
    }
  }

  lemma {:induction false} SortBySorted<T(!new)>(s: seq<T>, key: T -> int)
    ensures SortedBy(SortBy(s, key), key)
  {
    if s != [] {
      SortBySorted(s[1..], key);
      InsertSorted(s[0], SortBy(s[1..], key), key);
    }
  }

  /** Sorting leaves a sorted list alone. */
  lemma {:induction false} SortedStays<T(!new)>(s: seq<T>, key: T -> int)
    requires SortedBy(s, key)
    ensures SortBy(s, key) == s
  {
    if s != [] {
      SortedStays(s[1..], key);
      if |s| > 1 { assert key(s[0]) <= key(s[1]); }
    }
  }

  ghost predicate StrictBy<T>(s: seq<T>, key: T -> int) {
    forall i, j :: 0 <= i < j < |s| ==> key(s[i]) < key(s[j])
  }

  ghost predicate DistinctBy<T>(s: seq<T>, key: T -> int) {
    forall i, j :: 0 <= i < j < |s| ==> key(s[i]) != key(s[j])
  }

  lemma {:induction false} InsertStrict<T(!new)>(x: T, s: seq<T>, key: T -> int)
    requires StrictBy(s, key) && forall y :: y in s ==> key(y) != key(x)
    ensures StrictBy(Insert(x, s, key), key)
  {
    if s != [] && key(x) > key(s[0]) {
      InsertStrict(x, s[1..], key);
      var rest := Insert(x, s[1..], key);
      forall j | 0 <= j < |rest| ensures key(s[0]) < key(rest[j]) {
        assert rest[j] in rest;
        if rest[j] != x { var k :| 0 <= k < |s[1..]| && s[1..][k] == rest[j]; assert s[k + 1] == rest[j]; }
      }
    }
  }

  /** Distinct keys end up strictly increasing. */
  lemma {:induction false} SortByStrict<T(!new)>(s: seq<T>, key: T -> int)
    requires DistinctBy(s, key)
    ensures StrictBy(SortBy(s, key), key)
  {
    if s != [] {
      SortByStrict(s[1..], key);
      forall y | y in SortBy(s[1..], key) ensures key(y) != key(s[0]) {
        var k :| 0 <= k < |s[1..]| && s[1..][k] == y;
        assert s[k + 1] == y;
      }
      InsertStrict(s[0], SortBy(s[1..], key), key);
    }
  }

  function Filter<T(!new)>(s: seq<T>, keep: T -> bool): (r: seq<T>)
    ensures |r| <= |s|
    ensures forall y :: y in r <==> y in s && keep(y)
  {
    if s == [] then []
    else
      assert forall y :: y in s <==> y == s[0] || y in s[1..];
      if keep(s[0]) then [s[0]] + Filter(s[1..], keep) else Filter(s[1..], keep)
  }

  lemma {:induction false} FilterConcat<T(!new)>(a: seq<T>, b: seq<T>, keep: T -> bool)
    ensures Filter(a + b, keep) == Filter(a, keep) + Filter(b, keep)
  {
    if a == [] {
      assert a + b == b;
    } else {
      assert (a + b)[0] == a[0] && (a + b)[1..] == a[1..] + b;
      FilterConcat(a[1..], b, keep);
    }
  }

  lemma {:induction false} InsertFiltered<T(!new)>(x: T, s: seq<T>, key: T -> int, keep: T -> bool)
    requires SortedBy(s, key)
    ensures Filter(Insert(x, s, key), keep)
         == if keep(x) then Insert(x, Filter(s, keep), key) else Filter(s, keep)
  {
    if s == [] {
    } else if key(x) <= key(s[0]) {
      assert ([x] + s)[1..] == s;
      var kept := Filter(s, keep);
      if kept != [] { FilterHead(s, key, keep); }
    } else {
      var rest := Insert(x, s[1..], key);
      assert ([s[0]] + rest)[1..] == rest;
      InsertFiltered(x, s[1..], key, keep);
      if keep(s[0]) && keep(x) {
        var kept := Filter(s[1..], keep);
        assert ([s[0]] + kept)[1..] == kept;
      }
    }
  }

  lemma FilterHead<T(!new)>(s: seq<T>, key: T -> int, keep: T -> bool)
    requires SortedBy(s, key) && s != [] && Filter(s, keep) != []
    ensures key(s[0]) <= key(Filter(s, keep)[0])
  {
    var y := Filter(s, keep)[0];
    assert y in Filter(s, keep);
    var k :| 0 <= k < |s| && s[k] == y;
  }

  /** Stability: sorting then filtering is filtering then sorting, for every predicate. */
  lemma {:induction false} SortByFiltered<T(!new)>(s: seq<T>, key: T -> int, keep: T -> bool)
    ensures Filter(SortBy(s, key), keep) == SortBy(Filter(s, keep), key)
  {
    if s != [] {
      SortByFiltered(s[1..], key, keep);
      SortBySorted(s[1..], key);
      InsertFiltered(s[0], SortBy(s[1..], key), key, keep);
      if keep(s[0]) { assert ([s[0]] + Filter(s[1..], keep))[1..] == Filter(s[1..], keep); }
    }
  }

  /** Distinct keys make the sorted order unique. */
  lemma {:induction false} SortedUnique<T(!new)>(a: seq<T>, b: seq<T>, key: T -> int)
    requires StrictBy(a, key) && StrictBy(b, key)
    requires forall x :: x in a <==> x in b
    ensures a == b
  {
    assert b != [] ==> b[0] in b;
    if a != [] {
      assert a[0] in a && b != [];
      var i :| 0 <= i < |a| && a[i] == b[0];
      var j :| 0 <= j < |b| && b[j] == a[0];
      assert a[0] == b[0];
      forall x ensures x in a[1..] <==> x in b[1..] {
        if x in a[1..] {
          var k :| 0 <= k < |a[1..]| && a[1..][k] == x;
          assert x == a[k + 1] && x in b && x != b[0];
        }
        if x in b[1..] {
          var k :| 0 <= k < |b[1..]| && b[1..][k] == x;
          assert x == b[k + 1] && x in a && x != a[0];
        }
      }
      SortedUnique(a[1..], b[1..], key);
    }
  }

  /** A filter that keeps everything a later filter keeps does not change what the later one yields. */
  lemma {:induction false} FilterImplied<T(!new)>(s: seq<T>, first: T -> bool, second: T -> bool)
    requires forall x :: x in s && second(x) ==> first(x)
    ensures Filter(Filter(s, first), second) == Filter(s, second)
  {
    if s != [] {
      assert forall x :: x in s[1..] ==> x in s;
      FilterImplied(s[1..], first, second);
      assert s[0] in s;
      if first(s[0]) { assert ([s[0]] + Filter(s[1..], first))[1..] == Filter(s[1..], first); }
    }
  }
}
