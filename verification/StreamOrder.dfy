/** The order in which a streaming search sends its matches (ferret-core/src/multi_search.rs). */
module StreamOrder {
  // A match that is sent is the first of its path in the newest segment that has the path. Matches of newer segments
  // are sent first, and those of one segment in the order in which the segment found them.

  import opened Base
  import opened MultiSearch
  import opened SegmentSearch

  /** Match k of segment s; no newer segment and no earlier match of the segment has its path. */
  ghost predicate ComesFrom(results: Results, m: FileMatch, s: nat, k: nat) {
    && s < |results| && k < |results[s]| && results[s][k] == m
    && (forall j :: 0 <= j < k ==> results[s][j].path != m.path)
    && forall i, j :: s < i < |results| && 0 <= j < |results[i]| ==> results[i][j].path != m.path
  }

  predicate SentBefore(s: nat, k: nat, s': nat, k': nat) {
    s > s' || (s == s' && k < k')
  }

  // ---- positions in the flat list ----

  ghost predicate FirstAt(ms: seq<FileMatch>, p: nat, m: FileMatch) {
    p < |ms| && ms[p] == m && forall q :: 0 <= q < p ==> ms[q].path != m.path
  }

  function Position(results: Results, s: nat, k: nat): nat
    requires s < |results|
    decreases |results|
  {
    var n := |results| - 1;
    if s == n then k else |results[n]| + Position(results[..n], s, k)
  }

  lemma {:induction false} OlderIsLater(results: Results, s: nat, k: nat, s': nat, k': nat)
    requires s < |results| && s' < |results| && k < |results[s]| && k' < |results[s']|
    requires SentBefore(s, k, s', k')
    ensures Position(results, s, k) < Position(results, s', k')
    decreases |results|
  {
    var n := |results| - 1;
    if s < n { OlderIsLater(results[..n], s, k, s', k'); }
  }

  lemma FirstBehind(front: seq<FileMatch>, ms: seq<FileMatch>, p: nat, m: FileMatch)
    requires FirstAt(ms, p, m) && forall i :: 0 <= i < |front| ==> front[i].path != m.path
    ensures FirstAt(front + ms, |front| + p, m)
  {
    var all := front + ms;
    forall q | 0 <= q < |front| + p ensures all[q].path != m.path {
      assert all[q] == if q < |front| then front[q] else ms[q - |front|];
    }
  }

  lemma {:induction false} FirstPosition(results: Results, m: FileMatch, s: nat, k: nat)
    requires ComesFrom(results, m, s, k)
    ensures FirstAt(NewestFirst(results), Position(results, s, k), m)
    decreases |results|
  {
    var n := |results| - 1;
    var rest := NewestFirst(results[..n]);
    if s < n {
      assert ComesFrom(results[..n], m, s, k) by {
        forall i, j | s < i < n && 0 <= j < |results[..n][i]| ensures results[..n][i][j].path != m.path {
          assert results[..n][i] == results[i];
        }
      }
      FirstPosition(results[..n], m, s, k);
      FirstBehind(results[n], rest, Position(results[..n], s, k), m);
    } else {
      var all := results[n] + rest;
      forall q | 0 <= q < k ensures all[q].path != m.path { assert all[q] == results[n][q]; }
    }
  }

  // ---- what is kept ----

  lemma KeptBefore(ms: seq<FileMatch>, a: FileMatch) returns (r: nat)
    requires a in KeepFirst(ms)
    ensures r < |ms| && ms[r] == a
  {
    KeepFirstIs(ms, a);
    hide KeepFirst;
    r :| 0 <= r < |ms| && ms[r] == a;
  }

  /** A match whose path occurs before it is not kept. */
  lemma NotKept(ms: seq<FileMatch>, q: nat)
    requires q < |ms| - 1 && ms[q].path == ms[|ms| - 1].path
    ensures KeepFirst(ms) == KeepFirst(ms[..|ms| - 1])
  {
    var init := ms[..|ms| - 1];
    assert init[q] in init;
    KeepFirstIs(init, ms[q]);
  }

  lemma {:induction false} KeptInOrder(ms: seq<FileMatch>, i: nat, j: nat, p: nat, q: nat)
    requires i < j < |KeepFirst(ms)| && FirstAt(ms, p, KeepFirst(ms)[i]) && FirstAt(ms, q, KeepFirst(ms)[j])
    ensures p < q
    decreases |ms|
  {
    var n := |ms| - 1;
    var init := ms[..n];
    var kept := KeepFirst(init);
    assert KeepFirst(ms)[i] == kept[i];
    var r := KeptBefore(init, kept[i]);
    assert ms[r] == kept[i] && p <= r;
    if q < n {
      if ms[q].path == ms[n].path { NotKept(ms, q); }
      assert j < |kept|;
      assert FirstAt(init, p, kept[i]) && FirstAt(init, q, kept[j]);
      KeptInOrder(init, i, j, p, q);
    }
  }

  /** Newer segments first, and in the order of the segment within one. */
  lemma StreamOrdered(results: Results, i: nat, j: nat, s: nat, k: nat, s': nat, k': nat)
    requires i < j < |Stream(results)|
    requires ComesFrom(results, Stream(results)[i], s, k) && ComesFrom(results, Stream(results)[j], s', k')
    ensures SentBefore(s, k, s', k')
  {
    hide ComesFrom, NewestFirst, KeepFirst;
    var a, b := Stream(results)[i], Stream(results)[j];
    Bounds(results, a, s, k);
    Bounds(results, b, s', k');
    FirstPosition(results, a, s, k);
    FirstPosition(results, b, s', k');
    KeptInOrder(NewestFirst(results), i, j, Position(results, s, k), Position(results, s', k'));
    if SentBefore(s', k', s, k) { OlderIsLater(results, s', k', s, k); }
  }

  lemma Bounds(results: Results, m: FileMatch, s: nat, k: nat)
    requires ComesFrom(results, m, s, k)
    ensures s < |results| && k < |results[s]|
  {
  }

  lemma {:induction false} NewestAt(results: Results, path: bytes) returns (s: nat, k: nat)
    requires Newest(results, path).Some?
    ensures ComesFrom(results, Newest(results, path).value, s, k)
    decreases |results|
  {
    var n := |results| - 1;
    var here := FirstOf(results[n], path);
    if here.Some? {
      s := n;
      k := FirstIndex(results[n], path);
    } else {
      s, k := NewestAt(results[..n], path);
      var m := Newest(results[..n], path).value;
      NewestPath(results[..n], path);
      forall i, j | s < i < |results| && 0 <= j < |results[i]| ensures results[i][j].path != m.path {
        if i < n { assert results[..n][i] == results[i]; } else { assert results[n][j] in results[n]; }
      }
    }
  }

  lemma {:induction false} NewestPath(results: Results, path: bytes)
    requires Newest(results, path).Some?
    ensures Newest(results, path).value.path == path
    decreases |results|
  {
    var n := |results| - 1;
    if FirstOf(results[n], path).None? { NewestPath(results[..n], path); }
  }

  lemma {:induction false} FirstIndex(ms: seq<FileMatch>, path: bytes) returns (k: nat)
    requires FirstOf(ms, path).Some?
    ensures k < |ms| && ms[k] == FirstOf(ms, path).value && forall j :: 0 <= j < k ==> ms[j].path != path
  {
    if ms[0].path == path {
      k := 0;
    } else {
      k := FirstIndex(ms[1..], path);
      k := k + 1;
    }
  }

  /** The stream holds exactly the matches that come from some segment that way. */
  lemma StreamComesFrom(results: Results, m: FileMatch)
    ensures m in Stream(results) <==> exists s: nat, k: nat :: ComesFrom(results, m, s, k)
  {
    KeepFirstIs(NewestFirst(results), m);
    FirstInNewestFirst(results, m.path);
    hide ComesFrom, NewestFirst, KeepFirst;
    if m in Stream(results) {
      var s, k := NewestAt(results, m.path);
    }
    forall s: nat, k: nat | ComesFrom(results, m, s, k) ensures m in Stream(results) {
      Bounds(results, m, s, k);
      FirstPosition(results, m, s, k);
      FirstIs(NewestFirst(results), Position(results, s, k), m);
    }
  }

  lemma {:induction false} FirstIs(ms: seq<FileMatch>, p: nat, m: FileMatch)
    requires FirstAt(ms, p, m)
    ensures FirstOf(ms, m.path) == Some(m)
  {
    if p > 0 {
      assert ms[0].path != m.path;
      FirstIs(ms[1..], p - 1, m);
    }
  }
}
