/** Searching a snapshot of several segments (ferret-core/src/multi_search.rs). */
module MultiSearch {
  // The batch search merges per-segment results by path and sorts them by rank; the streaming search sends matches
  // newest segment first. Both are shown to deliver, for every path, the match of the newest segment that has one.
  // Result limits shared by parallel workers are in module Budget.

  import opened Base
  import opened IndexReader
  import opened Query
  import opened QueryTrigrams
  import opened SegmentSearch
  import opened Sorting

  /** Matches of each segment, in snapshot order: oldest first. */
  type Results = seq<seq<FileMatch>>

  function FirstOf(ms: seq<FileMatch>, path: bytes): (r: Option<FileMatch>)
    ensures r.Some? ==> r.value in ms && r.value.path == path
    ensures r.None? ==> forall m :: m in ms ==> m.path != path
  {
    if ms == [] then None
    else if ms[0].path == path then Some(ms[0])
    else FirstOf(ms[1..], path)
  }

  /** The match of a path in the newest segment that has one. */
  function Newest(results: Results, path: bytes): Option<FileMatch> {
    if results == [] then None
    else
      var n := |results| - 1;
      var here := FirstOf(results[n], path);
      if here.Some? then here else Newest(results[..n], path)
  }

  lemma {:induction false} FirstOfConcat(a: seq<FileMatch>, b: seq<FileMatch>, path: bytes)
    ensures FirstOf(a + b, path) == if FirstOf(a, path).Some? then FirstOf(a, path) else FirstOf(b, path)
  {
    if a == [] {
      assert a + b == b;
    } else {
      assert (a + b)[0] == a[0] && (a + b)[1..] == a[1..] + b;
      FirstOfConcat(a[1..], b, path);
    }
  }

  // ---- merge: newest segment wins ----

  type Merged = map<bytes, (u32, FileMatch)>

  function MergeOne(merged: Merged, id: u32, m: FileMatch): Merged {
    if m.path in merged && merged[m.path].0 >= id then merged else merged[m.path := (id, m)]
  }

  function MergeSegment(merged: Merged, id: u32, ms: seq<FileMatch>): Merged
    decreases |ms|
  {
    if ms == [] then merged else MergeSegment(MergeOne(merged, id, ms[0]), id, ms[1..])
  }

  function MergeAll(ids: seq<u32>, results: Results): Merged
    requires |ids| == |results|
    decreases |results|
  {
    if results == [] then map[]
    else
      var n := |results| - 1;
      MergeSegment(MergeAll(ids[..n], results[..n]), ids[n], results[n])
  }

  method MergeResults(ids: seq<u32>, results: Results) returns (merged: Merged)
    requires |ids| == |results|
    ensures merged == MergeAll(ids, results)
  {
    merged := map[];
    for s := 0 to |results|
      invariant merged == MergeAll(ids[..s], results[..s])
    {
      var ms := results[s];
      ghost var goal := MergeSegment(merged, ids[s], ms);
      for k := 0 to |ms|
        invariant MergeSegment(merged, ids[s], ms[k..]) == goal
      {
        assert ms[k..][1..] == ms[k + 1..];
        var m := ms[k];
        if m.path in merged && merged[m.path].0 >= ids[s] {
        } else {
          merged := merged[m.path := (ids[s], m)];
        }
      }
      assert ids[..s + 1][..s] == ids[..s] && results[..s + 1][..s] == results[..s];
    }
    assert ids[..|ids|] == ids && results[..|results|] == results;
  }

  /** Entries of earlier segments carry smaller ids; entries of this segment come first-wins. */
  lemma {:induction false} MergeSegmentIs(merged: Merged, id: u32, ms: seq<FileMatch>, path: bytes)
    requires path in merged ==> merged[path].0 <= id
    ensures var r := MergeSegment(merged, id, ms);
            if path in merged && merged[path].0 == id then path in r && r[path] == merged[path]
            else if FirstOf(ms, path).Some? then path in r && r[path] == (id, FirstOf(ms, path).value)
            else (path in r <==> path in merged) && (path in r ==> r[path] == merged[path])
    decreases |ms|
  {
    if ms != [] {
      MergeSegmentIs(MergeOne(merged, id, ms[0]), id, ms[1..], path);
    }
  }

  /** The merged map holds, for every path, exactly the newest segment's match. */
  lemma {:induction false} MergeAllIsNewest(ids: seq<u32>, results: Results, path: bytes)
    requires |ids| == |results| && Increasing(ids)
    ensures var r := MergeAll(ids, results);
            && (path in r <==> Newest(results, path).Some?)
            && (path in r ==> r[path].1 == Newest(results, path).value && r[path].0 in ids)
    decreases |results|
  {
    if results != [] {
      var n := |results| - 1;
      MergeAllIsNewest(ids[..n], results[..n], path);
      var before := MergeAll(ids[..n], results[..n]);
      if path in before {
        var k :| 0 <= k < n && ids[..n][k] == before[path].0;
        assert ids[k] < ids[n];
      }
      MergeSegmentIs(before, ids[n], results[n], path);
    }
  }

  // ---- stream: newest segment first, each path once ----

  function NewestFirst(results: Results): seq<FileMatch>
    decreases |results|
  {
    if results == [] then []
    else
      var n := |results| - 1;
      results[n] + NewestFirst(results[..n])
  }

  function Paths(ms: seq<FileMatch>): set<bytes> { set m | m in ms :: m.path }

  /** Keep a match unless its path was kept before. */
  function KeepFirst(ms: seq<FileMatch>): seq<FileMatch>
    decreases |ms|
  {
    if ms == [] then []
    else
      var n := |ms| - 1;
      var kept := KeepFirst(ms[..n]);
      if ms[n].path in Paths(kept) then kept else kept + [ms[n]]
  }

  function Stream(results: Results): seq<FileMatch> { KeepFirst(NewestFirst(results)) }

  lemma {:induction false} FirstInNewestFirst(results: Results, path: bytes)
    ensures FirstOf(NewestFirst(results), path) == Newest(results, path)
    decreases |results|
  {
    if results != [] {
      var n := |results| - 1;
      FirstInNewestFirst(results[..n], path);
      FirstOfConcat(results[n], NewestFirst(results[..n]), path);
    }
  }

  ghost predicate DistinctPaths(ms: seq<FileMatch>) {
    forall i, j :: 0 <= i < j < |ms| ==> ms[i].path != ms[j].path
  }

  lemma {:induction false} KeepFirstIs(ms: seq<FileMatch>, m: FileMatch)
    ensures m in KeepFirst(ms) <==> FirstOf(ms, m.path) == Some(m)
    ensures m.path in Paths(KeepFirst(ms)) <==> FirstOf(ms, m.path).Some?
    decreases |ms|
  {
    if ms != [] {
      var n := |ms| - 1;
      var init, last := ms[..n], ms[n];
      KeepFirstIs(init, m);
      KeepFirstIs(init, last);
      FirstOfConcat(init, [last], m.path);
      assert ms == init + [last];
      var kept := KeepFirst(init);
      assert FirstOf([last], m.path) == if last.path == m.path then Some(last) else None;
      PathsAppend(kept, last, m.path);
    }
  }

  lemma PathsAppend(kept: seq<FileMatch>, last: FileMatch, path: bytes)
    ensures path in Paths(kept + [last]) <==> path in Paths(kept) || path == last.path
  {
    var all := kept + [last];
    if path in Paths(kept) {
      var m :| m in kept && m.path == path;
      assert m in all;
    }
    assert last in all;
  }

  lemma {:induction false} KeepFirstDistinct(ms: seq<FileMatch>)
    ensures DistinctPaths(KeepFirst(ms))
    decreases |ms|
  {
    if ms != [] {
      var n := |ms| - 1;
      KeepFirstDistinct(ms[..n]);
      var kept := KeepFirst(ms[..n]);
      assert forall i :: 0 <= i < |kept| ==> kept[i].path in Paths(kept);
    }
  }

  lemma {:induction false} KeepFirstPrefix(a: seq<FileMatch>, b: seq<FileMatch>)
    ensures KeepFirst(a) <= KeepFirst(a + b)
    decreases |b|
  {
    if b == [] {
      assert a + b == a;
    } else {
      var n := |b| - 1;
      KeepFirstPrefix(a, b[..n]);
      assert (a + b)[..|a + b| - 1] == a + b[..n] && (a + b)[|a + b| - 1] == b[n];
    }
  }

  /** Both searches deliver one match per path, and it is the newest segment's: the same one. */
  lemma StreamIsMerged(ids: seq<u32>, results: Results, m: FileMatch)
    requires |ids| == |results| && Increasing(ids)
    ensures m in Stream(results) <==> Newest(results, m.path) == Some(m)
    ensures m in Stream(results) <==> m.path in MergeAll(ids, results) && MergeAll(ids, results)[m.path].1 == m
    ensures DistinctPaths(Stream(results))
  {
    KeepFirstIs(NewestFirst(results), m);
    FirstInNewestFirst(results, m.path);
    MergeAllIsNewest(ids, results, m.path);
    KeepFirstDistinct(NewestFirst(results));
  }

  // ---- ranking ----

  /** Scores are compared first, higher scores earlier. */
  predicate Better(before: PathOrder, a: FileMatch, b: FileMatch) {
    a.score > b.score || (a.score == b.score && before(a.path, b.path))
  }

  ghost predicate Ranked(before: PathOrder, ms: seq<FileMatch>) {
    forall i, j :: 0 <= i < j < |ms| ==> Better(before, ms[i], ms[j])
  }

  /** Higher scores first, and paths in order where scores are equal. */
  ghost predicate ByScoreThenPath(before: PathOrder, files: seq<FileMatch>) {
    forall i, j :: 0 <= i < j < |files| ==>
      files[i].score >= files[j].score && (files[i].score == files[j].score ==> before(files[i].path, files[j].path))
  }

  lemma RankedByScore(before: PathOrder, files: seq<FileMatch>)
    requires Ranked(before, files)
    ensures ByScoreThenPath(before, files)
  {
    forall i, j | 0 <= i < j < |files|
      ensures files[i].score >= files[j].score
      ensures files[i].score == files[j].score ==> before(files[i].path, files[j].path)
    {
      assert Better(before, files[i], files[j]);
    }
  }

  function RankInsert(before: PathOrder, m: FileMatch, ms: seq<FileMatch>): (r: seq<FileMatch>)
    ensures forall x :: x in r <==> x == m || x in ms
  {
    if ms == [] || Better(before, m, ms[0]) then [m] + ms
    else
      assert forall x :: x in ms <==> x == ms[0] || x in ms[1..];
      [ms[0]] + RankInsert(before, m, ms[1..])
  }

  function RankSort(before: PathOrder, ms: seq<FileMatch>): (r: seq<FileMatch>)
    ensures forall x :: x in r <==> x in ms
  {
    if ms == [] then []
    else
      assert forall x :: x in ms <==> x == ms[0] || x in ms[1..];
      RankInsert(before, ms[0], RankSort(before, ms[1..]))
  }

  lemma BetterTransitive(before: PathOrder, a: FileMatch, b: FileMatch, c: FileMatch)
    requires TotalOrder(before) && Better(before, a, b) && Better(before, b, c)
    ensures Better(before, a, c)
  {
  }

  lemma {:induction false} RankInsertRanked(before: PathOrder, m: FileMatch, ms: seq<FileMatch>)
    requires TotalOrder(before) && Ranked(before, ms)
    requires forall x :: x in ms ==> x.path != m.path
    ensures Ranked(before, RankInsert(before, m, ms))
  {
    hide TotalOrder;
    if ms != [] {
      var head, tail := ms[0], ms[1..];
      assert head in ms;
      if Better(before, m, head) {
        forall j | 0 <= j < |tail| ensures Better(before, m, tail[j]) {
          assert tail[j] == ms[j + 1];
          BetterTransitive(before, m, head, tail[j]);
        }
      } else {
        BetterTotal(before, m, head);
        RankInsertRanked(before, m, tail);
        var rest := RankInsert(before, m, tail);
        forall j | 0 <= j < |rest| ensures Better(before, head, rest[j]) {
          assert rest[j] in rest;
          if rest[j] != m { var k :| 0 <= k < |tail| && tail[k] == rest[j]; assert ms[k + 1] == rest[j]; }
        }
      }
    }
  }

  lemma BetterTotal(before: PathOrder, a: FileMatch, b: FileMatch)
    requires TotalOrder(before) && a.path != b.path
    ensures Better(before, a, b) || Better(before, b, a)
  {
  }

  lemma {:induction false} RankSortRanked(before: PathOrder, ms: seq<FileMatch>)
    requires TotalOrder(before) && DistinctPaths(ms)
    ensures Ranked(before, RankSort(before, ms))
  {
    hide TotalOrder, Ranked;
    if ms == [] {
      NoneRanked(before);
    } else {
      var tail := ms[1..];
      RankSortRanked(before, tail);
      forall x | x in RankSort(before, tail) ensures x.path != ms[0].path {
        var k :| 0 <= k < |tail| && tail[k] == x;
        assert ms[k + 1] == x;
      }
      RankInsertRanked(before, ms[0], RankSort(before, tail));
    }
  }

  lemma NoneRanked(before: PathOrder)
    ensures Ranked(before, [])
  {
  }

  lemma NotBetterItself(before: PathOrder, a: FileMatch, b: FileMatch)
    requires TotalOrder(before) && Better(before, a, b)
    ensures !Better(before, b, a) && a != b
  {
    assert before(a.path, b.path) && before(b.path, a.path) ==> before(a.path, a.path);
  }

  /** The ranked order is determined by the set of matches. */
  lemma {:induction false} RankedUnique(before: PathOrder, a: seq<FileMatch>, b: seq<FileMatch>)
    requires TotalOrder(before) && Ranked(before, a) && Ranked(before, b)
    requires forall x :: x in a <==> x in b
    ensures a == b
  {
    hide TotalOrder;
    assert b != [] ==> b[0] in b;
    if a != [] {
      assert a[0] in a && b != [];
      SameBest(before, a, b);
      forall x ensures x in a[1..] <==> x in b[1..] {
        InTail(before, a, x);
        InTail(before, b, x);
      }
      RankedUnique(before, a[1..], b[1..]);
    }
  }

  lemma SameBest(before: PathOrder, a: seq<FileMatch>, b: seq<FileMatch>)
    requires TotalOrder(before) && Ranked(before, a) && Ranked(before, b) && a != [] && b != []
    requires a[0] in b && b[0] in a
    ensures a[0] == b[0]
  {
    hide TotalOrder;
    var i :| 0 <= i < |a| && a[i] == b[0];
    var j :| 0 <= j < |b| && b[j] == a[0];
    if i > 0 { NotBetterItself(before, a[0], a[i]); }
  }

  lemma InTail(before: PathOrder, s: seq<FileMatch>, x: FileMatch)
    requires TotalOrder(before) && Ranked(before, s) && s != []
    ensures x in s[1..] <==> x in s && x != s[0]
  {
    hide TotalOrder;
    var tail := s[1..];
    if x in tail {
      var k :| 0 <= k < |tail| && tail[k] == x;
      assert s[k + 1] == x;
      NotBetterItself(before, s[0], s[k + 1]);
    }
  }

  ghost predicate PathKeyed(merged: Merged) {
    forall p :: p in merged ==> merged[p].1.path == p
  }

  /** The matches of a merged map, each once, in some order. */
  ghost predicate Enumerates(merged: Merged, listed: seq<FileMatch>) {
    DistinctPaths(listed) && forall m :: m in listed <==> m.path in merged && merged[m.path].1 == m
  }

  /** The values of a hash map in arbitrary order, then sorted by rank. */
  method RankMerged(before: PathOrder, merged: Merged) returns (files: seq<FileMatch>)
    requires PathKeyed(merged)
    ensures exists listed :: Enumerates(merged, listed) && files == RankSort(before, listed)
  {
    var todo := merged.Keys;
    var values: seq<FileMatch> := [];
    while todo != {}
      invariant todo <= merged.Keys
      invariant DistinctPaths(values)
      invariant forall m :: m in values <==> m.path in merged && m.path !in todo && merged[m.path].1 == m
    {
      var p :| p in todo;
      assert forall i :: 0 <= i < |values| ==> values[i] in values;
      values := values + [merged[p].1];
      todo := todo - {p};
    }
    assert Enumerates(merged, values);
    files := RankSort(before, values);
  }

  // ---- the two searches ----

  ghost predicate Searchable(snapshot: seq<Segment>) {
    forall i :: 0 <= i < |snapshot| ==> |snapshot[i].files| <= U32_MAX && WellFormed(snapshot[i].reader)
  }

  function SegmentIds(snapshot: seq<Segment>): (r: seq<u32>)
    ensures |r| == |snapshot| && forall i :: 0 <= i < |r| ==> r[i] == snapshot[i].id
  {
    seq(|snapshot|, i requires 0 <= i < |snapshot| => snapshot[i].id)
  }

  /** An indexed snapshot whose segment ids strictly increase from oldest to newest. */
  ghost predicate Ready(snapshot: seq<Segment>) {
    && Increasing(SegmentIds(snapshot))
    && forall i :: 0 <= i < |snapshot| ==> Indexed(snapshot[i])
  }

  /** What the search of one segment finds, with the candidates of the compiled query. */
  ghost function Found(env: Env, segment: Segment, query: Query, context: u32): seq<FileMatch>
    requires |segment.files| <= U32_MAX
  {
    FilterMap(env, segment, query, context,
      SortCandidatesBySize(segment, CandidateIds(segment, Extract(query, env.regex))))
  }

  ghost function AllFound(env: Env, snapshot: seq<Segment>, query: Query, context: u32): (r: Results)
    requires Searchable(snapshot)
    ensures |r| == |snapshot| && forall i :: 0 <= i < |r| ==> r[i] == Found(env, snapshot[i], query, context)
  {
    seq(|snapshot|, i requires 0 <= i < |snapshot| => Found(env, snapshot[i], query, context))
  }

  lemma {:induction false} MergeSegmentKeyed(merged: Merged, id: u32, ms: seq<FileMatch>)
    requires PathKeyed(merged)
    ensures PathKeyed(MergeSegment(merged, id, ms))
    decreases |ms|
  {
    if ms != [] { MergeSegmentKeyed(MergeOne(merged, id, ms[0]), id, ms[1..]); }
  }

  lemma {:induction false} MergeAllKeyed(ids: seq<u32>, results: Results)
    requires |ids| == |results|
    ensures PathKeyed(MergeAll(ids, results))
    decreases |results|
  {
    if results != [] {
      var n := |results| - 1;
      MergeAllKeyed(ids[..n], results[..n]);
      MergeSegmentKeyed(MergeAll(ids[..n], results[..n]), ids[n], results[n]);
    }
  }

  /** However the merged values are listed, ranking them gives the ranked stream. */
  lemma BatchIsRankedStream(before: PathOrder, ids: seq<u32>, results: Results, listed: seq<FileMatch>)
    requires |ids| == |results| && Increasing(ids) && TotalOrder(before)
    requires Enumerates(MergeAll(ids, results), listed)
    ensures RankSort(before, listed) == RankSort(before, Stream(results))
    ensures Ranked(before, RankSort(before, listed))
  {
    hide TotalOrder, Ranked, Stream, DistinctPaths;
    StreamDistinct(results);
    RankSortRanked(before, listed);
    RankSortRanked(before, Stream(results));
    forall m ensures m in listed <==> m in Stream(results) { StreamIsMerged(ids, results, m); }
    RankedUnique(before, RankSort(before, listed), RankSort(before, Stream(results)));
  }

  lemma StreamDistinct(results: Results)
    ensures DistinctPaths(Stream(results))
  {
    KeepFirstDistinct(NewestFirst(results));
  }

  /**
   * search_segments_with_query without a limit: the matches the stream would send, sorted by rank. Neither the order in
   * which segments finish nor that of the hash map shows in the result.
   */
  method SearchSegmentsWithQuery(
      env: Env, before: PathOrder, snapshot: seq<Segment>, query: Query, context: u32)
    returns (r: Result<seq<FileMatch>>)
    requires Searchable(snapshot)
    ensures Ready(snapshot) && TotalOrder(before) ==>
      r == Ok(RankSort(before, Stream(AllFound(env, snapshot, query, context))))
    ensures Ready(snapshot) && TotalOrder(before) ==> ByScoreThenPath(before, r.value)
  {
    hide Indexed, WellFormed, TotalOrder, FilterMap, CandidateIds, SortCandidatesBySize, Increasing, MergeAll, Ranked,
      ByScoreThenPath, CandidatesFor, FindsExactly, Enumerates;
    if snapshot == [] {
      assert ByScoreThenPath(before, []) by { NoneByScore(before); }
      return Ok([]);
    }
    var tq := Extract(query, env.regex);
    var perSegment: Results := [];
    for i := 0 to |snapshot|
      invariant |perSegment| == i
      invariant Ready(snapshot) ==>
        forall k :: 0 <= k < i ==> perSegment[k] == Found(env, snapshot[k], query, context)
    {
      var found := SearchSegment(env, snapshot[i], query, tq, context);
      if found.Err? { return Err(found.error); }
      perSegment := perSegment + [found.value];
    }
    var ids := SegmentIds(snapshot);
    var merged := MergeResults(ids, perSegment);
    MergeAllKeyed(ids, perSegment);
    var files := RankMerged(before, merged);
    if Ready(snapshot) && TotalOrder(before) {
      assert perSegment == AllFound(env, snapshot, query, context);
      ghost var listed :| Enumerates(merged, listed) && files == RankSort(before, listed);
      BatchIsRankedStream(before, ids, perSegment, listed);
      RankedByScore(before, files);
    }
    r := Ok(files);
  }

  lemma NoneByScore(before: PathOrder)
    ensures ByScoreThenPath(before, [])
  {
  }

  // ---- streaming ----

  /** How many matches reach the receiver: it may hang up, and the limit is tested only after a send. */
  function SendLimit(max: Option<nat>, patience: nat): nat {
    if max.None? then patience
    else
      var limit := if max.value == 0 then 1 else max.value;
      if limit < patience then limit else patience
  }

  function Take(ms: seq<FileMatch>, n: nat): seq<FileMatch> {
    if |ms| <= n then ms else ms[..n]
  }

  /** The first `n` of a list, or all of it. */
  ghost predicate FirstOnes(sent: seq<FileMatch>, all: seq<FileMatch>, n: nat) {
    sent <= all && |sent| == if n <= |all| then n else |all|
  }

  /** What the limit and the receiver allow, case by case; a limit of zero still sends one match. */
  ghost predicate SentUpTo(sent: seq<FileMatch>, all: seq<FileMatch>, max: Option<nat>, patience: nat) {
    match max
    case None => FirstOnes(sent, all, patience)
    case Some(m) =>
      && (m == 0 && patience >= 1 ==> FirstOnes(sent, all, 1))
      && (m >= 1 && patience >= m ==> FirstOnes(sent, all, m))
      && (m >= 1 && patience < m ==> FirstOnes(sent, all, patience))
      && (patience == 0 ==> sent == [])
  }

  lemma TakenUpTo(all: seq<FileMatch>, max: Option<nat>, patience: nat)
    ensures SentUpTo(Take(all, SendLimit(max, patience)), all, max, patience)
  {
  }

  /** The inner loop of the stream over the matches of one segment. */
  method SendSegment(
      ms: seq<FileMatch>, max: Option<nat>, patience: nat, sentSoFar: seq<FileMatch>, ghost seen: seq<FileMatch>)
    returns (sent: seq<FileMatch>, stopped: bool)
    requires sentSoFar == KeepFirst(seen) && StillSending(sentSoFar, max, patience)
    ensures stopped ==> |sent| == SendLimit(max, patience) && sent <= KeepFirst(seen + ms)
    ensures !stopped ==> sent == KeepFirst(seen + ms) && StillSending(sent, max, patience)
    ensures |sent| <= patience && (max.Some? ==> |sent| <= max.value || |sent| == 1)
    ensures stopped ==> |sent| == patience || (max.Some? && |sent| >= 1 && |sent| >= max.value)
    ensures !stopped && max.Some? && sent != [] ==> |sent| < max.value
  {
    hide KeepFirst, Paths;
    sent := sentSoFar;
    assert seen + ms[..0] == seen;
    for k := 0 to |ms|
      invariant sent == KeepFirst(seen + ms[..k]) && StillSending(sent, max, patience)
    {
      var m := ms[k];
      KeepFirstStep(seen, ms, k);
      KeepFirstWithin(seen, ms, k + 1);
      if m.path !in Paths(sent) {
        if |sent| == patience {
          KeepFirstWithin(seen, ms, k);
          return sent, true;
        }
        sent := sent + [m];
        if max.Some? && |sent| >= max.value { return sent, true; }
      }
    }
    assert ms[..|ms|] == ms;
    stopped := false;
  }

  /** No send has failed and the limit has not been reached yet. */
  predicate StillSending(sent: seq<FileMatch>, max: Option<nat>, patience: nat) {
    |sent| <= patience && (max.Some? ==> sent == [] || |sent| < max.value)
  }

  lemma KeepFirstStep(seen: seq<FileMatch>, ms: seq<FileMatch>, k: nat)
    requires k < |ms|
    ensures var kept := KeepFirst(seen + ms[..k]);
            KeepFirst(seen + ms[..k + 1]) == if ms[k].path in Paths(kept) then kept else kept + [ms[k]]
  {
    var all := seen + ms[..k + 1];
    assert all[..|all| - 1] == seen + ms[..k] && all[|all| - 1] == ms[k];
  }

  lemma KeepFirstWithin(seen: seq<FileMatch>, ms: seq<FileMatch>, k: nat)
    requires k <= |ms|
    ensures KeepFirst(seen + ms[..k]) <= KeepFirst(seen + ms)
  {
    KeepFirstPrefix(seen + ms[..k], ms[k..]);
    assert seen + ms[..k] + ms[k..] == seen + ms;
  }

  /**
   * search_segments_with_query_streaming: the matches sent are the first ones of the unlimited stream, as many as the
   * limit and the receiver allow. A limit of zero still sends one match.
   */
  method SearchStreaming(
      env: Env, snapshot: seq<Segment>, query: Query, context: u32, max: Option<nat>, patience: nat)
    returns (r: Result<seq<FileMatch>>)
    requires Searchable(snapshot)
    ensures Ready(snapshot) ==>
      r == Ok(Take(Stream(AllFound(env, snapshot, query, context)), SendLimit(max, patience)))
    ensures Ready(snapshot) ==> SentUpTo(r.value, Stream(AllFound(env, snapshot, query, context)), max, patience)
  {
    hide Indexed, WellFormed, FilterMap, CandidateIds, SortCandidatesBySize, Increasing, KeepFirst, Found, SentUpTo;
    if Ready(snapshot) { TakenUpTo(Stream(AllFound(env, snapshot, query, context)), max, patience); }
    var tq := Extract(query, env.regex);
    var sent: seq<FileMatch> := [];
    var i := |snapshot|;
    ghost var seen: seq<FileMatch> := [];
    ghost var results := AllFound(env, snapshot, query, context);
    assert results[..|snapshot|] == results;
    KeepFirstNone();
    while i > 0
      invariant 0 <= i <= |snapshot|
      invariant Ready(snapshot) ==> seen + NewestFirst(results[..i]) == NewestFirst(results)
      invariant sent == KeepFirst(seen) && StillSending(sent, max, patience)
    {
      i := i - 1;
      var found := SearchSegment(env, snapshot[i], query, tq, context);
      if found.Err? { return Err(found.error); }
      var stopped;
      if Ready(snapshot) {
        assert found.value == results[i] by { FoundIs(env, snapshot[i], query, context); }
        NewestFirstStep(results, i, seen);
      }
      sent, stopped := SendSegment(found.value, max, patience, sent, seen);
      seen := seen + found.value;
      if stopped {
        if Ready(snapshot) {
          KeepFirstPrefix(seen, NewestFirst(results[..i]));
          StreamPrefix(sent, results, SendLimit(max, patience));
        }
        return Ok(sent);
      }
    }
    if Ready(snapshot) {
      assert NewestFirst(results[..0]) == [];
      assert seen + [] == seen;
    }
    r := Ok(sent);
  }

  lemma FoundIs(env: Env, segment: Segment, query: Query, context: u32)
    requires |segment.files| <= U32_MAX
    ensures Found(env, segment, query, context)
         == FilterMap(env, segment, query, context,
              SortCandidatesBySize(segment, CandidateIds(segment, Extract(query, env.regex))))
  {
  }

  lemma KeepFirstNone()
    ensures KeepFirst([]) == []
  {
  }

  lemma NewestFirstStep(results: Results, i: nat, seen: seq<FileMatch>)
    requires i < |results|
    ensures seen + NewestFirst(results[..i + 1]) == seen + results[i] + NewestFirst(results[..i])
  {
    var upper := results[..i + 1];
    assert upper[..|upper| - 1] == results[..i] && upper[|upper| - 1] == results[i];
  }

  lemma StreamPrefix(sent: seq<FileMatch>, results: Results, limit: nat)
    requires sent <= Stream(results) && |sent| == limit
    ensures sent == Take(Stream(results), limit)
  {
    hide Stream;
  }

  /** Searching a whole snapshot through the index finds what brute force finds in every segment. */
  lemma SnapshotEqualsBruteForce(env: Env, snapshot: seq<Segment>, query: Query, context: u32)
    requires Searchable(snapshot) && RegexBranches(env.regex) && CapSafe(env, query)
    requires forall i, id :: 0 <= i < |snapshot| && 0 <= id < |snapshot[i].files| && id !in snapshot[i].dead ==>
      TermsSound(env, query, snapshot[i].files[id].content)
    ensures AllFound(env, snapshot, query, context)
         == seq(|snapshot|, i requires 0 <= i < |snapshot| => BruteForce(env, snapshot[i], query, context))
  {
    hide Found, CapSafe, TermsSound, WellFormed, BruteForce, FilterMap, CandidateIds, SortCandidatesBySize;
    forall i | 0 <= i < |snapshot|
      ensures Found(env, snapshot[i], query, context) == BruteForce(env, snapshot[i], query, context)
    {
      FoundIs(env, snapshot[i], query, context);
      IndexedEqualsBruteForce(env, snapshot[i], query, context);
    }
  }
}
