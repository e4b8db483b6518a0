/** "Newest segment wins" under a result limit (ferret-core/src/multi_search.rs). */
module NewestWins {
  // With less room than matching entries some are lost, and then the match of an older segment can stand in for that of
  // a newer one. Exactly when that happens in some run depends on the order in which the candidates of a segment are
  // verified: lists of fewer than 64 candidates in order, longer ones in the pieces the thread pool makes of them.
  // Theorems that promise a run assume that the scheduler may run segments, and pieces, in any order.

  import opened Base
  import opened LimitedSearch
  import opened MultiSearch
  import opened SegmentSearch
  import opened Sorting
  import B = Budget
  import R = LimitRuns

  /** The newest segment that has a match of a path. */
  function NewestIndex(results: Results, path: bytes): (r: Option<nat>)
    ensures r.Some? ==> r.value < |results| && FirstOf(results[r.value], path).Some?
    ensures forall k :: 0 <= k < |results| && FirstOf(results[k], path).Some? ==> r.Some? && k <= r.value
  {
    if results == [] then None
    else
      var n := |results| - 1;
      if FirstOf(results[n], path).Some? then Some(n)
      else
        assert forall k :: 0 <= k < n ==> results[..n][k] == results[k];
        NewestIndex(results[..n], path)
  }

  /** The merged map tells from which segment an entry is. */
  lemma {:induction false} MergeAllIndex(ids: seq<u32>, results: Results, path: bytes)
    requires |ids| == |results| && Increasing(ids)
    ensures path in MergeAll(ids, results) <==> NewestIndex(results, path).Some?
    ensures path in MergeAll(ids, results) ==> (var k := NewestIndex(results, path).value;
              MergeAll(ids, results)[path] == (ids[k], FirstOf(results[k], path).value))
    decreases |results|
  {
    if results != [] {
      var n := |results| - 1;
      MergeAllIndex(ids[..n], results[..n], path);
      var before := MergeAll(ids[..n], results[..n]);
      if path in before {
        var k := NewestIndex(results[..n], path).value;
        assert ids[..n][k] == ids[k] < ids[n] && results[..n][k] == results[k];
      }
      MergeSegmentIs(before, ids[n], results[n], path);
    }
  }

  /** Some path is delivered from an older segment than the newest one that matches it. */
  ghost predicate ShowsOlder(ids: seq<u32>, all: seq<Verdicts>, results: Results)
    requires |ids| == |all| == |results|
  {
    var shown, newest := MergeAll(ids, results), MergeAll(ids, AllSomes(all));
    exists p :: p in shown && p in newest && shown[p].0 < newest[p].0
  }

  // ---- the condition ----

  predicate IsMatch(vs: Verdicts, c: nat, path: bytes) {
    c < |vs| && vs[c].Some? && vs[c].value.path == path
  }

  /** The candidates that match with a path. */
  function Marked(vs: Verdicts, path: bytes, k: nat): (r: set<nat>)
    requires k <= |vs|
    ensures forall c: nat :: c in r <==> c < k && IsMatch(vs, c, path)
  {
    if k == 0 then {} else Marked(vs, path, k - 1) + if IsMatch(vs, k - 1, path) then {k - 1} else {}
  }

  /** How many matches a segment has to deliver to deliver candidate `c`: those up to it in its piece. */
  ghost function Needed(job: B.Job, i: nat, c: nat): nat
    requires i < |job.matching|
  {
    R.MatchesIn(job.matching[i], R.Upto(job, i, c), |job.matching[i]|)
  }

  /** How many matches a segment loses if it loses those of a path: they and all behind them in their pieces. */
  ghost function Behind(job: B.Job, n: nat, marked: set<nat>): int
    requires n < |job.matching|
  {
    var m := job.matching[n];
    B.Matches(m) - R.MatchesIn(m, R.Avoiding(job, n, marked), |m|)
  }

  /** Segment `n` is the newest that matches the path, and candidate `c` of the older segment `i` matches it too. */
  ghost predicate Overtakes(all: seq<Verdicts>, i: nat, n: nat, c: nat, path: bytes) {
    i < n < |all| && IsMatch(all[i], c, path) && NewestIndex(AllSomes(all), path) == Some(n)
  }

  /** The limit has room for the older match but can be used up without the newest ones. */
  ghost predicate Room(all: seq<Verdicts>, max: nat, pieces: B.Pieces, i: nat, n: nat, c: nat, path: bytes) {
    && i < |all| && n < |all|
    && var job := JobOf(all, Some(max), pieces);
       && Needed(job, i, c) <= max
       && max + Behind(job, n, Marked(all[n], path, |all[n]|)) <= SumLengths(AllSomes(all))
  }

  ghost predicate CanShowOlder(all: seq<Verdicts>, max: nat, pieces: B.Pieces) {
    exists i: nat, n: nat, c: nat, path :: Overtakes(all, i, n, c, path) && Room(all, max, pieces, i, n, c, path)
  }

  // ---- what the workers deliver ----

  lemma {:induction false} SomesAre(vs: Verdicts, m: FileMatch)
    ensures m in Somes(vs) <==> Some(m) in vs
    decreases |vs|
  {
    if vs != [] {
      var n := |vs| - 1;
      SomesAre(vs[..n], m);
      assert vs == vs[..n] + [vs[n]];
    }
  }

  lemma FirstOfExists(ms: seq<FileMatch>, path: bytes)
    ensures FirstOf(ms, path).Some? <==> exists m :: m in ms && m.path == path
  {
  }

  lemma OneWorkerEach(all: seq<Verdicts>, max: Option<nat>, pieces: B.Pieces, steps: seq<B.Step>, s: B.State)
    requires B.Reaches(JobOf(all, max, pieces), steps, s)
    ensures |s.workers| == |all|
  {
    B.RunInv(JobOf(all, max, pieces), steps, s);
  }

  /** What a worker delivers is among its matches, at a position it tagged. */
  lemma DeliveredAt(
      all: seq<Verdicts>, max: Option<nat>, pieces: B.Pieces, steps: seq<B.Step>, s: B.State, k: nat, m: FileMatch)
    returns (c: nat)
    requires B.Reaches(JobOf(all, max, pieces), steps, s) && k < |all|
    requires m in Delivered(all, max, pieces, steps, s)[k]
    ensures |s.workers| == |all| && c in s.workers[k].tagged && c < |all[k]| && all[k][c] == Some(m)
    ensures m in Somes(all[k])
  {
    hide B.Reaches;
    OneWorkerEach(all, max, pieces, steps, s);
    TaggedMatch(JobOf(all, max, pieces), steps, s, k);
    var at := s.workers[k].tagged;
    var j :| 0 <= j < |at| && all[k][at[j]].value == m;
    c := at[j];
    assert Some(m) == all[k][c];
    SomesAre(all[k], m);
  }

  /** A segment delivers a path exactly if it tagged one of the candidates that match with it. */
  lemma DeliversMarked(
      all: seq<Verdicts>, max: Option<nat>, pieces: B.Pieces, steps: seq<B.Step>, s: B.State, n: nat, path: bytes)
    requires B.Reaches(JobOf(all, max, pieces), steps, s) && n < |all|
    ensures |s.workers| == |all|
    ensures FirstOf(Delivered(all, max, pieces, steps, s)[n], path).Some?
       <==> exists c :: c in s.workers[n].tagged && IsMatch(all[n], c, path)
  {
    hide B.Reaches;
    OneWorkerEach(all, max, pieces, steps, s);
    TaggedMatch(JobOf(all, max, pieces), steps, s, n);
    var at, r := s.workers[n].tagged, Delivered(all, max, pieces, steps, s)[n];
    assert forall j :: 0 <= j < |at| ==> r[j] == all[n][at[j]].value;
    FirstOfExists(r, path);
    if m :| m in r && m.path == path {
      var c := DeliveredAt(all, max, pieces, steps, s, n, m);
      assert IsMatch(all[n], c, path);
    }
    if c :| c in at && IsMatch(all[n], c, path) {
      var j :| 0 <= j < |at| && at[j] == c;
      assert r[j] in r;
    }
  }

  lemma LaterHaveNone(
      all: seq<Verdicts>, max: Option<nat>, pieces: B.Pieces, steps: seq<B.Step>, s: B.State, n: nat, k: nat,
      path: bytes)
    requires B.Reaches(JobOf(all, max, pieces), steps, s) && n < k < |all|
    requires NewestIndex(AllSomes(all), path) == Some(n)
    ensures FirstOf(Delivered(all, max, pieces, steps, s)[k], path).None?
  {
    hide B.Reaches, Delivered, Somes;
    var first := FirstOf(Delivered(all, max, pieces, steps, s)[k], path);
    assert FirstOf(AllSomes(all)[k], path).None?;
    if first.Some? { var _ := DeliveredAt(all, max, pieces, steps, s, k, first.value); }
  }

  lemma MarkedMatch(all: seq<Verdicts>, max: Option<nat>, pieces: B.Pieces, n: nat, c: nat, path: bytes)
    requires n < |all| && IsMatch(all[n], c, path)
    ensures var m := JobOf(all, max, pieces).matching[n]; c < |m| && m[c]
  {
  }

  /** A match needs itself, and losing a match loses something. */
  lemma Positive(job: B.Job, w: nat, c: nat, marked: set<nat>)
    requires w < |job.matching| && c < |job.matching[w]| && job.matching[w][c]
    ensures Needed(job, w, c) >= 1
    ensures c in marked ==> Behind(job, w, marked) >= 1
  {
    hide R.MatchesIn, B.MatchIndices;
    var m := job.matching[w];
    R.ChosenWithin(m, R.Upto(job, w, c), c, |m|);
    R.ChosenWithin(m, R.Avoiding(job, w, marked), c, |m|);
  }

  /** A run that delivers a path from an older segment than the newest that matches it. */
  lemma OlderRun(all: seq<Verdicts>, max: nat, pieces: B.Pieces, i: nat, n: nat, c: nat, path: bytes)
    returns (steps: seq<B.Step>, s: B.State)
    requires Overtakes(all, i, n, c, path) && Room(all, max, pieces, i, n, c, path)
    ensures B.Reaches(JobOf(all, Some(max), pieces), steps, s) && B.Done(s)
    ensures var k := NewestIndex(Delivered(all, Some(max), pieces, steps, s), path); k.Some? && k.value < n
  {
    hide B.Reaches, B.Done, B.SumMatches, B.Matches, R.MatchesIn, R.Closed, Somes, SumLengths, Delivered, Marked;
    var job := JobOf(all, Some(max), pieces);
    var marked := Marked(all[n], path, |all[n]|);
    MarkedMatch(all, Some(max), pieces, i, c, path);
    Positive(job, i, c, {});
    TotalIs(all, Some(max), pieces);
    R.UptoClosed(job, i, c);
    R.AvoidingClosed(job, n, marked);
    steps, s := R.FavouringRun(job, i, R.Upto(job, i, c), n, R.Avoiding(job, n, marked));
    var r := Delivered(all, Some(max), pieces, steps, s);
    DeliversMarked(all, Some(max), pieces, steps, s, i, path);
    DeliversMarked(all, Some(max), pieces, steps, s, n, path);
    assert c in s.workers[i].tagged;
    assert forall d :: d in s.workers[n].tagged ==> d !in marked;
    var k := NewestIndex(r, path).value;
    if k > n { LaterHaveNone(all, Some(max), pieces, steps, s, n, k, path); }
  }

  /** Whatever the run, showing an older segment's match takes room that leaves the newest ones out. */
  lemma OlderNeedsRoom(
      all: seq<Verdicts>, max: nat, pieces: B.Pieces, steps: seq<B.Step>, s: B.State, i: nat, n: nat, path: bytes)
    requires B.Reaches(JobOf(all, Some(max), pieces), steps, s) && B.Done(s)
    requires NewestIndex(Delivered(all, Some(max), pieces, steps, s), path) == Some(i)
    requires NewestIndex(AllSomes(all), path) == Some(n) && i < n
    ensures CanShowOlder(all, max, pieces)
  {
    hide B.Reaches, B.Done, B.SumMatches, B.SumTagged, B.Matches, R.MatchesIn, SumLengths, Delivered, Somes, Marked,
      NewestIndex;
    var job, marked := JobOf(all, Some(max), pieces), Marked(all[n], path, |all[n]|);
    OneWorkerEach(all, Some(max), pieces, steps, s);
    DeliversMarked(all, Some(max), pieces, steps, s, i, path);
    DeliversMarked(all, Some(max), pieces, steps, s, n, path);
    var c :| c in s.workers[i].tagged && IsMatch(all[i], c, path);
    MarkedMatched(all, Some(max), pieces, n, path);
    R.DeliveredNeeds(job, steps, s, i, c);
    R.TaggedCounts(s.workers, i);
    R.DeliversAvoiding(job, steps, s, n, marked);
    R.AvoidedAreLost(job, steps, s, n, R.Avoiding(job, n, marked));
    B.ExactlyTheLimit(job, steps, s);
    TotalIs(all, Some(max), pieces);
    var d := MarkedExists(all, n, path);
    Positive(job, n, d, marked);
    assert Overtakes(all, i, n, c, path) && Room(all, max, pieces, i, n, c, path);
  }

  lemma MarkedMatched(all: seq<Verdicts>, max: Option<nat>, pieces: B.Pieces, n: nat, path: bytes)
    requires n < |all|
    ensures var m := JobOf(all, max, pieces).matching[n];
      forall d :: d in Marked(all[n], path, |all[n]|) ==> d < |m| && m[d]
  {
  }

  lemma MarkedExists(all: seq<Verdicts>, n: nat, path: bytes) returns (d: nat)
    requires n < |all| && NewestIndex(AllSomes(all), path) == Some(n)
    ensures IsMatch(all[n], d, path)
  {
    hide Somes;
    var m := FirstOf(AllSomes(all)[n], path).value;
    SomesAre(all[n], m);
    d :| 0 <= d < |all[n]| && all[n][d] == Some(m);
  }

  // ---- the theorem on the merged map ----

  /** The segment ids of the merged maps compare as the positions of the segments do. */
  lemma IdsTell(ids: seq<u32>, all: seq<Verdicts>, r: Results, path: bytes)
    requires |ids| == |all| == |r| && Increasing(ids)
    ensures path in MergeAll(ids, r) <==> NewestIndex(r, path).Some?
    ensures path in MergeAll(ids, AllSomes(all)) <==> NewestIndex(AllSomes(all), path).Some?
    ensures path in MergeAll(ids, r) && path in MergeAll(ids, AllSomes(all)) ==>
      (MergeAll(ids, r)[path].0 < MergeAll(ids, AllSomes(all))[path].0
       <==> NewestIndex(r, path).value < NewestIndex(AllSomes(all), path).value)
  {
    hide MergeAll, AllSomes;
    MergeAllIndex(ids, r, path);
    MergeAllIndex(ids, AllSomes(all), path);
  }

  /**
   * Under a limit, some run shows a path from an older segment than the newest that matches it if and only if the limit
   * has room for an older match of a path and can be used up without the newest ones.
   */
  lemma LimitShowsOlderExactly(ids: seq<u32>, all: seq<Verdicts>, max: nat, pieces: B.Pieces)
    requires |ids| == |all| && Increasing(ids)
    ensures (exists steps, s | B.Reaches(JobOf(all, Some(max), pieces), steps, s) && B.Done(s) ::
               ShowsOlder(ids, all, Delivered(all, Some(max), pieces, steps, s)))
       <==> CanShowOlder(all, max, pieces)
  {
    hide B.Reaches, B.Done, Delivered, Overtakes, Room, AllSomes, MergeAll;
    if CanShowOlder(all, max, pieces) {
      var i: nat, n: nat, c: nat, path :| Overtakes(all, i, n, c, path) && Room(all, max, pieces, i, n, c, path);
      OvertakenNewest(all, i, n, c, path);
      var steps, s := OlderRun(all, max, pieces, i, n, c, path);
      IdsTell(ids, all, Delivered(all, Some(max), pieces, steps, s), path);
      assert ShowsOlder(ids, all, Delivered(all, Some(max), pieces, steps, s));
    }
    if exists steps, s | B.Reaches(JobOf(all, Some(max), pieces), steps, s) && B.Done(s) ::
      ShowsOlder(ids, all, Delivered(all, Some(max), pieces, steps, s))
    {
      var steps, s :| B.Reaches(JobOf(all, Some(max), pieces), steps, s) && B.Done(s)
                      && ShowsOlder(ids, all, Delivered(all, Some(max), pieces, steps, s));
      OlderShownMeans(ids, all, max, pieces, steps, s);
    }
  }

  lemma OvertakenNewest(all: seq<Verdicts>, i: nat, n: nat, c: nat, path: bytes)
    requires Overtakes(all, i, n, c, path)
    ensures i < n < |all| && NewestIndex(AllSomes(all), path) == Some(n)
  {
  }

  lemma OlderShownMeans(
      ids: seq<u32>, all: seq<Verdicts>, max: nat, pieces: B.Pieces, steps: seq<B.Step>, s: B.State)
    requires |ids| == |all| && Increasing(ids)
    requires B.Reaches(JobOf(all, Some(max), pieces), steps, s) && B.Done(s)
    requires ShowsOlder(ids, all, Delivered(all, Some(max), pieces, steps, s))
    ensures CanShowOlder(all, max, pieces)
  {
    hide B.Reaches, B.Done, Delivered, CanShowOlder, MergeAll;
    var r := Delivered(all, Some(max), pieces, steps, s);
    var path :| path in MergeAll(ids, r) && path in MergeAll(ids, AllSomes(all))
                && MergeAll(ids, r)[path].0 < MergeAll(ids, AllSomes(all))[path].0;
    IdsTell(ids, all, r, path);
    OlderNeedsRoom(
      all, max, pieces, steps, s, NewestIndex(r, path).value, NewestIndex(AllSomes(all), path).value, path);
  }

  // ---- the files a limited search returns ----

  ghost predicate AllNewest(all: seq<Verdicts>, files: seq<FileMatch>) {
    forall m :: m in files ==> Newest(AllSomes(all), m.path) == Some(m)
  }

  lemma {:induction false} NewestAt(results: Results, path: bytes)
    ensures NewestIndex(results, path).None? ==> Newest(results, path).None?
    ensures NewestIndex(results, path).Some? ==>
      Newest(results, path) == FirstOf(results[NewestIndex(results, path).value], path)
    decreases |results|
  {
    if results != [] {
      var n := |results| - 1;
      NewestAt(results[..n], path);
    }
  }

  lemma OneOfPath(ms: seq<FileMatch>, m: FileMatch)
    requires DistinctPaths(ms) && m in ms
    ensures FirstOf(ms, m.path) == Some(m)
  {
    var first := FirstOf(ms, m.path);
    var i :| 0 <= i < |ms| && ms[i] == m;
    var j :| 0 <= j < |ms| && ms[j] == first.value;
    if i < j { assert ms[i].path != ms[j].path; }
    if j < i { assert ms[j].path != ms[i].path; }
  }

  ghost predicate PathsDistinct(all: seq<Verdicts>) {
    forall k :: 0 <= k < |all| ==> DistinctPaths(Somes(all[k]))
  }

  /** Where the condition fails, every run returns newest matches only. */
  lemma OnlyNewestShown(
      before: PathOrder, ids: seq<u32>, all: seq<Verdicts>, max: nat, pieces: B.Pieces, steps: seq<B.Step>,
      s: B.State, files: seq<FileMatch>)
    requires |ids| == |all| && Increasing(ids) && PathsDistinct(all) && !CanShowOlder(all, max, pieces)
    requires B.Reaches(JobOf(all, Some(max), pieces), steps, s) && B.Done(s)
    requires BatchResult(before, ids, Delivered(all, Some(max), pieces, steps, s), Some(max), files)
    ensures AllNewest(all, files)
  {
    hide B.Reaches, B.Done, Delivered, CanShowOlder, MergeAll, Somes, RankSort, DistinctPaths, Newest;
    var r := Delivered(all, Some(max), pieces, steps, s);
    var listed :| Enumerates(MergeAll(ids, r), listed) && files == Truncate(RankSort(before, listed), Some(max));
    forall m | m in files ensures Newest(AllSomes(all), m.path) == Some(m) {
      assert m in RankSort(before, listed) && m in listed;
      MergeAllIndex(ids, r, m.path);
      var k := NewestIndex(r, m.path).value;
      assert FirstOf(r[k], m.path) == Some(m) && m in r[k];
      var _ := DeliveredAt(all, Some(max), pieces, steps, s, k, m);
      FirstOfExists(Somes(all[k]), m.path);
      assert FirstOf(AllSomes(all)[k], m.path).Some?;
      var n := NewestIndex(AllSomes(all), m.path).value;
      if k < n {
        OlderNeedsRoom(all, max, pieces, steps, s, k, n, m.path);
        assert false;
      }
      OneOfPath(Somes(all[k]), m);
      NewestAt(AllSomes(all), m.path);
    }
  }

  /** The file list holds, for a path, a match of a segment older than `n`. */
  ghost predicate OlderListed(all: seq<Verdicts>, n: nat, path: bytes, files: seq<FileMatch>) {
    exists m :: m in files && m.path == path && OlderMatch(all, n, m)
  }

  ghost predicate OlderMatch(all: seq<Verdicts>, n: nat, m: FileMatch) {
    exists k :: 0 <= k < n && k < |all| && m in Somes(all[k])
  }

  /** The list a run returns when the hash map happens to be in stream order. */
  lemma StreamListed(
      before: PathOrder, ids: seq<u32>, all: seq<Verdicts>, max: nat, pieces: B.Pieces, steps: seq<B.Step>, s: B.State)
    requires |ids| == |all| && Increasing(ids) && B.Reaches(JobOf(all, Some(max), pieces), steps, s)
    ensures var r := Delivered(all, Some(max), pieces, steps, s);
      BatchResult(before, ids, r, Some(max), RankSort(before, Stream(r)))
  {
    hide B.Reaches, RankSort, MergeAll, Stream, B.SumTagged, SumLengths;
    var r := Delivered(all, Some(max), pieces, steps, s);
    forall m ensures m in Stream(r) <==> m.path in MergeAll(ids, r) && MergeAll(ids, r)[m.path].1 == m {
      StreamIsMerged(ids, r, m);
    }
    assert DistinctPaths(Stream(r)) by { StreamDistinct(r); }
    assert Enumerates(MergeAll(ids, r), Stream(r));
    B.AcceptedWithinLimit(JobOf(all, Some(max), pieces), steps, s);
    OneWorkerEach(all, Some(max), pieces, steps, s);
    SumDelivered(s.workers, r);
    StreamLength(r);
    RankSortLength(before, Stream(r));
  }

  lemma StreamLength(r: Results)
    ensures |Stream(r)| <= SumLengths(r)
  {
    KeepFirstShorter(NewestFirst(r));
    NewestFirstLength(r);
  }

  /**
   * Where the condition holds, a run exists whose file list shows an older segment's match, if the scheduler may run
   * segments and pieces in any order.
   */
  lemma LimitCanShowOlderMatch(
      before: PathOrder, ids: seq<u32>, all: seq<Verdicts>, max: nat, pieces: B.Pieces, i: nat, n: nat, c: nat,
      path: bytes)
    requires |ids| == |all| && Increasing(ids)
    requires Overtakes(all, i, n, c, path) && Room(all, max, pieces, i, n, c, path)
    ensures exists steps, s, files | B.Reaches(JobOf(all, Some(max), pieces), steps, s) && B.Done(s) ::
      BatchResult(before, ids, Delivered(all, Some(max), pieces, steps, s), Some(max), files)
      && OlderListed(all, n, path, files)
  {
    hide B.Reaches, B.Done, Delivered, MergeAll, RankSort, Stream, Somes, BatchResult, Room, Newest;
    var steps, s := OlderRun(all, max, pieces, i, n, c, path);
    var r := Delivered(all, Some(max), pieces, steps, s);
    var files := RankSort(before, Stream(r));
    StreamListed(before, ids, all, max, pieces, steps, s);
    var k := NewestIndex(r, path).value;
    var m := FirstOf(r[k], path).value;
    NewestAt(r, path);
    StreamIsMerged(ids, r, m);
    var _ := DeliveredAt(all, Some(max), pieces, steps, s, k, m);
    assert m in files && OlderMatch(all, n, m);
    assert BatchResult(before, ids, r, Some(max), files) && OlderListed(all, n, path, files);
  }

  /** Matches of one path in different segments differ, so that an older one can be told from the newest. */
  ghost predicate VersionsDiffer(all: seq<Verdicts>) {
    forall k, n, a, b | 0 <= k < n < |all| && a in Somes(all[k]) && b in Somes(all[n]) :: a.path == b.path ==> a != b
  }

  /**
   * With every path once in a segment, all runs return newest matches only if and only if the condition fails. That it
   * is necessary rests on the same freedom of the scheduler.
   */
  lemma NewestWinsExactly(before: PathOrder, ids: seq<u32>, all: seq<Verdicts>, max: nat, pieces: B.Pieces)
    requires |ids| == |all| && Increasing(ids) && PathsDistinct(all) && VersionsDiffer(all)
    ensures (forall steps, s, files | B.Reaches(JobOf(all, Some(max), pieces), steps, s) && B.Done(s) ::
               BatchResult(before, ids, Delivered(all, Some(max), pieces, steps, s), Some(max), files)
               ==> AllNewest(all, files))
       <==> !CanShowOlder(all, max, pieces)
  {
    hide B.Reaches, B.Done, Delivered, BatchResult, AllNewest, PathsDistinct, VersionsDiffer, AllSomes, Overtakes, Room;
    if CanShowOlder(all, max, pieces) {
      var i: nat, n: nat, c: nat, path :| Overtakes(all, i, n, c, path) && Room(all, max, pieces, i, n, c, path);
      OvertakenNewest(all, i, n, c, path);
      LimitCanShowOlderMatch(before, ids, all, max, pieces, i, n, c, path);
      var steps, s, files :| B.Reaches(JobOf(all, Some(max), pieces), steps, s) && B.Done(s)
        && BatchResult(before, ids, Delivered(all, Some(max), pieces, steps, s), Some(max), files)
        && OlderListed(all, n, path, files);
      OlderIsNotNewest(all, n, path, files);
    } else {
      forall steps, s, files | B.Reaches(JobOf(all, Some(max), pieces), steps, s) && B.Done(s)
        && BatchResult(before, ids, Delivered(all, Some(max), pieces, steps, s), Some(max), files)
        ensures AllNewest(all, files)
      {
        OnlyNewestShown(before, ids, all, max, pieces, steps, s, files);
      }
    }
  }

  lemma OlderIsNotNewest(all: seq<Verdicts>, n: nat, path: bytes, files: seq<FileMatch>)
    requires VersionsDiffer(all) && n < |all| && NewestIndex(AllSomes(all), path) == Some(n)
    requires OlderListed(all, n, path, files)
    ensures !AllNewest(all, files)
  {
    hide Somes, Newest, VersionsDiffer, FirstOf, NewestIndex;
    var m :| m in files && m.path == path && OlderMatch(all, n, m);
    var k :| 0 <= k < n && k < |all| && m in Somes(all[k]);
    NewestAt(AllSomes(all), path);
    DifferentVersion(all, k, n, m, FirstOf(Somes(all[n]), path));
  }

  lemma DifferentVersion(all: seq<Verdicts>, k: nat, n: nat, m: FileMatch, newest: Option<FileMatch>)
    requires VersionsDiffer(all) && k < n < |all| && m in Somes(all[k])
    requires newest == FirstOf(Somes(all[n]), m.path)
    ensures newest != Some(m)
  {
    hide Somes;
  }

  // ---- the condition in terms of the matches ----

  ghost predicate MatchedIn(all: seq<Verdicts>, i: nat, n: nat, path: bytes) {
    i < n < |all| && FirstOf(Somes(all[i]), path).Some? && FirstOf(Somes(all[n]), path).Some?
  }

  /** Some path is matched in two segments. */
  ghost predicate MatchedTwice(all: seq<Verdicts>) {
    exists i: nat, n: nat, path :: MatchedIn(all, i, n, path)
  }

  /** With limit zero, with room for everything, or with no path in two segments, newest wins whatever the order. */
  lemma NewestWinsSurely(all: seq<Verdicts>, max: nat, pieces: B.Pieces)
    requires max == 0 || SumLengths(AllSomes(all)) <= max || !MatchedTwice(all)
    ensures !CanShowOlder(all, max, pieces)
  {
    hide SumLengths, Somes, Needed, Behind, AllSomes, NewestIndex;
    if CanShowOlder(all, max, pieces) {
      var i: nat, n: nat, c: nat, path :| Overtakes(all, i, n, c, path) && Room(all, max, pieces, i, n, c, path);
      var d := MarkedExists(all, n, path);
      OneMatched(all[i], c, path);
      OneMatched(all[n], d, path);
      assert MatchedIn(all, i, n, path);
      var job := JobOf(all, Some(max), pieces);
      MarkedMatch(all, Some(max), pieces, i, c, path);
      MarkedMatch(all, Some(max), pieces, n, d, path);
      Positive(job, i, c, {});
      Positive(job, n, d, Marked(all[n], path, |all[n]|));
      assert false;
    }
  }

  lemma OneMatched(vs: Verdicts, c: nat, path: bytes)
    requires IsMatch(vs, c, path)
    ensures FirstOf(Somes(vs), path).Some?
  {
    SomesAre(vs, vs[c].value);
    FirstOfExists(Somes(vs), path);
  }

  function CountPath(ms: seq<FileMatch>, path: bytes): nat
    decreases |ms|
  {
    if ms == [] then 0
    else CountPath(ms[..|ms| - 1], path) + if ms[|ms| - 1].path == path then 1 else 0
  }

  lemma CountSnoc(ms: seq<FileMatch>, m: FileMatch, path: bytes)
    ensures CountPath(ms + [m], path) == CountPath(ms, path) + if m.path == path then 1 else 0
  {
    assert (ms + [m])[..|ms|] == ms;
  }

  lemma {:induction false} CountPositive(ms: seq<FileMatch>, path: bytes)
    ensures CountPath(ms, path) > 0 <==> FirstOf(ms, path).Some?
    decreases |ms|
  {
    if ms != [] {
      var init, last := ms[..|ms| - 1], ms[|ms| - 1];
      CountPositive(init, path);
      OneFirst(last, path);
      assert ms == init + [last];
      hide FirstOf;
      FirstOfConcat(init, [last], path);
    }
  }

  lemma OneFirst(m: FileMatch, path: bytes)
    ensures FirstOf([m], path) == if m.path == path then Some(m) else None
  {
  }

  lemma {:induction false} CountOnce(ms: seq<FileMatch>, path: bytes)
    requires DistinctPaths(ms)
    ensures CountPath(ms, path) <= 1
    decreases |ms|
  {
    if ms != [] {
      var init, last := ms[..|ms| - 1], ms[|ms| - 1];
      CountOnce(init, path);
      CountPositive(init, path);
      hide FirstOf, CountPath;
      if FirstOf(init, path).Some? {
        var j :| 0 <= j < |init| && init[j] == FirstOf(init, path).value;
        assert ms[j].path != last.path;
      }
    }
  }

  /** The number of matches before the first one of a path. */
  function Rank(ms: seq<FileMatch>, path: bytes): (r: nat)
    ensures r <= |ms|
  {
    if ms == [] || ms[0].path == path then 0 else 1 + Rank(ms[1..], path)
  }

  lemma {:induction false} RankSnoc(ms: seq<FileMatch>, m: FileMatch, path: bytes)
    ensures FirstOf(ms, path).Some? ==> Rank(ms + [m], path) == Rank(ms, path)
    ensures FirstOf(ms, path).None? ==> Rank(ms + [m], path) == |ms| + if m.path == path then 0 else 1
  {
    if ms == [] {
      assert ms + [m] == [m] && [m][1..] == [];
    } else {
      assert (ms + [m])[0] == ms[0] && (ms + [m])[1..] == ms[1..] + [m];
      RankSnoc(ms[1..], m, path);
    }
  }

  /** The first candidate that matches with a path. */
  ghost predicate IsFirst(vs: Verdicts, c: nat, path: bytes) {
    IsMatch(vs, c, path) && forall d :: 0 <= d < c ==> !IsMatch(vs, d, path)
  }

  lemma {:induction false} FirstMatch(vs: Verdicts, c: nat, path: bytes) returns (first: nat)
    requires IsMatch(vs, c, path)
    ensures first <= c && IsFirst(vs, first, path)
  {
    if d :| 0 <= d < c && IsMatch(vs, d, path) {
      first := FirstMatch(vs, d, path);
    } else {
      first := c;
    }
  }

  lemma {:induction false} SomesCount(vs: Verdicts, k: nat)
    requires k <= |vs|
    ensures |Somes(vs[..k])| == |B.MatchIndices(Matching(vs), k)|
  {
    if k > 0 {
      SomesCount(vs, k - 1);
      assert vs[..k][..k - 1] == vs[..k - 1];
    }
  }

  lemma NoneBefore(vs: Verdicts, k: nat, path: bytes)
    requires k <= |vs| && forall d :: 0 <= d < k ==> !IsMatch(vs, d, path)
    ensures FirstOf(Somes(vs[..k]), path).None?
  {
    var first := FirstOf(Somes(vs[..k]), path);
    if first.Some? {
      SomesAre(vs[..k], first.value);
      var d :| 0 <= d < k && vs[..k][d] == Some(first.value);
      assert IsMatch(vs, d, path);
    }
  }

  lemma SomesStep(vs: Verdicts, k: nat)
    requires 0 < k <= |vs|
    ensures Somes(vs[..k]) == Somes(vs[..k - 1]) + if vs[k - 1].Some? then [vs[k - 1].value] else []
  {
    assert vs[..k][..k - 1] == vs[..k - 1];
  }

  lemma {:induction false} RankIs(vs: Verdicts, c: nat, path: bytes, k: nat)
    requires IsFirst(vs, c, path) && c < k <= |vs|
    ensures Rank(Somes(vs[..k]), path) == |B.MatchIndices(Matching(vs), c)|
    ensures FirstOf(Somes(vs[..k]), path).Some?
    decreases k
  {
    hide Somes, B.MatchIndices, Rank, FirstOf;
    var init := Somes(vs[..k - 1]);
    SomesStep(vs, k);
    if k == c + 1 {
      NoneBefore(vs, c, path);
      SomesCount(vs, c);
      RankSnoc(init, vs[c].value, path);
      FirstOfConcat(init, [vs[c].value], path);
      OneFirst(vs[c].value, path);
    } else {
      RankIs(vs, c, path, k - 1);
      if vs[k - 1].Some? {
        RankSnoc(init, vs[k - 1].value, path);
        FirstOfConcat(init, [vs[k - 1].value], path);
      } else {
        assert init + [] == init;
      }
    }
  }

  lemma RankOf(vs: Verdicts, c: nat, path: bytes)
    requires IsFirst(vs, c, path)
    ensures Rank(Somes(vs), path) == |B.MatchIndices(Matching(vs), c)|
  {
    hide Somes, B.MatchIndices, Rank;
    RankIs(vs, c, path, |vs|);
    assert vs[..|vs|] == vs;
  }

  // Fewer than 64 candidates: the matches before the first of the path.

  lemma SmallNeeded(all: seq<Verdicts>, max: nat, pieces: B.Pieces, i: nat, first: nat, c: nat, path: bytes)
    requires i < |all| && |all[i]| < B.PAR_THRESHOLD && IsFirst(all[i], first, path) && first <= c < |all[i]|
    ensures Needed(JobOf(all, Some(max), pieces), i, c) >= Rank(Somes(all[i]), path) + 1
    ensures c == first ==> Needed(JobOf(all, Some(max), pieces), i, c) == Rank(Somes(all[i]), path) + 1
  {
    hide Somes, Rank, R.MatchesIn;
    var job := JobOf(all, Some(max), pieces);
    var m := job.matching[i];
    RankOf(all[i], first, path);
    R.PrefixChosen(m, R.Upto(job, i, c), c + 1, |m|);
    MatchCountGrows(m, first + 1, c + 1);
  }

  lemma {:induction false} MatchCountGrows(m: seq<bool>, j: nat, k: nat)
    requires j <= k <= |m|
    ensures |B.MatchIndices(m, j)| <= |B.MatchIndices(m, k)|
  {
    if j < k { MatchCountGrows(m, j, k - 1); }
  }

  lemma SmallBehind(all: seq<Verdicts>, max: nat, pieces: B.Pieces, n: nat, first: nat, path: bytes)
    requires n < |all| && |all[n]| < B.PAR_THRESHOLD && IsFirst(all[n], first, path)
    ensures Behind(JobOf(all, Some(max), pieces), n, Marked(all[n], path, |all[n]|))
         == |Somes(all[n])| - Rank(Somes(all[n]), path)
  {
    hide Somes, Rank, R.MatchesIn, B.MatchIndices, Marked;
    var job := JobOf(all, Some(max), pieces);
    var m, marked := job.matching[n], Marked(all[n], path, |all[n]|);
    RankOf(all[n], first, path);
    forall x: nat | x < |m| ensures x in R.Avoiding(job, n, marked) <==> x < first {
      assert first in marked && (first != x && !job.Before(n, first, x) <==> x < first);
      if x < first { assert R.BehindNone(job, n, marked, x); }
    }
    R.PrefixChosen(m, R.Avoiding(job, n, marked), first, |m|);
    SomesCount(all[n], |all[n]|);
    assert all[n][..|all[n]|] == all[n];
  }

  // 64 candidates or more, every one a piece of its own: only the matches of the path count.

  ghost predicate Separate(pieces: B.Pieces, w: nat, size: nat) {
    forall c, d :: 0 <= c < d < size ==> pieces(w, c) != pieces(w, d)
  }

  /** The pool may take the candidates of long lists in any order. */
  ghost predicate FreePool(all: seq<Verdicts>, pieces: B.Pieces) {
    forall w :: 0 <= w < |all| && |all[w]| >= B.PAR_THRESHOLD ==> Separate(pieces, w, |all[w]|)
  }

  lemma {:induction false} OneChosen(m: seq<bool>, c: nat, chosen: set<nat>, k: nat)
    requires k <= |m| && c < |m| && m[c] && forall x: nat :: x < |m| ==> (x in chosen <==> x == c)
    ensures R.MatchesIn(m, chosen, k) == if c < k then 1 else 0
  {
    if k > 0 { OneChosen(m, c, chosen, k - 1); }
  }

  lemma LargeNeeded(all: seq<Verdicts>, max: nat, pieces: B.Pieces, i: nat, c: nat, path: bytes)
    requires i < |all| && |all[i]| >= B.PAR_THRESHOLD && Separate(pieces, i, |all[i]|) && IsMatch(all[i], c, path)
    ensures Needed(JobOf(all, Some(max), pieces), i, c) == 1
  {
    hide R.MatchesIn;
    var job := JobOf(all, Some(max), pieces);
    OneChosen(job.matching[i], c, R.Upto(job, i, c), |job.matching[i]|);
  }

  lemma {:induction false} UnmarkedCount(vs: Verdicts, path: bytes, chosen: set<nat>, k: nat)
    requires k <= |vs| && forall x: nat :: x < |vs| ==> (x in chosen <==> !IsMatch(vs, x, path))
    ensures R.MatchesIn(Matching(vs), chosen, k) + CountPath(Somes(vs[..k]), path) == |B.MatchIndices(Matching(vs), k)|
  {
    if k == 0 {
      assert vs[..k] == [] && Somes([]) == [];
    } else {
      hide CountPath, Somes;
      UnmarkedCount(vs, path, chosen, k - 1);
      SomesStep(vs, k);
      var init := Somes(vs[..k - 1]);
      if vs[k - 1].Some? { CountSnoc(init, vs[k - 1].value, path); }
      assert vs[k - 1].None? ==> init + [] == init;
    }
  }

  lemma LargeBehind(all: seq<Verdicts>, max: nat, pieces: B.Pieces, n: nat, path: bytes)
    requires n < |all| && |all[n]| >= B.PAR_THRESHOLD && Separate(pieces, n, |all[n]|)
    ensures Behind(JobOf(all, Some(max), pieces), n, Marked(all[n], path, |all[n]|)) == CountPath(Somes(all[n]), path)
  {
    hide Somes, CountPath, R.MatchesIn, B.MatchIndices, Marked;
    var job := JobOf(all, Some(max), pieces);
    var marked := Marked(all[n], path, |all[n]|);
    forall x: nat | x < |all[n]| ensures x in R.Avoiding(job, n, marked) <==> !IsMatch(all[n], x, path) {
      if !IsMatch(all[n], x, path) {
        forall d | d in marked ensures d != x && !job.Before(n, d, x) {}
        assert R.BehindNone(job, n, marked, x);
      } else {
        assert x in marked;
      }
    }
    UnmarkedCount(all[n], path, R.Avoiding(job, n, marked), |all[n]|);
    assert all[n][..|all[n]|] == all[n];
  }

  /** What delivering a path costs a segment, and what losing it costs. */
  function Cost(vs: Verdicts, path: bytes): nat {
    if |vs| < B.PAR_THRESHOLD then Rank(Somes(vs), path) + 1 else 1
  }

  function Loss(vs: Verdicts, path: bytes): nat {
    if |vs| < B.PAR_THRESHOLD then |Somes(vs)| - Rank(Somes(vs), path) else CountPath(Somes(vs), path)
  }

  ghost predicate OlderFits(all: seq<Verdicts>, max: nat, i: nat, n: nat, path: bytes) {
    && MatchedIn(all, i, n, path) && NewestIndex(AllSomes(all), path) == Some(n)
    && Cost(all[i], path) <= max && max + Loss(all[n], path) <= SumLengths(AllSomes(all))
  }

  /**
   * The condition on the matches themselves. For a segment of fewer than 64 candidates it counts the matches before
   * the first one of the path: one more than these must fit the limit in the older segment, and all but these must be
   * lost in the newest. For longer lists, taken in any order, it counts the matches of the path only.
   */
  lemma CanShowOlderExactly(all: seq<Verdicts>, max: nat, pieces: B.Pieces)
    requires FreePool(all, pieces)
    ensures CanShowOlder(all, max, pieces) <==> exists i: nat, n: nat, path :: OlderFits(all, max, i, n, path)
  {
    hide Somes, Needed, Behind, NewestIndex, SumLengths, Cost, Loss, AllSomes;
    if CanShowOlder(all, max, pieces) {
      var i: nat, n: nat, c: nat, path :| Overtakes(all, i, n, c, path) && Room(all, max, pieces, i, n, c, path);
      var d := MarkedExists(all, n, path);
      OneMatched(all[i], c, path);
      OneMatched(all[n], d, path);
      CostIs(all, max, pieces, i, c, path);
      LossIs(all, max, pieces, n, d, path);
      assert OlderFits(all, max, i, n, path);
    }
    if i: nat, n: nat, path :| OlderFits(all, max, i, n, path) {
      var d := MarkedExists(all, n, path);
      var c := FirstIn(all[i], path);
      CostIs(all, max, pieces, i, c, path);
      LossIs(all, max, pieces, n, d, path);
      assert Overtakes(all, i, n, c, path) && Room(all, max, pieces, i, n, c, path);
    }
  }

  lemma FirstIn(vs: Verdicts, path: bytes) returns (c: nat)
    requires FirstOf(Somes(vs), path).Some?
    ensures IsFirst(vs, c, path)
  {
    hide Somes;
    var m := FirstOf(Somes(vs), path).value;
    SomesAre(vs, m);
    var d :| 0 <= d < |vs| && vs[d] == Some(m);
    c := FirstMatch(vs, d, path);
  }

  lemma CostIs(all: seq<Verdicts>, max: nat, pieces: B.Pieces, i: nat, c: nat, path: bytes)
    requires FreePool(all, pieces) && i < |all| && IsMatch(all[i], c, path)
    ensures Needed(JobOf(all, Some(max), pieces), i, c) >= Cost(all[i], path)
    ensures IsFirst(all[i], c, path) ==> Needed(JobOf(all, Some(max), pieces), i, c) == Cost(all[i], path)
  {
    hide Somes, Needed, Rank, Separate;
    if |all[i]| < B.PAR_THRESHOLD {
      var first := FirstMatch(all[i], c, path);
      SmallNeeded(all, max, pieces, i, first, c, path);
    } else {
      LargeNeeded(all, max, pieces, i, c, path);
    }
  }

  lemma LossIs(all: seq<Verdicts>, max: nat, pieces: B.Pieces, n: nat, d: nat, path: bytes)
    requires FreePool(all, pieces) && n < |all| && IsMatch(all[n], d, path)
    ensures Behind(JobOf(all, Some(max), pieces), n, Marked(all[n], path, |all[n]|)) == Loss(all[n], path)
  {
    hide Somes, Behind, Rank, Separate, CountPath;
    if |all[n]| < B.PAR_THRESHOLD {
      var first := FirstMatch(all[n], d, path);
      SmallBehind(all, max, pieces, n, first, path);
    } else {
      LargeBehind(all, max, pieces, n, path);
    }
  }

  /** With every path once in a segment, losing it from a long list loses one match. */
  lemma LossOfOne(vs: Verdicts, path: bytes)
    requires |vs| >= B.PAR_THRESHOLD && DistinctPaths(Somes(vs)) && FirstOf(Somes(vs), path).Some?
    ensures Loss(vs, path) == 1
  {
    hide Somes, DistinctPaths;
    CountPositive(Somes(vs), path);
    CountOnce(Somes(vs), path);
  }

  function TwoSegments(x: FileMatch, a: FileMatch, newer: FileMatch): seq<Verdicts> {
    [[Some(x), Some(a)], [Some(newer)]]
  }

  lemma TwoSegmentsMatch(x: FileMatch, a: FileMatch, newer: FileMatch)
    ensures AllSomes(TwoSegments(x, a, newer)) == [[x, a], [newer]]
  {
    var all := TwoSegments(x, a, newer);
    assert all[0][..1] == [Some(x)] && [Some(x)][..0] == [];
    assert Somes([Some(x)]) == [x];
    assert Somes(all[0]) == [x, a] && Somes(all[1]) == [newer];
  }

  lemma ThreeMatches(x: FileMatch, a: FileMatch, newer: FileMatch)
    ensures SumLengths([[x, a], [newer]]) == 3
  {
    assert [[x, a], [newer]][1..] == [[newer]] && [[newer]][1..] == [] && SumLengths([[newer]]) == 1;
  }

  /**
   * Two small files x and a, in this order, in the older segment, a newer version of a in the newest, and room for one:
   * the older segment keeps x and never gets to deliver a, so newest wins although a path is matched twice and not
   * everything fits.
   */
  lemma SizeOrderProtects(x: FileMatch, a: FileMatch, newer: FileMatch, pieces: B.Pieces)
    requires x.path != a.path == newer.path
    ensures var all := TwoSegments(x, a, newer);
      MatchedTwice(all) && SumLengths(AllSomes(all)) == 3 && !CanShowOlder(all, 1, pieces)
  {
    var all := TwoSegments(x, a, newer);
    TwoSegmentsMatch(x, a, newer);
    ThreeMatches(x, a, newer);
    hide SumLengths, Somes;
    assert [x, a][1..] == [a] && Rank([x, a], a.path) == 1;
    hide Rank;
    assert Somes(all[0]) == AllSomes(all)[0] && Somes(all[1]) == AllSomes(all)[1];
    FirstOfExists([x, a], a.path);
    FirstOfExists([newer], a.path);
    assert a in [x, a] && newer in [newer];
    assert MatchedIn(all, 0, 1, a.path);
    hide FirstOf, AllSomes;
    CanShowOlderExactly(all, 1, pieces);
    forall i: nat, n: nat, path ensures !OlderFits(all, 1, i, n, path) {
      if MatchedIn(all, i, n, path) { FirstOfExists([newer], path); }
    }
  }
}
