/** search_segments_with_query under a result limit (ferret-core/src/multi_search.rs). */
module LimitedSearch {
  // The budget protocol of module Budget runs over the candidates of each segment; then come merging, ranking and
  // truncation. When the limit covers all matching entries the result is that of the search without a limit. What
  // happens otherwise is in module NewestWins.

  import opened Base
  import opened IndexReader
  import opened MultiSearch
  import opened Query
  import opened QueryTrigrams
  import opened SegmentSearch
  import opened Sorting
  import B = Budget

  /** What the closure returns for each candidate, in the order the candidates are handed out. */
  type Verdicts = seq<Option<FileMatch>>

  function Matching(vs: Verdicts): (m: seq<bool>)
    ensures |m| == |vs| && forall i :: 0 <= i < |m| ==> m[i] == vs[i].Some?
  {
    seq(|vs|, i requires 0 <= i < |vs| => vs[i].Some?)
  }

  function JobOf(all: seq<Verdicts>, max: Option<nat>, pieces: B.Pieces): B.Job {
    B.Job(max, seq(|all|, i requires 0 <= i < |all| => Matching(all[i])), pieces)
  }

  /** The matches at the given positions. */
  function Pick(vs: Verdicts, at: seq<nat>): (r: seq<FileMatch>)
    requires forall i :: 0 <= i < |at| ==> at[i] < |vs| && vs[at[i]].Some?
    ensures |r| == |at|
  {
    seq(|at|, i requires 0 <= i < |at| => vs[at[i]].value)
  }

  /** The matches at all positions that have one. */
  function Somes(vs: Verdicts): seq<FileMatch> {
    if vs == [] then []
    else
      var n := |vs| - 1;
      Somes(vs[..n]) + if vs[n].Some? then [vs[n].value] else []
  }

  lemma {:induction false} PickAll(vs: Verdicts, k: nat)
    requires k <= |vs|
    ensures Pick(vs, B.MatchIndices(Matching(vs), k)) == Somes(vs[..k])
  {
    if k > 0 {
      PickAll(vs, k - 1);
      assert vs[..k][..k - 1] == vs[..k - 1];
    }
  }

  /** Whatever the run, a worker only tags positions that match. */
  lemma TaggedMatch(job: B.Job, steps: seq<B.Step>, s: B.State, i: nat)
    requires B.Reaches(job, steps, s) && i < |s.workers|
    ensures |s.workers| == |job.matching|
    ensures forall k :: 0 <= k < |s.workers[i].tagged| ==>
      s.workers[i].tagged[k] < |job.matching[i]| && job.matching[i][s.workers[i].tagged[k]]
  {
    B.RunInv(job, steps, s);
    assert B.WorkerInv(job, i, s.workers[i], s.global, B.SumTagged(s.workers));
  }

  /** What each segment has delivered in a reachable state. */
  ghost function Delivered(
      all: seq<Verdicts>, max: Option<nat>, pieces: B.Pieces, steps: seq<B.Step>, s: B.State): (r: Results)
    requires B.Reaches(JobOf(all, max, pieces), steps, s)
    ensures |r| == |all|
  {
    B.RunInv(JobOf(all, max, pieces), steps, s);
    seq(|all|, i requires 0 <= i < |all| =>
      TaggedMatch(JobOf(all, max, pieces), steps, s, i);
      Pick(all[i], s.workers[i].tagged))
  }

  function SumLengths(results: Results): nat {
    if results == [] then 0 else |results[0]| + SumLengths(results[1..])
  }

  function AllSomes(all: seq<Verdicts>): (r: Results)
    ensures |r| == |all| && forall i :: 0 <= i < |r| ==> r[i] == Somes(all[i])
  {
    seq(|all|, i requires 0 <= i < |all| => Somes(all[i]))
  }

  lemma {:induction false} TotalIs(all: seq<Verdicts>, max: Option<nat>, pieces: B.Pieces)
    ensures B.SumMatches(JobOf(all, max, pieces).matching) == SumLengths(AllSomes(all))
  {
    if all != [] {
      TotalIs(all[1..], max, pieces);
      assert JobOf(all, max, pieces).matching[1..] == JobOf(all[1..], max, pieces).matching;
      assert AllSomes(all)[1..] == AllSomes(all[1..]);
      PickAll(all[0], |all[0]|);
      assert all[0][..|all[0]|] == all[0];
    }
  }

  /**
   * At the end of any run under a limit, every matching entry of every segment has been delivered if and only if the
   * limit covers them all.
   */
  lemma DeliversAllExactly(all: seq<Verdicts>, max: nat, pieces: B.Pieces, steps: seq<B.Step>, s: B.State)
    requires B.Reaches(JobOf(all, Some(max), pieces), steps, s) && B.Done(s)
    ensures Delivered(all, Some(max), pieces, steps, s) == AllSomes(all) <==> SumLengths(AllSomes(all)) <= max
  {
    var job := JobOf(all, Some(max), pieces);
    var r := Delivered(all, Some(max), pieces, steps, s);
    TotalIs(all, Some(max), pieces);
    B.RunInv(job, steps, s);
    if SumLengths(AllSomes(all)) <= max {
      forall i | 0 <= i < |all| ensures r[i] == Somes(all[i]) {
        B.NothingLost(job, steps, s, i);
        PickAll(all[i], |all[i]|);
        assert all[i][..|all[i]|] == all[i];
      }
    } else {
      B.ExactlyTheLimit(job, steps, s);
      SumDelivered(s.workers, r);
    }
  }

  lemma {:induction false} SumDelivered(ws: seq<B.Worker>, r: Results)
    requires |ws| == |r| && forall i :: 0 <= i < |ws| ==> |ws[i].tagged| == |r[i]|
    ensures B.SumTagged(ws) == SumLengths(r)
  {
    if ws != [] { SumDelivered(ws[1..], r[1..]); }
  }

  // ---- merging, ranking and truncating what was delivered ----

  function Truncate(ms: seq<FileMatch>, max: Option<nat>): seq<FileMatch> {
    if max.Some? && max.value < |ms| then ms[..max.value] else ms
  }

  /** A result list the batch search can return: the hash map's values come in some order. */
  ghost predicate BatchResult(
      before: PathOrder, ids: seq<u32>, results: Results, max: Option<nat>, files: seq<FileMatch>)
    requires |ids| == |results|
  {
    exists listed :: Enumerates(MergeAll(ids, results), listed) && files == Truncate(RankSort(before, listed), max)
  }

  lemma {:induction false} KeepFirstShorter(ms: seq<FileMatch>)
    ensures |KeepFirst(ms)| <= |ms|
    decreases |ms|
  {
    if ms != [] { KeepFirstShorter(ms[..|ms| - 1]); }
  }

  lemma {:induction false} NewestFirstLength(results: Results)
    ensures |NewestFirst(results)| == SumLengths(results)
    decreases |results|
  {
    if results != [] {
      var n := |results| - 1;
      NewestFirstLength(results[..n]);
      SumLengthsSnoc(results[..n], results[n]);
      assert results == results[..n] + [results[n]];
    }
  }

  lemma {:induction false} SumLengthsSnoc(results: Results, last: seq<FileMatch>)
    ensures SumLengths(results + [last]) == SumLengths(results) + |last|
  {
    if results == [] {
      assert results + [last] == [last];
    } else {
      SumLengthsSnoc(results[1..], last);
      assert (results + [last])[1..] == results[1..] + [last];
    }
  }

  lemma {:induction false} RankInsertLength(before: PathOrder, m: FileMatch, ms: seq<FileMatch>)
    ensures |RankInsert(before, m, ms)| == |ms| + 1
  {
    if ms != [] { RankInsertLength(before, m, ms[1..]); }
  }

  lemma {:induction false} RankSortLength(before: PathOrder, ms: seq<FileMatch>)
    ensures |RankSort(before, ms)| == |ms|
  {
    if ms != [] {
      RankSortLength(before, ms[1..]);
      RankInsertLength(before, ms[0], RankSort(before, ms[1..]));
    }
  }

  /** Every list the batch search can return is within the limit and in order of score and then path. */
  lemma BatchOrdered(before: PathOrder, ids: seq<u32>, results: Results, max: Option<nat>, files: seq<FileMatch>)
    requires |ids| == |results| && TotalOrder(before) && BatchResult(before, ids, results, max, files)
    ensures ByScoreThenPath(before, files)
    ensures max.Some? ==> |files| <= max.value
  {
    hide TotalOrder, MergeAll, Ranked, RankSort;
    var listed :| Enumerates(MergeAll(ids, results), listed) && files == Truncate(RankSort(before, listed), max);
    RankSortRanked(before, listed);
    RankedByScore(before, RankSort(before, listed));
    var all := RankSort(before, listed);
    assert files <= all;
    assert forall i :: 0 <= i < |files| ==> files[i] == all[i];
  }

  /** With a limit that covers everything, every run of the batch search returns what the unlimited search returns. */
  lemma LimitedBatchIsComplete(
      before: PathOrder, ids: seq<u32>, all: seq<Verdicts>, max: nat, pieces: B.Pieces, steps: seq<B.Step>, s: B.State,
      files: seq<FileMatch>)
    requires |ids| == |all| && Increasing(ids) && TotalOrder(before)
    requires B.Reaches(JobOf(all, Some(max), pieces), steps, s) && B.Done(s)
    requires SumLengths(AllSomes(all)) <= max
    requires BatchResult(before, ids, Delivered(all, Some(max), pieces, steps, s), Some(max), files)
    ensures files == RankSort(before, Stream(AllSomes(all)))
  {
    hide TotalOrder, Increasing, MergeAll, RankSort, DistinctPaths, B.Reaches, B.Done, SumLengths;
    var results := AllSomes(all);
    DeliversAllExactly(all, max, pieces, steps, s);
    var listed :| Enumerates(MergeAll(ids, results), listed) && files == Truncate(RankSort(before, listed), Some(max));
    BatchIsRankedStream(before, ids, results, listed);
    RankSortLength(before, Stream(results));
    KeepFirstShorter(NewestFirst(results));
    NewestFirstLength(results);
  }

  /** Whether one match ranks ahead of another. */
  predicate Ahead(before: PathOrder, a: FileMatch, b: FileMatch) {
    a.score > b.score || (a.score == b.score && before(a.path, b.path))
  }

  /** Entries of the merged map, each path once; one is missing only if the limit is used up by entries ahead of it. */
  ghost predicate IsTop(before: PathOrder, merged: Merged, max: Option<nat>, files: seq<FileMatch>) {
    && DistinctPaths(files)
    && (forall f :: f in files ==> f.path in merged && merged[f.path].1 == f)
    && forall p :: p in merged && merged[p].1 !in files ==>
         max.Some? && |files| == max.value && forall f :: f in files ==> Ahead(before, f, merged[p].1)
  }

  /** Truncation after ranking keeps the best entries. */
  lemma BatchKeepsBest(before: PathOrder, ids: seq<u32>, results: Results, max: Option<nat>, files: seq<FileMatch>)
    requires |ids| == |results| && TotalOrder(before) && BatchResult(before, ids, results, max, files)
    ensures IsTop(before, MergeAll(ids, results), max, files)
  {
    hide TotalOrder, MergeAll, RankSort;
    var merged := MergeAll(ids, results);
    var listed :| Enumerates(merged, listed) && files == Truncate(RankSort(before, listed), max);
    var all := RankSort(before, listed);
    RankSortRanked(before, listed);
    MergeAllKeyed(ids, results);
    assert files <= all;
    forall i, j | 0 <= i < j < |files| ensures files[i].path != files[j].path {
      assert Better(before, all[i], all[j]);
      RankedDiffer(before, all[i], all[j]);
    }
    forall f | f in files ensures f in all {
      var i :| 0 <= i < |files| && files[i] == f;
      assert all[i] == f;
    }
    forall p | p in merged && merged[p].1 !in files
      ensures max.Some? && |files| == max.value && forall f :: f in files ==> Ahead(before, f, merged[p].1)
    {
      var m := merged[p].1;
      assert m in all;
      var j :| 0 <= j < |all| && all[j] == m;
      forall k | 0 <= k < |files| ensures all[k] != m {
        assert files[k] in files;
      }
      forall f | f in files ensures Ahead(before, f, m) {
        var i :| 0 <= i < |files| && files[i] == f;
        assert Better(before, all[i], all[j]);
      }
    }
  }

  lemma RankedDiffer(before: PathOrder, a: FileMatch, b: FileMatch)
    requires TotalOrder(before) && Better(before, a, b)
    ensures a != b
  {
  }

  /** No run delivers more than the limit, so the result is all of what was delivered, and truncation never cuts. */
  lemma TruncationIdle(
      before: PathOrder, ids: seq<u32>, all: seq<Verdicts>, max: nat, pieces: B.Pieces, steps: seq<B.Step>, s: B.State,
      files: seq<FileMatch>)
    requires |ids| == |all| && Increasing(ids) && TotalOrder(before)
    requires B.Reaches(JobOf(all, Some(max), pieces), steps, s)
    requires BatchResult(before, ids, Delivered(all, Some(max), pieces, steps, s), Some(max), files)
    ensures files == RankSort(before, Stream(Delivered(all, Some(max), pieces, steps, s)))
  {
    hide TotalOrder, Increasing, MergeAll, RankSort, DistinctPaths, B.Reaches, SumLengths;
    var results := Delivered(all, Some(max), pieces, steps, s);
    B.AcceptedWithinLimit(JobOf(all, Some(max), pieces), steps, s);
    B.RunInv(JobOf(all, Some(max), pieces), steps, s);
    SumDelivered(s.workers, results);
    var listed :| Enumerates(MergeAll(ids, results), listed) && files == Truncate(RankSort(before, listed), Some(max));
    BatchIsRankedStream(before, ids, results, listed);
    RankSortLength(before, Stream(results));
    KeepFirstShorter(NewestFirst(results));
    NewestFirstLength(results);
  }

  // ---- the segments of a snapshot ----

  ghost function CandidatesOf(env: Env, segment: Segment, query: Query): seq<u32>
    requires |segment.files| <= U32_MAX
  {
    SortCandidatesBySize(segment, CandidateIds(segment, Extract(query, env.regex)))
  }

  function VerdictsOn(env: Env, segment: Segment, query: Query, context: u32, ids: seq<u32>): (r: Verdicts)
    ensures |r| == |ids|
    ensures forall i :: 0 <= i < |r| ==> r[i] == VerifyCandidate(env, segment, query, context, ids[i])
  {
    seq(|ids|, i requires 0 <= i < |ids| => VerifyCandidate(env, segment, query, context, ids[i]))
  }

  ghost function AllVerdicts(env: Env, snapshot: seq<Segment>, query: Query, context: u32): (r: seq<Verdicts>)
    requires Searchable(snapshot)
    ensures |r| == |snapshot|
  {
    seq(|snapshot|, i requires 0 <= i < |snapshot| =>
      VerdictsOn(env, snapshot[i], query, context, CandidatesOf(env, snapshot[i], query)))
  }

  lemma {:induction false} SomesCons(v: Option<FileMatch>, vs: Verdicts)
    ensures Somes([v] + vs) == (if v.Some? then [v.value] else []) + Somes(vs)
    decreases |vs|
  {
    if vs == [] {
      assert [v] + vs == [v] && [v][..0] == [];
    } else {
      var n := |vs| - 1;
      SomesCons(v, vs[..n]);
      assert ([v] + vs)[..n + 1] == [v] + vs[..n];
    }
  }

  lemma {:induction false} SomesAreFilterMap(env: Env, segment: Segment, query: Query, context: u32, ids: seq<u32>)
    ensures Somes(VerdictsOn(env, segment, query, context, ids)) == FilterMap(env, segment, query, context, ids)
  {
    hide VerifyCandidate;
    var vs := VerdictsOn(env, segment, query, context, ids);
    if ids != [] {
      SomesAreFilterMap(env, segment, query, context, ids[1..]);
      assert vs == [vs[0]] + VerdictsOn(env, segment, query, context, ids[1..]);
      SomesCons(vs[0], VerdictsOn(env, segment, query, context, ids[1..]));
    }
  }

  /** Without a limit the workers deliver exactly what the sequential search of each segment finds. */
  lemma AllSomesAreFound(env: Env, snapshot: seq<Segment>, query: Query, context: u32)
    requires Searchable(snapshot)
    ensures AllSomes(AllVerdicts(env, snapshot, query, context)) == AllFound(env, snapshot, query, context)
  {
    hide SortCandidatesBySize, CandidateIds, VerifyCandidate, FilterMap, Somes, WellFormed;
    forall i | 0 <= i < |snapshot|
      ensures Somes(AllVerdicts(env, snapshot, query, context)[i]) == Found(env, snapshot[i], query, context)
    {
      SomesAreFilterMap(env, snapshot[i], query, context, CandidatesOf(env, snapshot[i], query));
    }
  }

  /**
   * search_segments_with_query with a limit, in every interleaving of its workers: if the matching entries of all
   * segments together are within the limit, the files returned are those of the unlimited search.
   */
  lemma LimitedSearchIsComplete(
      env: Env, before: PathOrder, snapshot: seq<Segment>, query: Query, context: u32, max: nat,
      pieces: B.Pieces, steps: seq<B.Step>, s: B.State, files: seq<FileMatch>)
    requires Searchable(snapshot) && Ready(snapshot) && TotalOrder(before)
    requires SumLengths(AllFound(env, snapshot, query, context)) <= max
    requires var all := AllVerdicts(env, snapshot, query, context);
      && B.Reaches(JobOf(all, Some(max), pieces), steps, s) && B.Done(s)
      && BatchResult(before, SegmentIds(snapshot), Delivered(all, Some(max), pieces, steps, s), Some(max), files)
    ensures files == RankSort(before, Stream(AllFound(env, snapshot, query, context)))
  {
    hide TotalOrder, Increasing, Indexed, WellFormed, B.Reaches, B.Done, SumLengths, RankSort, Stream, Delivered;
    hide BatchResult, AllVerdicts, AllFound;
    AllSomesAreFound(env, snapshot, query, context);
    var all := AllVerdicts(env, snapshot, query, context);
    LimitedBatchIsComplete(before, SegmentIds(snapshot), all, max, pieces, steps, s, files);
  }
}
