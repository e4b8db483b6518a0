/**
 * Runs of the limit protocol that favour chosen candidates (ferret-core/src/multi_search.rs). Segments may be searched
 * one after the other in any order, and within a segment the pieces of its candidate list may be. Such runs are built
 * here step by step: one segment delivers a chosen match, another one loses all matches of a chosen kind.
 */
module LimitRuns {
  import opened Base
  import opened Budget

  /** The number of matching candidates below `k` that are in a set. */
  function MatchesIn(m: seq<bool>, chosen: set<nat>, k: nat): nat
    requires k <= |m|
  {
    if k == 0 then 0 else MatchesIn(m, chosen, k - 1) + if m[k - 1] && k - 1 in chosen then 1 else 0
  }

  /** Chosen matches are matches; a match that is not chosen makes them fewer. */
  lemma {:induction false} ChosenWithin(m: seq<bool>, chosen: set<nat>, d: nat, k: nat)
    requires k <= |m| && d < |m| && m[d]
    ensures MatchesIn(m, chosen, k) + (if d < k && d !in chosen then 1 else 0) <= |MatchIndices(m, k)|
    ensures d < k && d in chosen ==> MatchesIn(m, chosen, k) >= 1
  {
    if k > 0 { ChosenWithin(m, chosen, d, k - 1); }
  }

  /** If what is chosen, as far as it matches, is a prefix, it counts as the matches of that prefix. */
  lemma {:induction false} PrefixChosen(m: seq<bool>, chosen: set<nat>, c: nat, k: nat)
    requires k <= |m| && c <= |m| && forall x: nat :: x < |m| && m[x] ==> (x in chosen <==> x < c)
    ensures MatchesIn(m, chosen, k) == |MatchIndices(m, if k <= c then k else c)|
  {
    if k > 0 { PrefixChosen(m, chosen, c, k - 1); }
  }

  /** Only worker `w` has moved. */
  ghost predicate Alone(s: State, t: State, w: nat) {
    && |t.workers| == |s.workers|
    && forall i :: 0 <= i < |s.workers| && i != w ==> t.workers[i] == s.workers[i]
  }

  ghost predicate Fits(job: Job, s: State, w: nat) {
    w < |s.workers| == |job.matching| && |s.workers[w].candidates| == |job.matching[w]|
  }

  lemma Move(job: Job, steps: seq<Step>, s: State, step: Step) returns (longer: seq<Step>, t: State)
    requires Reaches(job, steps, s) && Enabled(job, s, step)
    ensures Reaches(job, longer, t) && Alone(s, t, step.w) && step.w < |t.workers|
    ensures (t.workers[step.w], t.global) == Act(job, s, step)
  {
    hide Reaches, Act;
    Extend(job, steps, s, step);
    longer, t := steps + [step], Apply(job, s, step);
  }

  ghost predicate SameButCandidates(v: Worker, w: Worker) {
    && v.phase == w.phase == Searching && v.granted == w.granted && v.next == w.next && v.tagged == w.tagged
    && |v.candidates| == |w.candidates| && w.budget <= v.budget
  }

  /** One candidate is verified to the end. */
  lemma ProcessOne(job: Job, steps: seq<Step>, s: State, w: nat, c: nat) returns (longer: seq<Step>, t: State)
    requires Reaches(job, steps, s) && Fits(job, s, w) && s.workers[w].phase == Searching
    requires c < |s.workers[w].candidates| && s.workers[w].candidates[c] == Waiting
    requires InTurn(job, w, s.workers[w].candidates, c)
    ensures Reaches(job, longer, t) && Alone(s, t, w) && t.global == s.global && Fits(job, t, w)
    ensures SameButCandidates(s.workers[w], t.workers[w])
    ensures t.workers[w].candidates[c] in {Kept, Gone}
    ensures t.workers[w].candidates == s.workers[w].candidates[c := t.workers[w].candidates[c]]
    ensures s.workers[w].budget == 0 ==> t.workers[w].candidates[c] == Gone
  {
    hide Reaches;
    longer, t := Move(job, steps, s, CheckBudget(w, c));
    if t.workers[w].candidates[c] == Passed {
      var mid := t;
      longer, t := Move(job, longer, mid, Decide(w, c));
    }
  }

  /** What is verified before a candidate of the set has been verified or is in the set too. */
  ghost predicate Ready(job: Job, w: nat, cs: seq<Candidate>, todo: set<nat>)
    requires w < |job.matching|
  {
    forall c, d :: c in todo && c < |cs| && 0 <= d && job.Before(w, d, c) ==> d in todo || cs[d] in {Kept, Gone}
  }

  lemma {:induction false} Least(todo: set<nat>) returns (c: nat)
    requires todo != {}
    ensures c in todo && forall d :: d in todo ==> c <= d
  {
    c :| c in todo;
    if todo != {c} {
      var rest := Least(todo - {c});
      assert forall d :: d in todo ==> d == c || d in todo - {c};
      c := if rest < c then rest else c;
    }
  }

  /** A set of candidates is verified, first to last; without a budget all of them are dropped. */
  lemma {:induction false} ProcessSet(job: Job, steps: seq<Step>, s: State, w: nat, todo: set<nat>)
    returns (longer: seq<Step>, t: State)
    requires Reaches(job, steps, s) && Fits(job, s, w) && s.workers[w].phase == Searching
    requires forall c :: c in todo ==> c < |s.workers[w].candidates| && s.workers[w].candidates[c] == Waiting
    requires Ready(job, w, s.workers[w].candidates, todo)
    ensures Reaches(job, longer, t) && Alone(s, t, w) && t.global == s.global && Fits(job, t, w)
    ensures SameButCandidates(s.workers[w], t.workers[w])
    ensures forall c :: c in todo ==> t.workers[w].candidates[c] in {Kept, Gone}
    ensures forall c :: 0 <= c < |s.workers[w].candidates| && c !in todo ==>
      t.workers[w].candidates[c] == s.workers[w].candidates[c]
    ensures s.workers[w].budget == 0 ==> forall c :: c in todo ==> t.workers[w].candidates[c] == Gone
    decreases |todo|
  {
    hide Reaches;
    if todo == {} {
      longer, t := steps, s;
    } else {
      var c := Least(todo);
      var mid: State;
      longer, mid := ProcessOne(job, steps, s, w, c);
      longer, t := ProcessSet(job, longer, mid, w, todo - {c});
    }
  }

  lemma {:induction false} TagAll(job: Job, steps: seq<Step>, s: State, w: nat) returns (longer: seq<Step>, t: State)
    requires Reaches(job, steps, s) && Fits(job, s, w)
    requires s.workers[w].phase == Tagging && s.workers[w].next <= |s.workers[w].candidates|
    ensures Reaches(job, longer, t) && Alone(s, t, w) && Fits(job, t, w)
    ensures t.workers[w].phase == Finished
    ensures t.workers[w].candidates == s.workers[w].candidates && t.workers[w].granted == s.workers[w].granted
    decreases |s.workers[w].candidates| - s.workers[w].next
  {
    hide Reaches;
    var v := s.workers[w];
    if v.next == |v.candidates| {
      longer, t := Move(job, steps, s, Finish(w));
    } else {
      var mid: State;
      longer, mid := Move(job, steps, s, Tag(w));
      longer, t := TagAll(job, longer, mid, w);
    }
  }

  /** The candidates of `early` go first: unless all their matches are kept, no other candidate is kept. */
  ghost predicate Favours(m: seq<bool>, cs: seq<Candidate>, early: set<nat>) {
    && |cs| == |m|
    && ((forall c :: 0 <= c < |cs| && c in early && m[c] ==> cs[c] == Kept)
        || (forall c :: 0 <= c < |cs| && c !in early ==> cs[c] != Kept))
  }

  /** With a candidate everything that is verified before it is in the set. */
  ghost predicate Closed(job: Job, w: nat, early: set<nat>)
    requires w < |job.matching|
  {
    forall c, d :: c in early && 0 <= d && job.Before(w, d, c) ==> d in early
  }

  /** A worker is run to its end, alone. */
  lemma RunWorker(job: Job, steps: seq<Step>, s: State, w: nat, early: set<nat>)
    returns (longer: seq<Step>, t: State)
    requires Reaches(job, steps, s) && job.max.Some? && w < |s.workers| && s.workers[w].phase == Start
    requires w < |job.matching| && Closed(job, w, early)
    ensures Reaches(job, longer, t) && Alone(s, t, w) && Fits(job, t, w)
    ensures t.workers[w].phase in {Finished, Skipped}
    ensures t.workers[w].phase == Skipped ==> s.global == 0
    ensures t.workers[w].phase == Finished ==>
      t.workers[w].granted == s.global > 0 && Favours(job.matching[w], t.workers[w].candidates, early)
  {
    hide Reaches, Inv, WorkerInv;
    Started(job, steps, s, w);
    longer, t := Move(job, steps, s, CheckGlobal(w));
    if s.global > 0 {
      var loaded, done, all: State;
      longer, loaded := Move(job, longer, t, LoadGlobal(w));
      longer, done, all := SearchAll(job, longer, loaded, w, early);
      var tagging: State;
      longer, tagging := Move(job, longer, all, Collect(w));
      longer, t := TagAll(job, longer, tagging, w);
    }
  }

  lemma Started(job: Job, steps: seq<Step>, s: State, w: nat)
    requires Reaches(job, steps, s) && w < |s.workers| && s.workers[w].phase == Start
    ensures Fits(job, s, w) && NotStarted(s.workers[w])
  {
    RunInv(job, steps, s);
    assert WorkerInv(job, w, s.workers[w], s.global, SumTagged(s.workers));
  }

  /** The search phase: the early candidates, then the rest. */
  lemma SearchAll(job: Job, steps: seq<Step>, s: State, w: nat, early: set<nat>)
    returns (longer: seq<Step>, first: State, t: State)
    requires Reaches(job, steps, s) && Fits(job, s, w) && s.workers[w].phase == Searching
    requires forall c :: 0 <= c < |s.workers[w].candidates| ==> s.workers[w].candidates[c] == Waiting
    requires Closed(job, w, early)
    ensures Reaches(job, longer, t) && Alone(s, t, w) && t.global == s.global && Fits(job, t, w)
    ensures SameButCandidates(s.workers[w], t.workers[w]) && Settled(t.workers[w])
    ensures Favours(job.matching[w], t.workers[w].candidates, early)
  {
    hide Reaches, Inv, WorkerInv;
    var cs := s.workers[w].candidates;
    var chosen, rest := set c | 0 <= c < |cs| && c in early, set c | 0 <= c < |cs| && c !in early;
    longer, first := ProcessSet(job, steps, s, w, chosen);
    DroppedWithoutBudget(job, longer, first, w);
    longer, t := ProcessSet(job, longer, first, w, rest);
    forall c | 0 <= c < |cs| ensures t.workers[w].candidates[c] in {Kept, Gone} {
      if c in early { assert c in chosen; } else { assert c in rest; }
    }
    if !(forall c :: 0 <= c < |cs| && c in early && job.matching[w][c] ==> t.workers[w].candidates[c] == Kept) {
      var d :| 0 <= d < |cs| && d in early && job.matching[w][d] && t.workers[w].candidates[d] != Kept;
      assert d in chosen && d !in rest && first.workers[w].candidates[d] == Gone;
      forall c | 0 <= c < |cs| && c !in early ensures t.workers[w].candidates[c] != Kept { assert c in rest; }
    }
  }

  lemma DroppedWithoutBudget(job: Job, steps: seq<Step>, s: State, w: nat)
    requires Reaches(job, steps, s) && Fits(job, s, w) && s.workers[w].phase == Searching
    ensures forall c :: 0 <= c < |s.workers[w].candidates| && s.workers[w].candidates[c] == Gone && job.matching[w][c] ==>
      s.workers[w].budget == 0
  {
    RunInv(job, steps, s);
    assert WorkerInv(job, w, s.workers[w], s.global, SumTagged(s.workers));
  }

  function Below(k: nat): (r: set<nat>)
    ensures forall w: nat :: w in r <==> w < k
  {
    if k == 0 then {} else Below(k - 1) + {k - 1}
  }

  lemma OneMatchingEach(job: Job, steps: seq<Step>, s: State)
    requires Reaches(job, steps, s)
    ensures |s.workers| == |job.matching|
  {
    RunInv(job, steps, s);
  }

  /** Some workers are run one after the other. */
  lemma {:induction false} RunWorkers(job: Job, steps: seq<Step>, s: State, todo: set<nat>)
    returns (longer: seq<Step>, t: State)
    requires Reaches(job, steps, s) && job.max.Some?
    requires forall w :: w in todo ==> w < |s.workers| && s.workers[w].phase == Start
    ensures Reaches(job, longer, t) && |t.workers| == |s.workers|
    ensures forall w :: w in todo ==> t.workers[w].phase in {Finished, Skipped}
    ensures forall w :: 0 <= w < |s.workers| && w !in todo ==> t.workers[w] == s.workers[w]
    decreases |todo|
  {
    hide Reaches;
    if todo == {} {
      longer, t := steps, s;
    } else {
      var w :| w in todo;
      var mid: State;
      OneMatchingEach(job, steps, s);
      longer, mid := RunWorker(job, steps, s, w, {});
      longer, t := RunWorkers(job, longer, mid, todo - {w});
    }
  }

  // ---- what such runs deliver ----

  lemma {:induction false} KeptCovers(m: seq<bool>, cs: seq<Candidate>, chosen: set<nat>, x: nat, k: nat)
    requires k <= |m| == |cs|
    requires forall c :: 0 <= c < |cs| && c in chosen && m[c] ==> cs[c] == Kept
    requires x < |cs| && cs[x] == Kept && x !in chosen
    ensures |KeptIndices(cs, k)| >= MatchesIn(m, chosen, k) + if x < k then 1 else 0
  {
    if k > 0 { KeptCovers(m, cs, chosen, x, k - 1); }
  }

  /** A worker that ran alone tags everything it kept. */
  lemma AloneTagsAll(job: Job, before: seq<Step>, s: State, steps: seq<Step>, t: State, w: nat)
    requires Reaches(job, before, s) && Reaches(job, steps, t) && job.max.Some? && Alone(s, t, w)
    requires w < |s.workers| && s.workers[w].phase == Start && t.workers[w].phase == Finished
    requires t.workers[w].granted == s.global
    ensures Fits(job, t, w)
    ensures t.workers[w].tagged == KeptIndices(t.workers[w].candidates, |t.workers[w].candidates|)
    ensures SumTagged(t.workers) == SumTagged(s.workers) + |t.workers[w].tagged| <= job.max.value
  {
    hide Reaches, KeptIndices, SumTagged;
    RunInv(job, before, s);
    RunInv(job, steps, t);
    Started(job, before, s, w);
    assert t.workers == s.workers[w := t.workers[w]];
    SumTaggedUpdate(s.workers, w, t.workers[w]);
    assert WorkerInv(job, w, t.workers[w], t.global, SumTagged(t.workers));
  }

  lemma {:induction false} KeptFewer(m: seq<bool>, cs: seq<Candidate>, chosen: set<nat>, d: nat, k: nat)
    requires k <= |m| == |cs| && forall c :: 0 <= c < |cs| && cs[c] == Kept ==> m[c] && c in chosen
    requires d < |cs| && m[d] && d in chosen && cs[d] != Kept
    ensures |KeptIndices(cs, k)| + (if d < k then 1 else 0) <= MatchesIn(m, chosen, k)
  {
    if k > 0 { KeptFewer(m, cs, chosen, d, k - 1); }
  }

  /** The worker that runs first delivers all the favoured matches, if there is room for them. */
  lemma FirstDelivers(job: Job, steps: seq<Step>, t: State, w: nat, early: set<nat>, c: nat)
    requires Reaches(job, steps, t) && job.max.Some?
    requires Reaches(job, [], Initial(job)) && Alone(Initial(job), t, w) && Fits(job, t, w)
    requires t.workers[w].phase == Finished && t.workers[w].granted == job.max.value
    requires MatchesIn(job.matching[w], early, |job.matching[w]|) <= job.max.value
    requires Favours(job.matching[w], t.workers[w].candidates, early)
    requires c < |job.matching[w]| && job.matching[w][c] && c in early
    ensures c in t.workers[w].tagged
  {
    hide Reaches, MatchesIn;
    var m, v := job.matching[w], t.workers[w];
    AloneTagsAll(job, [], Initial(job), steps, t, w);
    RunInv(job, steps, t);
    assert WorkerInv(job, w, v, t.global, SumTagged(t.workers));
    if v.candidates[c] != Kept { KeptFewer(m, v.candidates, early, c, |m|); }
    KeptIsListed(v.candidates, c, |v.candidates|);
  }

  lemma {:induction false} KeptIsListed(cs: seq<Candidate>, c: nat, k: nat)
    requires k <= |cs| && c < k && cs[c] == Kept
    ensures c in KeptIndices(cs, k)
  {
    if c < k - 1 { KeptIsListed(cs, c, k - 1); }
  }

  /** When everyone else has delivered everything, the sums differ by the matches of the one that has not started. */
  lemma OthersDelivered(job: Job, steps: seq<Step>, s: State, n: nat)
    requires Reaches(job, steps, s) && job.max.Some? && s.global > 0
    requires n < |s.workers| && s.workers[n].phase == Start
    requires forall w :: 0 <= w < |s.workers| && w != n ==> s.workers[w].phase in {Finished, Skipped}
    ensures |s.workers| == |job.matching|
    ensures SumTagged(s.workers) + Matches(job.matching[n]) == SumMatches(job.matching)
  {
    hide Reaches, WorkerInv, SumTagged, SumMatches, NotStarted, MatchIndices;
    RunInv(job, steps, s);
    Started(job, steps, s, n);
    var m := job.matching[n];
    var full := s.workers[n].(tagged := MatchIndices(m, |m|));
    var ws := s.workers[n := full];
    forall w | 0 <= w < |ws| ensures |ws[w].tagged| == Matches(job.matching[w]) {
      if w != n { TaggedWithinMatches(job, w, s.workers[w], s.global, SumTagged(s.workers)); }
    }
    SumBounds(ws, job.matching);
    SumTaggedUpdate(s.workers, n, full);
    assert s.workers[n].tagged == [] by { Unstarted(s.workers[n]); }
  }

  lemma Unstarted(w: Worker)
    requires NotStarted(w)
    ensures w.tagged == []
  {
  }

  /**
   * The worker that runs last, favouring some of its candidates, delivers none of the others if there is no room for
   * the others once everything else has been delivered.
   */
  lemma LastAvoids(job: Job, before: seq<Step>, s: State, steps: seq<Step>, t: State, n: nat, early: set<nat>, x: nat)
    requires Reaches(job, before, s) && Reaches(job, steps, t) && job.max.Some? && Alone(s, t, n)
    requires n < |s.workers| && s.workers[n].phase == Start && Fits(job, t, n)
    requires forall w :: 0 <= w < |s.workers| && w != n ==> s.workers[w].phase in {Finished, Skipped}
    requires t.workers[n].phase == Finished && t.workers[n].granted == s.global > 0
    requires Favours(job.matching[n], t.workers[n].candidates, early)
    requires var m := job.matching[n];
      job.max.value + Matches(m) - MatchesIn(m, early, |m|) <= SumMatches(job.matching)
    requires x in t.workers[n].tagged
    ensures x in early
  {
    hide Reaches, SumTagged, SumMatches, Matches, MatchesIn, KeptIndices;
    var m, cs := job.matching[n], t.workers[n].candidates;
    OthersDelivered(job, before, s, n);
    AloneTagsAll(job, before, s, steps, t, n);
    var kept := KeptIndices(cs, |cs|);
    var at :| 0 <= at < |kept| && kept[at] == x;
    if x !in early { KeptCovers(m, cs, early, x, |m|); }
  }

  lemma InitialReached(job: Job)
    ensures Reaches(job, [], Initial(job))
    ensures |Initial(job).workers| == |job.matching|
    ensures forall w :: 0 <= w < |job.matching| ==> Initial(job).workers[w].phase == Start
  {
  }

  /**
   * A run in which segment `i` delivers all its favoured matches and segment `n` delivers favoured candidates only; it
   * exists whenever the limit has room for the favoured matches of `i` but none for the candidates of `n` that are not
   * favoured. Both sets must hold with a candidate all that are verified before it.
   */
  lemma FavouringRun(job: Job, i: nat, first: set<nat>, n: nat, last: set<nat>) returns (steps: seq<Step>, t: State)
    requires job.max.Some? && job.max.value >= 1 && i < |job.matching| && n < |job.matching| && i != n
    requires Closed(job, i, first) && Closed(job, n, last)
    requires MatchesIn(job.matching[i], first, |job.matching[i]|) <= job.max.value
    requires var m := job.matching[n];
      job.max.value + Matches(m) - MatchesIn(m, last, |m|) <= SumMatches(job.matching)
    ensures Reaches(job, steps, t) && Done(t) && |t.workers| == |job.matching|
    ensures forall c :: c in first && 0 <= c < |job.matching[i]| && job.matching[i][c] ==> c in t.workers[i].tagged
    ensures forall x :: x in t.workers[n].tagged ==> x in last
  {
    hide Reaches, SumMatches, Matches, MatchesIn, Initial, Favours, Closed;
    InitialReached(job);
    var s0 := Initial(job);
    assert s0.global == job.max.value by { InitialGlobal(job); }
    var begun, others: seq<Step>;
    var s1, s2: State;
    begun, s1 := RunWorker(job, [], s0, i, first);
    forall c | c in first && 0 <= c < |job.matching[i]| && job.matching[i][c] ensures c in s1.workers[i].tagged {
      FirstDelivers(job, begun, s1, i, first, c);
    }
    var rest := Below(|s0.workers|) - {i, n};
    others, s2 := RunWorkers(job, begun, s1, rest);
    forall w | 0 <= w < |s2.workers| && w != n ensures s2.workers[w].phase in {Finished, Skipped} {
      if w != i { assert w in rest; }
    }
    steps, t := RunWorker(job, others, s2, n, last);
    forall x | x in t.workers[n].tagged ensures x in last {
      if t.workers[n].phase == Finished { LastAvoids(job, others, s2, steps, t, n, last, x); }
      else { SkippedTagsNothing(job, steps, t, n); }
    }
  }

  lemma InitialGlobal(job: Job)
    requires job.max.Some?
    ensures Initial(job).global == job.max.value
  {
  }

  lemma SkippedTagsNothing(job: Job, steps: seq<Step>, s: State, n: nat)
    requires Reaches(job, steps, s) && n < |s.workers| && s.workers[n].phase == Skipped
    ensures s.workers[n].tagged == []
  {
    RunInv(job, steps, s);
    assert WorkerInv(job, n, s.workers[n], s.global, SumTagged(s.workers));
  }

  // ---- what any run delivers ----

  lemma {:induction false} PrefixInside(m: seq<bool>, cs: seq<Candidate>, tagged: seq<nat>, early: set<nat>, k: nat)
    requires k <= |m| == |cs| && forall c :: 0 <= c < |cs| && cs[c] == Kept ==> m[c]
    requires tagged <= KeptIndices(cs, k) && forall x :: x in tagged ==> x in early
    ensures |tagged| <= MatchesIn(m, early, k)
  {
    if k > 0 {
      var shorter := KeptIndices(cs, k - 1);
      if |tagged| <= |shorter| {
        PrefixInside(m, cs, tagged, early, k - 1);
      } else {
        assert tagged[|shorter|] == k - 1;
        PrefixInside(m, cs, tagged[..|shorter|], early, k - 1);
      }
    }
  }

  /** If a worker delivers favoured candidates only, its other matches are lost whatever the interleaving. */
  lemma AvoidedAreLost(job: Job, steps: seq<Step>, s: State, n: nat, early: set<nat>)
    requires Reaches(job, steps, s) && Done(s) && n < |s.workers|
    requires forall x :: x in s.workers[n].tagged ==> x in early
    ensures |s.workers| == |job.matching|
    ensures var m := job.matching[n];
      SumTagged(s.workers) + Matches(m) - MatchesIn(m, early, |m|) <= SumMatches(job.matching)
  {
    hide Reaches, WorkerInv, SumTagged, SumMatches, MatchIndices, KeptIndices, MatchesIn;
    RunInv(job, steps, s);
    var m, w := job.matching[n], s.workers[n];
    var full := w.(tagged := MatchIndices(m, |m|));
    var ws := s.workers[n := full];
    forall i | 0 <= i < |ws| ensures |ws[i].tagged| <= Matches(job.matching[i]) {
      if i != n { TaggedWithinMatches(job, i, s.workers[i], s.global, SumTagged(s.workers)); }
    }
    SumBounds(ws, job.matching);
    SumTaggedUpdate(s.workers, n, full);
    TaggedInside(job, n, w, s.global, SumTagged(s.workers), early);
  }

  lemma TaggedInside(job: Job, n: nat, w: Worker, global: nat, total: nat, early: set<nat>)
    requires n < |job.matching| && WorkerInv(job, n, w, global, total) && w.phase in {Finished, Skipped}
    requires forall x :: x in w.tagged ==> x in early
    ensures |w.tagged| <= MatchesIn(job.matching[n], early, |job.matching[n]|)
  {
    hide KeptIndices, MatchesIn;
    if w.phase == Finished { PrefixInside(job.matching[n], w.candidates, w.tagged, early, |job.matching[n]|); }
  }

  lemma {:induction false} TaggedCounts(ws: seq<Worker>, i: nat)
    requires i < |ws|
    ensures |ws[i].tagged| <= SumTagged(ws)
  {
    if i > 0 { TaggedCounts(ws[1..], i - 1); }
  }

  // ---- the order of candidates ----

  /** Candidates wait for those verified before them, and none is kept behind a match that was dropped. */
  ghost predicate InOrder(job: Job, w: nat, cs: seq<Candidate>)
    requires w < |job.matching| && |cs| == |job.matching[w]|
  {
    forall d, c :: 0 <= d < c < |cs| && job.Before(w, d, c) ==>
      && (cs[d] !in {Kept, Gone} ==> cs[c] == Waiting)
      && (job.matching[w][d] && cs[d] == Gone ==> cs[c] != Kept)
  }

  lemma OrderStep(job: Job, s: State, step: Step)
    requires Enabled(job, s, step) && Inv(job, s) && InOrder(job, step.w, s.workers[step.w].candidates)
    ensures InOrder(job, step.w, Act(job, s, step).0.candidates)
  {
    hide SumTagged, KeptIndices, Inv;
    var w := s.workers[step.w];
    assert WorkerInv(job, step.w, w, s.global, SumTagged(s.workers)) by { WorkerOf(job, s, step.w); }
    if step.CheckBudget? || step.Decide? {
      assert step.Decide? ==> SegmentBudget(job, step.w, w, SumTagged(s.workers));
    }
  }

  lemma WorkerOf(job: Job, s: State, w: nat)
    requires Inv(job, s) && w < |s.workers|
    ensures |s.workers| == |job.matching|
    ensures WorkerInv(job, w, s.workers[w], s.global, SumTagged(s.workers))
  {
  }

  lemma {:induction false} OrderKept(job: Job, steps: seq<Step>, s: State, w: nat)
    requires Reaches(job, steps, s) && w < |s.workers|
    ensures Fits(job, s, w) && InOrder(job, w, s.workers[w].candidates)
    decreases |steps|
  {
    hide Inv, Act, InOrder;
    RunInv(job, steps, s);
    WorkerOf(job, s, w);
    if steps == [] {
      assert NotStarted(s.workers[w]);
      NoneYet(job, w, s.workers[w].candidates);
    } else {
      var n := |steps| - 1;
      var before :| Reaches(job, steps[..n], before) && Enabled(job, before, steps[n])
                    && s == Apply(job, before, steps[n]);
      OrderKept(job, steps[..n], before, w);
      RunInv(job, steps[..n], before);
      if w == steps[n].w { OrderStep(job, before, steps[n]); }
    }
  }

  lemma NoneYet(job: Job, w: nat, cs: seq<Candidate>)
    requires w < |job.matching| && |cs| == |job.matching[w]| && forall c :: 0 <= c < |cs| ==> cs[c] == Waiting
    ensures InOrder(job, w, cs)
  {
  }

  lemma {:induction false} PrefixHasEarlier(cs: seq<Candidate>, tagged: seq<nat>, d: nat, x: nat, k: nat)
    requires k <= |cs| && tagged <= KeptIndices(cs, k) && x in tagged && d < x && d < |cs| && cs[d] == Kept
    ensures d in tagged
  {
    if k > 0 {
      var shorter := KeptIndices(cs, k - 1);
      if |tagged| <= |shorter| {
        PrefixHasEarlier(cs, tagged, d, x, k - 1);
      } else {
        assert tagged == KeptIndices(cs, k);
        KeptIsListed(cs, d, k);
      }
    }
  }

  /** When all is done, a segment has delivered with a candidate all matches that are verified before it. */
  lemma EarlierDelivered(job: Job, steps: seq<Step>, s: State, w: nat, d: nat, x: nat)
    requires Reaches(job, steps, s) && Done(s) && w < |s.workers| == |job.matching|
    requires x in s.workers[w].tagged && d < |job.matching[w]| && job.matching[w][d] && job.Before(w, d, x)
    ensures d in s.workers[w].tagged
  {
    hide Reaches, KeptIndices, SumTagged, SegmentBudget;
    RunInv(job, steps, s);
    OrderKept(job, steps, s, w);
    var v := s.workers[w];
    assert WorkerInv(job, w, v, s.global, SumTagged(s.workers));
    var kept := KeptIndices(v.candidates, v.next);
    var at :| 0 <= at < |v.tagged| && v.tagged[at] == x;
    assert kept[at] == x;
    assert v.candidates[d] == Kept;
    PrefixHasEarlier(v.candidates, v.tagged, d, x, v.next);
  }

  lemma {:induction false} ChosenCounted(m: seq<bool>, cs: seq<Candidate>, tagged: seq<nat>, chosen: set<nat>, k: nat)
    requires k <= |m| == |cs| && tagged <= KeptIndices(cs, k)
    requires forall c :: 0 <= c < k && c in chosen && m[c] ==> c in tagged
    ensures MatchesIn(m, chosen, k) <= |tagged|
    decreases k
  {
    if k > 0 {
      var shorter := KeptIndices(cs, k - 1);
      var rest := if |tagged| <= |shorter| then tagged else shorter;
      forall c | 0 <= c < k - 1 && c in chosen && m[c] ensures c in rest {
        var at :| 0 <= at < |tagged| && tagged[at] == c;
        assert at < |shorter| ==> rest[at] == c;
      }
      ChosenCounted(m, cs, rest, chosen, k - 1);
    }
  }

  /** The candidates up to `c` in its piece. */
  ghost function Upto(job: Job, w: nat, c: nat): set<nat>
    requires w < |job.matching|
  {
    set d: nat | d <= c && (d == c || job.Before(w, d, c))
  }

  /** The candidates behind none of the marked ones. */
  ghost function Avoiding(job: Job, w: nat, marked: set<nat>): set<nat>
    requires w < |job.matching|
  {
    set x | x in Below(|job.matching[w]|) && BehindNone(job, w, marked, x)
  }

  ghost predicate BehindNone(job: Job, w: nat, marked: set<nat>, x: nat)
    requires w < |job.matching|
  {
    forall d :: d in marked ==> d != x && !job.Before(w, d, x)
  }

  lemma UptoClosed(job: Job, w: nat, c: nat)
    requires w < |job.matching|
    ensures Closed(job, w, Upto(job, w, c))
  {
  }

  lemma AvoidingClosed(job: Job, w: nat, marked: set<nat>)
    requires w < |job.matching|
    ensures Closed(job, w, Avoiding(job, w, marked))
  {
    forall c, d | c in Avoiding(job, w, marked) && 0 <= d && job.Before(w, d, c) ensures d in Avoiding(job, w, marked) {
      forall e | e in marked ensures e != d && !job.Before(w, e, d) {
        assert e != c && !job.Before(w, e, c);
      }
    }
  }

  /** A segment that delivers candidate `c` delivers as many matches as there are up to `c` in its piece. */
  lemma DeliveredNeeds(job: Job, steps: seq<Step>, s: State, w: nat, c: nat)
    requires Reaches(job, steps, s) && Done(s) && w < |s.workers| && c in s.workers[w].tagged
    ensures |s.workers| == |job.matching|
    ensures MatchesIn(job.matching[w], Upto(job, w, c), |job.matching[w]|) <= |s.workers[w].tagged|
  {
    hide Reaches, KeptIndices, SumTagged, SegmentBudget, MatchesIn;
    RunInv(job, steps, s);
    var v, m := s.workers[w], job.matching[w];
    assert WorkerInv(job, w, v, s.global, SumTagged(s.workers));
    forall d | 0 <= d < |m| && d in Upto(job, w, c) && m[d] ensures d in v.tagged {
      if d != c { EarlierDelivered(job, steps, s, w, d, c); }
    }
    ChosenCounted(m, v.candidates, v.tagged, Upto(job, w, c), |m|);
  }

  /** A segment that delivers none of the marked matches delivers nothing behind them. */
  lemma DeliversAvoiding(job: Job, steps: seq<Step>, s: State, w: nat, marked: set<nat>)
    requires Reaches(job, steps, s) && Done(s) && w < |s.workers| == |job.matching|
    requires forall d :: d in marked ==> d < |job.matching[w]| && job.matching[w][d] && d !in s.workers[w].tagged
    ensures forall x :: x in s.workers[w].tagged ==> x in Avoiding(job, w, marked)
  {
    hide Reaches, SumTagged, SegmentBudget, TaggedPrefix;
    forall x | x in s.workers[w].tagged ensures x in Avoiding(job, w, marked) {
      TaggedInRange(job, steps, s, w, x);
      forall d | d in marked ensures d != x && !job.Before(w, d, x) {
        if job.Before(w, d, x) { EarlierDelivered(job, steps, s, w, d, x); }
      }
    }
  }

  lemma TaggedInRange(job: Job, steps: seq<Step>, s: State, w: nat, x: nat)
    requires Reaches(job, steps, s) && w < |s.workers| && x in s.workers[w].tagged
    ensures |s.workers| == |job.matching| && x < |job.matching[w]|
  {
    RunInv(job, steps, s);
    assert WorkerInv(job, w, s.workers[w], s.global, SumTagged(s.workers));
  }
}
