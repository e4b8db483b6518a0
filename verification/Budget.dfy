/** The result limit shared by parallel workers (ferret-core/src/multi_search.rs). */
module Budget {
  // One worker per segment, in any interleaving of their atomic actions. A global counter starts at the limit; a
  // worker gives up when it reads zero, otherwise loads it again as its own budget; each matching candidate must
  // decrement that budget, and afterwards each kept match, in order, must decrement the global counter. Main result:
  // when all workers are done, exactly min(limit, number of matches) matches have been accepted.

  import opened Base

  const USIZE_MAX: nat := 0xFFFF_FFFF_FFFF_FFFF

  // Fewer candidates are verified one after the other, in the order they are handed out. Otherwise a thread pool cuts
  // the list into pieces; the candidates of one piece are verified in order, the pieces in any interleaving.
  const PAR_THRESHOLD: nat := 64

  /** The piece in which the pool puts a candidate of a segment. */
  type Pieces = (nat, nat) -> nat

  /** The limit, for each segment which of its candidates match, and the pieces. */
  datatype Job = Job(max: Option<nat>, matching: seq<seq<bool>>, pieces: Pieces) {
    /** Candidate `d` of segment `w` is verified before candidate `c`. */
    predicate Before(w: nat, d: nat, c: nat)
      requires w < |matching|
    {
      d < c && (|matching[w]| < PAR_THRESHOLD || pieces(w, d) == pieces(w, c))
    }
  }

  datatype Candidate = Waiting | Passed | Kept | Gone

  datatype Phase = Start | Entered | Searching | Tagging | Finished | Skipped

  datatype Worker = Worker(
    phase: Phase, granted: nat, budget: nat, candidates: seq<Candidate>, next: nat, tagged: seq<nat>)

  datatype State = State(global: nat, workers: seq<Worker>)

  datatype Step =
    | CheckGlobal(w: nat)          // give up if the global counter is zero
    | LoadGlobal(w: nat)           // read it again as this segment's budget
    | CheckBudget(w: nat, c: nat)  // a candidate task starts: drop it if the segment budget is zero
    | Decide(w: nat, c: nat)       // it has been verified: a match decrements the segment budget or is dropped
    | Collect(w: nat)              // all candidates done
    | Tag(w: nat)                  // the next kept match decrements the global counter or is dropped
    | Finish(w: nat)

  function InitialWorker(m: seq<bool>): Worker {
    Worker(Start, 0, 0, seq(|m|, _ => Waiting), 0, [])
  }

  function Initial(job: Job): State {
    State(if job.max.Some? then job.max.value else USIZE_MAX,
      seq(|job.matching|, i requires 0 <= i < |job.matching| => InitialWorker(job.matching[i])))
  }

  /** Everything that is verified before candidate `c` has been. */
  predicate InTurn(job: Job, i: nat, cs: seq<Candidate>, c: nat)
    requires i < |job.matching| && c <= |cs|
  {
    forall d :: 0 <= d < c && job.Before(i, d, c) ==> cs[d] in {Kept, Gone}
  }

  predicate Enabled(job: Job, s: State, step: Step) {
    && step.w < |s.workers| == |job.matching|
    && var w := s.workers[step.w];
    && |w.candidates| == |job.matching[step.w]|
    && match step
       case CheckGlobal(_) => w.phase == Start
       case LoadGlobal(_) => w.phase == Entered
       case CheckBudget(i, c) =>
         w.phase == Searching && c < |w.candidates| && w.candidates[c] == Waiting && InTurn(job, i, w.candidates, c)
       case Decide(_, c) => w.phase == Searching && c < |w.candidates| && w.candidates[c] == Passed
       case Collect(_) => w.phase == Searching && forall c :: 0 <= c < |w.candidates| ==> w.candidates[c] in {Kept, Gone}
       case Tag(_) => w.phase == Tagging && w.next < |w.candidates|
       case Finish(_) => w.phase == Tagging && w.next == |w.candidates|
  }

  /** The worker and the global counter after one atomic action. */
  function Act(job: Job, s: State, step: Step): (Worker, nat)
    requires Enabled(job, s, step)
  {
    var w, g := s.workers[step.w], s.global;
    match step
    case CheckGlobal(_) => (w.(phase := if g == 0 then Skipped else Entered), g)
    case LoadGlobal(_) =>
      var granted := if job.max.Some? then g else USIZE_MAX;
      (w.(phase := Searching, granted := granted, budget := granted), g)
    case CheckBudget(_, c) =>
      (w.(candidates := w.candidates[c := if w.budget == 0 then Gone else Passed]), g)
    case Decide(i, c) =>
      if !job.matching[i][c] || w.budget == 0 then (w.(candidates := w.candidates[c := Gone]), g)
      else (w.(candidates := w.candidates[c := Kept], budget := w.budget - 1), g)
    case Collect(_) => (w.(phase := Tagging), g)
    case Tag(_) =>
      if w.candidates[w.next] != Kept then (w.(next := w.next + 1), g)
      else if job.max.None? then (w.(next := w.next + 1, tagged := w.tagged + [w.next]), g)
      else if g > 0 then (w.(next := w.next + 1, tagged := w.tagged + [w.next]), g - 1)
      else (w.(next := w.next + 1), g)
    case Finish(_) => (w.(phase := Finished), g)
  }

  function Apply(job: Job, s: State, step: Step): State
    requires Enabled(job, s, step)
  {
    var (w, g) := Act(job, s, step);
    State(g, s.workers[step.w := w])
  }

  /** `s` is reached from the initial state by the given interleaving. */
  ghost predicate Reaches(job: Job, steps: seq<Step>, s: State)
    decreases |steps|
  {
    if steps == [] then s == Initial(job)
    else
      var n := |steps| - 1;
      exists before :: Reaches(job, steps[..n], before) && Enabled(job, before, steps[n])
                       && s == Apply(job, before, steps[n])
  }

  // ---- counting ----

  function KeptIndices(cs: seq<Candidate>, k: nat): (r: seq<nat>)
    requires k <= |cs|
    ensures forall i :: 0 <= i < |r| ==> r[i] < k && cs[r[i]] == Kept
    ensures |r| <= k
  {
    if k == 0 then [] else KeptIndices(cs, k - 1) + if cs[k - 1] == Kept then [k - 1] else []
  }

  function MatchIndices(m: seq<bool>, k: nat): (r: seq<nat>)
    requires k <= |m|
    ensures |r| <= k
    ensures forall i :: 0 <= i < |r| ==> r[i] < k && m[r[i]]
  {
    if k == 0 then [] else MatchIndices(m, k - 1) + if m[k - 1] then [k - 1] else []
  }

  function Matches(m: seq<bool>): nat { |MatchIndices(m, |m|)| }

  function KeptCount(cs: seq<Candidate>): nat { |KeptIndices(cs, |cs|)| }

  lemma {:induction false} KeptUpdate(cs: seq<Candidate>, c: nat, v: Candidate, k: nat)
    requires k <= |cs| && c < |cs| && cs[c] != Kept
    ensures |KeptIndices(cs[c := v], k)| == |KeptIndices(cs, k)| + if v == Kept && c < k then 1 else 0
  {
    if k > 0 { KeptUpdate(cs, c, v, k - 1); }
  }

  /** If everything kept matches, the kept are at most the matches, and fewer if some match is not kept. */
  lemma {:induction false} KeptWithinMatches(cs: seq<Candidate>, m: seq<bool>, k: nat)
    requires k <= |cs| == |m| && forall c :: 0 <= c < |cs| && cs[c] == Kept ==> m[c]
    ensures |KeptIndices(cs, k)| <= |MatchIndices(m, k)|
    ensures (forall c :: 0 <= c < k && m[c] ==> cs[c] == Kept) ==> KeptIndices(cs, k) == MatchIndices(m, k)
    ensures (exists c :: 0 <= c < k && m[c] && cs[c] != Kept) ==> |KeptIndices(cs, k)| < |MatchIndices(m, k)|
  {
    if k > 0 { KeptWithinMatches(cs, m, k - 1); }
  }

  function SumTagged(ws: seq<Worker>): nat {
    if ws == [] then 0 else |ws[0].tagged| + SumTagged(ws[1..])
  }

  function SumMatches(ms: seq<seq<bool>>): nat {
    if ms == [] then 0 else Matches(ms[0]) + SumMatches(ms[1..])
  }

  lemma {:induction false} SumTaggedUpdate(ws: seq<Worker>, i: nat, w: Worker)
    requires i < |ws|
    ensures SumTagged(ws[i := w]) == SumTagged(ws) - |ws[i].tagged| + |w.tagged|
  {
    if i == 0 {
      assert ws[0 := w][1..] == ws[1..];
    } else {
      assert ws[i := w][1..] == ws[1..][i - 1 := w];
      SumTaggedUpdate(ws[1..], i - 1, w);
    }
  }

  lemma {:induction false} SumBounds(ws: seq<Worker>, ms: seq<seq<bool>>)
    requires |ws| == |ms| && forall i :: 0 <= i < |ws| ==> |ws[i].tagged| <= Matches(ms[i])
    ensures SumTagged(ws) <= SumMatches(ms)
    ensures (forall i :: 0 <= i < |ws| ==> |ws[i].tagged| == Matches(ms[i])) ==> SumTagged(ws) == SumMatches(ms)
    ensures SumTagged(ws) == SumMatches(ms) ==> forall i :: 0 <= i < |ws| ==> |ws[i].tagged| == Matches(ms[i])
  {
    if ws != [] {
      forall i | 0 <= i < |ws| - 1 ensures |ws[1..][i].tagged| <= Matches(ms[1..][i]) {
        assert ws[1..][i] == ws[i + 1] && ms[1..][i] == ms[i + 1];
      }
      SumBounds(ws[1..], ms[1..]);
      if forall i :: 0 <= i < |ws| ==> |ws[i].tagged| == Matches(ms[i]) {
        assert forall i :: 0 <= i < |ws| - 1 ==> ws[1..][i] == ws[i + 1] && ms[1..][i] == ms[i + 1];
      }
      if SumTagged(ws) == SumMatches(ms) {
        forall i | 0 <= i < |ws| ensures |ws[i].tagged| == Matches(ms[i]) {
          if i > 0 { assert ws[1..][i - 1] == ws[i] && ms[1..][i - 1] == ms[i]; }
        }
      }
    }
  }

  // ---- the invariant ----

  ghost predicate NotStarted(w: Worker) {
    w.tagged == [] && w.next == 0 && forall c :: 0 <= c < |w.candidates| ==> w.candidates[c] == Waiting
  }

  /** Conservation at the segment level, and a match lost there means its budget ran out. */
  ghost predicate SegmentBudget(job: Job, i: nat, w: Worker, total: nat)
    requires i < |job.matching|
  {
    && w.budget + KeptCount(w.candidates) == w.granted
    && (forall c :: 0 <= c < |w.candidates| && w.candidates[c] == Gone && c < |job.matching[i]| && job.matching[i][c] ==>
          w.budget == 0)
    && (if job.max.Some? then job.max.value + |w.tagged| <= w.granted + total else w.granted == USIZE_MAX)
  }

  /** What has been tagged are the first kept matches; one was dropped only if the global counter is zero. */
  ghost predicate TaggedPrefix(job: Job, w: Worker, global: nat) {
    && w.next <= |w.candidates|
    && w.tagged <= KeptIndices(w.candidates, w.next)
    && (w.tagged != KeptIndices(w.candidates, w.next) ==> job.max.Some? && global == 0)
  }

  ghost predicate Settled(w: Worker) {
    forall c :: 0 <= c < |w.candidates| ==> w.candidates[c] in {Kept, Gone}
  }

  ghost predicate WorkerInv(job: Job, i: nat, w: Worker, global: nat, total: nat)
    requires i < |job.matching|
  {
    && |w.candidates| == |job.matching[i]|
    && (forall c :: 0 <= c < |w.candidates| && w.candidates[c] == Kept ==> job.matching[i][c])
    && match w.phase
       case Start => NotStarted(w)
       case Entered => NotStarted(w)
       case Skipped => NotStarted(w) && job.max.Some? && global == 0
       case Searching => SegmentBudget(job, i, w, total) && w.tagged == [] && w.next == 0
       case Tagging => SegmentBudget(job, i, w, total) && Settled(w) && TaggedPrefix(job, w, global)
       case Finished =>
         SegmentBudget(job, i, w, total) && Settled(w) && TaggedPrefix(job, w, global) && w.next == |w.candidates|
  }

  ghost predicate Inv(job: Job, s: State) {
    && |s.workers| == |job.matching|
    && (if job.max.Some? then s.global + SumTagged(s.workers) == job.max.value else s.global == USIZE_MAX)
    && forall i :: 0 <= i < |s.workers| ==> WorkerInv(job, i, s.workers[i], s.global, SumTagged(s.workers))
  }

  lemma {:induction false} NoneTagged(ws: seq<Worker>)
    requires forall i :: 0 <= i < |ws| ==> ws[i].tagged == []
    ensures SumTagged(ws) == 0
  {
    if ws != [] { NoneTagged(ws[1..]); }
  }

  lemma InitialInv(job: Job)
    ensures Inv(job, Initial(job))
  {
    NoneTagged(Initial(job).workers);
  }

  /** The others only see the global counter fall and the number of accepted matches rise. */
  lemma OthersUndisturbed(job: Job, i: nat, w: Worker, global: nat, total: nat, global': nat, total': nat)
    requires i < |job.matching| && WorkerInv(job, i, w, global, total)
    requires global' <= global && total <= total'
    ensures WorkerInv(job, i, w, global', total')
  {
  }

  /** The acting worker keeps its invariant and the global sum is conserved. */
  ghost predicate StepSafe(job: Job, s: State, step: Step)
    requires Enabled(job, s, step)
  {
    var (w, g) := Act(job, s, step);
    var total := SumTagged(s.workers) + |w.tagged| - |s.workers[step.w].tagged|;
    && g <= s.global && |w.tagged| >= |s.workers[step.w].tagged|
    && (if job.max.Some? then g + total == s.global + SumTagged(s.workers) else g == s.global)
    && WorkerInv(job, step.w, w, g, total)
  }

  lemma PhaseStepSafe(job: Job, s: State, step: Step)
    requires Enabled(job, s, step) && Inv(job, s)
    requires step.CheckGlobal? || step.LoadGlobal? || step.Collect? || step.Finish?
    ensures StepSafe(job, s, step)
  {
    var w := s.workers[step.w];
    assert WorkerInv(job, step.w, w, s.global, SumTagged(s.workers));
    if step.LoadGlobal? { NothingKept(w.candidates, |w.candidates|); }
    if step.Collect? { assert KeptIndices(w.candidates, 0) == []; }
  }

  lemma CandidateStepSafe(job: Job, s: State, step: Step)
    requires Enabled(job, s, step) && Inv(job, s)
    requires step.CheckBudget? || step.Decide?
    ensures StepSafe(job, s, step)
  {
    hide KeptIndices, SumTagged;
    var w := s.workers[step.w];
    assert WorkerInv(job, step.w, w, s.global, SumTagged(s.workers));
    KeptUpdate(w.candidates, step.c, Act(job, s, step).0.candidates[step.c], |w.candidates|);
  }

  lemma TagStepSafe(job: Job, s: State, step: Step)
    requires Enabled(job, s, step) && Inv(job, s) && step.Tag?
    ensures StepSafe(job, s, step)
  {
    hide SumTagged, SegmentBudget;
    var w := s.workers[step.w];
    var (w', g) := Act(job, s, step);
    assert WorkerInv(job, step.w, w, s.global, SumTagged(s.workers));
    assert SegmentBudget(job, step.w, w', SumTagged(s.workers) + |w'.tagged| - |w.tagged|) by {
      SegmentBudgetTag(job, step.w, w, w', SumTagged(s.workers));
    }
    assert TaggedPrefix(job, w', g) by {
      hide KeptIndices;
      KeptStep(w.candidates, w.next);
    }
  }

  lemma SegmentBudgetTag(job: Job, i: nat, w: Worker, w': Worker, total: nat)
    requires i < |job.matching| && SegmentBudget(job, i, w, total)
    requires w'.budget == w.budget && w'.granted == w.granted && w'.candidates == w.candidates
    requires |w'.tagged| >= |w.tagged|
    ensures SegmentBudget(job, i, w', total + |w'.tagged| - |w.tagged|)
  {
  }

  lemma KeptStep(cs: seq<Candidate>, k: nat)
    requires k < |cs|
    ensures KeptIndices(cs, k + 1) == KeptIndices(cs, k) + if cs[k] == Kept then [k] else []
  {
  }

  lemma StepKeepsWorker(job: Job, s: State, step: Step)
    requires Enabled(job, s, step) && Inv(job, s)
    ensures StepSafe(job, s, step)
  {
    match step
    case CheckBudget(_, _) => CandidateStepSafe(job, s, step);
    case Decide(_, _) => CandidateStepSafe(job, s, step);
    case Tag(_) => TagStepSafe(job, s, step);
    case _ => PhaseStepSafe(job, s, step);
  }

  lemma {:induction false} NothingKept(cs: seq<Candidate>, k: nat)
    requires k <= |cs| && forall c :: 0 <= c < |cs| ==> cs[c] != Kept
    ensures KeptIndices(cs, k) == []
  {
    if k > 0 { NothingKept(cs, k - 1); }
  }

  lemma StepInv(job: Job, s: State, step: Step)
    requires Enabled(job, s, step) && Inv(job, s)
    ensures Inv(job, Apply(job, s, step))
  {
    hide WorkerInv, Act;
    StepKeepsWorker(job, s, step);
    var (w, g) := Act(job, s, step);
    var s' := Apply(job, s, step);
    SumTaggedUpdate(s.workers, step.w, w);
    forall i | 0 <= i < |s'.workers| ensures WorkerInv(job, i, s'.workers[i], s'.global, SumTagged(s'.workers)) {
      if i != step.w {
        OthersUndisturbed(job, i, s.workers[i], s.global, SumTagged(s.workers), g, SumTagged(s'.workers));
      }
    }
  }

  /** Every state of every interleaving: accepted plus remaining is the limit, at both levels. */
  lemma {:induction false} RunInv(job: Job, steps: seq<Step>, s: State)
    requires Reaches(job, steps, s)
    ensures Inv(job, s)
    decreases |steps|
  {
    if steps == [] {
      InitialInv(job);
    } else {
      var n := |steps| - 1;
      var before :| Reaches(job, steps[..n], before) && Enabled(job, before, steps[n])
                    && s == Apply(job, before, steps[n]);
      RunInv(job, steps[..n], before);
      StepInv(job, before, steps[n]);
    }
  }

  /** At every moment at most `max` matches have been accepted. */
  lemma AcceptedWithinLimit(job: Job, steps: seq<Step>, s: State)
    requires Reaches(job, steps, s) && job.max.Some?
    ensures SumTagged(s.workers) + s.global == job.max.value
    ensures forall i :: 0 <= i < |s.workers| && s.workers[i].phase in {Searching, Tagging, Finished} ==>
      KeptCount(s.workers[i].candidates) + s.workers[i].budget == s.workers[i].granted
  {
    RunInv(job, steps, s);
  }

  // ---- what a segment may spend ----

  /** After k steps of the run segment i was in the phase, and `left` remained of the limit. */
  ghost predicate MomentOf(job: Job, steps: seq<Step>, i: nat, phase: Phase, left: nat, k: nat, t: State) {
    k <= |steps| && Reaches(job, steps[..k], t) && i < |t.workers| && t.workers[i].phase == phase && t.global == left
  }

  ghost predicate WasLeft(job: Job, steps: seq<Step>, i: nat, phase: Phase, left: nat) {
    exists k: nat, t :: MomentOf(job, steps, i, phase, left, k, t)
  }

  lemma MomentStays(job: Job, steps: seq<Step>, i: nat, phase: Phase, left: nat)
    requires steps != [] && WasLeft(job, steps[..|steps| - 1], i, phase, left)
    ensures WasLeft(job, steps, i, phase, left)
  {
    hide Reaches;
    var n := |steps| - 1;
    var k: nat, t :| MomentOf(job, steps[..n], i, phase, left, k, t);
    assert steps[..n][..k] == steps[..k];
    assert MomentOf(job, steps, i, phase, left, k, t);
  }

  lemma LastMoment(job: Job, steps: seq<Step>, before: State, i: nat)
    requires steps != [] && Reaches(job, steps[..|steps| - 1], before) && i < |before.workers|
    ensures WasLeft(job, steps, i, before.workers[i].phase, before.global)
  {
    hide Reaches;
    assert MomentOf(job, steps, i, before.workers[i].phase, before.global, |steps| - 1, before);
  }

  /** A segment was searched only if something remained when it started, and skipped only if nothing did. */
  ghost predicate StartedRightly(job: Job, steps: seq<Step>, i: nat, w: Worker) {
    && (w.phase == Skipped ==> WasLeft(job, steps, i, Start, 0))
    && (w.phase !in {Start, Skipped} ==> exists left: nat :: left > 0 && WasLeft(job, steps, i, Start, left))
  }

  /** It may keep what remained when it loaded the counter a second time. */
  ghost predicate GrantedRightly(job: Job, steps: seq<Step>, i: nat, w: Worker) {
    w.phase in {Searching, Tagging, Finished} ==> WasLeft(job, steps, i, Entered, w.granted)
  }

  lemma {:induction false} GrantedWasLeft(job: Job, steps: seq<Step>, s: State, i: nat)
    requires Reaches(job, steps, s) && job.max.Some? && i < |s.workers|
    ensures StartedRightly(job, steps, i, s.workers[i]) && GrantedRightly(job, steps, i, s.workers[i])
    decreases |steps|
  {
    if steps != [] {
      var n := |steps| - 1;
      var before :| Reaches(job, steps[..n], before) && Enabled(job, before, steps[n])
                    && s == Apply(job, before, steps[n]);
      hide Reaches, WasLeft, Enabled, Apply, StartedRightly, GrantedRightly, Inv;
      RunInv(job, steps[..n], before);
      SameWorkers(job, before, steps[n]);
      GrantedWasLeft(job, steps[..n], before, i);
      LastMoment(job, steps, before, i);
      StartStays(job, steps, i, before.workers[i]);
      GrantStays(job, steps, i, before.workers[i]);
      StepMoments(job, steps, before, steps[n], i);
    } else {
      assert s.workers[i].phase == Start;
    }
  }

  lemma SameWorkers(job: Job, s: State, step: Step)
    requires Enabled(job, s, step)
    ensures |Apply(job, s, step).workers| == |s.workers|
  {
    hide Act;
  }

  lemma StepMoments(job: Job, steps: seq<Step>, s: State, step: Step, i: nat)
    requires Enabled(job, s, step) && i < |s.workers| && job.max.Some?
    requires StartedRightly(job, steps, i, s.workers[i]) && GrantedRightly(job, steps, i, s.workers[i])
    requires WasLeft(job, steps, i, s.workers[i].phase, s.global)
    ensures |Apply(job, s, step).workers| == |s.workers|
    ensures var w := Apply(job, s, step).workers[i];
      StartedRightly(job, steps, i, w) && GrantedRightly(job, steps, i, w)
  {
    hide WasLeft, InTurn;
  }

  lemma StartStays(job: Job, steps: seq<Step>, i: nat, w: Worker)
    requires steps != [] && StartedRightly(job, steps[..|steps| - 1], i, w)
    ensures StartedRightly(job, steps, i, w)
  {
    hide WasLeft;
    if w.phase == Skipped { MomentStays(job, steps, i, Start, 0); }
    if w.phase !in {Start, Skipped} {
      var left: nat :| left > 0 && WasLeft(job, steps[..|steps| - 1], i, Start, left);
      MomentStays(job, steps, i, Start, left);
    }
  }

  lemma GrantStays(job: Job, steps: seq<Step>, i: nat, w: Worker)
    requires steps != [] && GrantedRightly(job, steps[..|steps| - 1], i, w)
    ensures GrantedRightly(job, steps, i, w)
  {
    hide WasLeft;
    if w.phase in {Searching, Tagging, Finished} { MomentStays(job, steps, i, Entered, w.granted); }
  }

  // ---- the end of a run ----

  predicate Done(s: State) {
    forall i :: 0 <= i < |s.workers| ==> s.workers[i].phase in {Finished, Skipped}
  }

  lemma TaggedWithinMatches(job: Job, i: nat, w: Worker, global: nat, total: nat)
    requires i < |job.matching| && WorkerInv(job, i, w, global, total) && w.phase in {Finished, Skipped}
    ensures |w.tagged| <= Matches(job.matching[i])
    ensures |w.tagged| == Matches(job.matching[i]) ==>
      w.tagged == MatchIndices(job.matching[i], |job.matching[i]|)
    ensures |w.tagged| == Matches(job.matching[i])
      || (job.max.Some? && (global == 0 || job.max.value <= total))
      || (job.max.None? && Matches(job.matching[i]) > USIZE_MAX)
  {
    var m := job.matching[i];
    if w.phase == Finished {
      KeptWithinMatches(w.candidates, m, |m|);
    }
  }

  /**
   * When all workers are done, exactly min(max, matches) matches have been accepted, whatever the interleaving: the
   * early zero checks, the per-segment budgets and the final decrements lose nothing while there is room.
   */
  lemma ExactlyTheLimit(job: Job, steps: seq<Step>, s: State)
    requires Reaches(job, steps, s) && Done(s) && job.max.Some?
    ensures SumTagged(s.workers) ==
      if SumMatches(job.matching) <= job.max.value then SumMatches(job.matching) else job.max.value
  {
    hide WorkerInv;
    RunInv(job, steps, s);
    var total := SumTagged(s.workers);
    forall i | 0 <= i < |s.workers|
      ensures |s.workers[i].tagged| <= Matches(job.matching[i])
      ensures |s.workers[i].tagged| == Matches(job.matching[i]) || total == job.max.value
    {
      TaggedWithinMatches(job, i, s.workers[i], s.global, total);
    }
    SumBounds(s.workers, job.matching);
  }

  /** With room for all matches, or no limit at all, every segment delivers all its matches in candidate order. */
  lemma NothingLost(job: Job, steps: seq<Step>, s: State, i: nat)
    requires Reaches(job, steps, s) && Done(s) && i < |s.workers| == |job.matching|
    requires if job.max.Some? then SumMatches(job.matching) <= job.max.value
             else |job.matching[i]| <= USIZE_MAX
    ensures s.workers[i].tagged == MatchIndices(job.matching[i], |job.matching[i]|)
  {
    hide WorkerInv;
    RunInv(job, steps, s);
    var total := SumTagged(s.workers);
    if job.max.Some? {
      ExactlyTheLimit(job, steps, s);
      forall k | 0 <= k < |s.workers| ensures |s.workers[k].tagged| <= Matches(job.matching[k]) {
        TaggedWithinMatches(job, k, s.workers[k], s.global, total);
      }
      SumBounds(s.workers, job.matching);
    }
    TaggedWithinMatches(job, i, s.workers[i], s.global, total);
  }

  // ---- runs end, and only when everybody is done ----

  /** The first candidate that is not settled can be worked on. */
  lemma {:induction false} SearchGoesOn(job: Job, s: State, i: nat, k: nat)
    requires i < |s.workers| == |job.matching| && |s.workers[i].candidates| == |job.matching[i]|
    requires s.workers[i].phase == Searching && k <= |s.workers[i].candidates|
    requires forall c :: 0 <= c < k ==> s.workers[i].candidates[c] in {Kept, Gone}
    ensures exists step :: Enabled(job, s, step)
    decreases |s.workers[i].candidates| - k
  {
    var cs := s.workers[i].candidates;
    if k == |cs| {
      assert Enabled(job, s, Collect(i));
    } else if cs[k] == Waiting {
      assert Enabled(job, s, CheckBudget(i, k));
    } else if cs[k] == Passed {
      assert Enabled(job, s, Decide(i, k));
    } else {
      SearchGoesOn(job, s, i, k + 1);
    }
  }

  /** In every reachable state where some worker is not done, some action is possible. */
  lemma NeverStuck(job: Job, steps: seq<Step>, s: State)
    requires Reaches(job, steps, s) && !Done(s)
    ensures exists step :: Enabled(job, s, step)
  {
    RunInv(job, steps, s);
    var i :| 0 <= i < |s.workers| && s.workers[i].phase !in {Finished, Skipped};
    var w := s.workers[i];
    assert WorkerInv(job, i, w, s.global, SumTagged(s.workers));
    if w.phase == Start { assert Enabled(job, s, CheckGlobal(i)); }
    if w.phase == Entered { assert Enabled(job, s, LoadGlobal(i)); }
    if w.phase == Searching { SearchGoesOn(job, s, i, 0); }
    if w.phase == Tagging {
      assert if w.next < |w.candidates| then Enabled(job, s, Tag(i)) else Enabled(job, s, Finish(i));
    }
  }

  function Pending(cs: seq<Candidate>): nat {
    if cs == [] then 0
    else (if cs[0] == Waiting then 2 else if cs[0] == Passed then 1 else 0) + Pending(cs[1..])
  }

  /** Actions a worker can still take, at most. */
  function Left(w: Worker): int {
    match w.phase
    case Start => 3 * |w.candidates| + 4
    case Entered => 3 * |w.candidates| + 3
    case Searching => Pending(w.candidates) + |w.candidates| + 2
    case Tagging => |w.candidates| - w.next + 1
    case Finished => 0
    case Skipped => 0
  }

  function SumLeft(ws: seq<Worker>): int {
    if ws == [] then 0 else Left(ws[0]) + SumLeft(ws[1..])
  }

  lemma {:induction false} PendingBound(cs: seq<Candidate>)
    ensures Pending(cs) <= 2 * |cs|
  {
    if cs != [] { PendingBound(cs[1..]); }
  }

  lemma {:induction false} PendingUpdate(cs: seq<Candidate>, c: nat, v: Candidate)
    requires c < |cs|
    requires (cs[c] == Waiting && v in {Passed, Gone}) || (cs[c] == Passed && v in {Kept, Gone})
    ensures Pending(cs[c := v]) < Pending(cs)
  {
    if c == 0 {
      assert cs[0 := v][1..] == cs[1..];
    } else {
      PendingUpdate(cs[1..], c - 1, v);
      assert cs[c := v][1..] == cs[1..][c - 1 := v];
    }
  }

  lemma {:induction false} SumLeftUpdate(ws: seq<Worker>, i: nat, w: Worker)
    requires i < |ws|
    ensures SumLeft(ws[i := w]) == SumLeft(ws) - Left(ws[i]) + Left(w)
  {
    if i == 0 {
      assert ws[0 := w][1..] == ws[1..];
    } else {
      assert ws[i := w][1..] == ws[1..][i - 1 := w];
      SumLeftUpdate(ws[1..], i - 1, w);
    }
  }

  /** Every action uses up some of what is left, so no run goes on forever. */
  lemma StepsRunOut(job: Job, s: State, step: Step)
    requires Enabled(job, s, step)
    ensures Left(Act(job, s, step).0) < Left(s.workers[step.w])
    ensures SumLeft(Apply(job, s, step).workers) < SumLeft(s.workers)
  {
    var w := s.workers[step.w];
    var w' := Act(job, s, step).0;
    assert Left(w') < Left(w) by {
      hide Pending;
      PendingBound(w.candidates);
      if step.CheckBudget? || step.Decide? { PendingUpdate(w.candidates, step.c, w'.candidates[step.c]); }
    }
    hide Act, Left, Enabled;
    SumLeftUpdate(s.workers, step.w, w');
  }

  lemma {:induction false} LeftNonnegative(ws: seq<Worker>)
    requires forall i :: 0 <= i < |ws| ==> Left(ws[i]) >= 0
    ensures SumLeft(ws) >= 0
  {
    if ws != [] { LeftNonnegative(ws[1..]); }
  }

  /** The length of a run is bounded by the initial amount. */
  lemma {:induction false} RunsEnd(job: Job, steps: seq<Step>, s: State)
    requires Reaches(job, steps, s)
    ensures |steps| + SumLeft(s.workers) <= SumLeft(Initial(job).workers) && SumLeft(s.workers) >= 0
    decreases |steps|
  {
    hide SumLeft, Inv, Act, Initial;
    RunInv(job, steps, s);
    InvLeft(job, s);
    if steps != [] {
      var n := |steps| - 1;
      var before :| Reaches(job, steps[..n], before) && Enabled(job, before, steps[n])
                    && s == Apply(job, before, steps[n]);
      RunsEnd(job, steps[..n], before);
      StepsRunOut(job, before, steps[n]);
    }
  }

  lemma InvLeft(job: Job, s: State)
    requires Inv(job, s)
    ensures SumLeft(s.workers) >= 0
  {
    forall i | 0 <= i < |s.workers| ensures Left(s.workers[i]) >= 0 {
      assert WorkerInv(job, i, s.workers[i], s.global, SumTagged(s.workers));
    }
    LeftNonnegative(s.workers);
  }

  lemma Extend(job: Job, steps: seq<Step>, s: State, step: Step)
    requires Reaches(job, steps, s) && Enabled(job, s, step)
    ensures Reaches(job, steps + [step], Apply(job, s, step))
  {
    hide Apply, Enabled;
    var longer := steps + [step];
    assert longer[..|longer| - 1] == steps;
  }
}
