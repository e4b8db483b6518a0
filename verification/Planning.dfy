/** Planning a literal query against one segment (ferret-core/src/query_plan.rs). */
module Planning {
  import opened Base
  import opened IndexReader
  import opened Intersection
  import opened PostingLists
  import opened Sorting
  import opened Trigrams

  datatype ScoredTrigram = ScoredTrigram(trigram: Trigram, estimatedCount: u32)

  datatype QueryPlan = QueryPlan(trigramPlan: seq<ScoredTrigram>, isEmpty: bool) {
    predicate CanShortCircuit() {
      isEmpty || exists i :: 0 <= i < |trigramPlan| && trigramPlan[i].estimatedCount == 0
    }
  }

  function Count(s: ScoredTrigram): int { s.estimatedCount }

  /** Each folded trigram of the query once, with its estimate, smallest estimate first; nothing for a short query. */
  ghost predicate PlanFor(reader: Reader, query: bytes, plan: QueryPlan)
    requires WellFormed(reader)
  {
    if |query| < 3 then plan == QueryPlan([], true)
    else
      && !plan.isEmpty
      && |plan.trigramPlan| == |FoldedSet(query)|
      && SortedBy(plan.trigramPlan, Count)
      && forall s :: s in plan.trigramPlan <==>
           s.trigram in FoldedSet(query) && s.estimatedCount == EstimatePostingListSize(reader, s.trigram)
  }

  method PlanLiteralQuery(reader: Reader, query: bytes) returns (plan: QueryPlan)
    requires WellFormed(reader)
    ensures PlanFor(reader, query, plan)
  {
    hide WellFormed, EstimatePostingListSize, FoldedSet;
    if |query| < 3 { return QueryPlan([], true); }
    var todo := FoldedSet(query);
    var scored: seq<ScoredTrigram> := [];
    while todo != {}
      invariant todo <= FoldedSet(query) && |scored| + |todo| == |FoldedSet(query)|
      invariant forall s :: s in scored <==>
        s.trigram in FoldedSet(query) && s.trigram !in todo
        && s.estimatedCount == EstimatePostingListSize(reader, s.trigram)
    {
      var t :| t in todo;
      scored := scored + [ScoredTrigram(t, EstimatePostingListSize(reader, t))];
      todo := todo - {t};
    }
    SortBySorted(scored, Count);
    plan := QueryPlan(SortBy(scored, Count), false);
  }

  /** A trigram of the query that no file has. */
  ghost predicate Missing(added: Files, query: bytes, t: Trigram) {
    t in FoldedSet(query) && forall x: u32 :: !HasTrigram(added, x, t)
  }

  lemma EstimateZero(reader: Reader, added: Files, t: Trigram)
    requires Serves(reader, added)
    ensures EstimatePostingListSize(reader, t) == 0 <==> forall x: u32 :: !HasTrigram(added, x, t)
  {
    hide LookupFileIds, EstimatePostingListSize, WellFormed, HasTrigram, Increasing;
    assert ServesTrigram(reader, added, t);
    var ids := LookupFileIds(reader, t).value;
    if ids != [] { assert ids[0] in ids; }
  }

  /** A plan can be cut short exactly if the query is too short or one of its trigrams is in no file. */
  lemma ShortCircuitExactly(reader: Reader, added: Files, query: bytes, plan: QueryPlan)
    requires Serves(reader, added) && PlanFor(reader, query, plan)
    ensures plan.CanShortCircuit() <==> |query| < 3 || exists t :: Missing(added, query, t)
  {
    hide EstimatePostingListSize, FoldedSet, Serves, HasTrigram, WellFormed;
    if |query| >= 3 {
      if plan.CanShortCircuit() {
        var i :| 0 <= i < |plan.trigramPlan| && plan.trigramPlan[i].estimatedCount == 0;
        assert plan.trigramPlan[i] in plan.trigramPlan;
        EstimateZero(reader, added, plan.trigramPlan[i].trigram);
        assert Missing(added, query, plan.trigramPlan[i].trigram);
      }
      if t :| Missing(added, query, t) {
        EstimateZero(reader, added, t);
        assert ScoredTrigram(t, 0) in plan.trigramPlan;
      }
    }
  }

  /** If a plan can be cut short, find_candidates returns the empty list, for a query of any length. */
  lemma ShortCircuitIsSafe(reader: Reader, added: Files, query: bytes, plan: QueryPlan, ids: seq<u32>)
    requires Serves(reader, added) && PlanFor(reader, query, plan) && IsCandidateList(added, query, ids)
    requires plan.CanShortCircuit()
    ensures ids == []
  {
    hide FoldedSet, Serves, HasTrigram, Increasing, PlanFor;
    assert ids != [] ==> ids[0] in ids;
    ShortCircuitExactly(reader, added, query, plan);
    if |query| >= 3 {
      var t :| Missing(added, query, t);
      if ids != [] { assert false; }
    }
  }

  /** No file contains, up to ASCII case, a query of three bytes or more whose plan can be cut short. */
  lemma ShortCircuitMissesNothing(reader: Reader, added: Files, query: bytes, plan: QueryPlan, k: nat)
    requires Serves(reader, added) && PlanFor(reader, query, plan) && |query| >= 3 && k < |added|
    ensures plan.CanShortCircuit() ==> !OccursFolded(query, added[k].1)
  {
    hide FoldedSet, Serves, OccursFolded, PlanFor, HasTrigram;
    ShortCircuitExactly(reader, added, query, plan);
    if plan.CanShortCircuit() {
      var t :| Missing(added, query, t);
      HasOwnTrigrams(added, k, t);
      if OccursFolded(query, added[k].1) {
        OccurrenceHasTrigrams(query, added[k].1);
        assert false;
      }
    }
  }

  lemma HasOwnTrigrams(added: Files, k: nat, t: Trigram)
    requires k < |added|
    ensures t in FoldedSet(added[k].1) ==> HasTrigram(added, added[k].0, t)
  {
    hide FoldedSet;
  }
}
