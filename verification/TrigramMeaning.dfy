/** What the trigrams extracted from a query demand of a file (ferret-core/src/query_trigrams.rs). */
module TrigramMeaning {
  // Extraction is the boolean meaning of the terms' own demands: a literal or phrase of three bytes or more demands its
  // folded trigrams, a regex what its compilation says, and filters and NOT demand nothing.

  import opened Base
  import opened Query
  import opened QueryTrigrams
  import opened SegmentSearch
  import opened Trigrams

  ghost predicate Demands(env: Env, query: Query, file: Branch) {
    match query
    case Literal(text, _) => |text| < 3 || FoldedSet(text) <= file
    case Phrase(text, _) => |text| < 3 || FoldedSet(text) <= file
    case Regex(pattern, _) => Admits(env.regex(pattern), file)
    case PathFilter(_) => true
    case LanguageFilter(_) => true
    case Not(_) => true
    case Or(left, right) => Demands(env, left, file) || Demands(env, right, file)
    case And(children) => forall i :: 0 <= i < |children| ==> Demands(env, children[i], file)
  }

  ghost predicate FirstDemand(env: Env, children: seq<Query>, n: nat, file: Branch)
    requires n <= |children|
  {
    forall i :: 0 <= i < n ==> Demands(env, children[i], file)
  }

  lemma TextDenotes(text: bytes, file: Branch)
    ensures Admits(ExtractLiteral(text), file) <==> |text| < 3 || FoldedSet(text) <= file
  {
  }

  lemma OrDenotes(l: TrigramQuery, r: TrigramQuery, file: Branch)
    requires HasBranches(l) && HasBranches(r) && !l.NoTrigrams? && !r.NoTrigrams?
    ensures Admits(FromBranches(BranchesOf(l) + BranchesOf(r)), file) <==> Admits(l, file) || Admits(r, file)
  {
    hide FromBranches;
    BranchesDenote(l, file);
    BranchesDenote(r, file);
    AnyConcat(BranchesOf(l), BranchesOf(r), file);
    FromBranchesDenotes(BranchesOf(l) + BranchesOf(r), file);
  }

  /** Every file that is admitted has what the query demands; where the branch cap does no harm, no other is rejected. */
  lemma {:induction false} ExtractDenotes(env: Env, query: Query, file: Branch)
    requires RegexBranches(env.regex)
    ensures Admits(Extract(query, env.regex), file) ==> Demands(env, query, file)
    ensures CapSafe(env, query) && Demands(env, query, file) ==> Admits(Extract(query, env.regex), file)
    decreases query, 0
  {
    hide FoldedSet, FromBranches, ExtractLiteral;
    match query
    case Literal(text, _) => TextDenotes(text, file);
    case Phrase(text, _) => TextDenotes(text, file);
    case Or(left, right) =>
      ExtractDenotes(env, left, file);
      ExtractDenotes(env, right, file);
      ExtractHasBranches(left, env.regex);
      ExtractHasBranches(right, env.regex);
      var l, r := Extract(left, env.regex), Extract(right, env.regex);
      if !l.NoTrigrams? && !r.NoTrigrams? { OrDenotes(l, r, file); }
    case And(children) =>
      assert children[..|children|] == children;
      ConjunctsDenote(env, children, |children|, file);
    case _ =>
  }

  lemma SafeAt(env: Env, children: seq<Query>, i: nat)
    requires CapSafe(env, And(children)) && i < |children|
    ensures CapSafe(env, children[i])
    ensures CapHarmless(ExtractAnd(children[..i], env.regex), Extract(children[i], env.regex))
  {
    hide CapHarmless, ExtractAnd, Extract;
  }

  lemma DemandNext(env: Env, children: seq<Query>, n: nat, file: Branch)
    requires 0 < n <= |children|
    ensures FirstDemand(env, children, n, file) <==>
            FirstDemand(env, children, n - 1, file) && Demands(env, children[n - 1], file)
  {
    hide Demands;
  }

  lemma {:induction false} ConjunctsDenote(env: Env, children: seq<Query>, n: nat, file: Branch)
    requires n <= |children| && RegexBranches(env.regex)
    ensures Admits(ExtractAnd(children[..n], env.regex), file) ==> FirstDemand(env, children, n, file)
    ensures CapSafe(env, And(children)) && FirstDemand(env, children, n, file) ==>
      Admits(ExtractAnd(children[..n], env.regex), file)
    decreases children, 1, n
  {
    hide MergeAnd, Admits, CapHarmless, HasBranches, Demands, FirstDemand, CapSafe, Extract, RegexBranches;
    if n == 0 {
      NoConjuncts(env, file);
      NoDemands(env, children, file);
      assert children[..0] == [];
    } else {
      var init, last := children[..n - 1], children[n - 1];
      assert children[..n][..n - 1] == init && children[..n][n - 1] == last;
      ConjunctsDenote(env, children, n - 1, file);
      ExtractDenotes(env, last, file);
      ExtractAndHasBranches(init, env.regex);
      ExtractHasBranches(last, env.regex);
      MergeAndDenotes(ExtractAnd(init, env.regex), Extract(last, env.regex), file);
      DemandNext(env, children, n, file);
      if CapSafe(env, And(children)) { SafeAt(env, children, n - 1); }
    }
  }

  lemma NoDemands(env: Env, children: seq<Query>, file: Branch)
    ensures FirstDemand(env, children, 0, file)
  {
  }
}
