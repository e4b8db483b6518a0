/** From the text of a query to what a search finds (ferret-core/src/multi_search.rs). */
module ParsedSearch {
  // The parser puts alternatives below no conjunction, so only regexes that are alternations bring several branches to
  // a merge: with at most one of them in each conjunction the branch cap never cuts anything off.

  import opened Base
  import opened MultiSearch
  import opened Query
  import opened QueryPrinter
  import opened QueryTrigrams
  import opened RegexSearch
  import opened SegmentSearch
  import opened UnicodeFolding
  import G = QueryGrammar

  /** A regex whose trigrams come in several branches. */
  predicate Alternates(regex: RegexCompiler, q: Query) {
    q.Regex? && regex(q.pattern).Any?
  }

  predicate OneAlternation(regex: RegexCompiler, children: seq<Query>) {
    forall i, j :: 0 <= i < j < |children| ==> !(Alternates(regex, children[i]) && Alternates(regex, children[j]))
  }

  /** At most one such regex in each conjunction. */
  predicate FewAlternations(regex: RegexCompiler, q: Query) {
    match q
    case Or(left, right) => FewAlternations(regex, left) && FewAlternations(regex, right)
    case And(children) => OneAlternation(regex, children)
    case _ => true
  }

  predicate NoRegex(q: Query) {
    match q
    case Regex(_, _) => false
    case Not(inner) => NoRegex(inner)
    case Or(left, right) => NoRegex(left) && NoRegex(right)
    case And(children) => forall i :: 0 <= i < |children| ==> NoRegex(children[i])
    case _ => true
  }

  lemma {:induction false} NoRegexIsFew(regex: RegexCompiler, q: Query)
    requires NoRegex(q)
    ensures FewAlternations(regex, q)
  {
    if q.Or? {
      NoRegexIsFew(regex, q.left);
      NoRegexIsFew(regex, q.right);
    }
  }

  lemma TermBranches(lib: G.Library, regex: RegexCompiler, q: Query)
    requires IsTerm(lib, q)
    ensures Extract(q, regex).Any? ==> Alternates(regex, q)
  {
    hide LiteralText, RegexText;
  }

  /** Merged terms have several branches only if one of them has. */
  lemma {:induction false} MergedBranches(lib: G.Library, regex: RegexCompiler, children: seq<Query>, n: nat)
    requires n <= |children| && forall i :: 0 <= i < |children| ==> IsTerm(lib, children[i])
    ensures ExtractAnd(children[..n], regex).Any? ==> exists j :: 0 <= j < n && Alternates(regex, children[j])
  {
    hide IsTerm, Extract;
    if n > 0 {
      var init := children[..n - 1];
      assert children[..n][..n - 1] == init && children[..n][n - 1] == children[n - 1];
      MergedBranches(lib, regex, children, n - 1);
      TermBranches(lib, regex, children[n - 1]);
      NoNewBranches(ExtractAnd(init, regex), Extract(children[n - 1], regex));
    }
  }

  lemma NoNewBranches(a: TrigramQuery, b: TrigramQuery)
    ensures MergeAnd(a, b).Any? ==> a.Any? || b.Any?
  {
  }

  lemma {:induction false} ParsedCapSafe(lib: G.Library, env: Env, q: Query)
    requires IsParsed(lib, q) && FewAlternations(env.regex, q)
    ensures CapSafe(env, q)
  {
    hide IsConjunction;
    if q.Or? {
      ParsedCapSafe(lib, env, q.left);
      ConjunctionCapSafe(lib, env, q.right);
    } else {
      ConjunctionCapSafe(lib, env, q);
    }
  }

  lemma ConjunctionCapSafe(lib: G.Library, env: Env, q: Query)
    requires IsConjunction(lib, q) && FewAlternations(env.regex, q)
    ensures CapSafe(env, q)
  {
    hide CapHarmless, NotDepth;
    if q.And? {
      forall i | 0 <= i < |q.children|
        ensures CapSafe(env, q.children[i])
        ensures CapHarmless(ExtractAnd(q.children[..i], env.regex), Extract(q.children[i], env.regex))
      {
        assert IsBoundedTerm(lib, q.children[i]);
        ChildCapSafe(lib, env, q.children, i);
      }
    } else {
      TermCapSafe(lib, env, q);
    }
  }

  lemma TermCapSafe(lib: G.Library, env: Env, q: Query)
    requires IsTerm(lib, q)
    ensures CapSafe(env, q)
  {
    hide LiteralText, RegexText;
  }

  lemma ChildCapSafe(lib: G.Library, env: Env, children: seq<Query>, i: nat)
    requires i < |children| && AreTerms(lib, children) && OneAlternation(env.regex, children)
    ensures CapSafe(env, children[i])
    ensures CapHarmless(ExtractAnd(children[..i], env.regex), Extract(children[i], env.regex))
  {
    hide IsTerm, NotDepth, ExtractAnd, Extract, CapSafe, Alternates;
    forall k | 0 <= k < |children| ensures IsTerm(lib, children[k]) { assert IsBoundedTerm(lib, children[k]); }
    TermCapSafe(lib, env, children[i]);
    MergedBranches(lib, env.regex, children, i);
    TermBranches(lib, env.regex, children[i]);
  }

  /**
   * From the text of a query: if it parses, its texts and patterns are safe and no conjunction has two alternations,
   * the search through the index finds in every snapshot what brute force finds.
   */
  lemma ParsedSearchIsBruteForce(
      lib: G.Library, env: Env, library: Library, input: bytes, snapshot: seq<Segment>, context: u32)
    requires UnicodeEngine(env.engine) && CompiledBy(env.regex, library) && Honest(env.engine, library)
    requires G.ParseQuery(lib, input).Some? && Searchable(snapshot)
    requires TermsSafe(library, G.ParseQuery(lib, input).value)
    requires FewAlternations(env.regex, G.ParseQuery(lib, input).value)
    ensures var q := G.ParseQuery(lib, input).value;
      AllFound(env, snapshot, q, context)
      == seq(|snapshot|, i requires 0 <= i < |snapshot| => BruteForce(env, snapshot[i], q, context))
  {
    hide G.ParseQuery, IsParsed, UnicodeEngine, CompiledBy, Honest, TermsSafe, CapSafe, FewAlternations, AllFound,
      BruteForce;
    var q := G.ParseQuery(lib, input).value;
    ParseShape(lib, input);
    ParsedCapSafe(lib, env, q);
    SafeQueryEqualsBruteForce(env, library, snapshot, q, context);
  }
}
