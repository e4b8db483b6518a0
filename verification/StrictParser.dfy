/**
 * The backtracking of parse_and (ferret-core/src/query.rs) never rescues a query: a grammar that gives up at the first
 * term that does not parse accepts the same inputs with the same results.
 */
module StrictParser {
  import opened Base
  import opened Query
  import opened QueryPrinter
  import G = QueryGrammar

  // ---- the grammar without backtracking ----

  function StrictAndTail(lib: G.Library, children: seq<Query>, s: bytes, cs: bool, d: nat): (o: G.Outcome)
    ensures |o.rest| <= |s|
    decreases |s|
  {
    var t := G.SkipSpace(s);
    if t == [] || G.KeywordAt(t, G.KwOr()) then G.Outcome(Some(G.Conjoin(children)), t, cs, d)
    else
      var u := G.ParseUnary(lib, t, cs, d);
      if u.result.None? then u
      else StrictAndTail(lib, children + [u.result.value], u.rest, u.caseSensitive, u.depth)
  }

  function StrictAnd(lib: G.Library, s: bytes, cs: bool, d: nat): (o: G.Outcome)
    ensures |o.rest| <= |s|
  {
    var first := G.ParseUnary(lib, G.SkipSpace(s), cs, d);
    if first.result.None? then first
    else StrictAndTail(lib, [first.result.value], first.rest, first.caseSensitive, first.depth)
  }

  function StrictOrTail(lib: G.Library, left: Query, s: bytes, cs: bool, d: nat): G.Outcome
    decreases |s|
  {
    var t := G.SkipSpace(s);
    if G.KeywordAt(t, G.KwOr()) then
      var right := StrictAnd(lib, G.SkipSpace(t[|G.KwOr()|..]), cs, d);
      if right.result.None? then right
      else StrictOrTail(lib, Or(left, right.result.value), right.rest, right.caseSensitive, right.depth)
    else G.Outcome(Some(left), t, cs, d)
  }

  /** The whole input has to be used up by terms that all parse. */
  function StrictQuery(lib: G.Library, input: bytes): Option<Query> {
    if G.AllBlank(input) then None
    else
      var left := StrictAnd(lib, input, false, 0);
      if left.result.None? then None
      else StrictOrTail(lib, left.result.value, left.rest, left.caseSensitive, left.depth).result
  }

  // ---- the two agree ----

  /** Input at which parse_or stops and parse_query reports an error. */
  ghost predicate Stuck(s: bytes) {
    s != [] && G.SkipSpace(s) == s && !G.KeywordAt(s, G.KwOr())
  }

  /** Either both succeed alike, or the backtracking parser is stuck where the strict one gave up. */
  ghost predicate Follows(o: G.Outcome, strict: G.Outcome) {
    if strict.result.Some? then o == strict && Halted(o.rest) else o.result.None? || Stuck(o.rest)
  }

  /** Input at which a conjunction is complete. */
  ghost predicate Halted(s: bytes) {
    s == [] || G.KeywordAt(s, G.KwOr())
  }

  lemma {:induction false} AndTailFollows(lib: G.Library, children: seq<Query>, s: bytes, cs: bool, d: nat)
    ensures Follows(G.Conjunction(G.ParseAndTail(lib, children, s, cs, d)), StrictAndTail(lib, children, s, cs, d))
    decreases |s|
  {
    hide G.SkipSpace, G.KeywordAt, G.ParseUnary, G.ParseAndTail, G.Conjunction, G.Conjoin;
    var t := G.SkipSpace(s);
    SkipIdle(s);
    if t == [] || G.KeywordAt(t, G.KwOr()) {
      G.AndStop(lib, children, s, cs, d);
    } else {
      G.AndStep(lib, children, s, cs, d);
      var u := G.ParseUnary(lib, t, cs, d);
      if u.result.Some? {
        AndTailFollows(lib, children + [u.result.value], u.rest, u.caseSensitive, u.depth);
      }
    }
  }

  lemma AndFollows(lib: G.Library, s: bytes, cs: bool, d: nat)
    ensures Follows(G.ParseAnd(lib, s, cs, d), StrictAnd(lib, s, cs, d))
  {
    hide G.SkipSpace, G.KeywordAt, G.ParseUnary, G.ParseAnd, G.ParseAndTail, G.Conjunction, StrictAndTail;
    G.AndWhole(lib, s, cs, d);
    var first := G.ParseUnary(lib, G.SkipSpace(s), cs, d);
    if first.result.Some? {
      AndTailFollows(lib, [first.result.value], first.rest, first.caseSensitive, first.depth);
    }
  }

  /** How parse_query judges what parse_or left behind. */
  function Verdict(o: G.Outcome): Option<Query> {
    if o.result.None? || G.SkipSpace(o.rest) != [] then None else o.result
  }

  lemma StuckFails(lib: G.Library, left: Query, s: bytes, cs: bool, d: nat)
    requires Stuck(s)
    ensures Verdict(G.ParseOrTail(lib, left, s, cs, d)) == None
  {
    hide G.KeywordAt, G.ParseOrTail, G.SkipSpace;
    G.OrStop(lib, left, s, cs, d);
  }

  lemma {:induction false} OrTailFollows(lib: G.Library, left: Query, s: bytes, cs: bool, d: nat)
    requires Halted(G.SkipSpace(s))
    ensures Verdict(G.ParseOrTail(lib, left, s, cs, d)) == StrictOrTail(lib, left, s, cs, d).result
    decreases |s|
  {
    hide G.SkipSpace, G.KeywordAt, G.ParseAnd, G.ParseOrTail, StrictAnd, Stuck;
    var t := G.SkipSpace(s);
    SkipIdle(s);
    if G.KeywordAt(t, G.KwOr()) {
      KeywordPrefix(t, G.KwOr());
      var u := G.SkipSpace(t[|G.KwOr()|..]);
      G.OrStep(lib, left, s, cs, d);
      AndFollows(lib, u, cs, d);
      var right, strict := G.ParseAnd(lib, u, cs, d), StrictAnd(lib, u, cs, d);
      if strict.result.Some? {
        HaltedSkips(right.rest);
        OrTailFollows(lib, Or(left, right.result.value), right.rest, right.caseSensitive, right.depth);
      } else if right.result.Some? {
        StuckFails(lib, Or(left, right.result.value), right.rest, right.caseSensitive, right.depth);
      }
    } else {
      G.OrStop(lib, left, s, cs, d);
    }
  }

  lemma HaltedSkips(s: bytes)
    requires Halted(s)
    ensures Halted(G.SkipSpace(s))
  {
    if G.KeywordAt(s, G.KwOr()) {
      assert s[0] == G.KwOr()[0];
      SkipNothing(s);
    }
  }

  /** Any term that does not parse makes the whole query fail. */
  lemma BacktrackingNeverHelps(lib: G.Library, input: bytes)
    ensures G.ParseQuery(lib, input) == StrictQuery(lib, input)
  {
    hide G.SkipSpace, G.KeywordAt, G.ParseAnd, G.ParseOr, G.ParseOrTail, StrictAnd, StrictOrTail, Stuck, Halted;
    hide G.AllBlank;
    G.OrWhole(lib, input, false, 0);
    AndFollows(lib, input, false, 0);
    var left, strict := G.ParseAnd(lib, input, false, 0), StrictAnd(lib, input, false, 0);
    if strict.result.Some? {
      HaltedSkips(left.rest);
      OrTailFollows(lib, left.result.value, left.rest, left.caseSensitive, left.depth);
    } else if left.result.Some? {
      StuckFails(lib, left.result.value, left.rest, left.caseSensitive, left.depth);
    }
  }
}
