/**
 * Evaluating a query on the content of a file (ferret-core/src/query_match.rs): boolean structure over the pattern
 * verifier, merged line matches, and context lines attached once to blocks of nearby matches.
 */
module QueryMatch {
  import opened Base
  import opened Query
  import opened Sorting
  import opened Verify

  function LeafPattern(text: bytes, caseSensitive: bool): Pattern {
    if caseSensitive then Exact(text) else Insensitive(text)
  }

  function VerifyLeaf(engine: Engine, p: Pattern, content: bytes): Option<seq<LineMatch>> {
    RangesInside(engine, p, content);
    var lines := VerifyContent(engine, p, content);
    if lines == [] then None else Some(lines)
  }

  /** Vec::dedup_by_key on the line number: drop a match on the line of the match kept just before it. */
  function DedupLines(lines: seq<LineMatch>): (r: seq<LineMatch>)
    ensures lines != [] ==> r != []
    decreases |lines|
  {
    if lines == [] then []
    else
      var kept, last := DedupLines(lines[..|lines| - 1]), lines[|lines| - 1];
      if kept != [] && kept[|kept| - 1].lineNumber == last.lineNumber then kept else kept + [last]
  }

  function SortAndDedup(lines: seq<LineMatch>): seq<LineMatch> { DedupLines(SortBy(lines, LineKey)) }

  function Eval(engine: Engine, query: Query, content: bytes): Option<seq<LineMatch>>
    decreases query, 0
  {
    match query
    case Literal(text, caseSensitive) => VerifyLeaf(engine, LeafPattern(text, caseSensitive), content)
    case Phrase(text, caseSensitive) => VerifyLeaf(engine, LeafPattern(text, caseSensitive), content)
    case Regex(pattern, caseSensitive) => VerifyLeaf(engine, RegexPattern(pattern, caseSensitive), content)
    case PathFilter(_) => Some([])
    case LanguageFilter(_) => Some([])
    case Not(inner) => if Eval(engine, inner, content).Some? then None else Some([])
    case Or(left, right) =>
      (match (Eval(engine, left, content), Eval(engine, right, content))
       case (None, None) => None
       case (Some(l), None) => Some(l)
       case (None, Some(r)) => Some(r)
       case (Some(l), Some(r)) => Some(SortAndDedup(l + r)))
    case And(children) =>
      match Gather(engine, children, content)
      case None => None
      case Some(all) => Some(SortAndDedup(all))
  }

  /** The lines of the conjuncts one after another, or None at the first conjunct that fails. */
  function Gather(engine: Engine, children: seq<Query>, content: bytes): Option<seq<LineMatch>>
    decreases children, 1
  {
    if children == [] then Some([])
    else
      match Eval(engine, children[0], content)
      case None => None
      case Some(lines) =>
        match Gather(engine, children[1..], content)
        case None => None
        case Some(rest) => Some(lines + rest)
  }

  /** The accumulator loop of the And case. */
  method EvalAnd(engine: Engine, children: seq<Query>, content: bytes) returns (r: Option<seq<LineMatch>>)
    ensures r == Eval(engine, And(children), content)
  {
    hide Eval, Gather;
    var merged: seq<LineMatch> := [];
    EvalAndIs(engine, children, content);
    assert children[0..] == children;
    PrependNone(Gather(engine, children, content));
    for i := 0 to |children|
      invariant Gather(engine, children, content) == Prepend(merged, Gather(engine, children[i..], content))
    {
      assert children[i..][1..] == children[i + 1..];
      GatherUnroll(engine, children[i..], content);
      var lines := Eval(engine, children[i], content);
      if lines.None? { return None; }
      PrependTwice(merged, lines.value, Gather(engine, children[i + 1..], content));
      merged := merged + lines.value;
    }
    GatherUnroll(engine, children[|children|..], content);
    assert merged + [] == merged;
    r := Some(SortAndDedup(merged));
  }

  function Prepend(front: seq<LineMatch>, rest: Option<seq<LineMatch>>): Option<seq<LineMatch>> {
    if rest.None? then None else Some(front + rest.value)
  }

  lemma PrependNone(rest: Option<seq<LineMatch>>)
    ensures Prepend([], rest) == rest
  {
    if rest.Some? { assert [] + rest.value == rest.value; }
  }

  lemma PrependTwice(a: seq<LineMatch>, b: seq<LineMatch>, rest: Option<seq<LineMatch>>)
    ensures Prepend(a, Prepend(b, rest)) == Prepend(a + b, rest)
  {
    if rest.Some? { assert a + (b + rest.value) == a + b + rest.value; }
  }

  lemma GatherUnroll(engine: Engine, children: seq<Query>, content: bytes)
    ensures children == [] ==> Gather(engine, children, content) == Some([])
    ensures children != [] && Eval(engine, children[0], content).None? ==> Gather(engine, children, content) == None
    ensures children != [] && Eval(engine, children[0], content).Some? ==>
      Gather(engine, children, content)
      == Prepend(Eval(engine, children[0], content).value, Gather(engine, children[1..], content))
  {
    hide Eval;
  }

  lemma EvalAndIs(engine: Engine, children: seq<Query>, content: bytes)
    ensures var g := Gather(engine, children, content);
            Eval(engine, And(children), content) == if g.None? then None else Some(SortAndDedup(g.value))
  {
  }

  // ---- meaning ----

  /** Boolean meaning on the content alone; metadata filters hold here and are checked separately. */
  ghost predicate Holds(engine: Engine, query: Query, content: bytes) {
    match query
    case Literal(text, cs) => content != [] && Matches(engine, LeafPattern(text, cs), content)
    case Phrase(text, cs) => content != [] && Matches(engine, LeafPattern(text, cs), content)
    case Regex(pattern, cs) => content != [] && Matches(engine, RegexPattern(pattern, cs), content)
    case PathFilter(_) => true
    case LanguageFilter(_) => true
    case Not(inner) => !Holds(engine, inner, content)
    case Or(left, right) => Holds(engine, left, content) || Holds(engine, right, content)
    case And(children) => forall i :: 0 <= i < |children| ==> Holds(engine, children[i], content)
  }

  /** Lines a successful query reports: a union over its successful positive parts. */
  ghost predicate Reports(engine: Engine, query: Query, content: bytes, line: nat) {
    Holds(engine, query, content) &&
    match query
    case Literal(text, cs) => StartsOn(content, Ranges(engine, LeafPattern(text, cs), content), line)
    case Phrase(text, cs) => StartsOn(content, Ranges(engine, LeafPattern(text, cs), content), line)
    case Regex(pattern, cs) => StartsOn(content, Ranges(engine, RegexPattern(pattern, cs), content), line)
    case PathFilter(_) => false
    case LanguageFilter(_) => false
    case Not(inner) => false
    case Or(left, right) => Reports(engine, left, content, line) || Reports(engine, right, content, line)
    case And(children) => exists i :: 0 <= i < |children| && Reports(engine, children[i], content, line)
  }

  // ---- sorting and deduplicating line matches ----

  lemma {:induction false} DedupLinesIncreases(lines: seq<LineMatch>)
    requires SortedBy(lines, LineKey)
    ensures Increasing(Numbers(DedupLines(lines)))
    ensures forall n :: n in Numbers(DedupLines(lines)) <==> n in Numbers(lines)
    ensures lines != [] ==> LastNumber(DedupLines(lines)) == LastNumber(lines)
    decreases |lines|
  {
    if lines != [] {
      var init, last := lines[..|lines| - 1], lines[|lines| - 1];
      DedupLinesIncreases(init);
      var kept := DedupLines(init);
      assert Numbers(lines) == Numbers(init) + [last.lineNumber];
      assert Numbers(kept + [last]) == Numbers(kept) + [last.lineNumber];
      if init != [] {
        assert LineKey(init[|init| - 1]) <= LineKey(last);
        var n := Numbers(kept);
        assert n[|n| - 1] == LastNumber(init) <= last.lineNumber;
        assert n[|n| - 1] in n;
      }
    }
  }

  function LastNumber(lines: seq<LineMatch>): nat
    requires lines != []
  {
    lines[|lines| - 1].lineNumber
  }

  lemma NumbersOf(lines: seq<LineMatch>, n: nat)
    ensures n in Numbers(lines) <==> exists m :: m in lines && m.lineNumber == n
  {
    if n in Numbers(lines) {
      var k :| 0 <= k < |lines| && Numbers(lines)[k] == n;
      assert lines[k] in lines;
    }
    if exists m :: m in lines && m.lineNumber == n {
      var m :| m in lines && m.lineNumber == n;
      var k :| 0 <= k < |lines| && lines[k] == m;
      assert Numbers(lines)[k] == n;
    }
  }

  /** Sorting and deduplicating keeps each line number once, and the numbers that occur are unchanged. */
  lemma SortAndDedupNumbers(lines: seq<LineMatch>)
    ensures Increasing(Numbers(SortAndDedup(lines)))
    ensures forall n :: n in Numbers(SortAndDedup(lines)) <==> n in Numbers(lines)
  {
    hide Numbers, DedupLines, SortedBy, Increasing;
    var sorted := SortBy(lines, LineKey);
    SortBySorted(lines, LineKey);
    DedupLinesIncreases(sorted);
    forall n ensures n in Numbers(sorted) <==> n in Numbers(lines) {
      NumbersOf(sorted, n);
      NumbersOf(lines, n);
    }
  }

  /** Of several matches on one line, the one kept comes from the earliest part of the query. */
  lemma {:induction false} DedupKeepsFirst(lines: seq<LineMatch>, i: nat)
    requires SortedBy(lines, LineKey) && i < |lines|
    requires i > 0 ==> lines[i - 1].lineNumber != lines[i].lineNumber
    ensures lines[i] in DedupLines(lines)
    decreases |lines|
  {
    var init := lines[..|lines| - 1];
    if i < |init| {
      DedupKeepsFirst(init, i);
      assert DedupLines(init) <= DedupLines(lines);
    } else if init != [] {
      hide Numbers;
      DedupLinesIncreases(init);
      assert LastNumber(DedupLines(init)) == init[|init| - 1].lineNumber;
    }
  }

  // ---- eval is a homomorphism ----

  ghost predicate EvalAgrees(engine: Engine, query: Query, content: bytes) {
    var r := Eval(engine, query, content);
    && (r.Some? <==> Holds(engine, query, content))
    && (r.Some? ==> Increasing(Numbers(r.value)))
    && (r.Some? ==> forall line :: line in Numbers(r.value) <==> Reports(engine, query, content, line))
  }

  lemma LeafAgrees(engine: Engine, p: Pattern, content: bytes)
    ensures var r := VerifyLeaf(engine, p, content);
            && (r.Some? <==> content != [] && Matches(engine, p, content))
            && (r.Some? ==> Increasing(Numbers(r.value)))
            && (r.Some? ==>
                  forall line :: line in Numbers(r.value) <==> StartsOn(content, Ranges(engine, p, content), line))
  {
    hide Ranges, Matches, VerifyContent, StartsOn;
    VerifyExact(engine, p, content);
  }

  /**
   * eval returns Some exactly when the boolean meaning holds; its lines are strictly increasing and their numbers are
   * the union over the successful children.
   */
  lemma {:induction false} EvalHomomorphism(engine: Engine, query: Query, content: bytes)
    ensures EvalAgrees(engine, query, content)
    decreases query, 0
  {
    hide VerifyLeaf, Matches, Ranges, StartsOn, SortAndDedup;
    match query
    case Literal(text, cs) => LeafAgrees(engine, LeafPattern(text, cs), content);
    case Phrase(text, cs) => LeafAgrees(engine, LeafPattern(text, cs), content);
    case Regex(pattern, cs) => LeafAgrees(engine, RegexPattern(pattern, cs), content);
    case PathFilter(_) =>
    case LanguageFilter(_) =>
    case Not(inner) => EvalHomomorphism(engine, inner, content);
    case Or(left, right) =>
      EvalHomomorphism(engine, left, content);
      EvalHomomorphism(engine, right, content);
      OrAgrees(engine, left, right, content);
    case And(children) =>
      GatherAgrees(engine, children, content);
      AndAgrees(engine, children, content);
  }

  lemma OrAgrees(engine: Engine, left: Query, right: Query, content: bytes)
    requires EvalAgrees(engine, left, content) && EvalAgrees(engine, right, content)
    ensures EvalAgrees(engine, Or(left, right), content)
  {
    hide Eval, Holds, Reports, SortAndDedup;
    var l, r := Eval(engine, left, content), Eval(engine, right, content);
    forall line ensures Reports(engine, left, content, line) ==> l.Some? {
      if Reports(engine, left, content, line) { ReportsHolds(engine, left, content, line); }
    }
    forall line ensures Reports(engine, right, content, line) ==> r.Some? {
      if Reports(engine, right, content, line) { ReportsHolds(engine, right, content, line); }
    }
    OrUnfolds(engine, left, right, content);
    OrMeaning(engine, left, right, content);
    if l.Some? && r.Some? {
      SortAndDedupNumbers(l.value + r.value);
      assert Numbers(l.value + r.value) == Numbers(l.value) + Numbers(r.value);
    }
  }

  lemma OrUnfolds(engine: Engine, left: Query, right: Query, content: bytes)
    ensures var l, r := Eval(engine, left, content), Eval(engine, right, content);
            Eval(engine, Or(left, right), content) ==
              if l.None? then r else if r.None? then l else Some(SortAndDedup(l.value + r.value))
  {
    hide SortAndDedup, VerifyLeaf, Holds, Reports;
  }

  lemma OrMeaning(engine: Engine, left: Query, right: Query, content: bytes)
    ensures Holds(engine, Or(left, right), content) <==> Holds(engine, left, content) || Holds(engine, right, content)
    ensures forall line :: Reports(engine, Or(left, right), content, line) <==>
      (Holds(engine, Or(left, right), content)
       && (Reports(engine, left, content, line) || Reports(engine, right, content, line)))
  {
    hide Eval, Matches, StartsOn, Ranges;
  }

  ghost predicate GatherIs(engine: Engine, children: seq<Query>, content: bytes) {
    var g := Gather(engine, children, content);
    && (g.Some? <==> forall i :: 0 <= i < |children| ==> Holds(engine, children[i], content))
    && (g.Some? ==> forall line :: line in Numbers(g.value) <==> AnyReports(engine, children, content, line))
  }

  ghost predicate AnyReports(engine: Engine, children: seq<Query>, content: bytes, line: nat) {
    exists i :: 0 <= i < |children| && Reports(engine, children[i], content, line)
  }

  lemma ReportsHolds(engine: Engine, query: Query, content: bytes, line: nat)
    requires Reports(engine, query, content, line)
    ensures Holds(engine, query, content)
  {
  }

  lemma {:induction false} GatherAgrees(engine: Engine, children: seq<Query>, content: bytes)
    ensures GatherIs(engine, children, content)
    decreases children, 1
  {
    if children != [] {
      EvalHomomorphism(engine, children[0], content);
      GatherAgrees(engine, children[1..], content);
      GatherStep(engine, children, content);
    }
  }

  lemma GatherStep(engine: Engine, children: seq<Query>, content: bytes)
    requires children != [] && EvalAgrees(engine, children[0], content) && GatherIs(engine, children[1..], content)
    ensures GatherIs(engine, children, content)
  {
    hide Eval, Holds, Reports;
    var head, rest := Eval(engine, children[0], content), Gather(engine, children[1..], content);
    var tail := children[1..];
    assert forall i :: 0 <= i < |tail| ==> tail[i] == children[i + 1];
    if head.Some? && rest.Some? {
      assert Numbers(head.value + rest.value) == Numbers(head.value) + Numbers(rest.value);
      forall line
        ensures line in Numbers(head.value + rest.value) <==> AnyReports(engine, children, content, line)
      {
        if line in Numbers(rest.value) {
          var i :| 0 <= i < |tail| && Reports(engine, tail[i], content, line);
          assert Reports(engine, children[i + 1], content, line);
        }
        if AnyReports(engine, children, content, line) {
          var i :| 0 <= i < |children| && Reports(engine, children[i], content, line);
          if i > 0 { assert Reports(engine, tail[i - 1], content, line); }
        }
      }
    }
  }

  lemma AndAgrees(engine: Engine, children: seq<Query>, content: bytes)
    requires GatherIs(engine, children, content)
    ensures EvalAgrees(engine, And(children), content)
  {
    hide Gather, SortAndDedup;
    var g := Gather(engine, children, content);
    if g.Some? { SortAndDedupNumbers(g.value); }
  }
}
