/** Which part of a query a reported line comes from (ferret-core/src/query_match.rs). */
module EarliestMatch {
  // Lines that several parts of a query report are merged by a stable sort and a dedup that keeps the first. So a line
  // of an OR is the left side's if that side reports it, and a line of a conjunction is that of the first conjunct.

  import opened Base
  import opened Query
  import opened QueryMatch
  import opened Sorting
  import opened Verify

  function FirstOnLine(lines: seq<LineMatch>, n: nat): (m: LineMatch)
    requires n in Numbers(lines)
    ensures m in lines && m.lineNumber == n
  {
    if lines[0].lineNumber == n then lines[0]
    else
      NumberBehind(lines, n);
      FirstOnLine(lines[1..], n)
  }

  lemma NumberBehind(lines: seq<LineMatch>, n: nat)
    requires n in Numbers(lines) && lines[0].lineNumber != n
    ensures n in Numbers(lines[1..])
  {
    var k :| 0 <= k < |lines| && Numbers(lines)[k] == n;
    assert Numbers(lines[1..])[k - 1] == n;
  }

  function OnLine(n: nat): LineMatch -> bool { (m: LineMatch) => m.lineNumber == n }

  lemma {:induction false} FirstFiltered(lines: seq<LineMatch>, n: nat)
    requires n in Numbers(lines)
    ensures Filter(lines, OnLine(n)) != [] && Filter(lines, OnLine(n))[0] == FirstOnLine(lines, n)
  {
    if lines[0].lineNumber != n {
      NumberBehind(lines, n);
      FirstFiltered(lines[1..], n);
    }
  }

  /** Sorting leaves the order of the matches on one line alone. */
  lemma SortKeepsFirst(lines: seq<LineMatch>, n: nat)
    requires n in Numbers(lines)
    ensures n in Numbers(SortBy(lines, LineKey)) && FirstOnLine(SortBy(lines, LineKey), n) == FirstOnLine(lines, n)
  {
    var sorted, keep := SortBy(lines, LineKey), OnLine(n);
    NumbersOf(lines, n);
    NumbersOf(sorted, n);
    SortByFiltered(lines, LineKey, keep);
    var on := Filter(lines, keep);
    forall i, j | 0 <= i < j < |on| ensures LineKey(on[i]) <= LineKey(on[j]) {
      assert on[i] in on && on[j] in on;
    }
    SortedStays(on, LineKey);
    FirstFiltered(lines, n);
    FirstFiltered(sorted, n);
  }

  lemma {:induction false} FirstAt(lines: seq<LineMatch>, n: nat) returns (i: nat)
    requires n in Numbers(lines)
    ensures i < |lines| && lines[i] == FirstOnLine(lines, n) && forall j :: 0 <= j < i ==> lines[j].lineNumber != n
  {
    i := 0;
    if lines[0].lineNumber != n {
      NumberBehind(lines, n);
      i := FirstAt(lines[1..], n);
      i := i + 1;
    }
  }

  /** Merging keeps the first match of every line. */
  lemma MergeKeepsFirst(lines: seq<LineMatch>, m: LineMatch)
    requires m in SortAndDedup(lines)
    ensures m.lineNumber in Numbers(lines) && m == FirstOnLine(lines, m.lineNumber)
  {
    var sorted, n := SortBy(lines, LineKey), m.lineNumber;
    SortAndDedupNumbers(lines);
    NumbersOf(SortAndDedup(lines), n);
    SortKeepsFirst(lines, n);
    SortBySorted(lines, LineKey);
    var i := FirstAt(sorted, n);
    DedupKeepsFirst(sorted, i);
    OneOnLine(SortAndDedup(lines), m, sorted[i]);
  }

  lemma OneOnLine(lines: seq<LineMatch>, a: LineMatch, b: LineMatch)
    requires Increasing(Numbers(lines)) && a in lines && b in lines && a.lineNumber == b.lineNumber
    ensures a == b
  {
    var i :| 0 <= i < |lines| && lines[i] == a;
    var j :| 0 <= j < |lines| && lines[j] == b;
    assert Numbers(lines)[i] == Numbers(lines)[j];
  }

  lemma {:induction false} FirstOfBoth(a: seq<LineMatch>, b: seq<LineMatch>, n: nat)
    requires n in Numbers(a + b)
    ensures FirstOnLine(a + b, n) in a || (n !in Numbers(a) && FirstOnLine(a + b, n) in b)
  {
    if a == [] {
      assert a + b == b;
    } else if a[0].lineNumber != n {
      NumberBehind(a + b, n);
      assert (a + b)[1..] == a[1..] + b;
      FirstOfBoth(a[1..], b, n);
      if n in Numbers(a) { NumberBehind(a, n); }
    }
  }

  /** A line of an OR is the left side's match if that side reports the line. */
  lemma OrKeepsLeft(engine: Engine, left: Query, right: Query, content: bytes, m: LineMatch)
    requires Eval(engine, left, content).Some? && Eval(engine, right, content).Some?
    requires Eval(engine, Or(left, right), content).Some? && m in Eval(engine, Or(left, right), content).value
    ensures var l, r := Eval(engine, left, content).value, Eval(engine, right, content).value;
      m in l || (m.lineNumber !in Numbers(l) && m in r)
  {
    hide Eval, SortAndDedup;
    OrUnfolds(engine, left, right, content);
    var l, r := Eval(engine, left, content).value, Eval(engine, right, content).value;
    MergeKeepsFirst(l + r, m);
    FirstOfBoth(l, r, m.lineNumber);
  }

  /** Conjunct i reports the match, and none before it reports the line. */
  ghost predicate ComesFrom(engine: Engine, children: seq<Query>, content: bytes, m: LineMatch, i: nat) {
    && i < |children| && Eval(engine, children[i], content).Some? && m in Eval(engine, children[i], content).value
    && forall j :: 0 <= j < i ==> !ReportsLine(engine, children[j], content, m.lineNumber)
  }

  ghost predicate ReportsLine(engine: Engine, query: Query, content: bytes, n: nat) {
    Eval(engine, query, content).Some? && n in Numbers(Eval(engine, query, content).value)
  }

  lemma {:induction false} GatherFirst(engine: Engine, children: seq<Query>, content: bytes, n: nat) returns (i: nat)
    requires Gather(engine, children, content).Some? && n in Numbers(Gather(engine, children, content).value)
    ensures ComesFrom(engine, children, content, FirstOnLine(Gather(engine, children, content).value, n), i)
  {
    hide Eval;
    var head, rest := Eval(engine, children[0], content).value, Gather(engine, children[1..], content).value;
    FirstOfBoth(head, rest, n);
    var m := FirstOnLine(head + rest, n);
    if n in Numbers(head) {
      i := 0;
      NumbersOf(head, n);
      assert m in head by { FirstIsLeft(head, rest, n); }
    } else {
      FirstIsRight(head, rest, n);
      i := GatherFirst(engine, children[1..], content, n);
      assert children[1..][i] == children[i + 1];
      forall j | 0 <= j < i + 1 ensures !ReportsLine(engine, children[j], content, n) {
        if j > 0 { assert children[1..][j - 1] == children[j]; }
      }
      i := i + 1;
    }
  }

  lemma {:induction false} FirstIsLeft(a: seq<LineMatch>, b: seq<LineMatch>, n: nat)
    requires n in Numbers(a)
    ensures n in Numbers(a + b) && FirstOnLine(a + b, n) == FirstOnLine(a, n)
  {
    var k :| 0 <= k < |a| && Numbers(a)[k] == n;
    assert Numbers(a + b)[k] == n;
    if a[0].lineNumber != n {
      NumberBehind(a, n);
      assert (a + b)[1..] == a[1..] + b;
      FirstIsLeft(a[1..], b, n);
    }
  }

  lemma {:induction false} FirstIsRight(a: seq<LineMatch>, b: seq<LineMatch>, n: nat)
    requires n in Numbers(a + b) && n !in Numbers(a)
    ensures n in Numbers(b) && FirstOnLine(a + b, n) == FirstOnLine(b, n)
  {
    if a == [] {
      assert a + b == b;
    } else {
      assert Numbers(a)[0] == a[0].lineNumber;
      NumberBehind(a + b, n);
      assert (a + b)[1..] == a[1..] + b;
      assert Numbers(a) == [a[0].lineNumber] + Numbers(a[1..]);
      FirstIsRight(a[1..], b, n);
    }
  }

  /** A line of a conjunction is the match of the first conjunct that reports the line. */
  lemma AndKeepsFirst(engine: Engine, children: seq<Query>, content: bytes, m: LineMatch) returns (i: nat)
    requires Eval(engine, And(children), content).Some? && m in Eval(engine, And(children), content).value
    ensures ComesFrom(engine, children, content, m, i)
  {
    AndUnfolds(engine, children, content);
    hide Eval, SortAndDedup, Gather;
    var all := Gather(engine, children, content).value;
    MergeKeepsFirst(all, m);
    i := GatherFirst(engine, children, content, m.lineNumber);
  }

  lemma AndUnfolds(engine: Engine, children: seq<Query>, content: bytes)
    ensures Eval(engine, And(children), content) ==
            if Gather(engine, children, content).None? then None
            else Some(SortAndDedup(Gather(engine, children, content).value))
  {
    hide SortAndDedup, Gather, VerifyLeaf;
  }
}
