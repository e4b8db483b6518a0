/** Compiling a query to trigram constraints (ferret-core/src/query_trigrams.rs). */
module QueryTrigrams {
  // A TrigramQuery denotes the set of files it admits, a file being known here by its set of folded trigrams.
  // MergeAnd must denote intersection and the extraction must admit every file the query matches; the cap of 64
  // branches is where both can fail, and the lemmas say exactly when.

  import opened Base
  import opened Query
  import opened Trigrams

  type Branch = set<Trigram>

  datatype TrigramQuery =
    | All(trigrams: Branch)
    | Any(branches: seq<Branch>)
    | NoTrigrams

  const MAX_BRANCHES: nat := 64

  ghost predicate Admits(tq: TrigramQuery, file: Branch) {
    match tq
    case All(ts) => ts <= file
    case Any(bs) => AnyBranch(bs, file)
    case NoTrigrams => true
  }

  ghost predicate AnyBranch(bs: seq<Branch>, file: Branch) {
    exists i :: 0 <= i < |bs| && bs[i] <= file
  }

  function ExtractLiteral(text: bytes): TrigramQuery {
    if |text| < 3 then NoTrigrams
    else
      var ts := FoldedSet(text);
      if ts == {} then NoTrigrams else All(ts)
  }

  // ---- merge_and ----

  /** All unions of a branch of `a` with a branch of `b`, row by row. */
  function CrossRow(a: Branch, bs: seq<Branch>): (r: seq<Branch>)
    ensures |r| == |bs| && forall j :: 0 <= j < |bs| ==> r[j] == a + bs[j]
  {
    seq(|bs|, j requires 0 <= j < |bs| => a + bs[j])
  }

  function Cross(xs: seq<Branch>, ys: seq<Branch>): (r: seq<Branch>)
    ensures |r| == |xs| * |ys|
  {
    if xs == [] then []
    else
      assert |xs| * |ys| == |ys| + (|xs| - 1) * |ys|;
      CrossRow(xs[0], ys) + Cross(xs[1..], ys)
  }

  function Distribute(all: Branch, bs: seq<Branch>): (r: seq<Branch>)
    ensures |r| == |bs| && forall j :: 0 <= j < |bs| ==> r[j] == bs[j] + all
  {
    seq(|bs|, j requires 0 <= j < |bs| => bs[j] + all)
  }

  function FromBranches(bs: seq<Branch>): TrigramQuery {
    if |bs| == 0 then NoTrigrams else if |bs| == 1 then All(bs[0]) else Any(bs)
  }

  function MergeAnd(a: TrigramQuery, b: TrigramQuery): TrigramQuery {
    match (a, b)
    case (NoTrigrams, _) => b
    case (_, NoTrigrams) => a
    case (All(s), All(t)) => All(s + t)
    case (All(s), Any(bs)) => Any(Distribute(s, bs))
    case (Any(bs), All(s)) => Any(Distribute(s, bs))
    case (Any(xs), Any(ys)) =>
      if |Cross(xs, ys)| >= MAX_BRANCHES then Any(Cross(xs, ys)[..MAX_BRANCHES]) else FromBranches(Cross(xs, ys))
  }

  /** The nested loop of the last case, which stops as soon as 64 branches have been pushed. */
  method MergeAnyAny(xs: seq<Branch>, ys: seq<Branch>) returns (r: TrigramQuery)
    ensures r == MergeAnd(Any(xs), Any(ys))
  {
    hide Cross;
    var result: seq<Branch> := [];
    assert Cross(xs[..0], ys) == [] by { CrossNone(ys); }
    for i := 0 to |xs|
      invariant result == Cross(xs[..i], ys) && |result| < MAX_BRANCHES
    {
      CrossGrows(xs, ys, i);
      var row := CrossRow(xs[i], ys);
      ghost var start := result;
      for j := 0 to |ys|
        invariant result == start + row[..j] && |result| < MAX_BRANCHES
      {
        result := result + [xs[i] + ys[j]];
        assert result == start + row[..j + 1];
        if |result| >= MAX_BRANCHES {
          assert result == Cross(xs, ys)[..MAX_BRANCHES] by { CrossPrefix(xs, ys, i + 1); }
          assert |Cross(xs, ys)| >= MAX_BRANCHES by { CrossPrefix(xs, ys, i + 1); }
          return Any(result);
        }
      }
      assert row[..|ys|] == row;
    }
    assert xs[..|xs|] == xs;
    if |result| == 0 {
      r := NoTrigrams;
    } else if |result| == 1 {
      r := All(result[0]);
    } else {
      r := Any(result);
    }
  }

  lemma CrossNone(ys: seq<Branch>)
    ensures Cross([], ys) == []
  {
  }

  lemma {:induction false} CrossConcat(xs: seq<Branch>, zs: seq<Branch>, ys: seq<Branch>)
    ensures Cross(xs + zs, ys) == Cross(xs, ys) + Cross(zs, ys)
  {
    if xs == [] {
      assert xs + zs == zs;
    } else {
      assert (xs + zs)[1..] == xs[1..] + zs && (xs + zs)[0] == xs[0];
      CrossConcat(xs[1..], zs, ys);
    }
  }

  lemma CrossGrows(xs: seq<Branch>, ys: seq<Branch>, i: nat)
    requires i < |xs|
    ensures Cross(xs[..i + 1], ys) == Cross(xs[..i], ys) + CrossRow(xs[i], ys)
  {
    assert xs[..i + 1] == xs[..i] + [xs[i]];
    CrossConcat(xs[..i], [xs[i]], ys);
    assert Cross([xs[i]], ys) == CrossRow(xs[i], ys) + Cross([], ys);
  }

  lemma CrossPrefix(xs: seq<Branch>, ys: seq<Branch>, i: nat)
    requires i <= |xs|
    ensures Cross(xs[..i], ys) <= Cross(xs, ys)
  {
    assert xs == xs[..i] + xs[i..];
    CrossConcat(xs[..i], xs[i..], ys);
  }

  /** A file is admitted by the full cross product exactly when both factors admit it. */
  lemma {:induction false} CrossDenotes(xs: seq<Branch>, ys: seq<Branch>, file: Branch)
    ensures AnyBranch(Cross(xs, ys), file) <==> AnyBranch(xs, file) && AnyBranch(ys, file)
  {
    if xs != [] {
      CrossDenotes(xs[1..], ys, file);
      var row, rest := CrossRow(xs[0], ys), Cross(xs[1..], ys);
      AnyConcat(row, rest, file);
      AnyConcat([xs[0]], xs[1..], file);
      assert xs == [xs[0]] + xs[1..];
      assert AnyBranch([xs[0]], file) <==> xs[0] <= file by { assert [xs[0]][0] == xs[0]; }
      RowDenotes(xs[0], ys, file);
    }
  }

  lemma RowDenotes(x: Branch, ys: seq<Branch>, file: Branch)
    ensures AnyBranch(CrossRow(x, ys), file) <==> x <= file && AnyBranch(ys, file)
  {
    var row := CrossRow(x, ys);
    if AnyBranch(row, file) { var j :| 0 <= j < |row| && row[j] <= file; assert ys[j] <= file; }
    if x <= file && AnyBranch(ys, file) { var j :| 0 <= j < |ys| && ys[j] <= file; assert row[j] <= file; }
  }

  lemma AnyConcat(xs: seq<Branch>, ys: seq<Branch>, file: Branch)
    ensures AnyBranch(xs + ys, file) <==> AnyBranch(xs, file) || AnyBranch(ys, file)
  {
    var all := xs + ys;
    if AnyBranch(xs, file) { var i :| 0 <= i < |xs| && xs[i] <= file; assert all[i] <= file; }
    if AnyBranch(ys, file) { var i :| 0 <= i < |ys| && ys[i] <= file; assert all[|xs| + i] <= file; }
    if AnyBranch(all, file) {
      var i :| 0 <= i < |all| && all[i] <= file;
      if i < |xs| { assert xs[i] <= file; } else { assert ys[i - |xs|] <= file; }
    }
  }

  lemma DistributeDenotes(all: Branch, bs: seq<Branch>, file: Branch)
    ensures AnyBranch(Distribute(all, bs), file) <==> all <= file && AnyBranch(bs, file)
  {
    var r := Distribute(all, bs);
    if AnyBranch(r, file) { var j :| 0 <= j < |r| && r[j] <= file; assert bs[j] <= file; }
    if all <= file && AnyBranch(bs, file) { var j :| 0 <= j < |bs| && bs[j] <= file; assert r[j] <= file; }
  }

  /** An Any without branches admits nothing; extraction never makes one. */
  predicate HasBranches(tq: TrigramQuery) { tq.Any? ==> |tq.branches| >= 2 }

  predicate WithinCap(a: TrigramQuery, b: TrigramQuery) {
    a.Any? && b.Any? ==> |a.branches| * |b.branches| <= MAX_BRANCHES
  }

  lemma MergeKeepsBranches(a: TrigramQuery, b: TrigramQuery)
    requires HasBranches(a) && HasBranches(b)
    ensures HasBranches(MergeAnd(a, b))
  {
  }

  /** What the cap cuts off is implied by what it keeps. */
  ghost predicate CapHarmless(a: TrigramQuery, b: TrigramQuery) {
    a.Any? && b.Any? ==>
      var all := Cross(a.branches, b.branches);
      forall k :: MAX_BRANCHES <= k < |all| ==> AnyBranch(all[..MAX_BRANCHES], all[k])
  }

  /** merge_and never admits more than both sides, and admits exactly the intersection below the cap. */
  lemma MergeAndDenotes(a: TrigramQuery, b: TrigramQuery, file: Branch)
    requires HasBranches(a) && HasBranches(b)
    ensures Admits(MergeAnd(a, b), file) ==> Admits(a, file) && Admits(b, file)
    ensures CapHarmless(a, b) ==> (Admits(MergeAnd(a, b), file) <==> Admits(a, file) && Admits(b, file))
  {
    hide Cross;
    match (a, b) {
      case (All(s), Any(bs)) => DistributeDenotes(s, bs, file);
      case (Any(bs), All(s)) => DistributeDenotes(s, bs, file);
      case (Any(xs), Any(ys)) => MergeAnyDenotes(xs, ys, file);
      case _ =>
    }
  }

  lemma MergeAnyDenotes(xs: seq<Branch>, ys: seq<Branch>, file: Branch)
    requires |xs| >= 2 && |ys| >= 2
    ensures Admits(MergeAnd(Any(xs), Any(ys)), file) ==> AnyBranch(xs, file) && AnyBranch(ys, file)
    ensures CapHarmless(Any(xs), Any(ys)) && AnyBranch(xs, file) && AnyBranch(ys, file)
        ==> Admits(MergeAnd(Any(xs), Any(ys)), file)
  {
    hide Cross;
    CrossDenotes(xs, ys, file);
    var all := Cross(xs, ys);
    assert |all| >= 4 by { assert |xs| * |ys| >= 2 * |ys|; }
    if |all| >= MAX_BRANCHES {
      var kept, cut := all[..MAX_BRANCHES], all[MAX_BRANCHES..];
      assert all == kept + cut;
      AnyConcat(kept, cut, file);
      if CapHarmless(Any(xs), Any(ys)) && AnyBranch(cut, file) {
        var k :| 0 <= k < |cut| && cut[k] <= file;
        assert all[MAX_BRANCHES + k] == cut[k];
        var i :| 0 <= i < |kept| && kept[i] <= cut[k];
        assert kept[i] <= file;
      }
    }
  }

  /** Exactly when merge_and is intersection on every file: the branches cut off must be implied by those kept. */
  lemma MergeAndExactIff(a: TrigramQuery, b: TrigramQuery)
    requires HasBranches(a) && HasBranches(b)
    ensures (forall file :: Admits(MergeAnd(a, b), file) <==> Admits(a, file) && Admits(b, file)) <==> CapHarmless(a, b)
    ensures WithinCap(a, b) ==> CapHarmless(a, b)
  {
    hide Cross;
    if CapHarmless(a, b) {
      forall file ensures Admits(MergeAnd(a, b), file) <==> Admits(a, file) && Admits(b, file) {
        MergeAndDenotes(a, b, file);
      }
    } else {
      var all := Cross(a.branches, b.branches);
      var k :| MAX_BRANCHES <= k < |all| && !AnyBranch(all[..MAX_BRANCHES], all[k]);
      var file := all[k];
      assert AnyBranch(all, file);
      CrossDenotes(a.branches, b.branches, file);
      assert !Admits(MergeAnd(a, b), file) && Admits(a, file) && Admits(b, file);
    }
  }

  // ---- extraction ----

  /** The trigrams of a regex come from a regex library; see RegexTrigrams for what is known about them. */
  type RegexCompiler = bytes -> TrigramQuery

  function Extract(query: Query, regex: RegexCompiler): TrigramQuery {
    match query
    case Literal(text, _) => ExtractLiteral(text)
    case Phrase(text, _) => ExtractLiteral(text)
    case Regex(pattern, _) => regex(pattern)
    case PathFilter(_) => NoTrigrams
    case LanguageFilter(_) => NoTrigrams
    case Not(_) => NoTrigrams
    case And(children) => ExtractAnd(children, regex)
    case Or(left, right) =>
      var l, r := Extract(left, regex), Extract(right, regex);
      if l.NoTrigrams? || r.NoTrigrams? then NoTrigrams else FromBranches(BranchesOf(l) + BranchesOf(r))
  }

  /** The conjuncts merged left to right, as the source's accumulator does. */
  function ExtractAnd(children: seq<Query>, regex: RegexCompiler): TrigramQuery {
    if children == [] then NoTrigrams
    else
      var last := children[|children| - 1];
      MergeAnd(ExtractAnd(children[..|children| - 1], regex), Extract(last, regex))
  }

  function BranchesOf(tq: TrigramQuery): seq<Branch> {
    match tq
    case All(ts) => [ts]
    case Any(bs) => bs
    case NoTrigrams => []
  }

  lemma BranchesDenote(tq: TrigramQuery, file: Branch)
    requires !tq.NoTrigrams?
    ensures AnyBranch(BranchesOf(tq), file) <==> Admits(tq, file)
  {
    if tq.All? { assert BranchesOf(tq)[0] == tq.trigrams; }
  }

  lemma FromBranchesDenotes(bs: seq<Branch>, file: Branch)
    requires bs != []
    ensures Admits(FromBranches(bs), file) <==> AnyBranch(bs, file)
  {
    if |bs| == 1 { assert bs[0] <= file ==> AnyBranch(bs, file); }
  }

  method ExtractAndLoop(children: seq<Query>, regex: RegexCompiler) returns (merged: TrigramQuery)
    ensures merged == ExtractAnd(children, regex)
  {
    merged := NoTrigrams;
    for i := 0 to |children|
      invariant merged == ExtractAnd(children[..i], regex)
    {
      assert children[..i + 1][..i] == children[..i];
      var child := Extract(children[i], regex);
      if merged.Any? && child.Any? {
        merged := MergeAnyAny(merged.branches, child.branches);
      } else {
        merged := MergeAnd(merged, child);
      }
    }
    assert children[..|children|] == children;
  }

  /** Every regex constraint has at least two branches when it has any; holds of extract_regex_trigrams. */
  ghost predicate RegexBranches(regex: RegexCompiler) {
    forall p :: HasBranches(regex(p))
  }

  lemma {:induction false} ExtractHasBranches(query: Query, regex: RegexCompiler)
    requires RegexBranches(regex)
    ensures HasBranches(Extract(query, regex))
  {
    match query
    case And(children) => ExtractAndHasBranches(children, regex);
    case Or(left, right) =>
      ExtractHasBranches(left, regex);
      ExtractHasBranches(right, regex);
    case _ =>
  }

  lemma {:induction false} ExtractAndHasBranches(children: seq<Query>, regex: RegexCompiler)
    requires RegexBranches(regex)
    ensures HasBranches(ExtractAnd(children, regex))
  {
    if children != [] {
      var init, last := children[..|children| - 1], children[|children| - 1];
      ExtractAndHasBranches(init, regex);
      ExtractHasBranches(last, regex);
      MergeKeepsBranches(ExtractAnd(init, regex), Extract(last, regex));
    }
  }
}
