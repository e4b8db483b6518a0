/** Trigram extraction from a regex (ferret-core/src/query_trigrams.rs). */
module RegexTrigrams {
  // The regex library is a parameter: for each pattern it yields the literals every match starts with and the
  // literals every match ends with. The source requires the trigrams of all of them at once; the lemmas say exactly
  // when that loses no file.

  import opened Base
  import opened QueryTrigrams
  import opened Trigrams

  /** Prefix and suffix literals of a pattern without top-level alternation; None if the library lists none. */
  datatype Literals = Literals(prefixes: Option<seq<bytes>>, suffixes: Option<seq<bytes>>)

  datatype Pattern = Unparsable | Single(literals: Literals) | Alternation(branches: seq<Literals>)

  /** The trigrams of every literal of at least three bytes. */
  function LongTrigrams(texts: seq<bytes>): set<Trigram> {
    if texts == [] then {}
    else (if |texts[0]| >= 3 then FoldedSet(texts[0]) else {}) + LongTrigrams(texts[1..])
  }

  function Listed(texts: Option<seq<bytes>>): seq<bytes> {
    if texts.None? then [] else texts.value
  }

  function HirTrigrams(l: Literals): set<Trigram> {
    LongTrigrams(Listed(l.prefixes)) + LongTrigrams(Listed(l.suffixes))
  }

  function ExtractRegex(pattern: Pattern): TrigramQuery {
    match pattern
    case Unparsable => NoTrigrams
    case Single(l) => if HirTrigrams(l) == {} then NoTrigrams else All(HirTrigrams(l))
    case Alternation(ls) =>
      if exists i :: 0 <= i < |ls| && HirTrigrams(ls[i]) == {} then NoTrigrams
      else FromBranches(seq(|ls|, i requires 0 <= i < |ls| => HirTrigrams(ls[i])))
  }

  /** The extraction always satisfies what merge_and expects of its arguments. */
  lemma ExtractRegexHasBranches(pattern: Pattern)
    ensures HasBranches(ExtractRegex(pattern))
  {
  }

  method ExtractHir(l: Literals) returns (all: set<Trigram>)
    ensures all == HirTrigrams(l)
  {
    all := {};
    var both := [Listed(l.prefixes), Listed(l.suffixes)];
    for k := 0 to 2
      invariant all == (if k > 0 then LongTrigrams(both[0]) else {}) + (if k > 1 then LongTrigrams(both[1]) else {})
    {
      ghost var before := all;
      var texts := both[k];
      for i := 0 to |texts|
        invariant all + LongTrigrams(texts[i..]) == before + LongTrigrams(texts)
      {
        assert texts[i..][1..] == texts[i + 1..];
        if |texts[i]| >= 3 { all := all + FoldedSet(texts[i]); }
      }
    }
  }

  method ExtractRegexTrigrams(pattern: Pattern) returns (r: TrigramQuery)
    ensures r == ExtractRegex(pattern)
  {
    hide HirTrigrams;
    match pattern {
      case Unparsable => return NoTrigrams;
      case Single(l) =>
        var all := ExtractHir(l);
        r := if all == {} then NoTrigrams else All(all);
      case Alternation(ls) =>
        var branches: seq<Branch> := [];
        for k := 0 to |ls|
          invariant |branches| == k && forall i :: 0 <= i < k ==> branches[i] == HirTrigrams(ls[i]) != {}
        {
          var trigrams := ExtractHir(ls[k]);
          if trigrams == {} { return NoTrigrams; }
          branches := branches + [trigrams];
        }
        assert branches == seq(|ls|, i requires 0 <= i < |ls| => HirTrigrams(ls[i]));
        r := FromBranches(branches);
    }
  }

  // ---- what the extraction demands ----

  ghost predicate IsListed(l: Literals, text: bytes) {
    (l.prefixes.Some? && text in l.prefixes.value) || (l.suffixes.Some? && text in l.suffixes.value)
  }

  /** The file has the folded trigrams of every literal of three bytes or more, of all prefixes and all suffixes. */
  ghost predicate HasLiterals(l: Literals, file: Branch) {
    forall text :: IsListed(l, text) && |text| >= 3 ==> FoldedSet(text) <= file
  }

  ghost predicate PatternDemands(pattern: Pattern, file: Branch) {
    match pattern
    case Unparsable => true
    case Single(l) => HasLiterals(l, file)
    case Alternation(ls) => ls == [] || exists i :: 0 <= i < |ls| && HasLiterals(ls[i], file)
  }

  lemma {:induction false} LongTrigramsIn(texts: seq<bytes>, file: Branch)
    ensures LongTrigrams(texts) <= file <==> forall text :: text in texts && |text| >= 3 ==> FoldedSet(text) <= file
  {
    hide FoldedSet;
    if texts != [] {
      LongTrigramsIn(texts[1..], file);
      assert forall text :: text in texts <==> text == texts[0] || text in texts[1..];
    }
  }

  lemma HirTrigramsIn(l: Literals, file: Branch)
    ensures HirTrigrams(l) <= file <==> HasLiterals(l, file)
  {
    hide FoldedSet, LongTrigrams;
    LongTrigramsIn(Listed(l.prefixes), file);
    LongTrigramsIn(Listed(l.suffixes), file);
  }

  /** Exactly what the trigrams extracted from a regex demand of a file. */
  lemma RegexDenotes(pattern: Pattern, file: Branch)
    ensures Admits(ExtractRegex(pattern), file) <==> PatternDemands(pattern, file)
  {
    hide HirTrigrams, HasLiterals, FromBranches;
    match pattern
    case Unparsable =>
    case Single(l) => HirTrigramsIn(l, file);
    case Alternation(ls) => AlternationDenotes(ls, file);
  }

  lemma AlternationDenotes(ls: seq<Literals>, file: Branch)
    ensures Admits(ExtractRegex(Alternation(ls)), file) <==> PatternDemands(Alternation(ls), file)
  {
    hide HirTrigrams, HasLiterals;
    forall i | 0 <= i < |ls| ensures HirTrigrams(ls[i]) <= file <==> HasLiterals(ls[i], file) {
      HirTrigramsIn(ls[i], file);
    }
    if ls != [] {
      if k :| 0 <= k < |ls| && HirTrigrams(ls[k]) == {} {
        assert HasLiterals(ls[k], file);
      } else {
        hide FromBranches;
        var bs := seq(|ls|, i requires 0 <= i < |ls| => HirTrigrams(ls[i]));
        FromBranchesDenotes(bs, file);
        assert AnyBranch(bs, file) <==> exists i :: 0 <= i < |ls| && HasLiterals(ls[i], file) by {
          if i :| 0 <= i < |ls| && HasLiterals(ls[i], file) { assert bs[i] <= file; }
          if i :| 0 <= i < |bs| && bs[i] <= file { assert HasLiterals(ls[i], file); }
        }
      }
    }
  }

  // ---- what the library guarantees ----

  /** Without a list, a match may start or end anyhow. */
  function Choices(texts: Option<seq<bytes>>): seq<bytes> {
    if texts.None? then [[]] else texts.value
  }

  predicate EndsWith(m: bytes, s: bytes) {
    |s| <= |m| && m[|m| - |s|..] == s
  }

  /** Part of the content starts with one of the prefixes and ends with one of the suffixes. */
  ghost predicate MayMatch(l: Literals, content: bytes) {
    exists i: nat, j: nat, p, s ::
      i <= j <= |content| && p in Choices(l.prefixes) && s in Choices(l.suffixes) && MatchPart(content, i, j, p, s)
  }

  ghost predicate MatchPart(content: bytes, i: nat, j: nat, p: bytes, s: bytes)
    requires i <= j <= |content|
  {
    p <= content[i..j] && EndsWith(content[i..j], s)
  }

  /** Every choice of a prefix and a suffix already brings all the trigrams that are required. */
  ghost predicate ChoicesCover(l: Literals) {
    forall p, s :: p in Choices(l.prefixes) && s in Choices(l.suffixes) ==>
      HirTrigrams(l) <= FoldedSet(p) + FoldedSet(s)
  }

  lemma PartHolds(content: bytes, i: nat, j: nat, p: bytes, s: bytes)
    requires i <= j <= |content| && MatchPart(content, i, j, p, s)
    ensures FoldedSet(p) + FoldedSet(s) <= FoldedSet(content)
  {
    hide FoldedSet;
    assert content[i..i + |p|] == content[i..j][..|p|];
    assert FoldsTo(content, i, p);
    OccurrenceHasTrigrams(p, content);
    var k := j - |s|;
    assert content[k..k + |s|] == content[i..j][|content[i..j]| - |s|..];
    assert FoldsTo(content, k, s);
    OccurrenceHasTrigrams(s, content);
  }

  /** A byte whose folding is none of a trigram's three bytes. */
  function Separator(t: Trigram): (z: u8)
    ensures FoldByte(z) != t.a && FoldByte(z) != t.b && FoldByte(z) != t.c
  {
    if t.a != 0 && t.b != 0 && t.c != 0 then 0
    else if t.a != 1 && t.b != 1 && t.c != 1 then 1
    else if t.a != 2 && t.b != 2 && t.c != 2 then 2
    else 3
  }

  /** Joined by a byte foreign to a trigram, two texts bring the trigram only if one of them has it. */
  lemma JoinedTrigrams(p: bytes, z: u8, s: bytes, t: Trigram)
    requires FoldByte(z) != t.a && FoldByte(z) != t.b && FoldByte(z) != t.c
    requires t in FoldedSet(p + [z] + s)
    ensures t in FoldedSet(p) + FoldedSet(s)
  {
    var content := p + [z] + s;
    var k :| 0 <= k < |FoldedTrigrams(content)| && FoldedTrigrams(content)[k] == t;
    assert content[|p|] == z;
    assert !(k <= |p| < k + 3);
    if k + 3 <= |p| {
      assert TrigramAt(content, k) == TrigramAt(p, k);
      assert FoldedTrigrams(p)[k] == t;
    } else {
      var n := k - |p| - 1;
      assert content[k] == s[n] && content[k + 1] == s[n + 1] && content[k + 2] == s[n + 2];
      assert FoldedTrigrams(s)[n] == t;
    }
  }

  /**
   * The index lookup for a pattern keeps every file the library's guarantee allows to match if and only if every
   * choice of literals covers the trigrams required: alternative literals that differ break it.
   */
  lemma SingleIsSafeExactly(l: Literals)
    ensures (forall content :: MayMatch(l, content) ==> Admits(ExtractRegex(Single(l)), FoldedSet(content)))
       <==> ChoicesCover(l)
  {
    hide FoldedSet, HirTrigrams;
    if ChoicesCover(l) {
      forall content | MayMatch(l, content) ensures HirTrigrams(l) <= FoldedSet(content) {
        var i: nat, j: nat, p, s :| i <= j <= |content| && p in Choices(l.prefixes) && s in Choices(l.suffixes)
                                    && MatchPart(content, i, j, p, s);
        PartHolds(content, i, j, p, s);
      }
    } else {
      var p, s :| p in Choices(l.prefixes) && s in Choices(l.suffixes)
                  && !(HirTrigrams(l) <= FoldedSet(p) + FoldedSet(s));
      var t :| t in HirTrigrams(l) && t !in FoldedSet(p) + FoldedSet(s);
      var content := p + [Separator(t)] + s;
      assert content[0..|content|] == content;
      assert MatchPart(content, 0, |content|, p, s);
      assert MayMatch(l, content);
      if t in FoldedSet(content) { JoinedTrigrams(p, Separator(t), s, t); assert false; }
    }
  }

  // ---- alternations ----

  ghost predicate MayMatchAny(ls: seq<Literals>, content: bytes) {
    exists i :: 0 <= i < |ls| && MayMatch(ls[i], content)
  }

  ghost predicate SomeBranchIn(ls: seq<Literals>, file: Branch) {
    exists k :: 0 <= k < |ls| && HirTrigrams(ls[k]) <= file
  }

  /** Every choice in any branch brings all the trigrams that some branch requires. */
  ghost predicate BranchesCover(ls: seq<Literals>) {
    forall i, p, s :: 0 <= i < |ls| && p in Choices(ls[i].prefixes) && s in Choices(ls[i].suffixes) ==>
      SomeBranchIn(ls, FoldedSet(p) + FoldedSet(s))
  }

  lemma AlternationAdmits(ls: seq<Literals>, file: Branch)
    requires ls != []
    ensures Admits(ExtractRegex(Alternation(ls)), file) <== SomeBranchIn(ls, file)
    ensures Admits(ExtractRegex(Alternation(ls)), file) ==>
      SomeBranchIn(ls, file) || exists k :: 0 <= k < |ls| && HirTrigrams(ls[k]) == {}
  {
    hide HirTrigrams;
    var bs := seq(|ls|, k requires 0 <= k < |ls| => HirTrigrams(ls[k]));
    FromBranchesDenotes(bs, file);
    if SomeBranchIn(ls, file) {
      var k :| 0 <= k < |ls| && HirTrigrams(ls[k]) <= file;
      assert bs[k] <= file;
    }
  }

  lemma AlternationIsSafe(ls: seq<Literals>, content: bytes)
    requires BranchesCover(ls) && MayMatchAny(ls, content)
    ensures Admits(ExtractRegex(Alternation(ls)), FoldedSet(content))
  {
    hide FoldedSet, HirTrigrams, ExtractRegex;
    var i :| 0 <= i < |ls| && MayMatch(ls[i], content);
    var a: nat, b: nat, p, s :| a <= b <= |content| && p in Choices(ls[i].prefixes) && s in Choices(ls[i].suffixes)
                                && MatchPart(content, a, b, p, s);
    PartHolds(content, a, b, p, s);
    var k :| 0 <= k < |ls| && HirTrigrams(ls[k]) <= FoldedSet(p) + FoldedSet(s);
    assert SomeBranchIn(ls, FoldedSet(content));
    AlternationAdmits(ls, FoldedSet(content));
  }

  /** The bytes that occur in some trigrams; three each at most. */
  function BytesOf(ts: seq<Trigram>): (r: set<u8>)
    ensures |r| <= 3 * |ts|
    ensures forall i :: 0 <= i < |ts| ==> ts[i].a in r && ts[i].b in r && ts[i].c in r
  {
    if ts == [] then {} else BytesOf(ts[1..]) + {ts[0].a} + {ts[0].b} + {ts[0].c}
  }

  function HighBytes(n: nat): (r: set<u8>)
    requires n <= 0x80
    ensures |r| == n && forall z :: z in r <==> 0x80 <= z < 0x80 + n
  {
    if n == 0 then {} else HighBytes(n - 1) + {0x80 + n - 1}
  }

  // With many more branches their trigrams can use up the alphabet: see ManyBranchesNeedNotCover.
  const MAX_EXACT_BRANCHES: nat := 42

  lemma FreshByte(ts: seq<Trigram>) returns (z: u8)
    requires |ts| <= MAX_EXACT_BRANCHES
    ensures FoldByte(z) == z && z !in BytesOf(ts)
  {
    var high, used := HighBytes(0x80), BytesOf(ts);
    if high <= used { Smaller(high, used); assert false; }
    z :| z in high && z !in used;
  }

  lemma {:induction false} Smaller<T>(a: set<T>, b: set<T>)
    requires a <= b
    ensures |a| <= |b|
  {
    if a != {} {
      var x :| x in a;
      Smaller(a - {x}, b - {x});
    }
  }

  /** For each branch a trigram that the file lacks. */
  lemma {:induction false} Lacking(ls: seq<Literals>, file: Branch) returns (ts: seq<Trigram>)
    requires forall k :: 0 <= k < |ls| ==> !(HirTrigrams(ls[k]) <= file)
    ensures |ts| == |ls| && forall k :: 0 <= k < |ls| ==> ts[k] in HirTrigrams(ls[k]) && ts[k] !in file
  {
    hide HirTrigrams;
    if ls == [] {
      ts := [];
    } else {
      var t :| t in HirTrigrams(ls[0]) && t !in file;
      forall k | 0 <= k < |ls[1..]| ensures !(HirTrigrams(ls[1..][k]) <= file) { assert ls[1..][k] == ls[k + 1]; }
      var rest := Lacking(ls[1..], file);
      ts := [t] + rest;
      forall k | 0 <= k < |ls| ensures ts[k] in HirTrigrams(ls[k]) && ts[k] !in file {
        if k > 0 { assert ls[1..][k - 1] == ls[k]; }
      }
    }
  }

  /**
   * The lookup for a top-level alternation keeps every file the library's guarantee allows to match if and only if
   * every choice of literals, in any branch, covers what some branch requires.
   */
  lemma AlternationIsSafeExactly(ls: seq<Literals>)
    requires |ls| <= MAX_EXACT_BRANCHES
    ensures (forall content ::
               MayMatchAny(ls, content) ==> Admits(ExtractRegex(Alternation(ls)), FoldedSet(content)))
       <==> BranchesCover(ls)
  {
    hide FoldedSet, HirTrigrams, ExtractRegex;
    if BranchesCover(ls) {
      forall content | MayMatchAny(ls, content) ensures Admits(ExtractRegex(Alternation(ls)), FoldedSet(content)) {
        AlternationIsSafe(ls, content);
      }
    } else {
      var i, p, s :| 0 <= i < |ls| && p in Choices(ls[i].prefixes) && s in Choices(ls[i].suffixes)
                     && !SomeBranchIn(ls, FoldedSet(p) + FoldedSet(s));
      UncoveredIsLost(ls, i, p, s);
    }
  }

  lemma UncoveredIsLost(ls: seq<Literals>, i: nat, p: bytes, s: bytes)
    requires i < |ls| <= MAX_EXACT_BRANCHES && p in Choices(ls[i].prefixes) && s in Choices(ls[i].suffixes)
    requires !SomeBranchIn(ls, FoldedSet(p) + FoldedSet(s))
    ensures exists content :: MayMatchAny(ls, content) && !Admits(ExtractRegex(Alternation(ls)), FoldedSet(content))
  {
    hide FoldedSet, HirTrigrams, ExtractRegex, BytesOf;
    var file := FoldedSet(p) + FoldedSet(s);
    forall k | 0 <= k < |ls| ensures !(HirTrigrams(ls[k]) <= file) && HirTrigrams(ls[k]) != {} {}
    var ts := Lacking(ls, file);
    var z := FreshByte(ts);
    var content := p + [z] + s;
    assert content[0..|content|] == content;
    assert MatchPart(content, 0, |content|, p, s);
    assert MayMatch(ls[i], content);
    forall k | 0 <= k < |ls| ensures !(HirTrigrams(ls[k]) <= FoldedSet(content)) {
      if ts[k] in FoldedSet(content) { JoinedTrigrams(p, z, s, ts[k]); assert false; }
    }
    assert !SomeBranchIn(ls, FoldedSet(content));
    AlternationAdmits(ls, FoldedSet(content));
    assert MayMatchAny(ls, content);
  }

  /** One branch with two prefixes, pab and qab, and the suffix scd, beside the branches abX for every byte X. */
  function EveryByteBranches(): (ls: seq<Literals>)
    ensures |ls| == 257 && ls[0] == TwoPrefixes()
    ensures forall x: u8 :: ls[x + 1] == Literals(Some([AbAnd(x)]), Some([AbAnd(x)]))
  {
    [TwoPrefixes()] + seq(256, x requires 0 <= x < 256 => Literals(Some([AbAnd(x)]), Some([AbAnd(x)])))
  }

  function AbAnd(x: u8): bytes { [97, 98, x] }

  function TwoPrefixes(): Literals { Literals(Some([[112, 97, 98], [113, 97, 98]]), Some([[115, 99, 100]])) }

  lemma AbTrigrams(x: u8)
    ensures HirTrigrams(Literals(Some([AbAnd(x)]), Some([AbAnd(x)]))) == {Trigram(97, 98, FoldByte(x))}
    ensures FoldedSet(AbAnd(x)) == {Trigram(97, 98, FoldByte(x))}
  {
    var w := AbAnd(x);
    assert FoldedTrigrams(w) == [Trigram(97, 98, FoldByte(x))];
    var ws: seq<bytes> := [w];
    assert ws[1..] == [];
    assert LongTrigrams(ws) == FoldedSet(w) + LongTrigrams([]);
  }

  /** Something stands between the prefix and the suffix, and with the end of the prefix it completes a branch. */
  lemma NextByteCompletes(content: bytes)
    requires MayMatch(TwoPrefixes(), content)
    ensures exists x: u8 :: Trigram(97, 98, FoldByte(x)) in FoldedSet(content)
  {
    var i: nat, j: nat, p, s :| i <= j <= |content| && p in Choices(TwoPrefixes().prefixes)
                                && s in Choices(TwoPrefixes().suffixes) && MatchPart(content, i, j, p, s);
    var part := content[i..j];
    assert p == part[..3] && s == part[|part| - 3..] && p[1] == 97 && p[2] == 98 && s[1] == 99;
    assert |part| > 3;
    assert content[i + 1] == part[1] && content[i + 2] == part[2];
    assert FoldedTrigrams(content)[i + 1] == Trigram(97, 98, FoldByte(content[i + 3]));
  }

  lemma EveryByteAdmits(content: bytes)
    requires MayMatchAny(EveryByteBranches(), content)
    ensures Admits(ExtractRegex(Alternation(EveryByteBranches())), FoldedSet(content))
  {
    hide FoldedSet, HirTrigrams, ExtractRegex;
    var ls := EveryByteBranches();
    var i :| 0 <= i < |ls| && MayMatch(ls[i], content);
    var k := i;
    if i == 0 {
      NextByteCompletes(content);
      var x: u8 :| Trigram(97, 98, FoldByte(x)) in FoldedSet(content);
      k := x as int + 1;
    } else {
      var a: nat, b: nat, p, s :| a <= b <= |content| && p in Choices(ls[i].prefixes) && s in Choices(ls[i].suffixes)
                                  && MatchPart(content, a, b, p, s);
      PartHolds(content, a, b, p, s);
    }
    AbTrigrams(k - 1);
    assert ls[(k - 1) + 1] == ls[k] && HirTrigrams(ls[k]) <= FoldedSet(content);
    AlternationAdmits(ls, FoldedSet(content));
  }

  lemma NotCovered()
    ensures !BranchesCover(EveryByteBranches())
  {
    var ls := EveryByteBranches();
    var p, q, s: bytes := [112, 97, 98], [113, 97, 98], [115, 99, 100];
    assert p in Choices(ls[0].prefixes) && s in Choices(ls[0].suffixes);
    assert FoldedTrigrams(p) == [Trigram(112, 97, 98)] && FoldedTrigrams(s) == [Trigram(115, 99, 100)];
    assert FoldedTrigrams(q) == [Trigram(113, 97, 98)];
    assert FoldedSet(p) == {Trigram(112, 97, 98)} && FoldedSet(s) == {Trigram(115, 99, 100)};
    assert FoldedSet(q) == {Trigram(113, 97, 98)};
    hide FoldedSet;
    var file := FoldedSet(p) + FoldedSet(s);
    assert Trigram(113, 97, 98) in HirTrigrams(ls[0]) by {
      assert [p, q][1..] == [q];
      assert LongTrigrams([q]) == FoldedSet(q) + LongTrigrams([q][1..]);
      assert LongTrigrams([p, q]) == FoldedSet(p) + LongTrigrams([q]);
    }
    forall k | 0 <= k < |ls| ensures !(HirTrigrams(ls[k]) <= file) {
      if k > 0 {
        var x: u8 := k - 1;
        AbTrigrams(x);
        assert Trigram(97, 98, FoldByte(x)) in HirTrigrams(ls[x + 1]);
      }
    }
    assert !SomeBranchIn(ls, file);
  }

  /** With a branch for every byte an uncovered choice loses no file: without a bound the condition is not necessary. */
  lemma ManyBranchesNeedNotCover()
    ensures var ls := EveryByteBranches();
      && !BranchesCover(ls)
      && forall content :: MayMatchAny(ls, content) ==> Admits(ExtractRegex(Alternation(ls)), FoldedSet(content))
  {
    hide FoldedSet, ExtractRegex, MayMatchAny, BranchesCover, EveryByteBranches;
    var ls := EveryByteBranches();
    forall content | MayMatchAny(ls, content) ensures Admits(ExtractRegex(Alternation(ls)), FoldedSet(content)) {
      EveryByteAdmits(content);
    }
    NotCovered();
  }

  /** At most one literal at each end is safe; this is the usual pattern with a fixed beginning or end. */
  lemma OneLiteralEachEndIsSafe(l: Literals)
    requires |Listed(l.prefixes)| <= 1 && |Listed(l.suffixes)| <= 1
    ensures ChoicesCover(l)
  {
    hide FoldedSet;
    forall p, s | p in Choices(l.prefixes) && s in Choices(l.suffixes)
      ensures HirTrigrams(l) <= FoldedSet(p) + FoldedSet(s)
    {
      OneLiteral(l.prefixes, p);
      OneLiteral(l.suffixes, s);
    }
  }

  lemma OneLiteral(texts: Option<seq<bytes>>, text: bytes)
    requires |Listed(texts)| <= 1 && text in Choices(texts)
    ensures LongTrigrams(Listed(texts)) <= FoldedSet(text)
  {
    hide FoldedSet;
    if texts.Some? { assert texts.value == [text] && [text][1..] == []; }
  }

  /** (cat|dog)s: every match starts with "cats" or "dogs"; a file that says "cats" only is not even a candidate. */
  lemma AlternativesInsideLoseFiles()
    ensures var cats, dogs := [99, 97, 116, 115], [100, 111, 103, 115];
      var l := Literals(Some([cats, dogs]), Some([cats, dogs]));
      MayMatch(l, cats) && !Admits(ExtractRegex(Single(l)), FoldedSet(cats))
  {
    var cats: bytes, dogs: bytes := [99, 97, 116, 115], [100, 111, 103, 115];
    var l := Literals(Some([cats, dogs]), Some([cats, dogs]));
    assert cats in Choices(l.prefixes) && cats in Choices(l.suffixes);
    assert cats[0..4] == cats && cats[4 - 4..] == cats;
    assert MatchPart(cats, 0, 4, cats, cats);
    var dog := Trigram(100, 111, 103);
    assert FoldedTrigrams(dogs)[0] == dog;
    assert dog in FoldedSet(dogs);
    assert [cats, dogs][1..] == [dogs];
    assert dog in LongTrigrams([dogs]);
    assert dog in LongTrigrams([cats, dogs]);
    assert dog in HirTrigrams(l);
    assert FoldedTrigrams(cats) == [Trigram(99, 97, 116), Trigram(97, 116, 115)];
    assert dog !in FoldedSet(cats);
  }
}
