/** What the printer writes, as a query text of QuerySyntax (ferret-core/src/query.rs). */
module PrintedSource {
  // Every query the parser returns is printed with single spaces, the long language prefix and the printed names. If
  // nothing in it is case-sensitive and its names read back, that text is well-formed and means the query.

  import opened Base
  import opened Query
  import opened QueryPrinter
  import opened QuerySyntax
  import G = QueryGrammar

  /** A case-sensitive literal is printed behind case: alone; the flag of a phrase is not printed. */
  function TermSource(lib: G.Library, q: Query): Term
    requires IsTerm(lib, q)
  {
    match q
    case Literal(text, cs) => Plain(Text((if cs then G.KwCase() else []) + text))
    case Regex(pattern, _) => Plain(Slashed(pattern))
    case Phrase(text, _) => Plain(Quoted(text))
    case PathFilter(prefix) => Plain(Path(prefix))
    case LanguageFilter(language) => Plain(Lang(true, lib.languageName(language)))
    case Not(inner) => Negated([SPACE], TermSource(lib, inner))
  }

  ghost predicate AllTerms(lib: G.Library, children: seq<Query>) {
    forall i :: 0 <= i < |children| ==> IsBoundedTerm(lib, children[i])
  }

  function TermsSource(lib: G.Library, children: seq<Query>): Terms
    requires AllTerms(lib, children)
  {
    if children == [] then []
    else [([SPACE], TermSource(lib, children[0]))] + TermsSource(lib, children[1..])
  }

  function ConjunctSource(lib: G.Library, q: Query): Conjunct
    requires IsConjunction(lib, q)
  {
    if q.And? then Conjunct(TermSource(lib, q.children[0]), TermsSource(lib, q.children[1..]))
    else Conjunct(TermSource(lib, q), [])
  }

  /** The leftmost conjunction and the branches behind it. */
  function Leftmost(lib: G.Library, q: Query): Conjunct
    requires IsParsed(lib, q)
  {
    if q.Or? then Leftmost(lib, q.left) else ConjunctSource(lib, q)
  }

  function BranchesSource(lib: G.Library, q: Query): seq<Branch>
    requires IsParsed(lib, q)
  {
    if q.Or? then BranchesSource(lib, q.left) + [Branch([SPACE], [SPACE], ConjunctSource(lib, q.right))] else []
  }

  function SourceOf(lib: G.Library, q: Query): Source
    requires IsParsed(lib, q)
  {
    Source([], Leftmost(lib, q), BranchesSource(lib, q), [])
  }

  // ---- the text ----

  lemma {:induction false} TermPrinted(lib: G.Library, q: Query)
    requires IsTerm(lib, q)
    ensures WriteTerm(TermSource(lib, q)) == Show(lib, q)
  {
    if q.Not? {
      TermPrinted(lib, q.inner);
      assert G.KwNot() + ([SPACE] + Show(lib, q.inner)) == G.KwNot() + [SPACE] + Show(lib, q.inner);
    }
  }

  lemma {:induction false} TermsPrinted(lib: G.Library, children: seq<Query>)
    requires AllTerms(lib, children)
    ensures WriteTerms(TermsSource(lib, children)) == ShowRest(lib, children)
    decreases |children|
  {
    hide IsTerm, TermSource, WriteTerm, Show;
    if children != [] {
      TermPrinted(lib, children[0]);
      TermsPrinted(lib, children[1..]);
      var ts := TermsSource(lib, children);
      assert ts[1..] == TermsSource(lib, children[1..]);
    }
  }

  lemma SeveralTerms(lib: G.Library, q: Query)
    requires IsConjunction(lib, q) && q.And?
    ensures |q.children| > 1 && AreTerms(lib, q.children) && AllTerms(lib, q.children[1..])
    ensures IsTerm(lib, q.children[0]) && NotDepth(q.children[0]) < G.MAX_PARSE_DEPTH
  {
    assert IsBoundedTerm(lib, q.children[0]);
  }

  lemma ConjunctionPrinted(lib: G.Library, q: Query)
    requires IsConjunction(lib, q)
    ensures WriteConjunct(ConjunctSource(lib, q)) == Show(lib, q)
  {
    hide IsTerm, TermSource, WriteTerm, WriteTerms, TermsSource, ShowRest;
    if q.And? {
      SeveralTerms(lib, q);
      TermPrinted(lib, q.children[0]);
      TermsPrinted(lib, q.children[1..]);
    } else {
      TermPrinted(lib, q);
      NothingWritten();
    }
  }

  lemma NothingWritten()
    ensures WriteTerms([]) == []
  {
  }

  lemma {:induction false} BranchWritten(bs: seq<Branch>, b: Branch)
    ensures WriteBranches(bs + [b], []) == WriteBranches(bs, []) + (b.gap + (G.KwOr() + (b.gap' + WriteConjunct(b.terms))))
    decreases |bs|
  {
    hide WriteConjunct, G.KwOr;
    if bs == [] {
      assert [] + [b] == [b] && [b][1..] == [];
      assert WriteConjunct(b.terms) + [] == WriteConjunct(b.terms);
    } else {
      BranchWritten(bs[1..], b);
      assert (bs + [b])[1..] == bs[1..] + [b];
      var last := b.gap + (G.KwOr() + (b.gap' + WriteConjunct(b.terms)));
      RegroupBranch(bs[0].gap, G.KwOr(), bs[0].gap', WriteConjunct(bs[0].terms), WriteBranches(bs[1..], []), last);
    }
  }

  lemma RegroupBranch(a: bytes, b: bytes, c: bytes, d: bytes, e: bytes, f: bytes)
    ensures a + (b + (c + (d + (e + f)))) == (a + (b + (c + (d + e)))) + f
  {
  }

  /** The printed text is that source. */
  lemma {:induction false} PrintedText(lib: G.Library, q: Query)
    requires IsParsed(lib, q)
    ensures Write(SourceOf(lib, q)) == Show(lib, q)
  {
    hide IsConjunction, ConjunctSource, WriteConjunct, G.KwOr;
    if q.Or? {
      PrintedText(lib, q.left);
      ConjunctionPrinted(lib, q.right);
      BranchWritten(BranchesSource(lib, q.left), Branch([SPACE], [SPACE], ConjunctSource(lib, q.right)));
      OrPrintedText(lib, q);
    } else {
      ConjunctionPrinted(lib, q);
      assert [] + (Show(lib, q) + []) == Show(lib, q);
    }
  }

  lemma OrPrintedText(lib: G.Library, q: Query)
    requires q.Or? && IsParsed(lib, q) && Write(SourceOf(lib, q.left)) == Show(lib, q.left)
    requires WriteConjunct(ConjunctSource(lib, q.right)) == Show(lib, q.right)
    requires WriteBranches(BranchesSource(lib, q), [])
          == WriteBranches(BranchesSource(lib, q.left), [])
             + ([SPACE] + (G.KwOr() + ([SPACE] + WriteConjunct(ConjunctSource(lib, q.right)))))
    ensures Write(SourceOf(lib, q)) == Show(lib, q)
  {
    hide ConjunctSource, WriteConjunct, WriteBranches, BranchesSource, G.KwOr, IsConjunction;
    var first, front := WriteConjunct(Leftmost(lib, q)), WriteBranches(BranchesSource(lib, q.left), []);
    var right := Show(lib, q.right);
    assert Show(lib, q.left) == [] + (first + front);
    assert Show(lib, q) == Show(lib, q.left) + ([SPACE] + G.KwOr() + [SPACE] + right);
    assert [] + (first + (front + ([SPACE] + (G.KwOr() + ([SPACE] + right)))))
        == [] + (first + front) + ([SPACE] + G.KwOr() + [SPACE] + right);
  }

  // ---- its meaning ----

  lemma {:induction false} TermMeant(lib: G.Library, q: Query)
    requires IsTerm(lib, q) && Printable(lib, q)
    ensures var t := TermSource(lib, q);
      && GoodTerm(lib, t) && TermMeans(lib, t, false) == q && !FlagAfter(t, false) && Height(t) == NotDepth(q)
  {
    match q
    case Literal(text, _) => assert [] + text == text;
    case Not(inner) => TermMeant(lib, inner);
    case _ =>
  }

  lemma ApartBySpace(w: Word, opens: bool)
    ensures Apart(w, [SPACE], opens)
  {
  }

  lemma {:induction false} TermsMeant(lib: G.Library, prev: Term, children: seq<Query>)
    requires forall i :: 0 <= i < |children| ==>
      IsBoundedTerm(lib, children[i]) && Printable(lib, children[i]) && children[i] != Literal(G.KwOr(), false)
    ensures AllTerms(lib, children)
    ensures var ts := TermsSource(lib, children);
      GoodTerms(lib, prev, ts) && TermsMean(lib, prev, ts, false) == children && !FlagAfterAll(ts, false)
    decreases |children|
  {
    hide IsTerm, TermSource, GoodTerm, TermMeans, FlagAfter, Height, Printable, NotDepth, Apart, G.KwOr, LastWord, Opens;
    assert AllTerms(lib, children);
    if children != [] {
      assert IsBoundedTerm(lib, children[0]) && Printable(lib, children[0]);
      var t := TermSource(lib, children[0]);
      TermMeant(lib, children[0]);
      TermsMeant(lib, t, children[1..]);
      ApartBySpace(LastWord(prev), Opens(t));
      NotTheText(lib, children[0]);
      var ts := TermsSource(lib, children);
      assert ts[1..] == TermsSource(lib, children[1..]) && ts[0] == ([SPACE], t);
      assert children == [children[0]] + children[1..];
    }
  }

  lemma NotTheText(lib: G.Library, q: Query)
    requires IsTerm(lib, q) && Printable(lib, q) && q != Literal(G.KwOr(), false)
    ensures TermSource(lib, q) != Plain(Text(G.KwOr()))
  {
    if q.Literal? { assert [] + q.text == q.text; }
  }

  lemma ConjunctionMeant(lib: G.Library, q: Query)
    requires IsConjunction(lib, q) && Printable(lib, q)
    ensures var c := ConjunctSource(lib, q);
      GoodConjunct(lib, c) && ConjunctMeans(lib, c, false) == q && !FlagAfterConjunct(c, false)
  {
    hide IsTerm, TermSource, GoodTerm, TermMeans, FlagAfter, Height, NotDepth, GoodTerms, TermsSource, TermsMean, G.KwOr;
    if q.And? {
      var children := q.children;
      SeveralTerms(lib, q);
      assert forall i :: 0 <= i < |children| ==> Printable(lib, children[i]);
      assert IsBoundedTerm(lib, children[0]) && Printable(lib, children[0]);
      hide Printable;
      TermMeant(lib, children[0]);
      TermsMeant(lib, TermSource(lib, children[0]), children[1..]);
      SomeTerms(lib, children[1..]);
      assert children == [children[0]] + children[1..];
    } else {
      TermMeant(lib, q);
      NoTerms(lib, TermSource(lib, q));
    }
  }

  lemma SomeTerms(lib: G.Library, children: seq<Query>)
    requires AllTerms(lib, children) && children != []
    ensures TermsSource(lib, children) != []
  {
  }

  lemma NoTerms(lib: G.Library, t: Term)
    ensures GoodTerms(lib, t, []) && !FlagAfterAll([], false)
  {
  }

  /** The last of some branches, or what stands before them. */
  function LastConjunct(first: Conjunct, bs: seq<Branch>): Conjunct {
    if bs == [] then first else bs[|bs| - 1].terms
  }

  lemma {:induction false} BranchMeant(lib: G.Library, left: Query, prev: Conjunct, bs: seq<Branch>, b: Branch, q: Query)
    requires GoodBranches(lib, prev, bs) && GoodBranch(lib, LastConjunct(prev, bs), b)
    requires (forall i :: 0 <= i < |bs| ==> !FlagAfterConjunct(bs[i].terms, false))
    requires ConjunctMeans(lib, b.terms, false) == q
    ensures GoodBranches(lib, prev, bs + [b])
    ensures BranchesMean(lib, left, prev, bs + [b], false) == Or(BranchesMean(lib, left, prev, bs, false), q)
    decreases |bs|
  {
    hide GoodBranch, ConjunctMeans, FlagAfterConjunct, GoodConjunct;
    if bs == [] {
      assert [] + [b] == [b] && [b][1..] == [];
      OneBranch(lib, left, prev, b, FlagAfterConjunct(b.terms, false));
    } else {
      var c := bs[0].terms;
      assert GoodBranch(lib, prev, bs[0]);
      GoodBranchTerms(lib, prev, bs[0]);
      assert (bs + [b])[1..] == bs[1..] + [b] && (bs + [b])[0] == bs[0];
      assert LastConjunct(c, bs[1..]) == LastConjunct(prev, bs);
      BranchMeant(lib, Or(left, ConjunctMeans(lib, c, false)), c, bs[1..], b, q);
    }
  }

  lemma GoodBranchTerms(lib: G.Library, prev: Conjunct, b: Branch)
    requires GoodBranch(lib, prev, b)
    ensures GoodConjunct(lib, b.terms)
  {
  }

  lemma OneBranch(lib: G.Library, left: Query, prev: Conjunct, b: Branch, cs: bool)
    requires GoodBranch(lib, prev, b)
    ensures GoodBranches(lib, prev, [b]) && GoodConjunct(lib, b.terms)
    ensures BranchesMean(lib, left, prev, [b], false) == Or(left, ConjunctMeans(lib, b.terms, false))
  {
    hide GoodConjunct, ConjunctMeans, FlagAfterConjunct;
    assert GoodBranches(lib, b.terms, []);
    assert [b][1..] == [];
    assert GoodBranches(lib, b.terms, [b][1..]);
  }

  /** A printed query without case-sensitive parts and with names that read back means itself. */
  lemma {:induction false} PrintedMeans(lib: G.Library, q: Query)
    requires IsParsed(lib, q) && Printable(lib, q)
    ensures Good(lib, SourceOf(lib, q)) && Means(lib, SourceOf(lib, q)) == q
    ensures !FlagAfterConjunct(Leftmost(lib, q), false)
    ensures forall i :: 0 <= i < |BranchesSource(lib, q)| ==>
      !FlagAfterConjunct(BranchesSource(lib, q)[i].terms, false)
  {
    hide IsConjunction, ConjunctSource, GoodConjunct, ConjunctMeans, FlagAfterConjunct, GoodBranch;
    if q.Or? {
      PrintedMeans(lib, q.left);
      ConjunctionMeant(lib, q.right);
      var bs, b := BranchesSource(lib, q.left), Branch([SPACE], [SPACE], ConjunctSource(lib, q.right));
      var first := Leftmost(lib, q.left);
      SpacedBranch(lib, LastConjunct(first, bs), b);
      BranchMeant(lib, ConjunctMeans(lib, first, false), first, bs, b, q.right);
    } else {
      ConjunctionMeant(lib, q);
    }
  }

  lemma SpacedBranch(lib: G.Library, prev: Conjunct, b: Branch)
    requires b.gap == b.gap' == [SPACE] && GoodConjunct(lib, b.terms)
    ensures GoodBranch(lib, prev, b)
  {
    hide GoodConjunct;
    ApartBySpace(LastWord(LastTerm(prev.first, prev.more)), false);
  }
}
