/** What the parser accepts (ferret-core/src/query.rs). */
module ParserExact {
  // The parser reads the language of QuerySyntax and nothing else. This is the other half of ParserFindsMeaning: whatever
  // the parser accepts is a well-formed source, and the query it returns is that source's meaning. A source is put
  // together from a successful parse, word by word.

  import opened Base
  import opened Query
  import opened QueryPrinter
  import opened QuerySyntax
  import E = ExactRoundTrip
  import G = QueryGrammar
  import S = StrictParser

  // ---- words ----

  lemma LiteralWritten(lib: G.Library, s: bytes, cs: bool, d: nat) returns (w: Word)
    requires s != [] && !Filter(s) && !G.KeywordAt(s, G.KwNot()) && !G.KeywordAt(s, G.KwCaseYes())
    requires G.ParseLiteral(s, cs, d).result.Some?
    ensures var rest := G.ParseLiteral(s, cs, d).rest;
      s == WriteWord(w) + rest && GoodWord(lib, w) && EndsAt(w, rest)
  {
    var n := G.LiteralLength(s);
    LiteralShape(s);
    LiteralScan(s);
    hide G.LiteralLength, LiteralText, Filter, G.KeywordAt;
    w := Text(s[..n]);
    assert n < |s| ==> s[n..][0] == s[n];
  }

  lemma {:induction false} QuoteCloses(s: bytes)
    ensures G.PhraseLength(s).Some? ==> s[G.PhraseLength(s).value] == G.QUOTE
  {
    if s != [] && s[0] != G.QUOTE { QuoteCloses(s[1..]); }
  }

  lemma PhraseWritten(lib: G.Library, s: bytes, cs: bool, d: nat) returns (w: Word)
    requires s != [] && s[0] == G.QUOTE && G.ParsePhrase(s, cs, d).result.Some?
    ensures var rest := G.ParsePhrase(s, cs, d).rest;
      s == WriteWord(w) + rest && GoodWord(lib, w) && EndsAt(w, rest)
  {
    PhraseScan(s[1..]);
    QuoteCloses(s[1..]);
    var n := G.PhraseLength(s[1..]).value;
    hide G.PhraseLength;
    assert s[1..][..n] == s[1..n + 1] && s[1..][n] == s[n + 1];
    w := Quoted(s[1..n + 1]);
    assert s == [s[0]] + s[1..n + 1] + [s[n + 1]] + s[n + 2..];
  }

  lemma RegexWritten(lib: G.Library, s: bytes, cs: bool, d: nat) returns (w: Word)
    requires s != [] && s[0] == G.SLASH && G.ParseRegex(lib, s, cs, d).result.Some?
    ensures var rest := G.ParseRegex(lib, s, cs, d).rest;
      s == WriteWord(w) + rest && GoodWord(lib, w) && EndsAt(w, rest)
  {
    var n := G.RegexLength(s[1..]).value;
    RegexCloses(s[1..], n);
    assert s[1..][..n] == s[1..n + 1];
    var pattern := s[1..n + 1];
    RegexScan(s[1..], n, pattern + [G.SLASH]);
    hide G.RegexLength;
    w := Slashed(pattern);
    assert s[1..][..n + 1][n] == s[n + 1];
    assert s == [s[0]] + pattern + [s[n + 1]] + s[n + 2..];
  }

  /** The bytes of a word filter. */
  lemma {:induction false} WordRuns(v: bytes)
    ensures Unspaced(v[..G.WordLength(v)]) && SpaceOrEnd(v[G.WordLength(v)..])
  {
    WordScan(v);
    if v != [] && !G.IsSpace(v[0]) {
      WordRuns(v[1..]);
      assert v[G.WordLength(v)..] == v[1..][G.WordLength(v[1..])..];
    }
  }

  lemma Dropped(s: bytes, keyword: bytes, n: nat)
    requires keyword <= s && n <= |s| - |keyword|
    ensures s == keyword + s[|keyword|..][..n] + s[|keyword|..][n..]
  {
  }

  lemma PathWritten(lib: G.Library, s: bytes, cs: bool, d: nat) returns (w: Word)
    requires G.KwPath() <= s && G.ParsePathFilter(s, cs, d).result.Some?
    ensures var rest := G.ParsePathFilter(s, cs, d).rest;
      s == WriteWord(w) + rest && GoodWord(lib, w) && EndsAt(w, rest)
  {
    hide G.KwPath;
    var v := s[|G.KwPath()|..];
    WordRuns(v);
    var n := G.WordLength(v);
    hide G.WordLength;
    Dropped(s, G.KwPath(), n);
    w := Path(v[..n]);
  }

  lemma LanguageWritten(lib: G.Library, s: bytes, cs: bool, d: nat) returns (w: Word)
    requires G.KwLanguage() <= s || G.KwLang() <= s
    requires G.ParseLanguageFilter(lib, s, cs, d).result.Some?
    ensures var rest := G.ParseLanguageFilter(lib, s, cs, d).rest;
      s == WriteWord(w) + rest && GoodWord(lib, w) && EndsAt(w, rest)
  {
    hide G.KwLanguage, G.KwLang, G.WordLength, GoodWord, WriteWord, EndsAt, LiteralText, RegexText;
    if G.KwLanguage() <= s {
      w := LanguageAfter(lib, s, G.KwLanguage(), true);
    } else {
      w := LanguageAfter(lib, s, G.KwLang(), false);
    }
  }

  lemma LanguageAfter(lib: G.Library, s: bytes, keyword: bytes, long: bool) returns (w: Word)
    requires keyword <= s && keyword == if long then G.KwLanguage() else G.KwLang()
    requires var v := s[|keyword|..]; var n := G.WordLength(v); n > 0 && lib.readLanguage(v[..n]).Some?
    ensures var v := s[|keyword|..]; var rest := v[G.WordLength(v)..];
      s == WriteWord(w) + rest && GoodWord(lib, w) && EndsAt(w, rest)
  {
    hide G.KwLanguage, G.KwLang, LiteralText, RegexText, Unspaced, SpaceOrEnd;
    var v := s[|keyword|..];
    WordRuns(v);
    var n := G.WordLength(v);
    hide G.WordLength;
    Dropped(s, keyword, n);
    w := Lang(long, v[..n]);
  }

  /** A primary that is not case:yes is a word. */
  lemma WordWritten(lib: G.Library, s: bytes, cs: bool, d: nat) returns (w: Word)
    requires s == [] || !G.IsSpace(s[0])
    requires !G.KeywordAt(s, G.KwNot()) && !G.KeywordAt(s, G.KwCaseYes())
    requires G.ParsePrimary(lib, s, cs, d).result.Some?
    ensures var rest := G.ParsePrimary(lib, s, cs, d).rest;
      s == WriteWord(w) + rest && GoodWord(lib, w) && EndsAt(w, rest)
  {
    SkipNothing(s);
    hide G.KeywordAt, G.KwNot, G.KwCaseYes, G.KwPath, G.KwLanguage, G.KwLang, G.SkipSpace;
    hide G.ParseRegex, G.ParsePhrase, G.ParsePathFilter, G.ParseLanguageFilter, G.ParseLiteral, G.ParseCaseModifier;
    hide GoodWord, WriteWord, EndsAt;
    if s[0] == G.SLASH {
      w := RegexWritten(lib, s, cs, d);
    } else if s[0] == G.QUOTE {
      w := PhraseWritten(lib, s, cs, d);
    } else if G.KwPath() <= s {
      w := PathWritten(lib, s, cs, d);
    } else if G.KwLanguage() <= s || G.KwLang() <= s {
      w := LanguageWritten(lib, s, cs, d);
    } else {
      if G.KwCaseYes() <= s { G.CaseLiteral(lib, s, cs, d); }
      w := LiteralWritten(lib, s, cs, d);
    }
  }

  // ---- terms ----

  /** White space at the front of a text is a gap. */
  lemma {:induction false} GapBefore(s: bytes) returns (gap: bytes)
    ensures Spaces(gap) && s == gap + G.SkipSpace(s)
  {
    gap := [];
    if s != [] && G.IsSpace(s[0]) {
      gap := GapBefore(s[1..]);
      gap := [s[0]] + gap;
    }
  }

  /** A boundary without a gap is the end, a quote or a slash. */
  lemma BoundaryJoins(lib: G.Library, gap: bytes, t: Term, post: bytes)
    requires Spaces(gap) && GoodTerm(lib, t) && G.Boundary(gap + (WriteTerm(t) + post))
    ensures Joined(gap, t)
  {
    if gap == [] {
      assert gap + (WriteTerm(t) + post) == WriteTerm(t) + post;
      TermStarts(lib, t);
      assert (WriteTerm(t) + post)[0] == WriteTerm(t)[0];
      SetApart(lib, t);
    }
  }

  lemma SetApart(lib: G.Library, t: Term)
    requires GoodTerm(lib, t) && WriteTerm(t) != []
    ensures WriteTerm(t)[0] == G.QUOTE || WriteTerm(t)[0] == G.SLASH ==> Opens(t)
  {
    if t.Plain? && t.word.Text? { assert t.word.text[0] in t.word.text; }
  }

  lemma KeywordSplits(s: bytes, keyword: bytes)
    requires G.KeywordAt(s, keyword)
    ensures s == keyword + s[|keyword|..] && G.Boundary(s[|keyword|..]) && |s[|keyword|..]| == |s| - |keyword|
  {
  }

  /** The text behind a keyword, as a gap and a term. */
  lemma BehindKeyword(lib: G.Library, s: bytes, keyword: bytes, t: Term, rest: bytes) returns (gap: bytes)
    requires G.KeywordAt(s, keyword) && GoodTerm(lib, t) && G.SkipSpace(s[|keyword|..]) == WriteTerm(t) + rest
    ensures Joined(gap, t) && s == keyword + (gap + WriteTerm(t)) + rest
  {
    hide GoodTerm, WriteTerm, G.SkipSpace, G.Boundary, Spaces, Joined;
    KeywordSplits(s, keyword);
    gap := GapBefore(s[|keyword|..]);
    BoundaryJoins(lib, gap, t, rest);
    assert keyword + (gap + (WriteTerm(t) + rest)) == keyword + (gap + WriteTerm(t)) + rest;
  }

  lemma SkipsSpaces(s: bytes)
    ensures |G.SkipSpace(s)| <= |s| && (G.SkipSpace(s) == [] || !G.IsSpace(G.SkipSpace(s)[0]))
  {
  }

  lemma {:induction false} TermWritten(lib: G.Library, s: bytes, cs: bool, d: nat) returns (t: Term)
    requires s == [] || !G.IsSpace(s[0])
    requires G.ParseUnary(lib, s, cs, d).result.Some?
    ensures var rest := G.ParseUnary(lib, s, cs, d).rest;
      s == WriteTerm(t) + rest && GoodTerm(lib, t) && EndsAt(LastWord(t), rest) && Height(t) + d < G.MAX_PARSE_DEPTH
    decreases |s|
  {
    hide G.ParsePrimary, G.ParseUnary, G.ParseUnaryInner, G.KeywordAt, G.KwNot, G.KwCaseYes, G.SkipSpace, GoodWord,
      WriteWord, Joined, EndsAt;
    SkipNothing(s);
    E.UnaryUnfolds(lib, s, cs, d);
    if G.KeywordAt(s, G.KwNot()) {
      G.NotStep(lib, s, cs, d + 1);
      KeywordSplits(s, G.KwNot());
      var behind := s[|G.KwNot()|..];
      SkipsSpaces(behind);
      var inner := TermWritten(lib, G.SkipSpace(behind), cs, d + 1);
      var gap := BehindKeyword(lib, s, G.KwNot(), inner, G.ParseUnary(lib, s, cs, d).rest);
      t := Negated(gap, inner);
    } else {
      G.PrimaryStep(lib, s, cs, d + 1);
      if G.KeywordAt(s, G.KwCaseYes()) {
        KeywordSplits(s, G.KwCaseYes());
        var behind := s[|G.KwCaseYes()|..];
        E.ModifierPrimary(lib, behind, cs, d + 1);
        SkipsSpaces(behind);
        var inner := TermWritten(lib, G.SkipSpace(behind), true, d + 1);
        var gap := BehindKeyword(lib, s, G.KwCaseYes(), inner, G.ParseUnary(lib, s, cs, d).rest);
        t := Cased(gap, inner);
      } else {
        var w := WordWritten(lib, s, cs, d + 1);
        t := Plain(w);
      }
    }
  }

  // ---- conjunctions ----

  /** The gap between a word and the text behind it. */
  lemma GapSetsApart(w: Word, gap: bytes, next: bytes, opens: bool)
    requires Spaces(gap) && EndsAt(w, gap + next) && next != [] && !G.IsSpace(next[0])
    requires (next[0] == G.QUOTE || next[0] == G.SLASH) ==> opens
    ensures Apart(w, gap, opens)
  {
    if gap == [] { assert gap + next == next; }
  }

  lemma TermFollows(lib: G.Library, w: Word, gap: bytes, t: Term, rest: bytes)
    requires Spaces(gap) && GoodTerm(lib, t) && EndsAt(w, gap + (WriteTerm(t) + rest))
    ensures Apart(w, gap, Opens(t))
  {
    TermStarts(lib, t);
    SetApart(lib, t);
    hide WriteTerm, GoodTerm, EndsAt, Spaces, Apart;
    assert (WriteTerm(t) + rest)[0] == WriteTerm(t)[0];
    GapSetsApart(w, gap, WriteTerm(t) + rest, Opens(t));
  }

  lemma OrIsNoTerm(t: Term, rest: bytes)
    requires !G.KeywordAt(WriteTerm(t) + rest, G.KwOr()) && EndsAt(LastWord(t), rest)
    ensures t != Plain(Text(G.KwOr()))
  {
    if t == Plain(Text(G.KwOr())) { KeywordFollowed(G.KwOr(), rest); }
  }

  lemma {:induction false} TermsWritten(
      lib: G.Library, children: seq<Query>, prev: Term, s: bytes, cs: bool) returns (ts: Terms, gap: bytes)
    requires EndsAt(LastWord(prev), s) && S.StrictAndTail(lib, children, s, cs, 0).result.Some?
    ensures var rest := S.StrictAndTail(lib, children, s, cs, 0).rest;
      && GoodTerms(lib, prev, ts) && Spaces(gap) && s == WriteTerms(ts) + (gap + rest)
      && EndsAt(LastWord(LastTerm(prev, ts)), gap + rest) && G.SkipSpace(rest) == rest
      && S.StrictAndTail(lib, children, s, cs, 0).depth == 0 && S.Halted(rest)
    decreases |s|
  {
    hide G.KeywordAt, G.ParseUnary, G.Conjoin, G.SkipSpace, G.KwOr, EndsAt, GoodTerm, WriteTerm, LastWord, Height,
      Apart, Spaces, Opens;
    var t := G.SkipSpace(s);
    gap := GapBefore(s);
    SkipIdle(s);
    SkipsSpaces(s);
    if t == [] || G.KeywordAt(t, G.KwOr()) {
      ts := [];
      assert WriteTerms(ts) + (gap + t) == gap + t;
    } else {
      var u := G.ParseUnary(lib, t, cs, 0);
      var term := TermWritten(lib, t, cs, 0);
      UnaryShape(lib, t, cs, 0);
      OrIsNoTerm(term, u.rest);
      TermFollows(lib, LastWord(prev), gap, term, u.rest);
      var more, last := TermsWritten(lib, children + [u.result.value], term, u.rest, u.caseSensitive);
      ts := [(gap, term)] + more;
      assert ts[1..] == more;
      JoinText(gap, WriteTerm(term), WriteTerms(more), last + S.StrictAndTail(lib, children, s, cs, 0).rest);
      gap := last;
    }
  }

  lemma JoinText(a: bytes, b: bytes, c: bytes, d: bytes)
    ensures a + (b + (c + d)) == (a + b + c) + d
  {
  }

  lemma ConjunctWritten(lib: G.Library, s: bytes, cs: bool) returns (c: Conjunct, gap: bytes)
    requires (s == [] || !G.IsSpace(s[0])) && S.StrictAnd(lib, s, cs, 0).result.Some?
    ensures var rest := S.StrictAnd(lib, s, cs, 0).rest;
      && GoodConjunct(lib, c) && Spaces(gap) && s == WriteConjunct(c) + (gap + rest)
      && EndsAt(LastWord(LastTerm(c.first, c.more)), gap + rest) && G.SkipSpace(rest) == rest
      && S.StrictAnd(lib, s, cs, 0).depth == 0 && S.Halted(rest)
  {
    hide G.ParseUnary, G.SkipSpace, S.StrictAndTail, EndsAt, GoodTerm, WriteTerm, WriteTerms, LastWord, LastTerm, Height,
      Spaces, GoodTerms, S.Halted;
    SkipNothing(s);
    var u := G.ParseUnary(lib, s, cs, 0);
    var first := TermWritten(lib, s, cs, 0);
    UnaryShape(lib, s, cs, 0);
    var more, last := TermsWritten(lib, [u.result.value], first, u.rest, u.caseSensitive);
    c, gap := Conjunct(first, more), last;
    assert WriteTerm(first) + (WriteTerms(more) + (last + S.StrictAnd(lib, s, cs, 0).rest))
        == WriteConjunct(c) + (last + S.StrictAnd(lib, s, cs, 0).rest);
  }

  // ---- alternatives ----

  lemma OrFollows(w: Word, gap: bytes, behind: bytes)
    requires Spaces(gap) && EndsAt(w, gap + (G.KwOr() + behind))
    ensures Apart(w, gap, false)
  {
    assert (G.KwOr() + behind)[0] == G.KwOr()[0];
    hide EndsAt, Spaces, Apart;
    GapSetsApart(w, gap, G.KwOr() + behind, false);
  }

  lemma ConjunctJoins(lib: G.Library, gap: bytes, c: Conjunct, post: bytes)
    requires Spaces(gap) && GoodConjunct(lib, c) && G.Boundary(gap + (WriteConjunct(c) + post))
    ensures Joined(gap, c.first)
  {
    assert WriteConjunct(c) + post == WriteTerm(c.first) + (WriteTerms(c.more) + post) by {
      hide WriteTerm, WriteTerms;
    }
    hide WriteTerm, WriteTerms, GoodTerm, GoodTerms, Joined, Spaces, G.Boundary, WriteConjunct;
    BoundaryJoins(lib, gap, c.first, WriteTerms(c.more) + post);
  }

  /** The text behind the conjunction prev: a gap and what parse_or goes on with. */
  lemma {:induction false} BranchesWritten(
      lib: G.Library, left: Query, prev: Conjunct, gap: bytes, s: bytes, cs: bool) returns (bs: seq<Branch>, trail: bytes)
    requires EndsAt(LastWord(LastTerm(prev.first, prev.more)), gap + s) && Spaces(gap)
    requires G.SkipSpace(s) == s && S.Halted(s) && S.StrictOrTail(lib, left, s, cs, 0).result.Some?
    ensures GoodBranches(lib, prev, bs) && Spaces(trail) && gap + s == WriteBranches(bs, trail)
    decreases |s|
  {
    hide G.SkipSpace, G.KeywordAt, S.StrictAnd, G.KwOr, EndsAt, LastWord, LastTerm, Spaces, GoodConjunct, WriteConjunct,
      Apart, Joined, G.Boundary;
    var w := LastWord(LastTerm(prev.first, prev.more));
    if G.KeywordAt(s, G.KwOr()) {
      KeywordSplits(s, G.KwOr());
      var behind := s[|G.KwOr()|..];
      var t := G.SkipSpace(behind);
      SkipsSpaces(behind);
      var right := S.StrictAnd(lib, t, cs, 0);
      var c, next := ConjunctWritten(lib, t, cs);
      var gap' := GapBefore(behind);
      ConjunctJoins(lib, gap', c, next + right.rest);
      OrFollows(w, gap, behind);
      var more, last :=
        BranchesWritten(lib, Or(left, right.result.value), c, next, right.rest, right.caseSensitive);
      var b := Branch(gap, gap', c);
      bs, trail := [b] + more, last;
      assert bs[1..] == more && GoodBranch(lib, prev, b);
    } else {
      bs, trail := [], gap;
      assert s == [];
      assert gap + s == gap;
    }
  }

  // ---- queries ----

  ghost predicate Reads(lib: G.Library, s: Source, input: bytes, q: Query) {
    Good(lib, s) && Write(s) == input && Means(lib, s) == q
  }

  lemma AcceptedIsWritten(lib: G.Library, input: bytes) returns (s: Source)
    requires G.ParseQuery(lib, input).Some?
    ensures Good(lib, s) && Write(s) == input
  {
    S.BacktrackingNeverHelps(lib, input);
    hide G.ParseQuery, G.SkipSpace, S.StrictAnd, S.StrictOrTail, GoodConjunct, GoodBranches, WriteConjunct, WriteBranches,
      EndsAt, LastWord, LastTerm, Spaces, S.Halted, G.AllBlank;
    var t := G.SkipSpace(input);
    SkipsSpaces(input);
    LeadIgnored(lib, input);
    var left := S.StrictAnd(lib, t, false, 0);
    var lead := GapBefore(input);
    var first, gap := ConjunctWritten(lib, t, false);
    var bs, trail := BranchesWritten(lib, left.result.value, first, gap, left.rest, left.caseSensitive);
    s := Source(lead, first, bs, trail);
  }

  lemma LeadIgnored(lib: G.Library, s: bytes)
    ensures S.StrictAnd(lib, s, false, 0) == S.StrictAnd(lib, G.SkipSpace(s), false, 0)
  {
    hide G.SkipSpace, G.ParseUnary, S.StrictAndTail;
    SkipIdle(s);
  }

  /** The parser accepts exactly the texts of well-formed sources that are not blank, and returns what they mean. */
  lemma ParsesExactly(lib: G.Library, input: bytes, q: Query)
    ensures G.ParseQuery(lib, input) == Some(q) <==> !G.AllBlank(input) && exists s :: Reads(lib, s, input, q)
  {
    hide Good, Write, Means, G.AllBlank;
    if G.ParseQuery(lib, input) == Some(q) {
      var s := AcceptedIsWritten(lib, input);
      ParserFindsMeaning(lib, s);
      assert Reads(lib, s, input, q);
    }
    hide G.ParseQuery;
    forall s | Reads(lib, s, input, q)
      ensures G.ParseQuery(lib, input) == if G.AllBlank(input) then None else Some(q)
    {
      ParserFindsMeaning(lib, s);
    }
  }

  /** No text has two readings. */
  lemma OneReading(lib: G.Library, s: Source, s': Source)
    requires Good(lib, s) && Good(lib, s') && Write(s) == Write(s') && !G.AllBlank(Write(s))
    ensures Means(lib, s) == Means(lib, s')
  {
    hide Good, Write, Means, G.AllBlank, G.ParseQuery;
    ParserFindsMeaning(lib, s);
    ParserFindsMeaning(lib, s');
  }
}
