/** What query texts mean (ferret-core/src/query.rs). */
module QuerySyntax {
  // A query written out: terms, which are words behind any number of NOT and case:yes, conjunctions of terms, and
  // alternatives of conjunctions, with white space between them where the words would run together without it. The
  // meaning is given without the parser: case:yes makes the next text or phrase case-sensitive, across filters and NOT,
  // up to and including the next text, phrase or regex. The theorem is that the parser finds that meaning.

  import opened Base
  import opened Query
  import opened QueryPrinter
  import E = ExactRoundTrip
  import G = QueryGrammar

  datatype Word =
    | Text(text: bytes)
    | Quoted(text: bytes)
    | Slashed(pattern: bytes)
    | Path(prefix: bytes)
    | Lang(long: bool, name: bytes)

  datatype Term = Plain(word: Word) | Negated(gap: bytes, inner: Term) | Cased(gap: bytes, inner: Term)

  /** Terms with the space before each of them. */
  type Terms = seq<(bytes, Term)>

  /** A first term and what follows it. */
  datatype Conjunct = Conjunct(first: Term, more: Terms)

  /** A conjunction behind OR, with the spaces on both sides of the keyword. */
  datatype Branch = Branch(gap: bytes, gap': bytes, terms: Conjunct)

  datatype Source = Source(lead: bytes, first: Conjunct, branches: seq<Branch>, trail: bytes)

  // ---- as text ----

  function WriteWord(w: Word): bytes {
    match w
    case Text(text) => text
    case Quoted(text) => [G.QUOTE] + text + [G.QUOTE]
    case Slashed(pattern) => [G.SLASH] + pattern + [G.SLASH]
    case Path(prefix) => G.KwPath() + prefix
    case Lang(long, name) => (if long then G.KwLanguage() else G.KwLang()) + name
  }

  function WriteTerm(t: Term): bytes {
    match t
    case Plain(word) => WriteWord(word)
    case Negated(gap, inner) => G.KwNot() + (gap + WriteTerm(inner))
    case Cased(gap, inner) => G.KwCaseYes() + (gap + WriteTerm(inner))
  }

  function WriteTerms(ts: Terms): bytes {
    if ts == [] then [] else ts[0].0 + WriteTerm(ts[0].1) + WriteTerms(ts[1..])
  }

  function WriteConjunct(c: Conjunct): bytes { WriteTerm(c.first) + WriteTerms(c.more) }

  /** The branches and the space behind the last of them. */
  function WriteBranches(bs: seq<Branch>, trail: bytes): bytes {
    if bs == [] then trail
    else bs[0].gap + (G.KwOr() + (bs[0].gap' + (WriteConjunct(bs[0].terms) + WriteBranches(bs[1..], trail))))
  }

  function Write(s: Source): bytes { s.lead + (WriteConjunct(s.first) + WriteBranches(s.branches, s.trail)) }

  // ---- what it means ----

  function WordMeans(lib: G.Library, w: Word, cs: bool): Query
    requires GoodWord(lib, w)
  {
    match w
    case Text(text) => Literal(text, cs)
    case Quoted(text) => Phrase(text, cs)
    case Slashed(pattern) => Regex(pattern, true)
    case Path(prefix) => PathFilter(prefix)
    case Lang(_, name) => LanguageFilter(lib.readLanguage(name).value)
  }

  /** Filters leave the case flag on; everything else uses it up. */
  function FlagAfter(t: Term, cs: bool): bool {
    match t
    case Plain(word) => (word.Path? || word.Lang?) && cs
    case Negated(_, inner) => FlagAfter(inner, cs)
    case Cased(_, inner) => FlagAfter(inner, true)
  }

  function TermMeans(lib: G.Library, t: Term, cs: bool): Query
    requires GoodTerm(lib, t)
  {
    match t
    case Plain(word) => WordMeans(lib, word, cs)
    case Negated(_, inner) => Not(TermMeans(lib, inner, cs))
    case Cased(_, inner) => TermMeans(lib, inner, true)
  }

  function TermsMean(lib: G.Library, prev: Term, ts: Terms, cs: bool): seq<Query>
    requires GoodTerms(lib, prev, ts)
    decreases |ts|
  {
    if ts == [] then []
    else [TermMeans(lib, ts[0].1, cs)] + TermsMean(lib, ts[0].1, ts[1..], FlagAfter(ts[0].1, cs))
  }

  function FlagAfterAll(ts: Terms, cs: bool): bool {
    if ts == [] then cs else FlagAfterAll(ts[1..], FlagAfter(ts[0].1, cs))
  }

  /** One term is itself; several are a conjunction. */
  function ConjunctMeans(lib: G.Library, c: Conjunct, cs: bool): Query
    requires GoodConjunct(lib, c)
  {
    var first := TermMeans(lib, c.first, cs);
    if c.more == [] then first else And([first] + TermsMean(lib, c.first, c.more, FlagAfter(c.first, cs)))
  }

  function FlagAfterConjunct(c: Conjunct, cs: bool): bool { FlagAfterAll(c.more, FlagAfter(c.first, cs)) }

  /** Alternatives nest to the left. */
  function BranchesMean(lib: G.Library, left: Query, prev: Conjunct, bs: seq<Branch>, cs: bool): Query
    requires GoodBranches(lib, prev, bs)
    decreases |bs|
  {
    if bs == [] then left
    else
      var c := bs[0].terms;
      BranchesMean(lib, Or(left, ConjunctMeans(lib, c, cs)), c, bs[1..], FlagAfterConjunct(c, cs))
  }

  function Means(lib: G.Library, s: Source): Query
    requires Good(lib, s)
  {
    BranchesMean(lib, ConjunctMeans(lib, s.first, false), s.first, s.branches, FlagAfterConjunct(s.first, false))
  }

  // ---- well-formed sources ----

  ghost predicate GoodWord(lib: G.Library, w: Word) {
    match w
    case Text(text) => LiteralText(text)
    case Quoted(text) => G.QUOTE !in text
    case Slashed(pattern) => RegexText(pattern) && lib.validRegex(pattern)
    case Path(prefix) => prefix != [] && Unspaced(prefix)
    case Lang(_, name) => name != [] && Unspaced(name) && lib.readLanguage(name).Some?
  }

  ghost predicate Spaces(gap: bytes) {
    forall b :: b in gap ==> G.IsSpace(b)
  }

  /** A quote or a slash sets itself apart from the text before it. */
  predicate Opens(t: Term) { t.Plain? && (t.word.Quoted? || t.word.Slashed?) }

  /** The word a term ends with. */
  function LastWord(t: Term): Word {
    match t
    case Plain(word) => word
    case Negated(_, inner) => LastWord(inner)
    case Cased(_, inner) => LastWord(inner)
  }

  /** Behind NOT, case:yes and OR. */
  ghost predicate Joined(gap: bytes, t: Term) {
    Spaces(gap) && (gap != [] || Opens(t))
  }

  /** Between a word and what follows it: a filter runs up to white space, a text up to a quote or slash as well. */
  ghost predicate Apart(w: Word, gap: bytes, opens: bool) {
    Spaces(gap) && (gap != [] || w.Quoted? || w.Slashed? || (w.Text? && opens))
  }

  ghost predicate GoodTerm(lib: G.Library, t: Term) {
    match t
    case Plain(word) => GoodWord(lib, word)
    case Negated(gap, inner) => Joined(gap, inner) && GoodTerm(lib, inner)
    case Cased(gap, inner) => Joined(gap, inner) && GoodTerm(lib, inner)
  }

  /** How many NOT and case:yes stand before the word. */
  function Height(t: Term): nat {
    match t
    case Plain(_) => 0
    case Negated(_, inner) => 1 + Height(inner)
    case Cased(_, inner) => 1 + Height(inner)
  }

  /** The text OR can only be the first term of a conjunction. */
  ghost predicate GoodTerms(lib: G.Library, prev: Term, ts: Terms)
    decreases |ts|
  {
    ts != [] ==>
      && Apart(LastWord(prev), ts[0].0, Opens(ts[0].1)) && ts[0].1 != Plain(Text(G.KwOr()))
      && GoodTerm(lib, ts[0].1) && Height(ts[0].1) < 128 && GoodTerms(lib, ts[0].1, ts[1..])
  }

  ghost predicate GoodConjunct(lib: G.Library, c: Conjunct) {
    GoodTerm(lib, c.first) && Height(c.first) < 128 && GoodTerms(lib, c.first, c.more)
  }

  function LastTerm(prev: Term, ts: Terms): Term
    decreases |ts|
  {
    if ts == [] then prev else LastTerm(ts[0].1, ts[1..])
  }

  ghost predicate GoodBranch(lib: G.Library, prev: Conjunct, b: Branch) {
    && Apart(LastWord(LastTerm(prev.first, prev.more)), b.gap, false)
    && Joined(b.gap', b.terms.first) && GoodConjunct(lib, b.terms)
  }

  ghost predicate GoodBranches(lib: G.Library, prev: Conjunct, bs: seq<Branch>)
    decreases |bs|
  {
    bs != [] ==> GoodBranch(lib, prev, bs[0]) && GoodBranches(lib, bs[0].terms, bs[1..])
  }

  ghost predicate Good(lib: G.Library, s: Source) {
    Spaces(s.lead) && Spaces(s.trail) && GoodConjunct(lib, s.first) && GoodBranches(lib, s.first, s.branches)
  }

  // ---- gaps ----

  lemma {:induction false} SkipGap(gap: bytes, s: bytes)
    requires Spaces(gap)
    requires s == [] || !G.IsSpace(s[0])
    ensures G.SkipSpace(gap + s) == s
  {
    if gap == [] {
      assert gap + s == s;
    } else {
      assert (gap + s)[1..] == gap[1..] + s && gap[0] in gap;
      SkipGap(gap[1..], s);
    }
  }

  /** Text at which a word ends. */
  ghost predicate EndsAt(w: Word, post: bytes) {
    match w
    case Text(_) => G.Boundary(post)
    case Quoted(_) => true
    case Slashed(_) => true
    case Path(_) => SpaceOrEnd(post)
    case Lang(_, _) => SpaceOrEnd(post)
  }

  lemma OpensWith(t: Term, post: bytes)
    requires Opens(t)
    ensures G.Boundary(WriteTerm(t) + post) && !SpaceOrEnd(WriteTerm(t) + post)
  {
  }

  lemma ApartEnds(w: Word, gap: bytes, opens: bool, post: bytes)
    requires Apart(w, gap, opens) && (opens ==> G.Boundary(post))
    ensures EndsAt(w, gap + post)
  {
    if gap == [] { assert gap + post == post; } else { assert gap[0] in gap; }
  }

  lemma JoinedBound(gap: bytes, t: Term, post: bytes)
    requires Joined(gap, t)
    ensures G.Boundary(gap + (WriteTerm(t) + post))
  {
    if gap == [] {
      OpensWith(t, post);
      assert gap + (WriteTerm(t) + post) == WriteTerm(t) + post;
    } else {
      assert gap[0] in gap;
    }
  }

  lemma TrailEnds(w: Word, trail: bytes)
    requires Spaces(trail)
    ensures EndsAt(w, trail)
  {
    if trail != [] { assert trail[0] in trail; }
  }

  // ---- the parser finds the meaning ----

  lemma WordReads(lib: G.Library, w: Word, post: bytes, cs: bool, d: nat)
    requires GoodWord(lib, w) && EndsAt(w, post)
    ensures !G.KeywordAt(WriteWord(w) + post, G.KwNot())
    ensures G.ParsePrimary(lib, WriteWord(w) + post, cs, d)
         == G.Outcome(Some(WordMeans(lib, w, cs)), post, FlagAfter(Plain(w), cs), d)
  {
    hide G.ParsePrimary, G.KeywordAt, G.KwNot, G.KwPath, G.KwLanguage, G.KwLang, LiteralText, RegexText;
    match w
    case Text(text) => LiteralPrimary(lib, text, post, cs, d);
    case Quoted(text) => PhrasePrimary(lib, text, post, cs, d);
    case Slashed(pattern) => RegexPrimary(lib, pattern, post, cs, d);
    case Path(prefix) => PathPrimary(lib, prefix, post, cs, d);
    case Lang(long, name) =>
      LanguageWord(lib, if long then G.KwLanguage() else G.KwLang(), name, lib.readLanguage(name).value, post, cs, d);
  }

  lemma WordStarts(lib: G.Library, w: Word)
    requires GoodWord(lib, w)
    ensures WriteWord(w) != [] && !G.IsSpace(WriteWord(w)[0])
  {
    if w.Text? { assert w.text[0] in w.text; }
  }

  lemma TermStarts(lib: G.Library, t: Term)
    requires GoodTerm(lib, t)
    ensures WriteTerm(t) != [] && !G.IsSpace(WriteTerm(t)[0])
  {
    if t.Plain? { WordStarts(lib, t.word); }
  }

  lemma UnaryIs(lib: G.Library, s: bytes, cs: bool, d: nat)
    requires d < G.MAX_PARSE_DEPTH
    ensures var o := G.ParseUnaryInner(lib, s, cs, d + 1);
      G.ParseUnary(lib, s, cs, d) == o.(depth := o.depth - 1)
  {
    hide G.ParseUnaryInner;
  }

  /** What stands behind a NOT or case:yes. */
  lemma BehindGap(lib: G.Library, gap: bytes, inner: Term, post: bytes)
    requires Joined(gap, inner) && GoodTerm(lib, inner)
    ensures G.Boundary(gap + WriteTerm(inner) + post)
    ensures G.SkipSpace(gap + WriteTerm(inner) + post) == WriteTerm(inner) + post
  {
    TermStarts(lib, inner);
    JoinedBound(gap, inner, post);
    hide WriteTerm;
    assert gap + WriteTerm(inner) + post == gap + (WriteTerm(inner) + post);
    SkipGap(gap, WriteTerm(inner) + post);
  }

  lemma {:induction false} TermIsRead(lib: G.Library, t: Term, post: bytes, cs: bool, d: nat)
    requires GoodTerm(lib, t) && EndsAt(LastWord(t), post) && Height(t) + d < G.MAX_PARSE_DEPTH
    ensures G.ParseUnary(lib, WriteTerm(t) + post, cs, d)
         == G.Outcome(Some(TermMeans(lib, t, cs)), post, FlagAfter(t, cs), d)
  {
    hide G.ParsePrimary, G.ParseUnary, G.ParseUnaryInner, G.KeywordAt, G.KwNot, G.KwCaseYes, G.SkipSpace, GoodWord,
      WriteWord, Joined, EndsAt, G.Boundary;
    var s := WriteTerm(t) + post;
    TermStarts(lib, t);
    SkipNothing(s);
    UnaryIs(lib, s, cs, d);
    match t
    case Plain(word) =>
      WordReads(lib, word, post, cs, d + 1);
      G.PrimaryStep(lib, s, cs, d + 1);
    case Negated(gap, inner) =>
      var behind := gap + WriteTerm(inner) + post;
      BehindGap(lib, gap, inner, post);
      assert s == G.KwNot() + behind;
      E.NotPrefix(behind);
      G.NotStep(lib, s, cs, d + 1);
      TermIsRead(lib, inner, post, cs, d + 1);
    case Cased(gap, inner) =>
      var behind := gap + WriteTerm(inner) + post;
      BehindGap(lib, gap, inner, post);
      assert s == G.KwCaseYes() + behind;
      E.ModifierPrimary(lib, behind, cs, d + 1);
      G.PrimaryStep(lib, s, cs, d + 1);
      TermIsRead(lib, inner, post, true, d + 1);
  }

  /** What can follow a conjunction: white space, or OR behind any of it. */
  ghost predicate Closes(post: bytes) {
    G.SkipSpace(post) == [] || G.KeywordAt(G.SkipSpace(post), G.KwOr())
  }

  lemma NotTheWord(lib: G.Library, t: Term, post: bytes)
    requires GoodTerm(lib, t) && EndsAt(LastWord(t), post) && t != Plain(Text(G.KwOr()))
    ensures !G.KeywordAt(WriteTerm(t) + post, G.KwOr())
  {
    TermStarts(lib, t);
    assert (WriteTerm(t) + post)[0] == WriteTerm(t)[0];
    if t.Plain? && t.word.Text? {
      TokenKeyword(t.word.text, post, G.KwOr());
    } else {
      assert WriteTerm(t)[0] != G.KwOr()[0];
    }
  }

  /** The text of further terms ends the word before them. */
  lemma TermsEnd(lib: G.Library, prev: Term, ts: Terms, post: bytes)
    requires GoodTerms(lib, prev, ts) && EndsAt(LastWord(LastTerm(prev, ts)), post)
    ensures EndsAt(LastWord(prev), WriteTerms(ts) + post)
  {
    hide GoodTerm, WriteTerm, EndsAt, Apart, Opens;
    if ts == [] {
      assert [] + post == post;
    } else {
      var gap, t := ts[0].0, ts[0].1;
      var rest := WriteTerms(ts[1..]) + post;
      assert WriteTerms(ts) + post == gap + (WriteTerm(t) + rest);
      if Opens(t) { OpensWith(t, rest); }
      ApartEnds(LastWord(prev), gap, Opens(t), WriteTerm(t) + rest);
    }
  }

  lemma ApartSpaces(w: Word, gap: bytes, opens: bool)
    requires Apart(w, gap, opens)
    ensures Spaces(gap)
  {
  }

  /** The next term stands behind its gap, and it is not OR. */
  lemma NextTerm(lib: G.Library, prev: Term, ts: Terms, post: bytes)
    requires ts != [] && GoodTerms(lib, prev, ts) && EndsAt(LastWord(LastTerm(prev, ts)), post)
    ensures var t := WriteTerm(ts[0].1) + (WriteTerms(ts[1..]) + post);
      && G.SkipSpace(WriteTerms(ts) + post) == t && t != [] && !G.KeywordAt(t, G.KwOr())
      && EndsAt(LastWord(ts[0].1), WriteTerms(ts[1..]) + post)
  {
    hide G.SkipSpace, G.KeywordAt, G.KwOr, GoodTerm, WriteTerm, EndsAt, Apart, Opens, LastWord, Spaces;
    var gap, t := ts[0].0, ts[0].1;
    var rest := WriteTerms(ts[1..]) + post;
    assert WriteTerms(ts) + post == gap + (WriteTerm(t) + rest);
    TermsEnd(lib, t, ts[1..], post);
    TermStarts(lib, t);
    ApartSpaces(LastWord(prev), gap, Opens(t));
    SkipGap(gap, WriteTerm(t) + rest);
    NotTheWord(lib, t, rest);
  }

  lemma {:induction false} TermsAreRead(
      lib: G.Library, done: seq<Query>, prev: Term, ts: Terms, post: bytes, cs: bool)
    requires GoodTerms(lib, prev, ts) && Closes(post) && EndsAt(LastWord(LastTerm(prev, ts)), post)
    ensures G.Conjunction(G.ParseAndTail(lib, done, WriteTerms(ts) + post, cs, 0))
         == G.Outcome(Some(G.Conjoin(done + TermsMean(lib, prev, ts, cs))), G.SkipSpace(post), FlagAfterAll(ts, cs), 0)
    decreases |ts|
  {
    hide G.SkipSpace, G.KeywordAt, G.ParseUnary, G.ParseAndTail, G.Conjunction, G.Conjoin, G.KwOr, GoodTerm, WriteTerm,
      TermMeans, FlagAfter, Height, EndsAt, Apart, Opens, LastWord, Spaces;
    if ts == [] {
      assert [] + post == post && done + [] == done;
      G.AndStop(lib, done, post, cs, 0);
    } else {
      var t, s := ts[0].1, WriteTerms(ts) + post;
      var rest := WriteTerms(ts[1..]) + post;
      NextTerm(lib, prev, ts, post);
      TermIsRead(lib, t, rest, cs, 0);
      G.AndStep(lib, done, s, cs, 0);
      TermsAreRead(lib, done + [TermMeans(lib, t, cs)], t, ts[1..], post, FlagAfter(t, cs));
      assert done + [TermMeans(lib, t, cs)] + TermsMean(lib, t, ts[1..], FlagAfter(t, cs))
          == done + TermsMean(lib, prev, ts, cs);
    }
  }

  lemma ConjunctIsRead(lib: G.Library, c: Conjunct, post: bytes, cs: bool)
    requires GoodConjunct(lib, c) && Closes(post) && EndsAt(LastWord(LastTerm(c.first, c.more)), post)
    ensures G.ParseAnd(lib, WriteConjunct(c) + post, cs, 0)
         == G.Outcome(Some(ConjunctMeans(lib, c, cs)), G.SkipSpace(post), FlagAfterConjunct(c, cs), 0)
  {
    hide G.SkipSpace, G.KeywordAt, G.ParseUnary, G.ParseAnd, G.ParseAndTail, G.Conjunction, G.KwOr, GoodTerm,
      WriteTerm, WriteTerms, TermMeans, FlagAfter, Height, GoodTerms, EndsAt, LastWord, LastTerm;
    var rest := WriteTerms(c.more) + post;
    var s := WriteConjunct(c) + post;
    assert s == WriteTerm(c.first) + rest;
    TermsEnd(lib, c.first, c.more, post);
    TermStarts(lib, c.first);
    SkipNothing(s);
    TermIsRead(lib, c.first, rest, cs, 0);
    G.AndWhole(lib, s, cs, 0);
    var first := TermMeans(lib, c.first, cs);
    TermsAreRead(lib, [first], c.first, c.more, post, FlagAfter(c.first, cs));
    JoinedMeans(lib, c, cs);
  }

  lemma JoinedMeans(lib: G.Library, c: Conjunct, cs: bool)
    requires GoodConjunct(lib, c)
    ensures G.Conjoin([TermMeans(lib, c.first, cs)] + TermsMean(lib, c.first, c.more, FlagAfter(c.first, cs)))
         == ConjunctMeans(lib, c, cs)
  {
    hide TermMeans, FlagAfter, GoodTerm, Height;
    if c.more == [] { assert [TermMeans(lib, c.first, cs)] + [] == [TermMeans(lib, c.first, cs)]; }
  }

  lemma ConjunctStarts(lib: G.Library, c: Conjunct)
    requires GoodConjunct(lib, c)
    ensures WriteConjunct(c) != [] && !G.IsSpace(WriteConjunct(c)[0])
  {
    TermStarts(lib, c.first);
    hide WriteTerm, GoodTerm;
    assert WriteConjunct(c)[0] == WriteTerm(c.first)[0];
  }

  lemma JoinedConjunct(gap: bytes, c: Conjunct, post: bytes)
    requires Joined(gap, c.first)
    ensures G.Boundary(gap + (WriteConjunct(c) + post))
  {
    JoinedBound(gap, c.first, WriteTerms(c.more) + post);
    hide WriteTerm, WriteTerms;
    assert WriteConjunct(c) + post == WriteTerm(c.first) + (WriteTerms(c.more) + post);
  }

  lemma OrKeyword(behind: bytes)
    requires G.Boundary(behind)
    ensures G.KeywordAt(G.KwOr() + behind, G.KwOr()) && (G.KwOr() + behind)[|G.KwOr()|..] == behind
    ensures !G.IsSpace((G.KwOr() + behind)[0])
  {
    assert (G.KwOr() + behind)[|G.KwOr()|..] == behind;
  }

  /** The text of the branches that follow closes a conjunction. */
  lemma BranchesClose(lib: G.Library, prev: Conjunct, bs: seq<Branch>, trail: bytes)
    requires GoodBranches(lib, prev, bs) && Spaces(trail)
    ensures Closes(WriteBranches(bs, trail)) && EndsAt(LastWord(LastTerm(prev.first, prev.more)), WriteBranches(bs, trail))
    ensures bs == [] ==> G.SkipSpace(WriteBranches(bs, trail)) == []
    ensures bs != [] ==>
      (var behind := bs[0].gap' + (WriteConjunct(bs[0].terms) + WriteBranches(bs[1..], trail));
       G.SkipSpace(WriteBranches(bs, trail)) == G.KwOr() + behind && G.KeywordAt(G.KwOr() + behind, G.KwOr()))
  {
    hide WriteConjunct, GoodConjunct, G.KwOr, G.KeywordAt, EndsAt, Apart, Joined, LastWord, LastTerm;
    var w := LastWord(LastTerm(prev.first, prev.more));
    if bs == [] {
      TrailEnds(w, trail);
      SkipGap(trail, []);
      assert trail + [] == trail;
    } else {
      var c, rest := bs[0].terms, WriteBranches(bs[1..], trail);
      var behind := bs[0].gap' + (WriteConjunct(c) + rest);
      assert GoodBranch(lib, prev, bs[0]);
      JoinedConjunct(bs[0].gap', c, rest);
      OrKeyword(behind);
      ApartEnds(w, bs[0].gap, false, G.KwOr() + behind);
      ApartSpaces(w, bs[0].gap, false);
      SkipGap(bs[0].gap, G.KwOr() + behind);
    }
  }

  lemma JoinedSkips(lib: G.Library, gap: bytes, c: Conjunct, rest: bytes)
    requires Joined(gap, c.first) && GoodConjunct(lib, c)
    ensures G.SkipSpace(gap + (WriteConjunct(c) + rest)) == WriteConjunct(c) + rest
  {
    ConjunctStarts(lib, c);
    hide WriteConjunct, GoodConjunct;
    SkipGap(gap, WriteConjunct(c) + rest);
  }

  lemma {:induction false} BranchesAreRead(
      lib: G.Library, left: Query, prev: Conjunct, bs: seq<Branch>, trail: bytes, s: bytes, cs: bool)
    requires GoodBranches(lib, prev, bs) && Spaces(trail) && G.SkipSpace(s) == G.SkipSpace(WriteBranches(bs, trail))
    ensures var o := G.ParseOrTail(lib, left, s, cs, 0);
      o.result == Some(BranchesMean(lib, left, prev, bs, cs)) && G.SkipSpace(o.rest) == []
    decreases |bs|
  {
    hide G.SkipSpace, G.KeywordAt, G.ParseAnd, G.ParseOrTail, G.KwOr, GoodConjunct, WriteConjunct, ConjunctMeans,
      WriteBranches, FlagAfterConjunct, Closes, EndsAt, Apart, Joined, Spaces, LastTerm;
    BranchesClose(lib, prev, bs, trail);
    if bs == [] {
      NoOr();
      G.OrStop(lib, left, s, cs, 0);
      SkipIdle(s);
    } else {
      var c, rest := bs[0].terms, WriteBranches(bs[1..], trail);
      var behind := bs[0].gap' + (WriteConjunct(c) + rest);
      assert GoodBranch(lib, prev, bs[0]);
      JoinedSkips(lib, bs[0].gap', c, rest);
      OrDropped(behind);
      G.OrStep(lib, left, s, cs, 0);
      BranchesClose(lib, c, bs[1..], trail);
      ConjunctIsRead(lib, c, rest, cs);
      SkipIdle(rest);
      BranchesAreRead(
        lib, Or(left, ConjunctMeans(lib, c, cs)), c, bs[1..], trail, G.SkipSpace(rest), FlagAfterConjunct(c, cs));
    }
  }

  lemma NoOr()
    ensures !G.KeywordAt([], G.KwOr())
  {
  }

  lemma OrDropped(behind: bytes)
    ensures (G.KwOr() + behind)[|G.KwOr()|..] == behind
  {
  }

  lemma LeadSkipped(lib: G.Library, lead: bytes, s: bytes, cs: bool)
    requires Spaces(lead) && s != [] && !G.IsSpace(s[0])
    ensures G.ParseAnd(lib, lead + s, cs, 0) == G.ParseAnd(lib, s, cs, 0)
  {
    hide G.SkipSpace, G.ParseUnary, G.ParseAndTail;
    SkipGap(lead, s);
    SkipNothing(s);
  }

  /** The parser finds the meaning of every well-formed source; text that is white space only is an error. */
  lemma ParserFindsMeaning(lib: G.Library, s: Source)
    requires Good(lib, s)
    ensures G.ParseQuery(lib, Write(s)) == if G.AllBlank(Write(s)) then None else Some(Means(lib, s))
  {
    hide G.AllBlank, G.SkipSpace, G.ParseAnd, G.ParseOr, G.ParseOrTail, WriteConjunct, WriteBranches, GoodConjunct,
      GoodBranches, ConjunctMeans, BranchesMean, FlagAfterConjunct, Closes, EndsAt, Spaces;
    var rest := WriteBranches(s.branches, s.trail);
    BranchesClose(lib, s.first, s.branches, s.trail);
    ConjunctIsRead(lib, s.first, rest, false);
    ConjunctStarts(lib, s.first);
    LeadSkipped(lib, s.lead, WriteConjunct(s.first) + rest, false);
    G.OrWhole(lib, Write(s), false, 0);
    SkipIdle(rest);
    BranchesAreRead(
      lib, ConjunctMeans(lib, s.first, false), s.first, s.branches, s.trail, G.SkipSpace(rest),
      FlagAfterConjunct(s.first, false));
  }

  /** A single term. */
  lemma OneTerm(lib: G.Library, t: Term)
    requires GoodTerm(lib, t) && Height(t) < G.MAX_PARSE_DEPTH && !G.AllBlank(WriteTerm(t))
    ensures G.ParseQuery(lib, WriteTerm(t)) == Some(TermMeans(lib, t, false))
  {
    hide G.ParseQuery, G.AllBlank, GoodTerm, WriteTerm, TermMeans, Height, FlagAfter;
    var s := Source([], Conjunct(t, []), [], []);
    ParserFindsMeaning(lib, s);
    assert [] + (WriteTerm(t) + [] + []) == WriteTerm(t);
    assert Write(s) == [] + (WriteTerm(t) + [] + []);
  }

  /** lang:word and language:word are the filter of the language the word names. */
  lemma LanguageQuery(lib: G.Library, long: bool, word: bytes, l: Language)
    requires word != [] && Unspaced(word) && lib.readLanguage(word) == Some(l)
    ensures G.ParseQuery(lib, (if long then G.KwLanguage() else G.KwLang()) + word) == Some(LanguageFilter(l))
  {
    var text := (if long then G.KwLanguage() else G.KwLang()) + word;
    assert text[0] == 108;
    assert !G.AllBlank(text);
    hide G.ParseQuery, G.AllBlank;
    OneTerm(lib, Plain(Lang(long, word)));
  }

  /** case:yes makes the next text case-sensitive. */
  lemma CasedQuery(lib: G.Library, gap: bytes, text: bytes)
    requires gap != [] && Spaces(gap) && LiteralText(text)
    ensures G.ParseQuery(lib, G.KwCaseYes() + (gap + text)) == Some(Literal(text, true))
  {
    var s := G.KwCaseYes() + (gap + text);
    assert s[0] == G.KwCaseYes()[0];
    assert !G.AllBlank(s);
    hide G.ParseQuery, G.AllBlank, G.KwCaseYes, LiteralText, Spaces;
    OneTerm(lib, Cased(gap, Plain(Text(text))));
  }
}
