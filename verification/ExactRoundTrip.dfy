/**
 * Which queries survive printing and parsing (ferret-core/src/query.rs). Printed queries are lists of tokens; reading
 * them back is followed token by token. A printed "case:yes" is used up without yielding a term, so the query read back
 * is smaller; every other term comes back, but ignores case.
 */
module ExactRoundTrip {
  import opened Base
  import opened Query
  import opened QueryPrinter
  import R = RoundTrip
  import opened StrictParser
  import opened TermRoundTrip
  import G = QueryGrammar

  datatype Token = NotToken | OrToken | Leaf(term: Query)

  function Text(lib: G.Library, t: Token): bytes {
    match t
    case NotToken => G.KwNot()
    case OrToken => G.KwOr()
    case Leaf(term) => Show(lib, term)
  }

  /** Each of the tokens after a space. */
  function Tail(lib: G.Library, ts: seq<Token>): bytes {
    if ts == [] then [] else [SPACE] + Text(lib, ts[0]) + Tail(lib, ts[1..])
  }

  function Input(lib: G.Library, ts: seq<Token>): bytes {
    if ts == [] then [] else Text(lib, ts[0]) + Tail(lib, ts[1..])
  }

  function Tokens(q: Query): seq<Token>
    decreases q, 1
  {
    match q
    case Not(inner) => [NotToken] + Tokens(inner)
    case Or(left, right) => Tokens(left) + ([OrToken] + Tokens(right))
    case And(children) => TokensOf(children)
    case _ => [Leaf(q)]
  }

  function TokensOf(children: seq<Query>): seq<Token>
    decreases children, 0
  {
    if children == [] then [] else Tokens(children[0]) + TokensOf(children[1..])
  }

  // ---- counting ----

  /** Leaves and ORs of a query. */
  function Weight(q: Query): nat
    decreases q, 1
  {
    match q
    case Not(inner) => Weight(inner)
    case Or(left, right) => Weight(left) + 1 + Weight(right)
    case And(children) => WeightOf(children)
    case _ => 1
  }

  function WeightOf(children: seq<Query>): nat
    decreases children, 0
  {
    if children == [] then 0 else Weight(children[0]) + WeightOf(children[1..])
  }

  /** Tokens other than NOT. */
  function Words(ts: seq<Token>): nat {
    if ts == [] then 0 else (if ts[0].NotToken? then 0 else 1) + Words(ts[1..])
  }

  /** The literal that is printed as the case modifier. */
  function YesText(): bytes { [121, 101, 115] }

  predicate IsModifier(t: Token) {
    t == Leaf(Literal(YesText(), true))
  }

  function Modifiers(ts: seq<Token>): nat {
    if ts == [] then 0 else (if IsModifier(ts[0]) then 1 else 0) + Modifiers(ts[1..])
  }

  lemma {:induction false} CountConcat(a: seq<Token>, b: seq<Token>)
    ensures Words(a + b) == Words(a) + Words(b)
    ensures Modifiers(a + b) == Modifiers(a) + Modifiers(b)
  {
    if a == [] {
      assert a + b == b;
    } else {
      assert (a + b)[0] == a[0] && (a + b)[1..] == a[1..] + b;
      CountConcat(a[1..], b);
    }
  }

  lemma {:induction false} WordsAreWeight(q: Query)
    ensures Words(Tokens(q)) == Weight(q)
    decreases q, 1
  {
    match q
    case Not(inner) =>
      WordsAreWeight(inner);
      CountConcat([NotToken], Tokens(inner));
      assert [NotToken][1..] == [];
    case Or(left, right) =>
      WordsAreWeight(left);
      WordsAreWeight(right);
      CountConcat([OrToken], Tokens(right));
      CountConcat(Tokens(left), [OrToken] + Tokens(right));
      assert [OrToken][1..] == [];
    case And(children) => WordsAreWeights(children);
    case _ => assert [Leaf(q)][1..] == [];
  }

  lemma {:induction false} WordsAreWeights(children: seq<Query>)
    ensures Words(TokensOf(children)) == WeightOf(children)
    decreases children, 0
  {
    if children != [] {
      WordsAreWeight(children[0]);
      WordsAreWeights(children[1..]);
      CountConcat(Tokens(children[0]), TokensOf(children[1..]));
    }
  }

  // ---- names ----

  /** The name reads back, or its first word is missing or unknown, so that parsing fails there. */
  ghost predicate NameClear(lib: G.Library, l: Language) {
    NameReads(lib, l) || Rejected(lib, lib.languageName(l))
  }

  predicate Rejected(lib: G.Library, name: bytes) {
    var n := G.WordLength(name);
    n == 0 || lib.readLanguage(name[..n]) == None
  }

  ghost predicate NamesClear(lib: G.Library, q: Query) {
    match q
    case LanguageFilter(l) => NameClear(lib, l)
    case Not(inner) => NamesClear(lib, inner)
    case Or(left, right) => NamesClear(lib, left) && NamesClear(lib, right)
    case And(children) => forall i :: 0 <= i < |children| ==> NamesClear(lib, children[i])
    case _ => true
  }

  ghost predicate TokenClear(lib: G.Library, t: Token) {
    t.Leaf? ==> IsTerm(lib, t.term) && !t.term.Not? && (t.term.LanguageFilter? ==> NameClear(lib, t.term.language))
  }

  ghost predicate TokensClear(lib: G.Library, ts: seq<Token>) {
    forall i :: 0 <= i < |ts| ==> TokenClear(lib, ts[i])
  }

  ghost predicate NameGood(lib: G.Library, t: Token) {
    t.Leaf? && t.term.LanguageFilter? ==> NameReads(lib, t.term.language)
  }

  ghost predicate NamesGood(lib: G.Library, ts: seq<Token>) {
    forall i :: 0 <= i < |ts| ==> NameGood(lib, ts[i])
  }

  /** No literal and no phrase is case-sensitive. */
  predicate CaseFree(q: Query) {
    match q
    case Literal(_, cs) => !cs
    case Phrase(_, cs) => !cs
    case Not(inner) => CaseFree(inner)
    case Or(left, right) => CaseFree(left) && CaseFree(right)
    case And(children) => AllCaseFree(children)
    case _ => true
  }

  predicate AllCaseFree(children: seq<Query>) {
    forall i :: 0 <= i < |children| ==> CaseFree(children[i])
  }

  lemma SplitClear(lib: G.Library, a: seq<Token>, b: seq<Token>)
    ensures TokensClear(lib, a + b) <==> TokensClear(lib, a) && TokensClear(lib, b)
    ensures NamesGood(lib, a + b) <==> NamesGood(lib, a) && NamesGood(lib, b)
  {
    hide TokenClear, NameGood;
    var all := a + b;
    assert forall i :: 0 <= i < |a| ==> all[i] == a[i];
    assert forall i :: 0 <= i < |b| ==> all[|a| + i] == b[i];
  }

  lemma OneClear(lib: G.Library, t: Token)
    ensures TokensClear(lib, [t]) <==> TokenClear(lib, t)
    ensures NamesGood(lib, [t]) <==> NameGood(lib, t)
  {
    hide TokenClear, NameGood;
    assert [t][0] == t;
  }

  /** Queries built from terms by AND and OR, as the parser builds them. */
  ghost predicate Built(lib: G.Library, q: Query) {
    match q
    case Or(left, right) => Built(lib, left) && Built(lib, right)
    case And(children) => children != [] && forall i :: 0 <= i < |children| ==> IsTerm(lib, children[i])
    case _ => IsTerm(lib, q)
  }

  lemma {:induction false} ParsedIsBuilt(lib: G.Library, q: Query)
    requires IsParsed(lib, q)
    ensures Built(lib, q)
  {
    hide IsTerm, IsConjunction;
    if q.Or? {
      ParsedIsBuilt(lib, q.left);
      ConjunctionIsBuilt(lib, q.right);
    } else {
      ConjunctionIsBuilt(lib, q);
    }
  }

  lemma ConjunctionIsBuilt(lib: G.Library, q: Query)
    requires IsConjunction(lib, q)
    ensures Built(lib, q)
  {
    hide NotDepth, LiteralText, RegexText;
    if q.And? {
      forall i | 0 <= i < |q.children| ensures IsTerm(lib, q.children[i]) {
        assert IsBoundedTerm(lib, q.children[i]);
      }
    }
  }

  // ---- the printed text is the tokens ----

  lemma {:induction false} TailConcat(lib: G.Library, a: seq<Token>, b: seq<Token>)
    ensures Tail(lib, a + b) == Tail(lib, a) + Tail(lib, b)
    ensures a != [] ==> Input(lib, a + b) == Input(lib, a) + Tail(lib, b)
  {
    hide Text;
    if a == [] {
      assert a + b == b;
    } else {
      assert (a + b)[0] == a[0] && (a + b)[1..] == a[1..] + b;
      TailConcat(lib, a[1..], b);
      JoinTexts([SPACE] + Text(lib, a[0]), Tail(lib, a[1..]), Tail(lib, b));
      JoinTexts(Text(lib, a[0]), Tail(lib, a[1..]), Tail(lib, b));
    }
  }

  lemma JoinTexts(a: bytes, b: bytes, c: bytes)
    ensures a + (b + c) == a + b + c
  {
  }

  lemma TailIs(lib: G.Library, ts: seq<Token>)
    requires ts != []
    ensures Tail(lib, ts) == [SPACE] + Input(lib, ts)
  {
    hide Text;
    JoinTexts([SPACE], Text(lib, ts[0]), Tail(lib, ts[1..]));
  }

  lemma {:induction false} TermPrinted(lib: G.Library, q: Query)
    requires IsTerm(lib, q)
    ensures Tokens(q) != [] && Input(lib, Tokens(q)) == Show(lib, q)
  {
    if q.Not? {
      var inner := Tokens(q.inner);
      TermPrinted(lib, q.inner);
      TailConcat(lib, [NotToken], inner);
      TailIs(lib, inner);
      assert [NotToken][1..] == [] && Tail(lib, []) == [];
      assert Input(lib, [NotToken]) == G.KwNot() + [];
      JoinTexts(G.KwNot(), [SPACE], Show(lib, q.inner));
    } else {
      assert [Leaf(q)][1..] == [];
      assert Show(lib, q) + [] == Show(lib, q);
    }
  }

  lemma {:induction false} RestPrinted(lib: G.Library, children: seq<Query>)
    requires forall i :: 0 <= i < |children| ==> IsTerm(lib, children[i])
    ensures Tail(lib, TokensOf(children)) == ShowRest(lib, children)
    decreases children
  {
    hide IsTerm, Show;
    if children != [] {
      var head, tail := Tokens(children[0]), TokensOf(children[1..]);
      TermPrinted(lib, children[0]);
      RestPrinted(lib, children[1..]);
      TailConcat(lib, head, tail);
      TailIs(lib, head);
    }
  }

  lemma {:induction false} Printed(lib: G.Library, q: Query)
    requires Built(lib, q)
    ensures Tokens(q) != [] && Input(lib, Tokens(q)) == Show(lib, q)
  {
    match q
    case Or(left, right) =>
      Printed(lib, left);
      Printed(lib, right);
      var r := Tokens(right);
      TailConcat(lib, Tokens(left), [OrToken] + r);
      TailConcat(lib, [OrToken], r);
      assert [OrToken][1..] == [] && Tail(lib, []) == [];
      TailIs(lib, r);
      hide Show;
      OrText(lib, Show(lib, right));
    case And(children) =>
      var head, tail := Tokens(children[0]), TokensOf(children[1..]);
      TermPrinted(lib, children[0]);
      RestPrinted(lib, children[1..]);
      TailConcat(lib, head, tail);
    case _ => TermPrinted(lib, q);
  }

  lemma OrText(lib: G.Library, right: bytes)
    ensures [SPACE] + Text(lib, OrToken) + [] + ([SPACE] + right) == [SPACE] + G.KwOr() + [SPACE] + right
  {
  }

  // ---- reading one token, whatever the case flag ----

  /** What a token yields: a query of one leaf, read to the end of the token. */
  ghost predicate OneLeaf(o: G.Outcome, rest: bytes, cs: bool) {
    o.result.Some? ==> o.rest == rest && Weight(o.result.value) == 1 && IgnoresCase(o, cs)
  }

  /** Without the case flag nothing case-sensitive is read, and the flag stays off. */
  ghost predicate IgnoresCase(o: G.Outcome, cs: bool) {
    o.result.Some? && !cs ==> !o.caseSensitive && CaseFree(o.result.value)
  }

  lemma {:induction false} FirstWord(name: bytes, post: bytes)
    requires SpaceOrEnd(post)
    ensures G.WordLength(name + post) == G.WordLength(name)
  {
    if name == [] {
      assert name + post == post;
    } else {
      assert (name + post)[1..] == name[1..] + post;
      FirstWord(name[1..], post);
    }
  }

  /** At a name whose first word is missing or unknown parsing fails. */
  lemma RejectedFails(lib: G.Library, name: bytes, post: bytes, cs: bool, d: nat)
    requires Rejected(lib, name) && SpaceOrEnd(post)
    ensures var s := G.KwLanguage() + name + post;
      !G.KeywordAt(s, G.KwNot()) && G.ParsePrimary(lib, s, cs, d).result == None
  {
    var s := G.KwLanguage() + name + post;
    assert s[|G.KwLanguage()|..] == name + post;
    FirstWord(name, post);
    assert (name + post)[..G.WordLength(name)] == name[..G.WordLength(name)];
    hide G.WordLength;
    assert s[0] == G.KwLanguage()[0];
    SkipNothing(s);
  }

  lemma YesIsModifier(text: bytes)
    ensures G.KwCase() + text == G.KwCaseYes() <==> text == YesText()
  {
    if G.KwCase() + text == G.KwCaseYes() { assert (G.KwCase() + text)[5..] == text; }
  }

  /** Any token that is a term, other than the case modifier. */
  lemma LeafToken(lib: G.Library, t: Token, post: bytes, cs: bool, d: nat)
    requires TokenClear(lib, t) && !t.NotToken? && !IsModifier(t) && SpaceOrEnd(post)
    ensures var s := Text(lib, t) + post; var o := G.ParsePrimary(lib, s, cs, d);
      && !G.KeywordAt(s, G.KwNot()) && OneLeaf(o, post, cs) && (o.result.Some? ==> NameGood(lib, t))
  {
    hide G.ParsePrimary, G.KeywordAt, G.KwNot, G.KwPath, G.KwLanguage, LiteralText, RegexText, NameReads, Rejected;
    match t
    case OrToken =>
      assert LiteralText(G.KwOr()) by { OrIsLiteral(); }
      LiteralPrimary(lib, G.KwOr(), post, cs, d);
    case Leaf(q) =>
      match q
      case Literal(text, caseSensitive) =>
        if caseSensitive {
          YesIsModifier(text);
          CaseText(text);
          LiteralPrimary(lib, G.KwCase() + text, post, cs, d);
        } else {
          assert [] + text == text;
          LiteralPrimary(lib, text, post, cs, d);
        }
      case Regex(pattern, _) => RegexPrimary(lib, pattern, post, cs, d);
      case Phrase(text, _) => PhrasePrimary(lib, text, post, cs, d);
      case PathFilter(prefix) => PathPrimary(lib, prefix, post, cs, d);
      case LanguageFilter(l) =>
        if NameReads(lib, l) { LanguagePrimary(lib, l, post, cs, d); }
        else { RejectedFails(lib, lib.languageName(l), post, cs, d); }
  }

  lemma OrIsLiteral()
    ensures LiteralText(G.KwOr())
  {
  }

  // ---- reading tokens ----

  lemma TokenStarts(lib: G.Library, t: Token)
    requires TokenClear(lib, t)
    ensures Text(lib, t) != [] && !G.IsSpace(Text(lib, t)[0])
  {
    if t.Leaf? { ShowStarts(lib, t.term); }
  }

  lemma TailEnds(lib: G.Library, ts: seq<Token>)
    ensures SpaceOrEnd(Tail(lib, ts))
  {
    hide Text;
    if ts != [] { TailIs(lib, ts); }
  }

  /** Skipping the space before the tokens that remain. */
  lemma SkipTail(lib: G.Library, ts: seq<Token>)
    requires TokensClear(lib, ts)
    ensures G.SkipSpace(Tail(lib, ts)) == Input(lib, ts) && G.SkipSpace(Input(lib, ts)) == Input(lib, ts)
    ensures Input(lib, ts) == [] <==> ts == []
  {
    hide Text, G.SkipSpace, TokenClear;
    if ts == [] {
      SkipNothing([]);
    } else {
      assert TokenClear(lib, ts[0]);
      TokenStarts(lib, ts[0]);
      SkipOne(Text(lib, ts[0]), Tail(lib, ts[1..]));
    }
  }

  lemma ClearTail(lib: G.Library, ts: seq<Token>, k: nat)
    requires TokensClear(lib, ts) && k <= |ts|
    ensures TokensClear(lib, ts[k..])
  {
    hide TokenClear;
  }

  /** What has been read from the first `k` tokens. */
  ghost predicate Consumed(lib: G.Library, ts: seq<Token>, k: nat, weight: nat, o: G.Outcome, cs: bool)
    requires k <= |ts|
  {
    && weight + Modifiers(ts[..k]) <= Words(ts[..k])
    && NamesGood(lib, ts[..k])
    && (Modifiers(ts[..k]) == 0 ==> IgnoresCase(o, cs))
  }

  lemma UnaryUnfolds(lib: G.Library, s: bytes, cs: bool, d: nat)
    requires G.ParseUnary(lib, s, cs, d).result.Some?
    ensures d < G.MAX_PARSE_DEPTH
    ensures var o := G.ParseUnaryInner(lib, s, cs, d + 1);
      G.ParseUnary(lib, s, cs, d) == o.(depth := o.depth - 1)
  {
    hide G.ParseUnaryInner;
  }

  lemma OneMore(ts: seq<Token>, k: nat)
    requires ts != [] && k <= |ts[1..]|
    ensures ts[..k + 1] == [ts[0]] + ts[1..][..k] && ts[k + 1..] == ts[1..][k..]
    ensures Words(ts[..k + 1]) == (if ts[0].NotToken? then 0 else 1) + Words(ts[1..][..k])
    ensures Modifiers(ts[..k + 1]) == (if IsModifier(ts[0]) then 1 else 0) + Modifiers(ts[1..][..k])
  {
    assert ts[..k + 1] == [ts[0]] + ts[1..][..k];
    assert ts[..k + 1][1..] == ts[1..][..k];
  }

  lemma NothingRead(lib: G.Library, cs: bool, d: nat)
    ensures G.ParseUnary(lib, [], cs, d).result == None
  {
  }

  lemma ModifierPrimary(lib: G.Library, post: bytes, cs: bool, d: nat)
    requires G.Boundary(post)
    ensures var s := G.KwCaseYes() + post;
      !G.KeywordAt(s, G.KwNot()) && G.ParsePrimary(lib, s, cs, d) == G.ParseUnary(lib, G.SkipSpace(post), true, d)
  {
    var s := G.KwCaseYes() + post;
    assert s[0] == G.KwCaseYes()[0] && s[0] != G.KwNot()[0] && s[0] != G.KwPath()[0] && s[0] != G.KwLang()[0];
    SkipNothing(s);
    assert s[|G.KwCaseYes()|..] == post;
    G.CaseStep(lib, s, cs, d);
    hide G.SkipSpace, G.ParseUnary, G.ParseCaseModifier;
  }

  lemma NotPrefix(post: bytes)
    requires G.Boundary(post)
    ensures var s := G.KwNot() + post; G.KeywordAt(s, G.KwNot()) && s[|G.KwNot()|..] == post
  {
    assert (G.KwNot() + post)[|G.KwNot()|..] == post;
  }

  lemma StepOver(
      lib: G.Library, ts: seq<Token>, k: nat, o: G.Outcome, o': G.Outcome, cs: bool, cs': bool)
    requires ts != [] && k <= |ts[1..]| && (ts[0].NotToken? || IsModifier(ts[0]))
    requires o'.result.Some? && o.result.Some? && o.caseSensitive == o'.caseSensitive
    requires if ts[0].NotToken? then cs == cs' && o.result == Some(Not(o'.result.value)) else o.result == o'.result
    requires Consumed(lib, ts[1..], k, Weight(o'.result.value), o', cs')
    ensures Consumed(lib, ts, k + 1, Weight(o.result.value), o, cs)
  {
    hide NameReads, Words, Modifiers, NamesGood;
    OneMore(ts, k);
    SplitClear(lib, [ts[0]], ts[1..][..k]);
    OneClear(lib, ts[0]);
  }

  /**
   * A term read from printed tokens uses up some of them. It has at most as many leaves as there were words, less the
   * case modifiers; no name among them was rejected; and without modifiers nothing is case-sensitive.
   */
  lemma {:induction false} UnaryTokens(lib: G.Library, ts: seq<Token>, cs: bool, d: nat) returns (k: nat)
    requires TokensClear(lib, ts) && G.ParseUnary(lib, Input(lib, ts), cs, d).result.Some?
    ensures 0 < k <= |ts|
    ensures var o := G.ParseUnary(lib, Input(lib, ts), cs, d);
      o.rest == Tail(lib, ts[k..]) && Consumed(lib, ts, k, Weight(o.result.value), o, cs)
    decreases |ts|
  {
    hide G.SkipSpace, G.KeywordAt, G.ParsePrimary, G.ParseUnary, G.ParseUnaryInner, G.KwNot, TokenClear, NameGood, Text;
    hide Words, Modifiers, IsModifier, IgnoresCase, Weight, Consumed, Tail;
    var s, o := Input(lib, ts), G.ParseUnary(lib, Input(lib, ts), cs, d);
    NothingRead(lib, cs, d);
    var t, rest := ts[0], ts[1..];
    var post := Tail(lib, rest);
    UnaryUnfolds(lib, s, cs, d);
    SkipTail(lib, ts);
    SkipTail(lib, rest);
    TailEnds(lib, rest);
    assert TokenClear(lib, t);
    if t.NotToken? {
      assert Text(lib, t) == G.KwNot() by { NotText(lib); }
      NotPrefix(post);
      G.NotStep(lib, s, cs, d + 1);
      var j := UnaryTokens(lib, rest, cs, d + 1);
      k := j + 1;
      OneMore(ts, j);
      StepOver(lib, ts, j, o, G.ParseUnary(lib, Input(lib, rest), cs, d + 1), cs, cs);
    } else if IsModifier(t) {
      assert Text(lib, t) == G.KwCaseYes() by { ModifierText(lib, t); }
      ModifierPrimary(lib, post, cs, d + 1);
      G.PrimaryStep(lib, s, cs, d + 1);
      var j := UnaryTokens(lib, rest, true, d + 1);
      k := j + 1;
      OneMore(ts, j);
      StepOver(lib, ts, j, o, G.ParseUnary(lib, Input(lib, rest), true, d + 1), cs, true);
    } else {
      LeafToken(lib, t, post, cs, d + 1);
      G.PrimaryStep(lib, s, cs, d + 1);
      k := 1;
      assert ts[1..] == rest;
      LeafConsumed(lib, ts, o, G.ParsePrimary(lib, s, cs, d + 1), post, cs);
    }
  }

  lemma NotText(lib: G.Library)
    ensures Text(lib, NotToken) == G.KwNot()
  {
  }

  lemma ModifierText(lib: G.Library, t: Token)
    requires IsModifier(t)
    ensures Text(lib, t) == G.KwCaseYes()
  {
    YesIsModifier(YesText());
  }

  lemma LeafConsumed(lib: G.Library, ts: seq<Token>, o: G.Outcome, o': G.Outcome, post: bytes, cs: bool)
    requires ts != [] && !ts[0].NotToken? && !IsModifier(ts[0])
    requires o'.result.Some? && o.result == o'.result && o.caseSensitive == o'.caseSensitive
    requires OneLeaf(o', post, cs) && NameGood(lib, ts[0])
    ensures Consumed(lib, ts, 1, Weight(o.result.value), o, cs)
  {
    hide NameGood, Weight;
    OneMore(ts, 0);
    assert ts[1..][..0] == [] && ts[..1] == [ts[0]];
    OneClear(lib, ts[0]);
  }

  // ---- reading conjunctions and alternatives ----

  /** The same for a query that grew from parts already read, of weight `base`. */
  ghost predicate Grown(
      lib: G.Library, ts: seq<Token>, k: nat, base: nat, caseFree: bool, o: G.Outcome, cs: bool)
    requires k <= |ts| && o.result.Some?
  {
    && Weight(o.result.value) + Modifiers(ts[..k]) <= Words(ts[..k]) + base
    && NamesGood(lib, ts[..k])
    && (Modifiers(ts[..k]) == 0 && caseFree ==> IgnoresCase(o, cs))
  }

  /** Reading some tokens and then some more. */
  lemma ReadOn(
      lib: G.Library, ts: seq<Token>, j: nat, k: nat, weight: nat, u: G.Outcome, base: nat, caseFree: bool,
      caseFree': bool, o: G.Outcome, cs: bool)
    requires j <= |ts| && k <= |ts[j..]| && u.result.Some? && o.result.Some?
    requires Consumed(lib, ts, j, weight, u, cs)
    requires Grown(lib, ts[j..], k, base + weight, caseFree', o, u.caseSensitive)
    requires caseFree && (cs || CaseFree(u.result.value)) ==> cs || caseFree'
    ensures j + k <= |ts| && ts[j..][k..] == ts[j + k..]
    ensures Grown(lib, ts, j + k, base, caseFree, o, cs)
  {
    hide CaseFree, Weight, NamesGood, Words, Modifiers;
    var a, b := ts[..j], ts[j..][..k];
    assert ts[..j + k] == a + b;
    CountConcat(a, b);
    SplitClear(lib, a, b);
  }

  lemma {:induction false} WeightSnoc(children: seq<Query>, q: Query)
    ensures WeightOf(children + [q]) == WeightOf(children) + Weight(q)
  {
    hide Weight;
    if children == [] {
      assert children + [q] == [q] && [q][1..] == [];
    } else {
      assert (children + [q])[1..] == children[1..] + [q];
      WeightSnoc(children[1..], q);
    }
  }

  lemma CaseFreeSnoc(children: seq<Query>, q: Query)
    ensures AllCaseFree(children + [q]) <==> AllCaseFree(children) && CaseFree(q)
  {
    var all := children + [q];
    assert forall i :: 0 <= i < |children| ==> all[i] == children[i];
    assert all[|children|] == q;
  }

  lemma Conjoined(children: seq<Query>)
    requires children != []
    ensures Weight(G.Conjoin(children)) == WeightOf(children)
    ensures CaseFree(G.Conjoin(children)) <==> AllCaseFree(children)
  {
    if |children| == 1 {
      assert children[1..] == [];
      assert children == [children[0]];
    }
  }

  /** Tokens at which a conjunction ends. */
  ghost predicate StopsAt(lib: G.Library, ts: seq<Token>) {
    ts == [] || G.KeywordAt(Input(lib, ts), G.KwOr())
  }

  lemma {:induction false} AndTailTokens(
      lib: G.Library, children: seq<Query>, ts: seq<Token>, s: bytes, cs: bool, d: nat) returns (k: nat)
    requires TokensClear(lib, ts) && G.SkipSpace(s) == Input(lib, ts) && children != []
    requires StrictAndTail(lib, children, s, cs, d).result.Some?
    ensures k <= |ts| && StopsAt(lib, ts[k..])
    ensures var o := StrictAndTail(lib, children, s, cs, d);
      && G.SkipSpace(o.rest) == Input(lib, ts[k..])
      && Grown(lib, ts, k, WeightOf(children), AllCaseFree(children), o, cs)
    decreases |ts|
  {
    hide G.SkipSpace, G.KeywordAt, G.ParseUnary, G.KwOr, TokensClear, Consumed, Grown, Input, Tail, G.Conjoin;
    hide Weight, WeightOf, CaseFree, AllCaseFree;
    SkipTail(lib, ts);
    var t := Input(lib, ts);
    if t == [] || G.KeywordAt(t, G.KwOr()) {
      k := 0;
      assert ts[0..] == ts;
      NothingMore(lib, ts, children, t, cs, d);
    } else {
      var u := G.ParseUnary(lib, t, cs, d);
      var j := UnaryTokens(lib, ts, cs, d);
      ClearTail(lib, ts, j);
      SkipTail(lib, ts[j..]);
      var longer := children + [u.result.value];
      WeightSnoc(children, u.result.value);
      CaseFreeSnoc(children, u.result.value);
      var n := AndTailTokens(lib, longer, ts[j..], u.rest, u.caseSensitive, u.depth);
      k := j + n;
      var o := StrictAndTail(lib, longer, u.rest, u.caseSensitive, u.depth);
      ReadOn(lib, ts, j, n, Weight(u.result.value), u, WeightOf(children), AllCaseFree(children), AllCaseFree(longer),
        o, cs);
    }
  }

  lemma NothingMore(lib: G.Library, ts: seq<Token>, children: seq<Query>, t: bytes, cs: bool, d: nat)
    requires children != []
    ensures Grown(lib, ts, 0, WeightOf(children), AllCaseFree(children),
      G.Outcome(Some(G.Conjoin(children)), t, cs, d), cs)
  {
    hide Weight, WeightOf, CaseFree, AllCaseFree, G.Conjoin;
    Conjoined(children);
  }

  lemma AndTokens(lib: G.Library, ts: seq<Token>, s: bytes, cs: bool, d: nat) returns (k: nat)
    requires TokensClear(lib, ts) && G.SkipSpace(s) == Input(lib, ts)
    requires StrictAnd(lib, s, cs, d).result.Some?
    ensures k <= |ts| && StopsAt(lib, ts[k..])
    ensures var o := StrictAnd(lib, s, cs, d);
      && G.SkipSpace(o.rest) == Input(lib, ts[k..])
      && Grown(lib, ts, k, 0, true, o, cs)
  {
    hide G.SkipSpace, G.ParseUnary, TokensClear, Consumed, Grown, Input, Tail, StrictAndTail, StopsAt;
    hide Weight, WeightOf, CaseFree, AllCaseFree;
    var u := G.ParseUnary(lib, G.SkipSpace(s), cs, d);
    var j := UnaryTokens(lib, ts, cs, d);
    ClearTail(lib, ts, j);
    SkipTail(lib, ts[j..]);
    assert [] + [u.result.value] == [u.result.value];
    WeightSnoc([], u.result.value);
    CaseFreeSnoc([], u.result.value);
    assert WeightOf([]) == 0 && AllCaseFree([]) by { NoChildren(); }
    var n := AndTailTokens(lib, [u.result.value], ts[j..], u.rest, u.caseSensitive, u.depth);
    k := j + n;
    ReadOn(lib, ts, j, n, Weight(u.result.value), u, 0, true, AllCaseFree([u.result.value]), StrictAnd(lib, s, cs, d), cs);
  }

  lemma NoChildren()
    ensures WeightOf([]) == 0 && AllCaseFree([])
  {
  }

  /** The keyword OR is read from a whole token, which is a word. */
  lemma OrIsToken(lib: G.Library, ts: seq<Token>)
    requires TokensClear(lib, ts) && G.KeywordAt(Input(lib, ts), G.KwOr())
    ensures ts != [] && !ts[0].NotToken? && !IsModifier(ts[0]) && NameGood(lib, ts[0])
    ensures Input(lib, ts)[|G.KwOr()|..] == Tail(lib, ts[1..])
  {
    hide TokensClear, LiteralText, RegexText, NameReads, Tail;
    assert ts != [] && TokenClear(lib, ts[0]) by { FirstClear(lib, ts); }
    var text, post := Text(lib, ts[0]), Tail(lib, ts[1..]);
    TailEnds(lib, ts[1..]);
    TokenStarts(lib, ts[0]);
    assert Input(lib, ts)[0] == text[0];
    OrText2(lib, ts[0], post);
    assert (text + post)[|text|..] == post;
  }

  lemma FirstClear(lib: G.Library, ts: seq<Token>)
    requires TokensClear(lib, ts) && G.KeywordAt(Input(lib, ts), G.KwOr())
    ensures ts != [] && TokenClear(lib, ts[0])
  {
    hide TokenClear;
  }

  lemma OrText2(lib: G.Library, t: Token, post: bytes)
    requires TokenClear(lib, t) && SpaceOrEnd(post) && G.KeywordAt(Text(lib, t) + post, G.KwOr())
    ensures Text(lib, t) == G.KwOr() && !t.NotToken? && !IsModifier(t) && NameGood(lib, t)
  {
    hide RegexText, NameReads;
    var text := Text(lib, t);
    TokenStarts(lib, t);
    assert (text + post)[0] == text[0];
    if t.Leaf? && t.term.Literal? && !t.term.caseSensitive {
      assert [] + t.term.text == t.term.text;
      TokenKeyword(t.term.text, post, G.KwOr());
    }
  }

  lemma {:induction false} OrTailTokens(lib: G.Library, left: Query, ts: seq<Token>, s: bytes, cs: bool, d: nat)
    requires TokensClear(lib, ts) && G.SkipSpace(s) == Input(lib, ts) && StopsAt(lib, ts)
    requires StrictOrTail(lib, left, s, cs, d).result.Some?
    ensures Grown(lib, ts, |ts|, Weight(left), CaseFree(left), StrictOrTail(lib, left, s, cs, d), cs)
    decreases |ts|
  {
    hide G.SkipSpace, G.KeywordAt, G.KwOr, TokensClear, Grown, Input, Tail, StrictAnd, Text, IsModifier, NameGood;
    var t := Input(lib, ts);
    if G.KeywordAt(t, G.KwOr()) {
      OrIsToken(lib, ts);
      var rest := ts[1..];
      ClearTail(lib, ts, 1);
      SkipTail(lib, rest);
      KeywordPrefix(t, G.KwOr());
      var u := G.SkipSpace(t[|G.KwOr()|..]);
      SkipTail(lib, ts);
      var right := StrictAnd(lib, u, cs, d);
      var k := AndTokens(lib, rest, u, cs, d);
      ClearTail(lib, rest, k);
      var joined := Or(left, right.result.value);
      OrTailTokens(lib, joined, rest[k..], right.rest, right.caseSensitive, right.depth);
      var o := StrictOrTail(lib, joined, right.rest, right.caseSensitive, right.depth);
      OrReadOn(lib, ts, k, left, right, o, cs);
    } else {
      assert ts == [] && t == [] by { SkipTail(lib, ts); }
      LeftAlone(lib, left, cs, d);
    }
  }

  lemma LeftAlone(lib: G.Library, left: Query, cs: bool, d: nat)
    ensures Grown(lib, [], 0, Weight(left), CaseFree(left), G.Outcome(Some(left), [], cs, d), cs)
  {
  }

  /** OR, the conjunction on its right, and what follows. */
  lemma OrReadOn(lib: G.Library, ts: seq<Token>, k: nat, left: Query, right: G.Outcome, o: G.Outcome, cs: bool)
    requires ts != [] && !ts[0].NotToken? && !IsModifier(ts[0]) && NameGood(lib, ts[0]) && k <= |ts[1..]|
    requires right.result.Some? && o.result.Some?
    requires Grown(lib, ts[1..], k, 0, true, right, cs)
    requires var joined := Or(left, right.result.value); var rest := ts[1..][k..];
      Grown(lib, rest, |rest|, Weight(joined), CaseFree(joined), o, right.caseSensitive)
    ensures Grown(lib, ts, |ts|, Weight(left), CaseFree(left), o, cs)
  {
    var rest := ts[1..][k..];
    OneMore(ts, k);
    hide NamesGood, NameGood, Words, Modifiers, IsModifier;
    var a := ts[..k + 1];
    assert ts[..|ts|] == a + rest && rest[..|rest|] == rest;
    CountConcat(a, rest);
    SplitClear(lib, a, rest);
    SplitClear(lib, [ts[0]], ts[1..][..k]);
    OneClear(lib, ts[0]);
  }

  // ---- the theorem ----

  lemma {:induction false} ClearTokens(lib: G.Library, q: Query)
    requires Built(lib, q) && NamesClear(lib, q)
    ensures TokensClear(lib, Tokens(q))
  {
    match q
    case Or(left, right) =>
      ClearTokens(lib, left);
      ClearTokens(lib, right);
      OneClear(lib, OrToken);
      SplitClear(lib, [OrToken], Tokens(right));
      SplitClear(lib, Tokens(left), [OrToken] + Tokens(right));
    case And(children) => ClearTokensOf(lib, children);
    case _ => ClearTerm(lib, q);
  }

  lemma {:induction false} ClearTerm(lib: G.Library, q: Query)
    requires IsTerm(lib, q) && NamesClear(lib, q)
    ensures TokensClear(lib, Tokens(q))
  {
    hide LiteralText, RegexText, NameClear;
    if q.Not? {
      ClearTerm(lib, q.inner);
      OneClear(lib, NotToken);
      SplitClear(lib, [NotToken], Tokens(q.inner));
    } else {
      OneClear(lib, Leaf(q));
    }
  }

  lemma {:induction false} ClearTokensOf(lib: G.Library, children: seq<Query>)
    requires forall i :: 0 <= i < |children| ==> IsTerm(lib, children[i]) && NamesClear(lib, children[i])
    ensures TokensClear(lib, TokensOf(children))
    decreases children
  {
    hide IsTerm, NamesClear;
    if children != [] {
      ClearTerm(lib, children[0]);
      ClearTokensOf(lib, children[1..]);
      SplitClear(lib, Tokens(children[0]), TokensOf(children[1..]));
    }
  }

  /** Printable: nothing case-sensitive and only names that read back. */
  lemma {:induction false} PrintableTokens(lib: G.Library, q: Query)
    requires Built(lib, q) && CaseFree(q) && NamesGood(lib, Tokens(q))
    ensures Printable(lib, q)
  {
    match q
    case Or(left, right) =>
      SplitClear(lib, [OrToken], Tokens(right));
      SplitClear(lib, Tokens(left), [OrToken] + Tokens(right));
      PrintableTokens(lib, left);
      PrintableTokens(lib, right);
    case And(children) => PrintableTokensOf(lib, children);
    case _ => PrintableTerm(lib, q);
  }

  lemma {:induction false} PrintableTerm(lib: G.Library, q: Query)
    requires IsTerm(lib, q) && CaseFree(q) && NamesGood(lib, Tokens(q))
    ensures Printable(lib, q)
  {
    hide LiteralText, RegexText, NameReads;
    if q.Not? {
      SplitClear(lib, [NotToken], Tokens(q.inner));
      PrintableTerm(lib, q.inner);
    } else {
      OneClear(lib, Leaf(q));
    }
  }

  lemma {:induction false} PrintableTokensOf(lib: G.Library, children: seq<Query>)
    requires forall i :: 0 <= i < |children| ==> IsTerm(lib, children[i])
    requires AllCaseFree(children) && NamesGood(lib, TokensOf(children))
    ensures forall i :: 0 <= i < |children| ==> Printable(lib, children[i])
    decreases children
  {
    hide IsTerm, CaseFree, Printable;
    if children != [] {
      SplitClear(lib, Tokens(children[0]), TokensOf(children[1..]));
      PrintableTerm(lib, children[0]);
      PrintableTokensOf(lib, children[1..]);
      assert forall i :: 0 < i < |children| ==> children[i] == children[1..][i - 1];
    }
  }

  /** What printed tokens parse to: lighter by the modifiers, and all names read back. */
  lemma TokensParse(lib: G.Library, ts: seq<Token>)
    requires TokensClear(lib, ts) && G.ParseQuery(lib, Input(lib, ts)).Some?
    ensures var q := G.ParseQuery(lib, Input(lib, ts)).value;
      && Weight(q) + Modifiers(ts) <= Words(ts) && NamesGood(lib, ts)
      && (Modifiers(ts) == 0 ==> CaseFree(q))
  {
    hide G.ParseQuery, G.SkipSpace, StrictAnd, StrictOrTail, TokensClear, Input, G.AllBlank, NamesGood, Words, Modifiers;
    hide Weight, CaseFree, StopsAt;
    var s := Input(lib, ts);
    BacktrackingNeverHelps(lib, s);
    SkipTail(lib, ts);
    var left := StrictAnd(lib, s, false, 0);
    var k := AndTokens(lib, ts, s, false, 0);
    ClearTail(lib, ts, k);
    var rest := ts[k..];
    OrTailTokens(lib, left.result.value, rest, left.rest, left.caseSensitive, left.depth);
    assert ts == ts[..k] + rest && rest[..|rest|] == rest;
    CountConcat(ts[..k], rest);
    SplitClear(lib, ts[..k], rest);
  }

  /**
   * Exactly the queries without case-sensitive literals and phrases, and with names that read back, survive printing
   * and parsing, whatever their structure; names that do not read back must be such that parsing fails at them.
   */
  lemma RoundTripExactly(lib: G.Library, input: bytes)
    requires G.ParseQuery(lib, input).Some? && NamesClear(lib, G.ParseQuery(lib, input).value)
    ensures var q := G.ParseQuery(lib, input).value;
      G.ParseQuery(lib, Show(lib, q)) == Some(q) <==> Printable(lib, q)
  {
    hide G.ParseQuery, IsParsed, Show, NamesClear, Printable, Built, Tokens, CaseFree, Weight, TokensClear, NamesGood;
    var q := G.ParseQuery(lib, input).value;
    if Printable(lib, q) {
      R.RoundTrip(lib, input);
    } else if G.ParseQuery(lib, Show(lib, q)) == Some(q) {
      ParseShape(lib, input);
      ParsedIsBuilt(lib, q);
      Printed(lib, q);
      ClearTokens(lib, q);
      TokensParse(lib, Tokens(q));
      WordsAreWeight(q);
      PrintableTokens(lib, q);
    }
  }
}
