/**
 * Display for Query (ferret-core/src/query.rs) and what the parser makes of the printed text: first the shape of all
 * queries the parser can return, then that the text printed for a query of that shape is read back, term by term,
 * conjunction by conjunction and alternative by alternative.
 */
module QueryPrinter {
  import opened Base
  import opened Query
  import G = QueryGrammar

  const SPACE: u8 := 0x20

  // ---- printing ----

  /** A case-sensitive literal is printed behind "case:"; a phrase is printed without its case flag. */
  function Show(lib: G.Library, q: Query): bytes
    decreases q, 1
  {
    match q
    case Literal(text, cs) => (if cs then G.KwCase() else []) + text
    case Regex(pattern, _) => [G.SLASH] + pattern + [G.SLASH]
    case Phrase(text, _) => [G.QUOTE] + text + [G.QUOTE]
    case PathFilter(prefix) => G.KwPath() + prefix
    case LanguageFilter(language) => G.KwLanguage() + lib.languageName(language)
    case Not(inner) => G.KwNot() + [SPACE] + Show(lib, inner)
    case Or(left, right) => Show(lib, left) + ([SPACE] + G.KwOr() + [SPACE] + Show(lib, right))
    case And(children) =>
      if children == [] then [] else Show(lib, children[0]) + ShowRest(lib, children[1..])
  }

  /** Each of the children after a space. */
  function ShowRest(lib: G.Library, children: seq<Query>): bytes
    decreases children, 0
  {
    if children == [] then [] else [SPACE] + Show(lib, children[0]) + ShowRest(lib, children[1..])
  }

  // ---- the queries a parse yields ----

  ghost predicate Literals(s: bytes) {
    forall b :: b in s ==> G.LiteralByte(b)
  }

  ghost predicate Unspaced(s: bytes) {
    forall b :: b in s ==> !G.IsSpace(b)
  }

  predicate Filter(s: bytes) {
    G.KwPath() <= s || G.KwLanguage() <= s || G.KwLang() <= s
  }

  ghost predicate LiteralText(s: bytes) {
    s != [] && Literals(s) && s != G.KwNot() && s != G.KwCaseYes() && !Filter(s)
  }

  ghost predicate RegexText(s: bytes) {
    G.RegexLength(s + [G.SLASH]) == Some(|s|)
  }

  /** A query parse_unary can return. */
  ghost predicate IsTerm(lib: G.Library, q: Query) {
    match q
    case Literal(text, _) => LiteralText(text)
    case Regex(pattern, cs) => cs && RegexText(pattern) && lib.validRegex(pattern)
    case Phrase(text, _) => G.QUOTE !in text
    case PathFilter(prefix) => prefix != [] && Unspaced(prefix)
    case LanguageFilter(_) => true
    case Not(inner) => IsTerm(lib, inner)
    case Or(_, _) => false
    case And(_) => false
  }

  /** How many NOTs a term starts with. */
  function NotDepth(q: Query): nat {
    match q
    case Not(inner) => 1 + NotDepth(inner)
    case _ => 0
  }

  ghost predicate IsBoundedTerm(lib: G.Library, q: Query) {
    IsTerm(lib, q) && NotDepth(q) < G.MAX_PARSE_DEPTH
  }

  /** Terms in a row, of which only the first may be the word OR. */
  ghost predicate AreTerms(lib: G.Library, children: seq<Query>) {
    && (forall i :: 0 <= i < |children| ==> IsBoundedTerm(lib, children[i]))
    && (forall i :: 0 < i < |children| ==> children[i] != Literal(G.KwOr(), false))
  }

  ghost predicate IsConjunction(lib: G.Library, q: Query) {
    IsBoundedTerm(lib, q) || (q.And? && |q.children| > 1 && AreTerms(lib, q.children))
  }

  /** A query the parser can return. */
  ghost predicate IsParsed(lib: G.Library, q: Query) {
    if q.Or? then IsParsed(lib, q.left) && IsConjunction(lib, q.right) else IsConjunction(lib, q)
  }

  // ---- scanning lemmas ----

  lemma {:induction false} SkipIdle(s: bytes)
    ensures G.SkipSpace(G.SkipSpace(s)) == G.SkipSpace(s)
  {
    if s != [] && G.IsSpace(s[0]) { SkipIdle(s[1..]); }
  }

  lemma {:induction false} LiteralScan(s: bytes)
    ensures Literals(s[..G.LiteralLength(s)])
    ensures G.LiteralLength(s) < |s| ==> !G.LiteralByte(s[G.LiteralLength(s)])
  {
    if s != [] && G.LiteralByte(s[0]) {
      LiteralScan(s[1..]);
      var n := G.LiteralLength(s[1..]);
      assert s[..n + 1] == [s[0]] + s[1..][..n];
    }
  }

  lemma {:induction false} LiteralScans(text: bytes, rest: bytes)
    requires Literals(text) && (rest == [] || !G.LiteralByte(rest[0]))
    ensures G.LiteralLength(text + rest) == |text|
  {
    if text == [] {
      assert text + rest == rest;
    } else {
      assert text[0] in text;
      assert Literals(text[1..]) by { assert forall b :: b in text[1..] ==> b in text; }
      LiteralScans(text[1..], rest);
      assert (text + rest)[1..] == text[1..] + rest;
    }
  }

  lemma {:induction false} WordScan(s: bytes)
    ensures Unspaced(s[..G.WordLength(s)])
  {
    if s != [] && !G.IsSpace(s[0]) {
      WordScan(s[1..]);
      var n := G.WordLength(s[1..]);
      assert s[..n + 1] == [s[0]] + s[1..][..n];
    }
  }

  lemma {:induction false} WordScans(text: bytes, rest: bytes)
    requires Unspaced(text) && (rest == [] || G.IsSpace(rest[0]))
    ensures G.WordLength(text + rest) == |text|
  {
    if text == [] {
      assert text + rest == rest;
    } else {
      assert text[0] in text;
      assert Unspaced(text[1..]) by { assert forall b :: b in text[1..] ==> b in text; }
      WordScans(text[1..], rest);
      assert (text + rest)[1..] == text[1..] + rest;
    }
  }

  lemma {:induction false} PhraseScan(s: bytes)
    ensures G.PhraseLength(s).Some? ==> G.QUOTE !in s[..G.PhraseLength(s).value]
  {
    if s != [] && s[0] != G.QUOTE {
      PhraseScan(s[1..]);
      if G.PhraseLength(s).Some? {
        var n := G.PhraseLength(s[1..]).value;
        assert s[..n + 1] == [s[0]] + s[1..][..n];
      }
    }
  }

  lemma {:induction false} PhraseScans(text: bytes, rest: bytes)
    requires G.QUOTE !in text
    ensures G.PhraseLength(text + ([G.QUOTE] + rest)) == Some(|text|)
  {
    var tail := [G.QUOTE] + rest;
    if text == [] {
      assert text + tail == tail;
    } else {
      PhraseScans(text[1..], rest);
      assert (text + tail)[1..] == text[1..] + tail;
    }
  }

  /** Where a regex ends depends on the bytes up to its closing slash only. */
  lemma {:induction false} RegexScan(s: bytes, n: nat, other: bytes)
    requires G.RegexLength(s) == Some(n) && s[..n + 1] <= other
    ensures G.RegexLength(other) == Some(n)
  {
    assert s[0] == s[..n + 1][0] == other[0];
    if s[0] != G.SLASH {
      var step := if s[0] == G.BACKSLASH && |s| > 1 then 2 else 1;
      assert step <= n;
      assert s[..n + 1][step..] == s[step..][..n - step + 1];
      assert s[..n + 1] == other[..n + 1];
      assert other[..n + 1][step..] == other[step..][..n - step + 1];
      RegexScan(s[step..], n - step, other[step..]);
    }
  }

  // ---- every parse yields such a query ----

  lemma LiteralShape(s: bytes)
    requires s != [] && G.LiteralLength(s) > 0 && !Filter(s)
    requires !G.KeywordAt(s, G.KwNot()) && !G.KeywordAt(s, G.KwCaseYes())
    ensures LiteralText(s[..G.LiteralLength(s)])
  {
    hide G.KwNot, G.KwCaseYes, G.KwPath, G.KwLanguage, G.KwLang;
    LiteralScan(s);
    var n := G.LiteralLength(s);
    hide G.LiteralLength;
    var text := s[..n];
    KeywordEnds(s, n, G.KwNot());
    KeywordEnds(s, n, G.KwCaseYes());
    PrefixOf(s, n, G.KwPath());
    PrefixOf(s, n, G.KwLanguage());
    PrefixOf(s, n, G.KwLang());
  }

  lemma PrefixOf(s: bytes, n: nat, word: bytes)
    requires n <= |s|
    ensures word <= s[..n] ==> word <= s
  {
    if word <= s[..n] {
      assert s[..|word|] == s[..n][..|word|];
    }
  }

  lemma KeywordEnds(s: bytes, n: nat, word: bytes)
    requires n <= |s| && (n < |s| ==> !G.LiteralByte(s[n]))
    ensures s[..n] == word ==> G.KeywordAt(s, word)
  {
    if s[..n] == word {
      assert n < |s| ==> s[n..][0] == s[n];
    }
  }

  /** A successful outcome holds a term and the depth it started from, which leaves room for the term's NOTs. */
  ghost predicate Shaped(lib: G.Library, o: G.Outcome, d: nat) {
    o.result.Some? ==>
      IsTerm(lib, o.result.value) && o.depth == d && NotDepth(o.result.value) + d <= G.MAX_PARSE_DEPTH
  }

  lemma RegexShape(lib: G.Library, t: bytes, cs: bool, d: nat)
    requires t != [] && t[0] == G.SLASH && d <= G.MAX_PARSE_DEPTH
    ensures Shaped(lib, G.ParseRegex(lib, t, cs, d), d)
  {
    var n := G.RegexLength(t[1..]);
    if n.Some? {
      var pattern := t[1..n.value + 1];
      assert pattern == t[1..][..n.value];
      assert t[1..][..n.value + 1] <= pattern + [G.SLASH] by { RegexCloses(t[1..], n.value); }
      RegexScan(t[1..], n.value, pattern + [G.SLASH]);
    }
  }

  lemma {:induction false} RegexCloses(s: bytes, n: nat)
    requires G.RegexLength(s) == Some(n)
    ensures s[..n + 1] == s[..n] + [G.SLASH]
  {
    if s[0] != G.SLASH {
      var step := if s[0] == G.BACKSLASH && |s| > 1 then 2 else 1;
      RegexCloses(s[step..], n - step);
      assert s[step..][n - step] == s[n];
      assert s[step..][..n - step + 1][n - step] == s[n];
    }
  }

  lemma PhraseShape(lib: G.Library, t: bytes, cs: bool, d: nat)
    requires t != [] && t[0] == G.QUOTE && d <= G.MAX_PARSE_DEPTH
    ensures Shaped(lib, G.ParsePhrase(t, cs, d), d)
  {
    PhraseScan(t[1..]);
    var n := G.PhraseLength(t[1..]);
    if n.Some? { assert t[1..][..n.value] == t[1..n.value + 1]; }
  }

  lemma PathShape(lib: G.Library, t: bytes, cs: bool, d: nat)
    requires G.KwPath() <= t && d <= G.MAX_PARSE_DEPTH
    ensures Shaped(lib, G.ParsePathFilter(t, cs, d), d)
  {
    WordScan(t[|G.KwPath()|..]);
  }

  lemma LiteralCase(lib: G.Library, t: bytes, cs: bool, d: nat)
    requires t != [] && !Filter(t) && !G.KeywordAt(t, G.KwNot()) && !G.KeywordAt(t, G.KwCaseYes())
    requires d <= G.MAX_PARSE_DEPTH
    ensures Shaped(lib, G.ParseLiteral(t, cs, d), d)
  {
    hide Filter, G.KeywordAt, G.LiteralLength;
    if G.LiteralLength(t) > 0 { LiteralShape(t); }
  }

  lemma {:induction false} CaseShape(lib: G.Library, t: bytes, cs: bool, d: nat)
    requires G.KwCaseYes() <= t && !Filter(t) && !G.KeywordAt(t, G.KwNot()) && d <= G.MAX_PARSE_DEPTH
    ensures Shaped(lib, G.ParseCaseModifier(lib, t, cs, d), d)
    decreases |t|, 0
  {
    hide G.SkipSpace, G.ParseUnary, G.ParseLiteral, Filter, G.KwCaseYes, G.KwNot;
    if G.Boundary(t[|G.KwCaseYes()|..]) {
      UnaryShape(lib, G.SkipSpace(t[|G.KwCaseYes()|..]), true, d);
    } else {
      LiteralCase(lib, t, cs, d);
    }
  }

  lemma {:induction false} PrimaryShape(lib: G.Library, s: bytes, cs: bool, d: nat)
    requires !G.KeywordAt(G.SkipSpace(s), G.KwNot()) && d <= G.MAX_PARSE_DEPTH
    ensures Shaped(lib, G.ParsePrimary(lib, s, cs, d), d)
    decreases |s|, 1
  {
    hide G.SkipSpace, G.KeywordAt, G.KwNot, G.KwCaseYes, G.KwPath, G.KwLanguage, G.KwLang;
    hide G.ParseRegex, G.ParsePhrase, G.ParsePathFilter, G.ParseLiteral, G.ParseCaseModifier;
    var t := G.SkipSpace(s);
    if t == [] {
    } else if t[0] == G.SLASH {
      RegexShape(lib, t, cs, d);
    } else if t[0] == G.QUOTE {
      PhraseShape(lib, t, cs, d);
    } else if G.KwPath() <= t {
      PathShape(lib, t, cs, d);
    } else if Filter(t) {
    } else if G.KwCaseYes() <= t {
      CaseShape(lib, t, cs, d);
    } else {
      NotKeyword(t, G.KwCaseYes());
      LiteralCase(lib, t, cs, d);
    }
  }

  lemma NotKeyword(t: bytes, word: bytes)
    requires !(word <= t)
    ensures !G.KeywordAt(t, word)
  {
  }

  /** A term puts the depth back, and NOT nests no deeper than the limit allows from there. */
  lemma {:induction false} UnaryShape(lib: G.Library, s: bytes, cs: bool, d: nat)
    ensures var o := G.ParseUnary(lib, s, cs, d);
      o.result.Some? ==>
      IsTerm(lib, o.result.value) && o.depth == d && NotDepth(o.result.value) + d < G.MAX_PARSE_DEPTH
    decreases |s|, 3
  {
    if d + 1 <= G.MAX_PARSE_DEPTH { InnerShape(lib, s, cs, d + 1); }
  }

  lemma {:induction false} InnerShape(lib: G.Library, s: bytes, cs: bool, d: nat)
    requires d <= G.MAX_PARSE_DEPTH
    ensures Shaped(lib, G.ParseUnaryInner(lib, s, cs, d), d)
    decreases |s|, 2
  {
    hide G.SkipSpace, G.KeywordAt, G.KwNot, G.ParsePrimary, G.ParseUnary;
    var t := G.SkipSpace(s);
    SkipIdle(s);
    if G.KeywordAt(t, G.KwNot()) {
      assert G.KwNot() <= t by { KeywordPrefix(t, G.KwNot()); }
      UnaryShape(lib, G.SkipSpace(t[|G.KwNot()|..]), cs, d);
    } else {
      PrimaryShape(lib, t, cs, d);
    }
  }

  lemma KeywordPrefix(t: bytes, word: bytes)
    requires G.KeywordAt(t, word)
    ensures word <= t
  {
  }

  // ---- where a literal that ignores case comes from ----

  /**
   * A literal parsed under the case flag is case-sensitive; one that is not was read from the front of the input.
   */
  ghost predicate FromInput(s: bytes, o: G.Outcome, cs: bool) {
    o.result.Some? && o.result.value.Literal? ==>
      && (cs ==> o.result.value.caseSensitive)
      && (!o.result.value.caseSensitive ==>
            G.SkipSpace(s) == o.result.value.text + o.rest && G.Boundary(o.rest))
  }

  lemma LiteralOrigin(s: bytes, t: bytes, cs: bool, d: nat)
    requires G.SkipSpace(s) == t
    ensures FromInput(s, G.ParseLiteral(t, cs, d), cs)
  {
    hide G.SkipSpace;
    LiteralScan(t);
  }

  lemma {:induction false} PrimaryOrigin(lib: G.Library, s: bytes, cs: bool, d: nat)
    ensures FromInput(s, G.ParsePrimary(lib, s, cs, d), cs)
    decreases |s|, 1
  {
    hide G.SkipSpace, G.KwCaseYes, G.KwPath, G.KwLanguage, G.KwLang, G.KeywordAt;
    hide G.ParseLiteral, G.ParseCaseModifier, G.RegexLength, G.PhraseLength, G.WordLength;
    var t := G.SkipSpace(s);
    LiteralOrigin(s, t, cs, d);
    if G.KwCaseYes() <= t {
      if G.KeywordAt(t, G.KwCaseYes()) {
        G.CaseStep(lib, t, cs, d);
        UnaryOrigin(lib, G.SkipSpace(t[|G.KwCaseYes()|..]), true, d);
      } else {
        G.CaseLiteral(lib, t, cs, d);
      }
    }
  }

  lemma {:induction false} UnaryOrigin(lib: G.Library, s: bytes, cs: bool, d: nat)
    ensures FromInput(s, G.ParseUnary(lib, s, cs, d), cs)
    decreases |s|, 3
  {
    hide G.SkipSpace, G.ParsePrimary, G.KeywordAt;
    SkipIdle(s);
    PrimaryOrigin(lib, G.SkipSpace(s), cs, d + 1);
  }

  lemma NotTheWordOr(lib: G.Library, t: bytes, cs: bool, d: nat)
    requires G.SkipSpace(t) == t && !G.KeywordAt(t, G.KwOr())
    ensures G.ParseUnary(lib, t, cs, d).result != Some(Literal(G.KwOr(), false))
  {
    hide G.SkipSpace, G.ParseUnary, G.KwOr;
    UnaryOrigin(lib, t, cs, d);
    var o := G.ParseUnary(lib, t, cs, d);
    if o.result == Some(Literal(G.KwOr(), false)) {
      KeywordFollowed(G.KwOr(), o.rest);
      assert false;
    }
  }

  lemma KeywordFollowed(word: bytes, rest: bytes)
    requires G.Boundary(rest)
    ensures G.KeywordAt(word + rest, word)
  {
    assert (word + rest)[|word|..] == rest;
  }

  // ---- conjunctions and alternatives ----

  lemma {:induction false} AndTailShape(lib: G.Library, children: seq<Query>, s: bytes, cs: bool, d: nat)
    requires children != [] && AreTerms(lib, children)
    ensures IsConjunction(lib, G.Conjunction(G.ParseAndTail(lib, children, s, cs, d)).result.value)
    decreases |s|
  {
    hide G.SkipSpace, G.KeywordAt, G.ParseUnary, G.ParseAndTail, IsTerm, NotDepth;
    var t := G.SkipSpace(s);
    if t == [] || G.KeywordAt(t, G.KwOr()) {
      G.AndStop(lib, children, s, cs, d);
    } else {
      G.AndStep(lib, children, s, cs, d);
      var u := G.ParseUnary(lib, t, cs, d);
      if u.result.Some? {
        UnaryShape(lib, t, cs, d);
        SkipIdle(s);
        NotTheWordOr(lib, t, cs, d);
        AndTailShape(lib, children + [u.result.value], u.rest, u.caseSensitive, u.depth);
      }
    }
  }

  lemma AndShape(lib: G.Library, s: bytes, cs: bool, d: nat)
    ensures var o := G.ParseAnd(lib, s, cs, d); o.result.Some? ==> IsConjunction(lib, o.result.value)
  {
    hide G.SkipSpace, G.ParseUnary, G.ParseAnd, G.ParseAndTail, IsTerm, NotDepth, G.Conjunction, IsConjunction;
    G.AndWhole(lib, s, cs, d);
    var first := G.ParseUnary(lib, G.SkipSpace(s), cs, d);
    if first.result.Some? {
      UnaryShape(lib, G.SkipSpace(s), cs, d);
      AndTailShape(lib, [first.result.value], first.rest, first.caseSensitive, first.depth);
    }
  }

  lemma {:induction false} OrTailShape(lib: G.Library, left: Query, s: bytes, cs: bool, d: nat)
    requires IsParsed(lib, left)
    ensures var o := G.ParseOrTail(lib, left, s, cs, d); o.result.Some? ==> IsParsed(lib, o.result.value)
    decreases |s|
  {
    hide G.SkipSpace, G.KeywordAt, G.ParseAnd, G.ParseOrTail, IsConjunction;
    if G.KeywordAt(G.SkipSpace(s), G.KwOr()) {
      G.OrStep(lib, left, s, cs, d);
      KeywordPrefix(G.SkipSpace(s), G.KwOr());
      var t := G.SkipSpace(G.SkipSpace(s)[|G.KwOr()|..]);
      AndShape(lib, t, cs, d);
      var right := G.ParseAnd(lib, t, cs, d);
      if right.result.Some? {
        OrTailShape(lib, Or(left, right.result.value), right.rest, right.caseSensitive, right.depth);
      }
    } else {
      G.OrStop(lib, left, s, cs, d);
    }
  }

  /** Every query the parser returns has this shape. */
  lemma ParseShape(lib: G.Library, input: bytes)
    requires G.ParseQuery(lib, input).Some?
    ensures IsParsed(lib, G.ParseQuery(lib, input).value)
  {
    hide G.SkipSpace, G.ParseAnd, G.ParseOr, G.ParseOrTail, IsConjunction;
    G.OrWhole(lib, input, false, 0);
    AndShape(lib, input, false, 0);
    var left := G.ParseAnd(lib, input, false, 0);
    if left.result.Some? {
      assert IsParsed(lib, left.result.value) by { ConjunctionIsParsed(lib, left.result.value); }
      OrTailShape(lib, left.result.value, left.rest, left.caseSensitive, left.depth);
    }
  }

  lemma ConjunctionIsParsed(lib: G.Library, q: Query)
    requires IsConjunction(lib, q)
    ensures IsParsed(lib, q)
  {
  }

  // ---- reading a printed term back ----

  /** The printed name is one word, and the language table knows it. */
  ghost predicate NameReads(lib: G.Library, l: Language) {
    var name := lib.languageName(l);
    name != [] && Unspaced(name) && lib.readLanguage(name) == Some(l)
  }

  /** No case-sensitive literal or phrase, and every language name reads back. */
  ghost predicate Printable(lib: G.Library, q: Query) {
    match q
    case Literal(_, cs) => !cs
    case Regex(_, _) => true
    case Phrase(_, cs) => !cs
    case PathFilter(_) => true
    case LanguageFilter(language) => NameReads(lib, language)
    case Not(inner) => Printable(lib, inner)
    case Or(left, right) => Printable(lib, left) && Printable(lib, right)
    case And(children) => forall i :: 0 <= i < |children| ==> Printable(lib, children[i])
  }

  ghost predicate SpaceOrEnd(s: bytes) {
    s == [] || G.IsSpace(s[0])
  }

  lemma SkipNothing(s: bytes)
    requires s == [] || !G.IsSpace(s[0])
    ensures G.SkipSpace(s) == s
  {
  }

  /** A word of literal bytes at the front of a token that a boundary follows is inside the token. */
  lemma TokenPrefix(text: bytes, post: bytes, word: bytes)
    requires Literals(word) && G.Boundary(post)
    ensures word <= text + post ==> word <= text
  {
    var s := text + post;
    if word <= s {
      assert forall i :: 0 <= i < |word| ==> s[i] == word[i] && s[i] in word;
      assert post != [] ==> s[|text|] == post[0];
      assert |word| <= |text|;
      assert s[..|word|] == text[..|word|];
    }
  }

  lemma TokenKeyword(text: bytes, post: bytes, word: bytes)
    requires Literals(text) && Literals(word) && G.Boundary(post)
    ensures G.KeywordAt(text + post, word) ==> text == word
  {
    var s := text + post;
    if G.KeywordAt(s, word) {
      TokenPrefix(text, post, word);
      assert |word| < |s| ==> s[|word|..][0] == s[|word|];
      assert forall i :: 0 <= i < |text| ==> s[i] == text[i] && s[i] in text;
      assert |word| == |text|;
    }
  }

  lemma LiteralReads(lib: G.Library, text: bytes, post: bytes, cs: bool, d: nat)
    requires LiteralText(text) && G.Boundary(post)
    ensures G.ParseLiteral(text + post, cs, d) == G.Outcome(Some(Literal(text, cs)), post, false, d)
  {
    LiteralScans(text, post);
  }

  /** The text of a literal sends the parser to parse_literal. */
  lemma LiteralPrimary(lib: G.Library, text: bytes, post: bytes, cs: bool, d: nat)
    requires LiteralText(text) && G.Boundary(post)
    ensures !G.KeywordAt(text + post, G.KwNot())
    ensures G.ParsePrimary(lib, text + post, cs, d) == G.Outcome(Some(Literal(text, cs)), post, false, d)
  {
    var s := text + post;
    assert Literals(G.KwNot()) && Literals(G.KwCaseYes());
    assert Literals(G.KwPath()) && Literals(G.KwLanguage()) && Literals(G.KwLang());
    hide G.KwNot, G.KwCaseYes, G.KwPath, G.KwLanguage, G.KwLang;
    hide G.KeywordAt, G.SkipSpace, G.ParseLiteral, G.ParseCaseModifier;
    assert s[0] == text[0] && text[0] in text;
    SkipNothing(s);
    TokenKeyword(text, post, G.KwNot());
    TokenPrefix(text, post, G.KwPath());
    TokenPrefix(text, post, G.KwLanguage());
    TokenPrefix(text, post, G.KwLang());
    TokenKeyword(text, post, G.KwCaseYes());
    LiteralReads(lib, text, post, cs, d);
    if G.KwCaseYes() <= s { G.CaseLiteral(lib, s, cs, d); }
  }

  lemma RegexPrimary(lib: G.Library, pattern: bytes, post: bytes, cs: bool, d: nat)
    requires RegexText(pattern) && lib.validRegex(pattern)
    ensures var s := [G.SLASH] + pattern + [G.SLASH] + post;
      !G.KeywordAt(s, G.KwNot()) &&
      G.ParsePrimary(lib, s, cs, d) == G.Outcome(Some(Regex(pattern, true)), post, false, d)
  {
    var s := [G.SLASH] + pattern + [G.SLASH] + post;
    assert s[1..] == pattern + [G.SLASH] + post;
    RegexScan(pattern + [G.SLASH], |pattern|, s[1..]);
    hide G.RegexLength;
    assert s[1..|pattern| + 1] == pattern && s[|pattern| + 2..] == post;
    SkipNothing(s);
  }

  lemma PhrasePrimary(lib: G.Library, text: bytes, post: bytes, cs: bool, d: nat)
    requires G.QUOTE !in text
    ensures var s := [G.QUOTE] + text + [G.QUOTE] + post;
      !G.KeywordAt(s, G.KwNot()) &&
      G.ParsePrimary(lib, s, cs, d) == G.Outcome(Some(Phrase(text, cs)), post, false, d)
  {
    var s := [G.QUOTE] + text + [G.QUOTE] + post;
    assert s[1..] == text + ([G.QUOTE] + post);
    PhraseScans(text, post);
    hide G.PhraseLength;
    assert s[1..|text| + 1] == text && s[|text| + 2..] == post;
    SkipNothing(s);
  }

  lemma PathPrimary(lib: G.Library, prefix: bytes, post: bytes, cs: bool, d: nat)
    requires prefix != [] && Unspaced(prefix) && SpaceOrEnd(post)
    ensures var s := G.KwPath() + prefix + post;
      !G.KeywordAt(s, G.KwNot()) &&
      G.ParsePrimary(lib, s, cs, d) == G.Outcome(Some(PathFilter(prefix)), post, cs, d)
  {
    var s := G.KwPath() + prefix + post;
    assert s[|G.KwPath()|..] == prefix + post;
    WordScans(prefix, post);
    hide G.WordLength;
    assert s[0] == G.KwPath()[0];
    SkipNothing(s);
  }

  /** Either prefix and any word the language table reads, printed name or not. */
  lemma LanguageWord(
      lib: G.Library, prefix: bytes, word: bytes, l: Language, post: bytes, cs: bool, d: nat)
    requires prefix == G.KwLanguage() || prefix == G.KwLang()
    requires word != [] && Unspaced(word) && lib.readLanguage(word) == Some(l) && SpaceOrEnd(post)
    ensures var s := prefix + word + post;
      !G.KeywordAt(s, G.KwNot()) &&
      G.ParsePrimary(lib, s, cs, d) == G.Outcome(Some(LanguageFilter(l)), post, cs, d)
  {
    var s := prefix + word + post;
    assert s[|prefix|..] == word + post;
    assert s[|prefix|..][..|word|] == word && s[|prefix|..][|word|..] == post;
    WordScans(word, post);
    LanguageStarts(prefix, s);
    hide G.WordLength, G.KwLanguage, G.KwLang, G.KwPath, G.KwNot, G.KeywordAt, G.ParsePathFilter, G.ParseCaseModifier,
      G.ParseLiteral, G.ParseRegex, G.ParsePhrase, Unspaced;
    SkipNothing(s);
  }

  lemma LanguageStarts(prefix: bytes, s: bytes)
    requires (prefix == G.KwLanguage() || prefix == G.KwLang()) && prefix <= s
    ensures !G.KeywordAt(s, G.KwNot()) && !(G.KwPath() <= s) && !G.IsSpace(s[0]) && s[0] != G.SLASH && s[0] != G.QUOTE
    ensures prefix == G.KwLanguage() || !(G.KwLanguage() <= s)
  {
    assert s[0] == prefix[0] && s[4] == prefix[4];
  }

  lemma LanguagePrimary(lib: G.Library, l: Language, post: bytes, cs: bool, d: nat)
    requires NameReads(lib, l) && SpaceOrEnd(post)
    ensures var s := G.KwLanguage() + lib.languageName(l) + post;
      !G.KeywordAt(s, G.KwNot()) &&
      G.ParsePrimary(lib, s, cs, d) == G.Outcome(Some(LanguageFilter(l)), post, cs, d)
  {
    LanguageWord(lib, G.KwLanguage(), lib.languageName(l), l, post, cs, d);
  }

  lemma PrimaryReads(lib: G.Library, q: Query, post: bytes, d: nat)
    requires IsTerm(lib, q) && !q.Not? && Printable(lib, q) && SpaceOrEnd(post)
    ensures !G.KeywordAt(Show(lib, q) + post, G.KwNot())
    ensures G.ParsePrimary(lib, Show(lib, q) + post, false, d) == G.Outcome(Some(q), post, false, d)
  {
    hide G.ParsePrimary, G.KeywordAt, G.KwNot, G.KwPath, G.KwLanguage, LiteralText, RegexText, NameReads;
    match q
    case Literal(text, _) =>
      assert [] + text == text;
      LiteralPrimary(lib, text, post, false, d);
    case Regex(pattern, _) => RegexPrimary(lib, pattern, post, false, d);
    case Phrase(text, _) => PhrasePrimary(lib, text, post, false, d);
    case PathFilter(prefix) => PathPrimary(lib, prefix, post, false, d);
    case LanguageFilter(l) => LanguagePrimary(lib, l, post, false, d);
  }

  /** A printed term starts with something other than a space. */
  lemma ShowStarts(lib: G.Library, q: Query)
    requires IsTerm(lib, q)
    ensures Show(lib, q) != [] && !G.IsSpace(Show(lib, q)[0])
  {
    match q
    case Literal(text, cs) =>
      assert [] + text == text;
      assert text[0] in text;
      assert cs ==> Show(lib, q)[0] == G.KwCase()[0];
    case _ =>
  }

  lemma SkipOne(s: bytes, post: bytes)
    requires s != [] && !G.IsSpace(s[0])
    ensures G.SkipSpace([SPACE] + s + post) == s + post && G.SkipSpace(s + post) == s + post
  {
    assert ([SPACE] + s + post)[1..] == s + post;
    SkipNothing(s + post);
  }

  lemma NotPrinted(s: bytes, post: bytes)
    ensures var t := G.KwNot() + [SPACE] + s + post;
      G.KeywordAt(t, G.KwNot()) && G.SkipSpace(t) == t && t[|G.KwNot()|..] == [SPACE] + s + post
  {
    var t := G.KwNot() + [SPACE] + s + post;
    assert t[0] == G.KwNot()[0];
    SkipNothing(t);
    assert t[|G.KwNot()|..] == [SPACE] + s + post;
  }

  lemma NotReads(lib: G.Library, inner: bytes, i: Query, post: bytes, d: nat)
    requires inner != [] && !G.IsSpace(inner[0]) && d + 1 < G.MAX_PARSE_DEPTH
    requires G.ParseUnary(lib, inner + post, false, d + 1) == G.Outcome(Some(i), post, false, d + 1)
    ensures G.ParseUnary(lib, G.KwNot() + [SPACE] + inner + post, false, d) ==
            G.Outcome(Some(Not(i)), post, false, d)
  {
    var s := G.KwNot() + [SPACE] + inner + post;
    hide G.SkipSpace, G.KeywordAt, G.KwNot;
    hide G.ParseUnaryInner, G.ParseUnary;
    SkipOne(inner, post);
    NotPrinted(inner, post);
    G.NotStep(lib, s, false, d + 1);
    UnaryOf(lib, s, d);
  }

  lemma LeafReads(lib: G.Library, s: bytes, q: Query, post: bytes, d: nat)
    requires d < G.MAX_PARSE_DEPTH && s != [] && !G.IsSpace(s[0])
    requires !G.KeywordAt(s, G.KwNot())
    requires G.ParsePrimary(lib, s, false, d + 1) == G.Outcome(Some(q), post, false, d + 1)
    ensures G.ParseUnary(lib, s, false, d) == G.Outcome(Some(q), post, false, d)
  {
    SkipNothing(s);
    hide G.SkipSpace, G.KeywordAt, G.KwNot, G.ParsePrimary, G.ParseUnary;
    G.PrimaryStep(lib, s, false, d + 1);
    UnaryOf(lib, s, d);
  }

  /** A printed term is read back whatever follows it after a space. */
  lemma {:induction false} TermReads(lib: G.Library, q: Query, post: bytes, d: nat)
    requires IsTerm(lib, q) && Printable(lib, q) && SpaceOrEnd(post) && NotDepth(q) + d < G.MAX_PARSE_DEPTH
    ensures G.ParseUnary(lib, Show(lib, q) + post, false, d) == G.Outcome(Some(q), post, false, d)
  {
    hide G.ParsePrimary, G.ParseUnary, G.KeywordAt, G.KwNot;
    ShowStarts(lib, q);
    if q.Not? {
      ShowStarts(lib, q.inner);
      TermReads(lib, q.inner, post, d + 1);
      NotReads(lib, Show(lib, q.inner), q.inner, post, d);
    } else {
      PrimaryReads(lib, q, post, d + 1);
      LeafReads(lib, Show(lib, q) + post, q, post, d);
    }
  }

  lemma UnaryOf(lib: G.Library, s: bytes, d: nat)
    requires d < G.MAX_PARSE_DEPTH
    ensures var o := G.ParseUnaryInner(lib, s, false, d + 1);
      G.ParseUnary(lib, s, false, d) == o.(depth := o.depth - 1)
  {
    hide G.ParseUnaryInner;
  }

  // ---- reading conjunctions back ----

  /** What can follow a printed conjunction: nothing, or a space and the keyword OR. */
  ghost predicate Ends(post: bytes) {
    SpaceOrEnd(post) && (G.SkipSpace(post) == [] || G.KeywordAt(G.SkipSpace(post), G.KwOr()))
  }

  /** Terms that can be printed behind another one. */
  ghost predicate CanFollow(lib: G.Library, children: seq<Query>) {
    forall i :: 0 <= i < |children| ==>
      IsBoundedTerm(lib, children[i]) && Printable(lib, children[i]) && children[i] != Literal(G.KwOr(), false)
  }

  lemma NotOr(lib: G.Library, q: Query, post: bytes)
    requires IsTerm(lib, q) && Printable(lib, q) && q != Literal(G.KwOr(), false) && SpaceOrEnd(post)
    ensures !G.KeywordAt(Show(lib, q) + post, G.KwOr())
  {
    if q.Literal? {
      assert [] + q.text == q.text;
      TokenKeyword(q.text, post, G.KwOr());
    } else {
      assert Show(lib, q)[0] != G.KwOr()[0];
    }
  }

  lemma {:induction false} RestReads(lib: G.Library, done: seq<Query>, todo: seq<Query>, post: bytes)
    requires CanFollow(lib, todo) && Ends(post)
    ensures G.Conjunction(G.ParseAndTail(lib, done, ShowRest(lib, todo) + post, false, 0)) ==
            G.Outcome(Some(G.Conjoin(done + todo)), G.SkipSpace(post), false, 0)
    decreases todo
  {
    hide G.SkipSpace, G.KeywordAt, G.ParseUnary, G.ParseAndTail, G.Conjunction, G.Conjoin, G.KwOr;
    hide Show, IsTerm, Printable, NotDepth;
    if todo == [] {
      assert [] + post == post && done + todo == done;
      G.AndStop(lib, done, post, false, 0);
    } else {
      var q, rest := todo[0], ShowRest(lib, todo[1..]) + post;
      assert ShowRest(lib, todo) + post == [SPACE] + Show(lib, q) + rest;
      assert SpaceOrEnd(rest);
      ShowStarts(lib, q);
      SkipOne(Show(lib, q), rest);
      NotOr(lib, q, rest);
      TermReads(lib, q, rest, 0);
      G.AndStep(lib, done, [SPACE] + Show(lib, q) + rest, false, 0);
      RestReads(lib, done + [q], todo[1..], post);
      assert done + [q] + todo[1..] == done + todo;
    }
  }

  lemma PartsRead(lib: G.Library, parts: seq<Query>, post: bytes)
    requires parts != [] && IsBoundedTerm(lib, parts[0]) && Printable(lib, parts[0])
    requires CanFollow(lib, parts[1..]) && Ends(post)
    ensures G.ParseAnd(lib, Show(lib, parts[0]) + (ShowRest(lib, parts[1..]) + post), false, 0) ==
            G.Outcome(Some(G.Conjoin(parts)), G.SkipSpace(post), false, 0)
  {
    hide G.SkipSpace, G.KeywordAt, G.ParseUnary, G.ParseAnd, G.ParseAndTail, G.Conjunction, G.Conjoin;
    hide Show, IsTerm, Printable, NotDepth, CanFollow, G.KwOr;
    var rest := ShowRest(lib, parts[1..]) + post;
    assert SpaceOrEnd(rest);
    ShowStarts(lib, parts[0]);
    SkipOne(Show(lib, parts[0]), rest);
    TermReads(lib, parts[0], rest, 0);
    G.AndWhole(lib, Show(lib, parts[0]) + rest, false, 0);
    RestReads(lib, [parts[0]], parts[1..], post);
    assert [parts[0]] + parts[1..] == parts;
  }

  lemma ConjunctionReads(lib: G.Library, q: Query, post: bytes)
    requires IsConjunction(lib, q) && Printable(lib, q) && Ends(post)
    ensures G.ParseAnd(lib, Show(lib, q) + post, false, 0) == G.Outcome(Some(q), G.SkipSpace(post), false, 0)
  {
    hide G.SkipSpace, G.KeywordAt, G.ParseAnd, Show, NotDepth, G.KwOr;
    var parts := if q.And? then q.children else [q];
    ShowParts(lib, q, parts, post);
    assert G.Conjoin(parts) == q;
    PartsRead(lib, parts, post);
  }

  lemma ShowParts(lib: G.Library, q: Query, parts: seq<Query>, post: bytes)
    requires parts == (if q.And? then q.children else [q]) && parts != []
    ensures Show(lib, q) + post == Show(lib, parts[0]) + (ShowRest(lib, parts[1..]) + post)
  {
    if !q.And? { assert ShowRest(lib, parts[1..]) == []; }
  }

  // ---- reading alternatives back ----

  lemma {:induction false} OrReads(lib: G.Library, q: Query, post: bytes)
    requires IsParsed(lib, q) && Printable(lib, q) && Ends(post)
    ensures G.ParseOr(lib, Show(lib, q) + post, false, 0) == G.ParseOrTail(lib, q, post, false, 0)
    decreases q
  {
    hide G.SkipSpace, G.KeywordAt, G.ParseAnd, G.ParseOr, G.ParseOrTail, G.KwOr, IsConjunction;
    SkipIdle(post);
    if q.Or? {
      var right := Show(lib, q.right) + post;
      var after := [SPACE] + G.KwOr() + [SPACE] + right;
      assert Show(lib, q) + post == Show(lib, q.left) + after;
      OrPrinted(lib, q.right, post);
      OrReads(lib, q.left, after);
      ConjunctionReads(lib, q.right, post);
      G.OrStep(lib, q.left, after, false, 0);
    } else {
      ConjunctionReads(lib, q, post);
      G.OrWhole(lib, Show(lib, q) + post, false, 0);
    }
    TailIdle(lib, q, post);
  }

  lemma TailIdle(lib: G.Library, q: Query, post: bytes)
    ensures G.ParseOrTail(lib, q, G.SkipSpace(post), false, 0) == G.ParseOrTail(lib, q, post, false, 0)
  {
    hide G.SkipSpace, G.KeywordAt, G.ParseAnd, G.ParseOrTail;
    SkipIdle(post);
    if G.KeywordAt(G.SkipSpace(post), G.KwOr()) {
      KeywordPrefix(G.SkipSpace(post), G.KwOr());
      G.OrStep(lib, q, post, false, 0);
      G.OrStep(lib, q, G.SkipSpace(post), false, 0);
    } else {
      G.OrStop(lib, q, post, false, 0);
      G.OrStop(lib, q, G.SkipSpace(post), false, 0);
    }
  }

  lemma OrPrinted(lib: G.Library, q: Query, post: bytes)
    requires IsConjunction(lib, q) && Printable(lib, q)
    ensures var right := Show(lib, q) + post; var after := [SPACE] + G.KwOr() + [SPACE] + right;
      Ends(after) && G.KeywordAt(G.SkipSpace(after), G.KwOr()) &&
      G.SkipSpace(G.SkipSpace(after)[|G.KwOr()|..]) == right
  {
    ConjunctionStarts(lib, q);
    hide Show, Printable, IsConjunction;
    var right := Show(lib, q) + post;
    var after := [SPACE] + G.KwOr() + [SPACE] + right;
    var text := G.KwOr() + [SPACE] + right;
    assert after[1..] == text;
    assert text[0] == G.KwOr()[0];
    SkipNothing(text);
    assert text[|G.KwOr()|..] == [SPACE] + right;
    SkipOne(Show(lib, q), post);
    assert [SPACE] + right == [SPACE] + Show(lib, q) + post;
  }

  lemma ConjunctionStarts(lib: G.Library, q: Query)
    requires IsConjunction(lib, q) && Printable(lib, q)
    ensures Show(lib, q) != [] && !G.IsSpace(Show(lib, q)[0])
  {
    if q.And? { ShowStarts(lib, q.children[0]); } else { ShowStarts(lib, q); }
  }
}
