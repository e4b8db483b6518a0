/**
 * For a query of one term, possibly under NOTs: exactly which of them survive printing and parsing
 * (ferret-core/src/query.rs). A case-sensitive literal comes back as the literal "case:text", a case-sensitive phrase
 * as a phrase that ignores case, and a language whose name is not one word the parser knows does not come back.
 */
module TermRoundTrip {
  import opened Base
  import opened Query
  import opened QueryPrinter
  import opened RoundTrip
  import G = QueryGrammar

  /** The printed name does not end in a space. */
  predicate Trimmed(name: bytes) {
    name == [] || !G.IsSpace(name[|name| - 1])
  }

  predicate NamesTrimmed(lib: G.Library, q: Query) {
    match q
    case LanguageFilter(language) => Trimmed(lib.languageName(language))
    case Not(inner) => NamesTrimmed(lib, inner)
    case _ => true
  }

  /** The text was not read as the query, or not to its end. */
  predicate Misread(o: G.Outcome, q: Query) {
    o.result != Some(q) || G.SkipSpace(o.rest) != []
  }

  lemma CaseText(text: bytes)
    requires LiteralText(text) && G.KwCase() + text != G.KwCaseYes()
    ensures LiteralText(G.KwCase() + text)
  {
    var s := G.KwCase() + text;
    assert s[0] == G.KwCase()[0];
    assert Literals(G.KwCase());
  }

  lemma MisreadLiteral(lib: G.Library, text: bytes, d: nat)
    requires LiteralText(text)
    ensures G.ParsePrimary(lib, G.KwCase() + text, false, d).result != Some(Literal(text, true))
  {
    var s := G.KwCase() + text;
    assert s + [] == s;
    if s == G.KwCaseYes() {
      assert s[0] == G.KwCase()[0];
      SkipNothing(s);
      G.CaseStep(lib, s, false, d);
      assert s[|G.KwCaseYes()|..] == [];
      NothingParses(lib, d);
    } else {
      CaseText(text);
      LiteralPrimary(lib, s, [], false, d);
    }
  }

  lemma NothingParses(lib: G.Library, d: nat)
    ensures G.ParseUnary(lib, G.SkipSpace([]), true, d).result == None
  {
  }

  lemma {:induction false} SpaceLeft(s: bytes)
    requires s != [] && Trimmed(s)
    ensures G.SkipSpace(s) != []
  {
    if G.IsSpace(s[0]) { SpaceLeft(s[1..]); }
  }

  lemma {:induction false} WordOf(s: bytes)
    ensures G.WordLength(s) == |s| ==> Unspaced(s)
  {
    if s != [] && !G.IsSpace(s[0]) {
      WordOf(s[1..]);
      assert s == [s[0]] + s[1..];
    }
  }

  lemma MisreadLanguage(lib: G.Library, l: Language, d: nat)
    requires !NameReads(lib, l) && Trimmed(lib.languageName(l))
    ensures Misread(G.ParsePrimary(lib, G.KwLanguage() + lib.languageName(l), false, d), LanguageFilter(l))
  {
    var name := lib.languageName(l);
    var s := G.KwLanguage() + name;
    assert s[0] == G.KwLanguage()[0];
    SkipNothing(s);
    assert s[|G.KwLanguage()|..] == name;
    var n := G.WordLength(name);
    WordOf(name);
    if n < |name| {
      SpaceLeft(name[n..]);
    } else {
      assert name[..n] == name;
    }
  }

  lemma MisreadPrimary(lib: G.Library, q: Query, d: nat)
    requires IsTerm(lib, q) && !q.Not? && !Printable(lib, q) && NamesTrimmed(lib, q)
    ensures Misread(G.ParsePrimary(lib, Show(lib, q), false, d), q)
  {
    hide G.ParsePrimary, LiteralText, RegexText, NameReads;
    match q
    case Literal(text, _) => MisreadLiteral(lib, text, d);
    case Phrase(text, _) =>
      PhrasePrimary(lib, text, [], false, d);
      assert Show(lib, q) + [] == Show(lib, q);
    case LanguageFilter(l) => MisreadLanguage(lib, l, d);
  }

  lemma ShowsNoNot(lib: G.Library, q: Query)
    requires IsTerm(lib, q) && !q.Not? && !Printable(lib, q)
    ensures !G.KeywordAt(Show(lib, q), G.KwNot())
  {
    assert Show(lib, q)[0] != G.KwNot()[0];
  }

  lemma {:induction false} MisreadTerm(lib: G.Library, q: Query, d: nat)
    requires IsTerm(lib, q) && !Printable(lib, q) && NamesTrimmed(lib, q) && NotDepth(q) + d < G.MAX_PARSE_DEPTH
    ensures Misread(G.ParseUnary(lib, Show(lib, q), false, d), q)
  {
    hide G.SkipSpace, G.KeywordAt, G.KwNot, G.ParsePrimary, G.ParseUnary, G.ParseUnaryInner;
    var s := Show(lib, q);
    ShowStarts(lib, q);
    SkipNothing(s);
    UnaryOf(lib, s, d);
    if q.Not? {
      var inner := Show(lib, q.inner);
      ShowStarts(lib, q.inner);
      SkipOne(inner, []);
      NotPrinted(inner, []);
      assert s + [] == s && inner + [] == inner;
      assert [SPACE] + inner + [] == [SPACE] + inner;
      G.NotStep(lib, s, false, d + 1);
      MisreadTerm(lib, q.inner, d + 1);
    } else {
      ShowsNoNot(lib, q);
      G.PrimaryStep(lib, s, false, d + 1);
      MisreadPrimary(lib, q, d + 1);
    }
  }

  /** A conjunction that is a term is the first term, and only space follows it. */
  lemma UnaryAlone(lib: G.Library, s: bytes, q: Query)
    requires !q.And?
    requires var o := G.ParseAnd(lib, s, false, 0); o.result == Some(q) && G.SkipSpace(o.rest) == []
    ensures !Misread(G.ParseUnary(lib, G.SkipSpace(s), false, 0), q)
  {
    hide G.ParseAnd, G.ParseAndTail, G.ParseUnary, G.SkipSpace, G.KeywordAt;
    G.AndWhole(lib, s, false, 0);
    var first := G.ParseUnary(lib, G.SkipSpace(s), false, 0);
    var f := first.result.value;
    var tail := G.ParseAndTail(lib, [f], first.rest, first.caseSensitive, first.depth);
    TailKeeps(lib, [f], first.rest, first.caseSensitive, first.depth);
    assert tail.0[0] == f;
    BlankEnd(lib, [f], first.rest, first.caseSensitive, first.depth);
  }

  lemma BlankEnd(lib: G.Library, children: seq<Query>, s: bytes, cs: bool, d: nat)
    requires var o := G.ParseAndTail(lib, children, s, cs, d); G.SkipSpace(o.1.rest) == [] && |o.0| == |children|
    ensures G.SkipSpace(s) == []
  {
    hide G.ParseUnary, G.SkipSpace, G.KeywordAt;
    SkipIdle(s);
  }

  /** A printed term comes back exactly when nothing in it is case-sensitive and its language name reads back. */
  lemma TermSurvives(lib: G.Library, q: Query)
    requires IsBoundedTerm(lib, q) && NamesTrimmed(lib, q) && !G.AllBlank(Show(lib, q))
    ensures G.ParseQuery(lib, Show(lib, q)) == Some(q) <==> Printable(lib, q)
  {
    var s := Show(lib, q);
    assert !q.Or? && !q.And?;
    hide G.ParseOr, G.ParseOrTail, G.ParseAnd, G.ParseUnary, G.AllBlank, G.SkipSpace, Show, Printable, IsTerm, NotDepth;
    if Printable(lib, q) {
      OrReads(lib, q, []);
      assert s + [] == s;
      EndReads(lib, q);
    } else {
      MisreadTerm(lib, q, 0);
      ShowStarts(lib, q);
      SkipNothing(s);
      if G.ParseQuery(lib, s) == Some(q) {
        OnlyConjunction(lib, s);
        UnaryAlone(lib, s, q);
        assert false;
      }
    }
  }

  lemma EndReads(lib: G.Library, q: Query)
    ensures G.ParseOrTail(lib, q, [], false, 0) == G.Outcome(Some(q), [], false, 0) && G.SkipSpace([]) == []
  {
    hide G.ParseOrTail;
    G.OrStop(lib, q, [], false, 0);
  }
}
