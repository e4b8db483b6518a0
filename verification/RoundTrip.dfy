/**
 * Printing what the parser returned and parsing it again (ferret-core/src/query.rs): the printed text is not blank,
 * and it parses to the same query when no term is case-sensitive and language names read back.
 */
module RoundTrip {
  import opened Base
  import opened Query
  import opened QueryPrinter
  import G = QueryGrammar

  // ---- blank text ----

  lemma {:induction false} BlankJoin(a: bytes, b: bytes)
    requires G.AllBlank(a) && G.AllBlank(b)
    ensures G.AllBlank(a + b)
  {
    if a == [] {
      assert a + b == b;
    } else {
      var n := G.BlankLength(a);
      BlankLengthStays(a, b);
      assert (a + b)[n..] == a[n..] + b;
      BlankJoin(a[n..], b);
    }
  }

  lemma BlankLengthStays(a: bytes, b: bytes)
    requires G.BlankLength(a) > 0
    ensures G.BlankLength(a + b) == G.BlankLength(a)
  {
  }

  lemma BlankBeforeSpace(a: bytes, b: bytes)
    requires a != [] && G.BlankLength(a + [SPACE] + b) > 0
    ensures G.BlankLength(a) == G.BlankLength(a + [SPACE] + b)
  {
    var s := a + [SPACE] + b;
    assert s[|a|] == SPACE;
  }

  /** White space never straddles an ASCII space. */
  lemma {:induction false} BlankSplit(a: bytes, b: bytes)
    requires G.AllBlank(a + [SPACE] + b)
    ensures G.AllBlank(a) && G.AllBlank(b)
    decreases |a|
  {
    var s := a + [SPACE] + b;
    if a == [] {
      assert s[1..] == b;
    } else {
      BlankBeforeSpace(a, b);
      var n := G.BlankLength(a);
      assert s[n..] == a[n..] + [SPACE] + b;
      BlankSplit(a[n..], b);
    }
  }

  lemma {:induction false} BlankUnderSpace(s: bytes)
    requires G.AllBlank(G.SkipSpace(s))
    ensures G.AllBlank(s)
  {
    if s != [] && G.IsSpace(s[0]) { BlankUnderSpace(s[1..]); }
  }

  // ---- queries that print as blank text ----

  ghost predicate BlankTerm(q: Query) {
    q.Literal? && !q.caseSensitive && G.AllBlank(q.text)
  }

  lemma BlankShow(lib: G.Library, q: Query)
    requires IsTerm(lib, q) && Printable(lib, q)
    ensures G.AllBlank(Show(lib, q)) ==> BlankTerm(q)
  {
    match q
    case Literal(text, _) => assert [] + text == text;
    case Regex(pattern, _) => assert Show(lib, q)[0] == G.SLASH;
    case Phrase(text, _) => assert Show(lib, q)[0] == G.QUOTE;
    case PathFilter(prefix) => assert Show(lib, q)[0] == G.KwPath()[0];
    case LanguageFilter(language) => assert Show(lib, q)[0] == G.KwLanguage()[0];
    case Not(inner) => assert Show(lib, q)[0] == G.KwNot()[0];
  }

  lemma {:induction false} BlankRest(lib: G.Library, children: seq<Query>)
    requires CanFollow(lib, children) && G.AllBlank(ShowRest(lib, children))
    ensures forall i :: 0 <= i < |children| ==> BlankTerm(children[i])
    decreases children
  {
    hide G.AllBlank, Show, IsTerm, NotDepth, Printable;
    if children != [] {
      var first, rest := Show(lib, children[0]), ShowRest(lib, children[1..]);
      BlankFirst(first, rest, children[1..] == []);
      BlankShow(lib, children[0]);
      BlankRest(lib, children[1..]);
      assert forall i :: 0 < i < |children| ==> children[i] == children[1..][i - 1];
    }
  }

  lemma BlankFirst(first: bytes, rest: bytes, last: bool)
    requires G.AllBlank([SPACE] + first + rest) && (if last then rest == [] else rest != [] && rest[0] == SPACE)
    ensures G.AllBlank(first) && G.AllBlank(rest)
  {
    hide G.AllBlank;
    assert [SPACE] + first + rest == [SPACE] + (first + rest);
    BlankAfterSpace(first + rest);
    BlankHead(first, rest, last);
  }

  lemma BlankAfterSpace(s: bytes)
    requires G.AllBlank([SPACE] + s)
    ensures G.AllBlank(s)
  {
    assert ([SPACE] + s)[1..] == s;
  }

  lemma BlankHead(first: bytes, rest: bytes, last: bool)
    requires G.AllBlank(first + rest) && (if last then rest == [] else rest != [] && rest[0] == SPACE)
    ensures G.AllBlank(first) && G.AllBlank(rest)
  {
    if last {
      assert G.AllBlank([]);
      hide G.AllBlank;
      assert first + rest == first;
    } else {
      assert first + rest == first + [SPACE] + rest[1..];
      BlankSplit(first, rest[1..]);
    }
  }

  /** The terms of a query that is not an alternative. */
  function Parts(q: Query): seq<Query> {
    if q.And? then q.children else [q]
  }

  lemma BlankParts(lib: G.Library, q: Query)
    requires IsConjunction(lib, q) && Printable(lib, q) && G.AllBlank(Show(lib, q))
    ensures forall i :: 0 <= i < |Parts(q)| ==> BlankTerm(Parts(q)[i])
  {
    if q.And? {
      var first, rest := q.children[0], q.children[1..];
      assert CanFollow(lib, rest);
      hide G.AllBlank, IsTerm, NotDepth, CanFollow;
      BlankHead(Show(lib, first), ShowRest(lib, rest), false);
      hide Show, ShowRest;
      BlankShow(lib, first);
      BlankRest(lib, rest);
      assert forall i :: 0 < i < |q.children| ==> q.children[i] == rest[i - 1];
    } else {
      hide G.AllBlank, Show;
      BlankShow(lib, q);
    }
  }

  lemma OrNotBlank(lib: G.Library, q: Query)
    requires q.Or?
    ensures !G.AllBlank(Show(lib, q))
  {
    var right := G.KwOr() + [SPACE] + Show(lib, q.right);
    assert Show(lib, q) == Show(lib, q.left) + [SPACE] + right;
    assert right[0] == G.KwOr()[0];
    assert !G.AllBlank(right);
    if G.AllBlank(Show(lib, q)) { BlankSplit(Show(lib, q.left), right); assert false; }
  }

  // ---- blank terms come from blank input ----

  lemma BlankUnary(lib: G.Library, s: bytes, cs: bool, d: nat)
    requires var o := G.ParseUnary(lib, s, cs, d); o.result.Some? && BlankTerm(o.result.value) && G.AllBlank(o.rest)
    ensures G.AllBlank(s)
  {
    hide G.ParseUnary, G.AllBlank, G.SkipSpace;
    UnaryOrigin(lib, s, cs, d);
    var o := G.ParseUnary(lib, s, cs, d);
    BlankJoin(o.result.value.text, o.rest);
    BlankUnderSpace(s);
  }

  lemma {:induction false} TailKeeps(lib: G.Library, children: seq<Query>, s: bytes, cs: bool, d: nat)
    ensures children <= G.ParseAndTail(lib, children, s, cs, d).0
    decreases |s|
  {
    hide G.ParseUnary, G.SkipSpace, G.KeywordAt;
    var t := G.SkipSpace(s);
    var u := G.ParseUnary(lib, t, cs, d);
    if t != [] && !G.KeywordAt(t, G.KwOr()) && u.result.Some? {
      TailKeeps(lib, children + [u.result.value], u.rest, u.caseSensitive, u.depth);
    }
  }

  lemma {:induction false} BlankTail(lib: G.Library, children: seq<Query>, s: bytes, cs: bool, d: nat)
    requires var o := G.ParseAndTail(lib, children, s, cs, d);
      && G.SkipSpace(o.1.rest) == []
      && forall i :: |children| <= i < |o.0| ==> BlankTerm(o.0[i])
    ensures G.AllBlank(s)
    decreases |s|
  {
    hide G.ParseUnary, G.SkipSpace, G.KeywordAt;
    var t := G.SkipSpace(s);
    var u := G.ParseUnary(lib, t, cs, d);
    SkipIdle(s);
    if t == [] {
      assert G.AllBlank(t);
    } else if !G.KeywordAt(t, G.KwOr()) && u.result.Some? {
      TailKeeps(lib, children + [u.result.value], u.rest, u.caseSensitive, u.depth);
      assert (children + [u.result.value])[|children|] == u.result.value;
      BlankTail(lib, children + [u.result.value], u.rest, u.caseSensitive, u.depth);
      BlankUnary(lib, t, cs, d);
    }
    hide G.AllBlank;
    BlankUnderSpace(s);
  }

  lemma {:induction false} OrTailIsOr(lib: G.Library, left: Query, s: bytes, cs: bool, d: nat)
    requires left.Or?
    ensures var o := G.ParseOrTail(lib, left, s, cs, d); o.result.Some? ==> o.result.value.Or?
    decreases |s|
  {
    hide G.ParseAnd, G.SkipSpace, G.KeywordAt, G.ParseOrTail;
    if G.KeywordAt(G.SkipSpace(s), G.KwOr()) {
      KeywordPrefix(G.SkipSpace(s), G.KwOr());
      var t := G.SkipSpace(G.SkipSpace(s)[|G.KwOr()|..]);
      G.OrStep(lib, left, s, cs, d);
      var right := G.ParseAnd(lib, t, cs, d);
      if right.result.Some? {
        OrTailIsOr(lib, Or(left, right.result.value), right.rest, right.caseSensitive, right.depth);
      }
    } else {
      G.OrStop(lib, left, s, cs, d);
    }
  }

  /** A query that is not an alternative is the first conjunction, and nothing but space follows it. */
  lemma OnlyConjunction(lib: G.Library, input: bytes)
    requires G.ParseQuery(lib, input).Some? && !G.ParseQuery(lib, input).value.Or?
    ensures var o := G.ParseAnd(lib, input, false, 0);
      o.result == G.ParseQuery(lib, input) && G.SkipSpace(o.rest) == []
  {
    hide G.ParseAnd, G.ParseOr, G.SkipSpace, G.KeywordAt, G.ParseOrTail, G.AllBlank;
    G.OrWhole(lib, input, false, 0);
    var left := G.ParseAnd(lib, input, false, 0);
    SkipIdle(left.rest);
    var s, cs, d := left.rest, left.caseSensitive, left.depth;
    if G.KeywordAt(G.SkipSpace(s), G.KwOr()) {
      KeywordPrefix(G.SkipSpace(s), G.KwOr());
      var t := G.SkipSpace(G.SkipSpace(s)[|G.KwOr()|..]);
      G.OrStep(lib, left.result.value, s, cs, d);
      var right := G.ParseAnd(lib, t, cs, d);
      if right.result.Some? {
        OrTailIsOr(lib, Or(left.result.value, right.result.value), right.rest, right.caseSensitive, right.depth);
      }
      assert false;
    } else {
      G.OrStop(lib, left.result.value, s, cs, d);
    }
  }

  lemma BlankConjunction(lib: G.Library, s: bytes)
    requires var o := G.ParseAnd(lib, s, false, 0);
      && o.result.Some? && !o.result.value.Or? && G.SkipSpace(o.rest) == []
      && forall i :: 0 <= i < |Parts(o.result.value)| ==> BlankTerm(Parts(o.result.value)[i])
    ensures G.AllBlank(s)
  {
    hide G.ParseAnd, G.ParseAndTail, G.ParseUnary, G.SkipSpace, G.AllBlank, BlankTerm;
    G.AndWhole(lib, s, false, 0);
    var first := G.ParseUnary(lib, G.SkipSpace(s), false, 0);
    var tail := G.ParseAndTail(lib, [first.result.value], first.rest, first.caseSensitive, first.depth);
    TailKeeps(lib, [first.result.value], first.rest, first.caseSensitive, first.depth);
    assert tail.0[0] == first.result.value;
    UnaryShape(lib, G.SkipSpace(s), false, 0);
    if |tail.0| == 1 {
      TermParts(lib, tail.0[0]);
    }
    assert Parts(G.ParseAnd(lib, s, false, 0).result.value) == tail.0;
    BlankTail(lib, [first.result.value], first.rest, first.caseSensitive, first.depth);
    BlankUnary(lib, G.SkipSpace(s), false, 0);
    BlankUnderSpace(s);
  }

  lemma TermParts(lib: G.Library, q: Query)
    requires IsTerm(lib, q)
    ensures Parts(q) == [q]
  {
  }

  /** What the parser returned does not print as blank text. */
  lemma NeverBlank(lib: G.Library, input: bytes)
    requires G.ParseQuery(lib, input).Some? && Printable(lib, G.ParseQuery(lib, input).value)
    ensures !G.AllBlank(Show(lib, G.ParseQuery(lib, input).value))
  {
    hide G.ParseOr, G.AllBlank, Show, G.SkipSpace, IsConjunction, Printable, Parts, BlankTerm;
    var q := G.ParseQuery(lib, input).value;
    ParseShape(lib, input);
    if q.Or? {
      OrNotBlank(lib, q);
    } else {
      OnlyConjunction(lib, input);
      if G.AllBlank(Show(lib, q)) {
        BlankParts(lib, q);
        BlankConjunction(lib, input);
        assert false;
      }
    }
  }

  /** Parsing what Display printed gives back the query the parser had returned. */
  lemma RoundTrip(lib: G.Library, input: bytes)
    requires G.ParseQuery(lib, input).Some? && Printable(lib, G.ParseQuery(lib, input).value)
    ensures var q := G.ParseQuery(lib, input).value; G.ParseQuery(lib, Show(lib, q)) == Some(q)
  {
    var q := G.ParseQuery(lib, input).value;
    ParseShape(lib, input);
    NeverBlank(lib, input);
    hide G.ParseOr, G.ParseOrTail, G.AllBlank, Show, Printable;
    OrReads(lib, q, []);
    assert Show(lib, q) + [] == Show(lib, q);
    G.OrStop(lib, q, [], false, 0);
  }
}
