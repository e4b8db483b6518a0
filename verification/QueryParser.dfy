/**
 * The cursor parser (ferret-core/src/query.rs): mutable position, case flag and depth, with the backtracking of
 * parse_and. Every method does what the function of the same name in QueryGrammar says, on success and on failure:
 * the result, and the position, flag and depth it leaves behind.
 */
module QueryParser {
  import opened Base
  import opened Query
  import G = QueryGrammar

  lemma Advance(s: bytes, at: nat, n: nat)
    requires at + n <= |s|
    ensures s[at..][n..] == s[at + n..] && s[at..][..n] == s[at..at + n]
  {
  }

  lemma Between(s: bytes, at: nat, i: nat, j: nat)
    requires i <= j && at + j <= |s|
    ensures s[at..][i..j] == s[at + i..at + j]
  {
  }

  lemma WordRun(s: bytes, at: nat, start: nat)
    requires start <= at < |s| && !G.IsSpace(s[at])
    requires G.WordLength(s[start..]) == at - start + G.WordLength(s[at..])
    ensures G.WordLength(s[start..]) == at + 1 - start + G.WordLength(s[at + 1..])
  {
    Advance(s, at, 1);
  }

  lemma LiteralRun(s: bytes, at: nat, start: nat)
    requires start <= at < |s| && G.LiteralByte(s[at])
    requires G.LiteralLength(s[start..]) == at - start + G.LiteralLength(s[at..])
    ensures G.LiteralLength(s[start..]) == at + 1 - start + G.LiteralLength(s[at + 1..])
  {
    Advance(s, at, 1);
  }

  lemma SpaceStop(s: bytes)
    requires s == [] || !G.IsSpace(s[0])
    ensures G.SkipSpace(s) == s
  {
  }

  lemma PhraseDone(s: bytes, opening: nat, end: nat, cs: bool, d: nat)
    requires opening < end <= |s| && s[opening] == G.QUOTE && (end < |s| ==> s[end] == G.QUOTE)
    requires G.PhraseLength(s[opening + 1..]) == Shift(G.PhraseLength(s[end..]), end - opening - 1)
    ensures G.ParsePhrase(s[opening..], cs, d) ==
            if end < |s| then G.Outcome(Some(Phrase(s[opening + 1..end], cs)), s[end + 1..], false, d)
            else G.Fail([], cs, d)
  {
    Advance(s, opening, 1);
    if end < |s| {
      Between(s, opening, 1, end - opening);
      Advance(s, opening, end + 1 - opening);
    }
  }

  lemma RegexClosed(s: bytes)
    requires s != [] && s[0] == G.SLASH
    ensures G.RegexLength(s) == Some(0)
  {
  }

  lemma RegexFound(lib: G.Library, s: bytes, n: nat, cs: bool, d: nat)
    requires s != [] && s[0] == G.SLASH && G.RegexLength(s[1..]) == Some(n)
    ensures n + 1 < |s|
    ensures G.ParseRegex(lib, s, cs, d) ==
            if lib.validRegex(s[1..n + 1]) then G.Outcome(Some(Regex(s[1..n + 1], true)), s[n + 2..], false, d)
            else G.Fail(s[n + 2..], cs, d)
  {
    hide G.RegexLength;
  }

  lemma RegexDone(lib: G.Library, s: bytes, opening: nat, end: nat, cs: bool, d: nat)
    requires opening < end < |s| && s[opening] == G.SLASH && s[end] == G.SLASH
    requires G.RegexLength(s[opening + 1..]) == Shift(G.RegexLength(s[end..]), end - opening - 1)
    ensures G.ParseRegex(lib, s[opening..], cs, d) ==
            if lib.validRegex(s[opening + 1..end]) then
              G.Outcome(Some(Regex(s[opening + 1..end], true)), s[end + 1..], false, d)
            else G.Fail(s[end + 1..], cs, d)
  {
    RegexClosed(s[end..]);
    hide G.RegexLength;
    Advance(s, opening, 1);
    RegexFound(lib, s[opening..], end - opening - 1, cs, d);
    Between(s, opening, 1, end - opening);
    Advance(s, opening, end + 1 - opening);
  }

  lemma RegexOpen(lib: G.Library, s: bytes, opening: nat, cs: bool, d: nat)
    requires opening < |s| && s[opening] == G.SLASH
    requires G.RegexLength(s[opening + 1..]) == Shift(G.RegexLength(s[|s|..]), |s| - opening - 1)
    ensures G.ParseRegex(lib, s[opening..], cs, d) == G.Fail([], cs, d)
  {
    Advance(s, opening, 1);
  }

  lemma LiteralDone(s: bytes, start: nat, end: nat, cs: bool, d: nat)
    requires start <= end <= |s| && (end < |s| ==> !G.LiteralByte(s[end]))
    requires G.LiteralLength(s[start..]) == end - start + G.LiteralLength(s[end..])
    ensures G.ParseLiteral(s[start..], cs, d) ==
            if end == start then G.Fail(s[start..], cs, d)
            else G.Outcome(Some(Literal(s[start..end], cs)), s[end..], false, d)
  {
    Advance(s, start, end - start);
  }

  lemma WordDone(s: bytes, start: nat, end: nat)
    requires start <= end <= |s| && (end < |s| ==> G.IsSpace(s[end]))
    requires G.WordLength(s[start..]) == end - start + G.WordLength(s[end..])
    ensures var n := G.WordLength(s[start..]); s[start..end] == s[start..][..n] && s[end..] == s[start..][n..]
  {
    Advance(s, start, end - start);
  }

  lemma SpaceRun(s: bytes, at: nat)
    requires at < |s| && G.IsSpace(s[at])
    ensures G.SkipSpace(s[at..]) == G.SkipSpace(s[at + 1..])
  {
    Advance(s, at, 1);
  }

  /** The length found from start on, given the length found further on. */
  function Shift(n: Option<nat>, distance: nat): Option<nat> {
    if n.None? then None else Some(n.value + distance)
  }

  lemma PhraseRun(s: bytes, at: nat, start: nat)
    requires start <= at < |s| && s[at] != G.QUOTE
    requires G.PhraseLength(s[start..]) == Shift(G.PhraseLength(s[at..]), at - start)
    ensures G.PhraseLength(s[start..]) == Shift(G.PhraseLength(s[at + 1..]), at + 1 - start)
  {
    Advance(s, at, 1);
  }

  lemma RegexRun(s: bytes, at: nat, start: nat, step: nat)
    requires start <= at < |s| && s[at] != G.SLASH
    requires step == if s[at] == G.BACKSLASH && at + 1 < |s| then 2 else 1
    requires G.RegexLength(s[start..]) == Shift(G.RegexLength(s[at..]), at - start)
    ensures G.RegexLength(s[start..]) == Shift(G.RegexLength(s[at + step..]), at + step - start)
  {
    Advance(s, at, step);
  }

  class Parser {
    const lib: G.Library
    const input: bytes
    var pos: nat
    var caseSensitive: bool
    var depth: nat

    constructor (lib: G.Library, input: bytes)
      ensures Valid() && this.lib == lib && this.input == input
      ensures Rest() == input && !caseSensitive && depth == 0
    {
      this.lib, this.input := lib, input;
      pos, caseSensitive, depth := 0, false, 0;
    }

    ghost predicate Valid()
      reads this
    {
      pos <= |input|
    }

    /** What the cursor still has to read. */
    ghost function Rest(): bytes
      requires Valid()
      reads this
    {
      input[pos..]
    }

    /** The state is what an outcome describes. */
    ghost predicate Is(o: G.Outcome)
      reads this
    {
      Valid() && Rest() == o.rest && caseSensitive == o.caseSensitive && depth == o.depth
    }

    method SkipWhitespace()
      requires Valid()
      modifies `pos
      ensures Valid() && pos >= old(pos) && Rest() == G.SkipSpace(old(Rest()))
    {
      hide G.SkipSpace;
      while pos < |input|
        invariant Valid() && pos >= old(pos) && G.SkipSpace(Rest()) == G.SkipSpace(old(Rest()))
        decreases |input| - pos
      {
        if !G.IsSpace(input[pos]) { break; }
        SpaceRun(input, pos);
        pos := pos + 1;
      }
      SpaceStop(Rest());
    }

    /** self.pos += n */
    method Consume(n: nat)
      requires Valid() && pos + n <= |input|
      modifies `pos
      ensures Valid() && pos == old(pos) + n && Rest() == old(Rest())[n..]
    {
      Advance(input, pos, n);
      pos := pos + n;
    }

    method StartsWith(word: bytes) returns (r: bool)
      requires Valid()
      ensures r == (word <= Rest())
    {
      r := pos + |word| <= |input| && input[pos..pos + |word|] == word;
      assert r ==> Rest()[..|word|] == word;
      assert word <= Rest() ==> Rest()[..|word|] == input[pos..pos + |word|];
    }

    method StartsWithKeyword(keyword: bytes) returns (r: bool)
      requires Valid()
      ensures r == G.KeywordAt(Rest(), keyword) && (r ==> pos + |keyword| <= |input|)
    {
      r := StartsWith(keyword);
      if !r { return; }
      var after := pos + |keyword|;
      assert Rest()[|keyword|..] == input[after..];
      if after >= |input| { return true; }
      var next := input[after];
      r := G.IsSpace(next) || next == G.QUOTE || next == G.SLASH;
    }

    /** What a parsing method returned and the state it left are those of an outcome. */
    ghost predicate Did(r: Option<Query>, o: G.Outcome)
      reads this
    {
      r == o.result && Is(o)
    }

    method ParseLiteral() returns (r: Option<Query>)
      requires Valid()
      modifies this
      ensures Did(r, G.ParseLiteral(old(Rest()), old(caseSensitive), old(depth)))
    {
      hide G.LiteralLength, G.ParseLiteral;
      var start := pos;
      while pos < |input|
        invariant start <= pos <= |input|
        invariant caseSensitive == old(caseSensitive) && depth == old(depth)
        invariant G.LiteralLength(input[start..]) == pos - start + G.LiteralLength(Rest())
        decreases |input| - pos
      {
        var b := input[pos];
        if G.IsSpace(b) || b == G.QUOTE || b == G.SLASH { break; }
        LiteralRun(input, pos, start);
        pos := pos + 1;
      }
      LiteralDone(input, start, pos, caseSensitive, depth);
      if pos == start { return None; }
      r := Some(Literal(input[start..pos], caseSensitive));
      caseSensitive := false;
    }

    method ParsePhrase() returns (r: Option<Query>)
      requires Valid() && Rest() != [] && Rest()[0] == G.QUOTE
      modifies this
      ensures Did(r, G.ParsePhrase(old(Rest()), old(caseSensitive), old(depth)))
    {
      hide G.PhraseLength, G.ParsePhrase;
      ghost var opening := pos;
      pos := pos + 1;
      var start := pos;
      while pos < |input| && input[pos] != G.QUOTE
        invariant start <= pos <= |input|
        invariant caseSensitive == old(caseSensitive) && depth == old(depth)
        invariant G.PhraseLength(input[start..]) == Shift(G.PhraseLength(Rest()), pos - start)
        decreases |input| - pos
      {
        PhraseRun(input, pos, start);
        pos := pos + 1;
      }
      PhraseDone(input, opening, pos, caseSensitive, depth);
      if pos >= |input| { return None; }
      r := Some(Phrase(input[start..pos], caseSensitive));
      pos := pos + 1;
      caseSensitive := false;
    }

    method ParseRegex() returns (r: Option<Query>)
      requires Valid() && Rest() != [] && Rest()[0] == G.SLASH
      modifies this
      ensures Did(r, G.ParseRegex(lib, old(Rest()), old(caseSensitive), old(depth)))
    {
      hide G.RegexLength, G.ParseRegex;
      ghost var opening := pos;
      pos := pos + 1;
      var start := pos;
      while pos < |input| && input[pos] != G.SLASH
        invariant start <= pos <= |input|
        invariant caseSensitive == old(caseSensitive) && depth == old(depth)
        invariant G.RegexLength(input[start..]) == Shift(G.RegexLength(Rest()), pos - start)
        decreases |input| - pos
      {
        var step := if input[pos] == G.BACKSLASH && pos + 1 < |input| then 2 else 1;
        RegexRun(input, pos, start, step);
        pos := pos + step;
      }
      if pos >= |input| { RegexOpen(lib, input, opening, caseSensitive, depth); return None; }
      RegexDone(lib, input, opening, pos, caseSensitive, depth);
      var pattern := input[start..pos];
      pos := pos + 1;
      if !lib.validRegex(pattern) { return None; }
      caseSensitive := false;
      r := Some(Regex(pattern, true));
    }

    method Word() returns (word: bytes)
      requires Valid()
      modifies `pos
      ensures Valid()
      ensures var n := G.WordLength(old(Rest())); word == old(Rest())[..n] && Rest() == old(Rest())[n..]
    {
      hide G.WordLength;
      var start := pos;
      while pos < |input| && !G.IsSpace(input[pos])
        invariant start <= pos <= |input|
        invariant G.WordLength(input[start..]) == pos - start + G.WordLength(Rest())
        decreases |input| - pos
      {
        WordRun(input, pos, start);
        pos := pos + 1;
      }
      WordDone(input, start, pos);
      word := input[start..pos];
    }

    method ParsePathFilter() returns (r: Option<Query>)
      requires Valid() && G.KwPath() <= Rest()
      modifies this
      ensures Did(r, G.ParsePathFilter(old(Rest()), old(caseSensitive), old(depth)))
    {
      hide G.WordLength, G.KwPath;
      Consume(|G.KwPath()|);
      var value := Word();
      r := if value == [] then None else Some(PathFilter(value));
    }

    method ParseLanguageFilter() returns (r: Option<Query>)
      requires Valid() && (G.KwLanguage() <= Rest() || G.KwLang() <= Rest())
      modifies this
      ensures Did(r, G.ParseLanguageFilter(lib, old(Rest()), old(caseSensitive), old(depth)))
    {
      hide G.WordLength, G.KwLang, G.KwLanguage;
      var long := StartsWith(G.KwLanguage());
      var prefix := if long then |G.KwLanguage()| else |G.KwLang()|;
      Consume(prefix);
      var value := Word();
      if value == [] { return None; }
      var language := lib.readLanguage(value);
      r := if language.None? then None else Some(LanguageFilter(language.value));
    }

    method ParseCaseModifier() returns (r: Option<Query>)
      requires Valid() && G.KwCaseYes() <= Rest()
      modifies this
      ensures Did(r, G.ParseCaseModifier(lib, old(Rest()), old(caseSensitive), old(depth)))
      decreases |input| - pos, 0
    {
      hide G.KwCaseYes;
      hide G.SkipSpace, G.ParseUnary, G.ParseLiteral, G.ParseCaseModifier, G.KeywordAt;
      var isModifier := StartsWithKeyword(G.KwCaseYes());
      if !isModifier {
        G.CaseLiteral(lib, Rest(), caseSensitive, depth);
        r := ParseLiteral();
        return;
      }
      G.CaseStep(lib, Rest(), caseSensitive, depth);
      Consume(|G.KwCaseYes()|);
      caseSensitive := true;
      SkipWhitespace();
      r := ParseUnary();
    }

    method ParsePrimary() returns (r: Option<Query>)
      requires Valid()
      modifies this
      ensures Did(r, G.ParsePrimary(lib, old(Rest()), old(caseSensitive), old(depth)))
      decreases |input| - pos, 1
    {
      hide G.KwCaseYes, G.KwLang, G.KwLanguage, G.KwPath;
      hide G.SkipSpace, G.ParseLiteral, G.ParsePhrase, G.ParseRegex, G.ParsePathFilter, G.ParseLanguageFilter;
      hide G.ParseCaseModifier;
      SkipWhitespace();
      if pos >= |input| { return None; }
      if input[pos] == G.SLASH { r := ParseRegex(); return; }
      if input[pos] == G.QUOTE { r := ParsePhrase(); return; }
      var isPath := StartsWith(G.KwPath());
      if isPath { r := ParsePathFilter(); return; }
      var isLanguage := StartsWith(G.KwLanguage());
      var isLang := StartsWith(G.KwLang());
      if isLanguage || isLang { r := ParseLanguageFilter(); return; }
      var isCase := StartsWith(G.KwCaseYes());
      if isCase { r := ParseCaseModifier(); return; }
      r := ParseLiteral();
    }

    method ParseUnaryInner() returns (r: Option<Query>)
      requires Valid()
      modifies this
      ensures Did(r, G.ParseUnaryInner(lib, old(Rest()), old(caseSensitive), old(depth)))
      decreases |input| - pos, 2
    {
      hide G.KwNot;
      hide G.SkipSpace, G.ParseUnary, G.ParsePrimary, G.ParseUnaryInner, G.KeywordAt;
      SkipWhitespace();
      var isNot := StartsWithKeyword(G.KwNot());
      if isNot {
        G.NotStep(lib, old(Rest()), old(caseSensitive), old(depth));
        Consume(|G.KwNot()|);
        SkipWhitespace();
        var inner := ParseUnary();
        r := if inner.None? then None else Some(Not(inner.value));
      } else {
        G.PrimaryStep(lib, old(Rest()), old(caseSensitive), old(depth));
        r := ParsePrimary();
      }
    }

    /** The depth is lowered again on every way out but the one that found it too large. */
    method ParseUnary() returns (r: Option<Query>)
      requires Valid()
      modifies this
      ensures Did(r, G.ParseUnary(lib, old(Rest()), old(caseSensitive), old(depth)))
      decreases |input| - pos, 3
    {
      depth := depth + 1;
      if depth > G.MAX_PARSE_DEPTH { return None; }
      r := ParseUnaryInner();
      depth := depth - 1;
    }

    /** A term, or nothing consumed: the position is restored, the case flag and the depth are not. */
    method TryUnary() returns (r: Option<Query>)
      requires Valid()
      modifies this
      ensures var u := G.ParseUnary(lib, old(Rest()), old(caseSensitive), old(depth));
        Did(r, if u.result.Some? then u else u.(rest := old(Rest())))
      ensures r.Some? ==> pos > old(pos)
    {
      hide G.ParseUnary;
      var savedPos := pos;
      r := ParseUnary();
      assert r.Some? ==> |Rest()| < |input| - savedPos;
      if r.None? { pos := savedPos; }
    }

    method ParseAnd() returns (r: Option<Query>)
      requires Valid()
      modifies this
      ensures Did(r, G.ParseAnd(lib, old(Rest()), old(caseSensitive), old(depth)))
    {
      hide G.KwOr;
      hide G.SkipSpace, G.ParseUnary, G.ParseAnd, G.ParseAndTail, G.Conjunction, G.Conjoin, G.KeywordAt;
      G.AndWhole(lib, Rest(), caseSensitive, depth);
      ghost var whole := G.ParseAnd(lib, Rest(), caseSensitive, depth);
      SkipWhitespace();
      var first := ParseUnary();
      if first.None? { return None; }
      var children := [first.value];
      while true
        invariant Valid() && children != []
        invariant whole == G.Conjunction(G.ParseAndTail(lib, children, Rest(), caseSensitive, depth))
        decreases |input| - pos
      {
        ghost var s := Rest();
        SkipWhitespace();
        var stop := StartsWithKeyword(G.KwOr());
        if pos >= |input| || stop {
          G.AndStop(lib, children, s, caseSensitive, depth);
          return Some(G.Conjoin(children));
        }
        G.AndStep(lib, children, s, caseSensitive, depth);
        var child := TryUnary();
        if child.None? { return Some(G.Conjoin(children)); }
        children := children + [child.value];
      }
    }

    /** The keyword OR and the conjunction after it, if the keyword comes next. */
    method ParseAlternative() returns (isOr: bool, right: Option<Query>)
      requires Valid()
      modifies this
      ensures Valid() && isOr == G.KeywordAt(G.SkipSpace(old(Rest())), G.KwOr())
      ensures isOr ==> pos > old(pos)
      ensures !isOr ==> Is(G.Fail(G.SkipSpace(old(Rest())), old(caseSensitive), old(depth)))
      ensures isOr ==>
        Did(right, G.ParseAnd(lib, G.SkipSpace(G.SkipSpace(old(Rest()))[|G.KwOr()|..]), old(caseSensitive), old(depth)))
    {
      hide G.KwOr;
      hide G.SkipSpace, G.ParseAnd, G.KeywordAt;
      SkipWhitespace();
      isOr := StartsWithKeyword(G.KwOr());
      right := None;
      if isOr {
        Consume(|G.KwOr()|);
        SkipWhitespace();
        ghost var from := pos;
        right := ParseAnd();
        assert |Rest()| <= |input| - from;
      }
    }

    method ParseOr() returns (r: Option<Query>)
      requires Valid()
      modifies this
      ensures Did(r, G.ParseOr(lib, old(Rest()), old(caseSensitive), old(depth)))
    {
      hide G.SkipSpace, G.ParseAnd, G.ParseOr, G.ParseOrTail, G.KeywordAt;
      G.OrWhole(lib, Rest(), caseSensitive, depth);
      ghost var whole := G.ParseOr(lib, Rest(), caseSensitive, depth);
      r := ParseAnd();
      if r.None? { return; }
      while true
        invariant Valid() && r.Some?
        invariant whole == G.ParseOrTail(lib, r.value, Rest(), caseSensitive, depth)
        decreases |input| - pos
      {
        ghost var s, cs, d := Rest(), caseSensitive, depth;
        var isOr, right := ParseAlternative();
        if !isOr { G.OrStop(lib, r.value, s, cs, d); return; }
        G.OrStep(lib, r.value, s, cs, d);
        if right.None? { return None; }
        r := Some(Or(r.value, right.value));
      }
    }
  }

  method ParseQuery(lib: G.Library, input: bytes) returns (r: Option<Query>)
    ensures r == G.ParseQuery(lib, input)
  {
    if G.AllBlank(input) { return None; }
    var parser := new Parser(lib, input);
    r := parser.ParseOr();
    if r.None? { return; }
    parser.SkipWhitespace();
    if parser.pos < |input| { return None; }
  }
}
