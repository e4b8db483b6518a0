/**
 * What the query parser does (ferret-core/src/query.rs), as functions of the input that remains and of the parser's
 * case flag and depth. Inputs are byte strings: all delimiters are ASCII, so positions fall between characters. The
 * last lemmas unfold each recursive function once.
 */
module QueryGrammar {
  import opened Base
  import opened Query

  const QUOTE: u8 := 0x22
  const SLASH: u8 := 0x2F
  const BACKSLASH: u8 := 0x5C

  // The keywords, as bytes.

  /** OR */
  function KwOr(): (b: bytes)
    ensures |b| == 2
  {
    [79, 82]
  }

  /** NOT */
  function KwNot(): (b: bytes)
    ensures |b| == 3
  {
    [78, 79, 84]
  }

  /** path: */
  function KwPath(): (b: bytes)
    ensures |b| == 5
  {
    [112, 97, 116, 104, 58]
  }

  /** language: */
  function KwLanguage(): (b: bytes)
    ensures |b| == 9
  {
    [108, 97, 110, 103, 117, 97, 103, 101, 58]
  }

  /** lang: */
  function KwLang(): (b: bytes)
    ensures |b| == 5
  {
    [108, 97, 110, 103, 58]
  }

  /** case: */
  function KwCase(): (b: bytes)
    ensures |b| == 5
  {
    [99, 97, 115, 101, 58]
  }

  /** case:yes */
  function KwCaseYes(): (b: bytes)
    ensures |b| == 8
  {
    [99, 97, 115, 101, 58, 121, 101, 115]
  }

  const MAX_PARSE_DEPTH: nat := 128

  /** Regex validation and the table of language names. */
  datatype Library = Library(
    validRegex: bytes -> bool, readLanguage: bytes -> Option<Language>, languageName: Language -> bytes)

  /** A parse step: the query, or None for a parse error, and the parser state it leaves behind either way. */
  datatype Outcome = Outcome(result: Option<Query>, rest: bytes, caseSensitive: bool, depth: nat)

  // ---- scanning ----

  /** u8::is_ascii_whitespace */
  predicate IsSpace(b: u8) {
    b == 0x20 || b == 0x09 || b == 0x0A || b == 0x0C || b == 0x0D
  }

  function SkipSpace(s: bytes): (r: bytes)
    ensures |r| <= |s|
    ensures r != [] ==> !IsSpace(r[0])
  {
    if s != [] && IsSpace(s[0]) then SkipSpace(s[1..]) else s
  }

  predicate Boundary(s: bytes) {
    s == [] || IsSpace(s[0]) || s[0] == QUOTE || s[0] == SLASH
  }

  predicate KeywordAt(s: bytes, keyword: bytes) {
    keyword <= s && Boundary(s[|keyword|..])
  }

  predicate LiteralByte(b: u8) { !IsSpace(b) && b != QUOTE && b != SLASH }

  function LiteralLength(s: bytes): (n: nat)
    ensures n <= |s|
  {
    if s != [] && LiteralByte(s[0]) then 1 + LiteralLength(s[1..]) else 0
  }

  function WordLength(s: bytes): (n: nat)
    ensures n <= |s|
  {
    if s != [] && !IsSpace(s[0]) then 1 + WordLength(s[1..]) else 0
  }

  /** Bytes before the closing quote, or None if it is missing. */
  function PhraseLength(s: bytes): (n: Option<nat>)
    ensures n.Some? ==> n.value < |s|
  {
    if s == [] then None
    else if s[0] == QUOTE then Some(0)
    else
      match PhraseLength(s[1..])
      case None => None
      case Some(n) => Some(n + 1)
  }

  /** Bytes before the closing slash; a backslash hides whatever follows it. */
  function RegexLength(s: bytes): (n: Option<nat>)
    ensures n.Some? ==> n.value < |s|
  {
    if s == [] then None
    else if s[0] == SLASH then Some(0)
    else
      var step := if s[0] == BACKSLASH && |s| > 1 then 2 else 1;
      match RegexLength(s[step..])
      case None => None
      case Some(n) => Some(n + step)
  }

  /**
   * Length of the white-space character (Unicode property White_Space, in UTF-8) at the front, 0 if there is none.
   */
  function BlankLength(s: bytes): (n: nat)
    ensures n <= |s| && n <= 3
  {
    if s == [] then 0
    else if 0x09 <= s[0] <= 0x0D || s[0] == 0x20 then 1
    else if |s| >= 2 && s[0] == 0xC2 && (s[1] == 0x85 || s[1] == 0xA0) then 2
    else if |s| >= 3 && (
      || (s[0] == 0xE1 && s[1] == 0x9A && s[2] == 0x80)
      || (s[0] == 0xE2 && s[1] == 0x80 && (0x80 <= s[2] <= 0x8A || s[2] == 0xA8 || s[2] == 0xA9 || s[2] == 0xAF))
      || (s[0] == 0xE2 && s[1] == 0x81 && s[2] == 0x9F)
      || (s[0] == 0xE3 && s[1] == 0x80 && s[2] == 0x80)) then 3
    else 0
  }

  /** str::trim leaves nothing. */
  predicate AllBlank(s: bytes) {
    s == [] || (BlankLength(s) > 0 && AllBlank(s[BlankLength(s)..]))
  }

  // ---- the grammar ----

  function Fail(rest: bytes, caseSensitive: bool, depth: nat): Outcome {
    Outcome(None, rest, caseSensitive, depth)
  }

  function ParseLiteral(s: bytes, cs: bool, d: nat): (o: Outcome)
    ensures |o.rest| <= |s| && (o.result.Some? ==> |o.rest| < |s|)
  {
    var n := LiteralLength(s);
    if n == 0 then Fail(s, cs, d) else Outcome(Some(Literal(s[..n], cs)), s[n..], false, d)
  }

  function ParsePhrase(s: bytes, cs: bool, d: nat): (o: Outcome)
    requires s != [] && s[0] == QUOTE
    ensures |o.rest| < |s|
  {
    match PhraseLength(s[1..])
    case None => Fail([], cs, d)
    case Some(n) => Outcome(Some(Phrase(s[1..n + 1], cs)), s[n + 2..], false, d)
  }

  function ParseRegex(lib: Library, s: bytes, cs: bool, d: nat): (o: Outcome)
    requires s != [] && s[0] == SLASH
    ensures |o.rest| < |s|
  {
    match RegexLength(s[1..])
    case None => Fail([], cs, d)
    case Some(n) =>
      if lib.validRegex(s[1..n + 1]) then Outcome(Some(Regex(s[1..n + 1], true)), s[n + 2..], false, d)
      else Fail(s[n + 2..], cs, d)
  }

  function ParsePathFilter(s: bytes, cs: bool, d: nat): (o: Outcome)
    requires KwPath() <= s
    ensures |o.rest| < |s|
  {
    var v := s[|KwPath()|..];
    var n := WordLength(v);
    if n == 0 then Fail(v, cs, d) else Outcome(Some(PathFilter(v[..n])), v[n..], cs, d)
  }

  function ParseLanguageFilter(lib: Library, s: bytes, cs: bool, d: nat): (o: Outcome)
    requires KwLanguage() <= s || KwLang() <= s
    ensures |o.rest| < |s|
  {
    var v := if KwLanguage() <= s then s[|KwLanguage()|..] else s[|KwLang()|..];
    var n := WordLength(v);
    if n == 0 then Fail(v, cs, d)
    else
      match lib.readLanguage(v[..n])
      case None => Fail(v[n..], cs, d)
      case Some(l) => Outcome(Some(LanguageFilter(l)), v[n..], cs, d)
  }

  function ParseCaseModifier(lib: Library, s: bytes, cs: bool, d: nat): (o: Outcome)
    requires KwCaseYes() <= s
    ensures |o.rest| <= |s| && (o.result.Some? ==> |o.rest| < |s|)
    ensures o.depth >= d
    decreases |s|, 0
  {
    var after := s[|KwCaseYes()|..];
    if !Boundary(after) then ParseLiteral(s, cs, d)
    else ParseUnary(lib, SkipSpace(after), true, d)
  }

  function ParsePrimary(lib: Library, s: bytes, cs: bool, d: nat): (o: Outcome)
    ensures |o.rest| <= |s| && (o.result.Some? ==> |o.rest| < |s|)
    ensures o.depth >= d
    decreases |s|, 1
  {
    var t := SkipSpace(s);
    if t == [] then Fail(t, cs, d)
    else if t[0] == SLASH then ParseRegex(lib, t, cs, d)
    else if t[0] == QUOTE then ParsePhrase(t, cs, d)
    else if KwPath() <= t then ParsePathFilter(t, cs, d)
    else if KwLanguage() <= t || KwLang() <= t then ParseLanguageFilter(lib, t, cs, d)
    else if KwCaseYes() <= t then ParseCaseModifier(lib, t, cs, d)
    else ParseLiteral(t, cs, d)
  }

  function ParseUnaryInner(lib: Library, s: bytes, cs: bool, d: nat): (o: Outcome)
    ensures |o.rest| <= |s| && (o.result.Some? ==> |o.rest| < |s|)
    ensures o.depth >= d
    decreases |s|, 2
  {
    var t := SkipSpace(s);
    if KeywordAt(t, KwNot()) then
      var o := ParseUnary(lib, SkipSpace(t[|KwNot()|..]), cs, d);
      if o.result.Some? then o.(result := Some(Not(o.result.value))) else o
    else ParsePrimary(lib, t, cs, d)
  }

  /** On the way out the depth is decremented, except by the call that found it too large. */
  function ParseUnary(lib: Library, s: bytes, cs: bool, d: nat): (o: Outcome)
    ensures |o.rest| <= |s| && (o.result.Some? ==> |o.rest| < |s|)
    ensures o.depth >= d
    decreases |s|, 3
  {
    if d + 1 > MAX_PARSE_DEPTH then Fail(s, cs, d + 1)
    else
      var o := ParseUnaryInner(lib, s, cs, d + 1);
      o.(depth := o.depth - 1)
  }

  /** The loop of parse_and: a term that fails is backed out of and ends the loop. */
  function ParseAndTail(lib: Library, children: seq<Query>, s: bytes, cs: bool, d: nat): (o: (seq<Query>, Outcome))
    ensures |o.1.rest| <= |s| && |o.0| >= |children|
    decreases |s|
  {
    var t := SkipSpace(s);
    if t == [] || KeywordAt(t, KwOr()) then (children, Outcome(None, t, cs, d))
    else
      var u := ParseUnary(lib, t, cs, d);
      if u.result.None? then (children, Outcome(None, t, u.caseSensitive, u.depth))
      else ParseAndTail(lib, children + [u.result.value], u.rest, u.caseSensitive, u.depth)
  }

  /** A conjunction of one term is that term. */
  function Conjoin(children: seq<Query>): Query {
    if |children| == 1 then children[0] else And(children)
  }

  function Conjunction(tail: (seq<Query>, Outcome)): (o: Outcome)
    ensures o.rest == tail.1.rest
  {
    tail.1.(result := Some(Conjoin(tail.0)))
  }

  function ParseAnd(lib: Library, s: bytes, cs: bool, d: nat): (o: Outcome)
    ensures |o.rest| <= |s| && (o.result.Some? ==> |o.rest| < |s|)
  {
    var first := ParseUnary(lib, SkipSpace(s), cs, d);
    if first.result.None? then first
    else
      Conjunction(ParseAndTail(lib, [first.result.value], first.rest, first.caseSensitive, first.depth))
  }

  function ParseOrTail(lib: Library, left: Query, s: bytes, cs: bool, d: nat): (o: Outcome)
    ensures |o.rest| <= |s|
    decreases |s|
  {
    var t := SkipSpace(s);
    if KeywordAt(t, KwOr()) then
      var right := ParseAnd(lib, SkipSpace(t[|KwOr()|..]), cs, d);
      if right.result.None? then right
      else ParseOrTail(lib, Or(left, right.result.value), right.rest, right.caseSensitive, right.depth)
    else Outcome(Some(left), t, cs, d)
  }

  function ParseOr(lib: Library, s: bytes, cs: bool, d: nat): (o: Outcome)
    ensures |o.rest| <= |s|
  {
    var left := ParseAnd(lib, s, cs, d);
    if left.result.None? then left
    else ParseOrTail(lib, left.result.value, left.rest, left.caseSensitive, left.depth)
  }

  function ParseQuery(lib: Library, input: bytes): Option<Query> {
    if AllBlank(input) then None
    else
      var o := ParseOr(lib, input, false, 0);
      if o.result.None? || SkipSpace(o.rest) != [] then None else o.result
  }

  // One unfolding of each recursive function of the grammar.

  lemma AndWhole(lib: Library, s: bytes, cs: bool, d: nat)
    ensures var first := ParseUnary(lib, SkipSpace(s), cs, d);
      ParseAnd(lib, s, cs, d) ==
      if first.result.None? then first
      else Conjunction(
        ParseAndTail(lib, [first.result.value], first.rest, first.caseSensitive, first.depth))
  {
    hide SkipSpace, ParseUnary, ParseAndTail;
  }

  lemma CaseStep(lib: Library, s: bytes, cs: bool, d: nat)
    requires KeywordAt(s, KwCaseYes())
    ensures ParseCaseModifier(lib, s, cs, d) ==
            ParseUnary(lib, SkipSpace(s[|KwCaseYes()|..]), true, d)
  {
    hide KwCaseYes;
    hide SkipSpace, ParseUnary;
  }

  lemma CaseLiteral(lib: Library, s: bytes, cs: bool, d: nat)
    requires KwCaseYes() <= s && !KeywordAt(s, KwCaseYes())
    ensures ParseCaseModifier(lib, s, cs, d) == ParseLiteral(s, cs, d)
  {
    hide KwCaseYes;
    hide ParseLiteral;
  }

  lemma NotStep(lib: Library, s: bytes, cs: bool, d: nat)
    requires KeywordAt(SkipSpace(s), KwNot())
    ensures ParseUnaryInner(lib, s, cs, d) ==
            var o := ParseUnary(lib, SkipSpace(SkipSpace(s)[|KwNot()|..]), cs, d);
            if o.result.Some? then o.(result := Some(Not(o.result.value))) else o
  {
    hide KwNot;
    hide SkipSpace, ParseUnary;
  }

  lemma PrimaryStep(lib: Library, s: bytes, cs: bool, d: nat)
    requires !KeywordAt(SkipSpace(s), KwNot())
    ensures ParseUnaryInner(lib, s, cs, d) == ParsePrimary(lib, SkipSpace(s), cs, d)
  {
    hide KwNot;
    hide SkipSpace, ParsePrimary, KeywordAt;
  }

  lemma AndStop(lib: Library, children: seq<Query>, s: bytes, cs: bool, d: nat)
    requires var t := SkipSpace(s); t == [] || KeywordAt(t, KwOr())
    ensures Conjunction(ParseAndTail(lib, children, s, cs, d)) ==
            Outcome(Some(Conjoin(children)), SkipSpace(s), cs, d)
  {
    hide KwOr;
    hide SkipSpace, ParseUnary, KeywordAt;
  }

  lemma AndStep(lib: Library, children: seq<Query>, s: bytes, cs: bool, d: nat)
    requires var t := SkipSpace(s); t != [] && !KeywordAt(t, KwOr())
    ensures var t := SkipSpace(s); var u := ParseUnary(lib, t, cs, d);
      Conjunction(ParseAndTail(lib, children, s, cs, d)) ==
      if u.result.None? then Outcome(Some(Conjoin(children)), t, u.caseSensitive, u.depth)
      else Conjunction(ParseAndTail(lib, children + [u.result.value], u.rest, u.caseSensitive, u.depth))
  {
    hide KwOr;
    hide SkipSpace, ParseUnary, KeywordAt;
  }

  lemma OrWhole(lib: Library, s: bytes, cs: bool, d: nat)
    ensures var left := ParseAnd(lib, s, cs, d);
      ParseOr(lib, s, cs, d) ==
      if left.result.None? then left
      else ParseOrTail(lib, left.result.value, left.rest, left.caseSensitive, left.depth)
  {
    hide ParseAnd, ParseOrTail;
  }

  lemma OrStop(lib: Library, left: Query, s: bytes, cs: bool, d: nat)
    requires !KeywordAt(SkipSpace(s), KwOr())
    ensures ParseOrTail(lib, left, s, cs, d) == Outcome(Some(left), SkipSpace(s), cs, d)
  {
    hide KwOr;
    hide SkipSpace, ParseAnd, KeywordAt;
  }

  lemma OrStep(lib: Library, left: Query, s: bytes, cs: bool, d: nat)
    requires KeywordAt(SkipSpace(s), KwOr())
    ensures var right := ParseAnd(lib, SkipSpace(SkipSpace(s)[|KwOr()|..]), cs, d);
      ParseOrTail(lib, left, s, cs, d) ==
      if right.result.None? then right
      else ParseOrTail(lib, Or(left, right.result.value), right.rest, right.caseSensitive, right.depth)
  {
    hide KwOr;
    hide SkipSpace, ParseAnd;
  }
}
