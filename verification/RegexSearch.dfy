/** Which queries lose no file (ferret-core/src/query_trigrams.rs). */
module RegexSearch {
  // The regex library is a parameter: the literals it lists for a pattern, and its guarantee that a match begins with
  // a prefix literal and ends with a suffix literal. Case-insensitive matching may spell them in any case.

  import opened Base
  import opened IndexReader
  import opened MultiSearch
  import opened Query
  import opened QueryMatch
  import opened QueryTrigrams
  import R = RegexTrigrams
  import opened SegmentSearch
  import opened Trigrams
  import opened UnicodeFolding
  import opened Verify

  type Library = bytes -> R.Pattern

  ghost predicate CompiledBy(regex: RegexCompiler, library: Library) {
    forall p :: regex(p) == R.ExtractRegex(library(p))
  }

  // ---- the library's guarantee ----

  predicate AllAscii(texts: seq<bytes>) { forall i :: 0 <= i < |texts| ==> Ascii(texts[i]) }

  predicate AllPlain(texts: seq<bytes>) { forall i :: 0 <= i < |texts| ==> Plain(texts[i]) }

  predicate AsciiLiterals(l: R.Literals) { AllAscii(R.Choices(l.prefixes)) && AllAscii(R.Choices(l.suffixes)) }

  predicate PlainLiterals(l: R.Literals) { AllPlain(R.Choices(l.prefixes)) && AllPlain(R.Choices(l.suffixes)) }

  predicate AsciiPattern(pattern: R.Pattern) {
    match pattern
    case Unparsable => true
    case Single(l) => AsciiLiterals(l)
    case Alternation(ls) => forall i :: 0 <= i < |ls| ==> AsciiLiterals(ls[i])
  }

  ghost predicate Matchable(l: R.Literals, caseSensitive: bool, content: bytes) {
    if caseSensitive then R.MayMatch(l, content)
    else
      exists p, s :: p in R.Choices(l.prefixes) && s in R.Choices(l.suffixes)
        && HasVariant(p, content) && HasVariant(s, content)
  }

  ghost predicate PatternMatchable(pattern: R.Pattern, caseSensitive: bool, content: bytes) {
    match pattern
    case Unparsable => true
    case Single(l) => Matchable(l, caseSensitive, content)
    case Alternation(ls) => exists i :: 0 <= i < |ls| && Matchable(ls[i], caseSensitive, content)
  }

  /** Matches of a pattern show its literals, in any case where case is ignored and the literals are ASCII. */
  ghost predicate Honest(engine: Engine, library: Library) {
    forall pattern, cs, content | Matches(engine, RegexPattern(pattern, cs), content) ::
      cs || AsciiPattern(library(pattern)) ==> PatternMatchable(library(pattern), cs, content)
  }

  // ---- what a caller can check ----

  predicate AllSpelledInAscii(ls: seq<R.Literals>) {
    forall i :: 0 <= i < |ls| ==> AsciiLiterals(ls[i]) && PlainLiterals(ls[i])
  }

  ghost predicate PatternSafe(pattern: R.Pattern, caseSensitive: bool) {
    R.ExtractRegex(pattern).NoTrigrams? ||
    match pattern
    case Unparsable => true
    case Single(l) => R.ChoicesCover(l) && (caseSensitive || AllSpelledInAscii([l]))
    case Alternation(ls) => R.BranchesCover(ls) && (caseSensitive || AllSpelledInAscii(ls))
  }

  predicate TextSafe(text: bytes, caseSensitive: bool) {
    caseSensitive || |text| < 3 || (Ascii(text) && Plain(text))
  }

  /** The texts and patterns of a query, outside negations, that the index handles exactly. */
  ghost predicate TermsSafe(library: Library, query: Query) {
    match query
    case Literal(text, cs) => TextSafe(text, cs)
    case Phrase(text, cs) => TextSafe(text, cs)
    case Regex(pattern, cs) => PatternSafe(library(pattern), cs)
    case Or(left, right) => TermsSafe(library, left) && TermsSafe(library, right)
    case And(children) => forall i :: 0 <= i < |children| ==> TermsSafe(library, children[i])
    case _ => true
  }

  lemma PlainVariantTrigrams(text: bytes, content: bytes)
    requires Plain(text) && HasVariant(text, content)
    ensures FoldedSet(text) <= FoldedSet(content)
  {
    var i: nat :| i <= |content| && VariantLength(text, content, i).Some?;
    VariantOfPlain(text, content, i);
    OccurrenceHasTrigrams(text, content);
  }

  /** A matchable content has the trigrams of one choice of literals. */
  lemma ShownChoice(l: R.Literals, caseSensitive: bool, content: bytes) returns (p: bytes, s: bytes)
    requires Matchable(l, caseSensitive, content) && (caseSensitive || PlainLiterals(l))
    ensures p in R.Choices(l.prefixes) && s in R.Choices(l.suffixes)
    ensures FoldedSet(p) + FoldedSet(s) <= FoldedSet(content)
  {
    hide FoldedSet, Plain, HasVariant;
    if caseSensitive {
      var i: nat, j: nat;
      i, j, p, s :| i <= j <= |content| && p in R.Choices(l.prefixes) && s in R.Choices(l.suffixes)
                    && R.MatchPart(content, i, j, p, s);
      R.PartHolds(content, i, j, p, s);
    } else {
      p, s :| p in R.Choices(l.prefixes) && s in R.Choices(l.suffixes)
              && HasVariant(p, content) && HasVariant(s, content);
      PlainVariantTrigrams(p, content);
      PlainVariantTrigrams(s, content);
    }
  }

  lemma PatternAdmits(pattern: R.Pattern, caseSensitive: bool, content: bytes)
    requires PatternSafe(pattern, caseSensitive) && PatternMatchable(pattern, caseSensitive, content)
    ensures Admits(R.ExtractRegex(pattern), FoldedSet(content))
  {
    hide FoldedSet, R.HirTrigrams, Matchable, PlainLiterals, AsciiLiterals, R.Choices;
    if !R.ExtractRegex(pattern).NoTrigrams? {
      match pattern
      case Unparsable =>
      case Single(l) =>
        assert caseSensitive || PlainLiterals([l][0]);
        var p, s := ShownChoice(l, caseSensitive, content);
      case Alternation(ls) =>
        var i :| 0 <= i < |ls| && Matchable(ls[i], caseSensitive, content);
        var p, s := ShownChoice(ls[i], caseSensitive, content);
        var k :| 0 <= k < |ls| && R.HirTrigrams(ls[k]) <= FoldedSet(p) + FoldedSet(s);
        assert R.SomeBranchIn(ls, FoldedSet(content));
        R.AlternationAdmits(ls, FoldedSet(content));
    }
  }

  lemma TextSound(engine: Engine, text: bytes, caseSensitive: bool, content: bytes)
    requires UnicodeEngine(engine) && TextSafe(text, caseSensitive)
    ensures caseSensitive || |text| < 3 || AsciiFolding(engine, text, content)
  {
    hide AsciiFolding, FoldsByUnicode, Refuses, Plain;
    if !caseSensitive && |text| >= 3 { PlainFolds(engine, text, content); }
  }

  lemma SafeIsAscii(pattern: R.Pattern, caseSensitive: bool)
    requires PatternSafe(pattern, caseSensitive) && !R.ExtractRegex(pattern).NoTrigrams?
    ensures caseSensitive || AsciiPattern(pattern)
  {
    hide AsciiLiterals, PlainLiterals, R.ExtractRegex;
    if pattern.Single? && !caseSensitive { assert AsciiLiterals([pattern.literals][0]); }
  }

  lemma PatternSound(env: Env, library: Library, pattern: bytes, caseSensitive: bool, content: bytes)
    requires CompiledBy(env.regex, library) && Honest(env.engine, library)
    requires PatternSafe(library(pattern), caseSensitive)
    ensures Matches(env.engine, RegexPattern(pattern, caseSensitive), content) ==>
      Admits(env.regex(pattern), FoldedSet(content))
  {
    hide Matches, Admits, FoldedSet, PatternMatchable, R.ExtractRegex, AsciiLiterals, PlainLiterals;
    if Matches(env.engine, RegexPattern(pattern, caseSensitive), content) {
      if R.ExtractRegex(library(pattern)).NoTrigrams? {
        assert env.regex(pattern) == NoTrigrams;
        AlwaysAdmitted(FoldedSet(content));
      } else {
        SafeIsAscii(library(pattern), caseSensitive);
        PatternAdmits(library(pattern), caseSensitive, content);
      }
    }
  }

  lemma AlwaysAdmitted(file: Branch)
    ensures Admits(NoTrigrams, file)
  {
  }

  /** What a caller can check implies what the index search needs of the engine, on every content. */
  lemma {:induction false} SafeTermsSound(env: Env, library: Library, query: Query, content: bytes)
    requires UnicodeEngine(env.engine) && CompiledBy(env.regex, library) && Honest(env.engine, library)
    requires TermsSafe(library, query)
    ensures TermsSound(env, query, content)
  {
    hide UnicodeEngine, CompiledBy, Honest, AsciiFolding, FoldedSet, Matches, PatternSafe, TextSafe, Admits;
    match query
    case Literal(text, cs) => TextSound(env.engine, text, cs, content);
    case Phrase(text, cs) => TextSound(env.engine, text, cs, content);
    case Regex(pattern, cs) => PatternSound(env, library, pattern, cs, content);
    case Or(left, right) =>
      SafeTermsSound(env, library, left, content);
      SafeTermsSound(env, library, right, content);
    case And(children) =>
      forall i | 0 <= i < |children| ensures TermsSound(env, children[i], content) {
        SafeTermsSound(env, library, children[i], content);
      }
    case _ =>
  }

  lemma CompiledHasBranches(regex: RegexCompiler, library: Library)
    requires CompiledBy(regex, library)
    ensures RegexBranches(regex)
  {
    hide R.ExtractRegex, HasBranches;
    forall p ensures HasBranches(regex(p)) { R.ExtractRegexHasBranches(library(p)); }
  }

  /**
   * With an engine that folds case by Unicode and an honest regex library, a query whose texts and patterns are safe
   * finds through the index what brute force finds, in every snapshot.
   */
  lemma SafeQueryEqualsBruteForce(env: Env, library: Library, snapshot: seq<Segment>, query: Query, context: u32)
    requires UnicodeEngine(env.engine) && CompiledBy(env.regex, library) && Honest(env.engine, library)
    requires TermsSafe(library, query) && CapSafe(env, query) && Searchable(snapshot)
    ensures AllFound(env, snapshot, query, context)
         == seq(|snapshot|, i requires 0 <= i < |snapshot| => BruteForce(env, snapshot[i], query, context))
  {
    hide UnicodeEngine, CompiledBy, Honest, TermsSafe, CapSafe, TermsSound, BruteForce, AllFound;
    CompiledHasBranches(env.regex, library);
    forall i, id | 0 <= i < |snapshot| && 0 <= id < |snapshot[i].files| && id !in snapshot[i].dead
      ensures TermsSound(env, query, snapshot[i].files[id].content)
    {
      SafeTermsSound(env, library, query, snapshot[i].files[id].content);
    }
    SnapshotEqualsBruteForce(env, snapshot, query, context);
  }

  // ---- the cap on two alternations of words ----

  const SPACE: u8 := 0x20

  /** A word of three bytes, one trigram. */
  predicate IsWord(w: bytes) {
    |w| == 3 && forall i :: 0 <= i < 3 ==> w[i] != SPACE
  }

  predicate AreWords(words: seq<bytes>) {
    |words| >= 2 && forall i :: 0 <= i < |words| ==> IsWord(words[i])
  }

  /** The words have different trigrams. */
  predicate Apart(words: seq<bytes>)
    requires forall i :: 0 <= i < |words| ==> |words[i]| == 3
  {
    forall i, j :: 0 <= i < j < |words| ==> TrigramAt(words[i], 0) != TrigramAt(words[j], 0)
  }

  function Fixed(word: bytes): R.Literals { R.Literals(Some([word]), Some([word])) }

  /** What the library lists for w1|w2|... */
  function WordPattern(words: seq<bytes>): R.Pattern {
    R.Alternation(seq(|words|, i requires 0 <= i < |words| => Fixed(words[i])))
  }

  function WordBranches(words: seq<bytes>): (r: seq<Branch>)
    requires forall i :: 0 <= i < |words| ==> |words[i]| == 3
    ensures |r| == |words| && forall i :: 0 <= i < |r| ==> r[i] == {TrigramAt(words[i], 0)}
  {
    seq(|words|, i requires 0 <= i < |words| => {TrigramAt(words[i], 0)})
  }

  lemma WordTrigram(w: bytes)
    requires |w| == 3
    ensures FoldedSet(w) == {TrigramAt(w, 0)} && R.HirTrigrams(Fixed(w)) == {TrigramAt(w, 0)}
  {
    assert FoldedTrigrams(w) == [TrigramAt(w, 0)];
    assert [w][1..] == [];
    assert R.LongTrigrams([w]) == FoldedSet(w) + R.LongTrigrams([]);
  }

  lemma WordPatternBranches(words: seq<bytes>)
    requires AreWords(words)
    ensures R.ExtractRegex(WordPattern(words)) == Any(WordBranches(words))
  {
    hide R.HirTrigrams, TrigramAt;
    var ls := WordPattern(words).branches;
    forall i | 0 <= i < |words| ensures R.HirTrigrams(ls[i]) == WordBranches(words)[i] != {} { WordTrigram(words[i]); }
    assert seq(|ls|, i requires 0 <= i < |ls| => R.HirTrigrams(ls[i])) == WordBranches(words);
  }

  function Both(x: bytes, y: bytes): bytes { x + [SPACE] + y }

  lemma WordOccurs(x: bytes, content: bytes, at: nat)
    requires IsWord(x) && at + 3 <= |content| && content[at..at + 3] == x
    ensures TrigramAt(x, 0) in FoldedSet(content)
  {
    hide FoldedSet, TrigramAt;
    WordTrigram(x);
    assert FoldsTo(content, at, x);
    OccurrenceHasTrigrams(x, content);
  }

  lemma WordsOfBoth(x: bytes, y: bytes, w: bytes)
    requires IsWord(x) && IsWord(y) && IsWord(w)
    ensures TrigramAt(w, 0) in FoldedSet(Both(x, y))
       <==> TrigramAt(w, 0) == TrigramAt(x, 0) || TrigramAt(w, 0) == TrigramAt(y, 0)
  {
    hide FoldedSet, FoldsTo;
    var t, content := TrigramAt(w, 0), Both(x, y);
    assert content[0..3] == x && content[4..7] == y;
    WordOccurs(x, content, 0);
    WordOccurs(y, content, 4);
    if t in FoldedSet(content) {
      OnlyTheWords(x, y, w);
    }
  }

  lemma OnlyTheWords(x: bytes, y: bytes, w: bytes)
    requires IsWord(x) && IsWord(y) && IsWord(w) && TrigramAt(w, 0) in FoldedSet(Both(x, y))
    ensures TrigramAt(w, 0) == TrigramAt(x, 0) || TrigramAt(w, 0) == TrigramAt(y, 0)
  {
    hide FoldedSet;
    assert w[0] != SPACE && w[1] != SPACE && w[2] != SPACE;
    R.JoinedTrigrams(x, SPACE, y, TrigramAt(w, 0));
    WordTrigram(x);
    WordTrigram(y);
  }

  lemma {:induction false} CrossAt(xs: seq<Branch>, ys: seq<Branch>, i: nat, j: nat)
    requires i < |xs| && j < |ys|
    ensures 0 <= i * |ys| + j < |Cross(xs, ys)|
    ensures Cross(xs, ys)[i * |ys| + j] == xs[i] + ys[j]
  {
    if i == 0 {
    } else {
      CrossAt(xs[1..], ys, i - 1, j);
      assert i * |ys| == (i - 1) * |ys| + |ys|;
    }
  }

  /** Only the last pair of branches is admitted by the words that stand last in both lists. */
  lemma LastPairOnly(xs: seq<bytes>, ys: seq<bytes>, i: nat, j: nat)
    requires AreWords(xs) && AreWords(ys) && Apart(xs + ys) && i < |xs| && j < |ys|
    requires WordBranches(xs)[i] + WordBranches(ys)[j] <= FoldedSet(Both(xs[|xs| - 1], ys[|ys| - 1]))
    ensures i == |xs| - 1 && j == |ys| - 1
  {
    hide FoldedSet, TrigramAt, Both;
    var all, x, y := xs + ys, xs[|xs| - 1], ys[|ys| - 1];
    assert IsWord(x) && IsWord(y) && IsWord(xs[i]) && IsWord(ys[j]);
    assert TrigramAt(xs[i], 0) in WordBranches(xs)[i] && TrigramAt(ys[j], 0) in WordBranches(ys)[j];
    WordsOfBoth(x, y, xs[i]);
    WordsOfBoth(x, y, ys[j]);
    assert all[i] == xs[i] && all[|xs| + j] == ys[j] && all[|xs| - 1] == x && all[|xs| + |ys| - 1] == y;
  }

  /** The trigrams extracted from the conjunction of two alternations of words. */
  function WordPair(xs: seq<bytes>, ys: seq<bytes>): TrigramQuery {
    MergeAnd(R.ExtractRegex(WordPattern(xs)), R.ExtractRegex(WordPattern(ys)))
  }

  lemma BothAdmitted(xs: seq<bytes>, ys: seq<bytes>, i: nat, j: nat)
    requires AreWords(xs) && AreWords(ys) && i < |xs| && j < |ys|
    ensures AnyBranch(WordBranches(xs), FoldedSet(Both(xs[i], ys[j])))
    ensures AnyBranch(WordBranches(ys), FoldedSet(Both(xs[i], ys[j])))
  {
    hide FoldedSet, TrigramAt, Both;
    assert IsWord(xs[i]) && IsWord(ys[j]);
    WordsOfBoth(xs[i], ys[j], xs[i]);
    WordsOfBoth(xs[i], ys[j], ys[j]);
    assert WordBranches(xs)[i] <= FoldedSet(Both(xs[i], ys[j]));
    assert WordBranches(ys)[j] <= FoldedSet(Both(xs[i], ys[j]));
  }

  /** A branch that is kept comes from another pair of words. */
  lemma KeptBranch(xs: seq<bytes>, ys: seq<bytes>, k: nat)
    requires AreWords(xs) && AreWords(ys) && Apart(xs + ys) && k + 1 < |xs| * |ys|
    ensures !(Cross(WordBranches(xs), WordBranches(ys))[k] <= FoldedSet(Both(xs[|xs| - 1], ys[|ys| - 1])))
  {
    hide FoldedSet, Cross, WordBranches, Both, Apart;
    var n, m := |xs|, |ys|;
    WordCounts(xs);
    WordCounts(ys);
    var i, j := k / m, k % m;
    RowOf(k, n, m);
    CrossAt(WordBranches(xs), WordBranches(ys), i, j);
    if Cross(WordBranches(xs), WordBranches(ys))[k] <= FoldedSet(Both(xs[n - 1], ys[m - 1])) {
      LastPairOnly(xs, ys, i, j);
      assert false;
    }
  }

  lemma LastPairLost(xs: seq<bytes>, ys: seq<bytes>)
    requires AreWords(xs) && AreWords(ys) && Apart(xs + ys) && |xs| * |ys| > MAX_BRANCHES
    ensures !Admits(WordPair(xs, ys), FoldedSet(Both(xs[|xs| - 1], ys[|ys| - 1])))
  {
    hide FoldedSet, R.ExtractRegex, WordPattern, Cross, WordBranches, Both, Apart;
    WordPatternBranches(xs);
    WordPatternBranches(ys);
    var bs, cs := WordBranches(xs), WordBranches(ys);
    assert |bs| == |xs| && |cs| == |ys| by { WordCounts(xs); WordCounts(ys); }
    var file := FoldedSet(Both(xs[|xs| - 1], ys[|ys| - 1]));
    var kept := Cross(bs, cs)[..MAX_BRANCHES];
    forall k | 0 <= k < MAX_BRANCHES ensures !(kept[k] <= file) {
      KeptBranch(xs, ys, k);
    }
  }

  lemma WordCounts(words: seq<bytes>)
    requires AreWords(words)
    ensures |WordBranches(words)| == |words|
  {
  }

  lemma RowOf(k: nat, n: nat, m: nat)
    requires m > 0 && k + 1 < n * m
    ensures k / m < n && k == k / m * m + k % m
    ensures k / m == n - 1 ==> k % m != m - 1
  {
    var q := k / m;
    ProductGrows(q, n, m);
    ProductGrows(n - 1, q, m);
    assert n * m == (n - 1) * m + m;
  }

  lemma ProductGrows(a: int, b: int, m: nat)
    ensures a >= b ==> a * m >= b * m
  {
  }

  /**
   * The conjunction of two alternations of distinct words, /w1|w2|.../ and /v1|v2|.../, keeps every file that has a
   * word of each if and only if the cap of 64 branches is not exceeded.
   */
  lemma WordPairExactly(xs: seq<bytes>, ys: seq<bytes>)
    requires AreWords(xs) && AreWords(ys) && Apart(xs + ys)
    ensures (forall i, j :: 0 <= i < |xs| && 0 <= j < |ys| ==>
               Admits(WordPair(xs, ys), FoldedSet(Both(xs[i], ys[j]))))
       <==> |xs| * |ys| <= 64
  {
    hide FoldedSet, Cross, WordBranches, Both, Apart, MergeAnd, R.ExtractRegex, WordPattern, Admits;
    if |xs| * |ys| <= MAX_BRANCHES {
      WordPatternBranches(xs);
      WordPatternBranches(ys);
      WordCounts(xs);
      WordCounts(ys);
      var a, b := Any(WordBranches(xs)), Any(WordBranches(ys));
      WordsWithinCap(xs, ys);
      forall i, j | 0 <= i < |xs| && 0 <= j < |ys|
        ensures Admits(WordPair(xs, ys), FoldedSet(Both(xs[i], ys[j])))
      {
        BothAdmitted(xs, ys, i, j);
        AnyAdmits(WordBranches(xs), FoldedSet(Both(xs[i], ys[j])));
        AnyAdmits(WordBranches(ys), FoldedSet(Both(xs[i], ys[j])));
        MergeAndDenotes(a, b, FoldedSet(Both(xs[i], ys[j])));
      }
    } else {
      LastPairLost(xs, ys);
    }
  }

  lemma AnyAdmits(bs: seq<Branch>, file: Branch)
    ensures Admits(Any(bs), file) <==> AnyBranch(bs, file)
  {
  }

  lemma WordsWithinCap(xs: seq<bytes>, ys: seq<bytes>)
    requires AreWords(xs) && AreWords(ys) && |xs| * |ys| <= MAX_BRANCHES
    ensures HasBranches(Any(WordBranches(xs))) && HasBranches(Any(WordBranches(ys)))
    ensures CapHarmless(Any(WordBranches(xs)), Any(WordBranches(ys)))
  {
    hide WordBranches;
    WordCounts(xs);
    WordCounts(ys);
    MergeAndExactIff(Any(WordBranches(xs)), Any(WordBranches(ys)));
  }

  /** The words a11, b11, ... or a22, b22, ... */
  function Series(n: nat, digit: u8): (r: seq<bytes>)
    requires n <= 26
    ensures |r| == n && forall i :: 0 <= i < n ==> r[i] == [0x61 + i, digit, digit]
  {
    seq(n, i requires 0 <= i < n => [0x61 + i, digit, digit])
  }

  lemma SeriesApart()
    ensures AreWords(Series(9, 0x31)) && AreWords(Series(8, 0x32)) && Apart(Series(9, 0x31) + Series(8, 0x32))
  {
    var xs, ys := Series(9, 0x31), Series(8, 0x32);
    var all := xs + ys;
    forall i, j | 0 <= i < j < |all| ensures TrigramAt(all[i], 0) != TrigramAt(all[j], 0) {
      assert all[i][0] != all[j][0] || all[i][1] != all[j][1];
    }
  }

  /**
   * /a11|b11|...|i11/ /a22|b22|...|h22/: nine branches and eight. A file that says "i11 h22" matches both regexes, and
   * the indexed search of a segment with that file finds nothing.
   */
  lemma CapLosesFiles(env: Env, library: Library, nine: bytes, eight: bytes, reader: Reader, context: u32)
    requires CompiledBy(env.regex, library)
    requires library(nine) == WordPattern(Series(9, 0x31)) && library(eight) == WordPattern(Series(8, 0x32))
    requires var content := Both([0x69, 0x31, 0x31], [0x68, 0x32, 0x32]);
      env.engine(RegexPattern(nine, true), content, 0).Some? && env.engine(RegexPattern(eight, true), content, 4).Some?
    ensures var query := And([Regex(nine, true), Regex(eight, true)]);
      var content := Both([0x69, 0x31, 0x31], [0x68, 0x32, 0x32]);
      var segment := OneFile(content, reader);
      && Holds(env.engine, query, content)
      && !Admits(Extract(query, env.regex), FoldedSet(content))
      && Found(env, segment, query, context) == []
      && |BruteForce(env, segment, query, context)| == 1
  {
    hide FoldedSet, Found, BruteForce, R.ExtractRegex, WordPattern, Admits, MergeAnd;
    var xs, ys := Series(9, 0x31), Series(8, 0x32);
    var content := Both([0x69, 0x31, 0x31], [0x68, 0x32, 0x32]);
    var query := And([Regex(nine, true), Regex(eight, true)]);
    assert xs[8] == [0x69, 0x31, 0x31] && ys[7] == [0x68, 0x32, 0x32];
    SeriesApart();
    LastPairLost(xs, ys);
    PairExtracted(env.regex, nine, eight);
    assert Matches(env.engine, RegexPattern(nine, true), content);
    assert Matches(env.engine, RegexPattern(eight, true), content);
    PairHolds(env.engine, nine, eight, content);
    PairHasNoFilters(nine, eight);
    RejectedIsLost(env, OneFile(content, reader), query, context);
  }

  lemma PairExtracted(regex: RegexCompiler, p: bytes, q: bytes)
    ensures Extract(And([Regex(p, true), Regex(q, true)]), regex) == MergeAnd(regex(p), regex(q))
  {
    hide MergeAnd;
    var children := [Regex(p, true), Regex(q, true)];
    assert children[..|children| - 1] == [Regex(p, true)] && [Regex(p, true)][..0] == [];
    assert ExtractAnd([], regex) == NoTrigrams;
    assert Extract(Regex(p, true), regex) == regex(p) && Extract(children[1], regex) == regex(q);
    assert ExtractAnd([Regex(p, true)], regex) == MergeAnd(NoTrigrams, regex(p));
    FirstConjunct(regex(p));
    assert ExtractAnd(children, regex) == MergeAnd(regex(p), regex(q));
  }

  lemma FirstConjunct(tq: TrigramQuery)
    ensures MergeAnd(NoTrigrams, tq) == tq
  {
  }

  lemma PairHolds(engine: Engine, p: bytes, q: bytes, content: bytes)
    requires Matches(engine, RegexPattern(p, true), content) && Matches(engine, RegexPattern(q, true), content)
    requires content != []
    ensures Holds(engine, And([Regex(p, true), Regex(q, true)]), content)
  {
    hide Matches;
  }

  lemma PairHasNoFilters(p: bytes, q: bytes)
    ensures CollectFilters(And([Regex(p, true), Regex(q, true)])) == Filters({}, {})
  {
    var children := [Regex(p, true), Regex(q, true)];
    assert children[1..] == [Regex(q, true)] && children[1..][1..] == [];
    assert CollectFilters(children[0]) == Filters({}, {}) && CollectFilters(children[1]) == Filters({}, {});
    assert CollectAll([]) == Filters({}, {});
    assert CollectAll([children[1]]) == Union(Filters({}, {}), CollectAll([]));
    assert CollectAll(children) == Union(Filters({}, {}), CollectAll(children[1..]));
  }
}
