/** Case folding by Unicode against folding by ASCII (ferret-core/src/verify.rs, trigram.rs). */
module UnicodeFolding {
  // Case-insensitive literals are verified by the regex engine, which folds case by Unicode, while trigrams are
  // folded by ASCII. Of the ASCII letters exactly k and s have one more spelling by Unicode simple folding: the Kelvin
  // sign U+212A and the long s U+017F. Texts with other characters than ASCII are not part of this model.

  import opened Base
  import opened IndexReader
  import opened MultiSearch
  import opened Query
  import opened QueryMatch
  import opened QueryTrigrams
  import opened SegmentSearch
  import opened Trigrams
  import opened Verify

  const LOWER_K: u8 := 0x6B
  const LOWER_S: u8 := 0x73

  const KELVIN_SIGN: bytes := [0xE2, 0x84, 0xAA]
  const LONG_S: bytes := [0xC5, 0xBF]

  predicate Ascii(text: bytes) {
    forall i :: 0 <= i < |text| ==> text[i] < 0x80
  }

  predicate HasOneSpelling(b: u8) { FoldByte(b) != LOWER_K && FoldByte(b) != LOWER_S }

  /** No letter of the text has a spelling outside ASCII. */
  predicate Plain(text: bytes) {
    forall i :: 0 <= i < |text| ==> HasOneSpelling(text[i])
  }

  // ---- Unicode simple folding of ASCII text ----

  /** How many bytes at `i` spell a letter: one in either ASCII case, three or two in the further spelling. */
  function LetterLength(letter: u8, content: bytes, i: nat): (n: nat)
    requires i <= |content|
    ensures i + n <= |content|
  {
    if i < |content| && FoldByte(content[i]) == FoldByte(letter) then 1
    else if FoldByte(letter) == LOWER_K && OccursAt(KELVIN_SIGN, content, i) then 3
    else if FoldByte(letter) == LOWER_S && OccursAt(LONG_S, content, i) then 2
    else 0
  }

  /** How many bytes at `i` spell the text, letter by letter. */
  function VariantLength(text: bytes, content: bytes, i: nat): (n: Option<nat>)
    requires i <= |content|
    ensures n.Some? ==> i + n.value <= |content|
  {
    if text == [] then Some(0)
    else
      var n := LetterLength(text[0], content, i);
      if n == 0 then None
      else
        match VariantLength(text[1..], content, i + n)
        case None => None
        case Some(m) => Some(n + m)
  }

  ghost predicate HasVariant(text: bytes, content: bytes) {
    exists i: nat :: i <= |content| && VariantLength(text, content, i).Some?
  }

  /** What the engine does with a case-insensitive literal. */
  ghost predicate FoldsByUnicode(engine: Engine, text: bytes) {
    forall content, i: nat :: i <= |content| ==>
      engine(Insensitive(text), content, i) == VariantLength(text, content, i)
  }

  /** A regex the library refuses, for its size, never matches. */
  ghost predicate Refuses(engine: Engine, text: bytes) {
    forall content, i: nat :: i <= |content| ==> engine(Insensitive(text), content, i) == None
  }

  ghost predicate UnicodeEngine(engine: Engine) {
    forall text :: Ascii(text) ==> FoldsByUnicode(engine, text) || Refuses(engine, text)
  }

  // ---- plain texts are spelled in ASCII only ----

  lemma FoldsToCons(text: bytes, content: bytes, i: nat)
    requires text != [] && i < |content| && FoldByte(content[i]) == FoldByte(text[0])
    requires FoldsTo(content, i + 1, text[1..])
    ensures FoldsTo(content, i, text)
  {
    var w, rest := content[i..i + |text|], content[i + 1..i + |text|];
    assert i + 1 + |text[1..]| == i + |text|;
    forall k | 0 <= k < |text| ensures Fold(w)[k] == Fold(text)[k] {
      if k > 0 { assert Fold(rest)[k - 1] == Fold(text[1..])[k - 1]; }
    }
  }

  lemma {:induction false} VariantOfPlain(text: bytes, content: bytes, i: nat)
    requires Plain(text) && i <= |content| && VariantLength(text, content, i).Some?
    ensures VariantLength(text, content, i) == Some(|text|) && FoldsTo(content, i, text)
  {
    hide FoldsTo;
    if text == [] {
      assert FoldsTo(content, i, text) by { EmptyFolds(content, i); }
    } else {
      assert HasOneSpelling(text[0]);
      VariantOfPlain(text[1..], content, i + 1);
      FoldsToCons(text, content, i);
    }
  }

  lemma EmptyFolds(content: bytes, i: nat)
    requires i <= |content|
    ensures FoldsTo(content, i, [])
  {
  }

  // ---- the longest spelling has no trigram of the letters that are spelled out ----

  function LongSpelling(letter: u8): (r: bytes)
    ensures r != [] && Plain(r)
  {
    if FoldByte(letter) == LOWER_K then KELVIN_SIGN else if FoldByte(letter) == LOWER_S then LONG_S else [letter]
  }

  /** The text with every k and s spelled outside ASCII. */
  function LongForm(text: bytes): (r: bytes)
    ensures |text| <= |r|
    ensures Plain(r)
  {
    if text == [] then [] else LongSpelling(text[0]) + LongForm(text[1..])
  }

  lemma LongSpellingCounts(letter: u8, content: bytes, i: nat)
    requires OccursAt(LongSpelling(letter), content, i)
    ensures LetterLength(letter, content, i) == |LongSpelling(letter)|
  {
    var head := LongSpelling(letter);
    assert content[i..i + |head|][0] == content[i];
  }

  lemma {:induction false} LongFormIsVariant(text: bytes, content: bytes, i: nat)
    requires i <= |content| && content[i..] == LongForm(text)
    ensures VariantLength(text, content, i) == Some(|content| - i)
  {
    if text != [] {
      hide LongSpelling, LetterLength;
      var head, rest := LongSpelling(text[0]), LongForm(text[1..]);
      var tail := content[i..];
      assert tail == head + rest;
      assert content[i..i + |head|] == tail[..|head|] == head;
      LongSpellingCounts(text[0], content, i);
      assert content[i + |head|..] == tail[|head|..] == rest;
      LongFormIsVariant(text[1..], content, i + |head|);
    }
  }

  /** A trigram with a letter of two spellings does not occur in a plain content. */
  lemma PlainMisses(text: bytes, content: bytes, k: nat)
    requires Plain(content) && k < |text| && !HasOneSpelling(text[k]) && |text| >= 3
    ensures !(FoldedSet(text) <= FoldedSet(content))
  {
    var at := if k + 3 <= |text| then k else |text| - 3;
    var t := TrigramAt(text, at);
    assert FoldedTrigrams(text)[at] == t && t in FoldedSet(text);
    assert k == at || k == at + 1 || k == at + 2;
    forall j | 0 <= j < |FoldedTrigrams(content)| ensures FoldedTrigrams(content)[j] != t {
      assert HasOneSpelling(content[j]) && HasOneSpelling(content[j + 1]) && HasOneSpelling(content[j + 2]);
    }
  }

  /** Trigram lookup keeps every content that spells a text in any case exactly if the text has no k and no s. */
  lemma VariantsAdmittedExactly(text: bytes)
    requires |text| >= 3
    ensures (forall content :: HasVariant(text, content) ==> Admits(ExtractLiteral(text), FoldedSet(content)))
       <==> Plain(text)
  {
    hide FoldedSet, FoldsTo, HasOneSpelling;
    TextHasTrigrams(text);
    if Plain(text) {
      forall content | HasVariant(text, content) ensures FoldedSet(text) <= FoldedSet(content) {
        var i: nat :| i <= |content| && VariantLength(text, content, i).Some?;
        VariantOfPlain(text, content, i);
        OccurrenceHasTrigrams(text, content);
      }
    } else {
      var content := LongForm(text);
      assert content[0..] == content;
      LongFormIsVariant(text, content, 0);
      assert HasVariant(text, content);
      var k :| 0 <= k < |text| && !HasOneSpelling(text[k]);
      PlainMisses(text, content, k);
    }
  }

  lemma TextHasTrigrams(text: bytes)
    requires |text| >= 3
    ensures ExtractLiteral(text) == All(FoldedSet(text))
  {
    assert FoldedTrigrams(text)[0] in FoldedSet(text);
  }

  /** The condition under which the index is exact for such an engine: its matches differ by ASCII case only. */
  lemma AsciiFoldingExactly(engine: Engine, text: bytes)
    requires FoldsByUnicode(engine, text)
    ensures (forall content :: AsciiFolding(engine, text, content)) <==> Plain(text)
  {
    hide HasOneSpelling;
    if Plain(text) {
      forall content ensures AsciiFolding(engine, text, content) { PlainFolds(engine, text, content); }
    } else {
      var content := LongForm(text);
      assert content[0..] == content;
      LongFormIsVariant(text, content, 0);
      assert engine(Insensitive(text), content, 0) == VariantLength(text, content, 0);
      var k :| 0 <= k < |text| && !HasOneSpelling(text[k]);
      assert HasOneSpelling(content[k]);
      if FoldsTo(content, 0, text) { FoldedLetter(text, content, k); assert false; }
      assert !AsciiFolding(engine, text, content);
    }
  }

  lemma PlainFolds(engine: Engine, text: bytes, content: bytes)
    requires Plain(text) && (FoldsByUnicode(engine, text) || Refuses(engine, text))
    ensures AsciiFolding(engine, text, content)
  {
    hide Plain, FoldsTo;
    if FoldsByUnicode(engine, text) {
      forall i: nat | i <= |content| && engine(Insensitive(text), content, i).Some?
        ensures i + engine(Insensitive(text), content, i).value == i + |text| && FoldsTo(content, i, text)
      {
        assert engine(Insensitive(text), content, i) == VariantLength(text, content, i);
        VariantOfPlain(text, content, i);
      }
    }
  }

  lemma FoldedLetter(text: bytes, content: bytes, k: nat)
    requires FoldsTo(content, 0, text) && k < |text|
    ensures HasOneSpelling(content[k]) <==> HasOneSpelling(text[k])
  {
    assert Fold(content[0..0 + |text|])[k] == Fold(text)[k];
  }

  // ---- whole searches for one literal ----

  function OneFile(content: bytes, reader: Reader): Segment {
    Segment(0, [FileRecord([], content, Language(0), 0)], {}, reader)
  }

  lemma NotACandidate(segment: Segment, tq: TrigramQuery)
    requires |segment.files| == 1 && !Admits(tq, FoldedSet(segment.files[0].content))
    ensures CandidateIds(segment, tq) == []
  {
    hide FoldedSet, Admits;
    var all := AllFileIds(segment);
    assert all == [0] && all[1..] == [];
    assert !AdmittedKey(segment, tq)(0);
  }

  lemma Reported(env: Env, segment: Segment, query: Query, context: u32)
    requires |segment.files| == 1 && Accepts(env, segment, query, 0)
    ensures |BruteForce(env, segment, query, context)| == 1
  {
    hide Eval, Passes, CollectFilters, Attach, CountRanges;
    assert VerifyCandidate(env, segment, query, context, 0).Some?;
    hide VerifyCandidate;
    assert AllFileIds(segment) == [0];
    assert [0][1..] == [];
    assert FilterMap(env, segment, query, context, []) == [];
  }

  /** A file whose content the engine matches but the trigrams reject is reported by brute force only. */
  lemma RejectedIsLost(env: Env, segment: Segment, query: Query, context: u32)
    requires |segment.files| == 1 && segment.dead == {} && CollectFilters(query) == Filters({}, {})
    requires Holds(env.engine, query, segment.files[0].content)
    requires !Admits(Extract(query, env.regex), FoldedSet(segment.files[0].content))
    ensures Found(env, segment, query, context) == []
    ensures |BruteForce(env, segment, query, context)| == 1
  {
    hide Eval, Holds, Admits, FoldedSet, Extract, CollectFilters;
    EvalHomomorphism(env.engine, query, segment.files[0].content);
    NotACandidate(segment, Extract(query, env.regex));
    hide CandidateIds, BruteForce;
    Reported(env, segment, query, context);
  }

  /**
   * With an engine that folds case by Unicode, a case-insensitive literal is searched exactly, in every segment, if
   * and only if it is too short for trigrams or has no k and no s.
   */
  lemma LiteralSearchExactly(env: Env, text: bytes, context: u32)
    requires FoldsByUnicode(env.engine, text) && RegexBranches(env.regex)
    ensures (forall segment: Segment :: |segment.files| <= U32_MAX ==>
               Found(env, segment, Literal(text, false), context)
               == BruteForce(env, segment, Literal(text, false), context))
       <==> |text| < 3 || Plain(text)
  {
    hide Found, BruteForce, Plain, FoldsByUnicode, AsciiFolding, FoldedSet, CapSafe;
    var query := Literal(text, false);
    if |text| < 3 || Plain(text) {
      if Plain(text) { AsciiFoldingExactly(env.engine, text); }
      forall segment: Segment | |segment.files| <= U32_MAX
        ensures Found(env, segment, query, context) == BruteForce(env, segment, query, context)
      {
        LiteralCapSafe(env, text);
        FoundIs(env, segment, query, context);
        IndexedEqualsBruteForce(env, segment, query, context);
      }
    } else {
      UnicodeFoldingLosesFiles(env, text, Reader([], 0, 0, 0), context);
    }
  }

  lemma LiteralCapSafe(env: Env, text: bytes)
    ensures CapSafe(env, Literal(text, false))
  {
  }

  /** Any text of three bytes or more with a k or an s loses the file that spells it outside ASCII. */
  lemma UnicodeFoldingLosesFiles(env: Env, text: bytes, reader: Reader, context: u32)
    requires FoldsByUnicode(env.engine, text) && |text| >= 3 && !Plain(text)
    ensures var segment := OneFile(LongForm(text), reader);
      && Found(env, segment, Literal(text, false), context) == []
      && |BruteForce(env, segment, Literal(text, false), context)| == 1
  {
    hide Found, BruteForce, HasOneSpelling, FoldedSet;
    var content := LongForm(text);
    assert content[0..] == content;
    LongFormIsVariant(text, content, 0);
    assert env.engine(Insensitive(text), content, 0) == VariantLength(text, content, 0);
    assert Matches(env.engine, Insensitive(text), content);
    TextHasTrigrams(text);
    var k :| 0 <= k < |text| && !HasOneSpelling(text[k]);
    PlainMisses(text, content, k);
    RejectedIsLost(env, OneFile(content, reader), Literal(text, false), context);
  }
}
