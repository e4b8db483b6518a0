/** Matching one pattern against a content (ferret-core/src/verify.rs). */
module Verify {
  // The regex engine is a parameter: `Engine` says, for a pattern and a start offset, how long the match beginning there
  // is. A case-insensitive literal is one of its patterns, because the source compiles it to a regex. Contents are taken
  // to be valid UTF-8.

  import opened Base
  import opened Trigrams

  const NEWLINE: u8 := 0x0A
  const CARRIAGE_RETURN: u8 := 0x0D

  datatype Pattern =
    | Exact(text: bytes)
    | Insensitive(text: bytes)
    | RegexPattern(source: bytes, caseSensitive: bool)

  type Engine = (Pattern, bytes, nat) -> Option<nat>

  datatype Range = Range(start: nat, end: nat)

  datatype ContextLine = ContextLine(lineNumber: nat, content: bytes)

  datatype LineMatch = LineMatch(
    lineNumber: nat, content: bytes, ranges: seq<Range>, before: seq<ContextLine>, after: seq<ContextLine>)

  function LineKey(m: LineMatch): int { m.lineNumber }

  // ---- lines ----

  function Newlines(content: bytes): (r: seq<nat>)
    ensures forall i :: 0 <= i < |r| ==> r[i] < |content| && content[r[i]] == NEWLINE
    ensures forall i, j :: 0 <= i < j < |r| ==> r[i] < r[j]
    decreases |content|
  {
    if content == [] then []
    else
      var n := |content| - 1;
      var init := content[..n];
      Newlines(init) + if content[n] == NEWLINE then [n] else []
  }

  /** partition_point: how many newlines lie strictly before an offset. */
  function CountBefore(newlines: seq<nat>, offset: nat): (k: nat)
    ensures k <= |newlines|
  {
    if newlines == [] || newlines[0] >= offset then 0 else 1 + CountBefore(newlines[1..], offset)
  }

  lemma {:induction false} CountBeforeMonotone(newlines: seq<nat>, a: nat, b: nat)
    requires a <= b
    ensures CountBefore(newlines, a) <= CountBefore(newlines, b)
  {
    if newlines != [] && newlines[0] < a { CountBeforeMonotone(newlines[1..], a, b); }
  }

  /** 1-based line of a byte offset. */
  function LineAt(newlines: seq<nat>, offset: nat): nat { CountBefore(newlines, offset) + 1 }

  function LineStart(newlines: seq<nat>, line: nat): nat
    requires 1 <= line <= |newlines| + 1
  {
    if line == 1 then 0 else newlines[line - 2] + 1
  }

  lemma {:induction false} CountBeforeBound(newlines: seq<nat>, offset: nat)
    requires forall i, j :: 0 <= i < j < |newlines| ==> newlines[i] < newlines[j]
    ensures var k := CountBefore(newlines, offset);
            (forall i :: 0 <= i < k ==> newlines[i] < offset) && (k < |newlines| ==> offset <= newlines[k])
  {
    if newlines != [] && newlines[0] < offset {
      CountBeforeBound(newlines[1..], offset);
    }
  }

  function LineEnd(newlines: seq<nat>, size: nat, line: nat): nat
    requires 1 <= line <= |newlines| + 1
  {
    if line - 1 < |newlines| then newlines[line - 1] else size
  }

  function LineText(content: bytes, line: nat): bytes
    requires 1 <= line <= |Newlines(content)| + 1
  {
    var newlines := Newlines(content);
    LineBounds(content, line);
    Stripped(content[LineStart(newlines, line)..LineEnd(newlines, |content|, line)])
  }

  /** strip_suffix of a carriage return */
  function Stripped(text: bytes): bytes {
    if text != [] && text[|text| - 1] == CARRIAGE_RETURN then text[..|text| - 1] else text
  }

  lemma LineBounds(content: bytes, line: nat)
    requires 1 <= line <= |Newlines(content)| + 1
    ensures LineStart(Newlines(content), line) <= LineEnd(Newlines(content), |content|, line) <= |content|
  {
  }

  lemma {:induction false} NewlineListed(content: bytes, k: nat)
    requires k < |content|
    ensures content[k] == NEWLINE ==> k in Newlines(content)
    decreases |content|
  {
    if k < |content| - 1 { NewlineListed(content[..|content| - 1], k); }
  }

  /** The list holds the offsets of the newlines. */
  lemma NewlinesListed(content: bytes, k: nat)
    ensures k in Newlines(content) <==> k < |content| && content[k] == NEWLINE
  {
    if k < |content| { NewlineListed(content, k); }
  }

  lemma {:induction false} CountIs(newlines: seq<nat>, offset: nat, c: nat)
    requires forall i, j :: 0 <= i < j < |newlines| ==> newlines[i] < newlines[j]
    requires c <= |newlines| && (c > 0 ==> newlines[c - 1] < offset) && (c < |newlines| ==> offset <= newlines[c])
    ensures CountBefore(newlines, offset) == c
  {
    if c > 0 { CountIs(newlines[1..], offset, c - 1); }
  }

  lemma CountNext(newlines: seq<nat>, k: nat)
    requires forall i, j :: 0 <= i < j < |newlines| ==> newlines[i] < newlines[j]
    ensures CountBefore(newlines, 0) == 0
    ensures CountBefore(newlines, k + 1) == CountBefore(newlines, k) + if k in newlines then 1 else 0
  {
    CountBeforeBound(newlines, k);
    var c := CountBefore(newlines, k);
    CountIs(newlines, 0, 0);
    hide CountBefore;
    if k in newlines {
      var i :| 0 <= i < |newlines| && newlines[i] == k;
      assert i >= c;
      assert i > c ==> newlines[c] < newlines[i];
      CountIs(newlines, k + 1, c + 1);
    } else {
      CountIs(newlines, k + 1, c);
    }
  }

  /** The first byte is on line 1, and the line goes up by one behind each newline and nowhere else. */
  lemma LineSteps(content: bytes, k: nat)
    ensures LineAt(Newlines(content), 0) == 1
    ensures LineAt(Newlines(content), k + 1)
         == LineAt(Newlines(content), k) + if k < |content| && content[k] == NEWLINE then 1 else 0
  {
    NewlinesListed(content, k);
    hide Newlines, CountBefore;
    CountNext(Newlines(content), k);
  }

  // ---- occurrences ----

  predicate OccursAt(text: bytes, content: bytes, i: nat) {
    i + |text| <= |content| && content[i..i + |text|] == text
  }

  /** All occurrences from `from` on, overlapping ones included; none for the empty text. */
  function ExactRanges(text: bytes, content: bytes, from: nat): seq<Range>
    decreases |content| - from
  {
    if text == [] || from + |text| > |content| then []
    else if OccursAt(text, content, from) then [Range(from, from + |text|)] + ExactRanges(text, content, from + 1)
    else ExactRanges(text, content, from + 1)
  }

  /** memmem::find on content[from..], as an absolute offset. */
  function FindFirst(text: bytes, content: bytes, from: nat): (r: Option<nat>)
    ensures r.Some? ==> from <= r.value && OccursAt(text, content, r.value)
    decreases |content| - from
  {
    if from + |text| > |content| then None
    else if OccursAt(text, content, from) then Some(from)
    else FindFirst(text, content, from + 1)
  }

  lemma {:induction false} ExactRangesFrom(text: bytes, content: bytes, from: nat)
    requires text != []
    ensures ExactRanges(text, content, from) ==
      match FindFirst(text, content, from)
      case None => []
      case Some(i) => [Range(i, i + |text|)] + ExactRanges(text, content, i + 1)
    decreases |content| - from
  {
    hide OccursAt;
    if from + |text| <= |content| {
      if !OccursAt(text, content, from) { ExactRangesFrom(text, content, from + 1); }
    }
  }

  /** The scan of verify_literal: restart one byte after each hit, so overlapping occurrences are all found. */
  method ScanExact(text: bytes, content: bytes) returns (ranges: seq<Range>)
    ensures ranges == ExactRanges(text, content, 0)
  {
    hide OccursAt, ExactRanges, FindFirst;
    ranges := [];
    if text == [] {
      NoExactRanges(text, content);
      return;
    }
    var searchStart := 0;
    while searchStart + |text| <= |content|
      invariant ranges + ExactRanges(text, content, searchStart) == ExactRanges(text, content, 0)
      decreases |content| - searchStart
    {
      ExactRangesFrom(text, content, searchStart);
      var hit := FindFirst(text, content, searchStart);
      if hit.None? { return; }
      ranges := ranges + [Range(hit.value, hit.value + |text|)];
      searchStart := hit.value + 1;
    }
    ExactRangesPast(text, content, searchStart);
  }

  lemma ExactRangesPast(text: bytes, content: bytes, from: nat)
    requires from + |text| > |content|
    ensures ExactRanges(text, content, from) == []
  {
  }

  /**
   * Non-overlapping matches from left to right; an empty match is not reported where the previous match ended, and the
   * search then moves on by one byte.
   */
  function EngineRanges(engine: Engine, p: Pattern, content: bytes, from: nat, lastEnd: Option<nat>): seq<Range>
    decreases |content| + 1 - from
  {
    if from > |content| then []
    else
      match engine(p, content, from)
      case None => EngineRanges(engine, p, content, from + 1, lastEnd)
      case Some(n) =>
        if n == 0 then
          (if lastEnd == Some(from) then [] else [Range(from, from)])
          + EngineRanges(engine, p, content, from + 1, Some(from))
        else [Range(from, from + n)] + EngineRanges(engine, p, content, from + n, Some(from + n))
  }

  function Ranges(engine: Engine, p: Pattern, content: bytes): seq<Range> {
    match p
    case Exact(text) => ExactRanges(text, content, 0)
    case _ => EngineRanges(engine, p, content, 0, None)
  }

  ghost predicate StartsIncrease(rs: seq<Range>, from: nat) {
    && (forall i :: 0 <= i < |rs| ==> from <= rs[i].start)
    && (forall i, j :: 0 <= i < j < |rs| ==> rs[i].start < rs[j].start)
  }

  ghost predicate StartsInside(rs: seq<Range>, content: bytes) {
    forall i :: 0 <= i < |rs| ==> rs[i].start <= |content|
  }

  lemma StartsCons(r: Range, rest: seq<Range>, content: bytes, from: nat, next: nat)
    requires r.start == from < next && from <= |content|
    requires StartsIncrease(rest, next) && StartsInside(rest, content)
    ensures StartsIncrease([r] + rest, from) && StartsInside([r] + rest, content)
  {
  }

  lemma StartsWeaken(rs: seq<Range>, from: nat, next: nat)
    requires StartsIncrease(rs, next) && from <= next
    ensures StartsIncrease(rs, from)
  {
  }

  lemma StartsNone(content: bytes, from: nat)
    ensures StartsIncrease([], from) && StartsInside([], content)
  {
  }

  lemma {:induction false} ExactRangesIncrease(text: bytes, content: bytes, from: nat)
    ensures StartsIncrease(ExactRanges(text, content, from), from)
    ensures StartsInside(ExactRanges(text, content, from), content)
    decreases |content| - from
  {
    hide StartsIncrease, StartsInside, OccursAt;
    if text == [] || from + |text| > |content| {
      StartsNone(content, from);
    } else {
      ExactRangesIncrease(text, content, from + 1);
      var rest := ExactRanges(text, content, from + 1);
      StartsWeaken(rest, from, from + 1);
      StartsCons(Range(from, from + |text|), rest, content, from, from + 1);
    }
  }

  lemma {:induction false} EngineRangesIncrease(engine: Engine, p: Pattern, content: bytes, from: nat, lastEnd: Option<nat>)
    ensures StartsIncrease(EngineRanges(engine, p, content, from, lastEnd), from)
    ensures StartsInside(EngineRanges(engine, p, content, from, lastEnd), content)
    decreases |content| + 1 - from
  {
    hide StartsIncrease, StartsInside;
    if from > |content| {
      StartsNone(content, from);
    } else {
      var hit := engine(p, content, from);
      var next := if hit.None? || hit.value == 0 then from + 1 else from + hit.value;
      var end := if hit.None? then lastEnd else if hit.value == 0 then Some(from) else Some(next);
      EngineRangesIncrease(engine, p, content, next, end);
      var rest := EngineRanges(engine, p, content, next, end);
      StartsWeaken(rest, from, next);
      if hit.Some? {
        StartsCons(Range(from, from + hit.value), rest, content, from, next);
        assert [] + rest == rest;
      }
    }
  }

  /** The pattern matches somewhere; for a literal this is containment, empty texts never match exactly. */
  ghost predicate Matches(engine: Engine, p: Pattern, content: bytes) {
    match p
    case Exact(text) => text != [] && exists i: nat :: OccursAt(text, content, i)
    case _ => exists i: nat :: i <= |content| && engine(p, content, i).Some?
  }

  lemma {:induction false} ExactRangesFind(text: bytes, content: bytes, from: nat, i: nat)
    requires text != [] && from <= i && OccursAt(text, content, i)
    ensures ExactRanges(text, content, from) != []
    decreases i - from
  {
    if !OccursAt(text, content, from) { ExactRangesFind(text, content, from + 1, i); }
  }

  lemma {:induction false} ExactRangesSound(text: bytes, content: bytes, from: nat)
    requires ExactRanges(text, content, from) != []
    ensures exists i: nat :: OccursAt(text, content, i)
    decreases |content| - from
  {
    if !OccursAt(text, content, from) { ExactRangesSound(text, content, from + 1); }
  }

  lemma {:induction false} EngineRangesFind(engine: Engine, p: Pattern, content: bytes, from: nat, i: nat)
    requires from <= i <= |content| && engine(p, content, i).Some?
    ensures EngineRanges(engine, p, content, from, None) != []
    decreases i - from
  {
    if engine(p, content, from).None? { EngineRangesFind(engine, p, content, from + 1, i); }
  }

  lemma {:induction false} EngineRangesSound(engine: Engine, p: Pattern, content: bytes, from: nat, lastEnd: Option<nat>)
    requires EngineRanges(engine, p, content, from, lastEnd) != []
    ensures exists i: nat :: i <= |content| && engine(p, content, i).Some?
    decreases |content| + 1 - from
  {
    if engine(p, content, from).None? {
      EngineRangesSound(engine, p, content, from + 1, lastEnd);
    }
  }

  lemma RangesFound(engine: Engine, p: Pattern, content: bytes)
    ensures Ranges(engine, p, content) != [] <==> Matches(engine, p, content)
    ensures StartsIncrease(Ranges(engine, p, content), 0)
    ensures StartsInside(Ranges(engine, p, content), content)
  {
    hide ExactRanges, EngineRanges, OccursAt;
    match p
    case Exact(text) =>
      ExactRangesIncrease(text, content, 0);
      if text == [] { NoExactRanges(text, content); }
      else if exists i: nat :: OccursAt(text, content, i) {
        var i: nat :| OccursAt(text, content, i);
        ExactRangesFind(text, content, 0, i);
      }
      if ExactRanges(text, content, 0) != [] { ExactRangesSound(text, content, 0); }
    case _ =>
      EngineRangesIncrease(engine, p, content, 0, None);
      if exists i: nat :: i <= |content| && engine(p, content, i).Some? {
        var i: nat :| i <= |content| && engine(p, content, i).Some?;
        EngineRangesFind(engine, p, content, 0, i);
      }
      if EngineRanges(engine, p, content, 0, None) != [] { EngineRangesSound(engine, p, content, 0, None); }
  }

  lemma NoExactRanges(text: bytes, content: bytes)
    requires text == []
    ensures ExactRanges(text, content, 0) == []
  {
  }

  // ---- grouping by line ----

  ghost predicate RangesWithin(rs: seq<Range>, content: bytes) {
    forall i :: 0 <= i < |rs| ==> rs[i].start <= rs[i].end && rs[i].start <= |content|
  }

  lemma LineStartBefore(content: bytes, offset: nat)
    ensures 1 <= LineAt(Newlines(content), offset) <= |Newlines(content)| + 1
    ensures LineStart(Newlines(content), LineAt(Newlines(content), offset)) <= offset
  {
    CountBeforeBound(Newlines(content), offset);
  }

  /** One match of one line: its range relative to the start of the line. */
  function Relative(content: bytes, r: Range): Range
    requires r.start <= r.end
  {
    LineStartBefore(content, r.start);
    var base := LineStart(Newlines(content), LineAt(Newlines(content), r.start));
    Range(r.start - base, r.end - base)
  }

  /** Add one match to the entry of its line: the last entry if the line is the same, else a new one. */
  function AddMatch(g: seq<LineMatch>, line: nat, text: bytes, r: Range): seq<LineMatch> {
    if g != [] && g[|g| - 1].lineNumber == line then
      g[..|g| - 1] + [g[|g| - 1].(ranges := g[|g| - 1].ranges + [r])]
    else g + [LineMatch(line, text, [r], [], [])]
  }

  /** Matches collected per line. The source keys a BTreeMap by line; matches arrive in order, so lines do too. */
  function GroupByLine(content: bytes, rs: seq<Range>): (g: seq<LineMatch>)
    requires RangesWithin(rs, content)
    decreases |rs|
  {
    if rs == [] then []
    else
      var r := rs[|rs| - 1];
      var line := LineAt(Newlines(content), r.start);
      LineStartBefore(content, r.start);
      AddMatch(GroupByLine(content, rs[..|rs| - 1]), line, LineText(content, line), Relative(content, r))
  }

  /** ContentVerifier::verify */
  function VerifyContent(engine: Engine, p: Pattern, content: bytes): seq<LineMatch>
    requires RangesWithin(Ranges(engine, p, content), content)
  {
    if content == [] then [] else GroupByLine(content, Ranges(engine, p, content))
  }

  function Numbers(lines: seq<LineMatch>): (r: seq<nat>)
    ensures |r| == |lines| && forall i :: 0 <= i < |lines| ==> r[i] == lines[i].lineNumber
  {
    seq(|lines|, i requires 0 <= i < |lines| => lines[i].lineNumber)
  }

  lemma AddMatchNumbers(g: seq<LineMatch>, line: nat, text: bytes, r: Range)
    ensures Numbers(AddMatch(g, line, text, r))
         == if g != [] && Numbers(g)[|g| - 1] == line then Numbers(g) else Numbers(g) + [line]
  {
  }

  /**
   * The lines of the groups are strictly increasing, they are exactly the lines on which a match starts, and the last
   * one is the line of the last match.
   */
  lemma {:induction false} GroupByLineNumbers(content: bytes, rs: seq<Range>, from: nat)
    requires RangesWithin(rs, content) && StartsIncrease(rs, from)
    ensures Increasing(Numbers(GroupByLine(content, rs)))
    ensures rs == [] <==> GroupByLine(content, rs) == []
    ensures rs != [] ==> (var n := Numbers(GroupByLine(content, rs));
                          n[|n| - 1] == LineAt(Newlines(content), rs[|rs| - 1].start))
    ensures forall line :: line in Numbers(GroupByLine(content, rs)) <==> StartsOn(content, rs, line)
    decreases |rs|
  {
    if rs == [] {
    } else {
      hide GroupByLine, Newlines, LineAt, AddMatch, Relative, LineText, StartsOn, Increasing;
      var init, r := rs[..|rs| - 1], rs[|rs| - 1];
      GroupByLineNumbers(content, init, from);
      var g, line := GroupByLine(content, init), LineAt(Newlines(content), r.start);
      GroupByLineStep(content, rs);
      if init != [] {
        LineAtMonotone(content, init[|init| - 1].start, r.start);
      }
      forall x ensures StartsOn(content, rs, x) <==> StartsOn(content, init, x) || x == line {
        StartsOnStep(content, rs, x);
      }
      var n := Numbers(g);
      AppendNumber(n, line);
    }
  }

  lemma AppendNumber(n: seq<nat>, line: nat)
    requires Increasing(n) && (n != [] ==> n[|n| - 1] <= line)
    ensures var n' := if n != [] && n[|n| - 1] == line then n else n + [line];
            Increasing(n') && n'[|n'| - 1] == line && forall x :: x in n' <==> x in n || x == line
  {
    assert n != [] ==> n[|n| - 1] in n;
  }

  ghost predicate StartsOn(content: bytes, rs: seq<Range>, line: nat) {
    exists i :: 0 <= i < |rs| && LineAt(Newlines(content), rs[i].start) == line
  }

  lemma StartsOnStep(content: bytes, rs: seq<Range>, line: nat)
    requires rs != []
    ensures StartsOn(content, rs, line)
       <==> StartsOn(content, rs[..|rs| - 1], line) || LineAt(Newlines(content), rs[|rs| - 1].start) == line
  {
    hide Newlines, LineAt;
    var init := rs[..|rs| - 1];
    if StartsOn(content, rs, line) {
      var i :| 0 <= i < |rs| && LineAt(Newlines(content), rs[i].start) == line;
      if i < |init| { assert init[i] == rs[i]; }
    }
    if StartsOn(content, init, line) {
      var i :| 0 <= i < |init| && LineAt(Newlines(content), init[i].start) == line;
      assert rs[i] == init[i];
    }
  }

  lemma LineAtMonotone(content: bytes, a: nat, b: nat)
    requires a <= b
    ensures LineAt(Newlines(content), a) <= LineAt(Newlines(content), b)
  {
    CountBeforeMonotone(Newlines(content), a, b);
  }

  lemma GroupByLineStep(content: bytes, rs: seq<Range>)
    requires rs != [] && RangesWithin(rs, content)
    ensures var n, n' := Numbers(GroupByLine(content, rs[..|rs| - 1])), Numbers(GroupByLine(content, rs));
            var line := LineAt(Newlines(content), rs[|rs| - 1].start);
            n' == if n != [] && n[|n| - 1] == line then n else n + [line]
  {
    hide AddMatch, Newlines, LineAt;
    var r := rs[|rs| - 1];
    var line := LineAt(Newlines(content), r.start);
    LineStartBefore(content, r.start);
    AddMatchNumbers(GroupByLine(content, rs[..|rs| - 1]), line, LineText(content, line), Relative(content, r));
  }

  lemma RangesInside(engine: Engine, p: Pattern, content: bytes)
    ensures RangesWithin(Ranges(engine, p, content), content)
  {
    RangesFound(engine, p, content);
    match p
    case Exact(text) => ExactRangesOrdered(text, content, 0);
    case _ => EngineRangesOrdered(engine, p, content, 0, None);
  }

  lemma {:induction false} ExactRangesOrdered(text: bytes, content: bytes, from: nat)
    ensures forall r :: r in ExactRanges(text, content, from) ==> r.start <= r.end
    decreases |content| - from
  {
    if !(text == [] || from + |text| > |content|) { ExactRangesOrdered(text, content, from + 1); }
  }

  lemma {:induction false} EngineRangesOrdered(engine: Engine, p: Pattern, content: bytes, from: nat, lastEnd: Option<nat>)
    ensures forall r :: r in EngineRanges(engine, p, content, from, lastEnd) ==> r.start <= r.end
    decreases |content| + 1 - from
  {
    if from <= |content| {
      match engine(p, content, from)
      case None => EngineRangesOrdered(engine, p, content, from + 1, lastEnd);
      case Some(n) =>
        if n == 0 { EngineRangesOrdered(engine, p, content, from + 1, Some(from)); }
        else { EngineRangesOrdered(engine, p, content, from + n, Some(from + n)); }
    }
  }

  /**
   * verify reports something exactly when the pattern matches a nonempty content, with strictly increasing line
   * numbers: exactly the lines on which a match starts.
   */
  lemma VerifyExact(engine: Engine, p: Pattern, content: bytes)
    ensures RangesWithin(Ranges(engine, p, content), content)
    ensures VerifyContent(engine, p, content) != [] <==> content != [] && Matches(engine, p, content)
    ensures Increasing(Numbers(VerifyContent(engine, p, content)))
    ensures content != [] ==> forall line ::
      line in Numbers(VerifyContent(engine, p, content)) <==> StartsOn(content, Ranges(engine, p, content), line)
  {
    hide Ranges, Matches, GroupByLine, StartsOn;
    RangesInside(engine, p, content);
    RangesFound(engine, p, content);
    GroupByLineNumbers(content, Ranges(engine, p, content), 0);
  }

  // ---- what is reported of a line ----

  /** The columns of the matches that start on a line, in order. */
  function Columns(content: bytes, rs: seq<Range>, line: nat): seq<Range>
    requires RangesWithin(rs, content)
    decreases |rs|
  {
    if rs == [] then []
    else
      var r := rs[|rs| - 1];
      Columns(content, rs[..|rs| - 1], line)
      + if LineAt(Newlines(content), r.start) == line then [Relative(content, r)] else []
  }

  /** The entry of a line: its text and the columns of all its matches. */
  ghost predicate Entry(content: bytes, rs: seq<Range>, m: LineMatch)
    requires RangesWithin(rs, content)
  {
    && 1 <= m.lineNumber <= |Newlines(content)| + 1
    && m.content == LineText(content, m.lineNumber)
    && m.ranges == Columns(content, rs, m.lineNumber)
  }

  ghost predicate Entries(content: bytes, rs: seq<Range>, g: seq<LineMatch>)
    requires RangesWithin(rs, content)
  {
    forall i :: 0 <= i < |g| ==> Entry(content, rs, g[i])
  }

  lemma {:induction false} NoColumns(content: bytes, rs: seq<Range>, line: nat)
    requires RangesWithin(rs, content) && !StartsOn(content, rs, line)
    ensures Columns(content, rs, line) == []
    decreases |rs|
  {
    if rs != [] {
      hide Newlines, LineAt, Relative, StartsOn;
      StartsOnStep(content, rs, line);
      NoColumns(content, rs[..|rs| - 1], line);
    }
  }

  /** One match added to the entries of those before it. */
  lemma AddEntry(content: bytes, rs: seq<Range>, g: seq<LineMatch>)
    requires rs != [] && RangesWithin(rs, content) && Entries(content, rs[..|rs| - 1], g)
    requires Increasing(Numbers(g))
    requires forall line :: line in Numbers(g) <==> StartsOn(content, rs[..|rs| - 1], line)
    requires var line := LineAt(Newlines(content), rs[|rs| - 1].start);
      1 <= line <= |Newlines(content)| + 1 && (g != [] ==> g[|g| - 1].lineNumber <= line)
    ensures var r := rs[|rs| - 1];
      var line := LineAt(Newlines(content), r.start);
      Entries(content, rs, AddMatch(g, line, LineText(content, line), Relative(content, r)))
  {
    hide Newlines, LineAt, LineText, Relative, StartsOn;
    var r := rs[|rs| - 1];
    var line := LineAt(Newlines(content), r.start);
    var g' := AddMatch(g, line, LineText(content, line), Relative(content, r));
    var n := Numbers(g);
    assert line !in n ==> Columns(content, rs[..|rs| - 1], line) == [] by {
      if line !in n { NoColumns(content, rs[..|rs| - 1], line); }
    }
    forall i | 0 <= i < |g'| ensures Entry(content, rs, g'[i]) {
      if i < |g| {
        assert n[i] == g[i].lineNumber && Entry(content, rs[..|rs| - 1], g[i]);
        if i < |g| - 1 { assert n[i] < n[|g| - 1]; }
      } else {
        assert line !in n by { BelowLast(n, line); }
        assert [] + [Relative(content, r)] == [Relative(content, r)];
      }
    }
  }

  lemma BelowLast(n: seq<nat>, line: nat)
    requires Increasing(n) && (n != [] ==> n[|n| - 1] < line)
    ensures line !in n
  {
  }

  lemma {:induction false} GroupEntries(content: bytes, rs: seq<Range>, from: nat)
    requires RangesWithin(rs, content) && StartsIncrease(rs, from)
    ensures Entries(content, rs, GroupByLine(content, rs))
    decreases |rs|
  {
    if rs != [] {
      hide Newlines, LineAt, AddMatch, Relative, LineText, StartsOn, Increasing, Entries;
      var init, r := rs[..|rs| - 1], rs[|rs| - 1];
      GroupEntries(content, init, from);
      GroupByLineNumbers(content, init, from);
      LineStartBefore(content, r.start);
      var g := GroupByLine(content, init);
      if init != [] {
        LineAtMonotone(content, init[|init| - 1].start, r.start);
        assert Numbers(g)[|g| - 1] == g[|g| - 1].lineNumber;
      }
      AddEntry(content, rs, g);
    } else {
      NoEntries(content, rs);
    }
  }

  lemma NoEntries(content: bytes, rs: seq<Range>)
    requires rs == [] && RangesWithin(rs, content)
    ensures Entries(content, rs, GroupByLine(content, rs))
  {
  }

  /** Every reported line comes with its own text and with the columns of all matches that start on it. */
  lemma VerifyEntries(engine: Engine, p: Pattern, content: bytes)
    ensures RangesWithin(Ranges(engine, p, content), content)
    ensures Entries(content, Ranges(engine, p, content), VerifyContent(engine, p, content))
  {
    hide Ranges, GroupByLine, Entry, StartsIncrease;
    RangesInside(engine, p, content);
    RangesFound(engine, p, content);
    GroupEntries(content, Ranges(engine, p, content), 0);
  }

  /** A line stops at the end of the content or a newline, or at the carriage return in front of either. */
  predicate LineStopsAt(content: bytes, text: bytes, k: nat) {
    k <= |content| &&
    ((k < |content| && content[k] == CARRIAGE_RETURN && StopsHere(content, k + 1))
     || (StopsHere(content, k) && (text != [] ==> text[|text| - 1] != CARRIAGE_RETURN)))
  }

  predicate StopsHere(content: bytes, k: nat) {
    k == |content| || (k < |content| && content[k] == NEWLINE)
  }

  /** No newline stands between the start and the end of a line. */
  lemma NoNewlineInside(content: bytes, line: nat, k: nat)
    requires 1 <= line <= |Newlines(content)| + 1
    requires LineStart(Newlines(content), line) <= k < LineEnd(Newlines(content), |content|, line) <= |content|
    ensures content[k] != NEWLINE
  {
    NewlineListed(content, k);
    hide Newlines;
  }

  lemma LineStandsBetween(content: bytes, line: nat)
    requires 1 <= line <= |Newlines(content)| + 1
    ensures var start, end := LineStart(Newlines(content), line), LineEnd(Newlines(content), |content|, line);
      && start <= end <= |content| && StopsHere(content, end)
      && (start > 0 ==> content[start - 1] == NEWLINE)
      && forall k :: start <= k < end ==> content[k] != NEWLINE
  {
    LineBounds(content, line);
    var start, end := LineStart(Newlines(content), line), LineEnd(Newlines(content), |content|, line);
    forall k | start <= k < end ensures content[k] != NEWLINE { NoNewlineInside(content, line, k); }
  }

  lemma StrippedIs(content: bytes, start: nat, end: nat)
    requires start <= end <= |content| && StopsHere(content, end)
    ensures var text := Stripped(content[start..end]);
      start + |text| <= end && text == content[start..start + |text|] && LineStopsAt(content, text, start + |text|)
  {
    var raw := content[start..end];
    var text := Stripped(raw);
    assert text == raw[..|text|];
    SubSlice(content, start, end, 0, |text|);
    if text != raw { assert raw[|text|] == content[start + |text|]; }
  }

  /** A text that starts after a newline and stops before the next one, a carriage return before it left out. */
  ghost predicate IsLineText(content: bytes, start: nat, text: bytes) {
    && start + |text| <= |content| && text == content[start..start + |text|]
    && NEWLINE !in text
    && (start > 0 ==> content[start - 1] == NEWLINE)
    && LineStopsAt(content, text, start + |text|)
  }

  lemma BetweenNewlines(content: bytes, start: nat, end: nat)
    requires start <= end <= |content| && StopsHere(content, end)
    requires start > 0 ==> content[start - 1] == NEWLINE
    requires forall k :: start <= k < end ==> content[k] != NEWLINE
    ensures IsLineText(content, start, Stripped(content[start..end]))
  {
    hide Stripped, LineStopsAt, StopsHere;
    StrippedIs(content, start, end);
  }

  /** The text of a line is what stands between two newlines, without a carriage return at its end. */
  lemma LineTextIs(content: bytes, line: nat)
    requires 1 <= line <= |Newlines(content)| + 1
    ensures IsLineText(content, LineStart(Newlines(content), line), LineText(content, line))
  {
    hide IsLineText, Stripped, StopsHere;
    LineStandsBetween(content, line);
    BetweenNewlines(content, LineStart(Newlines(content), line), LineEnd(Newlines(content), |content|, line));
  }

  /** The columns point into the text of the line at what was matched, as far as the match stays on the line. */
  lemma ColumnsPoint(content: bytes, r: Range)
    requires r.start <= r.end && r.start <= |content|
    ensures var line := LineAt(Newlines(content), r.start);
      var c, start := Relative(content, r), LineStart(Newlines(content), line);
      && 1 <= line <= |Newlines(content)| + 1
      && start + c.start == r.start && start + c.end == r.end
      && (c.end <= |LineText(content, line)| ==>
            r.end <= |content| && LineText(content, line)[c.start..c.end] == content[r.start..r.end])
  {
    hide LineText, Newlines, LineAt;
    LineStartBefore(content, r.start);
    var line := LineAt(Newlines(content), r.start);
    LineTextIs(content, line);
    var c, start, text := Relative(content, r), LineStart(Newlines(content), line), LineText(content, line);
    if c.end <= |text| { SubSlice(content, start, start + |text|, c.start, c.end); }
  }

  // ---- which matches are reported ----

  /** A reported match hides the ones that start inside it, and an empty one at its end. */
  predicate Hides(r: Range, i: nat, n: nat) {
    r.start < i && (i < r.end || (n == 0 && i == r.end))
  }

  ghost predicate Hidden(rs: seq<Range>, i: nat, n: nat) {
    exists k :: 0 <= k < |rs| && Hides(rs[k], i, n)
  }

  /** The engine finds a match of length `n` at `i`. */
  predicate EngineMatch(engine: Engine, p: Pattern, content: bytes, i: nat, n: nat) {
    i <= |content| && engine(p, content, i) == Some(n)
  }

  ghost predicate Disjoint(rs: seq<Range>) {
    && (forall i :: 0 <= i < |rs| ==> rs[i].start <= rs[i].end)
    && (forall i, j :: 0 <= i < j < |rs| ==> rs[i].end <= rs[j].start && rs[i].start < rs[j].start)
  }

  ghost predicate AllFrom(rs: seq<Range>, from: nat) {
    forall i :: 0 <= i < |rs| ==> from <= rs[i].start
  }

  /** From left to right, without overlap, exactly the engine's matches that no reported one hides. */
  ghost predicate IsScan(engine: Engine, p: Pattern, content: bytes, rs: seq<Range>) {
    && Disjoint(rs)
    && forall i: nat, n: nat :: Range(i, i + n) in rs <==> EngineMatch(engine, p, content, i, n) && !Hidden(rs, i, n)
  }

  lemma HiddenCons(r: Range, rest: seq<Range>, i: nat, n: nat)
    ensures Hidden([r] + rest, i, n) <==> Hides(r, i, n) || Hidden(rest, i, n)
  {
    var rs := [r] + rest;
    if Hides(r, i, n) { assert Hides(rs[0], i, n); }
    if Hidden(rest, i, n) {
      var k :| 0 <= k < |rest| && Hides(rest[k], i, n);
      assert Hides(rs[k + 1], i, n);
    }
    if Hidden(rs, i, n) {
      var k :| 0 <= k < |rs| && Hides(rs[k], i, n);
      if k > 0 { assert Hides(rest[k - 1], i, n); }
    }
  }

  lemma DisjointCons(r: Range, rest: seq<Range>, from: nat, next: nat)
    requires from == r.start <= r.end <= next && from < next && Disjoint(rest) && AllFrom(rest, next)
    ensures Disjoint([r] + rest) && AllFrom([r] + rest, from)
  {
  }

  lemma NothingBefore(rs: seq<Range>, from: nat, i: nat, n: nat)
    requires AllFrom(rs, from) && i <= from
    ensures i < from ==> Range(i, i + n) !in rs
    ensures !Hidden(rs, i, n)
  {
  }

  /** One step of the scan, for one position and length. */
  ghost predicate ScanStep(
      engine: Engine, p: Pattern, content: bytes, from: nat, lastEnd: Option<nat>, rs: seq<Range>, i: nat, n: nat)
  {
    i >= from ==>
      (Range(i, i + n) in rs <==>
         EngineMatch(engine, p, content, i, n) && !Hidden(rs, i, n) && !(n == 0 && lastEnd == Some(i)))
  }

  /** Nothing is reported at from. */
  lemma StepSkipped(
      engine: Engine, p: Pattern, content: bytes, from: nat, lastEnd: Option<nat>, end: Option<nat>, rs: seq<Range>,
      i: nat, n: nat)
    requires from <= |content| && (lastEnd.Some? ==> lastEnd.value <= from)
    requires var hit := engine(p, content, from);
      if hit.None? then end == lastEnd else hit == Some(0) && lastEnd == end == Some(from)
    requires AllFrom(rs, from + 1) && ScanStep(engine, p, content, from + 1, end, rs, i, n)
    ensures ScanStep(engine, p, content, from, lastEnd, rs, i, n)
  {
    if i <= from + 1 { NothingBefore(rs, from + 1, i, n); }
  }

  /** The match at from is reported. */
  lemma StepReported(
      engine: Engine, p: Pattern, content: bytes, from: nat, lastEnd: Option<nat>, m: nat, rest: seq<Range>,
      i: nat, n: nat)
    requires from <= |content| && (lastEnd.Some? ==> lastEnd.value <= from)
    requires engine(p, content, from) == Some(m) && !(m == 0 && lastEnd == Some(from))
    requires AllFrom(rest, if m == 0 then from + 1 else from + m)
    requires ScanStep(engine, p, content, if m == 0 then from + 1 else from + m, Some(from + m), rest, i, n)
    ensures ScanStep(engine, p, content, from, lastEnd, [Range(from, from + m)] + rest, i, n)
  {
    hide Hidden;
    HiddenCons(Range(from, from + m), rest, i, n);
    var next := if m == 0 then from + 1 else from + m;
    if i <= next { NothingBefore(rest, next, i, n); }
  }

  lemma {:induction false} ScanFrom(engine: Engine, p: Pattern, content: bytes, from: nat, lastEnd: Option<nat>)
    requires lastEnd.Some? ==> lastEnd.value <= from
    ensures var rs := EngineRanges(engine, p, content, from, lastEnd);
      && Disjoint(rs) && AllFrom(rs, from)
      && forall i: nat, n: nat :: ScanStep(engine, p, content, from, lastEnd, rs, i, n)
    decreases |content| + 1 - from
  {
    hide Disjoint, AllFrom, Hidden, ScanStep;
    if from > |content| {
      PastTheEnd(engine, p, content, from, lastEnd);
    } else {
      var hit := engine(p, content, from);
      var next := if hit.None? || hit.value == 0 then from + 1 else from + hit.value;
      var end := if hit.None? then lastEnd else if hit.value == 0 then Some(from) else Some(next);
      ScanFrom(engine, p, content, next, end);
      var rest, rs := EngineRanges(engine, p, content, next, end), EngineRanges(engine, p, content, from, lastEnd);
      if hit.Some? && !(hit.value == 0 && lastEnd == Some(from)) {
        var r := Range(from, from + hit.value);
        assert rs == [r] + rest;
        DisjointCons(r, rest, from, next);
        forall i: nat, n: nat ensures ScanStep(engine, p, content, from, lastEnd, rs, i, n) {
          StepReported(engine, p, content, from, lastEnd, hit.value, rest, i, n);
        }
      } else {
        assert [] + rest == rest;
        LaterFrom(rest, from, next);
        forall i: nat, n: nat ensures ScanStep(engine, p, content, from, lastEnd, rs, i, n) {
          StepSkipped(engine, p, content, from, lastEnd, end, rest, i, n);
        }
      }
    }
  }

  lemma PastTheEnd(engine: Engine, p: Pattern, content: bytes, from: nat, lastEnd: Option<nat>)
    requires from > |content|
    ensures Disjoint([]) && AllFrom([], from)
    ensures forall i: nat, n: nat :: ScanStep(engine, p, content, from, lastEnd, [], i, n)
  {
  }

  lemma LaterFrom(rs: seq<Range>, from: nat, next: nat)
    requires AllFrom(rs, next) && from <= next
    ensures AllFrom(rs, from)
  {
  }

  /** Exactly which matches find_iter reports. */
  lemma EngineScan(engine: Engine, p: Pattern, content: bytes)
    ensures IsScan(engine, p, content, EngineRanges(engine, p, content, 0, None))
  {
    hide EngineRanges, Disjoint, Hidden;
    ScanFrom(engine, p, content, 0, None);
    var rs := EngineRanges(engine, p, content, 0, None);
    forall i: nat, n: nat
      ensures Range(i, i + n) in rs <==> EngineMatch(engine, p, content, i, n) && !Hidden(rs, i, n)
    {
      assert ScanStep(engine, p, content, 0, None, rs, i, n);
    }
  }

  /** There is only one such list. */
  lemma {:induction false} ScanUnique(engine: Engine, p: Pattern, content: bytes, a: seq<Range>, b: seq<Range>, k: nat)
    requires IsScan(engine, p, content, a) && IsScan(engine, p, content, b) && k <= |a|
    ensures k <= |b| && a[..k] == b[..k]
  {
    if k > 0 {
      ScanUnique(engine, p, content, a, b, k - 1);
      NextOfScan(engine, p, content, a, b, k - 1);
      assert a[..k] == a[..k - 1] + [a[k - 1]] && b[..k] == b[..k - 1] + [b[k - 1]];
    }
  }

  /** After a common beginning, the next range of one scan is in the other, and nothing can stand before it. */
  lemma NextOfScan(engine: Engine, p: Pattern, content: bytes, a: seq<Range>, b: seq<Range>, k: nat)
    requires IsScan(engine, p, content, a) && IsScan(engine, p, content, b)
    requires k < |a| && k <= |b| && a[..k] == b[..k]
    ensures k < |b| && a[k] == b[k]
  {
    SamePrefix(a, b, k);
    var r := a[k];
    var i, n := r.start, r.end - r.start;
    assert Range(i, i + n) == r && r in a;
    assert EngineMatch(engine, p, content, i, n) && !Hidden(a, i, n);
    if k < |b| && b[k].start < i {
      EarlierInScan(engine, p, content, b, a, k);
    } else if k < |b| && b[k].start == i {
      assert b[k] in b && Range(i, i + (b[k].end - i)) == b[k];
    } else {
      NotHiddenBehind(b, k, i, n, a);
    }
  }

  /** A range of `b` cannot stand before the next one of `a`: `a` would have reported it. */
  lemma EarlierInScan(engine: Engine, p: Pattern, content: bytes, b: seq<Range>, a: seq<Range>, k: nat)
    requires IsScan(engine, p, content, a) && IsScan(engine, p, content, b)
    requires k < |a| && k < |b| && a[..k] == b[..k]
    ensures b[k].start >= a[k].start
  {
    SamePrefix(a, b, k);
    var q := b[k];
    var i, n := q.start, q.end - q.start;
    assert Range(i, i + n) == q && q in b;
    if i < a[k].start {
      NotHiddenBehind(a, k, i, n, b);
      assert q in a;
      var j :| 0 <= j < |a| && a[j] == q;
      assert false;
    }
  }

  lemma SamePrefix(a: seq<Range>, b: seq<Range>, k: nat)
    requires k <= |a| && k <= |b| && a[..k] == b[..k]
    ensures forall j :: 0 <= j < k ==> a[j] == b[j]
  {
    forall j | 0 <= j < k ensures a[j] == b[j] { assert a[..k][j] == b[..k][j]; }
  }

  /** What the common beginning does not hide, and the rest starts no earlier, is not hidden. */
  lemma NotHiddenBehind(rs: seq<Range>, k: nat, i: nat, n: nat, other: seq<Range>)
    requires k <= |rs| && k <= |other| && rs[..k] == other[..k] && Disjoint(rs)
    requires k < |rs| ==> i <= rs[k].start
    requires !Hidden(other, i, n)
    ensures !Hidden(rs, i, n)
  {
    forall j | 0 <= j < |rs| ensures !Hides(rs[j], i, n) {
      if j < k { assert rs[j] == rs[..k][j] == other[..k][j] == other[j]; }
      else if j > k { assert rs[k].start < rs[j].start; }
    }
  }

  /** Exactly the occurrences are reported for an exact text, overlapping ones included. */
  lemma {:induction false} ExactScan(text: bytes, content: bytes, from: nat)
    ensures forall r :: r in ExactRanges(text, content, from) <==>
      text != [] && from <= r.start && r.end == r.start + |text| && OccursAt(text, content, r.start)
    decreases |content| - from
  {
    hide OccursAt;
    if text != [] && from + |text| <= |content| {
      ExactScan(text, content, from + 1);
    } else if text != [] {
      OccursInside(text, content);
    }
  }

  lemma OccursInside(text: bytes, content: bytes)
    ensures forall i: nat :: OccursAt(text, content, i) ==> i + |text| <= |content|
  {
  }

  /** A match of the pattern at `i`: an occurrence of an exact text, or a match the engine finds. */
  ghost predicate MatchAt(engine: Engine, p: Pattern, content: bytes, i: nat, n: nat) {
    match p
    case Exact(text) => text != [] && n == |text| && i + n <= |content| && content[i..i + n] == text
    case _ => EngineMatch(engine, p, content, i, n)
  }

  /** What verify reports for a pattern: all occurrences of an exact text, the scan of the engine's matches otherwise. */
  lemma RangesExactly(engine: Engine, p: Pattern, content: bytes)
    ensures match p
      case Exact(_) =>
        forall i: nat, n: nat :: Range(i, i + n) in Ranges(engine, p, content) <==> MatchAt(engine, p, content, i, n)
      case _ => IsScan(engine, p, content, Ranges(engine, p, content))
  {
    hide EngineRanges, ExactRanges;
    match p
    case Exact(text) => ExactScan(text, content, 0);
    case _ => EngineScan(engine, p, content);
  }

  // ---- which lines are reported ----

  /** No match runs past the end of its line. */
  ghost predicate StaysOnLines(engine: Engine, p: Pattern, content: bytes) {
    forall i: nat, n: nat :: MatchAt(engine, p, content, i, n) ==>
      LineAt(Newlines(content), i + n) == LineAt(Newlines(content), i)
  }

  /** A match starts on the line. */
  ghost predicate MatchOn(engine: Engine, p: Pattern, content: bytes, line: nat) {
    exists i: nat, n: nat :: MatchAt(engine, p, content, i, n) && LineAt(Newlines(content), i) == line
  }

  lemma ReportedIsMatch(engine: Engine, p: Pattern, content: bytes, r: Range)
    requires r in Ranges(engine, p, content)
    ensures r.start <= r.end && MatchAt(engine, p, content, r.start, r.end - r.start)
  {
    hide EngineRanges, ExactRanges, Hidden;
    RangesExactly(engine, p, content);
    match p
    case Exact(text) => ExactScan(text, content, 0);
    case _ =>
      var rs := Ranges(engine, p, content);
      var k :| 0 <= k < |rs| && rs[k] == r;
      assert Range(r.start, r.start + (r.end - r.start)) == r;
  }

  /** A match that is not reported starts inside a reported one, or is empty at its end. */
  lemma MatchReported(engine: Engine, p: Pattern, content: bytes, i: nat, n: nat) returns (r: Range)
    requires MatchAt(engine, p, content, i, n)
    ensures r in Ranges(engine, p, content) && (r == Range(i, i + n) || r.start < i <= r.end)
  {
    hide EngineRanges, ExactRanges;
    RangesExactly(engine, p, content);
    var rs := Ranges(engine, p, content);
    if p.Exact? || !Hidden(rs, i, n) {
      r := Range(i, i + n);
    } else {
      var k :| 0 <= k < |rs| && Hides(rs[k], i, n);
      r := rs[k];
    }
  }

  /** Where no match runs past its line, exactly the lines on which a match starts are reported. */
  lemma ReportedLinesExactly(engine: Engine, p: Pattern, content: bytes, line: nat)
    requires StaysOnLines(engine, p, content)
    ensures StartsOn(content, Ranges(engine, p, content), line) <==> MatchOn(engine, p, content, line)
  {
    hide Ranges, MatchAt, LineAt, Newlines;
    var rs := Ranges(engine, p, content);
    if StartsOn(content, rs, line) {
      var k :| 0 <= k < |rs| && LineAt(Newlines(content), rs[k].start) == line;
      ReportedIsMatch(engine, p, content, rs[k]);
    }
    if MatchOn(engine, p, content, line) {
      var i: nat, n: nat :| MatchAt(engine, p, content, i, n) && LineAt(Newlines(content), i) == line;
      var r := MatchReported(engine, p, content, i, n);
      ReportedIsMatch(engine, p, content, r);
      LineAtMonotone(content, r.start, i);
      if r.start < i {
        LineAtMonotone(content, i, r.end);
        assert MatchAt(engine, p, content, r.start, r.end - r.start);
      }
      var k :| 0 <= k < |rs| && rs[k] == r;
      assert LineAt(Newlines(content), rs[k].start) == line;
    }
  }

  /** Only lines on which a match starts are reported, and where no match runs past its line, all of them. */
  lemma VerifyLinesExactly(engine: Engine, p: Pattern, content: bytes, line: nat)
    requires content != []
    ensures RangesWithin(Ranges(engine, p, content), content)
    ensures line in Numbers(VerifyContent(engine, p, content)) ==> MatchOn(engine, p, content, line)
    ensures StaysOnLines(engine, p, content) ==>
      (line in Numbers(VerifyContent(engine, p, content)) <==> MatchOn(engine, p, content, line))
  {
    hide Ranges, MatchAt, LineAt, Newlines, VerifyContent;
    VerifyExact(engine, p, content);
    var rs := Ranges(engine, p, content);
    if StartsOn(content, rs, line) {
      var k :| 0 <= k < |rs| && LineAt(Newlines(content), rs[k].start) == line;
      ReportedIsMatch(engine, p, content, rs[k]);
    }
    if StaysOnLines(engine, p, content) { ReportedLinesExactly(engine, p, content, line); }
  }
}
