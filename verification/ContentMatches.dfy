/**
 * verify_content_matches (ferret-core/src/multi_search.rs): the lines of a file that contain a literal up to ASCII
 * case, with every occurrence and with neighbouring lines. Contents are taken to be valid UTF-8.
 */
module ContentMatches {
  import opened Base
  import opened Trigrams
  import opened Verify

  const USIZE_MODULUS: int := 0x1_0000_0000_0000_0000

  type usize = x: int | 0 <= x < 0x1_0000_0000_0000_0000

  // ---- lines ----

  /** str::split on the newline: one line more than there are newlines. */
  function Split(content: bytes): (lines: seq<bytes>)
    ensures |lines| >= 1
  {
    if content == [] then [[]]
    else
      var rest := Split(content[1..]);
      if content[0] == NEWLINE then [[]] + rest else [[content[0]] + rest[0]] + rest[1..]
  }

  function Join(lines: seq<bytes>): bytes
    requires lines != []
  {
    if |lines| == 1 then lines[0] else lines[0] + [NEWLINE] + Join(lines[1..])
  }

  ghost predicate NewlineFree(s: bytes) {
    NEWLINE !in s
  }

  /** Splitting loses nothing and leaves no newline inside a line. */
  lemma {:induction false} SplitJoins(content: bytes)
    ensures Join(Split(content)) == content
    ensures forall i :: 0 <= i < |Split(content)| ==> NewlineFree(Split(content)[i])
  {
    if content != [] {
      SplitJoins(content[1..]);
      var rest, lines := Split(content[1..]), Split(content);
      if content[0] == NEWLINE {
        assert lines[1..] == rest;
        assert [] + [NEWLINE] + content[1..] == content;
      } else {
        assert NewlineFree(rest[0]);
        assert lines[1..] == rest[1..];
        assert forall i :: 1 <= i < |lines| ==> lines[i] == rest[i];
        JoinCons(content[0], rest);
        assert [content[0]] + content[1..] == content;
      }
    }
  }

  lemma JoinCons(b: u8, lines: seq<bytes>)
    requires lines != []
    ensures Join([[b] + lines[0]] + lines[1..]) == [b] + Join(lines)
  {
    var longer := [[b] + lines[0]] + lines[1..];
    assert longer[1..] == lines[1..];
    if |lines| > 1 {
      assert [b] + lines[0] + [NEWLINE] + Join(lines[1..]) == [b] + (lines[0] + [NEWLINE] + Join(lines[1..]));
    }
  }

  // ---- occurrences in a line ----

  /** First occurrence at or after `from`. */
  function FirstHit(line: bytes, query: bytes, from: nat): (r: Option<nat>)
    ensures r.Some? ==> from <= r.value && FoldsTo(line, r.value, query)
    ensures forall i :: from <= i && (r.Some? ==> i < r.value) ==> !FoldsTo(line, i, query)
    decreases |line| + 1 - from
  {
    if from + |query| > |line| then None
    else if FoldsTo(line, from, query) then Some(from)
    else FirstHit(line, query, from + 1)
  }

  function HitsFrom(line: bytes, query: bytes, from: nat): seq<Range>
    decreases |line| + 1 - from
  {
    if from + |query| > |line| then []
    else (if FoldsTo(line, from, query) then [Range(from, from + |query|)] else []) + HitsFrom(line, query, from + 1)
  }

  /** All occurrences, overlapping ones included. */
  function Hits(line: bytes, query: bytes): seq<Range> { HitsFrom(line, query, 0) }

  lemma {:induction false} SkipToHit(line: bytes, query: bytes, from: nat)
    ensures var r := FirstHit(line, query, from);
      HitsFrom(line, query, from) ==
      if r.None? then [] else [Range(r.value, r.value + |query|)] + HitsFrom(line, query, r.value + 1)
    decreases |line| + 1 - from
  {
    hide FoldsTo;
    if from + |query| <= |line| && !FoldsTo(line, from, query) { SkipToHit(line, query, from + 1); }
  }

  method LineRanges(line: bytes, query: bytes) returns (ranges: seq<Range>)
    ensures ranges == Hits(line, query)
  {
    hide FoldsTo, FirstHit;
    ranges := [];
    var searchStart := 0;
    while searchStart + |query| <= |line|
      invariant ranges + HitsFrom(line, query, searchStart) == Hits(line, query)
      decreases |line| + 1 - searchStart
    {
      SkipToHit(line, query, searchStart);
      var hit := FirstHit(line, query, searchStart);
      if hit.None? { assert ranges + [] == ranges; return; }
      ranges := ranges + [Range(hit.value, hit.value + |query|)];
      searchStart := hit.value + 1;
    }
    assert ranges + [] == ranges;
  }

  lemma HitsStep(line: bytes, query: bytes, from: nat)
    requires from + |query| <= |line|
    ensures HitsFrom(line, query, from) ==
            if FoldsTo(line, from, query) then [Range(from, from + |query|)] + HitsFrom(line, query, from + 1)
            else HitsFrom(line, query, from + 1)
  {
    hide FoldsTo;
    assert [] + HitsFrom(line, query, from + 1) == HitsFrom(line, query, from + 1);
  }

  /** Ranges of one length, each once, from left to right. */
  ghost predicate Ordered(r: seq<Range>, from: nat, length: nat) {
    && (forall k :: 0 <= k < |r| ==> from <= r[k].start && r[k].end == r[k].start + length)
    && (forall j, k :: 0 <= j < k < |r| ==> r[j].start < r[k].start)
  }

  lemma {:induction false} HitsOrdered(line: bytes, query: bytes, from: nat)
    ensures Ordered(HitsFrom(line, query, from), from, |query|)
    decreases |line| + 1 - from
  {
    if from + |query| <= |line| {
      HitsOrdered(line, query, from + 1);
      HitsStep(line, query, from);
      hide FoldsTo, HitsFrom, Ordered;
      OrderedCons(HitsFrom(line, query, from + 1), from, |query|);
    }
  }

  lemma OrderedCons(rest: seq<Range>, from: nat, length: nat)
    requires Ordered(rest, from + 1, length)
    ensures Ordered([Range(from, from + length)] + rest, from, length) && Ordered(rest, from, length)
  {
  }

  /** The ranges of a line are its occurrences. */
  lemma {:induction false} HitsExact(line: bytes, query: bytes, from: nat, i: nat)
    ensures Range(i, i + |query|) in HitsFrom(line, query, from) <==> from <= i && FoldsTo(line, i, query)
    decreases |line| + 1 - from
  {
    if from + |query| <= |line| {
      HitsExact(line, query, from + 1, i);
      HitsStep(line, query, from);
      hide FoldsTo, HitsFrom;
    } else {
      assert !(from <= i && FoldsTo(line, i, query));
    }
  }

  // ---- the report ----

  function LineNumber(i: nat): nat { (i + 1) % U32_MODULUS }

  /** Lines first..last as context, none if the interval is empty. */
  function Window(lines: seq<bytes>, first: nat, last: nat): (r: seq<ContextLine>)
    requires last <= |lines|
    ensures |r| == if first <= last then last - first else 0
    ensures forall k :: 0 <= k < |r| ==> r[k] == ContextLine(LineNumber(first + k), lines[first + k])
  {
    if first >= last then []
    else seq(last - first, k requires 0 <= k < last - first => ContextLine(LineNumber(first + k), lines[first + k]))
  }

  function ContextStart(i: nat, context: usize): nat {
    if i >= context then i - context else 0
  }

  /** The line after the context; the sum wraps at the width of usize. */
  function ContextEnd(lines: seq<bytes>, i: nat, context: usize): (e: nat)
    requires lines != []
    ensures e <= |lines|
  {
    var sum := (i + 1 + context) % USIZE_MODULUS;
    var end := if sum < |lines| then sum else |lines|;
    if end > 0 && lines[|lines| - 1] == [] && end == |lines| then end - 1 else end
  }

  function Report(lines: seq<bytes>, query: bytes, context: usize, i: nat): LineMatch
    requires i < |lines|
  {
    LineMatch(LineNumber(i), lines[i], Hits(lines[i], query),
      if context > 0 then Window(lines, ContextStart(i, context), i) else [],
      if context > 0 then Window(lines, i + 1, ContextEnd(lines, i, context)) else [])
  }

  /** Indices below n of the lines that contain the query. */
  function Matching(lines: seq<bytes>, query: bytes, n: nat): (r: seq<nat>)
    requires n <= |lines|
    ensures forall k :: 0 <= k < |r| ==> r[k] < n
  {
    if n == 0 then []
    else Matching(lines, query, n - 1) + if Hits(lines[n - 1], query) != [] then [n - 1] else []
  }

  /** First pass: the lines with a match and their ranges. An empty last line is passed over. */
  method MatchingLines(lines: seq<bytes>, query: bytes) returns (found: seq<(nat, seq<Range>)>)
    requires query != [] && lines != []
    ensures Found(lines, query, |lines|, found)
  {
    hide Hits;
    found := [];
    for i := 0 to |lines|
      invariant Found(lines, query, i, found)
    {
      var line := lines[i];
      if line == [] && i > 0 && i == |lines| - 1 {
        NoHitsInEmpty(query);
        continue;
      }
      var ranges := LineRanges(line, query);
      if ranges != [] { found := found + [(i, ranges)]; }
    }
  }

  ghost predicate Found(lines: seq<bytes>, query: bytes, n: nat, found: seq<(nat, seq<Range>)>)
    requires n <= |lines|
  {
    var at := Matching(lines, query, n);
    |found| == |at| && forall k :: 0 <= k < |at| ==> found[k] == (at[k], Hits(lines[at[k]], query))
  }

  method BuildMatch(lines: seq<bytes>, ghost query: bytes, context: usize, i: nat, ranges: seq<Range>)
    returns (m: LineMatch)
    requires i < |lines| && ranges == Hits(lines[i], query)
    ensures m == Report(lines, query, context, i)
  {
    hide Hits, Window;
    var before, after: seq<ContextLine> := [], [];
    if context > 0 {
      var start := if i >= context then i - context else 0;
      before := Window(lines, start, i);
      var sum := (i + 1 + context) % USIZE_MODULUS;
      var end := if sum < |lines| then sum else |lines|;
      var effectiveEnd := if end > 0 && lines[|lines| - 1] == [] && end == |lines| then end - 1 else end;
      after := Window(lines, i + 1, effectiveEnd);
    }
    m := LineMatch((i + 1) % U32_MODULUS, lines[i], ranges, before, after);
  }

  /** One report per matching line, in order. */
  ghost predicate Verified(content: bytes, query: bytes, context: usize, r: seq<LineMatch>) {
    var lines := Split(content);
    var at := Matching(lines, query, |lines|);
    |r| == |at| && forall k :: 0 <= k < |r| ==> r[k] == Report(lines, query, context, at[k])
  }

  method VerifyContentMatches(content: bytes, query: bytes, context: usize) returns (r: seq<LineMatch>)
    ensures if query == [] || content == [] then r == [] else Verified(content, query, context, r)
  {
    hide Hits, Split, Report;
    if query == [] || content == [] { return []; }
    var lines := Split(content);
    var found := MatchingLines(lines, query);
    r := [];
    for k := 0 to |found|
      invariant |r| == k
      invariant forall j :: 0 <= j < k ==> r[j] == Report(lines, query, context, Matching(lines, query, |lines|)[j])
    {
      var m := BuildMatch(lines, query, context, found[k].0, found[k].1);
      r := r + [m];
    }
  }

  lemma NoHitsInEmpty(query: bytes)
    requires query != []
    ensures Hits([], query) == []
  {
  }

  // ---- what the report says ----

  lemma {:induction false} MatchingExact(lines: seq<bytes>, query: bytes, n: nat, i: nat)
    requires n <= |lines|
    ensures i in Matching(lines, query, n) <==> i < n && OccursFolded(query, lines[i])
  {
    hide OccursFolded, Hits;
    if n > 0 {
      MatchingExact(lines, query, n - 1, i);
      HitsOccur(lines[n - 1], query);
    }
  }

  lemma HitsOccur(line: bytes, query: bytes)
    ensures Hits(line, query) != [] <==> OccursFolded(query, line)
  {
    hide FoldsTo, HitsFrom;
    var r := Hits(line, query);
    HitsOrdered(line, query, 0);
    if r != [] {
      HitsExact(line, query, 0, r[0].start);
      assert r[0] == Range(r[0].start, r[0].start + |query|) && r[0] in r;
      assert FoldsTo(line, r[0].start, query);
    }
    if OccursFolded(query, line) {
      var i :| FoldsTo(line, i, query);
      OccurrenceNonnegative(line, i, query);
      HitsExact(line, query, 0, i);
      assert Range(i, i + |query|) in r;
    }
  }

  lemma OccurrenceNonnegative(line: bytes, i: int, query: bytes)
    requires FoldsTo(line, i, query)
    ensures i >= 0
  {
  }

  lemma {:induction false} MatchingIncreases(lines: seq<bytes>, query: bytes, n: nat)
    requires n <= |lines|
    ensures forall j, k :: 0 <= j < k < |Matching(lines, query, n)| ==>
      Matching(lines, query, n)[j] < Matching(lines, query, n)[k]
  {
    if n > 0 { MatchingIncreases(lines, query, n - 1); }
  }

  lemma LineNumberIs(i: nat)
    requires i < U32_MAX
    ensures LineNumber(i) == i + 1
  {
  }

  lemma ReportOf(content: bytes, query: bytes, context: usize, r: seq<LineMatch>, k: nat)
    requires Verified(content, query, context, r) && |Split(content)| <= U32_MAX && k < |r|
    ensures var i := Matching(Split(content), query, |Split(content)|)[k];
      && r[k].lineNumber == i + 1 && i < |Split(content)|
      && r[k].content == Split(content)[i] && r[k].ranges == Hits(Split(content)[i], query)
  {
    hide Hits, Split, Matching, LineNumber;
    LineNumberIs(Matching(Split(content), query, |Split(content)|)[k]);
  }

  /** Reported lines come in strictly increasing order. */
  lemma ReportIncreases(content: bytes, query: bytes, context: usize, r: seq<LineMatch>, j: nat, k: nat)
    requires Verified(content, query, context, r) && |Split(content)| <= U32_MAX && j < k < |r|
    ensures r[j].lineNumber < r[k].lineNumber
  {
    MatchingIncreases(Split(content), query, |Split(content)|);
    hide Hits, Split, Matching, Report;
    ReportOf(content, query, context, r, j);
    ReportOf(content, query, context, r, k);
  }

  /**
   * The reported lines are exactly the lines that contain the query up to ASCII case, with exactly their occurrences;
   * line numbers are exact below 2^32 lines.
   */
  lemma ReportExact(content: bytes, query: bytes, context: usize, r: seq<LineMatch>, i: nat)
    requires Verified(content, query, context, r) && |Split(content)| <= U32_MAX && i < |Split(content)|
    ensures OccursFolded(query, Split(content)[i]) <==> exists k :: 0 <= k < |r| && r[k].lineNumber == i + 1
    ensures forall k :: 0 <= k < |r| && r[k].lineNumber == i + 1 ==>
      r[k].content == Split(content)[i] && r[k].ranges == Hits(Split(content)[i], query)
  {
    hide OccursFolded, Hits, Split, Matching, Report;
    var lines := Split(content);
    var at := Matching(lines, query, |lines|);
    MatchingExact(lines, query, |lines|, i);
    forall k | 0 <= k < |r| ensures r[k].lineNumber == at[k] + 1 { ReportOf(content, query, context, r, k); }
    forall k | 0 <= k < |r| && r[k].lineNumber == i + 1
      ensures r[k].content == lines[i] && r[k].ranges == Hits(lines[i], query)
    {
      ReportOf(content, query, context, r, k);
    }
    if i in at { var k :| 0 <= k < |at| && at[k] == i; assert r[k].lineNumber == i + 1; }
    if k :| 0 <= k < |r| && r[k].lineNumber == i + 1 { assert at[k] == i; }
  }

  ghost predicate InWindow(w: seq<ContextLine>, lines: seq<bytes>, j: nat) {
    j < |lines| && ContextLine(LineNumber(j), lines[j]) in w
  }

  /** The lines that context shows around line i: clamped at both ends, without a trailing empty line. */
  lemma ContextExact(lines: seq<bytes>, query: bytes, context: usize, i: nat, j: nat)
    requires i < |lines| <= U32_MAX && i + 1 + context < USIZE_MODULUS
    ensures var m := Report(lines, query, context, i);
      && (InWindow(m.before, lines, j) <==> j < i && i - j <= context)
      && (InWindow(m.after, lines, j) <==>
            i < j < |lines| && j - i <= context && !(j == |lines| - 1 && lines[j] == []))
  {
    hide Hits, Window, InWindow;
    var m := Report(lines, query, context, i);
    NothingInWindow(lines, j);
    if context > 0 {
      WindowExact(lines, ContextStart(i, context), i, j);
      WindowExact(lines, i + 1, ContextEnd(lines, i, context), j);
    }
  }

  lemma NothingInWindow(lines: seq<bytes>, j: nat)
    ensures !InWindow([], lines, j)
  {
  }

  lemma WindowExact(lines: seq<bytes>, first: nat, last: nat, j: nat)
    requires last <= |lines| <= U32_MAX
    ensures InWindow(Window(lines, first, last), lines, j) <==> first <= j < last
  {
    hide LineNumber;
    if j < |lines| { LineNumberIs(j); }
    var w := Window(lines, first, last);
    if first <= j < last { assert w[j - first] == ContextLine(LineNumber(j), lines[j]); }
    if InWindow(w, lines, j) {
      var k :| 0 <= k < |w| && w[k] == ContextLine(LineNumber(j), lines[j]);
      LineNumberIs(first + k);
    }
  }

  // ---- the trigram index never hides a reported file ----

  lemma {:induction false} LineInContent(lines: seq<bytes>, query: bytes, i: nat)
    requires i < |lines| && OccursFolded(query, lines[i])
    ensures OccursFolded(query, Join(lines))
  {
    hide OccursFolded, Fold;
    if |lines| > 1 {
      var tail := Join(lines[1..]);
      if i == 0 {
        OccursInside([], lines[0], [NEWLINE] + tail, query);
        assert [] + lines[0] + ([NEWLINE] + tail) == lines[0] + [NEWLINE] + tail;
      } else {
        LineInContent(lines[1..], query, i - 1);
        OccursInside(lines[0] + [NEWLINE], tail, [], query);
        assert lines[0] + [NEWLINE] + tail + [] == lines[0] + [NEWLINE] + tail;
      }
    }
  }

  lemma OccursInside(a: bytes, b: bytes, c: bytes, query: bytes)
    requires OccursFolded(query, b)
    ensures OccursFolded(query, a + b + c)
  {
    var i :| FoldsTo(b, i, query);
    assert (a + b + c)[|a| + i..|a| + i + |query|] == b[i..i + |query|];
    assert FoldsTo(a + b + c, |a| + i, query);
  }

  /** A file for which anything is reported has every trigram of the query, so the index offers it as a candidate. */
  lemma ReportedIsCandidate(content: bytes, query: bytes, context: usize, r: seq<LineMatch>)
    requires Verified(content, query, context, r) && r != []
    ensures FoldedSet(query) <= FoldedSet(content)
  {
    hide OccursFolded, Report, FoldedSet;
    var lines := Split(content);
    var at := Matching(lines, query, |lines|);
    assert at[0] in at;
    MatchingExact(lines, query, |lines|, at[0]);
    LineInContent(lines, query, at[0]);
    SplitJoins(content);
    OccurrenceHasTrigrams(query, content);
  }
}
