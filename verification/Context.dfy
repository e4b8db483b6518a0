/** Attaching context lines to blocks of nearby matches (attach_context in ferret-core/src/query_match.rs). */
module Context {
  import opened Base
  import opened Sorting
  import opened Verify

  /** Lines of a nonempty content; a trailing newline does not start another line. */
  function TotalLines(content: bytes): nat {
    var newlines := Newlines(content);
    if newlines != [] && newlines[|newlines| - 1] == |content| - 1 then |newlines| else |newlines| + 1
  }

  lemma LastCount(newlines: seq<nat>, size: nat)
    requires forall i, j :: 0 <= i < j < |newlines| ==> newlines[i] < newlines[j]
    requires size > 0 && forall i :: 0 <= i < |newlines| ==> newlines[i] < size
    ensures CountBefore(newlines, size - 1)
         == if newlines != [] && newlines[|newlines| - 1] == size - 1 then |newlines| - 1 else |newlines|
  {
    hide CountBefore;
    var n := |newlines|;
    if n > 1 { assert newlines[n - 2] < newlines[n - 1]; }
    CountIs(newlines, size - 1, if n > 0 && newlines[n - 1] == size - 1 then n - 1 else n);
  }

  /** The last line is that of the last byte: nothing behind a final newline counts. */
  lemma LastLine(content: bytes)
    requires content != []
    ensures TotalLines(content) == LineAt(Newlines(content), |content| - 1)
  {
    hide Newlines, CountBefore;
    LastCount(Newlines(content), |content|);
  }

  ghost predicate LinesExist(content: bytes, lines: seq<LineMatch>) {
    forall i :: 0 <= i < |lines| ==> 1 <= lines[i].lineNumber <= |Newlines(content)| + 1
  }

  /** Context lines `from`..`to`, the upper end excluded, with their text. */
  function Window(content: bytes, from: nat, to: nat): (w: seq<ContextLine>)
    requires 1 <= from && to <= |Newlines(content)| + 2
    ensures |w| == if from < to then to - from else 0
    ensures forall k :: 0 <= k < |w| ==> w[k] == ContextLine(from + k, LineText(content, from + k))
  {
    if from >= to then []
    else seq(to - from, k requires 0 <= k < to - from => ContextLine(from + k, LineText(content, from + k)))
  }

  /** A block starts at a match whose window does not reach the window of the match before it. */
  predicate StartsBlock(lines: seq<LineMatch>, context: u32, i: nat)
    requires i < |lines|
  {
    i == 0 || lines[i].lineNumber > lines[i - 1].lineNumber + 2 * context + 1
  }

  predicate EndsBlock(lines: seq<LineMatch>, context: u32, i: nat)
    requires i < |lines|
  {
    i + 1 == |lines| || StartsBlock(lines, context, i + 1)
  }

  function BeforeStart(line: nat, context: u32): nat {
    if line <= context + 1 then 1 else line - context
  }

  /** The u32 sum wraps as it does without overflow checks. */
  function AfterEnd(content: bytes, line: nat, context: u32): nat {
    var end := (line + context) % U32_MODULUS;
    if end <= TotalLines(content) then end else TotalLines(content)
  }

  /** Match `i` with its context: leading context only on the first match of a block, trailing only on the last. */
  function WithContext(content: bytes, lines: seq<LineMatch>, context: u32, i: nat): LineMatch
    requires LinesExist(content, lines) && i < |lines|
  {
    var m := lines[i];
    var before := Window(content, BeforeStart(m.lineNumber, context), m.lineNumber);
    var after := Window(content, m.lineNumber + 1, AfterEnd(content, m.lineNumber, context) + 1);
    var m' := if StartsBlock(lines, context, i) then m.(before := before) else m;
    if EndsBlock(lines, context, i) then m'.(after := after) else m'
  }

  function Indices(from: nat, to: nat): (r: seq<nat>)
    requires from <= to
    ensures |r| == to - from && forall k :: 0 <= k < |r| ==> r[k] == from + k
  {
    seq(to - from, k requires 0 <= k < to - from => from + k)
  }

  /** A group: consecutive indices whose first, and no other, starts a block. */
  ghost predicate IsGroup(group: seq<nat>, lines: seq<LineMatch>, context: u32, from: nat) {
    && group != [] && from + |group| <= |lines|
    && group == Indices(from, from + |group|)
    && StartsBlock(lines, context, from)
    && forall k :: from < k < from + |group| ==> !StartsBlock(lines, context, k)
  }

  /** The groups built so far partition 0..to. */
  ghost predicate GroupsTo(groups: seq<seq<nat>>, lines: seq<LineMatch>, context: u32, to: nat) {
    if groups == [] then to == 0
    else
      var last := groups[|groups| - 1];
      && |last| <= to && IsGroup(last, lines, context, to - |last|)
      && GroupsTo(groups[..|groups| - 1], lines, context, to - |last|)
  }

  /** The groups still to be visited partition from..|lines|. */
  ghost predicate GroupsFrom(groups: seq<seq<nat>>, lines: seq<LineMatch>, context: u32, from: nat) {
    if groups == [] then from == |lines|
    else
      && IsGroup(groups[0], lines, context, from)
      && GroupsFrom(groups[1..], lines, context, from + |groups[0]|)
  }

  lemma {:induction false} GroupsJoin(
      done: seq<seq<nat>>, rest: seq<seq<nat>>, lines: seq<LineMatch>, context: u32, at: nat)
    requires GroupsTo(done, lines, context, at) && GroupsFrom(rest, lines, context, at)
    ensures GroupsFrom(done + rest, lines, context, 0)
    decreases |done|
  {
    hide IsGroup;
    if done == [] {
      assert done + rest == rest;
    } else {
      var init, last := done[..|done| - 1], done[|done| - 1];
      assert ([last] + rest)[1..] == rest;
      GroupsJoin(init, [last] + rest, lines, context, at - |last|);
      assert init + ([last] + rest) == done + rest;
    }
  }

  lemma ExtendGroup(group: seq<nat>, lines: seq<LineMatch>, context: u32, from: nat)
    requires IsGroup(group, lines, context, from)
    requires from + |group| < |lines| && !StartsBlock(lines, context, from + |group|)
    ensures IsGroup(group + [from + |group|], lines, context, from)
  {
    hide StartsBlock;
    assert group + [from + |group|] == Indices(from, from + |group| + 1);
  }

  lemma NewGroup(lines: seq<LineMatch>, context: u32, i: nat)
    requires i < |lines| && StartsBlock(lines, context, i)
    ensures IsGroup([i], lines, context, i)
  {
    assert [i] == Indices(i, i + 1);
  }

  lemma NoGroups(lines: seq<LineMatch>, context: u32)
    ensures GroupsTo([], lines, context, 0) && GroupsFrom([], lines, context, |lines|)
  {
  }

  lemma LastGroup(groups: seq<seq<nat>>, lines: seq<LineMatch>, context: u32, to: nat)
    returns (init: seq<seq<nat>>, last: seq<nat>)
    requires groups != [] && GroupsTo(groups, lines, context, to)
    ensures groups == init + [last] && 0 < |last| <= to <= |lines| && last[|last| - 1] == to - 1
    ensures GroupsTo(init, lines, context, to - |last|) && IsGroup(last, lines, context, to - |last|)
  {
    init, last := groups[..|groups| - 1], groups[|groups| - 1];
  }

  lemma GroupsPush(groups: seq<seq<nat>>, group: seq<nat>, lines: seq<LineMatch>, context: u32, at: nat)
    requires GroupsTo(groups, lines, context, at) && IsGroup(group, lines, context, at)
    ensures GroupsTo(groups + [group], lines, context, at + |group|)
  {
    var all := groups + [group];
    assert all[..|all| - 1] == groups && all[|all| - 1] == group;
  }

  /** Match `i` is close enough to the last match of a group to join it. */
  predicate Reaches(lines: seq<LineMatch>, context: u32, group: seq<nat>, i: nat)
    requires i < |lines|
  {
    && group != [] && group[|group| - 1] < |lines|
    && lines[i].lineNumber <= lines[group[|group| - 1]].lineNumber + 2 * context + 1
  }

  method MergeIntoLast(groups: seq<seq<nat>>, lines: seq<LineMatch>, context: u32, i: nat)
    returns (r: seq<seq<nat>>)
    requires groups != [] && GroupsTo(groups, lines, context, i) && i < |lines|
    requires Reaches(lines, context, groups[|groups| - 1], i)
    ensures r != [] && GroupsTo(r, lines, context, i + 1)
  {
    hide GroupsTo, IsGroup;
    var n := |groups|;
    ghost var init, last := LastGroup(groups, lines, context, i);
    ExtendGroup(last, lines, context, i - |last|);
    GroupsPush(init, last + [i], lines, context, i - |last|);
    r := groups[n - 1 := groups[n - 1] + [i]];
    assert r == init + [last + [i]];
  }

  method BuildGroups(lines: seq<LineMatch>, context: u32) returns (groups: seq<seq<nat>>)
    ensures GroupsFrom(groups, lines, context, 0)
  {
    hide GroupsTo, GroupsFrom, IsGroup;
    groups := [];
    assert GroupsTo([], lines, context, 0) && GroupsFrom([], lines, context, |lines|) by {
      NoGroups(lines, context);
    }
    for i := 0 to |lines|
      invariant GroupsTo(groups, lines, context, i)
      invariant groups != [] <==> i > 0
    {
      var shouldMerge := groups != [] && Reaches(lines, context, groups[|groups| - 1], i);
      if shouldMerge {
        groups := MergeIntoLast(groups, lines, context, i);
      } else {
        if groups != [] { var init, last := LastGroup(groups, lines, context, i); }
        NewGroup(lines, context, i);
        GroupsPush(groups, [i], lines, context, i);
        groups := groups + [[i]];
      }
    }
    GroupsJoin(groups, [], lines, context, |lines|);
    assert groups + [] == groups;
  }

  /** The two in-place updates made for one group. */
  method AttachGroup(
      content: bytes, lines: seq<LineMatch>, context: u32, group: seq<nat>, ghost from: nat, current: seq<LineMatch>)
    returns (r: seq<LineMatch>)
    requires LinesExist(content, lines) && |current| == |lines|
    requires IsGroup(group, lines, context, from)
    requires from + |group| < |lines| ==> StartsBlock(lines, context, from + |group|)
    requires forall i :: from <= i < |lines| ==> current[i] == lines[i]
    ensures |r| == |lines|
    ensures forall i :: 0 <= i < from ==> r[i] == current[i]
    ensures forall i :: from <= i < from + |group| ==> r[i] == WithContext(content, lines, context, i)
    ensures forall i :: from + |group| <= i < |lines| ==> r[i] == lines[i]
  {
    hide Window, BeforeStart, AfterEnd, StartsBlock, Newlines;
    var firstIdx, lastIdx := group[0], group[|group| - 1];
    assert firstIdx == from && lastIdx == from + |group| - 1;
    var firstLine, lastLine := current[firstIdx].lineNumber, current[lastIdx].lineNumber;
    BeforeStartPositive(firstLine, context);
    AfterEndBound(content, lastLine, context);
    r := current;
    r := r[firstIdx := r[firstIdx].(before := Window(content, BeforeStart(firstLine, context), firstLine))];
    r := r[lastIdx := r[lastIdx].(after := Window(content, lastLine + 1, AfterEnd(content, lastLine, context) + 1))];
    assert forall i :: from <= i < from + |group| ==> (StartsBlock(lines, context, i) <==> i == from);
    assert forall i :: from <= i < from + |group| ==> (EndsBlock(lines, context, i) <==> i == lastIdx);
  }

  lemma SortedExist(content: bytes, lines: seq<LineMatch>)
    requires LinesExist(content, lines)
    ensures LinesExist(content, SortBy(lines, LineKey))
  {
    var sorted := SortBy(lines, LineKey);
    forall i | 0 <= i < |sorted| ensures 1 <= sorted[i].lineNumber <= |Newlines(content)| + 1 {
      assert sorted[i] in lines;
    }
  }

  /** attach_context: sort the matches by line, form the blocks, and update their first and last matches. */
  method AttachContext(content: bytes, lines: seq<LineMatch>, context: u32) returns (r: seq<LineMatch>)
    requires LinesExist(content, lines)
    ensures |r| == |lines| && LinesExist(content, SortBy(lines, LineKey))
    ensures content != [] ==> forall i :: 0 <= i < |r| ==>
      r[i] == WithContext(content, SortBy(lines, LineKey), context, i)
    ensures content == [] ==> r == lines
  {
    hide WithContext, LinesExist;
    SortedExist(content, lines);
    if content == [] || lines == [] { return lines; }
    r := AttachToSorted(content, SortBy(lines, LineKey), context);
  }

  method AttachToSorted(content: bytes, lines: seq<LineMatch>, context: u32) returns (r: seq<LineMatch>)
    requires LinesExist(content, lines)
    ensures |r| == |lines|
    ensures forall i :: 0 <= i < |r| ==> r[i] == WithContext(content, lines, context, i)
  {
    hide WithContext, IsGroup, StartsBlock, LinesExist;
    var groups := BuildGroups(lines, context);
    r := lines;
    ghost var from := 0;
    for g := 0 to |groups|
      invariant |r| == |lines| && 0 <= from <= |lines| && LinesExist(content, lines)
      invariant GroupsFrom(groups[g..], lines, context, from)
      invariant forall i :: 0 <= i < from ==> r[i] == WithContext(content, lines, context, i)
      invariant forall i :: from <= i < |r| ==> r[i] == lines[i]
    {
      var group := groups[g];
      assert groups[g..][1..] == groups[g + 1..];
      ghost var next := from + |group|;
      assert next <= |lines| by { GroupFits(group, lines, context, from); }
      assert next < |lines| ==> StartsBlock(lines, context, next) by {
        if next < |lines| { GroupFits(groups[g + 1..][0], lines, context, next); }
      }
      r := AttachGroup(content, lines, context, group, from, r);
      from := next;
    }
  }

  lemma GroupFits(group: seq<nat>, lines: seq<LineMatch>, context: u32, from: nat)
    requires IsGroup(group, lines, context, from)
    ensures from + |group| <= |lines| && StartsBlock(lines, context, from)
  {
  }

  lemma BeforeStartPositive(line: nat, context: u32)
    ensures BeforeStart(line, context) >= 1
  {
  }

  lemma AfterEndBound(content: bytes, line: nat, context: u32)
    ensures AfterEnd(content, line, context) <= |Newlines(content)| + 1
  {
  }

  // ---- what the reader of the output sees ----

  function ContextNumbers(w: seq<ContextLine>): (r: seq<nat>)
    ensures |r| == |w| && forall k :: 0 <= k < |w| ==> r[k] == w[k].lineNumber
  {
    seq(|w|, k requires 0 <= k < |w| => w[k].lineNumber)
  }

  /** Line numbers of one match as displayed: leading context, the match, trailing context. */
  function Shown(m: LineMatch): seq<nat> {
    ContextNumbers(m.before) + [m.lineNumber] + ContextNumbers(m.after)
  }

  function Display(r: seq<LineMatch>): seq<nat>
    decreases |r|
  {
    if r == [] then [] else Display(r[..|r| - 1]) + Shown(r[|r| - 1])
  }

  ghost predicate Attached(content: bytes, lines: seq<LineMatch>, context: u32, r: seq<LineMatch>) {
    && LinesExist(content, lines) && |r| <= |lines|
    && (forall i :: 0 <= i < |lines| ==> lines[i].before == [] && lines[i].after == [])
    && (forall i :: 0 <= i < |r| ==> r[i] == WithContext(content, lines, context, i))
  }

  /** A match is shown as one run of consecutive lines around it. */
  lemma ShownRun(m: LineMatch)
    requires |m.before| <= m.lineNumber
    requires forall k :: 0 <= k < |m.before| ==> m.before[k].lineNumber == m.lineNumber - |m.before| + k
    requires forall k :: 0 <= k < |m.after| ==> m.after[k].lineNumber == m.lineNumber + 1 + k
    ensures |Shown(m)| == |m.before| + 1 + |m.after|
    ensures forall k :: 0 <= k < |Shown(m)| ==> Shown(m)[k] == m.lineNumber - |m.before| + k
  {
  }

  lemma WithContextSizes(content: bytes, lines: seq<LineMatch>, context: u32, i: nat)
    requires LinesExist(content, lines) && i < |lines| && lines[i].before == [] && lines[i].after == []
    ensures var m, n := WithContext(content, lines, context, i), lines[i].lineNumber;
            && m.lineNumber == n
            && |m.before| == (if StartsBlock(lines, context, i) then n - BeforeStart(n, context) else 0)
            && |m.after| == (if EndsBlock(lines, context, i) && AfterEnd(content, n, context) > n
                             then AfterEnd(content, n, context) - n else 0)
            && (forall k :: 0 <= k < |m.before| ==> m.before[k].lineNumber == n - |m.before| + k)
            && (forall k :: 0 <= k < |m.after| ==> m.after[k].lineNumber == n + 1 + k)
  {
    hide StartsBlock, EndsBlock, Newlines, AfterEnd;
    AfterEndBound(content, lines[i].lineNumber, context);
  }

  /** Everything shown with match `i` lies within `context` lines of it, in order, once. */
  lemma ShownWithin(content: bytes, lines: seq<LineMatch>, context: u32, i: nat)
    requires LinesExist(content, lines) && i < |lines| && lines[i].before == [] && lines[i].after == []
    ensures var s, n := Shown(WithContext(content, lines, context, i)), lines[i].lineNumber;
            && Increasing(s) && s != []
            && (forall k :: 0 <= k < |s| ==> 1 <= s[k] <= |Newlines(content)| + 1)
            && (forall k :: 0 <= k < |s| ==> s[k] <= n + context)
            && (!EndsBlock(lines, context, i) ==> forall k :: 0 <= k < |s| ==> s[k] <= n)
            && (forall k :: 0 <= k < |s| ==> s[k] + context >= n)
            && (!StartsBlock(lines, context, i) ==> forall k :: 0 <= k < |s| ==> s[k] >= n)
  {
    hide WithContext, StartsBlock, EndsBlock, Newlines, AfterEnd, Shown;
    var m := WithContext(content, lines, context, i);
    AfterEndBound(content, lines[i].lineNumber, context);
    AfterEndSum(content, lines[i].lineNumber, context);
    WithContextSizes(content, lines, context, i);
    ShownRun(m);
  }

  lemma AfterEndSum(content: bytes, line: nat, context: u32)
    ensures AfterEnd(content, line, context) <= line + context
  {
  }

  /**
   * No line is repeated and none is shown both as a match and as context: the displayed line numbers strictly
   * increase, and every one of them is a line of the file.
   */
  lemma {:induction false} DisplayIncreases(content: bytes, lines: seq<LineMatch>, context: u32, r: seq<LineMatch>)
    requires Attached(content, lines, context, r) && Increasing(Numbers(lines))
    ensures Increasing(Display(r))
    ensures forall x :: x in Display(r) ==> 1 <= x <= |Newlines(content)| + 1
    ensures r != [] ==> DisplayBelow(Display(r), lines, context, |r| - 1)
    decreases |r|
  {
    hide WithContext, Newlines, LinesExist;
    if r != [] {
      var i := |r| - 1;
      var init := r[..i];
      DisplayIncreases(content, lines, context, init);
      ShownWithin(content, lines, context, i);
      var d, s := Display(init), Shown(r[i]);
      assert Numbers(lines)[i] == lines[i].lineNumber;
      if i > 0 {
        assert Numbers(lines)[i - 1] == lines[i - 1].lineNumber;
        assert EndsBlock(lines, context, i - 1) == StartsBlock(lines, context, i);
      }
      assert forall x :: x in s ==> i > 0 ==> forall y :: y in d ==> y < x;
      JoinIncreasing(d, s);
    }
  }

  ghost predicate DisplayBelow(d: seq<nat>, lines: seq<LineMatch>, context: u32, i: nat)
    requires i < |lines|
  {
    forall x :: x in d ==> x <= lines[i].lineNumber + if EndsBlock(lines, context, i) then context else 0
  }

  lemma JoinIncreasing(d: seq<nat>, s: seq<nat>)
    requires Increasing(d) && Increasing(s)
    requires forall x, y :: x in d && y in s ==> x < y
    ensures Increasing(d + s)
  {
    assert forall k :: 0 <= k < |d| ==> d[k] in d;
    assert forall k :: 0 <= k < |s| ==> s[k] in s;
  }

  /** Exactly which lines are shown with match `i`. */
  lemma ShownExact(content: bytes, lines: seq<LineMatch>, context: u32, i: nat, x: nat)
    requires LinesExist(content, lines) && i < |lines| && lines[i].before == [] && lines[i].after == []
    ensures var n := lines[i].lineNumber;
            x in Shown(WithContext(content, lines, context, i)) <==>
              || x == n
              || (StartsBlock(lines, context, i) && BeforeStart(n, context) <= x < n)
              || (EndsBlock(lines, context, i) && n < x <= AfterEnd(content, n, context))
  {
    hide WithContext, StartsBlock, EndsBlock, Newlines, AfterEnd, Shown;
    var m, n := WithContext(content, lines, context, i), lines[i].lineNumber;
    WithContextSizes(content, lines, context, i);
    ShownRun(m);
    var s := Shown(m);
    if n - |m.before| <= x <= n + |m.after| { assert s[x - (n - |m.before|)] == x; }
  }

  lemma {:induction false} NotDisplayed(r: seq<LineMatch>, x: nat)
    requires forall j :: 0 <= j < |r| ==> x !in Shown(r[j])
    ensures x !in Display(r)
    decreases |r|
  {
    if r != [] { NotDisplayed(r[..|r| - 1], x); }
  }

  /** Match `j` shows nothing of the gap between two neighbouring matches of one block. */
  lemma GapNotShown(content: bytes, lines: seq<LineMatch>, context: u32, i: nat, j: nat, x: nat)
    requires LinesExist(content, lines) && Increasing(Numbers(lines))
    requires i + 1 < |lines| && !EndsBlock(lines, context, i)
    requires j < |lines| && lines[j].before == [] && lines[j].after == []
    requires lines[i].lineNumber < x < lines[i + 1].lineNumber
    ensures x !in Shown(WithContext(content, lines, context, j))
  {
    hide WithContext, Newlines, LinesExist, Shown, BeforeStart, AfterEnd;
    ShownExact(content, lines, context, j, x);
    AfterEndSum(content, lines[j].lineNumber, context);
    BeforeStartSum(lines[j].lineNumber, context);
    var n := Numbers(lines);
    assert forall k :: 0 <= k < |lines| ==> n[k] == lines[k].lineNumber;
    if j < i {
      assert n[j] < n[j + 1] <= n[i];
    } else if j > i + 1 {
      assert n[i + 1] <= n[j - 1] < n[j];
    }
  }

  lemma BeforeStartSum(line: nat, context: u32)
    ensures BeforeStart(line, context) + context >= line
  {
  }

  /**
   * Inside a block no context is attached, so a line strictly between two matches of one block is never shown, not
   * even when it lies within the context distance of both.
   */
  lemma GapHidden(content: bytes, lines: seq<LineMatch>, context: u32, r: seq<LineMatch>, i: nat, x: nat)
    requires Attached(content, lines, context, r) && |r| == |lines| && Increasing(Numbers(lines))
    requires i + 1 < |lines| && lines[i].lineNumber < x < lines[i + 1].lineNumber
    requires lines[i + 1].lineNumber <= lines[i].lineNumber + 2 * context + 1
    ensures x !in Display(r)
  {
    assert !EndsBlock(lines, context, i);
    hide WithContext, Newlines, LinesExist, Display, Shown;
    forall j | 0 <= j < |r| ensures x !in Shown(r[j]) {
      GapNotShown(content, lines, context, i, j, x);
    }
    NotDisplayed(r, x);
  }

  // ---- which lines near a match are shown ----

  /** A line of the file within `context` lines of a match. */
  ghost predicate Nearby(content: bytes, lines: seq<LineMatch>, context: u32, x: nat) {
    1 <= x <= TotalLines(content) &&
    exists i :: 0 <= i < |lines| && lines[i].lineNumber <= x + context && x <= lines[i].lineNumber + context
  }

  /** The next match is at most `2 * context + 1` lines further down. */
  predicate NextIsClose(lines: seq<LineMatch>, context: u32, i: nat) {
    i + 1 < |lines| && lines[i + 1].lineNumber <= lines[i].lineNumber + 2 * context + 1
  }

  /** Strictly between two neighbouring matches at most `2 * context + 1` lines apart. */
  ghost predicate InGap(lines: seq<LineMatch>, context: u32, x: nat) {
    exists i :: 0 <= i < |lines| && NextIsClose(lines, context, i) && Between(lines, i, x)
  }

  lemma CloseIsOneBlock(lines: seq<LineMatch>, context: u32, i: nat)
    requires i < |lines|
    ensures NextIsClose(lines, context, i) <==> !EndsBlock(lines, context, i)
  {
  }

  predicate Between(lines: seq<LineMatch>, i: nat, x: nat) {
    i + 1 < |lines| && lines[i].lineNumber < x < lines[i + 1].lineNumber
  }

  ghost predicate IsMatchLine(lines: seq<LineMatch>, x: nat) {
    exists i :: 0 <= i < |lines| && lines[i].lineNumber == x
  }

  ghost predicate NearOutsideGaps(content: bytes, lines: seq<LineMatch>, context: u32, x: nat) {
    Nearby(content, lines, context, x) && !InGap(lines, context, x)
  }

  /** The u32 sums do not wrap. */
  ghost predicate NoWrap(lines: seq<LineMatch>, context: u32) {
    forall i :: 0 <= i < |lines| ==> lines[i].lineNumber + context <= U32_MAX
  }

  ghost predicate ShownWithSome(r: seq<LineMatch>, x: nat) {
    exists j :: 0 <= j < |r| && x in Shown(r[j])
  }

  lemma {:induction false} DisplayMember(r: seq<LineMatch>, x: nat)
    ensures x in Display(r) <==> ShownWithSome(r, x)
    decreases |r|
  {
    hide Shown;
    if r != [] {
      var init, last := r[..|r| - 1], r[|r| - 1];
      DisplayMember(init, x);
      if ShownWithSome(init, x) {
        var j :| 0 <= j < |init| && x in Shown(init[j]);
        assert x in Shown(r[j]);
      }
      if ShownWithSome(r, x) {
        var j :| 0 <= j < |r| && x in Shown(r[j]);
        if j < |init| { assert x in Shown(init[j]); }
      }
    }
  }

  lemma Neighbours(lines: seq<LineMatch>, i: nat)
    requires Increasing(Numbers(lines)) && i + 1 < |lines|
    ensures lines[i].lineNumber < lines[i + 1].lineNumber
  {
    assert Numbers(lines)[i] < Numbers(lines)[i + 1];
  }

  /** A line below a match and in no gap is reached by trailing context or is a match itself. */
  lemma {:induction false} ShownAfter(
      content: bytes, lines: seq<LineMatch>, context: u32, r: seq<LineMatch>, i: nat, x: nat)
    requires Attached(content, lines, context, r) && |r| == |lines| && Increasing(Numbers(lines))
    requires NoWrap(lines, context) && !InGap(lines, context, x)
    requires i < |lines| && x <= TotalLines(content) && lines[i].lineNumber <= x <= lines[i].lineNumber + context
    ensures ShownWithSome(r, x)
    decreases |lines| - i
  {
    hide WithContext, Shown, TotalLines, StartsBlock, LinesExist, InGap;
    ShownExact(content, lines, context, i, x);
    if x in Shown(r[i]) {
    } else {
      assert !EndsBlock(lines, context, i);
      Neighbours(lines, i);
      assert !Between(lines, i, x) by { NotInGap(lines, context, x, i); }
      ShownAfter(content, lines, context, r, i + 1, x);
    }
  }

  lemma NotInGap(lines: seq<LineMatch>, context: u32, x: nat, i: nat)
    requires !InGap(lines, context, x) && i < |lines| && !EndsBlock(lines, context, i)
    ensures !Between(lines, i, x)
  {
    CloseIsOneBlock(lines, context, i);
  }

  lemma {:induction false} ShownBefore(
      content: bytes, lines: seq<LineMatch>, context: u32, r: seq<LineMatch>, i: nat, x: nat)
    requires Attached(content, lines, context, r) && |r| == |lines| && Increasing(Numbers(lines))
    requires !InGap(lines, context, x)
    requires i < |lines| && 1 <= x <= lines[i].lineNumber <= x + context
    ensures ShownWithSome(r, x)
    decreases i
  {
    hide WithContext, Shown, TotalLines, AfterEnd, LinesExist, InGap;
    ShownExact(content, lines, context, i, x);
    if x in Shown(r[i]) {
    } else {
      assert !StartsBlock(lines, context, i);
      Neighbours(lines, i - 1);
      assert !Between(lines, i - 1, x) by { NotInGap(lines, context, x, i - 1); }
      ShownBefore(content, lines, context, r, i - 1, x);
    }
  }

  lemma TotalBounds(content: bytes)
    ensures |Newlines(content)| <= TotalLines(content) <= |Newlines(content)| + 1
  {
  }

  /** Only matches and lines near them are shown. */
  lemma ShownIsNear(content: bytes, lines: seq<LineMatch>, context: u32, i: nat, x: nat)
    requires LinesExist(content, lines) && i < |lines| && lines[i].before == [] && lines[i].after == []
    requires x in Shown(WithContext(content, lines, context, i))
    ensures IsMatchLine(lines, x) || Nearby(content, lines, context, x)
  {
    hide WithContext, StartsBlock, EndsBlock, Newlines, Shown, TotalLines;
    ShownExact(content, lines, context, i, x);
    TotalBounds(content);
    BeforeStartSum(lines[i].lineNumber, context);
    AfterEndSum(content, lines[i].lineNumber, context);
  }

  /**
   * Exactly the matches are shown, and of the lines within the context distance of a match those that do not lie
   * between two neighbouring matches of one block.
   */
  lemma DisplayExactly(content: bytes, lines: seq<LineMatch>, context: u32, r: seq<LineMatch>, x: nat)
    requires Attached(content, lines, context, r) && |r| == |lines| && Increasing(Numbers(lines))
    requires NoWrap(lines, context)
    ensures x in Display(r)
       <==> IsMatchLine(lines, x) || NearOutsideGaps(content, lines, context, x)
  {
    hide WithContext, Shown, TotalLines, LinesExist, Display, Between, EndsBlock, StartsBlock;
    DisplayMember(r, x);
    if x in Display(r) {
      var j :| 0 <= j < |r| && x in Shown(r[j]);
      ShownIsNear(content, lines, context, j, x);
      if InGap(lines, context, x) {
        var i :| 0 <= i < |lines| && NextIsClose(lines, context, i) && Between(lines, i, x);
        GapIsHidden(content, lines, context, r, i, x);
      }
    } else if IsMatchLine(lines, x) {
      var i :| 0 <= i < |lines| && lines[i].lineNumber == x;
      ShownExact(content, lines, context, i, x);
    } else if Nearby(content, lines, context, x) && !InGap(lines, context, x) {
      var i :| 0 <= i < |lines| && lines[i].lineNumber <= x + context && x <= lines[i].lineNumber + context;
      if lines[i].lineNumber <= x { ShownAfter(content, lines, context, r, i, x); }
      else { ShownBefore(content, lines, context, r, i, x); }
    }
  }

  lemma GapIsHidden(content: bytes, lines: seq<LineMatch>, context: u32, r: seq<LineMatch>, i: nat, x: nat)
    requires Attached(content, lines, context, r) && |r| == |lines| && Increasing(Numbers(lines))
    requires i < |lines| && NextIsClose(lines, context, i) && Between(lines, i, x)
    ensures x !in Display(r)
  {
    hide Attached, Display, EndsBlock;
    GapHidden(content, lines, context, r, i, x);
  }

  /** Matches at most `2 * context + 1` lines apart follow each other line by line. */
  ghost predicate Contiguous(lines: seq<LineMatch>, context: u32) {
    forall i :: 0 <= i < |lines| && NextIsClose(lines, context, i) ==> FollowsAt(lines, i)
  }

  predicate FollowsAt(lines: seq<LineMatch>, i: nat) {
    i + 1 < |lines| && lines[i + 1].lineNumber == lines[i].lineNumber + 1
  }

  /** Every line of the file near a match is shown if and only if no block has a gap. */
  lemma NearbyShownExactly(content: bytes, lines: seq<LineMatch>, context: u32, r: seq<LineMatch>)
    requires Attached(content, lines, context, r) && |r| == |lines| && Increasing(Numbers(lines))
    requires NoWrap(lines, context) && context >= 1
    ensures (forall x: nat :: Nearby(content, lines, context, x) ==> x in Display(r)) <==> Contiguous(lines, context)
  {
    hide Attached, Display, TotalLines, NextIsClose, Nearby, InGap;
    forall x: nat
      ensures x in Display(r)
         <==> IsMatchLine(lines, x) || (Nearby(content, lines, context, x) && !InGap(lines, context, x))
    {
      DisplayExactly(content, lines, context, r, x);
    }
    if Contiguous(lines, context) {
      forall x: nat ensures !InGap(lines, context, x) { NoGaps(lines, context, x); }
    } else {
      var i :| 0 <= i < |lines| && NextIsClose(lines, context, i) && !FollowsAt(lines, i);
      BlockGap(content, lines, context, r, i);
    }
  }

  lemma NoGaps(lines: seq<LineMatch>, context: u32, x: nat)
    requires Contiguous(lines, context)
    ensures !InGap(lines, context, x)
  {
    hide NextIsClose;
    forall i | 0 <= i < |lines| && NextIsClose(lines, context, i) ensures !Between(lines, i, x) {
      assert FollowsAt(lines, i);
    }
  }

  /** The line after a match that does not end its block, unless it is a match, is near and hidden. */
  lemma BlockGap(content: bytes, lines: seq<LineMatch>, context: u32, r: seq<LineMatch>, i: nat)
    requires Attached(content, lines, context, r) && |r| == |lines| && Increasing(Numbers(lines)) && context >= 1
    requires i < |lines| && NextIsClose(lines, context, i) && !FollowsAt(lines, i)
    ensures Nearby(content, lines, context, lines[i].lineNumber + 1)
    ensures lines[i].lineNumber + 1 !in Display(r)
  {
    hide Display, TotalLines, Newlines;
    Neighbours(lines, i);
    TotalBounds(content);
    assert Between(lines, i, lines[i].lineNumber + 1);
    GapIsHidden(content, lines, context, r, i, lines[i].lineNumber + 1);
  }
}
