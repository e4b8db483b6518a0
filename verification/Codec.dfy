/** Delta + varint coding of posting lists (ferret-core/src/codec.rs). */
module Codec {
  // Varints are unsigned LEB128 as in section 7.6 of DWARF version 5, read into a u32: at most five groups, and a
  // value above u32::MAX is an error. The four loops of the source are methods; each is proved equal to a recursive
  // function, and the laws are lemmas about those functions.

  import opened Base

  type Posting = (u32, u32)

  datatype Read = Read(value: u32, used: nat)

  const MAX_GROUPS: nat := 5

  function VarintBytes(n: nat): (b: bytes)
    ensures |b| >= 1
  {
    if n < 128 then [n] else [128 + n % 128] + VarintBytes(n / 128)
  }

  /** The groups of one varint: value and number of bytes, or None if it does not end within `room` bytes. */
  function ReadGroups(data: bytes, room: nat): (r: Option<(nat, nat)>)
    ensures r.Some? ==> 1 <= r.value.1 <= |data|
  {
    if room == 0 || data == [] then None
    else if data[0] < 128 then Some((data[0], 1))
    else
      match ReadGroups(data[1..], room - 1)
      case None => None
      case Some((high, used)) => Some((128 * high + data[0] - 128, used + 1))
  }

  function ReadVarint(data: bytes): (r: Option<Read>)
    ensures r.Some? ==> 1 <= r.value.used <= |data|
  {
    match ReadGroups(data, MAX_GROUPS)
    case Some((v, used)) => if v <= U32_MAX then Some(Read(v, used)) else None
    case None => None
  }

  function GroupLimit(room: nat): nat {
    if room == 0 then 1 else 128 * GroupLimit(room - 1)
  }

  lemma {:induction false} ReadGroupsWritten(n: nat, room: nat, rest: bytes)
    requires room > 0 && n < GroupLimit(room)
    ensures ReadGroups(VarintBytes(n) + rest, room) == Some((n, |VarintBytes(n)|))
  {
    if n >= 128 {
      assert room > 1 by { assert GroupLimit(0) == 1; }
      ReadGroupsWritten(n / 128, room - 1, rest);
      assert (VarintBytes(n) + rest)[1..] == VarintBytes(n / 128) + rest;
    }
  }

  /** Reading one varint from the front of a buffer consumes exactly the bytes that were written for it. */
  lemma ReadVarintWritten(n: u32, rest: bytes)
    ensures ReadVarint(VarintBytes(n) + rest) == Some(Read(n, |VarintBytes(n)|))
  {
    assert GroupLimit(5) == 128 * GroupLimit(4) == 128 * (128 * GroupLimit(3));
    assert GroupLimit(3) == 128 * GroupLimit(2) == 128 * (128 * GroupLimit(1));
    ReadGroupsWritten(n, MAX_GROUPS, rest);
  }

  // ---- file lists ----

  function DeltaBytes(prev: u32, values: seq<u32>): bytes
    decreases |values|
  {
    if values == [] then []
    else VarintBytes(WrappingSub(values[0], prev)) + DeltaBytes(values[0], values[1..])
  }

  /** Decoding: running saturated sums, stopping silently at the first malformed varint. */
  function DeltaValues(acc: u32, data: bytes): (r: seq<u32>)
    decreases |data|
  {
    match ReadVarint(data)
    case None => []
    case Some(d) =>
      var next := SaturatingAdd(acc, d.value);
      [next] + DeltaValues(next, data[d.used..])
  }

  /** Writing one more delta moves it from the pending list to the buffer. */
  lemma DeltaStep(buf: bytes, prev: u32, values: seq<u32>, i: nat)
    requires i < |values|
    ensures buf + DeltaBytes(prev, values[i..])
         == buf + VarintBytes(WrappingSub(values[i], prev)) + DeltaBytes(values[i], values[i + 1..])
  {
    assert values[i..][1..] == values[i + 1..];
  }

  method EncodeDeltaVarint(values: seq<u32>) returns (buf: bytes)
    ensures buf == DeltaBytes(0, values)
  {
    buf := [];
    var prev: u32 := 0;
    for i := 0 to |values|
      invariant buf + DeltaBytes(prev, values[i..]) == DeltaBytes(0, values)
    {
      var val := values[i];
      DeltaStep(buf, prev, values, i);
      buf := buf + VarintBytes(WrappingSub(val, prev));
      prev := val;
    }
  }

  method DecodeDeltaVarint(data: bytes) returns (result: seq<u32>)
    ensures result == DeltaValues(0, data)
  {
    result := [];
    var accumulator: u32 := 0;
    var position: nat := 0;
    while position < |data|
      invariant position <= |data|
      invariant result + DeltaValues(accumulator, data[position..]) == DeltaValues(0, data)
    {
      var read := ReadVarint(data[position..]);
      if read.None? { break; }
      ghost var before := result + DeltaValues(accumulator, data[position..]);
      assert data[position..][read.value.used..] == data[position + read.value.used..];
      accumulator := SaturatingAdd(accumulator, read.value.value);
      result := result + [accumulator];
      position := position + read.value.used;
      assert before == result + DeltaValues(accumulator, data[position..]);
    }
  }

  /** `count` values decoded from the front of a buffer; `complete` is false if a varint was malformed. */
  datatype Taken = Taken(values: seq<u32>, used: nat, complete: bool)

  function TakeDeltas(acc: u32, data: bytes, count: nat): (t: Taken)
    ensures t.used <= |data| && |t.values| <= count
    decreases count
  {
    if count == 0 then Taken([], 0, true)
    else
      match ReadVarint(data)
      case None => Taken([], 0, false)
      case Some(d) =>
        var next := SaturatingAdd(acc, d.value);
        var rest := TakeDeltas(next, data[d.used..], count - 1);
        Taken([next] + rest.values, d.used + rest.used, rest.complete)
  }

  ghost predicate SortedFrom(low: u32, values: seq<u32>) {
    Nondecreasing(values) && (values != [] ==> low <= values[0])
  }

  lemma {:induction false} TakeDeltasWritten(acc: u32, xs: seq<u32>, rest: bytes)
    requires SortedFrom(acc, xs)
    ensures TakeDeltas(acc, DeltaBytes(acc, xs) + rest, |xs|) == Taken(xs, |DeltaBytes(acc, xs)|, true)
    decreases |xs|
  {
    if xs != [] {
      var head := VarintBytes(WrappingSub(xs[0], acc));
      var tail := DeltaBytes(xs[0], xs[1..]) + rest;
      assert DeltaBytes(acc, xs) + rest == head + tail;
      ReadVarintWritten(WrappingSub(xs[0], acc), tail);
      assert (head + tail)[|head|..] == tail;
      TakeDeltasWritten(xs[0], xs[1..], rest);
    }
  }

  /** Even for unsorted values the varints line up; what comes back is then nondecreasing, so not the values. */
  lemma {:induction false} TakeDeltasAligned(acc: u32, prev: u32, xs: seq<u32>, rest: bytes)
    ensures var t := TakeDeltas(acc, DeltaBytes(prev, xs) + rest, |xs|);
            && t == TakeDeltas(acc, DeltaBytes(prev, xs), |xs|)
            && t.complete && t.used == |DeltaBytes(prev, xs)|
            && |t.values| == |xs| && SortedFrom(acc, t.values)
    decreases |xs|
  {
    hide ReadVarint, VarintBytes, TakeDeltas;
    if xs == [] {
      TakeDeltasNone(acc, DeltaBytes(prev, xs) + rest);
      TakeDeltasNone(acc, DeltaBytes(prev, xs));
    } else {
      var delta := WrappingSub(xs[0], prev);
      var head, tail := VarintBytes(delta), DeltaBytes(xs[0], xs[1..]);
      assert DeltaBytes(prev, xs) + rest == head + (tail + rest);
      ReadVarintWritten(delta, tail + rest);
      ReadVarintWritten(delta, tail);
      assert (head + (tail + rest))[|head|..] == tail + rest && (head + tail)[|head|..] == tail;
      TakeDeltasStep(acc, head + (tail + rest), |xs|);
      TakeDeltasStep(acc, head + tail, |xs|);
      TakeDeltasAligned(SaturatingAdd(acc, delta), xs[0], xs[1..], rest);
    }
  }

  /** Bytes taken by the first `count` varints, or None if one of them is malformed. */
  function SkipVarints(data: bytes, count: nat): (r: Option<nat>)
    ensures r.Some? ==> r.value <= |data|
  {
    if count == 0 then Some(0)
    else
      match ReadVarint(data)
      case None => None
      case Some(d) =>
        match SkipVarints(data[d.used..], count - 1)
        case None => None
        case Some(n) => Some(d.used + n)
  }

  /** Counting |xs| varints from DeltaBytes(xs) ++ rest stops exactly at the boundary, whatever follows. */
  lemma {:induction false} SkipVarintsWritten(prev: u32, xs: seq<u32>, rest: bytes)
    ensures SkipVarints(DeltaBytes(prev, xs) + rest, |xs|) == Some(|DeltaBytes(prev, xs)|)
    decreases |xs|
  {
    hide ReadVarint, VarintBytes;
    if xs != [] {
      var head, tail := VarintBytes(WrappingSub(xs[0], prev)), DeltaBytes(xs[0], xs[1..]) + rest;
      assert DeltaBytes(prev, xs) + rest == head + tail;
      ReadVarintWritten(WrappingSub(xs[0], prev), tail);
      assert (head + tail)[|head|..] == tail;
      SkipVarintsWritten(xs[0], xs[1..], rest);
    }
  }

  lemma {:induction false} DeltaValuesNondecreasing(acc: u32, data: bytes)
    ensures SortedFrom(acc, DeltaValues(acc, data))
    decreases |data|
  {
    match ReadVarint(data)
    case None =>
    case Some(d) => DeltaValuesNondecreasing(SaturatingAdd(acc, d.value), data[d.used..]);
  }

  lemma {:induction false} DeltaValuesWritten(acc: u32, xs: seq<u32>)
    requires SortedFrom(acc, xs)
    ensures DeltaValues(acc, DeltaBytes(acc, xs)) == xs
    decreases |xs|
  {
    if xs != [] {
      var head := VarintBytes(WrappingSub(xs[0], acc));
      var tail := DeltaBytes(xs[0], xs[1..]);
      ReadVarintWritten(WrappingSub(xs[0], acc), tail);
      assert (head + tail)[|head|..] == tail;
      DeltaValuesWritten(xs[0], xs[1..]);
    }
  }

  /** The file-list round trip holds for exactly the nondecreasing lists. */
  lemma DeltaRoundTrip(xs: seq<u32>)
    ensures DeltaValues(0, DeltaBytes(0, xs)) == xs <==> Nondecreasing(xs)
  {
    DeltaValuesNondecreasing(0, DeltaBytes(0, xs));
    if Nondecreasing(xs) { DeltaValuesWritten(0, xs); }
  }

  /** Position i is where a list first falls; from there on the decoder is saturated. */
  ghost predicate FallsAt(xs: seq<u32>, ys: seq<u32>, i: nat) {
    && i < |xs| == |ys| && xs[i] != U32_MAX
    && (forall k :: i <= k < |ys| ==> ys[k] == U32_MAX)
    && (forall k :: 0 <= k < i ==> ys[k] == xs[k])
  }

  lemma {:induction false} SaturatedStays(prev: u32, xs: seq<u32>)
    ensures var ys := DeltaValues(U32_MAX, DeltaBytes(prev, xs));
      |ys| == |xs| && forall k :: 0 <= k < |ys| ==> ys[k] == U32_MAX
    decreases |xs|
  {
    if xs != [] {
      var head, tail := VarintBytes(WrappingSub(xs[0], prev)), DeltaBytes(xs[0], xs[1..]);
      ReadVarintWritten(WrappingSub(xs[0], prev), tail);
      assert (head + tail)[|head|..] == tail;
      SaturatedStays(xs[0], xs[1..]);
    }
  }

  /** What an unsorted list decodes to: itself up to where it first falls, then u32::MAX for ever. */
  lemma {:induction false} UnsortedSaturates(acc: u32, xs: seq<u32>) returns (i: nat)
    requires !SortedFrom(acc, xs)
    ensures FallsAt(xs, DeltaValues(acc, DeltaBytes(acc, xs)), i)
    decreases |xs|
  {
    var head, tail := VarintBytes(WrappingSub(xs[0], acc)), DeltaBytes(xs[0], xs[1..]);
    ReadVarintWritten(WrappingSub(xs[0], acc), tail);
    assert (head + tail)[|head|..] == tail;
    if xs[0] < acc {
      SaturatedStays(xs[0], xs[1..]);
      i := 0;
    } else {
      assert !SortedFrom(xs[0], xs[1..]) by { SortedTail(acc, xs); }
      i := UnsortedSaturates(xs[0], xs[1..]);
      i := i + 1;
    }
  }

  lemma SortedTail(acc: u32, xs: seq<u32>)
    requires xs != [] && xs[0] >= acc
    ensures SortedFrom(xs[0], xs[1..]) ==> SortedFrom(acc, xs)
  {
    if SortedFrom(xs[0], xs[1..]) {
      forall i, j | 0 <= i < j < |xs| ensures xs[i] <= xs[j] {
        assert xs[j] == xs[1..][j - 1] >= xs[1..][0];
        if i > 0 { assert xs[i] == xs[1..][i - 1]; }
      }
    }
  }

  /** The decoded list holds the same numbers, strictly increasing, exactly if the encoded list was increasing. */
  lemma DecodesToSet(xs: seq<u32>)
    ensures var ys := DeltaValues(0, DeltaBytes(0, xs));
      Increasing(ys) && (forall x :: x in ys <==> x in xs) <==> Increasing(xs)
  {
    hide DeltaBytes, DeltaValues;
    var ys := DeltaValues(0, DeltaBytes(0, xs));
    if SortedFrom(0, xs) {
      DeltaRoundTrip(xs);
    } else {
      var i := UnsortedSaturates(0, xs);
      assert forall k :: 0 <= k < |xs| && xs[k] == U32_MAX ==> k != i && ys[k] == U32_MAX;
      assert ys[i] in ys;
      if Increasing(ys) && forall x :: x in ys <==> x in xs { assert false; }
    }
  }

  // ---- positional lists ----

  /** Length of the leading run of postings of one file. */
  function RunLength(p: seq<Posting>): (k: nat)
    requires p != []
    ensures 1 <= k <= |p|
    ensures forall i :: 0 <= i < k ==> p[i].0 == p[0].0
    ensures k < |p| ==> p[k].0 != p[0].0
  {
    if |p| == 1 || p[1].0 != p[0].0 then 1 else 1 + RunLength(p[1..])
  }

  function Offsets(p: seq<Posting>): (r: seq<u32>)
    ensures |r| == |p| && forall i :: 0 <= i < |p| ==> r[i] == p[i].1
  {
    seq(|p|, i requires 0 <= i < |p| => p[i].1)
  }

  function Tagged(file: u32, offsets: seq<u32>): (r: seq<Posting>)
    ensures |r| == |offsets| && forall i :: 0 <= i < |r| ==> r[i] == (file, offsets[i])
  {
    seq(|offsets|, i requires 0 <= i < |offsets| => (file, offsets[i]))
  }

  function GroupBytes(group: seq<Posting>): bytes
    requires group != []
  {
    VarintBytes(group[0].0) + VarintBytes(|group| % U32_MODULUS) + DeltaBytes(0, Offsets(group))
  }

  function PositionBytes(p: seq<Posting>): bytes
    decreases |p|
  {
    if p == [] then []
    else GroupBytes(p[..RunLength(p)]) + PositionBytes(p[RunLength(p)..])
  }

  function PositionValues(data: bytes): seq<Posting>
    decreases |data|
  {
    match ReadVarint(data)
    case None => []
    case Some(file) =>
      match ReadVarint(data[file.used..])
      case None => []
      case Some(count) =>
        var body := data[file.used + count.used..];
        var taken := TakeDeltas(0, body, count.value);
        Tagged(file.value, taken.values) + if taken.complete then PositionValues(body[taken.used..]) else []
  }

  lemma {:induction false} RunLengthIs(p: seq<Posting>, k: nat)
    requires 1 <= k <= |p|
    requires forall i :: 0 <= i < k ==> p[i].0 == p[0].0
    requires k < |p| ==> p[k].0 != p[0].0
    ensures RunLength(p) == k
  {
    if k > 1 { RunLengthIs(p[1..], k - 1); }
  }

  /** Writing one more group moves it from the pending list to the buffer. */
  lemma PositionStep(buf: bytes, p: seq<Posting>, k: nat)
    requires p != [] && k == RunLength(p)
    ensures buf + PositionBytes(p) == buf + GroupBytes(p[..k]) + PositionBytes(p[k..])
  {
    hide GroupBytes, RunLength;
    assert PositionBytes(p) == GroupBytes(p[..k]) + PositionBytes(p[k..]);
  }

  lemma PositionBytesEmpty(p: seq<Posting>)
    requires p == []
    ensures PositionBytes(p) == []
  {
  }

  method EncodePositionalPostings(postings: seq<Posting>) returns (buf: bytes)
    ensures buf == PositionBytes(postings)
  {
    hide GroupBytes, PositionBytes, RunLength;
    buf := [];
    assert PositionBytes(postings) == buf + PositionBytes(postings[0..]);
    var i: nat := 0;
    while i < |postings|
      invariant i <= |postings|
      invariant buf + PositionBytes(postings[i..]) == PositionBytes(postings)
    {
      var fileId := postings[i].0;
      var groupStart := i;
      ghost var start, pending := buf, postings[i..];
      while i < |postings| && postings[i].0 == fileId
        invariant groupStart <= i <= |postings|
        invariant forall j :: groupStart <= j < i ==> postings[j].0 == fileId
      {
        i := i + 1;
      }
      var group := postings[groupStart..i];
      RunLengthIs(pending, |group|);
      PositionStep(start, pending, |group|);
      assert pending[..|group|] == group && pending[|group|..] == postings[i..];
      buf := AppendGroup(buf, fileId, group);
    }
    PositionBytesEmpty(postings[i..]);
  }

  /** The body of the outer loop: file id, count, then the delta-coded offsets of one group. */
  method AppendGroup(start: bytes, fileId: u32, group: seq<Posting>) returns (buf: bytes)
    requires group != [] && group[0].0 == fileId
    ensures buf == start + GroupBytes(group)
  {
    buf := start + VarintBytes(fileId);
    buf := buf + VarintBytes(|group| % U32_MODULUS);
    ghost var offsets := Offsets(group);
    ghost var header := buf;
    var prevOffset: u32 := 0;
    for k := 0 to |group|
      invariant buf + DeltaBytes(prevOffset, offsets[k..]) == header + DeltaBytes(0, offsets)
    {
      var offset := group[k].1;
      DeltaStep(buf, prevOffset, offsets, k);
      buf := buf + VarintBytes(WrappingSub(offset, prevOffset));
      prevOffset := offset;
    }
    assert buf + DeltaBytes(prevOffset, offsets[|group|..]) == buf;
    assert header + DeltaBytes(0, offsets) == start + GroupBytes(group);
  }

  /** The inner loop: `count` offsets of one file pushed in order, giving up at the first malformed varint. */
  method ReadOffsets(data: bytes, from: nat, fileId: u32, count: u32)
    returns (pushed: seq<Posting>, position: nat, complete: bool)
    requires from <= |data|
    ensures var t := TakeDeltas(0, data[from..], count);
            pushed == Tagged(fileId, t.values) && complete == t.complete && position == from + t.used
  {
    hide ReadVarint, TakeDeltas, Tagged, TakePending;
    pushed, position := [], from;
    assert TakePending([], 0, fileId, TakeDeltas(0, data[from..], count), TakeDeltas(0, data[from..], count)) by {
      TakePendingStart(fileId, TakeDeltas(0, data[from..], count));
    }
    var prevOffset: u32 := 0;
    ghost var goal := TakeDeltas(0, data[from..], count);
    for k := 0 to count
      invariant from <= position <= |data|
      invariant TakePending(pushed, position - from, fileId, TakeDeltas(prevOffset, data[position..], count - k), goal)
    {
      ghost var here := data[position..];
      TakePendingStep(pushed, position - from, fileId, prevOffset, here, count - k, goal);
      var delta := ReadVarint(data[position..]);
      if delta.None? { return pushed, position, false; }
      assert here[delta.value.used..] == data[position + delta.value.used..];
      prevOffset := SaturatingAdd(prevOffset, delta.value.value);
      position := position + delta.value.used;
      pushed := pushed + [(fileId, prevOffset)];
    }
    TakeDeltasNone(prevOffset, data[position..]);
    TakePendingEnd(pushed, position - from, fileId, true, goal);
    complete := true;
  }

  lemma TakePendingStart(fileId: u32, goal: Taken)
    ensures TakePending([], 0, fileId, goal, goal)
  {
  }

  lemma TakePendingEnd(pushed: seq<Posting>, used: nat, fileId: u32, complete: bool, goal: Taken)
    requires TakePending(pushed, used, fileId, Taken([], 0, complete), goal)
    ensures pushed == Tagged(fileId, goal.values) && complete == goal.complete && used == goal.used
  {
    assert Tagged(fileId, []) == [];
  }

  /** One read of the inner loop: either the list ends here, incomplete, or one more offset is pushed. */
  lemma TakePendingStep(
      pushed: seq<Posting>, used: nat, fileId: u32, acc: u32, data: bytes, count: nat, goal: Taken)
    requires count > 0 && TakePending(pushed, used, fileId, TakeDeltas(acc, data, count), goal)
    ensures var d := ReadVarint(data);
            if d.None? then pushed == Tagged(fileId, goal.values) && !goal.complete && used == goal.used
            else
              var next := SaturatingAdd(acc, d.value.value);
              TakePending(pushed + [(fileId, next)], used + d.value.used, fileId,
                TakeDeltas(next, data[d.value.used..], count - 1), goal)
  {
    hide ReadVarint, TakeDeltas;
    TakeDeltasStep(acc, data, count);
    var d := ReadVarint(data);
    if d.None? {
      TakePendingEnd(pushed, used, fileId, false, goal);
    } else {
      var next := SaturatingAdd(acc, d.value.value);
      var rest := TakeDeltas(next, data[d.value.used..], count - 1).values;
      assert Tagged(fileId, [next] + rest) == [(fileId, next)] + Tagged(fileId, rest);
      assert pushed + ([(fileId, next)] + Tagged(fileId, rest)) == pushed + [(fileId, next)] + Tagged(fileId, rest);
    }
  }

  /** What is pushed so far plus what `rest` still yields is the goal. */
  ghost predicate TakePending(pushed: seq<Posting>, used: nat, fileId: u32, rest: Taken, goal: Taken) {
    && pushed + Tagged(fileId, rest.values) == Tagged(fileId, goal.values)
    && rest.complete == goal.complete
    && used + rest.used == goal.used
  }

  lemma TakeDeltasNone(acc: u32, data: bytes)
    ensures TakeDeltas(acc, data, 0) == Taken([], 0, true)
  {
  }

  lemma TakeDeltasStep(acc: u32, data: bytes, count: nat)
    requires count > 0
    ensures var d := ReadVarint(data);
            if d.None? then TakeDeltas(acc, data, count) == Taken([], 0, false)
            else
              var next := SaturatingAdd(acc, d.value.value);
              var rest := TakeDeltas(next, data[d.value.used..], count - 1);
              TakeDeltas(acc, data, count) == Taken([next] + rest.values, d.value.used + rest.used, rest.complete)
  {
  }

  method DecodePositionalPostings(data: bytes) returns (result: seq<Posting>)
    ensures result == PositionValues(data)
  {
    hide ReadVarint, TakeDeltas, PositionValues;
    result := [];
    var position: nat := 0;
    while position < |data|
      invariant position <= |data|
      invariant result + PositionValues(data[position..]) == PositionValues(data)
    {
      ghost var here := data[position..];
      PositionValuesStep(here);
      var file := ReadVarint(data[position..]);
      if file.None? { break; }
      position := position + file.value.used;
      assert here[file.value.used..] == data[position..];
      var count := ReadVarint(data[position..]);
      if count.None? { return; }
      position := position + count.value.used;
      ghost var body := data[position..];
      assert here[file.value.used + count.value.used..] == body;
      var pushed, complete;
      pushed, position, complete := ReadOffsets(data, position, file.value.value, count.value.value);
      assert body[TakeDeltas(0, body, count.value.value).used..] == data[position..];
      result := result + pushed;
      if !complete { return; }
    }
    PositionValuesStep(data[position..]);
  }

  lemma PositionValuesStep(data: bytes)
    ensures var file := ReadVarint(data);
            if file.None? then PositionValues(data) == []
            else
              var count := ReadVarint(data[file.value.used..]);
              if count.None? then PositionValues(data) == []
              else
                var body := data[file.value.used + count.value.used..];
                var t := TakeDeltas(0, body, count.value.value);
                PositionValues(data)
                == Tagged(file.value.value, t.values) + (if t.complete then PositionValues(body[t.used..]) else [])
    ensures data == [] ==> PositionValues(data) == []
  {
    hide TakeDeltas;
  }

  ghost predicate RunsSorted(p: seq<Posting>) {
    forall i :: 0 <= i < |p| - 1 && p[i].0 == p[i + 1].0 ==> p[i].1 <= p[i + 1].1
  }

  lemma {:induction false} NeighboursSorted(s: seq<int>)
    requires forall i :: 0 <= i < |s| - 1 ==> s[i] <= s[i + 1]
    ensures Nondecreasing(s)
  {
    if |s| > 1 {
      var t := s[..|s| - 1];
      NeighboursSorted(t);
      forall i, j | 0 <= i < j < |s| ensures s[i] <= s[j] {
        assert s[i] == t[i];
        if j < |t| { assert t[j] == s[j]; } else { assert t[|t| - 1] == s[|t| - 1]; }
      }
    }
  }

  /** Decoding one group, given how its three parts are read. */
  lemma PositionGroup(data: bytes, file: Read, count: Read, body: bytes, offsets: seq<u32>, rest: bytes)
    requires ReadVarint(data) == Some(file)
    requires ReadVarint(data[file.used..]) == Some(count)
    requires file.used + count.used <= |data| && data[file.used + count.used..] == body
    requires var t := TakeDeltas(0, body, count.value);
             t.complete && t.values == offsets && body[t.used..] == rest
    ensures PositionValues(data) == Tagged(file.value, offsets) + PositionValues(rest)
  {
    hide ReadVarint, TakeDeltas, PositionValues;
    PositionValuesStep(data);
  }

  /** What decoding gives back for one group: the file id with the sums of the wrapped deltas. */
  function Decoded(group: seq<Posting>): seq<Posting>
    requires group != []
  {
    Tagged(group[0].0, TakeDeltas(0, DeltaBytes(0, Offsets(group)), |group|).values)
  }

  /** One encoded group followed by anything decodes to that group's image followed by what follows. */
  lemma GroupWritten(group: seq<Posting>, rest: bytes)
    requires 0 < |group| <= U32_MAX
    ensures PositionValues(GroupBytes(group) + rest) == Decoded(group) + PositionValues(rest)
    ensures |Decoded(group)| == |group|
  {
    hide VarintBytes, DeltaBytes, ReadVarint, TakeDeltas, PositionValues;
    var file, count, offsets := VarintBytes(group[0].0), VarintBytes(|group|), Offsets(group);
    var body := DeltaBytes(0, offsets) + rest;
    var data := file + (count + body);
    assert GroupBytes(group) + rest == data;
    ReadVarintWritten(group[0].0, count + body);
    assert data[|file|..] == count + body;
    ReadVarintWritten(|group|, body);
    assert data[|file| + |count|..] == body;
    TakeDeltasAligned(0, 0, offsets, rest);
    TakeDeltasAligned(0, 0, offsets, []);
    assert DeltaBytes(0, offsets) + [] == DeltaBytes(0, offsets);
    assert body[|DeltaBytes(0, offsets)|..] == rest;
    PositionGroup(data, Read(group[0].0, |file|), Read(|group|, |count|), body,
      TakeDeltas(0, body, |group|).values, rest);
  }

  lemma DecodedIsGroup(group: seq<Posting>)
    requires group != [] && forall i :: 0 <= i < |group| ==> group[i].0 == group[0].0
    ensures Decoded(group) == group <==> Nondecreasing(Offsets(group))
  {
    hide DeltaBytes, TakeDeltas;
    var offsets := Offsets(group);
    var data := DeltaBytes(0, offsets);
    TakeDeltasAligned(0, 0, offsets, []);
    assert data + [] == data;
    if Nondecreasing(offsets) {
      TakeDeltasWritten(0, offsets, []);
      assert Tagged(group[0].0, offsets) == group;
    }
    if Decoded(group) == group {
      var values := TakeDeltas(0, data, |group|).values;
      assert forall i :: 0 <= i < |group| ==> Decoded(group)[i].1 == values[i];
      assert offsets == values;
    }
  }

  lemma RunSorted(p: seq<Posting>, k: nat)
    requires RunsSorted(p) && k <= |p|
    requires forall i :: 0 <= i < k ==> p[i].0 == p[0].0
    ensures Nondecreasing(Offsets(p[..k]))
  {
    var offsets := Offsets(p[..k]);
    assert forall i :: 0 <= i < k ==> offsets[i] == p[i].1;
    NeighboursSorted(offsets);
  }

  /** The positional round trip holds for exactly the lists whose offsets are sorted within each file's run. */
  lemma {:induction false} PositionRoundTrip(p: seq<Posting>)
    requires |p| <= U32_MAX
    ensures PositionValues(PositionBytes(p)) == p <==> RunsSorted(p)
    decreases |p|
  {
    hide GroupBytes, Decoded, PositionBytes, PositionValues, RunLength, ReadVarint;
    if p == [] {
      PositionBytesEmpty(p);
      PositionValuesStep([]);
    } else {
      var k := RunLength(p);
      var group, rest := p[..k], p[k..];
      assert p == group + rest;
      PositionRoundTrip(rest);
      GroupWritten(group, PositionBytes(rest));
      DecodedIsGroup(group);
      RunsSortedSplit(p, k);
      PositionStep([], p, k);
      assert [] + PositionBytes(p) == PositionBytes(p) && [] + GroupBytes(group) == GroupBytes(group);
      var back := PositionValues(PositionBytes(p));
      if back == p {
        assert Decoded(group) == back[..k] && PositionValues(PositionBytes(rest)) == back[k..];
      }
    }
  }

  lemma RunsSortedSplit(p: seq<Posting>, k: nat)
    requires p != [] && k == RunLength(p)
    ensures RunsSorted(p) <==> Nondecreasing(Offsets(p[..k])) && RunsSorted(p[k..])
  {
    hide RunLength;
    if RunsSorted(p) {
      RunSorted(p, k);
      RestRunsSorted(p, k);
    }
    if Nondecreasing(Offsets(p[..k])) && RunsSorted(p[k..]) {
      forall i | 0 <= i < |p| - 1 && p[i].0 == p[i + 1].0 ensures p[i].1 <= p[i + 1].1 {
        if i + 1 < k {
          assert Offsets(p[..k])[i] == p[i].1 && Offsets(p[..k])[i + 1] == p[i + 1].1;
        } else if i >= k {
          assert p[k..][i - k] == p[i] && p[k..][i - k + 1] == p[i + 1];
        }
      }
    }
  }

  lemma RestRunsSorted(p: seq<Posting>, k: nat)
    requires RunsSorted(p) && k <= |p|
    ensures RunsSorted(p[k..])
  {
    forall i | 0 <= i < |p[k..]| - 1 && p[k..][i].0 == p[k..][i + 1].0 ensures p[k..][i].1 <= p[k..][i + 1].1 {
      assert p[k..][i] == p[k + i] && p[k..][i + 1] == p[k + i + 1];
    }
  }
}
