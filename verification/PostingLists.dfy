/** The in-memory posting-list builder (ferret-core/src/posting.rs). */
module PostingLists {
  // `added` records the files given to the builder. The class invariant ties both hash maps to it, trigram by
  // trigram, and Finalize replaces every list by its sorted, deduplicated form.

  import opened Base
  import opened Codec
  import opened Sorting
  import opened Trigrams

  type Files = seq<(u32, bytes)>

  /** Ids pushed for trigram `t` while the windows `tris` of file `id` are scanned. */
  function Pushed(id: u32, tris: seq<Trigram>, t: Trigram): seq<u32>
    decreases |tris|
  {
    if tris == [] then []
    else Pushed(id, tris[..|tris| - 1], t) + if tris[|tris| - 1] == t then [id] else []
  }

  function PushedAll(added: Files, t: Trigram): seq<u32>
    decreases |added|
  {
    if added == [] then []
    else
      var last := added[|added| - 1];
      PushedAll(added[..|added| - 1], t) + Pushed(last.0, FoldedTrigrams(last.1), t)
  }

  /** (id, offset) pairs pushed for `t`; the offset is cut to 32 bits as the source's `as u32` does. */
  function PushedAt(id: u32, tris: seq<Trigram>, t: Trigram): seq<Posting>
    decreases |tris|
  {
    if tris == [] then []
    else
      PushedAt(id, tris[..|tris| - 1], t)
      + if tris[|tris| - 1] == t then [(id, (|tris| - 1) % U32_MODULUS)] else []
  }

  function PushedAtAll(added: Files, t: Trigram): seq<Posting>
    decreases |added|
  {
    if added == [] then []
    else
      var last := added[|added| - 1];
      PushedAtAll(added[..|added| - 1], t) + PushedAt(last.0, FoldedTrigrams(last.1), t)
  }

  lemma PushedStep(id: u32, tris: seq<Trigram>, k: nat, t: Trigram)
    requires k < |tris|
    ensures tris[k] == t ==> Pushed(id, tris[..k + 1], t) == Pushed(id, tris[..k], t) + [id]
    ensures tris[k] == t ==> PushedAt(id, tris[..k + 1], t) == PushedAt(id, tris[..k], t) + [(id, k % U32_MODULUS)]
    ensures tris[k] != t ==> Pushed(id, tris[..k + 1], t) == Pushed(id, tris[..k], t)
    ensures tris[k] != t ==> PushedAt(id, tris[..k + 1], t) == PushedAt(id, tris[..k], t)
  {
    var longer := tris[..k + 1];
    assert longer[..|longer| - 1] == tris[..k] && longer[|longer| - 1] == tris[k];
  }

  function Lookup<V>(m: map<Trigram, seq<V>>, t: Trigram): seq<V> {
    if t in m then m[t] else []
  }

  ghost predicate HoldsIds(m: map<Trigram, seq<u32>>, added: Files, id: u32, tris: seq<Trigram>) {
    forall t :: Lookup(m, t) == PushedAll(added, t) + Pushed(id, tris, t)
  }

  ghost predicate HoldsPositions(m: map<Trigram, seq<Posting>>, added: Files, id: u32, tris: seq<Trigram>) {
    forall t :: Lookup(m, t) == PushedAtAll(added, t) + PushedAt(id, tris, t)
  }

  lemma HoldsIdsStep(m: map<Trigram, seq<u32>>, added: Files, id: u32, tris: seq<Trigram>, k: nat)
    requires k < |tris| && HoldsIds(m, added, id, tris[..k])
    ensures HoldsIds(m[tris[k] := Lookup(m, tris[k]) + [id]], added, id, tris[..k + 1])
  {
    hide Pushed, PushedAll;
    var m' := m[tris[k] := Lookup(m, tris[k]) + [id]];
    forall t ensures Lookup(m', t) == PushedAll(added, t) + Pushed(id, tris[..k + 1], t) {
      PushedStep(id, tris, k, t);
    }
  }

  lemma HoldsPositionsStep(m: map<Trigram, seq<Posting>>, added: Files, id: u32, tris: seq<Trigram>, k: nat)
    requires k < |tris| && HoldsPositions(m, added, id, tris[..k])
    ensures HoldsPositions(m[tris[k] := Lookup(m, tris[k]) + [(id, k % U32_MODULUS)]], added, id, tris[..k + 1])
  {
    hide PushedAt, PushedAtAll;
    var m' := m[tris[k] := Lookup(m, tris[k]) + [(id, k % U32_MODULUS)]];
    forall t ensures Lookup(m', t) == PushedAtAll(added, t) + PushedAt(id, tris[..k + 1], t) {
      PushedStep(id, tris, k, t);
      if t == tris[k] {
        var e := (id, k % U32_MODULUS);
        assert Lookup(m', t) == Lookup(m, t) + [e];
        assert (PushedAtAll(added, t) + PushedAt(id, tris[..k], t)) + [e]
            == PushedAtAll(added, t) + (PushedAt(id, tris[..k], t) + [e]);
      }
    }
  }

  // ---- sorting and deduplication ----

  function IdKey(id: u32): int { id }

  function PostingKey(p: Posting): int { p.0 * U32_MODULUS + p.1 }

  function SortedIds(s: seq<u32>): seq<u32> { SortBy(s, IdKey) }

  function SortedPostings(s: seq<Posting>): seq<Posting> { SortBy(s, PostingKey) }

  /** Vec::dedup: drop an element equal to the one kept just before it. */
  function Dedup(s: seq<u32>): (r: seq<u32>)
    ensures r == [] <==> s == []
    ensures s != [] ==> r[0] == s[0]
    ensures forall x :: x in r <==> x in s
  {
    if |s| <= 1 then s
    else if s[0] == s[1] then Dedup(s[1..])
    else
      assert forall x :: x in s <==> x == s[0] || x in s[1..];
      [s[0]] + Dedup(s[1..])
  }

  /** Deduplication yields a strictly increasing list from exactly the nondecreasing ones. */
  lemma {:induction false} DedupIncreasing(s: seq<u32>)
    ensures Increasing(Dedup(s)) <==> Nondecreasing(s)
  {
    if |s| > 1 {
      var tail := s[1..];
      DedupIncreasing(tail);
      assert forall i :: 0 <= i < |tail| ==> tail[i] == s[i + 1];
      var rest := Dedup(tail);
      if Nondecreasing(s) && s[0] != s[1] {
        forall j | 0 <= j < |rest| ensures s[0] < rest[j] { assert rest[j] in tail; }
      }
      if Increasing(Dedup(s)) {
        var all := Dedup(s);
        if s[0] != s[1] {
          assert forall j :: 0 <= j < |rest| ==> rest[j] == all[j + 1];
          assert all[0] < all[1];
        }
        assert s[0] <= s[1];
      }
    }
  }

  /** The final file list of one trigram: file-only builders skip the sort. */
  function FinalIds(storePositions: bool, pushed: seq<u32>): seq<u32> {
    Dedup(if storePositions then SortedIds(pushed) else pushed)
  }

  /** While files are added: every list is what the files pushed, in push order. */
  ghost predicate RawMaps(
    files: map<Trigram, seq<u32>>, positions: map<Trigram, seq<Posting>>, storePositions: bool, added: Files)
  {
    && (forall t :: t in files ==> files[t] != [])
    && (forall t :: Lookup(files, t) == PushedAll(added, t))
    && (storePositions ==>
          positions.Keys == files.Keys && forall t :: Lookup(positions, t) == PushedAtAll(added, t))
    && (!storePositions ==> positions == map[])
  }

  /** After Finalize: the same lists, sorted and deduplicated. */
  ghost predicate FinalMaps(
    files: map<Trigram, seq<u32>>, positions: map<Trigram, seq<Posting>>, storePositions: bool, added: Files)
  {
    && (forall t :: t in files <==> PushedAll(added, t) != [])
    && (forall t :: t in files ==> files[t] == FinalIds(storePositions, PushedAll(added, t)))
    && (storePositions ==>
          && positions.Keys == files.Keys
          && forall t :: t in files ==> positions[t] == SortedPostings(PushedAtAll(added, t)))
    && (!storePositions ==> positions == map[])
  }

  lemma RawFileOnly(
      files: map<Trigram, seq<u32>>, positions: map<Trigram, seq<Posting>>, storePositions: bool, added: Files)
    requires RawMaps(files, positions, storePositions, added)
    ensures !storePositions ==> positions == map[]
  {
  }

  lemma RawToFinal(
      files: map<Trigram, seq<u32>>, positions: map<Trigram, seq<Posting>>,
      files': map<Trigram, seq<u32>>, positions': map<Trigram, seq<Posting>>, storePositions: bool, added: Files)
    requires RawMaps(files, positions, storePositions, added)
    requires files'.Keys == files.Keys && positions'.Keys == positions.Keys
    requires forall t :: t in files ==> files'[t] == FinalIds(storePositions, files[t])
    requires forall t :: t in positions ==> positions'[t] == SortedPostings(positions[t])
    ensures FinalMaps(files', positions', storePositions, added)
  {
    hide PushedAll, PushedAtAll, FinalIds, SortedPostings;
    forall t ensures t in files' <==> PushedAll(added, t) != [] {
      assert Lookup(files, t) == PushedAll(added, t);
    }
    forall t | t in files' ensures files'[t] == FinalIds(storePositions, PushedAll(added, t)) {
      assert Lookup(files, t) == PushedAll(added, t);
    }
    if storePositions {
      forall t | t in files' ensures positions'[t] == SortedPostings(PushedAtAll(added, t)) {
        assert Lookup(positions, t) == PushedAtAll(added, t);
      }
    }
  }

  // ---- what the final lists mean ----

  /** Trigrams of everything added under one file id. */
  ghost predicate HasTrigram(added: Files, id: u32, t: Trigram) {
    exists k :: 0 <= k < |added| && added[k].0 == id && t in FoldedSet(added[k].1)
  }

  /** No file was added behind one with a larger id that shares a folded trigram with it. */
  ghost predicate SharersInOrder(added: Files) {
    forall i, j :: 0 <= i < j < |added| && added[i].0 > added[j].0 ==>
      FoldedSet(added[i].1) * FoldedSet(added[j].1) == {}
  }

  lemma {:induction false} PushedMeaning(id: u32, tris: seq<Trigram>, t: Trigram, x: u32)
    ensures x in Pushed(id, tris, t) <==> x == id && t in tris
    decreases |tris|
  {
    if tris != [] {
      var init, last := tris[..|tris| - 1], tris[|tris| - 1];
      PushedMeaning(id, init, t, x);
      assert t in tris <==> t in init || t == last;
      InConcat(Pushed(id, init, t), if last == t then [id] else [], x);
    }
  }

  lemma InConcat(a: seq<u32>, b: seq<u32>, x: u32)
    ensures x in a + b <==> x in a || x in b
  {
  }

  lemma {:induction false} PushedAllMeaning(added: Files, t: Trigram, x: u32)
    ensures x in PushedAll(added, t) <==> HasTrigram(added, x, t)
    decreases |added|
  {
    if added == [] {
    } else {
      hide Pushed, HasTrigram, FoldedTrigrams;
      var init, last := added[..|added| - 1], added[|added| - 1];
      PushedAllMeaning(init, t, x);
      PushedMeaning(last.0, FoldedTrigrams(last.1), t, x);
      HasTrigramSplit(init, last, x, t);
      assert added == init + [last];
      InConcat(PushedAll(init, t), Pushed(last.0, FoldedTrigrams(last.1), t), x);
    }
  }

  lemma AddedAs(added: Files, id: u32, t: Trigram) returns (k: nat)
    requires HasTrigram(added, id, t)
    ensures k < |added| && added[k].0 == id
  {
    k :| 0 <= k < |added| && added[k].0 == id && t in FoldedSet(added[k].1);
  }

  /** Files that share a trigram were added in nondecreasing id order. */
  ghost predicate InOrderFor(added: Files, t: Trigram) {
    forall i, j :: 0 <= i < j < |added| && t in FoldedSet(added[i].1) && t in FoldedSet(added[j].1) ==>
      added[i].0 <= added[j].0
  }

  lemma SharersInOrderFor(added: Files, t: Trigram)
    requires SharersInOrder(added)
    ensures InOrderFor(added, t)
  {
    hide FoldedSet;
    forall i, j | 0 <= i < j < |added| && t in FoldedSet(added[i].1) && t in FoldedSet(added[j].1)
      ensures added[i].0 <= added[j].0
    {
      assert t in FoldedSet(added[i].1) * FoldedSet(added[j].1);
    }
  }

  /** Ids of earlier files that have the trigram do not exceed the last id. */
  ghost predicate Below(init: Files, t: Trigram, id: u32) {
    forall i :: 0 <= i < |init| && t in FoldedSet(init[i].1) ==> init[i].0 <= id
  }

  lemma InOrderSplit(init: Files, last: (u32, bytes), t: Trigram)
    ensures InOrderFor(init + [last], t)
       <==> InOrderFor(init, t) && (t in FoldedSet(last.1) ==> Below(init, t, last.0))
  {
    hide FoldedSet;
    var added, n := init + [last], |init|;
    assert added[n] == last;
    assert forall i :: 0 <= i < n ==> added[i] == init[i];
    if InOrderFor(added, t) {
      forall i, j | 0 <= i < j < n && t in FoldedSet(init[i].1) && t in FoldedSet(init[j].1)
        ensures init[i].0 <= init[j].0
      {
        assert added[i].0 <= added[j].0;
      }
      if t in FoldedSet(last.1) {
        forall i | 0 <= i < n && t in FoldedSet(init[i].1) ensures init[i].0 <= last.0 {
          assert added[i].0 <= added[n].0;
        }
      }
    }
  }

  ghost predicate AtMost(s: seq<u32>, id: u32) {
    forall i :: 0 <= i < |s| ==> s[i] <= id
  }

  lemma BelowMeans(init: Files, t: Trigram, id: u32)
    ensures Below(init, t, id) <==> AtMost(PushedAll(init, t), id)
  {
    hide FoldedSet, PushedAll;
    forall x ensures x in PushedAll(init, t) <==> HasTrigram(init, x, t) { PushedAllMeaning(init, t, x); }
    if Below(init, t, id) {
      var s := PushedAll(init, t);
      forall i | 0 <= i < |s| ensures s[i] <= id {
        assert s[i] in s;
        assert HasTrigram(init, s[i], t);
      }
    }
    if AtMost(PushedAll(init, t), id) {
      forall i | 0 <= i < |init| && t in FoldedSet(init[i].1) ensures init[i].0 <= id {
        assert HasTrigram(init, init[i].0, t);
        assert init[i].0 in PushedAll(init, t);
      }
    }
  }

  lemma SortedJoin(pre: seq<u32>, post: seq<u32>, id: u32)
    requires forall x :: x in post ==> x == id
    ensures Nondecreasing(pre + post) <==> Nondecreasing(pre) && (post != [] ==> AtMost(pre, id))
  {
    var all := pre + post;
    assert forall i :: 0 <= i < |pre| ==> all[i] == pre[i];
    if Nondecreasing(all) {
      assert forall i, j :: 0 <= i < j < |pre| ==> all[i] <= all[j];
      if post != [] {
        assert all[|pre|] == post[0] && post[0] in post;
        forall i | 0 <= i < |pre| ensures pre[i] <= id { assert all[i] <= all[|pre|]; }
      }
    }
    if Nondecreasing(pre) && (post != [] ==> AtMost(pre, id)) {
      forall i, j | 0 <= i < j < |all| ensures all[i] <= all[j] {
        if j >= |pre| { assert all[j] == post[j - |pre|] && post[j - |pre|] in post; }
        if i >= |pre| { assert all[i] == post[i - |pre|] && post[i - |pre|] in post; }
      }
    }
  }

  /** A trigram's list is pushed in nondecreasing order exactly if the files that have it were added in that order. */
  lemma {:induction false} PushedSortedExactly(added: Files, t: Trigram)
    ensures Nondecreasing(PushedAll(added, t)) <==> InOrderFor(added, t)
    decreases |added|
  {
    if added != [] {
      var init, last := added[..|added| - 1], added[|added| - 1];
      assert added == init + [last];
      PushedSortedExactly(init, t);
      var pre, post := PushedAll(init, t), Pushed(last.0, FoldedTrigrams(last.1), t);
      assert PushedAll(added, t) == pre + post;
      hide Pushed, PushedAll, InOrderFor, Below, AtMost, Nondecreasing, FoldedTrigrams;
      forall x ensures x in post <==> x == last.0 && t in FoldedSet(last.1) {
        PushedMeaning(last.0, FoldedTrigrams(last.1), t, x);
      }
      if t in FoldedSet(last.1) { assert last.0 in post; }
      if post != [] { assert post[0] in post; }
      SortedJoin(pre, post, last.0);
      BelowMeans(init, t, last.0);
      InOrderSplit(init, last, t);
    }
  }

  lemma HasTrigramSplit(init: Files, last: (u32, bytes), id: u32, t: Trigram)
    ensures HasTrigram(init + [last], id, t)
       <==> HasTrigram(init, id, t) || (last.0 == id && t in FoldedSet(last.1))
  {
    var added := init + [last];
    if HasTrigram(init, id, t) {
      var k :| 0 <= k < |init| && init[k].0 == id && t in FoldedSet(init[k].1);
      assert added[k] == init[k];
    }
    if last.0 == id && t in FoldedSet(last.1) { assert added[|init|] == last; }
    if HasTrigram(added, id, t) {
      var k :| 0 <= k < |added| && added[k].0 == id && t in FoldedSet(added[k].1);
      if k < |init| { assert init[k] == added[k]; }
    }
  }

  /**
   * In positional mode, or when the files that have the trigram arrive in id order, its final list is exactly the ids
   * that have it.
   */
  lemma FinalIdsExact(storePositions: bool, added: Files, t: Trigram)
    requires storePositions || InOrderFor(added, t)
    ensures var ids := FinalIds(storePositions, PushedAll(added, t));
            Increasing(ids) && forall x :: x in ids <==> HasTrigram(added, x, t)
  {
    var pushed := PushedAll(added, t);
    forall x ensures x in pushed <==> HasTrigram(added, x, t) { PushedAllMeaning(added, t, x); }
    PushedSortedExactly(added, t);
    SortBySorted(pushed, IdKey);
    DedupIncreasing(pushed);
    DedupIncreasing(SortedIds(pushed));
    var sorted := SortedIds(pushed);
    assert forall i, j :: 0 <= i < j < |sorted| ==> IdKey(sorted[i]) <= IdKey(sorted[j]);
  }

  /** A file-only builder skips the sort: one list is sorted exactly if the files that share its trigram came in order. */
  lemma FileOnlyListSorted(added: Files, t: Trigram)
    ensures Increasing(FinalIds(false, PushedAll(added, t))) <==> InOrderFor(added, t)
  {
    hide PushedAll, InOrderFor;
    DedupIncreasing(PushedAll(added, t));
    PushedSortedExactly(added, t);
  }

  /** All lists of a file-only builder are sorted exactly if no two files that share a trigram came out of order. */
  lemma FileOnlyNeedsOrder(added: Files)
    ensures (forall t :: Increasing(FinalIds(false, PushedAll(added, t)))) <==> SharersInOrder(added)
  {
    hide PushedAll, FoldedSet, FinalIds, Increasing;
    forall t ensures Increasing(FinalIds(false, PushedAll(added, t))) <==> InOrderFor(added, t) {
      FileOnlyListSorted(added, t);
    }
    if !SharersInOrder(added) {
      var i, j :| 0 <= i < j < |added| && added[i].0 > added[j].0
                  && FoldedSet(added[i].1) * FoldedSet(added[j].1) != {};
      var t :| t in FoldedSet(added[i].1) * FoldedSet(added[j].1);
      assert !InOrderFor(added, t);
      assert !Increasing(FinalIds(false, PushedAll(added, t)));
    } else {
      forall t ensures InOrderFor(added, t) { SharersInOrderFor(added, t); }
    }
  }

  lemma FinalLookup(
      files: map<Trigram, seq<u32>>, positions: map<Trigram, seq<Posting>>,
      storePositions: bool, added: Files, t: Trigram)
    requires FinalMaps(files, positions, storePositions, added)
    ensures Lookup(files, t) == FinalIds(storePositions, PushedAll(added, t))
  {
    hide FinalIds, PushedAll, PushedAtAll;
    if t !in files { NothingPushed(storePositions, PushedAll(added, t)); }
  }

  lemma NothingPushed(storePositions: bool, pushed: seq<u32>)
    requires pushed == []
    ensures FinalIds(storePositions, pushed) == []
  {
  }

  ghost predicate NoRepeats(r: seq<u32>) {
    forall i :: 0 <= i < |r| - 1 ==> r[i] != r[i + 1]
  }

  lemma {:induction false} DedupNeighbours(s: seq<u32>)
    ensures NoRepeats(Dedup(s))
    ensures s != [] ==> Dedup(s) != [] && Dedup(s)[0] == s[0]
  {
    if |s| > 1 {
      DedupNeighbours(s[1..]);
      var rest := Dedup(s[1..]);
      assert rest[0] == s[1];
    }
  }

  lemma DedupNondecreasing(s: seq<u32>)
    ensures Nondecreasing(Dedup(s)) <==> Increasing(Dedup(s))
  {
    DedupNeighbours(s);
    var r := Dedup(s);
    if Nondecreasing(r) {
      forall i, j | 0 <= i < j < |r| ensures r[i] < r[j] {
        assert r[i] <= r[i + 1] <= r[j];
      }
    }
  }

  lemma SortedPostingsRuns(s: seq<Posting>)
    ensures RunsSorted(SortedPostings(s))
  {
    SortBySorted(s, PostingKey);
    var r := SortedPostings(s);
    forall i | 0 <= i < |r| - 1 && r[i].0 == r[i + 1].0 ensures r[i].1 <= r[i + 1].1 {
      assert PostingKey(r[i]) <= PostingKey(r[i + 1]);
    }
  }

  // ---- what the positional lists hold ----

  /** The trigram at byte j of file k, as a pair of a positional list. */
  predicate OccursIn(added: Files, t: Trigram, p: Posting, k: nat, j: nat) {
    && k < |added| && added[k].0 == p.0
    && j + 3 <= |added[k].1| && TrigramAt(added[k].1, j) == t && p.1 == j % U32_MODULUS
  }

  ghost predicate Occurs(added: Files, t: Trigram, p: Posting) {
    exists k: nat, j: nat :: OccursIn(added, t, p, k, j)
  }

  ghost predicate AtWindow(id: u32, tris: seq<Trigram>, t: Trigram, p: Posting) {
    p.0 == id && exists j :: 0 <= j < |tris| && tris[j] == t && p.1 == j % U32_MODULUS
  }

  lemma {:induction false} PushedAtMeaning(id: u32, tris: seq<Trigram>, t: Trigram, p: Posting)
    ensures p in PushedAt(id, tris, t) <==> AtWindow(id, tris, t, p)
    decreases |tris|
  {
    if tris != [] {
      var n := |tris| - 1;
      var init := tris[..n];
      PushedAtMeaning(id, init, t, p);
      if AtWindow(id, tris, t, p) {
        var j :| 0 <= j < |tris| && tris[j] == t && p.1 == j % U32_MODULUS;
        if j < n { assert init[j] == t; }
      }
      if AtWindow(id, init, t, p) {
        var j :| 0 <= j < |init| && init[j] == t && p.1 == j % U32_MODULUS;
        assert tris[j] == t;
      }
    }
  }

  lemma {:induction false} PushedAtAllMeaning(added: Files, t: Trigram, p: Posting)
    ensures p in PushedAtAll(added, t) <==> Occurs(added, t, p)
    decreases |added|
  {
    if added != [] {
      var n := |added| - 1;
      var init, last := added[..n], added[n];
      PushedAtAllMeaning(init, t, p);
      PushedAtMeaning(last.0, FoldedTrigrams(last.1), t, p);
      OccursSplit(added, t, p);
    }
  }

  lemma OccursSplit(added: Files, t: Trigram, p: Posting)
    requires added != []
    ensures var n := |added| - 1;
      Occurs(added, t, p) <==>
      Occurs(added[..n], t, p) || AtWindow(added[n].0, FoldedTrigrams(added[n].1), t, p)
  {
    hide TrigramAt;
    var n := |added| - 1;
    var tris := FoldedTrigrams(added[n].1);
    if Occurs(added, t, p) {
      var k: nat, j: nat :| OccursIn(added, t, p, k, j);
      if k < n { assert OccursIn(added[..n], t, p, k, j); } else { assert tris[j] == t; }
    }
    if Occurs(added[..n], t, p) {
      var k: nat, j: nat :| OccursIn(added[..n], t, p, k, j);
      assert OccursIn(added, t, p, k, j);
    }
    if AtWindow(added[n].0, tris, t, p) {
      var j :| 0 <= j < |tris| && tris[j] == t && p.1 == j % U32_MODULUS;
      assert OccursIn(added, t, p, n, j);
    }
  }

  /** By file first and offset second. */
  ghost predicate PostingsOrdered(r: seq<Posting>) {
    forall i, j :: 0 <= i < j < |r| ==> r[i].0 < r[j].0 || (r[i].0 == r[j].0 && r[i].1 <= r[j].1)
  }

  /** A finalized positional list: every place where the trigram occurs and no other, in order of file and offset. */
  lemma PositionsExactly(added: Files, t: Trigram)
    ensures var r := SortedPostings(PushedAtAll(added, t));
      PostingsOrdered(r) && forall p :: p in r <==> Occurs(added, t, p)
  {
    hide PushedAtAll, Occurs;
    var s := PushedAtAll(added, t);
    var r := SortedPostings(s);
    SortBySorted(s, PostingKey);
    forall i, j | 0 <= i < j < |r| ensures r[i].0 < r[j].0 || (r[i].0 == r[j].0 && r[i].1 <= r[j].1) {
      assert PostingKey(r[i]) <= PostingKey(r[j]);
    }
    forall p ensures p in r <==> Occurs(added, t, p) {
      PushedAtAllMeaning(added, t, p);
    }
  }

  /** Ids are given out once, and no file is so long that offsets wrap around. */
  ghost predicate DistinctShort(added: Files) {
    && (forall i, j :: 0 <= i < j < |added| ==> added[i].0 != added[j].0)
    && forall i :: 0 <= i < |added| ==> |added[i].1| <= U32_MODULUS
  }

  lemma {:induction false} WindowsOnce(id: u32, tris: seq<Trigram>, t: Trigram)
    requires |tris| <= U32_MODULUS
    ensures DistinctBy(PushedAt(id, tris, t), PostingKey)
    ensures forall p :: p in PushedAt(id, tris, t) ==> p.0 == id && p.1 < |tris|
    decreases |tris|
  {
    if tris != [] {
      var n := |tris| - 1;
      WindowsOnce(id, tris[..n], t);
      var init := PushedAt(id, tris[..n], t);
      forall i | 0 <= i < |init| ensures PostingKey(init[i]) != PostingKey((id, n % U32_MODULUS)) {
        assert init[i] in init;
      }
    }
  }

  lemma DistinctJoin(a: seq<Posting>, b: seq<Posting>)
    requires DistinctBy(a, PostingKey) && DistinctBy(b, PostingKey)
    requires forall i, j :: 0 <= i < |a| && 0 <= j < |b| ==> a[i].0 != b[j].0
    ensures DistinctBy(a + b, PostingKey)
  {
    forall i, j | 0 <= i < |a| && 0 <= j < |b| ensures PostingKey(a[i]) != PostingKey(b[j]) {
      KeysDiffer(a[i], b[j]);
    }
  }

  lemma KeysDiffer(p: Posting, q: Posting)
    requires p.0 != q.0
    ensures PostingKey(p) != PostingKey(q)
  {
    if p.0 < q.0 { assert PostingKey(q) >= (p.0 + 1) * U32_MODULUS; }
    if p.0 > q.0 { assert PostingKey(p) >= (q.0 + 1) * U32_MODULUS; }
  }

  lemma {:induction false} PairsOnce(added: Files, t: Trigram)
    requires DistinctShort(added)
    ensures DistinctBy(PushedAtAll(added, t), PostingKey)
    ensures forall p :: p in PushedAtAll(added, t) ==> exists k :: 0 <= k < |added| && added[k].0 == p.0
    decreases |added|
  {
    if added != [] {
      var n := |added| - 1;
      var init, last := added[..n], added[n];
      PairsOnce(init, t);
      WindowsOnce(last.0, FoldedTrigrams(last.1), t);
      hide PushedAt, PostingKey, DistinctBy;
      var a, b := PushedAtAll(init, t), PushedAt(last.0, FoldedTrigrams(last.1), t);
      forall p | p in a ensures exists k :: 0 <= k < n && added[k].0 == p.0 {
        var k :| 0 <= k < |init| && init[k].0 == p.0;
        assert added[k].0 == p.0;
      }
      forall i, j | 0 <= i < |a| && 0 <= j < |b| ensures a[i].0 != b[j].0 {
        assert a[i] in a && b[j] in b;
      }
      DistinctJoin(a, b);
      assert added[n].0 == last.0;
    }
  }

  /** Then every place is listed once: the list is strictly in order. */
  lemma PositionsOnce(added: Files, t: Trigram)
    requires DistinctShort(added)
    ensures var r := SortedPostings(PushedAtAll(added, t));
      forall i, j :: 0 <= i < j < |r| ==> r[i].0 < r[j].0 || (r[i].0 == r[j].0 && r[i].1 < r[j].1)
  {
    PairsOnce(added, t);
    hide PushedAtAll;
    SortByStrict(PushedAtAll(added, t), PostingKey);
    var r := SortedPostings(PushedAtAll(added, t));
    forall i, j | 0 <= i < j < |r| ensures r[i].0 < r[j].0 || (r[i].0 == r[j].0 && r[i].1 < r[j].1) {
      assert PostingKey(r[i]) < PostingKey(r[j]);
    }
  }

  class PostingListBuilder {
    var filePostings: map<Trigram, seq<u32>>
    var positionalPostings: map<Trigram, seq<Posting>>
    const storePositions: bool
    ghost var added: Files
    ghost var finalized: bool

    ghost predicate Valid()
      reads this
    {
      if finalized then FinalMaps(filePostings, positionalPostings, storePositions, added)
      else RawMaps(filePostings, positionalPostings, storePositions, added)
    }

    constructor (storePositions: bool)
      ensures Valid() && !finalized && added == []
      ensures this.storePositions == storePositions
    {
      this.storePositions := storePositions;
      filePostings, positionalPostings := map[], map[];
      added, finalized := [], false;
    }

    /** One window of the scan: push the id, and in positional mode the (id, offset) pair. */
    method PushWindow(id: u32, tris: seq<Trigram>, offset: nat)
      requires offset < |tris|
      requires ScannedTo(id, tris, offset)
      modifies `filePostings, `positionalPostings
      ensures ScannedTo(id, tris, offset + 1)
    {
      hide HoldsIds, HoldsPositions;
      var t := tris[offset];
      HoldsIdsStep(filePostings, added, id, tris, offset);
      filePostings := filePostings[t := Lookup(filePostings, t) + [id]];
      if storePositions {
        HoldsPositionsStep(positionalPostings, added, id, tris, offset);
        positionalPostings := positionalPostings[t :=
          Lookup(positionalPostings, t) + [(id, offset % U32_MODULUS)]];
      }
    }

    /** The maps hold what `added` pushed followed by the first `k` windows of the file being added. */
    ghost predicate ScannedTo(id: u32, tris: seq<Trigram>, k: nat)
      requires k <= |tris|
      reads this
    {
      && (forall t :: t in filePostings ==> filePostings[t] != [])
      && HoldsIds(filePostings, added, id, tris[..k])
      && (storePositions ==>
            positionalPostings.Keys == filePostings.Keys && HoldsPositions(positionalPostings, added, id, tris[..k]))
      && (!storePositions ==> positionalPostings == map[])
    }

    method AddFile(id: u32, content: bytes)
      requires Valid() && !finalized
      modifies this
      ensures Valid() && !finalized
      ensures added == old(added) + [(id, content)]
    {
      var tris := FoldedTrigrams(content);
      for offset := 0 to |tris|
        invariant !finalized && added == old(added)
        invariant ScannedTo(id, tris, offset)
      {
        PushWindow(id, tris, offset);
      }
      assert tris[..|tris|] == tris;
      ghost var extended := added + [(id, content)];
      assert extended[..|extended| - 1] == added;
      forall t
        ensures PushedAll(extended, t) == PushedAll(added, t) + Pushed(id, tris, t)
        ensures PushedAtAll(extended, t) == PushedAtAll(added, t) + PushedAt(id, tris, t)
      {
      }
      added := extended;
    }

    method Finalize()
      requires Valid() && !finalized
      modifies this
      ensures Valid() && finalized && added == old(added)
    {
      hide RawMaps, FinalMaps, FinalIds, SortedPostings;
      FinalizeIds();
      if storePositions { FinalizePositions(); }
      RawFileOnly(old(filePostings), old(positionalPostings), storePositions, added);
      RawToFinal(old(filePostings), old(positionalPostings), filePostings, positionalPostings, storePositions, added);
      finalized := true;
    }

    method FinalizeIds()
      modifies `filePostings
      ensures filePostings.Keys == old(filePostings).Keys
      ensures forall t :: t in filePostings ==> filePostings[t] == FinalIds(storePositions, old(filePostings)[t])
    {
      var todo := filePostings.Keys;
      while todo != {}
        invariant todo <= filePostings.Keys == old(filePostings).Keys
        invariant forall t :: t in filePostings ==>
          filePostings[t] == if t in todo then old(filePostings)[t] else FinalIds(storePositions, old(filePostings)[t])
      {
        var t :| t in todo;
        var ids := filePostings[t];
        if storePositions { ids := SortedIds(ids); }
        filePostings := filePostings[t := Dedup(ids)];
        todo := todo - {t};
      }
    }

    method FinalizePositions()
      modifies `positionalPostings
      ensures positionalPostings.Keys == old(positionalPostings).Keys
      ensures forall t :: t in positionalPostings ==>
        positionalPostings[t] == SortedPostings(old(positionalPostings)[t])
    {
      var todo := positionalPostings.Keys;
      while todo != {}
        invariant todo <= positionalPostings.Keys == old(positionalPostings).Keys
        invariant forall t :: t in positionalPostings ==> (positionalPostings[t] ==
          if t in todo then old(positionalPostings)[t] else SortedPostings(old(positionalPostings)[t]))
      {
        var t :| t in todo;
        positionalPostings := positionalPostings[t := SortedPostings(positionalPostings[t])];
        todo := todo - {t};
      }
    }
  }
}
