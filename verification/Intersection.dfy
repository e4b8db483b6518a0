/** Sorted-list intersection and literal candidate search (ferret-core/src/intersection.rs). */
module Intersection {
  import opened Base
  import opened IndexImage
  import opened IndexReader
  import opened PostingLists
  import opened Sorting
  import opened Trigrams

  /** What a reader owes to the files its index was built from. */
  ghost predicate Serves(reader: Reader, added: Files) {
    WellFormed(reader) && forall t :: ServesTrigram(reader, added, t)
  }

  ghost predicate ServesTrigram(reader: Reader, added: Files, t: Trigram)
    requires WellFormed(reader)
  {
    var r := LookupFileIds(reader, t);
    && r.Ok? && Increasing(r.value)
    && (forall x :: x in r.value <==> HasTrigram(added, x, t))
    && EstimatePostingListSize(reader, t) == |r.value|
  }

  /** Opening the file written from a finalized builder gives a reader that serves the builder's files. */
  lemma BuiltReaderServes(
      es: seq<Entry>, files: map<Trigram, seq<u32>>, positions: map<Trigram, seq<Codec.Posting>>,
      storePositions: bool, added: Files)
    requires FinalMaps(files, positions, storePositions, added)
    requires storePositions || SharersInOrder(added)
    requires IsTable(es, files, positions) && Fits(es)
    ensures OpenIndex(Image(es)) == Ok(ReaderOf(es)) && Serves(ReaderOf(es), added)
  {
    hide FinalMaps, IsTable, Fits, LookupFileIds, LookupPositions, EstimatePostingListSize, OpenIndex, ReaderOf,
      ServesTrigram, Lookup, WellFormed;
    ImageRefinesBuilder(es, files, positions, storePositions, added, Trigram(0, 0, 0));
    forall t ensures ServesTrigram(ReaderOf(es), added, t) {
      BuiltTrigramServed(es, files, positions, storePositions, added, t);
    }
  }

  lemma BuiltTrigramServed(
      es: seq<Entry>, files: map<Trigram, seq<u32>>, positions: map<Trigram, seq<Codec.Posting>>,
      storePositions: bool, added: Files, t: Trigram)
    requires FinalMaps(files, positions, storePositions, added)
    requires storePositions || SharersInOrder(added)
    requires IsTable(es, files, positions) && Fits(es)
    ensures WellFormed(ReaderOf(es)) && ServesTrigram(ReaderOf(es), added, t)
  {
    hide FinalMaps, FinalIds, IsTable, Fits, LookupFileIds, LookupPositions, EstimatePostingListSize, OpenIndex, ReaderOf,
      HasTrigram, Increasing, WellFormed, Lookup;
    ImageRefinesBuilder(es, files, positions, storePositions, added, t);
    if !storePositions { SharersInOrderFor(added, t); }
    FinalIdsExact(storePositions, added, t);
    FinalLookup(files, positions, storePositions, added, t);
  }

  /** Two-pointer merge of sorted lists; repeated ids, which only a corrupt index can yield, are allowed. */
  method IntersectTwo(a: seq<u32>, b: seq<u32>) returns (result: seq<u32>)
    requires Nondecreasing(a) && Nondecreasing(b)
    ensures Nondecreasing(result) && (Increasing(a) ==> Increasing(result))
    ensures forall x :: x in result <==> x in a && x in b
  {
    hide Nondecreasing, Increasing;
    result := [];
    EmptySorted();
    var i, j := 0, 0;
    while i < |a| && j < |b|
      invariant 0 <= i <= |a| && 0 <= j <= |b|
      invariant Nondecreasing(result) && (Increasing(a) ==> Increasing(result))
      invariant forall x :: x in result ==> x in a && x in b
      invariant result != [] ==> i > 0 && result[|result| - 1] <= a[i - 1]
      invariant forall k :: 0 <= k < i && a[k] in b ==> a[k] in result
      invariant forall k :: 0 <= k < j && b[k] in a ==> b[k] in result
      decreases |a| - i + |b| - j
    {
      if i > 0 { SortedStep(a, i - 1); }
      if a[i] < b[j] {
        if a[i] in b { var k := FoundBefore(b, a[i], j); }
        i := i + 1;
      } else if a[i] > b[j] {
        if b[j] in a { var k := FoundBefore(a, b[j], i); }
        j := j + 1;
      } else {
        SortedAppend(result, a[i]);
        result := result + [a[i]];
        i, j := i + 1, j + 1;
      }
    }
    forall x | x in a && x in b ensures x in result {
      var k :| 0 <= k < |a| && a[k] == x;
      var l :| 0 <= l < |b| && b[l] == x;
      assert k < i || l < j;
    }
  }

  lemma EmptySorted()
    ensures Nondecreasing([]) && Increasing([])
  {
  }

  lemma SortedStep(s: seq<u32>, i: nat)
    requires Nondecreasing(s) && i + 1 < |s|
    ensures s[i] <= s[i + 1] && (Increasing(s) ==> s[i] < s[i + 1])
  {
  }

  lemma SortedAppend(s: seq<u32>, x: u32)
    requires s != [] ==> s[|s| - 1] <= x
    ensures Nondecreasing(s) ==> Nondecreasing(s + [x])
    ensures Increasing(s) && (s != [] ==> s[|s| - 1] < x) ==> Increasing(s + [x])
  {
  }

  lemma FoundBefore(s: seq<u32>, x: u32, j: nat) returns (k: nat)
    requires Nondecreasing(s) && j < |s| && x < s[j] && x in s
    ensures k < j && s[k] == x
  {
    k :| 0 <= k < |s| && s[k] == x;
  }

  function LengthKey(lists: seq<seq<u32>>): nat -> int {
    (i: nat) => if i < |lists| then |lists[i]| else 0
  }

  ghost predicate InAll(x: u32, lists: seq<seq<u32>>) {
    forall i :: 0 <= i < |lists| ==> x in lists[i]
  }

  method IntersectFileIds(lists: seq<seq<u32>>) returns (result: seq<u32>)
    requires forall i :: 0 <= i < |lists| ==> Nondecreasing(lists[i])
    ensures Nondecreasing(result)
    ensures (forall i :: 0 <= i < |lists| ==> Increasing(lists[i])) ==> Increasing(result)
    ensures lists == [] ==> result == []
    ensures lists != [] ==> forall x :: x in result <==> InAll(x, lists)
  {
    if lists == [] { return []; }
    if |lists| == 1 { return lists[0]; }
    if exists i :: 0 <= i < |lists| && lists[i] == [] { return []; }
    var indices := Indices(lists);
    result := lists[indices[0]];
    for k := 1 to |indices|
      invariant Nondecreasing(result)
      invariant (forall i :: 0 <= i < |lists| ==> Increasing(lists[i])) ==> Increasing(result)
      invariant forall x :: x in result <==> (forall j :: 0 <= j < k ==> x in lists[indices[j]])
    {
      result := IntersectTwo(result, lists[indices[k]]);
      if result == [] { break; }
    }
    assert forall x :: InAll(x, lists) ==> x in lists[indices[0]];
    forall x ensures x in result <==> InAll(x, lists) {
      if x in result {
        forall i | 0 <= i < |lists| ensures x in lists[i] {
          assert i in indices;
          var j :| 0 <= j < |indices| && indices[j] == i;
        }
      }
    }
  }

  /** 0..n sorted by list length, smallest first. */
  function Indices(lists: seq<seq<u32>>): (r: seq<nat>)
    ensures |r| == |lists|
    ensures forall j :: 0 <= j < |r| ==> 0 <= r[j] < |lists|
    ensures forall i :: 0 <= i < |lists| ==> i in r
  {
    var all: seq<nat> := seq(|lists|, i requires i >= 0 => i);
    var r := SortBy(all, LengthKey(lists));
    assert forall i :: 0 <= i < |lists| ==> i in r by {
      forall i | 0 <= i < |lists| ensures i in r { assert all[i] == i && all[i] in all; }
    }
    assert forall j :: 0 <= j < |r| ==> r[j] in r;
    r
  }

  /** Ids that have every trigram of a set. */
  ghost predicate HasAll(added: Files, x: u32, ts: set<Trigram>) {
    forall t :: t in ts ==> HasTrigram(added, x, t)
  }

  lemma LookupSorted(reader: Reader, t: Trigram)
    requires WellFormed(reader)
    ensures LookupFileIds(reader, t).Ok? ==> Nondecreasing(LookupFileIds(reader, t).value)
  {
    hide SearchTable, Codec.DeltaValues;
    var r := LookupFileIds(reader, t);
    if r.Ok? && r.value != [] {
      var data :| r.value == Codec.DeltaValues(0, data);
      Codec.DeltaValuesNondecreasing(0, data);
    }
  }

  ghost predicate Listed(reader: Reader, x: u32, t: Trigram)
    requires WellFormed(reader)
  {
    LookupFileIds(reader, t).Ok? && x in LookupFileIds(reader, t).value
  }

  /** The posting lists of a set of trigrams, in the arbitrary order a hash set yields them. */
  method LookupAll(reader: Reader, trigrams: set<Trigram>) returns (r: Result<seq<seq<u32>>>)
    requires WellFormed(reader)
    ensures r.Err? ==> exists t :: t in trigrams && LookupFileIds(reader, t).Err?
    ensures r.Ok? ==> |r.value| == |trigrams|
    ensures r.Ok? ==> forall i :: 0 <= i < |r.value| ==> Nondecreasing(r.value[i])
    ensures r.Ok? ==> forall i :: 0 <= i < |r.value| ==>
      exists t :: t in trigrams && LookupFileIds(reader, t) == Ok(r.value[i])
    ensures r.Ok? ==> forall x :: InAll(x, r.value) <==> forall t :: t in trigrams ==> Listed(reader, x, t)
  {
    hide LookupFileIds, WellFormed, Nondecreasing;
    var todo, lists := trigrams, [];
    ghost var done: seq<Trigram> := [];
    while todo != {}
      invariant todo <= trigrams && |done| == |lists| == |trigrams| - |todo|
      invariant forall t :: t in trigrams <==> t in todo || t in done
      invariant forall i :: 0 <= i < |lists| ==>
        done[i] in trigrams && LookupFileIds(reader, done[i]) == Ok(lists[i]) && Nondecreasing(lists[i])
    {
      var t :| t in todo;
      var ids := LookupFileIds(reader, t);
      if ids.Err? { return Err(ids.error); }
      LookupSorted(reader, t);
      lists, done := lists + [ids.value], done + [t];
      todo := todo - {t};
    }
    forall x ensures InAll(x, lists) <==> forall t :: t in trigrams ==> Listed(reader, x, t) {
      if InAll(x, lists) {
        forall t | t in trigrams ensures Listed(reader, x, t) {
          var i :| 0 <= i < |done| && done[i] == t;
          assert x in lists[i];
        }
      }
      if forall t :: t in trigrams ==> Listed(reader, x, t) {
        forall i | 0 <= i < |lists| ensures x in lists[i] { assert Listed(reader, x, done[i]); }
      }
    }
    r := Ok(lists);
  }

  /** The candidates of a query: none if it is too short, otherwise exactly the ids that have all its trigrams. */
  ghost predicate IsCandidateList(added: Files, query: bytes, ids: seq<u32>) {
    if |query| < 3 then ids == []
    else Increasing(ids) && forall x :: x in ids <==> HasAll(added, x, FoldedSet(query))
  }

  /**
   * find_candidates: on any index that opens, the ids common to the lists of all query trigrams; on an index that
   * serves its files, exactly the ids that have every folded trigram of the query, in increasing order.
   */
  method FindCandidates(reader: Reader, query: bytes, ghost added: Files) returns (r: Result<seq<u32>>)
    requires WellFormed(reader)
    ensures |query| < 3 ==> r == Ok([])
    ensures r.Err? ==> exists t :: t in FoldedSet(query) && LookupFileIds(reader, t).Err?
    ensures r.Ok? && |query| >= 3 ==>
      forall x :: x in r.value <==> forall t :: t in FoldedSet(query) ==> Listed(reader, x, t)
    ensures Serves(reader, added) ==> r.Ok? && IsCandidateList(added, query, r.value)
  {
    hide LookupFileIds, HasTrigram, Increasing, WellFormed, FoldedSet, Listed;
    if |query| < 3 {
      assert Increasing([]) by { EmptyIncreasing(); }
      return Ok([]);
    }
    var trigrams := FoldedSet(query);
    TrigramsOfLongText(query);
    var lists := LookupAll(reader, trigrams);
    if lists.Err? {
      assert !Serves(reader, added) by {
        var t :| t in trigrams && LookupFileIds(reader, t).Err?;
        assert !ServesTrigram(reader, added, t);
      }
      return Err(lists.error);
    }
    var ids := IntersectFileIds(lists.value);
    if Serves(reader, added) {
      forall i | 0 <= i < |lists.value| ensures Increasing(lists.value[i]) {
        var t :| t in trigrams && LookupFileIds(reader, t) == Ok(lists.value[i]);
        assert ServesTrigram(reader, added, t);
      }
      forall x ensures x in ids <==> HasAll(added, x, trigrams) {
        forall t ensures Listed(reader, x, t) <==> HasTrigram(added, x, t) { ServedListed(reader, added, x, t); }
      }
    }
    r := Ok(ids);
  }

  lemma ServedListed(reader: Reader, added: Files, x: u32, t: Trigram)
    requires Serves(reader, added)
    ensures Listed(reader, x, t) <==> HasTrigram(added, x, t)
  {
    hide LookupFileIds, HasTrigram, WellFormed;
    assert ServesTrigram(reader, added, t);
  }

  lemma EmptyIncreasing()
    ensures Increasing([])
  {
  }

  lemma TrigramsOfLongText(text: bytes)
    requires |text| >= 3
    ensures FoldedSet(text) != {}
  {
    assert TrigramAt(text, 0) == FoldedTrigrams(text)[0];
    assert TrigramAt(text, 0) in FoldedSet(text);
  }
}
