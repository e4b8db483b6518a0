/** Files on disk against the index (ferret-core/src/hash_diff.rs). */
module HashDiff {
  // Files are compared by content hash. The walker's result, the hash function, the file filter and the order of paths
  // are parameters.

  import opened Base
  import opened Sorting

  type Hash = bytes

  datatype Entry = Entry(fileId: u32, path: bytes, hash: Hash)

  /** Metadata and tombstones of one segment. */
  datatype IndexedSegment = IndexedSegment(entries: seq<Entry>, dead: set<u32>)

  /** A file the walker found; None if it cannot be read. */
  datatype WalkedFile = WalkedFile(path: bytes, content: Option<bytes>)

  datatype Disk = Disk(walked: seq<WalkedFile>, hash: bytes -> Hash, shouldIndex: (bytes, bytes) -> bool)

  datatype ChangeKind = Created | Modified | Deleted

  datatype ChangeEvent = ChangeEvent(path: bytes, kind: ChangeKind)

  type HashMap = map<bytes, Hash>

  // ---- the indexed side: later segments override earlier ones ----

  function AddEntries(m: HashMap, entries: seq<Entry>, dead: set<u32>): HashMap
    decreases |entries|
  {
    if entries == [] then m
    else
      var e := entries[0];
      AddEntries(if e.fileId in dead then m else m[e.path := e.hash], entries[1..], dead)
  }

  function Live(m: HashMap, segments: seq<IndexedSegment>): HashMap
    decreases |segments|
  {
    if segments == [] then m else Live(AddEntries(m, segments[0].entries, segments[0].dead), segments[1..])
  }

  // Which entry a path gets.

  /** A live entry of a path: entry `k` of segment `s`. */
  predicate LiveAt(segments: seq<IndexedSegment>, s: nat, k: nat, path: bytes) {
    && s < |segments| && k < |segments[s].entries|
    && segments[s].entries[k].path == path && segments[s].entries[k].fileId !in segments[s].dead
  }

  /** The last live entry of the path in the last segment that has one. */
  ghost predicate IsLatest(segments: seq<IndexedSegment>, s: nat, k: nat, path: bytes) {
    LiveAt(segments, s, k, path) &&
    forall s': nat, k': nat :: LiveAt(segments, s', k', path) ==> s' < s || (s' == s && k' <= k)
  }

  lemma {:induction false} AddEntriesIs(m: HashMap, segment: IndexedSegment, path: bytes, from: nat) returns (k: nat)
    requires from <= |segment.entries|
    ensures var r := AddEntries(m, segment.entries[from..], segment.dead);
      if k < |segment.entries| then
        && from <= k && LiveAt([segment], 0, k, path) && path in r && r[path] == segment.entries[k].hash
        && forall j: nat :: k < j ==> !LiveAt([segment], 0, j, path)
      else
        && (path in r <==> path in m) && (path in m ==> r[path] == m[path])
        && forall j: nat :: from <= j ==> !LiveAt([segment], 0, j, path)
    decreases |segment.entries| - from
  {
    if from == |segment.entries| {
      k := from;
    } else {
      var e := segment.entries[from];
      assert segment.entries[from..][1..] == segment.entries[from + 1..];
      k := AddEntriesIs(if e.fileId in segment.dead then m else m[e.path := e.hash], segment, path, from + 1);
      if k >= |segment.entries| && LiveAt([segment], 0, from, path) { k := from; }
    }
  }

  lemma {:induction false} LiveFrom(m: HashMap, segments: seq<IndexedSegment>, path: bytes, from: nat)
    returns (s: nat, k: nat)
    requires from <= |segments|
    ensures var r := Live(m, segments[from..]);
      if s < |segments| then
        && from <= s && IsLatest(segments, s, k, path) && path in r && r[path] == segments[s].entries[k].hash
      else
        && (path in r <==> path in m) && (path in m ==> r[path] == m[path])
        && forall s': nat, k': nat :: from <= s' ==> !LiveAt(segments, s', k', path)
    decreases |segments| - from
  {
    if from == |segments| {
      s, k := from, 0;
    } else {
      var segment := segments[from];
      assert segments[from..][1..] == segments[from + 1..];
      var here := AddEntriesIs(m, segment, path, 0);
      assert segment.entries[0..] == segment.entries;
      assert forall j: nat :: LiveAt([segment], 0, j, path) <==> LiveAt(segments, from, j, path);
      s, k := LiveFrom(AddEntries(m, segment.entries, segment.dead), segments, path, from + 1);
      if s >= |segments| && here < |segment.entries| { s, k := from, here; }
    }
  }

  ghost predicate HasLive(segments: seq<IndexedSegment>, path: bytes) {
    exists s: nat, k: nat :: LiveAt(segments, s, k, path)
  }

  /** The paths with a live entry, each with the hash of the latest one. */
  ghost predicate HoldsLatest(m: HashMap, segments: seq<IndexedSegment>) {
    && (forall path :: path in m <==> HasLive(segments, path))
    && forall s: nat, k: nat, path :: IsLatest(segments, s, k, path) ==>
         path in m && m[path] == segments[s].entries[k].hash
  }

  lemma LiveIsLatest(segments: seq<IndexedSegment>, path: bytes)
    ensures path in Live(map[], segments) <==> HasLive(segments, path)
    ensures forall s: nat, k: nat :: IsLatest(segments, s, k, path) ==>
      path in Live(map[], segments) && Live(map[], segments)[path] == segments[s].entries[k].hash
  {
    hide Live;
    var s, k := LiveFrom(map[], segments, path, 0);
    assert segments[0..] == segments;
    if s < |segments| { assert LiveAt(segments, s, k, path); }
  }

  lemma LiveHoldsLatest(segments: seq<IndexedSegment>)
    ensures HoldsLatest(Live(map[], segments), segments)
  {
    hide Live, HasLive;
    forall path
      ensures path in Live(map[], segments) <==> HasLive(segments, path)
      ensures forall s: nat, k: nat :: IsLatest(segments, s, k, path) ==>
        path in Live(map[], segments) && Live(map[], segments)[path] == segments[s].entries[k].hash
    {
      LiveIsLatest(segments, path);
    }
  }

  method IndexedHashes(segments: seq<IndexedSegment>) returns (indexed: HashMap)
    ensures indexed == Live(map[], segments)
    ensures HoldsLatest(indexed, segments)
  {
    indexed := map[];
    for s := 0 to |segments|
      invariant Live(indexed, segments[s..]) == Live(map[], segments)
    {
      var segment := segments[s];
      assert segments[s..][1..] == segments[s + 1..];
      ghost var goal := AddEntries(indexed, segment.entries, segment.dead);
      for k := 0 to |segment.entries|
        invariant AddEntries(indexed, segment.entries[k..], segment.dead) == goal
      {
        var e := segment.entries[k];
        assert segment.entries[k..][1..] == segment.entries[k + 1..];
        if e.fileId !in segment.dead { indexed := indexed[e.path := e.hash]; }
      }
    }
    LiveHoldsLatest(segments);
  }

  // ---- the walked side ----

  ghost predicate DistinctWalk(walked: seq<WalkedFile>) {
    forall i, j :: 0 <= i < j < |walked| ==> walked[i].path != walked[j].path
  }

  predicate Indexable(disk: Disk, file: WalkedFile) {
    file.content.Some? && disk.shouldIndex(file.path, file.content.value)
  }

  function Find(walked: seq<WalkedFile>, path: bytes): (r: Option<WalkedFile>)
    ensures r.Some? ==> r.value in walked && r.value.path == path
    ensures r.None? ==> forall f :: f in walked ==> f.path != path
  {
    if walked == [] then None else if walked[0].path == path then Some(walked[0]) else Find(walked[1..], path)
  }

  /** The hash of a readable, indexable file at a path. */
  function DiskHash(disk: Disk, path: bytes): Option<Hash> {
    match Find(disk.walked, path)
    case None => None
    case Some(file) => if Indexable(disk, file) then Some(disk.hash(file.content.value)) else None
  }

  /** The event a walked file causes. */
  function FileEvent(disk: Disk, indexed: HashMap, file: WalkedFile): Option<ChangeKind> {
    if !Indexable(disk, file) then None
    else if file.path !in indexed then Some(Created)
    else if indexed[file.path] != disk.hash(file.content.value) then Some(Modified)
    else None
  }

  /** The event of a path; a file that was walked but skipped causes none, not even a deletion. */
  function EventFor(disk: Disk, indexed: HashMap, path: bytes): Option<ChangeKind> {
    match Find(disk.walked, path)
    case Some(file) => FileEvent(disk, indexed, file)
    case None => if path in indexed then Some(Deleted) else None
  }

  // ---- the diff ----

  function InsertEvent(before: PathOrder, e: ChangeEvent, es: seq<ChangeEvent>): (r: seq<ChangeEvent>)
    ensures forall x :: x in r <==> x == e || x in es
  {
    if es == [] || !before(es[0].path, e.path) then [e] + es
    else
      assert forall x :: x in es <==> x == es[0] || x in es[1..];
      [es[0]] + InsertEvent(before, e, es[1..])
  }

  function SortEvents(before: PathOrder, es: seq<ChangeEvent>): (r: seq<ChangeEvent>)
    ensures forall x :: x in r <==> x in es
  {
    if es == [] then []
    else
      assert forall x :: x in es <==> x == es[0] || x in es[1..];
      InsertEvent(before, es[0], SortEvents(before, es[1..]))
  }

  ghost predicate PathsIncrease(before: PathOrder, es: seq<ChangeEvent>) {
    forall i, j :: 0 <= i < j < |es| ==> before(es[i].path, es[j].path)
  }

  ghost predicate OneEach(es: seq<ChangeEvent>) {
    forall i, j :: 0 <= i < j < |es| ==> es[i].path != es[j].path
  }

  lemma {:induction false} InsertKeepsOrder(before: PathOrder, e: ChangeEvent, es: seq<ChangeEvent>)
    requires TotalOrder(before) && PathsIncrease(before, es) && forall x :: x in es ==> x.path != e.path
    ensures PathsIncrease(before, InsertEvent(before, e, es))
  {
    if es != [] {
      var head, tail := es[0], es[1..];
      assert head in es;
      if before(head.path, e.path) {
        assert forall x :: x in tail ==> x in es;
        InsertKeepsOrder(before, e, tail);
        var rest := InsertEvent(before, e, tail);
        forall j | 0 <= j < |rest| ensures before(head.path, rest[j].path) {
          assert rest[j] in rest;
          if rest[j] != e { var k :| 0 <= k < |tail| && tail[k] == rest[j]; assert es[k + 1] == rest[j]; }
        }
      } else {
        assert before(e.path, head.path);
        forall j | 0 <= j < |tail| ensures before(e.path, tail[j].path) { assert tail[j] == es[j + 1]; }
      }
    }
  }

  lemma {:induction false} SortedIncrease(before: PathOrder, es: seq<ChangeEvent>)
    requires TotalOrder(before) && OneEach(es)
    ensures PathsIncrease(before, SortEvents(before, es))
  {
    hide TotalOrder;
    if es != [] {
      var tail := es[1..];
      SortedIncrease(before, tail);
      forall x | x in SortEvents(before, tail) ensures x.path != es[0].path {
        var k :| 0 <= k < |tail| && tail[k] == x;
        assert es[k + 1] == x;
      }
      InsertKeepsOrder(before, es[0], SortEvents(before, tail));
    }
  }

  /** Events hold exactly those the paths call for, one per path, in path order. */
  ghost predicate IsDiff(before: PathOrder, disk: Disk, indexed: HashMap, events: seq<ChangeEvent>) {
    && PathsIncrease(before, events)
    && forall e :: e in events <==> EventFor(disk, indexed, e.path) == Some(e.kind)
  }

  /** The three kinds of event, in terms of the disk and the index alone. */
  ghost predicate EventsAre(disk: Disk, indexed: HashMap, events: seq<ChangeEvent>) {
    forall p ::
      && (ChangeEvent(p, Created) in events <==> DiskHash(disk, p).Some? && p !in indexed)
      && (ChangeEvent(p, Modified) in events <==>
            DiskHash(disk, p).Some? && p in indexed && indexed[p] != DiskHash(disk, p).value)
      && (ChangeEvent(p, Deleted) in events <==> p in indexed && Find(disk.walked, p).None?)
  }

  lemma DiffEvents(before: PathOrder, disk: Disk, indexed: HashMap, events: seq<ChangeEvent>)
    requires IsDiff(before, disk, indexed, events)
    ensures EventsAre(disk, indexed, events)
  {
    forall p
      ensures ChangeEvent(p, Created) in events <==> DiskHash(disk, p).Some? && p !in indexed
      ensures ChangeEvent(p, Modified) in events <==>
        DiskHash(disk, p).Some? && p in indexed && indexed[p] != DiskHash(disk, p).value
      ensures ChangeEvent(p, Deleted) in events <==> p in indexed && Find(disk.walked, p).None?
    {
      var created, modified, deleted := ChangeEvent(p, Created), ChangeEvent(p, Modified), ChangeEvent(p, Deleted);
      assert created in events <==> EventFor(disk, indexed, p) == Some(Created);
      assert modified in events <==> EventFor(disk, indexed, p) == Some(Modified);
      assert deleted in events <==> EventFor(disk, indexed, p) == Some(Deleted);
    }
  }

  /** A readable, indexable file that the walker found has a hash on disk, and nothing else has. */
  lemma DiskHashIs(disk: Disk, k: nat)
    requires DistinctWalk(disk.walked) && k < |disk.walked|
    ensures var f := disk.walked[k];
      DiskHash(disk, f.path) ==
      if f.content.Some? && disk.shouldIndex(f.path, f.content.value) then Some(disk.hash(f.content.value)) else None
  {
    FindAt(disk.walked, k);
  }

  lemma FindAt(walked: seq<WalkedFile>, k: nat)
    requires DistinctWalk(walked) && k < |walked|
    ensures Find(walked, walked[k].path) == Some(walked[k])
  {
    var r := Find(walked, walked[k].path);
    assert walked[k] in walked;
    var i :| 0 <= i < |walked| && walked[i] == r.value;
  }

  ghost predicate SeenEvents(disk: Disk, indexed: HashMap, k: nat, seen: set<bytes>, events: seq<ChangeEvent>)
    requires k <= |disk.walked|
  {
    && OneEach(events)
    && (forall p :: p in seen <==> exists i :: 0 <= i < k && disk.walked[i].path == p)
    && (forall e :: e in events <==> e.path in seen && EventFor(disk, indexed, e.path) == Some(e.kind))
  }

  lemma SeenStep(
      disk: Disk, indexed: HashMap, k: nat, seen: set<bytes>, events: seq<ChangeEvent>, events': seq<ChangeEvent>)
    requires DistinctWalk(disk.walked) && k < |disk.walked| && SeenEvents(disk, indexed, k, seen, events)
    requires var file := disk.walked[k]; var kind := FileEvent(disk, indexed, file);
      events' == if kind.Some? then events + [ChangeEvent(file.path, kind.value)] else events
    ensures SeenEvents(disk, indexed, k + 1, seen + {disk.walked[k].path}, events')
  {
    hide FileEvent;
    var file := disk.walked[k];
    FindAt(disk.walked, k);
    assert EventFor(disk, indexed, file.path) == FileEvent(disk, indexed, file);
    hide EventFor;
    assert file.path !in seen;
    assert forall i :: 0 <= i < |events| ==> events[i] in events;
    forall p ensures p in seen + {file.path} <==> exists i :: 0 <= i < k + 1 && disk.walked[i].path == p {
      if p in seen { var i :| 0 <= i < k && disk.walked[i].path == p; assert i < k + 1; }
      if p == file.path { assert disk.walked[k].path == p; }
    }
  }

  method HashDiff(before: PathOrder, disk: Disk, segments: seq<IndexedSegment>) returns (events: seq<ChangeEvent>)
    requires DistinctWalk(disk.walked)
    ensures TotalOrder(before) ==> IsDiff(before, disk, Live(map[], segments), events)
    ensures TotalOrder(before) ==> EventsAre(disk, Live(map[], segments), events)
  {
    hide TotalOrder, PathsIncrease, EventsAre;
    var indexed := IndexedHashes(segments);
    events := [];
    var seen: set<bytes> := {};
    for k := 0 to |disk.walked|
      invariant SeenEvents(disk, indexed, k, seen, events)
    {
      var file := disk.walked[k];
      ghost var soFar := events;
      if file.content.Some? && disk.shouldIndex(file.path, file.content.value) {
        var hash := disk.hash(file.content.value);
        if file.path !in indexed {
          events := events + [ChangeEvent(file.path, Created)];
        } else if indexed[file.path] != hash {
          events := events + [ChangeEvent(file.path, Modified)];
        }
      }
      SeenStep(disk, indexed, k, seen, soFar, events);
      seen := seen + {file.path};
    }
    events := AddDeleted(disk, indexed, seen, events);
    if TotalOrder(before) { SortedIncrease(before, events); }
    events := SortEvents(before, events);
    if TotalOrder(before) { DiffEvents(before, disk, indexed, events); }
  }

  /** Indexed paths the walker did not see, in the arbitrary order of the hash map. */
  method AddDeleted(disk: Disk, indexed: HashMap, seen: set<bytes>, start: seq<ChangeEvent>)
    returns (events: seq<ChangeEvent>)
    requires SeenEvents(disk, indexed, |disk.walked|, seen, start)
    ensures OneEach(events) && forall e :: e in events <==> EventFor(disk, indexed, e.path) == Some(e.kind)
  {
    hide EventFor;
    forall p ensures Deletion(disk, indexed, seen, p) { UnseenEvent(disk, indexed, seen, start, p); }
    events := start;
    var todo := indexed.Keys;
    forall e: ChangeEvent
      ensures EventFor(disk, indexed, e.path) == Some(e.kind) && e.path !in todo ==> e.path in seen
    {
      assert Deletion(disk, indexed, seen, e.path);
    }
    while todo != {}
      invariant todo <= indexed.Keys && OneEach(events)
      invariant forall e :: e in events <==>
        EventFor(disk, indexed, e.path) == Some(e.kind) && (e.path in seen || e.path !in todo)
    {
      var p :| p in todo;
      assert Deletion(disk, indexed, seen, p);
      assert forall i :: 0 <= i < |events| ==> events[i] in events;
      if p !in seen { events := events + [ChangeEvent(p, Deleted)]; }
      todo := todo - {p};
    }
  }

  /** A path that was not seen has an event exactly if it is indexed, and that is its deletion. */
  ghost predicate Deletion(disk: Disk, indexed: HashMap, seen: set<bytes>, path: bytes) {
    path !in seen ==> EventFor(disk, indexed, path) == if path in indexed then Some(Deleted) else None
  }

  lemma UnseenEvent(disk: Disk, indexed: HashMap, seen: set<bytes>, events: seq<ChangeEvent>, path: bytes)
    requires SeenEvents(disk, indexed, |disk.walked|, seen, events)
    ensures Deletion(disk, indexed, seen, path)
  {
    hide FileEvent;
    var r := Find(disk.walked, path);
    if r.Some? {
      var i :| 0 <= i < |disk.walked| && disk.walked[i] == r.value;
      assert path in seen;
    }
  }

  // ---- applying the events ----

  /** Created and Modified take the hash of the file on disk, Deleted drops the path. */
  function Patch(disk: Disk, m: HashMap, events: seq<ChangeEvent>): HashMap
    decreases |events|
  {
    if events == [] then m else Patch(disk, PatchOne(disk, m, events[0]), events[1..])
  }

  function PatchOne(disk: Disk, m: HashMap, e: ChangeEvent): HashMap {
    if e.kind == Deleted then m - {e.path}
    else
      match DiskHash(disk, e.path)
      case None => m
      case Some(h) => m[e.path := h]
  }

  predicate SameAt(a: HashMap, b: HashMap, path: bytes) {
    (path in a <==> path in b) && (path in a ==> a[path] == b[path])
  }

  lemma {:induction false} PatchElsewhere(disk: Disk, m: HashMap, events: seq<ChangeEvent>, path: bytes)
    requires forall e :: e in events ==> e.path != path
    ensures SameAt(Patch(disk, m, events), m, path)
    decreases |events|
  {
    hide DiskHash;
    if events != [] {
      assert events[0] in events;
      PatchElsewhere(disk, PatchOne(disk, m, events[0]), events[1..], path);
    }
  }

  /** With one event per path, a path ends up as its own event leaves it. */
  lemma {:induction false} PatchAt(disk: Disk, m: HashMap, events: seq<ChangeEvent>, e: ChangeEvent)
    requires OneEach(events) && e in events
    ensures SameAt(Patch(disk, m, events), PatchOne(disk, m, e), e.path)
    decreases |events|
  {
    hide DiskHash;
    var rest := events[1..];
    if events[0] == e {
      forall x | x in rest ensures x.path != e.path {
        var k :| 0 <= k < |rest| && rest[k] == x;
        assert events[k + 1] == x;
      }
      PatchElsewhere(disk, PatchOne(disk, m, e), rest, e.path);
    } else {
      var k :| 0 < k < |events| && events[k] == e;
      assert rest[k - 1] == e && events[0].path != e.path;
      PatchAt(disk, PatchOne(disk, m, events[0]), rest, e);
    }
  }

  lemma IncreasingIsOneEach(before: PathOrder, events: seq<ChangeEvent>)
    requires TotalOrder(before) && PathsIncrease(before, events)
    ensures OneEach(events)
  {
    forall i, j | 0 <= i < j < |events| ensures events[i].path != events[j].path {
      assert before(events[i].path, events[j].path);
    }
  }

  /**
   * Diff, then patch, for any walk: a path becomes what the disk says if its file is readable and indexable, keeps its
   * indexed hash if the walker found a file that was skipped, and is gone otherwise.
   */
  lemma PatchedIs(before: PathOrder, disk: Disk, indexed: HashMap, events: seq<ChangeEvent>, path: bytes)
    requires TotalOrder(before) && IsDiff(before, disk, indexed, events)
    ensures var patched := Patch(disk, indexed, events);
      match Find(disk.walked, path)
      case Some(file) =>
        if Indexable(disk, file) then path in patched && patched[path] == disk.hash(file.content.value)
        else SameAt(patched, indexed, path)
      case None => path !in patched
  {
    hide TotalOrder, PathsIncrease, Patch;
    IncreasingIsOneEach(before, events);
    var kind := EventFor(disk, indexed, path);
    if kind.Some? {
      PatchAt(disk, indexed, events, ChangeEvent(path, kind.value));
    } else {
      PatchElsewhere(disk, indexed, events, path);
    }
  }

  /** `m` is the map of the readable, indexable files on disk. */
  ghost predicate IsDiskMap(disk: Disk, m: HashMap) {
    forall path :: AgreesAt(disk, m, path)
  }

  predicate AgreesAt(disk: Disk, m: HashMap, path: bytes) {
    DiskHash(disk, path) == if path in m then Some(m[path]) else None
  }

  /** No indexed path is one the walker found but had to skip. */
  ghost predicate NothingSkipped(disk: Disk, indexed: HashMap) {
    forall path :: path in indexed && Find(disk.walked, path).Some? ==> Indexable(disk, Find(disk.walked, path).value)
  }

  /**
   * Applying the events gives the map of the files on disk if and only if no indexed file was skipped: a file that
   * became unreadable or unfit for indexing keeps its stale entry.
   */
  lemma DiffThenPatchExactly(before: PathOrder, disk: Disk, indexed: HashMap, events: seq<ChangeEvent>)
    requires TotalOrder(before) && IsDiff(before, disk, indexed, events)
    ensures IsDiskMap(disk, Patch(disk, indexed, events)) <==> NothingSkipped(disk, indexed)
  {
    hide TotalOrder, IsDiff, Patch, Indexable;
    var patched := Patch(disk, indexed, events);
    if NothingSkipped(disk, indexed) {
      forall path ensures AgreesAt(disk, patched, path) { PatchedIs(before, disk, indexed, events, path); }
    }
    if IsDiskMap(disk, patched) {
      forall path | path in indexed && Find(disk.walked, path).Some?
        ensures Indexable(disk, Find(disk.walked, path).value)
      {
        PatchedIs(before, disk, indexed, events, path);
        assert AgreesAt(disk, patched, path);
      }
    }
  }

  /** With nothing skipped, there are no events exactly when the index already describes the disk. */
  lemma NoEventsExactly(before: PathOrder, disk: Disk, indexed: HashMap, events: seq<ChangeEvent>)
    requires TotalOrder(before) && IsDiff(before, disk, indexed, events) && NothingSkipped(disk, indexed)
    ensures events == [] <==> IsDiskMap(disk, indexed)
  {
    hide TotalOrder, PathsIncrease, Indexable, IsDiskMap;
    if events == [] {
      assert Patch(disk, indexed, events) == indexed;
      DiffThenPatchExactly(before, disk, indexed, events);
    } else {
      var e := events[0];
      assert e in events;
      assert !AgreesAt(disk, indexed, e.path);
      NotDiskMap(disk, indexed, e.path);
    }
  }

  lemma NotDiskMap(disk: Disk, m: HashMap, path: bytes)
    requires !AgreesAt(disk, m, path)
    ensures !IsDiskMap(disk, m)
  {
  }
}
