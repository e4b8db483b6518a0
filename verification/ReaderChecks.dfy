/** What the readers check and what they return on any file (ferret-core/src/index.rs, metadata.rs). */
module ReaderChecks {
  // These results hold for arbitrary bytes: when exactly a file opens, which error is returned otherwise, and what a
  // lookup makes of the row or entry it finds.

  import opened Base
  import opened Codec
  import opened IndexReader
  import opened Trigrams
  import opened Metadata
  import M = MetadataReader
  import W = WireFormat

  // ---- opening an index ----

  /** The offset and the length stored in row i. */
  function OffsetOf(b: bytes, i: nat): u32
    requires 10 + 19 * (i + 1) <= |b|
  {
    ReadU32(b, 13 + 19 * i)
  }

  function LengthOf(b: bytes, i: nat): u32
    requires 10 + 19 * (i + 1) <= |b|
  {
    ReadU32(b, 17 + 19 * i)
  }

  /** Row i has the greatest offset of all rows and is the last of those that have it. */
  ghost predicate LastRow(b: bytes, count: nat, i: nat)
    requires 10 + 19 * count <= |b|
  {
    i < count && forall j :: 0 <= j < count ==> OffsetOf(b, j) < OffsetOf(b, i) || (OffsetOf(b, j) == OffsetOf(b, i) && j <= i)
  }

  ghost predicate VarintsFill(b: bytes, start: nat, end: nat, n: nat, parts: seq<bytes>) {
    start <= end <= |b| && |parts| == n && W.AllReadable(parts) && W.Join(parts) == b[start..end]
  }

  /** n readable varints start inside the file and end at the boundary. */
  ghost predicate EndsAt(b: bytes, start: nat, n: nat, boundary: nat) {
    start < |b| && exists parts :: VarintsFill(b, start, boundary, n, parts)
  }

  ghost predicate IsIndexHeader(b: bytes) {
    |b| >= 10 && ReadU32(b, 0) == 0x5452_4947 && ReadU16(b, 4) == 1
  }

  /** A file with `count` rows in which the file lists end at the boundary. */
  ghost predicate IsIndex(b: bytes, count: nat, boundary: nat) {
    && IsIndexHeader(b) && count == ReadU32(b, 6) && 10 + 19 * count <= |b|
    && (count == 0 ==> boundary == 10)
    && (count > 0 ==> exists i: nat :: ListsEnd(b, count, i, boundary))
  }

  ghost predicate ListsEnd(b: bytes, count: nat, i: nat, boundary: nat)
    requires 10 + 19 * count <= |b|
  {
    LastRow(b, count, i) && EndsAt(b, 10 + 19 * count + OffsetOf(b, i), LengthOf(b, i), boundary)
  }

  lemma {:induction false} LastListIs(b: bytes, count: nat) returns (i: nat)
    requires 0 < count && 10 + 19 * count <= |b|
    ensures i < count && LastRow(b, count, i) && LastList(b, count) == (OffsetOf(b, i), LengthOf(b, i))
  {
    hide ReadU32;
    i := 0;
    if count > 1 { i := LastListIs(b, count - 1); }
    if count == 1 || FileOffsetAt(b, count - 1) >= LastList(b, count - 1).0 { i := count - 1; }
    assert LastList(b, 0) == (0, 0);
  }

  lemma OneLastRow(b: bytes, count: nat, i: nat, j: nat)
    requires 10 + 19 * count <= |b| && LastRow(b, count, i) && LastRow(b, count, j)
    ensures i == j
  {
    hide OffsetOf;
    assert OffsetOf(b, i) <= OffsetOf(b, j) <= OffsetOf(b, i);
  }

  lemma EndsAtIs(b: bytes, start: nat, n: nat, boundary: nat)
    requires start < |b|
    ensures EndsAt(b, start, n, boundary) <==> start <= boundary && SkipVarints(b[start..], n) == Some(boundary - start)
  {
    hide W.AllReadable, SkipVarints, W.Join;
    if start <= boundary { W.SkipExactly(b[start..], n, boundary - start); }
    if EndsAt(b, start, n, boundary) {
      var parts :| VarintsFill(b, start, boundary, n, parts);
      assert b[start..][..boundary - start] == b[start..boundary];
      assert W.Counted(b[start..], n, boundary - start, parts);
    }
    if start <= boundary && SkipVarints(b[start..], n) == Some(boundary - start) {
      var parts :| W.Counted(b[start..], n, boundary - start, parts);
      assert b[start..][..boundary - start] == b[start..boundary];
      assert VarintsFill(b, start, boundary, n, parts);
    }
  }

  lemma NotPast(b: bytes, start: nat, n: nat, boundary: nat)
    requires start >= |b|
    ensures !EndsAt(b, start, n, boundary)
  {
  }

  lemma BoundaryIs(b: bytes, count: nat, boundary: nat)
    requires 10 + 19 * count <= |b| && count > 0
    ensures PositionStart(b, count) == Ok(boundary) <==> exists i: nat :: ListsEnd(b, count, i, boundary)
  {
    hide LastList, LastRow, SkipVarints, OffsetOf, LengthOf, EndsAt;
    var i := LastListIs(b, count);
    var start := 10 + 19 * count + OffsetOf(b, i);
    if start < |b| { EndsAtIs(b, start, LengthOf(b, i), boundary); } else { NotPast(b, start, LengthOf(b, i), boundary); }
    if PositionStart(b, count) == Ok(boundary) { assert ListsEnd(b, count, i, boundary); }
    forall j: nat | ListsEnd(b, count, j, boundary) ensures PositionStart(b, count) == Ok(boundary) {
      OneLastRow(b, count, i, j);
    }
  }

  /** A file opens exactly if it is an index; the rows and both sections are then where they belong. */
  lemma OpensExactly(b: bytes, count: u32, boundary: nat)
    ensures OpenIndex(b) == Ok(Reader(b, count, 10 + 19 * count, boundary)) <==> IsIndex(b, count, boundary)
    ensures OpenIndex(b).Ok? ==> OpenIndex(b).value.mmap == b
  {
    hide PositionStart, ReadU32, ReadU16, ListsEnd;
    if 10 + 19 * count <= |b| && count > 0 { BoundaryIs(b, count, boundary); }
    if 10 <= |b| { NoRows(b); }
  }

  lemma NoRows(b: bytes)
    requires 10 <= |b|
    ensures PositionStart(b, 0) == Ok(10)
  {
  }

  /** Only the version is reported by value; everything else that is wrong with a file is corruption. */
  lemma OpenErrors(b: bytes)
    ensures OpenIndex(b).Err? ==>
      OpenIndex(b).error ==
      if |b| >= 10 && ReadU32(b, 0) == 0x5452_4947 && ReadU16(b, 4) != 1 then UnsupportedVersion(ReadU16(b, 4))
      else IndexCorruption
  {
    hide ReadU32, ReadU16, LastList, SkipVarints;
  }

  // ---- looking a trigram up in any index ----

  /** What a lookup makes of the bytes from start to end if the row counts n entries. */
  ghost predicate ReadsIds(b: bytes, start: nat, end: nat, n: nat, r: Result<seq<u32>>) {
    if n == 0 then r == Ok([])
    else if start > |b| || end > |b| then r == Err(IndexCorruption)
    else if start > end then r == Err(SlicePanic)
    else r == Ok(DeltaValues(0, b[start..end]))
  }

  ghost predicate ReadsPostings(b: bytes, start: nat, end: nat, n: nat, r: Result<seq<Posting>>) {
    if n == 0 then r == Ok([])
    else if start > |b| || end > |b| then r == Err(IndexCorruption)
    else if start > end then r == Err(SlicePanic)
    else r == Ok(PositionValues(b[start..end]))
  }

  /** From the list's own offset up to that of the next row or to the end of the section. */
  ghost predicate FileRowRead(reader: Reader, i: nat, r: Result<seq<u32>>)
    requires WellFormed(reader) && i < reader.trigramCount
  {
    var b := reader.mmap;
    ReadsIds(b, reader.filePostingsOffset + ReadU32(b, 13 + 19 * i),
      if i + 1 == reader.trigramCount then reader.posPostingsOffset
      else reader.filePostingsOffset + ReadU32(b, 32 + 19 * i),
      ReadU32(b, 17 + 19 * i), r)
  }

  ghost predicate PositionRowRead(reader: Reader, i: nat, r: Result<seq<Posting>>)
    requires WellFormed(reader) && i < reader.trigramCount
  {
    var b := reader.mmap;
    ReadsPostings(b, reader.posPostingsOffset + ReadU32(b, 21 + 19 * i),
      if i + 1 == reader.trigramCount then |b| else reader.posPostingsOffset + ReadU32(b, 40 + 19 * i),
      ReadU32(b, 25 + 19 * i), r)
  }

  /** A lookup reads the lists of the row that holds the trigram's code. */
  lemma LookupsReadRow(reader: Reader, t: Trigram, i: nat)
    requires WellFormed(reader) && CodesSorted(reader.mmap, reader.trigramCount)
    requires i < reader.trigramCount && CodeAt(reader.mmap, i) == t.Code()
    ensures FileRowRead(reader, i, LookupFileIds(reader, t)) && PositionRowRead(reader, i, LookupPositions(reader, t))
    ensures EstimatePostingListSize(reader, t) == ReadU32(reader.mmap, 17 + 19 * i)
  {
    hide FileRowRead, PositionRowRead, CodesSorted, SearchTable, CodeAt, FileListAt, PositionListAt, ReadU32;
    RowFound(reader, t, i);
    FileRow(reader, i);
    PositionRow(reader, i);
    RowReads(reader.mmap, i);
  }

  lemma FileRow(reader: Reader, i: nat)
    requires WellFormed(reader) && i < reader.trigramCount
    ensures FileRowRead(reader, i, FileListAt(reader, i))
  {
    hide DeltaValues, ReadU32, FileOffsetAt, FileLenAt;
    RowReads(reader.mmap, i);
    if i + 1 < reader.trigramCount { RowReads(reader.mmap, i + 1); }
  }

  lemma PositionRow(reader: Reader, i: nat)
    requires WellFormed(reader) && i < reader.trigramCount
    ensures PositionRowRead(reader, i, PositionListAt(reader, i))
  {
    hide PositionValues, ReadU32, PositionOffsetAt, PositionLenAt;
    RowReads(reader.mmap, i);
    if i + 1 < reader.trigramCount { RowReads(reader.mmap, i + 1); }
  }

  lemma RowReads(b: bytes, i: nat)
    requires HasRows(b, i + 1)
    ensures FileOffsetAt(b, i) == ReadU32(b, 13 + 19 * i) && FileLenAt(b, i) == ReadU32(b, 17 + 19 * i)
    ensures PositionOffsetAt(b, i) == ReadU32(b, 21 + 19 * i) && PositionLenAt(b, i) == ReadU32(b, 25 + 19 * i)
  {
    hide ReadU32;
  }

  lemma RowFound(reader: Reader, t: Trigram, i: nat)
    requires WellFormed(reader) && CodesSorted(reader.mmap, reader.trigramCount)
    requires i < reader.trigramCount && CodeAt(reader.mmap, i) == t.Code()
    ensures SearchTable(reader.mmap, t.Code(), 0, reader.trigramCount) == Some(i)
  {
    hide CodeAt;
    SearchTableFinds(reader.mmap, reader.trigramCount, 0, reader.trigramCount, i);
  }

  /** Nothing for a trigram without a row. */
  lemma LookupsOfAbsent(reader: Reader, t: Trigram)
    requires WellFormed(reader)
    requires forall i :: 0 <= i < reader.trigramCount ==> CodeAt(reader.mmap, i) != t.Code()
    ensures LookupFileIds(reader, t) == Ok([]) && LookupPositions(reader, t) == Ok([])
    ensures EstimatePostingListSize(reader, t) == 0
  {
    hide SearchTable, CodeAt;
    SearchTableSound(reader.mmap, t.Code(), 0, reader.trigramCount);
  }

  // ---- opening a metadata file ----

  /** Entries of 58 bytes in version 1 and of 74 in version 2. */
  ghost predicate IsMetadata(meta: bytes, count: nat, size: nat) {
    && |meta| >= 10 && ReadU32(meta, 0) == 0x4D45_5441 && count == ReadU32(meta, 6)
    && ((ReadU16(meta, 4) == 1 && size == 58) || (ReadU16(meta, 4) == 2 && size == 74))
    && 10 + count * size <= |meta|
  }

  lemma MetadataOpensExactly(meta: bytes, paths: bytes, r: M.MetaReader)
    ensures M.OpenMeta(meta, paths) == Ok(r) <==>
            r.data == meta && r.paths == paths && IsMetadata(meta, r.entryCount, r.entrySize)
    ensures M.OpenMeta(meta, paths).Err? ==>
      M.OpenMeta(meta, paths).error ==
      if |meta| >= 10 && ReadU32(meta, 0) == 0x4D45_5441 && ReadU16(meta, 4) !in {1, 2}
      then UnsupportedVersion(ReadU16(meta, 4)) else IndexCorruption
  {
    hide ReadU32, ReadU16;
  }

  // ---- entries of any metadata file ----

  /** The stored fields of entry i; version 1 has no highlight fields. */
  ghost predicate HoldsEntry(r: M.MetaReader, i: nat, m: FileMetadata)
    requires M.Opened(r) && i < r.entryCount
  {
    var at := 10 + i * r.entrySize;
    && at + r.entrySize <= |r.data|
    && m.fileId == ReadU32(r.data, at) && m.contentHash == r.data[at + 12..at + 28]
    && m.language.code == ReadU16(r.data, at + 28) && m.sizeBytes == ReadU32(r.data, at + 30)
    && m.mtime == ReadU64(r.data, at + 34) && m.lineCount == ReadU32(r.data, at + 42)
    && m.contentOffset == ReadU64(r.data, at + 46) && m.contentLen == ReadU32(r.data, at + 54)
    && m.highlightOffset == (if r.entrySize == 74 then ReadU64(r.data, at + 58) else 0)
    && m.highlightLen == (if r.entrySize == 74 then ReadU32(r.data, at + 66) else 0)
    && m.highlightLines == (if r.entrySize == 74 then ReadU32(r.data, at + 70) else 0)
  }

  /** The bytes of the path pool that entry i points to. */
  ghost predicate HoldsPath(r: M.MetaReader, i: nat, path: bytes)
    requires M.Opened(r) && i < r.entryCount
  {
    var at := 10 + i * r.entrySize;
    && at + r.entrySize <= |r.data|
    && var from, n := ReadU32(r.data, at + 4) as int, ReadU32(r.data, at + 8) as int;
    from + n <= |r.paths| && path == r.paths[from..from + n]
  }

  lemma Inside(data: bytes, at: nat, size: nat, k: nat, n: nat)
    requires at + size <= |data| && k + n <= size
    ensures data[at..at + size][k..k + n] == data[at + k..at + k + n]
  {
    SubSlice(data, at, at + size, k, k + n);
  }

  lemma Field16(data: bytes, at: nat, size: nat, k: nat)
    requires at + size <= |data| && k + 2 <= size
    ensures ReadU16(data[at..at + size], k) == ReadU16(data, at + k)
  {
    Inside(data, at, size, k, 2);
  }

  lemma Field32(data: bytes, at: nat, size: nat, k: nat)
    requires at + size <= |data| && k + 4 <= size
    ensures ReadU32(data[at..at + size], k) == ReadU32(data, at + k)
  {
    Inside(data, at, size, k, 4);
  }

  lemma Field64(data: bytes, at: nat, size: nat, k: nat)
    requires at + size <= |data| && k + 8 <= size
    ensures ReadU64(data[at..at + size], k) == ReadU64(data, at + k)
  {
    Inside(data, at, size, k, 8);
  }

  lemma FieldsOf(data: bytes, at: nat, size: nat)
    requires at + size <= |data| && (size == 58 || size == 74)
    ensures var b := data[at..at + size];
      && ReadU32(b, 0) == ReadU32(data, at) && ReadU32(b, 4) == ReadU32(data, at + 4)
      && ReadU32(b, 8) == ReadU32(data, at + 8) && b[12..28] == data[at + 12..at + 28]
      && ReadU16(b, 28) == ReadU16(data, at + 28) && ReadU32(b, 30) == ReadU32(data, at + 30)
      && ReadU64(b, 34) == ReadU64(data, at + 34) && ReadU32(b, 42) == ReadU32(data, at + 42)
      && ReadU64(b, 46) == ReadU64(data, at + 46) && ReadU32(b, 54) == ReadU32(data, at + 54)
      && (size == 74 ==>
            && ReadU64(b, 58) == ReadU64(data, at + 58) && ReadU32(b, 66) == ReadU32(data, at + 66)
            && ReadU32(b, 70) == ReadU32(data, at + 70))
  {
    hide ReadU16, ReadU32, ReadU64;
    Field32(data, at, size, 0);
    Field32(data, at, size, 4);
    Field32(data, at, size, 8);
    Inside(data, at, size, 12, 16);
    Field16(data, at, size, 28);
    Field32(data, at, size, 30);
    Field64(data, at, size, 34);
    Field32(data, at, size, 42);
    Field64(data, at, size, 46);
    Field32(data, at, size, 54);
    if size == 74 {
      Field64(data, at, size, 58);
      Field32(data, at, size, 66);
      Field32(data, at, size, 70);
    }
  }

  /** An entry reads as its stored fields; it is corrupt exactly if its path is outside the pool or no text. */
  lemma EntryReads(r: M.MetaReader, utf8: M.Utf8, i: nat)
    requires M.Opened(r) && i < r.entryCount
    ensures var e := M.ReadEntry(r, utf8, i);
      && (e.Err? ==> e.error == IndexCorruption)
      && (e.Err? <==> forall path :: HoldsPath(r, i, path) ==> !utf8(path))
      && (e.Ok? ==> HoldsEntry(r, i, e.value) && HoldsPath(r, i, e.value.path) && utf8(e.value.path))
  {
    hide ReadU16, ReadU32, ReadU64;
    M.InBounds(r, i);
    var at := 10 + i * r.entrySize;
    FieldsOf(r.data, at, r.entrySize);
    var e := M.ReadEntry(r, utf8, i);
    if e.Err? {
      forall path | HoldsPath(r, i, path) ensures !utf8(path) {
      }
    } else {
      assert HoldsPath(r, i, e.value.path);
    }
  }

  // ---- lookups by id in any metadata file ----

  ghost predicate Readable(r: M.MetaReader, utf8: M.Utf8, k: nat)
    requires M.Opened(r)
  {
    k < r.entryCount && M.ReadEntry(r, utf8, k).Ok?
  }

  ghost predicate HasId(r: M.MetaReader, utf8: M.Utf8, k: nat, id: u32)
    requires M.Opened(r)
  {
    Readable(r, utf8, k) && M.ReadEntry(r, utf8, k).value.fileId == id
  }

  /** The scan gets to entry k: every entry before it is readable and has another id. */
  ghost predicate Passed(r: M.MetaReader, utf8: M.Utf8, k: nat, id: u32)
    requires M.Opened(r)
  {
    k <= r.entryCount && forall j :: 0 <= j < k ==> Readable(r, utf8, j) && !HasId(r, utf8, j, id)
  }

  lemma {:induction false} ScanStops(r: M.MetaReader, utf8: M.Utf8, id: u32, i: nat) returns (k: nat)
    requires M.Opened(r) && Passed(r, utf8, i, id)
    ensures i <= k && Passed(r, utf8, k, id)
    ensures if k == r.entryCount then M.ScanId(r, utf8, id, i) == Ok(None)
            else if !Readable(r, utf8, k) then M.ScanId(r, utf8, id, i) == Err(IndexCorruption)
            else HasId(r, utf8, k, id) && M.ScanId(r, utf8, id, i) == Ok(Some(M.ReadEntry(r, utf8, k).value))
    decreases r.entryCount - i
  {
    hide M.ReadEntry;
    k := i;
    if i < r.entryCount {
      EntryReads(r, utf8, i);
      if Readable(r, utf8, i) && !HasId(r, utf8, i, id) { k := ScanStops(r, utf8, id, i + 1); }
    }
  }

  /** The entry at index id if it has that id, and otherwise the first that has it; an unreadable entry is an error. */
  lemma LookupFindsId(r: M.MetaReader, utf8: M.Utf8, id: u32) returns (k: nat)
    requires M.Opened(r)
    ensures var m := M.Lookup(r, utf8, id);
      if id < r.entryCount && !Readable(r, utf8, id) then m == Err(IndexCorruption)
      else if HasId(r, utf8, id, id) then m == Ok(Some(M.ReadEntry(r, utf8, id).value))
      else Passed(r, utf8, k, id) &&
           if k == r.entryCount then m == Ok(None)
           else if !Readable(r, utf8, k) then m == Err(IndexCorruption)
           else HasId(r, utf8, k, id) && m == Ok(Some(M.ReadEntry(r, utf8, k).value))
  {
    hide M.ReadEntry, M.ScanId;
    if id < r.entryCount { EntryReads(r, utf8, id); }
    k := ScanStops(r, utf8, id, 0);
  }
}
