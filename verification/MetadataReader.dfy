/**
 * Reading the metadata table back (ferret-core/src/metadata.rs): opening both versions of the format, and the lookups by
 * position, id and path, on arbitrary bytes and on what the builder wrote. The check that path bytes are UTF-8 is a
 * parameter.
 */
module MetadataReader {
  import opened Base
  import opened IndexImage
  import opened Metadata
  import opened Query

  type Utf8 = bytes -> bool

  datatype MetaReader = MetaReader(data: bytes, paths: bytes, entryCount: u32, entrySize: nat)

  ghost predicate Opened(r: MetaReader) {
    && r.entrySize in {ENTRY_SIZE_V1, ENTRY_SIZE}
    && META_HEADER + r.entryCount as int * r.entrySize <= |r.data|
  }

  function OpenMeta(meta: bytes, paths: bytes): (r: Result<MetaReader>)
    ensures r.Ok? ==> Opened(r.value)
  {
    if |meta| < META_HEADER then Err(IndexCorruption)
    else if ReadU32(meta, 0) != META_MAGIC then Err(IndexCorruption)
    else
      var version := ReadU16(meta, 4);
      if version != 1 && version != 2 then Err(UnsupportedVersion(version))
      else
        var size := if version == 1 then ENTRY_SIZE_V1 else ENTRY_SIZE;
        var count := ReadU32(meta, 6);
        if |meta| < META_HEADER + count as int * size then Err(IndexCorruption)
        else Ok(MetaReader(meta, paths, count, size))
  }

  lemma InBounds(r: MetaReader, i: nat)
    requires Opened(r) && i < r.entryCount
    ensures META_HEADER + i * r.entrySize + r.entrySize <= |r.data|
  {
    assert (i + 1) * r.entrySize == i * r.entrySize + r.entrySize;
    assert (r.entryCount - (i + 1)) * r.entrySize >= 0;
  }

  function EntryData(r: MetaReader, i: nat): (b: bytes)
    requires Opened(r) && i < r.entryCount
    ensures |b| == r.entrySize
  {
    InBounds(r, i);
    r.data[META_HEADER + i * r.entrySize..META_HEADER + i * r.entrySize + r.entrySize]
  }

  function IdAt(r: MetaReader, i: nat): u32
    requires Opened(r) && i < r.entryCount
  {
    ReadU32(EntryData(r, i), 0)
  }

  function SizeAt(r: MetaReader, i: nat): u32
    requires Opened(r) && i < r.entryCount
  {
    ReadU32(EntryData(r, i), 30)
  }

  /** The path an entry points at, if it lies inside the pool and is UTF-8. */
  function PathAt(r: MetaReader, utf8: Utf8, offset: u32, len: u32): Result<bytes> {
    if offset as int + len > |r.paths| then Err(IndexCorruption)
    else
      var path := r.paths[offset..offset as int + len];
      if utf8(path) then Ok(path) else Err(IndexCorruption)
  }

  function ReadEntry(r: MetaReader, utf8: Utf8, i: nat): Result<FileMetadata>
    requires Opened(r) && i < r.entryCount
  {
    var b := EntryData(r, i);
    match PathAt(r, utf8, ReadU32(b, 4), ReadU32(b, 8))
    case Err(e) => Err(e)
    case Ok(path) =>
      var v2 := r.entrySize >= ENTRY_SIZE;
      Ok(FileMetadata(ReadU32(b, 0), path, b[12..28], Language(ReadU16(b, 28)), ReadU32(b, 30), ReadU64(b, 34),
        ReadU32(b, 42), ReadU64(b, 46), ReadU32(b, 54), if v2 then ReadU64(b, 58) else 0,
        if v2 then ReadU32(b, 66) else 0, if v2 then ReadU32(b, 70) else 0))
  }

  // ---- lookups ----

  /** The first entry from position i on with the id; an entry that does not read ends the scan. */
  function ScanId(r: MetaReader, utf8: Utf8, id: u32, i: nat): Result<Option<FileMetadata>>
    requires Opened(r) && i <= r.entryCount
    decreases r.entryCount - i
  {
    if i == r.entryCount then Ok(None)
    else
      match ReadEntry(r, utf8, i)
      case Err(e) => Err(e)
      case Ok(m) => if m.fileId == id then Ok(Some(m)) else ScanId(r, utf8, id, i + 1)
  }

  function Lookup(r: MetaReader, utf8: Utf8, id: u32): Result<Option<FileMetadata>>
    requires Opened(r)
  {
    if id < r.entryCount && ReadEntry(r, utf8, id).Err? then Err(ReadEntry(r, utf8, id).error)
    else if id < r.entryCount && ReadEntry(r, utf8, id).value.fileId == id then Ok(Some(ReadEntry(r, utf8, id).value))
    else ScanId(r, utf8, id, 0)
  }

  method Get(r: MetaReader, utf8: Utf8, id: u32) returns (found: Result<Option<FileMetadata>>)
    requires Opened(r)
    ensures found == Lookup(r, utf8, id)
  {
    hide ReadEntry, Opened;
    if id < r.entryCount {
      var entry := ReadEntry(r, utf8, id);
      if entry.Err? { return Err(entry.error); }
      if entry.value.fileId == id { return Ok(Some(entry.value)); }
    }
    for i := 0 to r.entryCount
      invariant ScanId(r, utf8, id, i) == ScanId(r, utf8, id, 0)
    {
      var entry := ReadEntry(r, utf8, i);
      if entry.Err? { return Err(entry.error); }
      if entry.value.fileId == id { return Ok(Some(entry.value)); }
    }
    found := Ok(None);
  }

  function ScanSize(r: MetaReader, id: u32, i: nat): Option<u32>
    requires Opened(r) && i <= r.entryCount
    decreases r.entryCount - i
  {
    if i == r.entryCount then None
    else if IdAt(r, i) == id then Some(SizeAt(r, i))
    else ScanSize(r, id, i + 1)
  }

  function LookupSize(r: MetaReader, id: u32): Option<u32>
    requires Opened(r)
  {
    if id < r.entryCount && IdAt(r, id) == id then Some(SizeAt(r, id))
    else ScanSize(r, id, 0)
  }

  method GetSizeBytes(r: MetaReader, id: u32) returns (size: Option<u32>)
    requires Opened(r)
    ensures size == LookupSize(r, id)
  {
    hide Opened, IdAt, SizeAt;
    if id < r.entryCount && IdAt(r, id) == id { return Some(SizeAt(r, id)); }
    for i := 0 to r.entryCount
      invariant ScanSize(r, id, i) == ScanSize(r, id, 0)
    {
      if IdAt(r, i) == id { return Some(SizeAt(r, i)); }
    }
    size := None;
  }

  /** Entry i has these path bytes. */
  predicate PathIs(r: MetaReader, i: nat, path: bytes)
    requires Opened(r) && i < r.entryCount
  {
    var b := EntryData(r, i);
    var offset, len := ReadU32(b, 4), ReadU32(b, 8);
    len == |path| && offset as int + len <= |r.paths| && r.paths[offset..offset as int + len] == path
  }

  /** The entry slice has the version 2 size whatever the file's version, and panics past the end of the data. */
  function ScanPath(r: MetaReader, path: bytes, i: nat): Result<Option<u32>>
    requires Opened(r) && i <= r.entryCount
    decreases r.entryCount - i
  {
    if i == r.entryCount then Ok(None)
    else if META_HEADER + i * r.entrySize + ENTRY_SIZE > |r.data| then Err(SlicePanic)
    else if PathIs(r, i, path) then Ok(Some(IdAt(r, i)))
    else ScanPath(r, path, i + 1)
  }

  method FindFileIdByPath(r: MetaReader, path: bytes) returns (found: Result<Option<u32>>)
    requires Opened(r)
    ensures found == ScanPath(r, path, 0)
  {
    hide Opened, IdAt, PathIs;
    for i := 0 to r.entryCount
      invariant ScanPath(r, path, i) == ScanPath(r, path, 0)
    {
      if META_HEADER + i * r.entrySize + ENTRY_SIZE > |r.data| { return Err(SlicePanic); }
      if PathIs(r, i, path) { return Ok(Some(IdAt(r, i))); }
    }
    found := Ok(None);
  }

  // ---- reading what the builder wrote ----

  /** The entries fit the format, and the path pool the 32-bit offsets. */
  predicate Fits(es: seq<FileMetadata>) {
    Writable(es) && (es != [] ==> PathOffset(es, |es| - 1) <= U32_MAX)
  }

  function ReaderFor(es: seq<FileMetadata>): MetaReader
    requires |es| <= U32_MAX
  {
    MetaReader(MetaBytes(es), PathBytes(es), |es|, ENTRY_SIZE)
  }

  lemma EntrySizes(es: seq<FileMetadata>)
    ensures forall i :: 0 <= i < |es| ==> |Entries(es)[i]| == ENTRY_SIZE
  {
    hide Fields, EntryBytes;
    forall i | 0 <= i < |es| ensures |Entries(es)[i]| == ENTRY_SIZE {
      FieldAt(es[i], PathOffset(es, i) % U32_MODULUS, 0);
    }
  }

  lemma HeaderReads(count: u32, rest: bytes)
    ensures var b := MetaHeader(count) + rest;
      ReadU32(b, 0) == META_MAGIC && ReadU16(b, 4) == META_VERSION && ReadU32(b, 6) == count
  {
    hide U32Bytes, U16Bytes, ReadU32, ReadU16;
    var b := MetaHeader(count) + rest;
    assert b[0..0 + 4] == U32Bytes(META_MAGIC);
    assert b[4..4 + 2] == U16Bytes(META_VERSION);
    assert b[6..6 + 4] == U32Bytes(count);
    ReadU32Written(b, 0, META_MAGIC);
    ReadU16Written(b, 4, META_VERSION);
    ReadU32Written(b, 6, count);
  }

  /** The reader opens what the builder wrote. */
  lemma OpensWritten(es: seq<FileMetadata>)
    requires Writable(es)
    ensures OpenMeta(MetaBytes(es), PathBytes(es)) == Ok(ReaderFor(es)) && Opened(ReaderFor(es))
  {
    hide MetaHeader, Concat, ReadU32, ReadU16, PathBytes;
    EntrySizes(es);
    ConcatUniform(Entries(es), ENTRY_SIZE);
    HeaderReads(|es|, Concat(Entries(es)));
  }

  lemma AfterHeader(header: bytes, body: bytes, at: nat, n: nat)
    requires at + n <= |body|
    ensures (header + body)[|header| + at..|header| + at + n] == body[at..at + n]
  {
  }

  lemma PartOfUniform(parts: seq<bytes>, i: nat)
    requires i < |parts| && forall k :: 0 <= k < |parts| ==> |parts[k]| == ENTRY_SIZE
    ensures i * ENTRY_SIZE + ENTRY_SIZE <= |Concat(parts)|
    ensures Concat(parts)[i * ENTRY_SIZE..i * ENTRY_SIZE + ENTRY_SIZE] == parts[i]
  {
    hide Concat;
    assert parts[..|parts|] == parts;
    ConcatSlice(parts, i, |parts|);
    PrefixUniform(parts, i);
    PrefixUniform(parts, i + 1);
  }

  lemma EntryOf(r: MetaReader, header: bytes, parts: seq<bytes>, i: nat)
    requires Opened(r) && r.entrySize == ENTRY_SIZE && i < r.entryCount == |parts|
    requires |header| == META_HEADER && r.data == header + Concat(parts)
    requires forall k :: 0 <= k < |parts| ==> |parts[k]| == ENTRY_SIZE
    ensures EntryData(r, i) == parts[i]
  {
    hide Concat, Opened;
    PartOfUniform(parts, i);
    AfterHeader(header, Concat(parts), i * ENTRY_SIZE, ENTRY_SIZE);
  }

  lemma DataOf(es: seq<FileMetadata>)
    requires |es| <= U32_MAX
    ensures MetaBytes(es) == MetaHeader(|es|) + Concat(Entries(es))
  {
    hide MetaHeader, Concat, Entries;
  }

  lemma EntryWritten(es: seq<FileMetadata>, i: nat)
    requires Writable(es) && i < |es|
    ensures Opened(ReaderFor(es)) && EntryData(ReaderFor(es), i) == Entries(es)[i]
  {
    OpensWritten(es);
    EntrySizes(es);
    DataOf(es);
    hide MetaHeader, MetaBytes, Concat, Entries, Opened, EntryData, PathBytes, EntryBytes, PathOffset;
    EntryOf(ReaderFor(es), MetaHeader(|es|), Entries(es), i);
  }

  lemma PrefixUniform(parts: seq<bytes>, i: nat)
    requires i <= |parts| && forall k :: 0 <= k < |parts| ==> |parts[k]| == ENTRY_SIZE
    ensures |Concat(parts[..i])| == i * ENTRY_SIZE
  {
    hide Concat;
    ConcatUniform(parts[..i], ENTRY_SIZE);
  }

  lemma Offsets(es: seq<FileMetadata>, i: nat)
    requires Fits(es) && i < |es|
    ensures PathOffset(es, i) <= U32_MAX && PathOffset(es, i) + |es[i].path| <= |PathBytes(es)|
    ensures PathBytes(es)[PathOffset(es, i)..PathOffset(es, i) + |es[i].path|] == es[i].path
  {
    hide Concat;
    var parts := Paths(es);
    assert parts[..|es|] == parts;
    ConcatSlice(parts, i, |es|);
    if i < |es| - 1 { ConcatSlice(parts, i, |es| - 1); }
  }

  ghost predicate HasFirstFields(b: bytes, e: FileMetadata, offset: u32) {
    && |b| == ENTRY_SIZE && ReadU32(b, 0) == e.fileId && ReadU32(b, 4) == offset && ReadU32(b, 8) == |e.path|
    && b[12..28] == e.contentHash && ReadU16(b, 28) == e.language.code && ReadU32(b, 30) == e.sizeBytes
  }

  ghost predicate HasLaterFields(b: bytes, e: FileMetadata) {
    && |b| == ENTRY_SIZE && ReadU64(b, 34) == e.mtime && ReadU32(b, 42) == e.lineCount
    && ReadU64(b, 46) == e.contentOffset && ReadU32(b, 54) == e.contentLen && ReadU64(b, 58) == e.highlightOffset
    && ReadU32(b, 66) == e.highlightLen && ReadU32(b, 70) == e.highlightLines
  }

  lemma FieldsRead(e: FileMetadata, offset: u32)
    requires |e.path| <= U32_MAX
    ensures HasFirstFields(EntryBytes(e, offset), e, offset)
  {
    var b := EntryBytes(e, offset);
    hide ReadU32, ReadU16, EntryBytes, U32Bytes, U16Bytes, U64Bytes;
    FieldAt(e, offset, 0);
    ReadU32Written(b, 0, e.fileId);
    FieldAt(e, offset, 1);
    ReadU32Written(b, 4, offset);
    FieldAt(e, offset, 2);
    ReadU32Written(b, 8, |e.path|);
    FieldAt(e, offset, 3);
    FieldAt(e, offset, 4);
    ReadU16Written(b, 28, e.language.code);
    FieldAt(e, offset, 5);
    ReadU32Written(b, 30, e.sizeBytes);
  }

  lemma LaterFieldsRead(e: FileMetadata, offset: u32)
    ensures HasLaterFields(EntryBytes(e, offset), e)
  {
    var b := EntryBytes(e, offset);
    hide ReadU32, ReadU64, EntryBytes, U32Bytes, U16Bytes, U64Bytes;
    FieldAt(e, offset, 6);
    ReadU64Written(b, 34, e.mtime);
    FieldAt(e, offset, 7);
    ReadU32Written(b, 42, e.lineCount);
    FieldAt(e, offset, 8);
    ReadU64Written(b, 46, e.contentOffset);
    FieldAt(e, offset, 9);
    ReadU32Written(b, 54, e.contentLen);
    FieldAt(e, offset, 10);
    ReadU64Written(b, 58, e.highlightOffset);
    FieldAt(e, offset, 11);
    ReadU32Written(b, 66, e.highlightLen);
    FieldAt(e, offset, 12);
    ReadU32Written(b, 70, e.highlightLines);
  }

  /** The pool holds the path at its offset. */
  ghost predicate InPool(paths: bytes, e: FileMetadata, offset: u32) {
    offset as int + |e.path| <= |paths| && paths[offset..offset as int + |e.path|] == e.path
  }

  lemma DecodesTo(r: MetaReader, utf8: Utf8, i: nat, e: FileMetadata, offset: u32)
    requires Opened(r) && i < r.entryCount && r.entrySize == ENTRY_SIZE && |e.path| <= U32_MAX
    requires HasFirstFields(EntryData(r, i), e, offset) && HasLaterFields(EntryData(r, i), e)
    requires InPool(r.paths, e, offset)
    ensures utf8(e.path) ==> ReadEntry(r, utf8, i) == Ok(e)
    ensures IdAt(r, i) == e.fileId && SizeAt(r, i) == e.sizeBytes
    ensures forall path :: PathIs(r, i, path) <==> path == e.path
  {
    hide ReadU32, ReadU16, ReadU64, Opened, EntryData;
  }

  /** What the reader of a table of entries answers at each position. */
  ghost predicate Answers(r: MetaReader, utf8: Utf8, es: seq<FileMetadata>) {
    && Opened(r) && r.entryCount == |es| && r.entrySize == ENTRY_SIZE
    && forall i :: 0 <= i < |es| ==> AnswersAt(r, utf8, i, es[i])
  }

  ghost predicate AnswersAt(r: MetaReader, utf8: Utf8, i: nat, e: FileMetadata)
    requires Opened(r)
  {
    && i < r.entryCount
    && (utf8(e.path) ==> ReadEntry(r, utf8, i) == Ok(e))
    && IdAt(r, i) == e.fileId && SizeAt(r, i) == e.sizeBytes
    && (forall path :: PathIs(r, i, path) <==> path == e.path)
  }

  /**
   * The reader of what the builder wrote opens, has one entry per entry added, and reads each back in order; this is
   * what iter_all yields.
   */
  lemma WrittenAnswers(es: seq<FileMetadata>, utf8: Utf8)
    requires Fits(es)
    ensures OpenMeta(MetaBytes(es), PathBytes(es)) == Ok(ReaderFor(es)) && Answers(ReaderFor(es), utf8, es)
  {
    OpensWritten(es);
    hide OpenMeta, Opened, PathBytes, MetaBytes, AnswersAt, Fits;
    forall i | 0 <= i < |es| ensures AnswersAt(ReaderFor(es), utf8, i, es[i]) { WrittenAnswersAt(es, utf8, i); }
  }

  lemma WrittenAnswersAt(es: seq<FileMetadata>, utf8: Utf8, i: nat)
    requires Fits(es) && i < |es|
    ensures Opened(ReaderFor(es)) && AnswersAt(ReaderFor(es), utf8, i, es[i])
  {
    hide Opened, PathBytes, MetaBytes, EntryBytes, EntryData, HasFirstFields, HasLaterFields, PathOffset;
    hide ReadEntry, IdAt, SizeAt, PathIs;
    EntryWritten(es, i);
    Offsets(es, i);
    FieldsRead(es[i], PathOffset(es, i));
    LaterFieldsRead(es[i], PathOffset(es, i));
    DecodesTo(ReaderFor(es), utf8, i, es[i], PathOffset(es, i));
  }

  ghost predicate DistinctIds(es: seq<FileMetadata>) {
    forall i, j :: 0 <= i < j < |es| ==> es[i].fileId != es[j].fileId
  }

  ghost predicate DistinctPaths(es: seq<FileMetadata>) {
    forall i, j :: 0 <= i < j < |es| ==> es[i].path != es[j].path
  }

  ghost predicate ValidPaths(es: seq<FileMetadata>, utf8: Utf8) {
    forall i :: 0 <= i < |es| ==> utf8(es[i].path)
  }

  lemma {:induction false} ScanFinds(r: MetaReader, es: seq<FileMetadata>, utf8: Utf8, id: u32, i: nat)
    requires Answers(r, utf8, es) && ValidPaths(es, utf8) && i <= |es|
    ensures (forall k :: i <= k < |es| ==> es[k].fileId != id) ==> ScanId(r, utf8, id, i) == Ok(None)
    ensures forall k :: i <= k < |es| && es[k].fileId == id && DistinctIds(es) ==>
      ScanId(r, utf8, id, i) == Ok(Some(es[k]))
    decreases |es| - i
  {
    hide ReadEntry, Opened, PathIs, IdAt, SizeAt;
    if i < |es| {
      assert AnswersAt(r, utf8, i, es[i]);
      ScanFinds(r, es, utf8, id, i + 1);
    }
  }

  /** get finds every entry by its id, contiguous or not, and nothing else. */
  lemma GetExact(r: MetaReader, es: seq<FileMetadata>, utf8: Utf8, id: u32)
    requires Answers(r, utf8, es) && ValidPaths(es, utf8) && DistinctIds(es)
    ensures forall k :: 0 <= k < |es| && es[k].fileId == id ==> Lookup(r, utf8, id) == Ok(Some(es[k]))
    ensures (forall k :: 0 <= k < |es| ==> es[k].fileId != id) ==> Lookup(r, utf8, id) == Ok(None)
  {
    hide ReadEntry, Opened, PathIs, IdAt, SizeAt, ScanId;
    ScanFinds(r, es, utf8, id, 0);
    if id < |es| { assert AnswersAt(r, utf8, id, es[id]); }
  }

  function SizeOf(m: Option<FileMetadata>): Option<u32> {
    if m.Some? then Some(m.value.sizeBytes) else None
  }

  lemma {:induction false} SizeScanAgrees(r: MetaReader, es: seq<FileMetadata>, utf8: Utf8, id: u32, i: nat)
    requires Answers(r, utf8, es) && ValidPaths(es, utf8) && i <= |es|
    ensures ScanId(r, utf8, id, i).Ok? && ScanSize(r, id, i) == SizeOf(ScanId(r, utf8, id, i).value)
    decreases |es| - i
  {
    hide ReadEntry, Opened, PathIs, IdAt, SizeAt;
    if i < |es| {
      assert AnswersAt(r, utf8, i, es[i]);
      SizeScanAgrees(r, es, utf8, id, i + 1);
    }
  }

  /** The short cut to the size agrees with the full entry for every id, present or not. */
  lemma SizeAgrees(r: MetaReader, es: seq<FileMetadata>, utf8: Utf8, id: u32)
    requires Answers(r, utf8, es) && ValidPaths(es, utf8)
    ensures Lookup(r, utf8, id).Ok? && LookupSize(r, id) == SizeOf(Lookup(r, utf8, id).value)
  {
    hide ReadEntry, Opened, PathIs, IdAt, SizeAt, ScanId, ScanSize;
    SizeScanAgrees(r, es, utf8, id, 0);
    if id < |es| { assert AnswersAt(r, utf8, id, es[id]); }
  }

  lemma {:induction false} PathScanFinds(r: MetaReader, utf8: Utf8, es: seq<FileMetadata>, path: bytes, i: nat)
    requires Answers(r, utf8, es) && DistinctPaths(es) && i <= |es|
    ensures forall k :: i <= k < |es| && es[k].path == path ==> ScanPath(r, path, i) == Ok(Some(es[k].fileId))
    ensures (forall k :: i <= k < |es| ==> es[k].path != path) ==> ScanPath(r, path, i) == Ok(None)
    decreases |es| - i
  {
    hide ReadEntry, Opened, PathIs, IdAt, SizeAt;
    if i < |es| {
      InBounds(r, i);
      assert AnswersAt(r, utf8, i, es[i]);
      PathScanFinds(r, utf8, es, path, i + 1);
    }
  }

  /** find_file_id_by_path inverts the path of an entry, and finds nothing else. */
  lemma FindByPathExact(r: MetaReader, utf8: Utf8, es: seq<FileMetadata>, path: bytes)
    requires Answers(r, utf8, es) && DistinctPaths(es)
    ensures forall k :: 0 <= k < |es| && es[k].path == path ==> ScanPath(r, path, 0) == Ok(Some(es[k].fileId))
    ensures (forall k :: 0 <= k < |es| ==> es[k].path != path) ==> ScanPath(r, path, 0) == Ok(None)
  {
    hide Answers, DistinctPaths, Opened, ScanPath;
    PathScanFinds(r, utf8, es, path, 0);
  }

  // ---- when the search by path panics ----

  /** Entry k is read at the version 2 size past the end of the data. */
  predicate PastEnd(r: MetaReader, k: nat) {
    META_HEADER + k * r.entrySize + ENTRY_SIZE > |r.data|
  }

  /** The scan from position i arrives at entry k, which is past the end, without having found the path. */
  ghost predicate PanicsAt(r: MetaReader, path: bytes, i: nat, k: nat)
    requires Opened(r)
  {
    i <= k < r.entryCount && PastEnd(r, k) && forall j :: i <= j < k ==> !PathIs(r, j, path)
  }

  lemma {:induction false} PanicsFrom(r: MetaReader, path: bytes, i: nat)
    requires Opened(r) && i <= r.entryCount
    ensures ScanPath(r, path, i) == Err(SlicePanic) <==> exists k: nat :: PanicsAt(r, path, i, k)
    decreases r.entryCount - i
  {
    hide PathIs, Opened;
    if i < r.entryCount && !PastEnd(r, i) && !PathIs(r, i, path) {
      var next := i + 1;
      PanicsFrom(r, path, next);
      if k: nat :| PanicsAt(r, path, i, k) { assert PanicsAt(r, path, next, k); }
      if k: nat :| PanicsAt(r, path, next, k) { assert PanicsAt(r, path, i, k); }
    } else if i < r.entryCount && PastEnd(r, i) {
      assert PanicsAt(r, path, i, i);
    } else if k: nat :| PanicsAt(r, path, i, k) {
      assert false;
    }
  }

  lemma PastEndStays(r: MetaReader, k: nat, m: nat)
    requires PastEnd(r, k) && k <= m
    ensures PastEnd(r, m)
  {
    assert (m - k) * r.entrySize >= 0;
    assert m * r.entrySize == k * r.entrySize + (m - k) * r.entrySize;
  }

  /**
   * Looking for a path panics exactly if the scan meets an entry whose version 2 sized slice ends past the data before
   * it meets the path.
   */
  lemma PathSearchPanicsExactly(r: MetaReader, path: bytes)
    requires Opened(r)
    ensures ScanPath(r, path, 0) == Err(SlicePanic) <==>
      exists k: nat :: k < r.entryCount && PastEnd(r, k) && forall j :: 0 <= j < k ==> !PathIs(r, j, path)
  {
    hide PathIs, Opened;
    PanicsFrom(r, path, 0);
    if k: nat :| PanicsAt(r, path, 0, k) {
      assert k < r.entryCount && PastEnd(r, k) && forall j :: 0 <= j < k ==> !PathIs(r, j, path);
    }
    if k: nat :| k < r.entryCount && PastEnd(r, k) && forall j :: 0 <= j < k ==> !PathIs(r, j, path) {
      assert PanicsAt(r, path, 0, k);
    }
  }

  /** No path panics exactly if the file has no entries, or its last one fits at the version 2 size. */
  lemma NoPathPanicsExactly(r: MetaReader)
    requires Opened(r)
    ensures (forall path :: ScanPath(r, path, 0) != Err(SlicePanic)) <==>
      r.entryCount == 0 || |r.data| >= META_HEADER + (r.entryCount - 1) * r.entrySize + ENTRY_SIZE
  {
    hide Opened, ScanPath;
    if r.entryCount > 0 {
      var last: nat := r.entryCount - 1;
      if PastEnd(r, last) {
        var tooLong: bytes := seq(|r.paths| + 1, _ => 0);
        assert PanicsAt(r, tooLong, 0, last);
        PanicsFrom(r, tooLong, 0);
      } else {
        forall path ensures ScanPath(r, path, 0) != Err(SlicePanic) {
          PanicsFrom(r, path, 0);
          if k: nat :| PanicsAt(r, path, 0, k) { PastEndStays(r, k, last); assert false; }
        }
      }
    } else {
      forall path ensures ScanPath(r, path, 0) != Err(SlicePanic) { PanicsFrom(r, path, 0); }
    }
  }

  /**
   * On a version 1 file whose data ends with its table, a search panics exactly if the path is not that of an entry
   * before the last one: absent paths and the path of the last entry panic.
   */
  lemma Version1PathSearchPanics(r: MetaReader, path: bytes)
    requires Opened(r) && r.entrySize == ENTRY_SIZE_V1 && r.entryCount > 0
    requires |r.data| == META_HEADER + r.entryCount as int * ENTRY_SIZE_V1
    ensures ScanPath(r, path, 0) == Err(SlicePanic) <==>
      forall j :: 0 <= j < r.entryCount - 1 ==> !PathIs(r, j, path)
  {
    hide PathIs, Opened, ScanPath;
    PanicsFrom(r, path, 0);
    var last: nat := r.entryCount - 1;
    if forall j :: 0 <= j < last ==> !PathIs(r, j, path) { assert PanicsAt(r, path, 0, last); }
    if k: nat :| PanicsAt(r, path, 0, k) { assert k == last; }
  }
}
