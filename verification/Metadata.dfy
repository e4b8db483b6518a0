/**
 * The table of file metadata and its pool of paths (ferret-core/src/metadata.rs): the bytes of meta.bin and paths.bin
 * and the builder that writes them. Entries are 74 bytes of fixed fields; a path is an offset and a length into the
 * pool, whose offsets wrap at 32 bits.
 */
module Metadata {
  import opened Base
  import opened IndexImage
  import opened Query

  const META_MAGIC: u32 := 0x4D45_5441
  const META_VERSION: u16 := 2
  const META_HEADER: nat := 10
  const ENTRY_SIZE: nat := 74
  const ENTRY_SIZE_V1: nat := 58

  type Hash = b: bytes | |b| == 16 witness seq(16, _ => 0)

  datatype FileMetadata = FileMetadata(
    fileId: u32, path: bytes, contentHash: Hash, language: Language, sizeBytes: u32, mtime: u64, lineCount: u32,
    contentOffset: u64, contentLen: u32, highlightOffset: u64, highlightLen: u32, highlightLines: u32)

  // ---- what is written ----

  function Fields(e: FileMetadata, pathOffset: u32): (r: seq<bytes>)
    ensures |r| == 13
  {
    [U32Bytes(e.fileId), U32Bytes(pathOffset), U32Bytes(|e.path| % U32_MODULUS), e.contentHash,
     U16Bytes(e.language.code), U32Bytes(e.sizeBytes), U64Bytes(e.mtime), U32Bytes(e.lineCount),
     U64Bytes(e.contentOffset), U32Bytes(e.contentLen), U64Bytes(e.highlightOffset), U32Bytes(e.highlightLen),
     U32Bytes(e.highlightLines)]
  }

  /** Where field k of an entry starts. */
  function FieldStart(k: nat): nat
    requires k <= 13
  {
    [0, 4, 8, 12, 28, 30, 34, 42, 46, 54, 58, 66, 70, 74][k]
  }

  function EntryBytes(e: FileMetadata, pathOffset: u32): bytes {
    Concat(Fields(e, pathOffset))
  }

  lemma {:induction false} FieldStartIs(e: FileMetadata, pathOffset: u32, k: nat)
    requires k <= 13
    ensures |Concat(Fields(e, pathOffset)[..k])| == FieldStart(k)
  {
    if k > 0 {
      FieldStartIs(e, pathOffset, k - 1);
      hide Concat, U16Bytes, U32Bytes, U64Bytes;
      ConcatStep(Fields(e, pathOffset), k - 1);
    }
  }

  /** Every field lies at its fixed place. */
  lemma FieldAt(e: FileMetadata, pathOffset: u32, k: nat)
    requires k < 13
    ensures |EntryBytes(e, pathOffset)| == ENTRY_SIZE && FieldStart(k) <= FieldStart(k + 1) <= ENTRY_SIZE
    ensures EntryBytes(e, pathOffset)[FieldStart(k)..FieldStart(k + 1)] == Fields(e, pathOffset)[k]
  {
    var fields := Fields(e, pathOffset);
    assert fields[..13] == fields;
    hide Concat, Fields;
    FieldStartIs(e, pathOffset, k);
    FieldStartIs(e, pathOffset, k + 1);
    FieldStartIs(e, pathOffset, 13);
    ConcatSlice(fields, k, 13);
  }

  function Paths(es: seq<FileMetadata>): (r: seq<bytes>)
    ensures |r| == |es| && forall i :: 0 <= i < |r| ==> r[i] == es[i].path
  {
    seq(|es|, i requires 0 <= i < |es| => es[i].path)
  }

  function PathOffset(es: seq<FileMetadata>, i: nat): nat
    requires i <= |es|
  {
    |Concat(Paths(es)[..i])|
  }

  function Entries(es: seq<FileMetadata>): (r: seq<bytes>)
    ensures |r| == |es|
    ensures forall i :: 0 <= i < |r| ==> r[i] == EntryBytes(es[i], PathOffset(es, i) % U32_MODULUS)
  {
    seq(|es|, i requires 0 <= i < |es| => EntryBytes(es[i], PathOffset(es, i) % U32_MODULUS))
  }

  function MetaHeader(count: u32): (b: bytes)
    ensures |b| == META_HEADER
  {
    U32Bytes(META_MAGIC) + U16Bytes(META_VERSION) + U32Bytes(count)
  }

  /** meta.bin and paths.bin. */
  function MetaBytes(es: seq<FileMetadata>): bytes {
    MetaHeader(|es| % U32_MODULUS) + Concat(Entries(es))
  }

  function PathBytes(es: seq<FileMetadata>): bytes { Concat(Paths(es)) }

  predicate Writable(es: seq<FileMetadata>) {
    |es| <= U32_MAX && forall i :: 0 <= i < |es| ==> |es[i].path| <= U32_MAX
  }

  /** Meta bytes and path bytes of the first k entries, and the offset the next path gets. */
  function MetaUpTo(es: seq<FileMetadata>, k: nat): bytes
    requires k <= |es|
  {
    Concat(Entries(es)[..k])
  }

  function PathsUpTo(es: seq<FileMetadata>, k: nat): bytes
    requires k <= |es|
  {
    Concat(Paths(es)[..k])
  }

  lemma WriteNone(es: seq<FileMetadata>)
    ensures MetaUpTo(es, 0) == [] && PathsUpTo(es, 0) == []
  {
  }

  lemma WriteStep(es: seq<FileMetadata>, k: nat)
    requires k < |es|
    ensures MetaUpTo(es, k + 1) == MetaUpTo(es, k) + EntryBytes(es[k], |PathsUpTo(es, k)| % U32_MODULUS)
    ensures PathsUpTo(es, k + 1) == PathsUpTo(es, k) + es[k].path
  {
    hide EntryBytes, Concat;
    ConcatStep(Entries(es), k);
    ConcatStep(Paths(es), k);
  }

  lemma WriteAll(es: seq<FileMetadata>)
    ensures MetaBytes(es) == MetaHeader(|es| % U32_MODULUS) + MetaUpTo(es, |es|) && PathBytes(es) == PathsUpTo(es, |es|)
  {
    hide EntryBytes, Concat, MetaHeader;
    assert Entries(es)[..|es|] == Entries(es) && Paths(es)[..|es|] == Paths(es);
  }

  // ---- the builder ----

  /** Each path is sent to the index of its last entry. */
  ghost predicate LastIndex(es: seq<FileMetadata>, m: map<bytes, nat>) {
    && (forall p :: p in m ==> m[p] < |es| && es[m[p]].path == p)
    && (forall i :: 0 <= i < |es| ==> es[i].path in m && i <= m[es[i].path])
  }

  /** The next id is above all ids, unless some id leaves no room for a next one. */
  ghost predicate NextIsFree(es: seq<FileMetadata>, next: u32) {
    (forall i :: 0 <= i < |es| ==> es[i].fileId < U32_MAX) ==> forall i :: 0 <= i < |es| ==> es[i].fileId < next
  }

  lemma IndexAdded(es: seq<FileMetadata>, m: map<bytes, nat>, e: FileMetadata)
    requires LastIndex(es, m)
    ensures LastIndex(es + [e], m[e.path := |es|])
  {
  }

  lemma NextAdded(es: seq<FileMetadata>, next: u32, e: FileMetadata, next': u32)
    requires NextIsFree(es, next)
    requires next' == if e.fileId >= next then (e.fileId + 1) % U32_MODULUS else next
    ensures NextIsFree(es + [e], next')
  {
    var all := es + [e];
    if forall i :: 0 <= i < |all| ==> all[i].fileId < U32_MAX {
      assert all[|es|] == e;
      assert forall i :: 0 <= i < |es| ==> all[i] == es[i];
    }
  }

  class MetadataBuilder {
    var entries: seq<FileMetadata>
    var pathToIndex: map<bytes, nat>
    var nextFileId: u32

    constructor ()
      ensures Valid() && entries == []
    {
      entries, pathToIndex, nextFileId := [], map[], 0;
    }

    ghost predicate Valid()
      reads this
    {
      LastIndex(entries, pathToIndex) && NextIsFree(entries, nextFileId)
    }

    method AddFile(m: FileMetadata)
      requires Valid()
      modifies this
      ensures Valid() && entries == old(entries) + [m]
    {
      hide LastIndex, NextIsFree;
      var index := |entries|;
      pathToIndex := pathToIndex[m.path := index];
      if m.fileId >= nextFileId { nextFileId := (m.fileId + 1) % U32_MODULUS; }
      entries := entries + [m];
      IndexAdded(old(entries), old(pathToIndex), m);
      NextAdded(old(entries), old(nextFileId), m, nextFileId);
    }

    /** The first entry with the id. */
    method Get(fileId: u32) returns (r: Option<FileMetadata>)
      ensures r.None? ==> forall i :: 0 <= i < |entries| ==> entries[i].fileId != fileId
      ensures r.Some? ==> exists k: nat :: FirstWithId(entries, fileId, k) && entries[k] == r.value
    {
      for i := 0 to |entries|
        invariant forall k :: 0 <= k < i ==> entries[k].fileId != fileId
      {
        if entries[i].fileId == fileId {
          assert FirstWithId(entries, fileId, i);
          return Some(entries[i]);
        }
      }
      r := None;
    }

    /** The last entry with the path. */
    method GetByPath(path: bytes) returns (r: Option<FileMetadata>)
      requires Valid()
      ensures r.None? ==> forall i :: 0 <= i < |entries| ==> entries[i].path != path
      ensures r.Some? ==> exists k: nat :: LastWithPath(entries, path, k) && entries[k] == r.value
    {
      if path !in pathToIndex { return None; }
      assert LastWithPath(entries, path, pathToIndex[path]);
      r := Some(entries[pathToIndex[path]]);
    }

    /** Both files, or an error if a count or a length does not fit; the running offset wraps. */
    method WriteTo() returns (r: Option<(bytes, bytes)>)
      ensures r == if Writable(entries) then Some((MetaBytes(entries), PathBytes(entries))) else None
    {
      hide EntryBytes, MetaHeader, MetaUpTo, PathsUpTo, MetaBytes, PathBytes;
      if |entries| > U32_MAX { return None; }
      var es := entries;
      var meta, paths := MetaHeader(|es|), [];
      var pathOffset: u32 := 0;
      WriteNone(es);
      for k := 0 to |es|
        invariant forall i :: 0 <= i < k ==> |es[i].path| <= U32_MAX
        invariant meta == MetaHeader(|es|) + MetaUpTo(es, k)
        invariant paths == PathsUpTo(es, k) && pathOffset == |paths| % U32_MODULUS
      {
        if |es[k].path| > U32_MAX { return None; }
        WriteStep(es, k);
        meta := meta + EntryBytes(es[k], pathOffset);
        paths := paths + es[k].path;
        pathOffset := (pathOffset + |es[k].path|) % U32_MODULUS;
      }
      WriteAll(es);
      r := Some((meta, paths));
    }
  }

  ghost predicate FirstWithId(es: seq<FileMetadata>, id: u32, k: nat) {
    k < |es| && es[k].fileId == id && forall i :: 0 <= i < k ==> es[i].fileId != id
  }

  ghost predicate LastWithPath(es: seq<FileMetadata>, path: bytes, k: nat) {
    k < |es| && es[k].path == path && forall i :: k < i < |es| ==> es[i].path != path
  }
}
