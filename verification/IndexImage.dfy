/**
 * The bytes of trigrams.bin and the writer that emits them (ferret-core/src/index_writer.rs): a header of 10 bytes, the
 * trigram table with 19 bytes a row, file lists, positional lists. The image stores where each list starts and how many
 * items it has, but not where the file lists end.
 */
module IndexImage {
  import opened Base
  import opened Codec
  import opened PostingLists
  import opened Sorting
  import opened Trigrams

  const TRIG_MAGIC: u32 := 0x5452_4947
  const TRIG_VERSION: u16 := 1
  const HEADER_SIZE: nat := 10
  const ROW_SIZE: nat := 19

  datatype Entry = Entry(trigram: Trigram, ids: seq<u32>, positions: Option<seq<Posting>>)

  // ---- concatenated sections ----

  function Concat(parts: seq<bytes>): bytes
    decreases |parts|
  {
    if parts == [] then [] else Concat(parts[..|parts| - 1]) + parts[|parts| - 1]
  }

  lemma ConcatStep(parts: seq<bytes>, i: nat)
    requires i < |parts|
    ensures Concat(parts[..i + 1]) == Concat(parts[..i]) + parts[i]
  {
    var longer := parts[..i + 1];
    assert longer[..|longer| - 1] == parts[..i] && longer[|longer| - 1] == parts[i];
  }

  /** Part `i` of a concatenation is found between the lengths of the two prefixes around it. */
  lemma {:induction false} ConcatSlice(parts: seq<bytes>, i: nat, n: nat)
    requires i < n <= |parts|
    ensures |Concat(parts[..i])| + |parts[i]| == |Concat(parts[..i + 1])| <= |Concat(parts[..n])|
    ensures Concat(parts[..n])[|Concat(parts[..i])|..|Concat(parts[..i + 1])|] == parts[i]
    decreases n
  {
    hide Concat;
    ConcatStep(parts, n - 1);
    ConcatStep(parts, i);
    if i + 1 < n {
      ConcatSlice(parts, i, n - 1);
      var shorter := Concat(parts[..n - 1]);
      var lo, hi := |Concat(parts[..i])|, |Concat(parts[..i + 1])|;
      assert (shorter + parts[n - 1])[lo..hi] == shorter[lo..hi];
    }
  }

  lemma {:induction false} ConcatUniform(parts: seq<bytes>, size: nat)
    requires forall i :: 0 <= i < |parts| ==> |parts[i]| == size
    ensures |Concat(parts)| == size * |parts|
    decreases |parts|
  {
    if parts != [] {
      ConcatUniform(parts[..|parts| - 1], size);
      assert size * |parts| == size * (|parts| - 1) + size;
    }
  }

  function FileParts(es: seq<Entry>): (r: seq<bytes>)
    ensures |r| == |es| && forall i :: 0 <= i < |es| ==> r[i] == DeltaBytes(0, es[i].ids)
  {
    seq(|es|, i requires 0 <= i < |es| => DeltaBytes(0, es[i].ids))
  }

  function PositionPart(e: Entry): bytes {
    match e.positions
    case None => []
    case Some(p) => PositionBytes(p)
  }

  function PositionParts(es: seq<Entry>): (r: seq<bytes>)
    ensures |r| == |es| && forall i :: 0 <= i < |es| ==> r[i] == PositionPart(es[i])
  {
    seq(|es|, i requires 0 <= i < |es| => PositionPart(es[i]))
  }

  function FileOffset(es: seq<Entry>, i: nat): nat
    requires i <= |es|
  {
    |Concat(FileParts(es)[..i])|
  }

  function PositionOffset(es: seq<Entry>, i: nat): nat
    requires i <= |es|
  {
    |Concat(PositionParts(es)[..i])|
  }

  /** The (offset, len) pair stored for the positional list; (0, 0) when the trigram has none. */
  function PositionField(es: seq<Entry>, i: nat): (nat, nat)
    requires i < |es|
  {
    match es[i].positions
    case None => (0, 0)
    case Some(p) => (PositionOffset(es, i), |p|)
  }

  function TrigramBytes(t: Trigram): bytes { [t.a, t.b, t.c] }

  function Row(es: seq<Entry>, i: nat): (r: bytes)
    requires i < |es|
    ensures |r| == ROW_SIZE
  {
    var (po, pl) := PositionField(es, i);
    TrigramBytes(es[i].trigram)
    + LittleEndian(FileOffset(es, i), 4) + LittleEndian(|es[i].ids|, 4)
    + LittleEndian(po, 4) + LittleEndian(pl, 4)
  }

  function Rows(es: seq<Entry>): (r: seq<bytes>)
    ensures |r| == |es| && forall i :: 0 <= i < |es| ==> r[i] == Row(es, i)
  {
    seq(|es|, i requires 0 <= i < |es| => Row(es, i))
  }

  function Header(count: nat): (r: bytes)
    ensures |r| == HEADER_SIZE
  {
    LittleEndian(TRIG_MAGIC, 4) + LittleEndian(TRIG_VERSION, 2) + LittleEndian(count, 4)
  }

  function Image(es: seq<Entry>): bytes {
    Header(|es|) + Concat(Rows(es)) + Concat(FileParts(es)) + Concat(PositionParts(es))
  }

  // The sizes the writer checks before casting them to u32.

  ghost predicate FileFieldsFit(es: seq<Entry>) {
    forall i :: 0 <= i < |es| ==> FileOffset(es, i) <= U32_MAX && |es[i].ids| <= U32_MAX
  }

  ghost predicate PositionFieldsFit(es: seq<Entry>) {
    forall i :: 0 <= i < |es| ==> PositionField(es, i).0 <= U32_MAX && PositionField(es, i).1 <= U32_MAX
  }

  ghost predicate Fits(es: seq<Entry>) {
    |es| <= U32_MAX && FileFieldsFit(es) && PositionFieldsFit(es)
  }

  // ---- the table of a builder ----

  function CodeKey(t: Trigram): int { t.Code() }

  ghost predicate TableSorted(es: seq<Entry>) {
    forall i, j :: 0 <= i < j < |es| ==> es[i].trigram.Code() < es[j].trigram.Code()
  }

  function EntryOf(t: Trigram, files: map<Trigram, seq<u32>>, positions: map<Trigram, seq<Posting>>): Entry
    requires t in files
  {
    Entry(t, files[t], if t in positions then Some(positions[t]) else None)
  }

  ghost predicate IsTable(es: seq<Entry>, files: map<Trigram, seq<u32>>, positions: map<Trigram, seq<Posting>>) {
    && TableSorted(es)
    && (forall i :: 0 <= i < |es| ==> es[i].trigram in files && es[i] == EntryOf(es[i].trigram, files, positions))
    && (forall t :: t in files ==> exists i :: 0 <= i < |es| && es[i].trigram == t)
  }

  /** The keys of the hash map, in whatever order they come, sorted by code. */
  method SortedKeys(files: map<Trigram, seq<u32>>) returns (keys: seq<Trigram>)
    ensures forall t :: t in keys <==> t in files
    ensures StrictBy(keys, CodeKey)
  {
    var todo := files.Keys;
    keys := [];
    while todo != {}
      invariant todo <= files.Keys
      invariant forall t :: t in keys <==> t in files && t !in todo
      invariant forall i, j :: 0 <= i < j < |keys| ==> keys[i] != keys[j]
    {
      var t :| t in todo;
      keys := keys + [t];
      todo := todo - {t};
    }
    DistinctCodes(keys);
    SortByStrict(keys, CodeKey);
    keys := SortBy(keys, CodeKey);
  }

  lemma DistinctCodes(keys: seq<Trigram>)
    requires forall i, j :: 0 <= i < j < |keys| ==> keys[i] != keys[j]
    ensures DistinctBy(keys, CodeKey)
  {
    forall i, j | 0 <= i < j < |keys| ensures CodeKey(keys[i]) != CodeKey(keys[j]) {
      CodeInjective(keys[i], keys[j]);
    }
  }

  method EncodeFileLists(es: seq<Entry>) returns (buf: bytes, fields: seq<(nat, nat)>, ok: bool)
    ensures ok <==> FileFieldsFit(es)
    ensures ok ==> buf == Concat(FileParts(es)) && |fields| == |es|
    ensures ok ==> forall i :: 0 <= i < |es| ==> fields[i] == (FileOffset(es, i), |es[i].ids|)
  {
    hide Concat, DeltaBytes;
    ghost var parts := FileParts(es);
    buf, fields := [], [];
    assert Concat(parts[..0]) == [] by { ConcatEmpty(parts[..0]); }
    for i := 0 to |es|
      invariant buf == Concat(parts[..i]) && |fields| == i
      invariant forall j :: 0 <= j < i ==> fields[j] == (FileOffset(es, j), |es[j].ids|)
      invariant forall j :: 0 <= j < i ==> FileOffset(es, j) <= U32_MAX && |es[j].ids| <= U32_MAX
    {
      var encoded := EncodeDeltaVarint(es[i].ids);
      var offset, len := |buf|, |es[i].ids|;
      if offset > U32_MAX || len > U32_MAX { return buf, fields, false; }
      ConcatStep(parts, i);
      buf := buf + encoded;
      fields := fields + [(offset, len)];
    }
    assert parts[..|es|] == parts;
    ok := true;
  }

  lemma ConcatEmpty(parts: seq<bytes>)
    requires parts == []
    ensures Concat(parts) == []
  {
  }

  method EncodePositionLists(es: seq<Entry>) returns (buf: bytes, fields: seq<(nat, nat)>, ok: bool)
    ensures ok <==> PositionFieldsFit(es)
    ensures ok ==> buf == Concat(PositionParts(es)) && |fields| == |es|
    ensures ok ==> forall i :: 0 <= i < |es| ==> fields[i] == PositionField(es, i)
  {
    hide Concat, PositionBytes;
    ghost var parts := PositionParts(es);
    buf, fields := [], [];
    assert Concat(parts[..0]) == [] by { ConcatEmpty(parts[..0]); }
    for i := 0 to |es|
      invariant buf == Concat(parts[..i]) && |fields| == i
      invariant forall j :: 0 <= j < i ==> fields[j] == PositionField(es, j)
      invariant forall j :: 0 <= j < i ==> PositionField(es, j).0 <= U32_MAX && PositionField(es, j).1 <= U32_MAX
    {
      ConcatStep(parts, i);
      if es[i].positions.Some? {
        var encoded := EncodePositionalPostings(es[i].positions.value);
        var offset, len := |buf|, |es[i].positions.value|;
        assert PositionField(es, i) == (offset, len);
        if offset > U32_MAX || len > U32_MAX { return buf, fields, false; }
        buf := buf + encoded;
        fields := fields + [(offset, len)];
      } else {
        fields := fields + [(0, 0)];
      }
    }
    assert parts[..|es|] == parts;
    ok := true;
  }

  method EncodeRows(es: seq<Entry>, fileFields: seq<(nat, nat)>, posFields: seq<(nat, nat)>) returns (buf: bytes)
    requires |fileFields| == |posFields| == |es|
    requires forall i :: 0 <= i < |es| ==> fileFields[i] == (FileOffset(es, i), |es[i].ids|)
    requires forall i :: 0 <= i < |es| ==> posFields[i] == PositionField(es, i)
    ensures buf == Concat(Rows(es))
  {
    hide Concat, FileOffset, PositionField;
    ghost var rows := Rows(es);
    buf := [];
    assert Concat(rows[..0]) == [] by { ConcatEmpty(rows[..0]); }
    for i := 0 to |es|
      invariant buf == Concat(rows[..i])
    {
      ConcatStep(rows, i);
      var (fileOffset, fileLen) := fileFields[i];
      var (posOffset, posLen) := posFields[i];
      var row := TrigramBytes(es[i].trigram) + LittleEndian(fileOffset, 4) + LittleEndian(fileLen, 4)
        + LittleEndian(posOffset, 4) + LittleEndian(posLen, 4);
      assert row == rows[i];
      buf := buf + row;
    }
    assert rows[..|es|] == rows;
  }

  lemma TableOfKeys(
      keys: seq<Trigram>, es: seq<Entry>, files: map<Trigram, seq<u32>>, positions: map<Trigram, seq<Posting>>)
    requires StrictBy(keys, CodeKey) && |es| == |keys|
    requires forall t :: t in keys <==> t in files
    requires forall i :: 0 <= i < |keys| ==> es[i] == EntryOf(keys[i], files, positions)
    ensures IsTable(es, files, positions)
  {
    forall i, j | 0 <= i < j < |es| ensures es[i].trigram.Code() < es[j].trigram.Code() {
      assert CodeKey(keys[i]) < CodeKey(keys[j]);
    }
    forall t | t in files ensures exists i :: 0 <= i < |es| && es[i].trigram == t {
      var i :| 0 <= i < |keys| && keys[i] == t;
      assert es[i].trigram == t;
    }
  }

  /** What is written for two maps: the image of their table, or an error exactly when some size does not fit. */
  ghost predicate IndexFile(files: map<Trigram, seq<u32>>, positions: map<Trigram, seq<Posting>>, r: Result<bytes>) {
    exists es :: IsTable(es, files, positions) && r == if Fits(es) then Ok(Image(es)) else Err(IndexCorruption)
  }

  lemma EntryInTable(
      es: seq<Entry>, files: map<Trigram, seq<u32>>, positions: map<Trigram, seq<Posting>>, e: Entry)
    requires IsTable(es, files, positions)
    ensures e in es <==> e.trigram in files && e == EntryOf(e.trigram, files, positions)
  {
    if e.trigram in files && e == EntryOf(e.trigram, files, positions) {
      var i :| 0 <= i < |es| && es[i].trigram == e.trigram;
      assert es[i] == e;
    }
  }

  function EntryKey(e: Entry): int { e.trigram.Code() }

  /** The maps determine the table, so there is one file for a builder, whatever order its hash maps have. */
  lemma TableUnique(
      a: seq<Entry>, b: seq<Entry>, files: map<Trigram, seq<u32>>, positions: map<Trigram, seq<Posting>>)
    requires IsTable(a, files, positions) && IsTable(b, files, positions)
    ensures a == b
  {
    hide EntryOf;
    forall e ensures e in a <==> e in b {
      EntryInTable(a, files, positions, e);
      EntryInTable(b, files, positions, e);
    }
    assert StrictBy(a, EntryKey) && StrictBy(b, EntryKey);
    SortedUnique(a, b, EntryKey);
  }

  /** The whole file, or an error exactly when some size does not fit its u32 field. */
  method WriteIndex(builder: PostingListBuilder) returns (r: Result<bytes>)
    ensures IndexFile(builder.filePostings, builder.positionalPostings, r)
  {
    hide Concat, DeltaBytes, PositionBytes, FileFieldsFit, PositionFieldsFit, FileOffset, PositionField, IsTable;
    var files, positions := builder.filePostings, builder.positionalPostings;
    var trigrams := SortedKeys(files);
    var table := seq(|trigrams|, i requires 0 <= i < |trigrams| => EntryOf(trigrams[i], files, positions));
    TableOfKeys(trigrams, table, files, positions);
    if |trigrams| > U32_MAX { return Err(IndexCorruption); }
    var fileBuf, fileFields, filesOk := EncodeFileLists(table);
    if !filesOk { return Err(IndexCorruption); }
    var posBuf, posFields, posOk := EncodePositionLists(table);
    if !posOk { return Err(IndexCorruption); }
    var header := LittleEndian(TRIG_MAGIC, 4) + LittleEndian(TRIG_VERSION, 2) + LittleEndian(|trigrams|, 4);
    var rows := EncodeRows(table, fileFields, posFields);
    r := Ok(header + rows + fileBuf + posBuf);
  }
}
