/** Opening and querying trigrams.bin (ferret-core/src/index_reader.rs). */
module IndexReader {
  // Open and the lookups are total on arbitrary bytes: every slice below is proved in bounds, except that a lookup
  // in a corrupt file can ask for a slice that starts after it ends, which panics in Rust and is SlicePanic here.
  // The main result, ImageRefinesBuilder, is about the bytes the writer emits.

  import opened Base
  import opened Codec
  import opened IndexImage
  import opened PostingLists
  import opened Trigrams

  datatype Reader = Reader(mmap: bytes, trigramCount: nat, filePostingsOffset: nat, posPostingsOffset: nat)

  predicate WellFormed(r: Reader) {
    r.filePostingsOffset == HEADER_SIZE + ROW_SIZE * r.trigramCount <= |r.mmap|
  }

  function RowStart(i: nat): nat { HEADER_SIZE + ROW_SIZE * i }

  predicate HasRows(mmap: bytes, count: nat) {
    HEADER_SIZE + ROW_SIZE * count <= |mmap|
  }

  function CodeAt(mmap: bytes, i: nat): u32
    requires HasRows(mmap, i + 1)
  {
    Trigram(mmap[RowStart(i)], mmap[RowStart(i) + 1], mmap[RowStart(i) + 2]).Code()
  }

  function FileOffsetAt(mmap: bytes, i: nat): u32
    requires HasRows(mmap, i + 1)
  {
    ReadU32(mmap, RowStart(i) + 3)
  }

  function FileLenAt(mmap: bytes, i: nat): u32
    requires HasRows(mmap, i + 1)
  {
    ReadU32(mmap, RowStart(i) + 7)
  }

  function PositionOffsetAt(mmap: bytes, i: nat): u32
    requires HasRows(mmap, i + 1)
  {
    ReadU32(mmap, RowStart(i) + 11)
  }

  function PositionLenAt(mmap: bytes, i: nat): u32
    requires HasRows(mmap, i + 1)
  {
    ReadU32(mmap, RowStart(i) + 15)
  }

  // ---- open ----

  /** The file list that starts last: a later row wins a tie. */
  function LastList(mmap: bytes, count: nat): (u32, u32)
    requires HasRows(mmap, count)
  {
    if count == 0 then (0, 0)
    else
      var best := LastList(mmap, count - 1);
      var offset := FileOffsetAt(mmap, count - 1);
      if offset >= best.0 then (offset, FileLenAt(mmap, count - 1)) else best
  }

  /** Where the positional section must start: just after the last file list, found by counting its varints. */
  function PositionStart(mmap: bytes, count: nat): Result<nat>
    requires HasRows(mmap, count)
  {
    var filePostingsOffset := HEADER_SIZE + ROW_SIZE * count;
    if count == 0 then Ok(filePostingsOffset)
    else
      var last := LastList(mmap, count);
      var dataStart := filePostingsOffset + last.0;
      if dataStart >= |mmap| then Err(IndexCorruption)
      else
        match SkipVarints(mmap[dataStart..], last.1)
        case None => Err(IndexCorruption)
        case Some(n) => Ok(dataStart + n)
  }

  function OpenIndex(mmap: bytes): (r: Result<Reader>)
    ensures r.Ok? ==> WellFormed(r.value)
  {
    if |mmap| < HEADER_SIZE then Err(IndexCorruption)
    else if ReadU32(mmap, 0) != TRIG_MAGIC then Err(IndexCorruption)
    else if ReadU16(mmap, 4) != TRIG_VERSION then Err(UnsupportedVersion(ReadU16(mmap, 4)))
    else
      var count := ReadU32(mmap, 6);
      if !HasRows(mmap, count) then Err(IndexCorruption)
      else
        match PositionStart(mmap, count)
        case Err(e) => Err(e)
        case Ok(p) => Ok(Reader(mmap, count, HEADER_SIZE + ROW_SIZE * count, p))
  }

  method Open(mmap: bytes) returns (r: Result<Reader>)
    ensures r == OpenIndex(mmap)
  {
    hide SkipVarints, ReadU32, ReadU16;
    if |mmap| < HEADER_SIZE { return Err(IndexCorruption); }
    if ReadU32(mmap, 0) != TRIG_MAGIC { return Err(IndexCorruption); }
    var version := ReadU16(mmap, 4);
    if version != TRIG_VERSION { return Err(UnsupportedVersion(version)); }
    var count := ReadU32(mmap, 6);
    var filePostingsOffset := HEADER_SIZE + count * ROW_SIZE;
    if |mmap| < filePostingsOffset { return Err(IndexCorruption); }
    if count == 0 { return Ok(Reader(mmap, 0, filePostingsOffset, filePostingsOffset)); }

    var maxFileOffset: u32, maxFileLen: u32 := 0, 0;
    for i := 0 to count
      invariant HasRows(mmap, i) && (maxFileOffset, maxFileLen) == LastList(mmap, i)
    {
      assert HasRows(mmap, i + 1);
      var flo := FileOffsetAt(mmap, i);
      if flo >= maxFileOffset { maxFileOffset, maxFileLen := flo, FileLenAt(mmap, i); }
    }

    var dataStart := filePostingsOffset + maxFileOffset;
    if dataStart >= |mmap| { return Err(IndexCorruption); }
    var bytesUsed := CountVarints(mmap[dataStart..], maxFileLen);
    match bytesUsed {
      case None => return Err(IndexCorruption);
      case Some(n) => return Ok(Reader(mmap, count, filePostingsOffset, dataStart + n));
    }
  }

  /** The cursor loop at the end of open: read `count` varints and report where the cursor stands. */
  method CountVarints(remaining: bytes, count: u32) returns (r: Option<nat>)
    ensures r == SkipVarints(remaining, count)
  {
    hide ReadVarint, SkipVarints;
    var position: nat := 0;
    assert remaining[0..] == remaining;
    for k := 0 to count
      invariant position <= |remaining|
      invariant SkipPending(position, SkipVarints(remaining[position..], count - k), SkipVarints(remaining, count))
    {
      SkipVarintsStep(remaining[position..], count - k);
      var delta := ReadVarint(remaining[position..]);
      if delta.None? { return None; }
      assert remaining[position..][delta.value.used..] == remaining[position + delta.value.used..];
      position := position + delta.value.used;
    }
    assert SkipVarints(remaining[position..], 0) == Some(0) by { SkipNone(remaining[position..]); }
    r := Some(position);
  }

  lemma SkipNone(data: bytes)
    ensures SkipVarints(data, 0) == Some(0)
  {
  }

  ghost predicate SkipPending(position: nat, rest: Option<nat>, goal: Option<nat>) {
    if rest.None? then goal.None? else goal == Some(position + rest.value)
  }

  lemma SkipVarintsStep(data: bytes, count: nat)
    requires count > 0
    ensures var d := ReadVarint(data);
            if d.None? then SkipVarints(data, count).None?
            else
              var rest := SkipVarints(data[d.value.used..], count - 1);
              SkipVarints(data, count) == if rest.None? then None else Some(d.value.used + rest.value)
  {
    hide ReadVarint;
  }

  // ---- binary search ----

  function SearchTable(mmap: bytes, target: u32, lo: nat, hi: nat): (r: Option<nat>)
    requires lo <= hi && HasRows(mmap, hi)
    ensures r.Some? ==> lo <= r.value < hi
    decreases hi - lo
  {
    if lo == hi then None
    else
      var mid := lo + (hi - lo) / 2;
      if CodeAt(mmap, mid) < target then SearchTable(mmap, target, mid + 1, hi)
      else if CodeAt(mmap, mid) > target then SearchTable(mmap, target, lo, mid)
      else Some(mid)
  }

  method BinarySearchTrigram(reader: Reader, trigram: Trigram) returns (r: Option<nat>)
    requires WellFormed(reader)
    ensures r == SearchTable(reader.mmap, trigram.Code(), 0, reader.trigramCount)
  {
    hide CodeAt;
    var target := trigram.Code();
    if reader.trigramCount == 0 { return None; }
    var lo, hi := 0, reader.trigramCount;
    while lo < hi
      invariant 0 <= lo <= hi <= reader.trigramCount
      invariant SearchTable(reader.mmap, target, lo, hi)
             == SearchTable(reader.mmap, target, 0, reader.trigramCount)
    {
      var mid := lo + (hi - lo) / 2;
      var val := CodeAt(reader.mmap, mid);
      if val < target {
        lo := mid + 1;
      } else if val > target {
        hi := mid;
      } else {
        return Some(mid);
      }
    }
    return None;
  }

  ghost predicate CodesSorted(mmap: bytes, count: nat)
    requires HasRows(mmap, count)
  {
    forall i, j :: 0 <= i < j < count ==> CodeAt(mmap, i) < CodeAt(mmap, j)
  }

  /** On a sorted table the search finds row `k` from its code, whatever `k` is. */
  lemma {:induction false} SearchTableFinds(mmap: bytes, count: nat, lo: nat, hi: nat, k: nat)
    requires HasRows(mmap, count) && CodesSorted(mmap, count)
    requires lo <= k < hi <= count
    ensures SearchTable(mmap, CodeAt(mmap, k), lo, hi) == Some(k)
    decreases hi - lo
  {
    hide CodeAt;
    var mid := lo + (hi - lo) / 2;
    if mid < k {
      SearchTableFinds(mmap, count, mid + 1, hi, k);
    } else if k < mid {
      SearchTableFinds(mmap, count, lo, mid, k);
    }
  }

  /** What the search returns has the code asked for. */
  lemma {:induction false} SearchTableSound(mmap: bytes, target: u32, lo: nat, hi: nat)
    requires lo <= hi && HasRows(mmap, hi)
    ensures var r := SearchTable(mmap, target, lo, hi); r.Some? ==> CodeAt(mmap, r.value) == target
    decreases hi - lo
  {
    hide CodeAt;
    if lo < hi {
      var mid := lo + (hi - lo) / 2;
      if CodeAt(mmap, mid) < target {
        SearchTableSound(mmap, target, mid + 1, hi);
      } else if CodeAt(mmap, mid) > target {
        SearchTableSound(mmap, target, lo, mid);
      }
    }
  }

  // ---- lookups ----

  /** The list of row `idx`: up to the next row's offset, or to the end of the section for the last row. */
  function FileListAt(reader: Reader, idx: nat): Result<seq<u32>>
    requires WellFormed(reader) && idx < reader.trigramCount
  {
    var mmap := reader.mmap;
    if FileLenAt(mmap, idx) == 0 then Ok([])
    else
      var dataStart := reader.filePostingsOffset + FileOffsetAt(mmap, idx);
      var dataEnd :=
        if idx + 1 < reader.trigramCount then reader.filePostingsOffset + FileOffsetAt(mmap, idx + 1)
        else reader.posPostingsOffset;
      if dataStart > |mmap| || dataEnd > |mmap| then Err(IndexCorruption)
      else if dataStart > dataEnd then Err(SlicePanic)
      else Ok(DeltaValues(0, mmap[dataStart..dataEnd]))
  }

  function PositionListAt(reader: Reader, idx: nat): Result<seq<Posting>>
    requires WellFormed(reader) && idx < reader.trigramCount
  {
    var mmap := reader.mmap;
    if PositionLenAt(mmap, idx) == 0 then Ok([])
    else
      var dataStart := reader.posPostingsOffset + PositionOffsetAt(mmap, idx);
      var dataEnd :=
        if idx + 1 < reader.trigramCount then reader.posPostingsOffset + PositionOffsetAt(mmap, idx + 1)
        else |mmap|;
      if dataStart > |mmap| || dataEnd > |mmap| then Err(IndexCorruption)
      else if dataStart > dataEnd then Err(SlicePanic)
      else Ok(PositionValues(mmap[dataStart..dataEnd]))
  }

  function LookupFileIds(reader: Reader, trigram: Trigram): Result<seq<u32>>
    requires WellFormed(reader)
  {
    match SearchTable(reader.mmap, trigram.Code(), 0, reader.trigramCount)
    case None => Ok([])
    case Some(idx) => FileListAt(reader, idx)
  }

  function LookupPositions(reader: Reader, trigram: Trigram): Result<seq<Posting>>
    requires WellFormed(reader)
  {
    match SearchTable(reader.mmap, trigram.Code(), 0, reader.trigramCount)
    case None => Ok([])
    case Some(idx) => PositionListAt(reader, idx)
  }

  function EstimatePostingListSize(reader: Reader, trigram: Trigram): u32
    requires WellFormed(reader)
  {
    match SearchTable(reader.mmap, trigram.Code(), 0, reader.trigramCount)
    case None => 0
    case Some(idx) => FileLenAt(reader.mmap, idx)
  }

  // ---- reading back what the writer wrote ----

  function ReaderOf(es: seq<Entry>): Reader {
    var fileStart := HEADER_SIZE + ROW_SIZE * |es|;
    Reader(Image(es), |es|, fileStart, fileStart + FileOffset(es, |es|))
  }

  lemma ImageRow(es: seq<Entry>, i: nat)
    requires i < |es|
    ensures HasRows(Image(es), |es|)
    ensures Image(es)[RowStart(i)..RowStart(i + 1)] == Row(es, i)
  {
    hide Row, FileParts, PositionParts, Concat;
    var rows := Rows(es);
    ConcatUniform(rows, ROW_SIZE);
    ConcatUniform(rows[..i], ROW_SIZE);
    ConcatUniform(rows[..i + 1], ROW_SIZE);
    ConcatSlice(rows, i, |es|);
    assert rows[..|es|] == rows;
    var table := Concat(rows);
    var image := Header(|es|) + table + (Concat(FileParts(es)) + Concat(PositionParts(es)));
    assert Image(es) == image;
    assert image[RowStart(i)..RowStart(i + 1)] == table[ROW_SIZE * i..ROW_SIZE * (i + 1)];
  }

  lemma FieldInRow(b: bytes, at: nat, pre: bytes, x: u32, post: bytes)
    requires at + |pre| + 4 + |post| <= |b|
    requires b[at..at + |pre| + 4 + |post|] == pre + U32Bytes(x) + post
    ensures ReadU32(b, at + |pre|) == x
  {
    hide U32Bytes, ReadU32;
    var row := pre + U32Bytes(x) + post;
    assert row[|pre|..|pre| + 4] == U32Bytes(x);
    SubSlice(b, at, at + |pre| + 4 + |post|, |pre|, |pre| + 4);
    ReadU32Written(b, at + |pre|, x);
  }

  /** The 19 bytes of a row, field by field. */
  lemma RowFields(b: bytes, at: nat, t: Trigram, fo: u32, fl: u32, po: u32, pl: u32)
    requires at + ROW_SIZE <= |b|
    requires b[at..at + ROW_SIZE]
          == TrigramBytes(t) + U32Bytes(fo) + U32Bytes(fl) + U32Bytes(po) + U32Bytes(pl)
    ensures b[at] == t.a && b[at + 1] == t.b && b[at + 2] == t.c
    ensures ReadU32(b, at + 3) == fo && ReadU32(b, at + 7) == fl
    ensures ReadU32(b, at + 11) == po && ReadU32(b, at + 15) == pl
  {
    hide U32Bytes, ReadU32;
    var row := b[at..at + ROW_SIZE];
    assert row[0] == t.a && row[1] == t.b && row[2] == t.c;
    var p, q, r, s, u := TrigramBytes(t), U32Bytes(fo), U32Bytes(fl), U32Bytes(po), U32Bytes(pl);
    assert row == p + q + (r + s + u) == (p + q) + r + (s + u) == (p + q + r) + s + u == (p + q + r + s) + u + [];
    FieldInRow(b, at, p, fo, r + s + u);
    FieldInRow(b, at, p + q, fl, s + u);
    FieldInRow(b, at, p + q + r, po, u);
    FieldInRow(b, at, p + q + r + s, pl, []);
  }

  lemma ImageFields(es: seq<Entry>, i: nat)
    requires Fits(es) && i < |es|
    ensures HasRows(Image(es), |es|)
    ensures CodeAt(Image(es), i) == es[i].trigram.Code()
    ensures FileOffsetAt(Image(es), i) == FileOffset(es, i) && FileLenAt(Image(es), i) == |es[i].ids|
    ensures PositionOffsetAt(Image(es), i) == PositionField(es, i).0
    ensures PositionLenAt(Image(es), i) == PositionField(es, i).1
  {
    hide Image, FileOffset, PositionField, LittleEndian, ReadU32;
    ImageRow(es, i);
    RowFields(Image(es), RowStart(i), es[i].trigram, FileOffset(es, i), |es[i].ids|,
      PositionField(es, i).0, PositionField(es, i).1);
  }

  lemma ImageHeader(es: seq<Entry>)
    requires |es| <= U32_MAX
    ensures |Image(es)| >= HEADER_SIZE
    ensures ReadU32(Image(es), 0) == TRIG_MAGIC && ReadU16(Image(es), 4) == TRIG_VERSION
    ensures ReadU32(Image(es), 6) == |es|
  {
    hide LittleEndian, ReadU32, ReadU16, Concat, FileParts, PositionParts, Rows;
    var rest := Concat(Rows(es)) + Concat(FileParts(es)) + Concat(PositionParts(es));
    var image := Header(|es|) + rest;
    assert Image(es) == image;
    assert image[0..4] == U32Bytes(TRIG_MAGIC) && image[4..6] == U16Bytes(TRIG_VERSION) && image[6..10] == U32Bytes(|es|);
    ReadU32Written(image, 0, TRIG_MAGIC);
    ReadU16Written(image, 4, TRIG_VERSION);
    ReadU32Written(image, 6, |es|);
  }

  lemma MiddleSlice(front: bytes, mid: bytes, back: bytes, a: nat, z: nat)
    requires a <= z <= |mid|
    ensures (front + mid + back)[|front| + a..|front| + z] == mid[a..z]
  {
  }

  /** The image in three pieces: what precedes the lists, and the two sections. */
  lemma ImagePieces(es: seq<Entry>)
    ensures Image(es) == Header(|es|) + Concat(Rows(es)) + Concat(FileParts(es)) + Concat(PositionParts(es))
    ensures |Header(|es|) + Concat(Rows(es))| == HEADER_SIZE + ROW_SIZE * |es|
  {
    hide Concat;
    ConcatUniform(Rows(es), ROW_SIZE) by { RowSizes(es); }
  }

  lemma FileSlice(es: seq<Entry>, i: nat)
    requires i < |es|
    ensures FileOffset(es, i) <= FileOffset(es, i + 1) <= |Concat(FileParts(es))| == FileOffset(es, |es|)
    ensures Concat(FileParts(es))[FileOffset(es, i)..FileOffset(es, i + 1)] == DeltaBytes(0, es[i].ids)
  {
    hide Concat, DeltaBytes;
    var files := FileParts(es);
    ConcatSlice(files, i, |es|);
    assert files[..|es|] == files;
  }

  lemma PositionSlice(es: seq<Entry>, i: nat)
    requires i < |es|
    ensures PositionOffset(es, i) <= PositionOffset(es, i + 1) <= |Concat(PositionParts(es))| == PositionOffset(es, |es|)
    ensures Concat(PositionParts(es))[PositionOffset(es, i)..PositionOffset(es, i + 1)] == PositionPart(es[i])
  {
    hide Concat, PositionPart;
    var positions := PositionParts(es);
    ConcatSlice(positions, i, |es|);
    assert positions[..|es|] == positions;
  }

  /** Where the bytes of list `i` lie in the file, in either section. */
  lemma ImageLists(es: seq<Entry>, i: nat)
    requires i < |es|
    ensures var r, n := ReaderOf(es), |Image(es)|;
            && r.filePostingsOffset + FileOffset(es, i) <= r.filePostingsOffset + FileOffset(es, i + 1)
            && r.filePostingsOffset + FileOffset(es, i + 1) <= r.posPostingsOffset <= n
            && r.posPostingsOffset + PositionOffset(es, i) <= r.posPostingsOffset + PositionOffset(es, i + 1) <= n
            && r.posPostingsOffset + PositionOffset(es, |es|) == n
            && r.mmap[r.filePostingsOffset + FileOffset(es, i)..r.filePostingsOffset + FileOffset(es, i + 1)]
               == DeltaBytes(0, es[i].ids)
            && r.mmap[r.posPostingsOffset + PositionOffset(es, i)..r.posPostingsOffset + PositionOffset(es, i + 1)]
               == PositionPart(es[i])
  {
    hide Concat, DeltaBytes, PositionPart, Header, Rows, FileOffset, PositionOffset, Image, FileParts, PositionParts;
    ImagePieces(es);
    FileSlice(es, i);
    PositionSlice(es, i);
    var front, mid, back := Header(|es|) + Concat(Rows(es)), Concat(FileParts(es)), Concat(PositionParts(es));
    MiddleSlice(front, mid, back, FileOffset(es, i), FileOffset(es, i + 1));
    assert front + mid + back == (front + mid) + back + [];
    MiddleSlice(front + mid, back, [], PositionOffset(es, i), PositionOffset(es, i + 1));
  }

  lemma RowSizes(es: seq<Entry>)
    ensures |Rows(es)| == |es| && forall i :: 0 <= i < |es| ==> |Rows(es)[i]| == ROW_SIZE
  {
  }

  lemma {:induction false} LastListOfImage(es: seq<Entry>, n: nat)
    requires Fits(es) && n <= |es|
    ensures HasRows(Image(es), n)
    ensures LastList(Image(es), n) == if n == 0 then (0, 0) else (FileOffset(es, n - 1), |es[n - 1].ids|)
  {
    hide Image, FileOffset, PositionField, CodeAt, FileOffsetAt, FileLenAt, PositionOffsetAt, PositionLenAt;
    if n == 0 {
      ImageHeader(es);
    } else {
      LastListOfImage(es, n - 1);
      ImageFields(es, n - 1);
      if n > 1 { OffsetsGrow(es, n - 2); }
    }
  }

  lemma OffsetsGrow(es: seq<Entry>, i: nat)
    requires i < |es|
    ensures FileOffset(es, i) + |DeltaBytes(0, es[i].ids)| == FileOffset(es, i + 1)
  {
    hide Concat, DeltaBytes;
    ConcatStep(FileParts(es), i);
  }

  /** A sorted table without empty lists; the lists themselves may be in any order. */
  ghost predicate Tabled(es: seq<Entry>) {
    TableSorted(es) && forall i :: 0 <= i < |es| ==> es[i].ids != []
  }

  /** What the builder guarantees about the table it hands to the writer. */
  ghost predicate WellBuilt(es: seq<Entry>) {
    && Tabled(es)
    && (forall i :: 0 <= i < |es| ==> Nondecreasing(es[i].ids))
    && (forall i :: 0 <= i < |es| && es[i].positions.Some? ==> RunsSorted(es[i].positions.value))
    && (forall i, j :: 0 <= i < |es| && 0 <= j < |es| ==> es[i].positions.Some? == es[j].positions.Some?)
  }

  lemma PositionStartIs(mmap: bytes, count: nat, start: nat, n: nat)
    requires count > 0 && HasRows(mmap, count)
    requires start == HEADER_SIZE + ROW_SIZE * count + LastList(mmap, count).0 < |mmap|
    requires SkipVarints(mmap[start..], LastList(mmap, count).1) == Some(n)
    ensures PositionStart(mmap, count) == Ok(start + n)
  {
    hide LastList, SkipVarints;
  }

  /** The code of the last file list, from where it starts in the file. */
  lemma LastListCode(es: seq<Entry>) returns (start: nat, rest: bytes)
    requires es != [] && es[|es| - 1].ids != []
    ensures var code := DeltaBytes(0, es[|es| - 1].ids);
      && start == HEADER_SIZE + ROW_SIZE * |es| + FileOffset(es, |es| - 1) < |Image(es)|
      && Image(es)[start..] == code + rest && start + |code| == ReaderOf(es).posPostingsOffset
  {
    hide Image, FileOffset, DeltaBytes, PositionOffset, PositionPart;
    var i := |es| - 1;
    var code := DeltaBytes(0, es[i].ids);
    start := HEADER_SIZE + ROW_SIZE * |es| + FileOffset(es, i);
    OffsetsGrow(es, i);
    ImageLists(es, i);
    DeltaBytesNonempty(es[i].ids);
    SplitBehind(Image(es), start, code);
    rest := Image(es)[start + |code|..];
  }

  lemma SplitBehind(b: bytes, at: nat, part: bytes)
    requires at + |part| <= |b| && b[at..at + |part|] == part
    ensures b[at..] == part + b[at + |part|..]
  {
  }

  lemma LastNonempty(es: seq<Entry>)
    requires Tabled(es) && es != []
    ensures es[|es| - 1].ids != []
  {
    hide TableSorted;
  }

  /** The varints of the last file list end where the positional lists start. */
  lemma LastListEnds(es: seq<Entry>)
    requires Fits(es) && Tabled(es) && es != []
    ensures HasRows(Image(es), |es|)
    ensures PositionStart(Image(es), |es|) == Ok(ReaderOf(es).posPostingsOffset)
  {
    hide Image, FileOffset, SkipVarints, LastList, DeltaBytes, Fits, Tabled, PositionStart;
    LastNonempty(es);
    LastListOfImage(es, |es|);
    var start, rest := LastListCode(es);
    SkipVarintsWritten(0, es[|es| - 1].ids, rest);
    PositionStartIs(Image(es), |es|, start, |DeltaBytes(0, es[|es| - 1].ids)|);
  }

  /** The boundary the writer never stored is recovered by counting the varints of the last file list. */
  lemma OpenRecoversBoundary(es: seq<Entry>)
    requires Fits(es) && Tabled(es)
    ensures OpenIndex(Image(es)) == Ok(ReaderOf(es))
  {
    hide Image, FileOffset, PositionField, ReadU32, ReadU16;
    ImageHeader(es);
    if es == [] {
      NoOffset(es);
    } else {
      hide PositionStart;
      LastListEnds(es);
    }
  }

  lemma NoOffset(es: seq<Entry>)
    ensures FileOffset(es, 0) == 0
  {
    assert FileParts(es)[..0] == [];
  }

  lemma DeltaBytesNonempty(ids: seq<u32>)
    requires ids != []
    ensures |DeltaBytes(0, ids)| > 0
  {
  }

  /** Looking a code up in the image lands on its row. */
  lemma SearchImage(es: seq<Entry>, t: Trigram)
    requires Fits(es) && TableSorted(es)
    ensures HasRows(Image(es), |es|)
    ensures var r := SearchTable(Image(es), t.Code(), 0, |es|);
            if r.Some? then es[r.value].trigram == t
            else forall i :: 0 <= i < |es| ==> es[i].trigram != t
  {
    hide Image, CodeAt, FileOffsetAt, FileLenAt, PositionOffsetAt, PositionLenAt, SearchTable, FileOffset, PositionField;
    var image := Image(es);
    if |es| == 0 { ImageHeader(es); } else { ImageFields(es, 0); }
    forall i, j | 0 <= i < j < |es| ensures CodeAt(image, i) < CodeAt(image, j) {
      ImageFields(es, i);
      ImageFields(es, j);
    }
    var r := SearchTable(image, t.Code(), 0, |es|);
    SearchTableSound(image, t.Code(), 0, |es|);
    if r.Some? {
      ImageFields(es, r.value);
      CodeInjective(es[r.value].trigram, t);
    } else {
      forall i | 0 <= i < |es| ensures es[i].trigram != t {
        ImageFields(es, i);
        if es[i].trigram == t { SearchTableFinds(image, |es|, 0, |es|, i); }
      }
    }
  }

  /** A lookup decodes the whole code of the list and nothing else. */
  lemma LookupFilesInImage(es: seq<Entry>, idx: nat)
    requires Fits(es) && Tabled(es) && idx < |es|
    requires HasRows(Image(es), |es|)
    requires SearchTable(Image(es), es[idx].trigram.Code(), 0, |es|) == Some(idx)
    ensures LookupFileIds(ReaderOf(es), es[idx].trigram) == Ok(DeltaValues(0, DeltaBytes(0, es[idx].ids)))
    ensures EstimatePostingListSize(ReaderOf(es), es[idx].trigram) == |es[idx].ids|
  {
    hide Image, CodeAt, FileOffsetAt, FileLenAt, PositionOffsetAt, PositionLenAt, SearchTable, FileOffset, PositionField,
      PositionOffset, PositionPart, Fits, TableSorted, DeltaBytes, DeltaValues;
    ImageFields(es, idx);
    ImageLists(es, idx);
    if idx + 1 < |es| { ImageFields(es, idx + 1); }
  }

  lemma PositionFieldIs(es: seq<Entry>, i: nat)
    requires i < |es| && WellBuilt(es) && Fits(es)
    ensures es[i].positions.None? ==> PositionField(es, i) == (0, 0)
    ensures es[i].positions.Some? ==>
      PositionField(es, i) == (PositionOffset(es, i), |es[i].positions.value|) && |es[i].positions.value| <= U32_MAX
    ensures forall j :: 0 <= j < |es| ==> es[j].positions.Some? == es[i].positions.Some?
  {
    assert PositionField(es, i).1 <= U32_MAX;
  }

  lemma PositionListReads(es: seq<Entry>, i: nat)
    requires i < |es| && WellBuilt(es) && Fits(es) && es[i].positions.Some?
    ensures PositionValues(PositionPart(es[i])) == es[i].positions.value
  {
    hide PositionBytes, PositionValues;
    PositionFieldIs(es, i);
    PositionRoundTrip(es[i].positions.value);
  }

  lemma LookupPositionsInImage(es: seq<Entry>, idx: nat)
    requires Fits(es) && WellBuilt(es) && idx < |es|
    requires HasRows(Image(es), |es|)
    requires SearchTable(Image(es), es[idx].trigram.Code(), 0, |es|) == Some(idx)
    ensures LookupPositions(ReaderOf(es), es[idx].trigram)
         == Ok(if es[idx].positions.Some? then es[idx].positions.value else [])
  {
    hide Image, CodeAt, FileOffsetAt, FileLenAt, PositionOffsetAt, PositionLenAt, SearchTable, FileOffset, PositionOffset,
      PositionBytes, PositionPart, PositionValues, PositionField, Fits, WellBuilt, FileLenAt, RunsSorted, DeltaBytes;
    ImageFields(es, idx);
    ImageLists(es, idx);
    PositionFieldIs(es, idx);
    if idx + 1 < |es| {
      ImageFields(es, idx + 1);
      PositionFieldIs(es, idx + 1);
    }
    if es[idx].positions.Some? {
      PositionListReads(es, idx);
    }
  }

  lemma TableWellBuilt(
      es: seq<Entry>, files: map<Trigram, seq<u32>>, positions: map<Trigram, seq<Posting>>,
      storePositions: bool, added: Files)
    requires FinalMaps(files, positions, storePositions, added)
    requires storePositions || SharersInOrder(added)
    requires IsTable(es, files, positions)
    ensures WellBuilt(es)
  {
    hide PushedAll, PushedAtAll;
    forall i | 0 <= i < |es| ensures es[i].ids != [] && Nondecreasing(es[i].ids) {
      var t := es[i].trigram;
      if !storePositions { SharersInOrderFor(added, t); }
      FinalIdsExact(storePositions, added, t);
      FinalIdsNonempty(storePositions, PushedAll(added, t));
    }
    forall i | 0 <= i < |es| && es[i].positions.Some? ensures RunsSorted(es[i].positions.value) {
      SortedPostingsRuns(PushedAtAll(added, es[i].trigram));
    }
  }

  lemma FinalIdsNonempty(storePositions: bool, pushed: seq<u32>)
    requires pushed != []
    ensures FinalIds(storePositions, pushed) != []
  {
  }

  /**
   * The byte image refines the builder: opening the written file succeeds with the true section boundary, and every
   * lookup, in either section and for any trigram, gives back the builder's own list.
   */
  lemma ImageRefinesBuilder(
      es: seq<Entry>, files: map<Trigram, seq<u32>>, positions: map<Trigram, seq<Posting>>,
      storePositions: bool, added: Files, t: Trigram)
    requires FinalMaps(files, positions, storePositions, added)
    requires storePositions || SharersInOrder(added)
    requires IsTable(es, files, positions) && Fits(es)
    ensures OpenIndex(Image(es)) == Ok(ReaderOf(es)) && WellFormed(ReaderOf(es))
    ensures LookupFileIds(ReaderOf(es), t) == Ok(Lookup(files, t))
    ensures LookupPositions(ReaderOf(es), t) == Ok(Lookup(positions, t))
    ensures EstimatePostingListSize(ReaderOf(es), t) == |Lookup(files, t)|
  {
    hide FinalMaps, Image, OpenIndex, SearchTable, Fits, DeltaValues, DeltaBytes;
    TableWellBuilt(es, files, positions, storePositions, added);
    OpenRecoversBoundary(es);
    assert TableSorted(es);
    SearchImage(es, t);
    PositionKeys(files, positions, storePositions, added);
    var r := SearchTable(Image(es), t.Code(), 0, |es|);
    if r.Some? {
      LookupFilesInImage(es, r.value);
      DeltaRoundTrip(es[r.value].ids);
      LookupPositionsInImage(es, r.value);
    } else {
      assert t !in files;
    }
  }

  lemma PositionKeys(
      files: map<Trigram, seq<u32>>, positions: map<Trigram, seq<Posting>>, storePositions: bool, added: Files)
    requires FinalMaps(files, positions, storePositions, added)
    ensures positions.Keys <= files.Keys
  {
  }

  // ---- file-only indexes fed in any order ----

  lemma FileOnlyTabled(
      es: seq<Entry>, files: map<Trigram, seq<u32>>, positions: map<Trigram, seq<Posting>>, added: Files)
    requires FinalMaps(files, positions, false, added) && IsTable(es, files, positions)
    ensures Tabled(es)
  {
    hide PushedAll;
    forall i | 0 <= i < |es| ensures es[i].ids != [] {
      FinalIdsNonempty(false, PushedAll(added, es[i].trigram));
    }
  }

  /** What a lookup owes: the strictly increasing list of exactly the ids that have the trigram. */
  ghost predicate ListsSharers(ids: seq<u32>, added: Files, t: Trigram) {
    Increasing(ids) && forall x: u32 :: x in ids <==> HasTrigram(added, x, t)
  }

  lemma FileLookupOf(
      es: seq<Entry>, files: map<Trigram, seq<u32>>, positions: map<Trigram, seq<Posting>>, t: Trigram)
    requires IsTable(es, files, positions) && Tabled(es) && Fits(es) && WellFormed(ReaderOf(es))
    ensures LookupFileIds(ReaderOf(es), t) == Ok(DeltaValues(0, DeltaBytes(0, Lookup(files, t))))
  {
    hide Image, OpenIndex, SearchTable, Fits, DeltaValues, DeltaBytes, LookupFileIds;
    SearchImage(es, t);
    var r := SearchTable(Image(es), t.Code(), 0, |es|);
    if r.Some? {
      LookupFilesInImage(es, r.value);
    } else {
      AbsentLookup(ReaderOf(es), t);
      assert t !in files;
      NothingDecodes();
    }
  }

  lemma AbsentLookup(reader: Reader, t: Trigram)
    requires WellFormed(reader) && SearchTable(reader.mmap, t.Code(), 0, reader.trigramCount).None?
    ensures LookupFileIds(reader, t) == Ok([])
  {
    hide SearchTable;
  }

  lemma NothingDecodes()
    ensures DeltaValues(0, DeltaBytes(0, [])) == []
  {
    DeltaRoundTrip([]);
  }

  /**
   * A file-only index written from files in any order: every lookup succeeds and decodes the code of the builder's
   * list, and what it returns is right exactly if the files that share the trigram were added in id order.
   */
  lemma FileOnlyLookupExactly(
      es: seq<Entry>, files: map<Trigram, seq<u32>>, positions: map<Trigram, seq<Posting>>, added: Files, t: Trigram)
    requires FinalMaps(files, positions, false, added) && IsTable(es, files, positions) && Fits(es)
    ensures OpenIndex(Image(es)) == Ok(ReaderOf(es)) && WellFormed(ReaderOf(es))
    ensures LookupFileIds(ReaderOf(es), t) == Ok(DeltaValues(0, DeltaBytes(0, Lookup(files, t))))
    ensures LookupFileIds(ReaderOf(es), t) == Ok(Lookup(files, t)) <==> InOrderFor(added, t)
    ensures ListsSharers(LookupFileIds(ReaderOf(es), t).value, added, t) <==> InOrderFor(added, t)
  {
    hide Image, OpenIndex, SearchTable, Fits, DeltaValues, DeltaBytes, LookupFileIds, InOrderFor, PushedAll, HasTrigram;
    FileOnlyTabled(es, files, positions, added);
    OpenRecoversBoundary(es);
    var pushed := PushedAll(added, t);
    var ids := FinalIds(false, pushed);
    FinalLookup(files, positions, false, added, t);
    FileLookupOf(es, files, positions, t);
    hide FinalMaps, IsTable, Tabled, Increasing, Nondecreasing;
    FileOnlyListSorted(added, t);
    DeltaRoundTrip(ids);
    DecodesToSet(ids);
    DedupNondecreasing(pushed);
    forall x: u32 ensures x in ids <==> HasTrigram(added, x, t) { PushedAllMeaning(added, t, x); }
  }
}
