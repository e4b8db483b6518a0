/**
 * Highlight data of a whole file: its lines coded one after another with an index of where each starts, and the block
 * it is stored in (ferret-core/src/highlight.rs). Every line reads back as the coding of its own tokens. Compression
 * is not part of this model.
 */
module HighlightFile {
  import opened Base
  import opened Highlight

  // ---- the line index ----

  function Data(lines: seq<seq<Token>>): bytes {
    if lines == [] then []
    else
      var n := |lines| - 1;
      Data(lines[..n]) + Encode(lines[n])
  }

  /** Where line i starts. */
  function Offset(lines: seq<seq<Token>>, i: nat): nat
    requires i <= |lines|
  {
    |Data(lines[..i])|
  }

  /** Offsets are stored modulo 2^32. */
  function Build(lines: seq<seq<Token>>): FileHighlight {
    FileHighlight(Data(lines), seq(|lines|, i requires 0 <= i < |lines| => Offset(lines, i) % U32_MODULUS))
  }

  method BuildFileHighlight(lines: seq<seq<Token>>) returns (fh: FileHighlight)
    ensures fh == Build(lines)
  {
    hide Encode;
    var data: bytes := [];
    var offsets: seq<u32> := [];
    for k := 0 to |lines|
      invariant data == Data(lines[..k])
      invariant |offsets| == k && forall i :: 0 <= i < k ==> offsets[i] == Offset(lines, i) % U32_MODULUS
    {
      offsets := offsets + [|data| % U32_MODULUS];
      var rle := EncodeRle(lines[k]);
      assert lines[..k + 1][..k] == lines[..k];
      data := data + rle;
    }
    assert lines[..|lines|] == lines;
    assert offsets == Build(lines).lineOffsets;
    fh := FileHighlight(data, offsets);
  }

  /** Tokens of a line, none for a line that is not there. Slicing past the data panics. */
  function TokensForLine(fh: FileHighlight, line: nat): Result<seq<Token>> {
    if line >= |fh.lineOffsets| then Ok([])
    else
      var start := fh.lineOffsets[line];
      var end := if line + 1 < |fh.lineOffsets| then fh.lineOffsets[line + 1] else |fh.tokenData|;
      if start >= |fh.tokenData| || start >= end then Ok([])
      else if end > |fh.tokenData| then Err(SlicePanic)
      else Ok(Decode(fh.tokenData[start..end]))
  }

  lemma {:induction false} DataPrefix(lines: seq<seq<Token>>, k: nat)
    requires k <= |lines|
    ensures Data(lines[..k]) <= Data(lines)
    decreases |lines|
  {
    hide Encode;
    if k == |lines| {
      assert lines[..k] == lines;
    } else {
      var n := |lines| - 1;
      DataPrefix(lines[..n], k);
      assert lines[..n][..k] == lines[..k];
    }
  }

  lemma LineSlice(lines: seq<seq<Token>>, i: nat)
    requires i < |lines|
    ensures Offset(lines, i + 1) == Offset(lines, i) + |Encode(lines[i])| && Offset(lines, i + 1) <= |Data(lines)|
    ensures Data(lines)[Offset(lines, i)..Offset(lines, i + 1)] == Encode(lines[i])
  {
    hide Encode;
    var upTo := lines[..i + 1];
    assert upTo[..i] == lines[..i];
    assert Data(upTo) == Data(lines[..i]) + Encode(lines[i]);
    DataPrefix(lines, i + 1);
    assert Data(lines)[..|Data(upTo)|] == Data(upTo);
    assert Data(lines)[Offset(lines, i)..Offset(lines, i + 1)] == Data(upTo)[Offset(lines, i)..];
  }

  lemma {:induction false} OffsetsGrow(lines: seq<seq<Token>>, i: nat, j: nat)
    requires i <= j <= |lines|
    ensures Offset(lines, i) <= Offset(lines, j)
  {
    DataPrefix(lines[..j], i);
    assert lines[..j][..i] == lines[..i];
  }

  /**
   * If the last line still starts below 2^32, every line, empty ones included, reads back as the coding of its own
   * tokens, and lines past the end are empty.
   */
  lemma LinesReadBack(lines: seq<seq<Token>>, i: nat)
    requires lines != [] ==> Offset(lines, |lines| - 1) <= U32_MAX
    ensures TokensForLine(Build(lines), i) == Ok(if i < |lines| then Merge(lines[i]) else [])
  {
    hide Encode, Decode, Data, Merge;
    if i < |lines| {
      OffsetsGrow(lines, i, |lines| - 1);
      LineSlice(lines, i);
      DecodeEncode(lines[i]);
      var fh := Build(lines);
      assert fh.lineOffsets[i] == Offset(lines, i);
      if i + 1 < |lines| {
        OffsetsGrow(lines, i + 1, |lines| - 1);
        assert fh.lineOffsets[i + 1] == Offset(lines, i + 1);
      } else {
        assert lines[..i + 1] == lines;
      }
      EmptyDecodes(lines[i]);
    }
  }

  lemma EmptyDecodes(tokens: seq<Token>)
    ensures |Encode(tokens)| == 0 ==> Merge(tokens) == []
  {
    hide Encode, Merge;
    DecodeEncode(tokens);
  }

  /** Offset k lies inside the token data and the next one behind its end. */
  predicate Straddles(fh: FileHighlight, k: nat) {
    k + 1 < |fh.lineOffsets| && fh.lineOffsets[k] < |fh.tokenData| < fh.lineOffsets[k + 1]
  }

  /** Reading a line of any block, well-formed or not: it panics exactly between two offsets around the end of the data. */
  lemma LinePanicsExactly(fh: FileHighlight, line: nat)
    ensures TokensForLine(fh, line).Err? <==> Straddles(fh, line)
    ensures line >= |fh.lineOffsets| ==> TokensForLine(fh, line) == Ok([])
    ensures line + 1 < |fh.lineOffsets| && fh.lineOffsets[line] <= fh.lineOffsets[line + 1] <= |fh.tokenData| ==>
      TokensForLine(fh, line) == Ok(Decode(fh.tokenData[fh.lineOffsets[line]..fh.lineOffsets[line + 1]]))
    ensures line + 1 == |fh.lineOffsets| && fh.lineOffsets[line] <= |fh.tokenData| ==>
      TokensForLine(fh, line) == Ok(Decode(fh.tokenData[fh.lineOffsets[line]..]))
    ensures line < |fh.lineOffsets| && fh.lineOffsets[line] > |fh.tokenData| ==> TokensForLine(fh, line) == Ok([])
    ensures line + 1 < |fh.lineOffsets| && fh.lineOffsets[line] > fh.lineOffsets[line + 1] ==>
      TokensForLine(fh, line) == Ok([])
  {
    assert Decode([]) == [];
    if line < |fh.lineOffsets| && fh.lineOffsets[line] <= |fh.tokenData| {
      assert fh.tokenData[fh.lineOffsets[line]..] == fh.tokenData[fh.lineOffsets[line]..|fh.tokenData|];
    }
  }

  // ---- the stored block ----

  function OffsetBytes(offsets: seq<u32>): (b: bytes)
    ensures |b| == 4 * |offsets|
  {
    if offsets == [] then []
    else
      var n := |offsets| - 1;
      OffsetBytes(offsets[..n]) + U32Bytes(offsets[n])
  }

  function Block(fh: FileHighlight): bytes {
    U32Bytes(|fh.lineOffsets| % U32_MODULUS) + OffsetBytes(fh.lineOffsets) + fh.tokenData
  }

  method Serialize(fh: FileHighlight) returns (buf: bytes)
    ensures buf == Block(fh)
  {
    var offsets := fh.lineOffsets;
    buf := U32Bytes(|offsets| % U32_MODULUS);
    for k := 0 to |offsets|
      invariant buf == U32Bytes(|offsets| % U32_MODULUS) + OffsetBytes(offsets[..k])
    {
      assert offsets[..k + 1][..k] == offsets[..k];
      buf := buf + U32Bytes(offsets[k]);
    }
    assert offsets[..|offsets|] == offsets;
    buf := buf + fh.tokenData;
  }

  ghost predicate OffsetsAt(data: bytes, offsets: seq<u32>) {
    4 + 4 * |offsets| <= |data| && forall i :: 0 <= i < |offsets| ==> OffsetAt(data, i) == offsets[i]
  }

  function OffsetAt(data: bytes, i: nat): u32
    requires 8 + 4 * i <= |data|
  {
    ReadU32(data, 4 + 4 * i)
  }

  method Deserialize(data: bytes) returns (fh: Option<FileHighlight>)
    ensures fh.None? <==> |data| < 4 || |data| < 4 + 4 * ReadU32(data, 0)
    ensures fh.Some? ==>
      && |fh.value.lineOffsets| == ReadU32(data, 0) && OffsetsAt(data, fh.value.lineOffsets)
      && fh.value.tokenData == data[4 + 4 * ReadU32(data, 0)..]
  {
    if |data| < 4 { return None; }
    var count: int := ReadU32(data, 0);
    var offsetsEnd := 4 + 4 * count;
    if |data| < offsetsEnd { return None; }
    var offsets: seq<u32> := [];
    for i := 0 to count
      invariant |offsets| == i && OffsetsAt(data, offsets)
    {
      offsets := offsets + [OffsetAt(data, i)];
    }
    fh := Some(FileHighlight(data[offsetsEnd..], offsets));
  }

  lemma {:induction false} OffsetsWritten(offsets: seq<u32>, i: nat)
    requires i < |offsets|
    ensures OffsetBytes(offsets)[4 * i..4 * i + 4] == U32Bytes(offsets[i])
    decreases |offsets|
  {
    hide U32Bytes;
    var n := |offsets| - 1;
    if i < n {
      OffsetsWritten(offsets[..n], i);
      assert OffsetBytes(offsets)[4 * i..4 * i + 4] == OffsetBytes(offsets[..n])[4 * i..4 * i + 4];
    } else {
      assert OffsetBytes(offsets)[4 * i..4 * i + 4] == U32Bytes(offsets[i]);
    }
  }

  lemma BlockParts(fh: FileHighlight, i: nat)
    requires i < |fh.lineOffsets|
    ensures 8 + 4 * i <= |Block(fh)| && OffsetAt(Block(fh), i) == fh.lineOffsets[i]
  {
    hide U32Bytes, ReadU32;
    var b, o := Block(fh), OffsetBytes(fh.lineOffsets);
    OffsetsWritten(fh.lineOffsets, i);
    hide OffsetBytes;
    assert b[4 + 4 * i..4 + 4 * i + 4] == o[4 * i..4 * i + 4];
    ReadU32Written(b, 4 + 4 * i, fh.lineOffsets[i]);
  }

  /** Whatever satisfies the contract of Deserialize on a serialized block is the data that was serialized. */
  lemma BlockReadsBack(fh: FileHighlight, back: FileHighlight)
    requires |fh.lineOffsets| <= U32_MAX
    requires var data := Block(fh);
      && |back.lineOffsets| == ReadU32(data, 0) && OffsetsAt(data, back.lineOffsets)
      && |data| >= 4 + 4 * ReadU32(data, 0) && back.tokenData == data[4 + 4 * ReadU32(data, 0)..]
    ensures back == fh
  {
    hide U32Bytes, ReadU32, OffsetAt;
    CountWritten(fh);
    var data := Block(fh);
    assert data[4 + 4 * |fh.lineOffsets|..] == fh.tokenData;
    forall i | 0 <= i < |fh.lineOffsets| ensures back.lineOffsets[i] == fh.lineOffsets[i] {
      BlockParts(fh, i);
    }
    assert back.lineOffsets == fh.lineOffsets;
  }

  lemma CountWritten(fh: FileHighlight)
    requires |fh.lineOffsets| <= U32_MAX
    ensures |Block(fh)| >= 4 + 4 * |fh.lineOffsets| && ReadU32(Block(fh), 0) == |fh.lineOffsets|
  {
    hide U32Bytes, ReadU32, OffsetBytes;
    var data := Block(fh);
    assert data[0..0 + 4] == U32Bytes(|fh.lineOffsets|);
    ReadU32Written(data, 0, |fh.lineOffsets|);
  }

  /** What a block goes through on its way into the store and out again changes nothing. */
  method StoreAndLoad(fh: FileHighlight) returns (back: Option<FileHighlight>)
    requires |fh.lineOffsets| <= U32_MAX
    ensures back == Some(fh)
  {
    var data := Serialize(fh);
    back := Deserialize(data);
    CountWritten(fh);
    if back.Some? { BlockReadsBack(fh, back.value); }
  }
}
