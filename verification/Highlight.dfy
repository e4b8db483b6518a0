/**
 * Run-length coded highlight tokens (ferret-core/src/highlight.rs). A line's tokens are coded as runs of one kind, two
 * bytes of length and one of kind; decoding keeps the kind of every byte, and the lists that come back unchanged are
 * characterized exactly.
 */
module Highlight {
  import opened Base

  const MAX_RUN: nat := 0xFFFF

  type TokenKind = k: int | 0 <= k < 16

  datatype Token = Token(len: nat, kind: TokenKind)

  datatype FileHighlight = FileHighlight(tokenData: bytes, lineOffsets: seq<u32>)

  /** Values out of range are kind 15, Other. */
  function FromU8(v: u8): TokenKind {
    if v < 15 then v else 15
  }

  // ---- coding ----

  /** A run in pieces of at most 65535 bytes; nothing for an empty run. */
  function Chunks(len: nat, kind: TokenKind): bytes {
    if len == 0 then []
    else
      var chunk := if len <= MAX_RUN then len else MAX_RUN;
      U16Bytes(chunk) + [kind] + Chunks(len - chunk, kind)
  }

  /** The code of a run of which `len` bytes have been collected. */
  function EncodeRun(len: nat, kind: TokenKind, rest: seq<Token>): bytes
    decreases |rest|, 1
  {
    if rest != [] && rest[0].kind == kind then EncodeRun(len + rest[0].len, kind, rest[1..])
    else Chunks(len, kind) + Encode(rest)
  }

  function Encode(tokens: seq<Token>): bytes
    decreases |tokens|, 0
  {
    if tokens == [] then [] else EncodeRun(tokens[0].len, tokens[0].kind, tokens[1..])
  }

  /** Split a run and append the pieces. */
  method AppendRun(buf: bytes, len: nat, kind: TokenKind) returns (r: bytes)
    ensures r == buf + Chunks(len, kind)
  {
    hide Chunks;
    r := buf;
    var left: nat := len;
    while left > 0
      invariant r + Chunks(left, kind) == buf + Chunks(len, kind)
    {
      var chunk := if left <= MAX_RUN then left else MAX_RUN;
      ChunksStep(left, kind);
      r := r + U16Bytes(chunk) + [kind];
      left := left - chunk;
    }
    ChunksNone(kind);
  }

  method EncodeRle(tokens: seq<Token>) returns (buf: bytes)
    ensures buf == Encode(tokens)
  {
    hide Chunks;
    buf := [];
    var i := 0;
    while i < |tokens|
      invariant i <= |tokens| && buf + Encode(tokens[i..]) == Encode(tokens)
    {
      var len: nat, kind := tokens[i].len, tokens[i].kind;
      assert tokens[i..][1..] == tokens[i + 1..];
      i := i + 1;
      while i < |tokens| && tokens[i].kind == kind
        invariant i <= |tokens| && buf + EncodeRun(len, kind, tokens[i..]) == Encode(tokens)
      {
        assert tokens[i..][1..] == tokens[i + 1..];
        len := len + tokens[i].len;
        i := i + 1;
      }
      assert buf + EncodeRun(len, kind, tokens[i..]) == buf + Chunks(len, kind) + Encode(tokens[i..]);
      buf := AppendRun(buf, len, kind);
    }
    assert buf + [] == buf;
  }

  lemma ChunksStep(len: nat, kind: TokenKind)
    requires len > 0
    ensures var chunk := if len <= MAX_RUN then len else MAX_RUN;
      Chunks(len, kind) == U16Bytes(chunk) + [kind] + Chunks(len - chunk, kind)
  {
  }

  lemma ChunksNone(kind: TokenKind)
    ensures Chunks(0, kind) == []
  {
  }

  /** Up to two bytes left over at the end are ignored. */
  function Decode(data: bytes): seq<Token>
    decreases |data|
  {
    if |data| < 3 then [] else [Token(ReadU16(data, 0), FromU8(data[2]))] + Decode(data[3..])
  }

  /** Any bytes decode to one token per three of them: two of length, one of kind, and kinds from 15 on are Other. */
  lemma {:induction false} DecodeAt(data: bytes, k: nat)
    requires 3 * k + 3 <= |data|
    ensures |Decode(data)| == |data| / 3
    ensures k < |Decode(data)| && Decode(data)[k].len == data[3 * k] as int + 0x100 * data[3 * k + 1] as int
    ensures data[3 * k + 2] <= 15 ==> Decode(data)[k].kind == data[3 * k + 2]
    ensures data[3 * k + 2] > 15 ==> Decode(data)[k].kind == 15
    decreases |data|
  {
    hide FromLittleEndian;
    DecodedCount(data);
    if k > 0 {
      DecodeAt(data[3..], k - 1);
    } else {
      TwoBytes(data[0..2]);
    }
  }

  lemma TwoBytes(b: bytes)
    requires |b| == 2
    ensures FromLittleEndian(b) == b[0] as int + 0x100 * b[1] as int
  {
    assert b[1..][1..] == [];
    assert FromLittleEndian(b[1..]) == b[1] as int + 0x100 * FromLittleEndian([]);
  }

  lemma {:induction false} DecodedCount(data: bytes)
    ensures |Decode(data)| == |data| / 3
    decreases |data|
  {
    if |data| >= 3 { DecodedCount(data[3..]); }
  }

  method DecodeRle(data: bytes) returns (tokens: seq<Token>)
    ensures tokens == Decode(data)
  {
    tokens := [];
    var pos := 0;
    while pos + 2 < |data|
      invariant pos <= |data| && tokens + Decode(data[pos..]) == Decode(data)
    {
      assert data[pos..][0..2] == data[pos..pos + 2] && data[pos..][3..] == data[pos + 3..];
      tokens := tokens + [Token(ReadU16(data, pos), FromU8(data[pos + 2]))];
      pos := pos + 3;
    }
    assert tokens + [] == tokens;
  }

  // ---- what decoding an encoded list gives ----

  function ChunkTokens(len: nat, kind: TokenKind): seq<Token> {
    if len == 0 then []
    else
      var chunk := if len <= MAX_RUN then len else MAX_RUN;
      [Token(chunk, kind)] + ChunkTokens(len - chunk, kind)
  }

  function MergeRun(len: nat, kind: TokenKind, rest: seq<Token>): seq<Token>
    decreases |rest|, 1
  {
    if rest != [] && rest[0].kind == kind then MergeRun(len + rest[0].len, kind, rest[1..])
    else ChunkTokens(len, kind) + Merge(rest)
  }

  /** Neighbours of one kind joined, then cut into pieces of at most 65535 bytes. */
  function Merge(tokens: seq<Token>): seq<Token>
    decreases |tokens|, 0
  {
    if tokens == [] then [] else MergeRun(tokens[0].len, tokens[0].kind, tokens[1..])
  }

  lemma DecodeOne(len: u16, kind: TokenKind, rest: bytes)
    ensures Decode(U16Bytes(len) + [kind] + rest) == [Token(len, kind)] + Decode(rest)
  {
    var data := U16Bytes(len) + [kind] + rest;
    assert data[0..2] == U16Bytes(len) && data[2] == kind && data[3..] == rest;
    ReadU16Written(data, 0, len);
  }

  lemma {:induction false} DecodeChunks(len: nat, kind: TokenKind, rest: bytes)
    ensures Decode(Chunks(len, kind) + rest) == ChunkTokens(len, kind) + Decode(rest)
  {
    hide Decode;
    if len == 0 {
      assert [] + rest == rest;
    } else {
      var chunk := if len <= MAX_RUN then len else MAX_RUN;
      DecodeChunks(len - chunk, kind, rest);
      DecodeOne(chunk, kind, Chunks(len - chunk, kind) + rest);
      assert Chunks(len, kind) + rest == U16Bytes(chunk) + [kind] + (Chunks(len - chunk, kind) + rest);
    }
  }

  lemma {:induction false} DecodeRun(len: nat, kind: TokenKind, rest: seq<Token>)
    ensures Decode(EncodeRun(len, kind, rest)) == MergeRun(len, kind, rest)
    decreases |rest|, 1
  {
    hide Decode, Chunks, ChunkTokens;
    if rest != [] && rest[0].kind == kind {
      DecodeRun(len + rest[0].len, kind, rest[1..]);
    } else {
      DecodeChunks(len, kind, Encode(rest));
      DecodeEncode(rest);
    }
  }

  lemma {:induction false} DecodeEncode(tokens: seq<Token>)
    ensures Decode(Encode(tokens)) == Merge(tokens)
    decreases |tokens|, 0
  {
    if tokens != [] { DecodeRun(tokens[0].len, tokens[0].kind, tokens[1..]); }
  }

  // ---- meaning: the kind of every byte ----

  function Repeat(kind: TokenKind, n: nat): (r: seq<TokenKind>)
    ensures |r| == n
  {
    seq(n, _ => kind)
  }

  /** The kind of each byte of the line. */
  function Kinds(tokens: seq<Token>): seq<TokenKind> {
    if tokens == [] then [] else Repeat(tokens[0].kind, tokens[0].len) + Kinds(tokens[1..])
  }

  lemma RepeatJoin(kind: TokenKind, a: nat, b: nat, rest: seq<TokenKind>)
    ensures Repeat(kind, a) + (Repeat(kind, b) + rest) == Repeat(kind, a + b) + rest
  {
  }

  lemma {:induction false} KindsOfChunks(len: nat, kind: TokenKind, rest: seq<Token>)
    ensures Kinds(ChunkTokens(len, kind) + rest) == Repeat(kind, len) + Kinds(rest)
  {
    hide Repeat;
    if len == 0 {
      assert [] + rest == rest;
      assert Repeat(kind, 0) == [];
    } else {
      var chunk := if len <= MAX_RUN then len else MAX_RUN;
      var tail := ChunkTokens(len - chunk, kind) + rest;
      KindsOfChunks(len - chunk, kind, rest);
      assert ChunkTokens(len, kind) + rest == [Token(chunk, kind)] + tail;
      assert ([Token(chunk, kind)] + tail)[1..] == tail;
      RepeatJoin(kind, chunk, len - chunk, Kinds(rest));
    }
  }

  lemma {:induction false} KindsOfRun(len: nat, kind: TokenKind, rest: seq<Token>)
    ensures Kinds(MergeRun(len, kind, rest)) == Repeat(kind, len) + Kinds(rest)
    decreases |rest|, 1
  {
    hide Repeat, ChunkTokens;
    if rest != [] && rest[0].kind == kind {
      KindsOfRun(len + rest[0].len, kind, rest[1..]);
      RepeatJoin(kind, len, rest[0].len, Kinds(rest[1..]));
    } else {
      KindsOfChunks(len, kind, Merge(rest));
      KindsOfMerge(rest);
    }
  }

  lemma {:induction false} KindsOfMerge(tokens: seq<Token>)
    ensures Kinds(Merge(tokens)) == Kinds(tokens)
    decreases |tokens|, 0
  {
    if tokens != [] { KindsOfRun(tokens[0].len, tokens[0].kind, tokens[1..]); }
  }

  /** Coding keeps the kind of every byte. */
  lemma CodingKeepsKinds(tokens: seq<Token>)
    ensures Kinds(Decode(Encode(tokens))) == Kinds(tokens)
  {
    DecodeEncode(tokens);
    KindsOfMerge(tokens);
  }

  // ---- which lists come back unchanged ----

  ghost predicate Sized(tokens: seq<Token>) {
    forall i :: 0 <= i < |tokens| ==> 1 <= tokens[i].len <= MAX_RUN
  }

  /** Neighbours of one kind occur only where a run had to be cut. */
  ghost predicate Cut(tokens: seq<Token>) {
    forall i :: 0 <= i < |tokens| - 1 && tokens[i].kind == tokens[i + 1].kind ==> tokens[i].len == MAX_RUN
  }

  function Full(n: nat, kind: TokenKind): seq<Token> {
    if n == 0 then [] else [Token(MAX_RUN, kind)] + Full(n - 1, kind)
  }

  lemma {:induction false} FullPieces(n: nat, last: nat, kind: TokenKind)
    requires 1 <= last <= MAX_RUN
    ensures ChunkTokens(n * MAX_RUN + last, kind) == Full(n, kind) + [Token(last, kind)]
  {
    if n > 0 {
      FullPieces(n - 1, last, kind);
      assert n * MAX_RUN + last - MAX_RUN == (n - 1) * MAX_RUN + last;
    }
  }

  lemma {:induction false} FullSnoc(n: nat, kind: TokenKind, rest: seq<Token>)
    ensures Full(n + 1, kind) + rest == Full(n, kind) + ([Token(MAX_RUN, kind)] + rest)
  {
    if n > 0 {
      FullSnoc(n - 1, kind, rest);
      assert Full(n + 1, kind) + rest == [Token(MAX_RUN, kind)] + (Full(n, kind) + rest);
    }
  }

  lemma {:induction false} CutRunStays(n: nat, first: Token, rest: seq<Token>)
    requires Sized([first] + rest) && Cut([first] + rest)
    ensures MergeRun(n * MAX_RUN + first.len, first.kind, rest) == Full(n, first.kind) + ([first] + rest)
    decreases |rest|, 1
  {
    hide ChunkTokens, Full;
    assert ([first] + rest)[0] == first;
    TailCanonical(first, rest);
    if rest != [] && rest[0].kind == first.kind {
      assert ([first] + rest)[1] == rest[0];
      assert [rest[0]] + rest[1..] == rest;
      assert n * MAX_RUN + first.len + rest[0].len == (n + 1) * MAX_RUN + rest[0].len;
      CutRunStays(n + 1, rest[0], rest[1..]);
      FullSnoc(n, first.kind, rest);
    } else {
      FullPieces(n, first.len, first.kind);
      CutStays(rest);
      assert Full(n, first.kind) + [first] + rest == Full(n, first.kind) + ([first] + rest);
    }
  }

  lemma TailCanonical(first: Token, rest: seq<Token>)
    requires Sized([first] + rest) && Cut([first] + rest)
    ensures Sized(rest) && Cut(rest)
  {
    var all := [first] + rest;
    assert forall i :: 0 <= i < |rest| ==> rest[i] == all[i + 1];
  }

  lemma {:induction false} CutStays(tokens: seq<Token>)
    requires Sized(tokens) && Cut(tokens)
    ensures Merge(tokens) == tokens
    decreases |tokens|, 0
  {
    if tokens != [] {
      assert [tokens[0]] + tokens[1..] == tokens;
      CutRunStays(0, tokens[0], tokens[1..]);
    }
  }

  lemma {:induction false} ChunksSized(len: nat, kind: TokenKind)
    ensures var r := ChunkTokens(len, kind);
      Sized(r) && Cut(r) && (len > 0 ==> r != []) && forall i :: 0 <= i < |r| ==> r[i].kind == kind
  {
    if len > 0 { ChunksSized(len - if len <= MAX_RUN then len else MAX_RUN, kind); }
  }

  lemma JoinSized(a: seq<Token>, b: seq<Token>)
    requires Sized(a) && Sized(b)
    ensures Sized(a + b)
  {
  }

  lemma {:induction false} RunSized(len: nat, kind: TokenKind, rest: seq<Token>)
    ensures Sized(MergeRun(len, kind, rest))
    decreases |rest|, 1
  {
    hide ChunkTokens;
    if rest != [] && rest[0].kind == kind {
      RunSized(len + rest[0].len, kind, rest[1..]);
    } else {
      ChunksSized(len, kind);
      MergeSized(rest);
      JoinSized(ChunkTokens(len, kind), Merge(rest));
    }
  }

  lemma {:induction false} MergeSized(tokens: seq<Token>)
    ensures Sized(Merge(tokens))
    decreases |tokens|, 0
  {
    if tokens != [] { RunSized(tokens[0].len, tokens[0].kind, tokens[1..]); }
  }

  lemma JoinCut(a: seq<Token>, b: seq<Token>)
    requires Cut(a) && Cut(b) && (a != [] && b != [] ==> a[|a| - 1].kind != b[0].kind)
    ensures Cut(a + b)
  {
  }

  lemma {:induction false} RunCut(len: nat, kind: TokenKind, rest: seq<Token>)
    requires len > 0 && Sized(rest)
    ensures var r := MergeRun(len, kind, rest); Cut(r) && r != [] && r[0].kind == kind
    decreases |rest|, 1
  {
    hide ChunkTokens;
    if rest != [] && rest[0].kind == kind {
      RunCut(len + rest[0].len, kind, rest[1..]);
    } else {
      ChunksSized(len, kind);
      MergeCut(rest);
      JoinCut(ChunkTokens(len, kind), Merge(rest));
    }
  }

  lemma {:induction false} MergeCut(tokens: seq<Token>)
    requires Sized(tokens)
    ensures Cut(Merge(tokens))
    ensures tokens != [] ==> Merge(tokens) != [] && Merge(tokens)[0].kind == tokens[0].kind
    decreases |tokens|, 0
  {
    if tokens != [] { RunCut(tokens[0].len, tokens[0].kind, tokens[1..]); }
  }

  /**
   * A token list survives coding exactly when all lengths are between 1 and 65535 and neighbours of one kind occur
   * only behind a token of 65535 bytes.
   */
  lemma CodingRoundTrip(tokens: seq<Token>)
    ensures Decode(Encode(tokens)) == tokens <==> Sized(tokens) && Cut(tokens)
  {
    hide Merge, Encode, Decode;
    DecodeEncode(tokens);
    MergeSized(tokens);
    if Sized(tokens) { MergeCut(tokens); }
    if Sized(tokens) && Cut(tokens) { CutStays(tokens); }
  }
}
