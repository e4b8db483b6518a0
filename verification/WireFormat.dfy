/** What the stored bytes are, field by field (ferret-core/src/codec.rs, builder.rs, index.rs). */
module WireFormat {
  // The formats are stated here without the functions that write or read them: a varint as its bytes, a coded list as
  // the differences and running sums of its numbers, the index file by fixed positions.

  import opened Base
  import opened Codec
  import opened IndexImage
  import R = IndexReader
  import opened Trigrams

  // ---- integers ----

  lemma Multiples(a: int, b: int, m: nat)
    requires a > b
    ensures a * m >= b * m + m
  {
    assert (a - b - 1) * m >= 0;
  }

  lemma Divided(n: nat, m: nat, q: nat, s: nat)
    requires s < m && n == q * m + s
    ensures n / m == q
  {
    var p := n / m;
    assert p * m <= n < p * m + m;
    if q > p { Multiples(q, p, m); }
    if p > q { Multiples(p, q, m); }
  }

  lemma DividedTwice(n: nat, b: nat)
    requires b > 0
    ensures n / 0x100 / b == n / (0x100 * b)
  {
    var q := n / 0x100;
    var p, r := q / b, q % b;
    assert q == p * b + r;
    assert n == p * (0x100 * b) + (0x100 * r + n % 0x100);
    Divided(n, 0x100 * b, p, 0x100 * r + n % 0x100);
  }

  lemma {:induction false} CapacityPositive(k: nat)
    ensures Capacity(k) > 0
  {
    if k > 0 { CapacityPositive(k - 1); }
  }

  /** Byte k of a little-endian field counts 256 to the power of k. */
  lemma {:induction false} LittleEndianAt(n: nat, width: nat, k: nat)
    requires k < width
    ensures Capacity(k) > 0 && LittleEndian(n, width)[k] == n / Capacity(k) % 0x100
  {
    CapacityPositive(k);
    if k > 0 {
      LittleEndianAt(n / 0x100, width - 1, k - 1);
      DividedTwice(n, Capacity(k - 1));
    }
  }

  // ---- varints ----

  /** The low seven bits of all bytes, the first byte counting least. */
  function GroupSum(b: bytes): nat {
    if b == [] then 0 else b[0] % 128 + 128 * GroupSum(b[1..])
  }

  /** Every byte but the last has its high bit set. */
  ghost predicate IsVarint(b: bytes, v: nat) {
    && b != [] && b[|b| - 1] < 128 && v == GroupSum(b)
    && forall i :: 0 <= i < |b| - 1 ==> b[i] >= 128
  }

  lemma IsVarintStep(b: bytes, v: nat)
    requires |b| > 1
    ensures IsVarint(b, v) <==> b[0] >= 128 && v >= b[0] - 128 && exists h: nat :: IsVarint(b[1..], h) && v == 128 * h + b[0] - 128
  {
    var t := b[1..];
    assert t[|t| - 1] == b[|b| - 1];
    if b[0] >= 128 {
      assert GroupSum(b) == 128 * GroupSum(t) + b[0] - 128;
      if IsVarint(b, v) {
        assert forall i :: 0 <= i < |t| - 1 ==> t[i] == b[i + 1];
        assert IsVarint(t, GroupSum(t));
      }
      if IsVarint(t, GroupSum(t)) {
        assert forall i :: 0 < i < |b| - 1 ==> b[i] == t[i - 1];
      }
    }
  }

  /** The shortest varint of a number. */
  lemma {:induction false} VarintIs(n: nat)
    ensures IsVarint(VarintBytes(n), n)
    ensures |VarintBytes(n)| > 1 ==> VarintBytes(n)[|VarintBytes(n)| - 1] != 0
  {
    if n >= 128 {
      VarintIs(n / 128);
      var b, t := VarintBytes(n), VarintBytes(n / 128);
      assert b[1..] == t && b[|b| - 1] == t[|t| - 1];
      assert forall i :: 0 < i < |b| - 1 ==> b[i] == t[i - 1];
    }
  }

  lemma OneByte(b: bytes, v: nat)
    requires b != [] && (|b| == 1 || b[0] < 128)
    ensures IsVarint(b, v) <==> |b| == 1 && b[0] < 128 && v == b[0]
  {
    assert b[1..] == [] ==> GroupSum(b) == b[0] % 128;
  }

  ghost predicate GroupsAre(data: bytes, room: nat, v: nat, used: nat) {
    ReadGroups(data, room) == Some((v, used)) <==>
    used <= room && used <= |data| && IsVarint(data[..used], v)
  }

  /** A first byte with its high bit set, and a varint behind it. */
  lemma {:induction false} GroupsStep(data: bytes, room: nat, v: nat, used: nat)
    requires 0 < used < |data| && data[0] >= 128
    requires forall h: nat :: GroupsAre(data[1..], room, h, used)
    ensures GroupsAre(data, room + 1, v, used + 1)
  {
    hide IsVarint;
    var b := data[..used + 1];
    assert b[1..] == data[1..][..used];
    IsVarintStep(b, v);
    if ReadGroups(data, room + 1) == Some((v, used + 1)) {
      assert GroupsAre(data[1..], room, ReadGroups(data[1..], room).value.0, used);
    }
    if IsVarint(b, v) {
      var h: nat :| IsVarint(b[1..], h) && v == 128 * h + b[0] - 128;
      assert GroupsAre(data[1..], room, h, used);
    }
  }

  lemma {:induction false} GroupsExactly(data: bytes, room: nat, v: nat, used: nat)
    ensures GroupsAre(data, room, v, used)
  {
    if room > 0 && 1 <= used <= |data| {
      hide IsVarint;
      if data[0] < 128 || used == 1 {
        OneByte(data[..used], v);
      } else {
        hide GroupsAre;
        var low, n := room - 1, used - 1;
        forall h: nat ensures GroupsAre(data[1..], low, h, n) {
          GroupsExactly(data[1..], low, h, n);
        }
        GroupsStep(data, low, v, n);
      }
    }
  }

  /** A varint is read exactly if it has at most five bytes and its value fits 32 bits. */
  lemma VarintReadExactly(data: bytes, v: u32, used: nat)
    ensures ReadVarint(data) == Some(Read(v, used)) <==>
            used <= 5 && used <= |data| && IsVarint(data[..used], v)
  {
    GroupsExactly(data, 5, v, used);
  }

  // ---- coded lists ----

  function Join(parts: seq<bytes>): bytes {
    if parts == [] then [] else parts[0] + Join(parts[1..])
  }

  function Sum(ds: seq<nat>): nat {
    if ds == [] then 0 else ds[0] + Sum(ds[1..])
  }

  ghost predicate AreVarints(parts: seq<bytes>, ns: seq<nat>) {
    |parts| == |ns| && forall i :: 0 <= i < |parts| ==> IsVarint(parts[i], ns[i])
  }

  /** Running sums from acc on, none above the largest 32-bit number. */
  ghost predicate AreSums(acc: nat, ds: seq<nat>, xs: seq<u32>) {
    |xs| == |ds| && forall k :: 0 <= k < |xs| ==> SumIs(acc, ds[..k + 1], xs[k])
  }

  ghost predicate SumIs(acc: nat, ds: seq<nat>, x: u32) {
    x == if acc + Sum(ds) <= 0xFFFF_FFFF then acc + Sum(ds) else 0xFFFF_FFFF
  }

  lemma SumsCons(acc: u32, d: u32, ds: seq<nat>, xs: seq<u32>)
    requires AreSums(SaturatingAdd(acc, d), ds, xs)
    ensures AreSums(acc, [d] + ds, [SaturatingAdd(acc, d)] + xs)
  {
    var next := SaturatingAdd(acc, d);
    forall k | 0 <= k < |xs| + 1 ensures SumIs(acc, ([d] + ds)[..k + 1], ([next] + xs)[k]) {
      if k == 0 {
        assert ([d] + ds)[..1] == [d] && Sum([d]) == d + Sum([d][1..]);
      } else {
        assert SumIs(next, ds[..k - 1 + 1], xs[k - 1]);
        assert ([d] + ds)[..k + 1] == [d] + ds[..k];
        assert ([d] + ds[..k])[1..] == ds[..k];
      }
    }
  }

  lemma VarintsCons(part: bytes, n: nat, parts: seq<bytes>, ns: seq<nat>)
    requires IsVarint(part, n) && AreVarints(parts, ns)
    ensures AreVarints([part] + parts, [n] + ns) && Join([part] + parts) == part + Join(parts)
  {
    hide IsVarint;
    assert ([part] + parts)[1..] == parts;
  }

  /** Any bytes are varints and a rest that is none; decoding them gives the running sums of the varints. */
  lemma {:induction false} DeltaDecodes(acc: u32, data: bytes) returns (parts: seq<bytes>, ds: seq<nat>, rest: bytes)
    ensures data == Join(parts) + rest && AreVarints(parts, ds) && ReadVarint(rest).None?
    ensures AreSums(acc, ds, DeltaValues(acc, data))
    decreases |data|
  {
    hide AreSums, AreVarints, IsVarint, ReadVarint;
    var read := ReadVarint(data);
    if read.None? {
      parts, ds, rest := [], [], data;
      NothingCoded(acc, data);
    } else {
      var d := read.value;
      var next := SaturatingAdd(acc, d.value);
      VarintReadExactly(data, d.value, d.used);
      parts, ds, rest := DeltaDecodes(next, data[d.used..]);
      SumsCons(acc, d.value, ds, DeltaValues(next, data[d.used..]));
      VarintsCons(data[..d.used], d.value, parts, ds);
      assert data == data[..d.used] + data[d.used..];
      parts, ds := [data[..d.used]] + parts, [d.value] + ds;
    }
  }

  lemma NothingCoded(acc: u32, data: bytes)
    ensures Join([]) + data == data && AreVarints([], []) && AreSums(acc, [], [])
  {
  }

  /** Each varint is the difference to the number before, modulo 2^32. */
  ghost predicate AreDifferences(prev: u32, values: seq<u32>, ds: seq<nat>) {
    |ds| == |values| && forall k :: 0 <= k < |ds| ==> IsDifference(Before(prev, values, k), values[k], ds[k])
  }

  function Before(prev: u32, values: seq<u32>, k: nat): u32
    requires k < |values|
  {
    if k == 0 then prev else values[k - 1]
  }

  predicate IsDifference(from: u32, to: u32, d: nat) {
    d <= 0xFFFF_FFFF && (from + d) % 0x1_0000_0000 == to
  }

  lemma DifferencesCons(prev: u32, values: seq<u32>, d: nat, ds: seq<nat>)
    requires values != [] && IsDifference(prev, values[0], d) && AreDifferences(values[0], values[1..], ds)
    ensures AreDifferences(prev, values, [d] + ds)
  {
    hide IsDifference;
    forall k | 0 < k < |values| ensures IsDifference(values[k - 1], values[k], ([d] + ds)[k]) {
      assert IsDifference(Before(values[0], values[1..], k - 1), values[1..][k - 1], ds[k - 1]);
    }
  }

  lemma {:induction false} DeltaEncodes(prev: u32, values: seq<u32>) returns (parts: seq<bytes>, ds: seq<nat>)
    ensures DeltaBytes(prev, values) == Join(parts) && AreVarints(parts, ds) && AreDifferences(prev, values, ds)
    decreases |values|
  {
    hide AreVarints, AreDifferences, IsVarint, VarintBytes;
    if values == [] {
      parts, ds := [], [];
      NothingDiffers(prev);
    } else {
      parts, ds := DeltaEncodes(values[0], values[1..]);
      var d := WrappingSub(values[0], prev);
      VarintIs(d);
      VarintsCons(VarintBytes(d), d, parts, ds);
      assert IsDifference(prev, values[0], d);
      DifferencesCons(prev, values, d, ds);
      parts, ds := [VarintBytes(d)] + parts, [d] + ds;
    }
  }

  lemma NothingDiffers(prev: u32)
    ensures Join([]) == [] && AreVarints([], []) && AreDifferences(prev, [], [])
  {
  }

  lemma DifferencesLength(prev: u32, values: seq<u32>, ds: seq<nat>)
    requires AreDifferences(prev, values, ds)
    ensures |ds| == |values|
  {
  }

  lemma OneRun(file: u32, offsets: seq<u32>)
    requires offsets != []
    ensures Offsets(Tagged(file, offsets)) == offsets && PositionBytes(Tagged(file, offsets)) == GroupBytes(Tagged(file, offsets))
  {
    hide GroupBytes;
    var p := Tagged(file, offsets);
    var k := RunLength(p);
    assert k == |p|;
    assert p[..k] == p && p[k..] == [];
    assert PositionBytes(p) == GroupBytes(p[..k]) + PositionBytes(p[k..]);
    assert PositionBytes([]) == [];
    assert Offsets(p) == offsets;
  }

  /** The offsets of one file: its id, how many there are, and their differences. */
  lemma GroupEncodes(file: u32, offsets: seq<u32>) returns (parts: seq<bytes>, ns: seq<nat>)
    requires offsets != []
    ensures PositionBytes(Tagged(file, offsets)) == Join(parts) && AreVarints(parts, ns) && |ns| == 2 + |offsets|
    ensures ns[0] == file && ns[1] == |offsets| % 0x1_0000_0000 && AreDifferences(0, offsets, ns[2..])
  {
    hide AreVarints, AreDifferences, IsVarint, VarintBytes, DeltaBytes, PositionBytes, Join;
    OneRun(file, offsets);
    var count := |offsets| % U32_MODULUS;
    var rest, ds := DeltaEncodes(0, offsets);
    DifferencesLength(0, offsets, ds);
    VarintIs(count);
    VarintIs(file);
    VarintsCons(VarintBytes(count), count, rest, ds);
    VarintsCons(VarintBytes(file), file, [VarintBytes(count)] + rest, [count] + ds);
    parts, ns := [VarintBytes(file)] + ([VarintBytes(count)] + rest), [file] + ([count] + ds);
    assert ns[2..] == ds;
  }

  /** A varint that is read: at most five bytes and 32 bits. */
  ghost predicate Readable(part: bytes) {
    |part| <= 5 && IsVarint(part, GroupSum(part)) && GroupSum(part) <= 0xFFFF_FFFF
  }

  ghost predicate AllReadable(parts: seq<bytes>) {
    forall i :: 0 <= i < |parts| ==> Readable(parts[i])
  }

  lemma OneRead(data: bytes, used: nat)
    ensures ReadVarint(data).Some? && ReadVarint(data).value.used == used <==> used <= |data| && Readable(data[..used])
  {
    if ReadVarint(data).Some? && ReadVarint(data).value.used == used {
      VarintReadExactly(data, ReadVarint(data).value.value, used);
    }
    if used <= |data| && Readable(data[..used]) {
      VarintReadExactly(data, GroupSum(data[..used]), used);
    }
  }

  /** The parts of a buffer that counting varints steps over. */
  ghost predicate Counted(data: bytes, count: nat, n: nat, parts: seq<bytes>) {
    |parts| == count && AllReadable(parts) && n <= |data| && Join(parts) == data[..n]
  }

  lemma {:induction false} SkipsParts(data: bytes, count: nat, n: nat) returns (parts: seq<bytes>)
    requires SkipVarints(data, count) == Some(n)
    ensures Counted(data, count, n, parts)
    decreases count
  {
    hide Readable, ReadVarint;
    if count == 0 {
      parts := [];
    } else {
      var used := ReadVarint(data).value.used;
      OneRead(data, used);
      var more := SkipsParts(data[used..], count - 1, n - used);
      parts := [data[..used]] + more;
      assert parts[1..] == more;
      assert data[..n] == data[..used] + data[used..][..n - used];
    }
  }

  lemma {:induction false} PartsSkipped(data: bytes, count: nat, n: nat, parts: seq<bytes>)
    requires Counted(data, count, n, parts)
    ensures SkipVarints(data, count) == Some(n)
    decreases count
  {
    hide Readable, ReadVarint;
    if count > 0 {
      var part, more := parts[0], Join(parts[1..]);
      assert data[..n] == part + more;
      assert data[..|part|] == data[..n][..|part|] == part;
      OneRead(data, |part|);
      assert data[|part|..][..n - |part|] == data[..n][|part|..] == more;
      PartsSkipped(data[|part|..], count - 1, n - |part|, parts[1..]);
    }
  }

  /** Counting varints in any buffer: as many as asked for, each of them readable. */
  lemma SkipExactly(data: bytes, count: nat, n: nat)
    ensures SkipVarints(data, count) == Some(n) <==> exists parts :: Counted(data, count, n, parts)
  {
    hide Counted;
    if SkipVarints(data, count) == Some(n) {
      var parts := SkipsParts(data, count, n);
    }
    forall parts | Counted(data, count, n, parts) ensures SkipVarints(data, count) == Some(n) {
      PartsSkipped(data, count, n, parts);
    }
  }

  // ---- the index file ----

  lemma HeaderIs(count: nat)
    requires count <= U32_MAX
    ensures Header(count)[0..4] == [0x47, 0x49, 0x52, 0x54] && Header(count)[4..6] == [1, 0]
  {
    hide LittleEndian;
    MagicIs();
    assert Header(count)[0..4] == LittleEndian(TRIG_MAGIC, 4) && Header(count)[4..6] == LittleEndian(TRIG_VERSION, 2);
  }

  lemma MagicIs()
    ensures LittleEndian(TRIG_MAGIC, 4) == [0x47, 0x49, 0x52, 0x54] && LittleEndian(TRIG_VERSION, 2) == [1, 0]
  {
    assert LittleEndian(0x54, 1) == [0x54];
    assert LittleEndian(0x5452, 2) == [0x52, 0x54];
    assert LittleEndian(0x5452_49, 3) == [0x49, 0x52, 0x54];
    assert LittleEndian(0, 1) == [0];
  }

  lemma OffsetsAre(es: seq<Entry>, i: nat)
    requires i < |es|
    ensures FileOffset(es, i) == |Concat(FileParts(es[..i]))| && PositionOffset(es, i) == |Concat(PositionParts(es[..i]))|
  {
    hide Concat, PositionPart, DeltaBytes;
    assert FileParts(es)[..i] == FileParts(es[..i]);
    assert PositionParts(es)[..i] == PositionParts(es[..i]);
  }

  /**
   * The file by fixed positions: magic, version and row count in ten bytes, then rows of nineteen bytes in table order,
   * then the coded file lists one after another, then the coded positional lists.
   */
  lemma ImageLayout(es: seq<Entry>, i: nat)
    requires Fits(es) && i < |es|
    ensures var b := Image(es); var at := 10 + 19 * i;
      && 10 + 19 * |es| <= |b|
      && b[0..4] == [0x47, 0x49, 0x52, 0x54] && b[4..6] == [1, 0] && ReadU32(b, 6) == |es|
      && b[at..at + 3] == [es[i].trigram.a, es[i].trigram.b, es[i].trigram.c]
      && ReadU32(b, at + 3) == |Concat(FileParts(es[..i]))| && ReadU32(b, at + 7) == |es[i].ids|
      && ReadU32(b, at + 11) == (if es[i].positions.Some? then |Concat(PositionParts(es[..i]))| else 0)
      && ReadU32(b, at + 15) == (if es[i].positions.Some? then |es[i].positions.value| else 0)
      && b[10 + 19 * |es|..] == Concat(FileParts(es)) + Concat(PositionParts(es))
  {
    hide Concat, Header, FileParts, PositionParts, FileOffset, PositionOffset, LittleEndian, ReadU32, Rows;
    var b := Image(es);
    R.ImageHeader(es);
    R.ImagePieces(es);
    HeaderIs(|es|);
    OffsetsAre(es, i);
    R.ImageFields(es, i);
    R.ImageRow(es, i);
    RowStarts(es, i);
    assert b[0..4] == Header(|es|)[0..4] && b[4..6] == Header(|es|)[4..6];
    SubSlice(b, R.RowStart(i), R.RowStart(i + 1), 0, 3);
  }

  lemma RowStarts(es: seq<Entry>, i: nat)
    requires i < |es|
    ensures Row(es, i)[0..3] == [es[i].trigram.a, es[i].trigram.b, es[i].trigram.c]
  {
    hide LittleEndian, FileOffset, PositionField;
  }
}
