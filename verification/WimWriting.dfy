/** Writing WIM resources, and that reading them gives the data back. */
module WimWriting {
  import opened Powers
  import opened RangeCoding
  import opened LsbBits
  import opened LzmsCodec
  import opened WimFraming

  // --- Tables of fixed-width numbers ---

  function Table(vs: seq<nat>, width: nat): (bs: seq<Byte>)
    ensures |bs| == |vs| * width
  {
    if |vs| == 0 then []
    else
      Distribute(|vs| - 1, 1, width);
      Table(vs[..|vs| - 1], width) + LeBytes(vs[|vs| - 1], width)
  }

  lemma {:induction false} TableAt(vs: seq<nat>, width: nat, i: nat)
    requires i < |vs|
    ensures i * width + width <= |vs| * width && 0 <= i * width
    ensures Table(vs, width)[i * width..i * width + width] == LeBytes(vs[i], width)
    decreases |vs|
  {
    var front := vs[..|vs| - 1];
    Distribute(|vs| - 1, 1, width);
    if i < |vs| - 1 {
      TableAt(front, width, i);
      InFront(Table(front, width), LeBytes(vs[|vs| - 1], width), i * width, i * width + width);
    }
  }

  lemma {:induction false} InFront(a: seq<Byte>, b: seq<Byte>, i: nat, j: nat)
    requires i <= j <= |a|
    ensures (a + b)[i..j] == a[i..j]
  {
  }

  // --- Payloads ---

  function Join(payloads: seq<seq<Byte>>): seq<Byte> {
    if |payloads| == 0 then [] else Join(payloads[..|payloads| - 1]) + payloads[|payloads| - 1]
  }

  function Sizes(payloads: seq<seq<Byte>>): (r: seq<nat>)
    ensures |r| == |payloads| && forall i :: 0 <= i < |r| ==> r[i] == |payloads[i]|
  {
    seq(|payloads|, i requires 0 <= i < |payloads| => |payloads[i]|)
  }

  lemma {:induction false} OffsetPrefix(a: seq<nat>, b: seq<nat>, i: nat)
    requires i <= |a| && a <= b
    ensures Offset(a, i) == Offset(b, i)
  {
    if i > 0 {
      OffsetPrefix(a, b, i - 1);
    }
  }

  /** Each payload stands at its offset. */
  lemma {:induction false} JoinAt(payloads: seq<seq<Byte>>, i: nat)
    requires i < |payloads|
    ensures Offset(Sizes(payloads), |payloads|) == |Join(payloads)|
    ensures Offset(Sizes(payloads), i) <= Offset(Sizes(payloads), i + 1) <= |Join(payloads)|
    ensures Join(payloads)[Offset(Sizes(payloads), i)..Offset(Sizes(payloads), i + 1)] == payloads[i]
    decreases |payloads|
  {
    var n := |payloads| - 1;
    var front := payloads[..n];
    JoinLength(front);
    JoinLength(payloads);
    assert Sizes(front) == Sizes(payloads)[..n];
    OffsetPrefix(Sizes(front), Sizes(payloads), n);
    OffsetPrefix(Sizes(front), Sizes(payloads), i);
    if i < n {
      JoinAt(front, i);
      OffsetPrefix(Sizes(front), Sizes(payloads), i + 1);
      InFront(Join(front), payloads[n], Offset(Sizes(front), i), Offset(Sizes(front), i + 1));
    }
  }

  lemma {:induction false} JoinLength(payloads: seq<seq<Byte>>)
    ensures Offset(Sizes(payloads), |payloads|) == |Join(payloads)|
  {
    if payloads != [] {
      var n := |payloads| - 1;
      JoinLength(payloads[..n]);
      assert Sizes(payloads[..n]) == Sizes(payloads)[..n];
      OffsetPrefix(Sizes(payloads[..n]), Sizes(payloads), n);
    }
  }

  // --- Chunks of the data ---

  function ChunkAt(data: seq<Byte>, size: nat, i: nat): (c: seq<Byte>)
    requires size > 0 && i < NumChunks(|data|, size)
  {
    var l := Layout(|data|, size, seq(NumChunks(|data|, size), k => 0));
    NonEmpty(data, size, i);
    ChunkBounds(l, i);
    data[PlainStart(l, i)..PlainStart(l, i + 1)]
  }

  lemma {:induction false} NonEmpty(data: seq<Byte>, size: nat, i: nat)
    requires size > 0 && i < NumChunks(|data|, size)
    ensures |data| > 0
  {
    if |data| == 0 {
      DivUnique(size - 1, size, 0, size - 1);
    }
  }

  lemma {:induction false} ChunkBounds(l: Layout, i: nat)
    requires ValidLayout(l) && i < |l.sizes|
    ensures PlainStart(l, i) <= PlainStart(l, i + 1) <= l.total
    ensures PlainStart(l, i + 1) - PlainStart(l, i) == PlainLen(l.total, l.chunkSize, i, |l.sizes|)
  {
    PlainStartStep(l, i);
    ChunkCount(l.total, l.chunkSize);
    if i + 1 < |l.sizes| {
      MulMonotone(l.chunkSize, i + 1, |l.sizes| - 1);
    }
  }

  /** One acceptable payload per chunk. */
  predicate StoresAll(payloads: seq<seq<Byte>>, data: seq<Byte>, size: nat)
    requires size > 0
  {
    && |payloads| == NumChunks(|data|, size)
    && forall i :: 0 <= i < |payloads| ==> Stores(payloads[i], ChunkAt(data, size, i))
  }

  lemma {:induction false} StoredRange(l: Layout, payloads: seq<seq<Byte>>, data: seq<Byte>, j: nat)
    requires ValidLayout(l) && l.total == |data| && l.sizes == Sizes(payloads)
    requires StoresAll(payloads, data, l.chunkSize) && j <= |payloads|
    ensures PlainStart(l, j) <= |data|
    ensures ExpandRange(l, Join(payloads), 0, j) == Ok(data[..PlainStart(l, j)])
  {
    hide ExpandAt, StoresAll, ChunkAt;
    if j == 0 {
      ChunkCount(l.total, l.chunkSize);
      assert data[..0] == [];
    } else {
      StoredRange(l, payloads, data, j - 1);
      StoredAt(l, payloads, data, j - 1);
      assert data[..PlainStart(l, j - 1)] + data[PlainStart(l, j - 1)..PlainStart(l, j)] == data[..PlainStart(l, j)];
    }
  }

  lemma {:induction false} StoredAt(l: Layout, payloads: seq<seq<Byte>>, data: seq<Byte>, i: nat)
    requires ValidLayout(l) && l.total == |data| && l.sizes == Sizes(payloads)
    requires StoresAll(payloads, data, l.chunkSize) && i < |payloads|
    ensures PlainStart(l, i) <= PlainStart(l, i + 1) <= |data|
    ensures ExpandAt(l, Join(payloads), i) == Ok(data[PlainStart(l, i)..PlainStart(l, i + 1)])
  {
    hide ExpandChunk, NumChunks, Join, Stores, Offset;
    ChunkBounds(l, i);
    JoinAt(payloads, i);
    assert Stores(payloads[i], ChunkAt(data, l.chunkSize, i));
    StoredExpands(payloads[i], ChunkAt(data, l.chunkSize, i));
  }

  // --- Solid resources ---

  /** Header, size table, chunk data. The chunk size is cut to 32 bits. */
  function SolidResource(total: nat, size: nat, payloads: seq<seq<Byte>>): seq<Byte> {
    LeBytes(total, 8) + LeBytes(size % 0x1_0000_0000, 4) + LeBytes(SOLID_FORMAT, 4)
    + (Table(Sizes(payloads), 4) + Join(payloads))
  }

  lemma {:induction false} SolidParts(total: nat, size: nat, payloads: seq<seq<Byte>>)
    requires total < 0x1_0000_0000_0000_0000
    ensures var r := SolidResource(total, size, payloads); var n := |payloads|;
            && |r| >= HEADER_SIZE + 4 * n
            && ReadHeader(r) == Header(total, size % 0x1_0000_0000, SOLID_FORMAT)
            && r[HEADER_SIZE..HEADER_SIZE + 4 * n] == Table(Sizes(payloads), 4)
            && r[HEADER_SIZE + 4 * n..] == Join(payloads)
  {
    hide LeBytes, LeValue, Table, Join;
    PowerTable();
    LeReadBack(total, 8);
    LeReadBack(size % 0x1_0000_0000, 4);
    LeReadBack(SOLID_FORMAT, 4);
    FiveParts(LeBytes(total, 8), LeBytes(size % 0x1_0000_0000, 4), LeBytes(SOLID_FORMAT, 4),
              Table(Sizes(payloads), 4), Join(payloads));
  }

  lemma {:induction false} FiveParts(a: seq<Byte>, b: seq<Byte>, c: seq<Byte>, d: seq<Byte>, e: seq<Byte>)
    requires |a| == 8 && |b| == 4 && |c| == 4
    ensures var r := a + b + c + (d + e);
            && r[0..8] == a && r[8..12] == b && r[12..16] == c
            && r[16..16 + |d|] == d && r[16 + |d|..] == e
  {
  }

  lemma {:induction false} SliceOfSlice(r: seq<Byte>, a: nat, b: nat, i: nat, j: nat)
    requires a <= b <= |r| && i <= j && a + j <= b
    ensures r[a..b][i..j] == r[a + i..a + j]
  {
    var x, y := r[a..b][i..j], r[a + i..a + j];
    forall k | 0 <= k < j - i ensures x[k] == y[k] {
      assert x[k] == r[a..b][i + k] == r[a + i + k];
    }
    assert x == y;
  }

  lemma {:induction false} SizesReadBack(r: seq<Byte>, sizes: seq<nat>)
    requires HEADER_SIZE + 4 * |sizes| <= |r| && r[HEADER_SIZE..HEADER_SIZE + 4 * |sizes|] == Table(sizes, 4)
    requires forall i :: 0 <= i < |sizes| ==> sizes[i] < 0x1_0000_0000
    ensures TableSizes(r, |sizes|) == sizes
  {
    hide LeBytes, LeValue, Table;
    PowerTable();
    forall i | 0 <= i < |sizes| ensures TableSizes(r, |sizes|)[i] == sizes[i] {
      TableAt(sizes, 4, i);
      SliceOfSlice(r, HEADER_SIZE, HEADER_SIZE + 4 * |sizes|, 4 * i, 4 * i + 4);
      LeReadBack(sizes[i], 4);
    }
  }

  lemma {:induction false} PayloadsShort(payloads: seq<seq<Byte>>, data: seq<Byte>, size: nat)
    requires size > 0 && StoresAll(payloads, data, size)
    ensures forall i :: 0 <= i < |payloads| ==> |payloads[i]| <= size
  {
    forall i | 0 <= i < |payloads| ensures |payloads[i]| <= size {
      assert Stores(payloads[i], ChunkAt(data, size, i));
      var l := Layout(|data|, size, seq(NumChunks(|data|, size), k => 0));
      NonEmpty(data, size, i);
      ChunkBounds(l, i);
      ChunkCount(|data|, size);
    }
  }

  /** Solid round trip, for every way of storing the chunks and every 32-bit chunk size. */
  lemma {:induction false} SolidRoundTrip(data: seq<Byte>, size: nat, payloads: seq<seq<Byte>>)
    requires |data| < 0x1_0000_0000_0000_0000 && 1 <= size < 0x1_0000_0000 && StoresAll(payloads, data, size)
    ensures DecodeSolid(SolidResource(|data|, size, payloads)) == Ok(data)
  {
    hide ExpandRange, StoresAll, LeBytes, LeValue, Table, ReadHeader, TableSizes;
    SolidParts(|data|, size, payloads);
    if |data| > 0 {
      PayloadCount(payloads, data, size);
      PayloadsShort(payloads, data, size);
      var r := SolidResource(|data|, size, payloads);
      SizesReadBack(r, Sizes(payloads));
      var l := Layout(|data|, size, Sizes(payloads));
      StoredRange(l, payloads, data, |payloads|);
      assert data[..|data|] == data;
    }
  }

  lemma {:induction false} PayloadCount(payloads: seq<seq<Byte>>, data: seq<Byte>, size: nat)
    requires size > 0 && StoresAll(payloads, data, size)
    ensures |payloads| == NumChunks(|data|, size)
  {
  }

  /** The layout in numbers: little-endian length, chunk size, format and payload sizes, then the payloads one after the
      other. */
  lemma {:induction false} SolidContents(total: nat, size: nat, payloads: seq<seq<Byte>>, i: nat)
    requires total < 0x1_0000_0000_0000_0000 && i < |payloads| && |payloads[i]| < 0x1_0000_0000
    ensures var r, n := SolidResource(total, size, payloads), |payloads|;
            var at := 16 + 4 * n + Offset(Sizes(payloads), i);
            && |r| >= 16 + 4 * n && LeValue(r[0..8]) == total && LeValue(r[8..12]) == size % 0x1_0000_0000
            && LeValue(r[12..16]) == 3 && LeValue(r[16 + 4 * i..20 + 4 * i]) == |payloads[i]|
            && at + |payloads[i]| <= |r| && r[at..at + |payloads[i]|] == payloads[i]
  {
    hide LeBytes, LeValue, Table, Join, Offset;
    var r, n := SolidResource(total, size, payloads), |payloads|;
    SolidParts(total, size, payloads);
    TableAt(Sizes(payloads), 4, i);
    SliceOfSlice(r, 16, 16 + 4 * n, 4 * i, 4 * i + 4);
    PowerTable();
    LeReadBack(|payloads[i]|, 4);
    JoinAt(payloads, i);
    OffsetStep(Sizes(payloads), i);
    SliceOfSlice(r, 16 + 4 * n, |r|, Offset(Sizes(payloads), i), Offset(Sizes(payloads), i + 1));
  }

  lemma {:induction false} OffsetStep(sizes: seq<nat>, i: nat)
    requires i < |sizes|
    ensures Offset(sizes, i + 1) == Offset(sizes, i) + sizes[i]
  {
  }

  // --- Chunk sizes beyond 32 bits ---

  lemma {:induction false} SingleChunk(data: seq<Byte>, size: nat)
    requires 0 < |data| <= size
    ensures NumChunks(|data|, size) == 1 && ChunkAt(data, size, 0) == data
  {
    DivUnique(|data| + size - 1, size, 1, |data| - 1);
  }

  lemma {:induction false} SinglePayload(data: seq<Byte>, size: nat, payloads: seq<seq<Byte>>)
    requires 0 < |data| <= size && StoresAll(payloads, data, size)
    ensures |payloads| == 1 && Stores(payloads[0], data) && 0 < |payloads[0]| <= |data|
    ensures Join(payloads) == payloads[0]
  {
    hide NumChunks, ChunkAt;
    SingleChunk(data, size);
    assert Stores(payloads[0], data);
    assert payloads[..0] == [] && Join([]) == [];
    assert [] + payloads[0] == payloads[0];
    NoEmptyStream(|data|);
  }

  lemma {:induction false} NoEmptyStream(n: nat)
    ensures Decompress([], n) == Ok([])
  {
  }

  /** A failing chunk spoils every range from before it on. */
  lemma {:induction false} FirstChunkFails(l: Layout, data: seq<Byte>, j: nat)
    requires ValidLayout(l) && 1 <= j <= |l.sizes| && ExpandAt(l, data, 0).Err?
    ensures ExpandRange(l, data, 0, j).Err?
    decreases j
  {
    hide ExpandAt;
    if j > 1 {
      FirstChunkFails(l, data, j - 1);
    }
  }

  /** When the size that is left after the cut is smaller than the data, the reader expects more table entries than
      there are, and the first chunk ends behind the resource. */
  lemma {:induction false} NarrowedUnreadable(data: seq<Byte>, size: nat, payloads: seq<seq<Byte>>)
    requires 0 < size % 0x1_0000_0000 < |data| <= size && |data| < 0x1_0000_0000 && StoresAll(payloads, data, size)
    ensures DecodeSolid(SolidResource(|data|, size, payloads)).Err?
  {
    hide StoresAll, LeBytes, LeValue, Table, ReadHeader, NumChunks, Join, ExpandRange;
    var r, small := SolidResource(|data|, size, payloads), size % 0x1_0000_0000;
    SolidParts(|data|, size, payloads);
    SinglePayload(data, size, payloads);
    var n := NumChunks(|data|, small);
    AtLeastTwo(|data|, small);
    if HEADER_SIZE + 4 * n <= |r| {
      var l := Layout(|data|, small, TableSizes(r, n));
      SizesReadBack(r, Sizes(payloads));
      assert TableSizes(r, 1)[0] == TableSizes(r, n)[0] == |payloads[0]|;
      FirstEnd(l);
      FirstChunkFails(l, r[HEADER_SIZE + 4 * n..], n);
    }
  }

  lemma {:induction false} FirstEnd(l: Layout)
    requires |l.sizes| > 0
    ensures Offset(l.sizes, 1) == l.sizes[0]
  {
    assert Offset(l.sizes, 0) == 0;
  }

  lemma {:induction false} AtLeastTwo(total: nat, size: nat)
    requires 0 < size < total
    ensures NumChunks(total, size) >= 2
  {
    DivBounds(total + size - 1, size, 2, total + size);
    assert total + size - 1 < (total + size) * size by { MulMonotone(total + size, 1, size); }
  }

  lemma {:induction false} ZeroUnreadable(data: seq<Byte>, size: nat, payloads: seq<seq<Byte>>)
    requires 0 < |data| < 0x1_0000_0000_0000_0000 && size % 0x1_0000_0000 == 0
    ensures DecodeSolid(SolidResource(|data|, size, payloads)).Err?
  {
    hide LeBytes, LeValue, Table, ReadHeader;
    SolidParts(|data|, size, payloads);
  }

  /** A single chunk that still fits the cut size is read back. */
  lemma {:induction false} NarrowedReadable(data: seq<Byte>, size: nat, payloads: seq<seq<Byte>>)
    requires 0 < |data| <= size % 0x1_0000_0000 && |data| <= size && StoresAll(payloads, data, size)
    ensures DecodeSolid(SolidResource(|data|, size, payloads)) == Ok(data)
  {
    hide DecodeSolid, NumChunks, ChunkAt, LeBytes, Table, Join;
    var small := size % 0x1_0000_0000;
    SinglePayload(data, size, payloads);
    SingleChunk(data, small);
    SolidRoundTrip(data, small, payloads);
    assert small % 0x1_0000_0000 == small;
  }

  lemma {:induction false} NothingReadable(size: nat, payloads: seq<seq<Byte>>)
    ensures DecodeSolid(SolidResource(0, size, payloads)) == Ok([])
  {
    hide LeBytes, LeValue, Table, ReadHeader;
    SolidParts(0, size, payloads);
  }

  /** The numbers for which the header, which keeps only 32 bits of the chunk size, still tells the truth. */
  predicate SizeSurvives(total: nat, size: nat) {
    total == 0 || 1 <= size < 0x1_0000_0000 || 0 < total <= size % 0x1_0000_0000
  }

  /** The resource reads back exactly when the chunk size survives; larger sizes leave a single chunk. */
  lemma {:induction false} SolidReadableExactly(data: seq<Byte>, size: nat, payloads: seq<seq<Byte>>)
    requires |data| < 0x1_0000_0000_0000_0000 && size > 0 && StoresAll(payloads, data, size)
    requires size >= 0x1_0000_0000 ==> |data| < 0x1_0000_0000
    ensures DecodeSolid(SolidResource(|data|, size, payloads)) == Ok(data) <==> SizeSurvives(|data|, size)
  {
    hide DecodeSolid, SolidResource, StoresAll;
    if |data| == 0 {
      NothingReadable(size, payloads);
    } else if size < 0x1_0000_0000 {
      SolidRoundTrip(data, size, payloads);
    } else if size % 0x1_0000_0000 == 0 {
      ZeroUnreadable(data, size, payloads);
    } else if |data| <= size % 0x1_0000_0000 {
      NarrowedReadable(data, size, payloads);
    } else {
      NarrowedUnreadable(data, size, payloads);
    }
  }

  // --- Resources with a table of chunk offsets ---

  function Starts(sizes: seq<nat>): (r: seq<nat>)
    ensures |r| == |sizes| + 1 && forall i :: 0 <= i <= |sizes| ==> r[i] == Offset(sizes, i)
  {
    seq(|sizes| + 1, i requires 0 <= i <= |sizes| => Offset(sizes, i))
  }

  function TableWidth(payloads: seq<seq<Byte>>): nat
    requires payloads != []
  {
    EntryBytes(4 * (|payloads| - 1) + |Join(payloads)|)
  }

  function OffsetResource(payloads: seq<seq<Byte>>): seq<Byte>
    requires payloads != []
  {
    Table(Starts(Sizes(payloads))[1..|payloads|], TableWidth(payloads)) + Join(payloads)
  }

  /** The reader, which only knows the length of the resource, arrives at the width the writer chose. */
  lemma {:induction false} SameWidth(payloads: seq<seq<Byte>>)
    requires payloads != []
    ensures |OffsetResource(payloads)| == (|payloads| - 1) * TableWidth(payloads) + |Join(payloads)|
    ensures EntryBytes(|OffsetResource(payloads)|) == TableWidth(payloads)
  {
  }

  lemma {:induction false} OffsetMonotone(sizes: seq<nat>, i: nat, j: nat)
    requires i <= j <= |sizes|
    ensures Offset(sizes, i) <= Offset(sizes, j)
  {
    if i < j {
      OffsetMonotone(sizes, i, j - 1);
    }
  }

  lemma {:induction false} WidthSuffices(payloads: seq<seq<Byte>>, i: nat)
    requires payloads != [] && i <= |payloads| && |Join(payloads)| < 0x1_0000_0000_0000_0000
    ensures Offset(Sizes(payloads), i) <= |Join(payloads)|
    ensures Offset(Sizes(payloads), i) < Pow2(8 * TableWidth(payloads))
  {
    OffsetMonotone(Sizes(payloads), i, |payloads|);
    JoinLength(payloads);
    PowerTable();
  }

  lemma {:induction false} StartsReadBack(payloads: seq<seq<Byte>>)
    requires payloads != [] && |Join(payloads)| < 0x1_0000_0000_0000_0000
    ensures var r := OffsetResource(payloads); var w := TableWidth(payloads); var n := |payloads|;
            && (n - 1) * w <= |r| && r[(n - 1) * w..] == Join(payloads)
            && ReadStarts(r, w, n) == Starts(Sizes(payloads))
  {
    hide Table, LeBytes, LeValue, Join, Offset, EntryBytes;
    var r, w, n := OffsetResource(payloads), TableWidth(payloads), |payloads|;
    var all := Starts(Sizes(payloads));
    var vs := all[1..n];
    var table := Table(vs, w);
    assert r == table + Join(payloads) && |table| == (n - 1) * w;
    var starts := ReadStarts(r, w, n);
    JoinLength(payloads);
    forall i | 0 <= i <= n ensures starts[i] == all[i] {
      if 1 <= i < n {
        EntryReadBack(r, vs, w, payloads, i - 1);
      } else if i == 0 {
        assert Offset(Sizes(payloads), 0) == 0 by { OffsetZero(Sizes(payloads)); }
      }
    }
    assert starts == all;
  }

  lemma {:induction false} OffsetZero(sizes: seq<nat>)
    ensures Offset(sizes, 0) == 0
  {
  }

  lemma {:induction false} EntryReadBack(r: seq<Byte>, vs: seq<nat>, w: nat, payloads: seq<seq<Byte>>, i: nat)
    requires payloads != [] && |Join(payloads)| < 0x1_0000_0000_0000_0000 && i < |vs| == |payloads| - 1
    requires w == TableWidth(payloads) && r == Table(vs, w) + Join(payloads)
    requires vs[i] == Offset(Sizes(payloads), i + 1)
    ensures EntryAt(r, w, |vs|, i) == vs[i]
  {
    hide Table, LeBytes, LeValue, Join, Offset, EntryBytes;
    TableAt(vs, w, i);
    InFront(Table(vs, w), Join(payloads), i * w, i * w + w);
    WidthSuffices(payloads, i + 1);
    LeReadBack(vs[i], w);
  }

  /** The layout in numbers: where each chunk but the first starts, in 4 bytes each as long as the resource then stays
      below 4 GiB and otherwise in 8, followed by the payloads. */
  lemma {:induction false} ResourceContents(payloads: seq<seq<Byte>>, i: nat)
    requires 0 < i < |payloads| && |Join(payloads)| < 0x1_0000_0000_0000_0000
    ensures var r, n := OffsetResource(payloads), |payloads|;
            var w := if 4 * (n - 1) + |Join(payloads)| < 0x1_0000_0000 then 4 else 8;
            && |r| == w * (n - 1) + |Join(payloads)| && w * i <= w * (n - 1) && w * (i - 1) >= 0
            && LeValue(r[w * (i - 1)..w * i]) == Offset(Sizes(payloads), i)
            && r[w * (n - 1)..] == Join(payloads)
  {
    hide Table, LeBytes, LeValue, Join, Offset;
    var r, w, n := OffsetResource(payloads), TableWidth(payloads), |payloads|;
    var vs := Starts(Sizes(payloads))[1..n];
    TableAt(vs, w, i - 1);
    InFront(Table(vs, w), Join(payloads), (i - 1) * w, (i - 1) * w + w);
    WidthSuffices(payloads, i);
    LeReadBack(vs[i - 1], w);
    WidthTimes(w, i, n);
  }

  lemma {:induction false} WidthTimes(w: nat, i: nat, n: nat)
    requires 0 < i < n
    ensures w * i <= w * (n - 1) && w * (i - 1) >= 0 && (i - 1) * w + w == w * i && (i - 1) * w == w * (i - 1)
    ensures (n - 1) * w == w * (n - 1)
  {
    MulMonotone(w, i, n - 1);
  }

  lemma {:induction false} ResourceRoundTrip(data: seq<Byte>, size: nat, payloads: seq<seq<Byte>>)
    requires 0 < |data| && size > 0 && StoresAll(payloads, data, size)
    requires |Join(payloads)| < 0x1_0000_0000_0000_0000
    ensures payloads != [] && DecodeResource(OffsetResource(payloads), size, |data|) == Ok(data)
  {
    hide ExpandRange, ExpandBetween, StoresAll, Table, Join, ReadStarts;
    PayloadCount(payloads, data, size);
    ChunkCount(|data|, size);
    SameWidth(payloads);
    StartsReadBack(payloads);
    var l := Layout(|data|, size, Sizes(payloads));
    forall i | 0 <= i <= |payloads| ensures Offset(l.sizes, i) <= |Join(payloads)| {
      WidthSuffices(payloads, i);
    }
    BetweenIsRange(l, Starts(Sizes(payloads)), Join(payloads), |payloads|);
    StoredRange(l, payloads, data, |payloads|);
    assert data[..|data|] == data;
  }
}
