/** The WIM readers and writers as they run. */
module WimProgram {
  import opened Powers
  import opened RangeCoding
  import opened LsbBits
  import opened LzmsItems
  import opened LzmsCodec
  import opened LzmsProgram
  import opened LzmsCompress
  import opened SlotTables
  import opened X86Filter
  import opened WimFraming
  import opened WimWriting

  // --- Reading ---

  method ExpandOne(chunk: seq<Byte>, plainLen: nat) returns (r: Result<seq<Byte>>)
    ensures r == ExpandChunk(chunk, plainLen)
  {
    if |chunk| == plainLen {
      return Ok(chunk);
    }
    if |chunk| > plainLen {
      return Err(BadFraming);
    }
    r := DecompressData(chunk, plainLen);
  }

  /** The first error ends the decoding. */
  lemma {:induction false} ErrorStays(l: Layout, data: seq<Byte>, i: nat, j: nat, k: nat)
    requires ValidLayout(l) && i <= j <= k <= |l.sizes| && ExpandRange(l, data, i, j).Err?
    ensures ExpandRange(l, data, i, k) == ExpandRange(l, data, i, j)
    decreases k
  {
    if j < k {
      ErrorStays(l, data, i, j, k - 1);
    }
  }

  /** One more chunk, starting at `cursor`. */
  method ExpandNext(l: Layout, data: seq<Byte>, ghost first: nat, i: nat, cursor: nat, out: seq<Byte>)
    returns (r: Result<seq<Byte>>)
    requires ValidLayout(l) && first <= i < |l.sizes| && cursor == Offset(l.sizes, i)
    requires ExpandRange(l, data, first, i) == Ok(out)
    ensures r == ExpandRange(l, data, first, i + 1)
  {
    hide ExpandChunk;
    var end := cursor + l.sizes[i];
    if end > |data| {
      return Err(Truncated);
    }
    var plain := ExpandOne(data[cursor..end], PlainLen(l.total, l.chunkSize, i, |l.sizes|));
    if plain.Err? {
      return plain;
    }
    r := Ok(out + plain.value);
  }

  method ExpandChunks(l: Layout, data: seq<Byte>, first: nat, end: nat, start: nat) returns (r: Result<seq<Byte>>)
    requires ValidLayout(l) && first <= end <= |l.sizes| && start == Offset(l.sizes, first)
    ensures r == ExpandRange(l, data, first, end)
  {
    hide ExpandAt;
    var out, cursor, i := [], start, first;
    while i < end
      invariant first <= i <= end && cursor == Offset(l.sizes, i) && ExpandRange(l, data, first, i) == Ok(out)
    {
      var next := ExpandNext(l, data, first, i, cursor, out);
      if next.Err? {
        ErrorStays(l, data, first, i + 1, end);
        return next;
      }
      out := next.value;
      cursor := cursor + l.sizes[i];
      i := i + 1;
    }
    r := Ok(out);
  }

  method DecompressSolid(resource: seq<Byte>) returns (r: Result<seq<Byte>>)
    ensures r == DecodeSolid(resource)
  {
    hide ExpandRange, ReadHeader;
    if |resource| < HEADER_SIZE {
      return Err(BadFraming);
    }
    var h := ReadHeader(resource);
    if h.format != SOLID_FORMAT {
      return Err(BadFraming);
    }
    if h.total == 0 {
      return Ok([]);
    }
    if h.chunkSize == 0 {
      return Err(BadFraming);
    }
    var n := NumChunks(h.total, h.chunkSize);
    if HEADER_SIZE + 4 * n > |resource| {
      return Err(BadFraming);
    }
    var l := Layout(h.total, h.chunkSize, TableSizes(resource, n));
    r := ExpandChunks(l, resource[HEADER_SIZE + 4 * n..], 0, n, 0);
  }

  /** Where chunk `i` lies, by adding up the sizes before it. */
  method ChunkOnDisk(sizes: seq<nat>, i: nat) returns (off: nat)
    requires i <= |sizes|
    ensures off == Offset(sizes, i)
  {
    off := 0;
    for k := 0 to i
      invariant off == Offset(sizes, k)
    {
      off := off + sizes[k];
    }
  }

  method DecompressSolidRange(resource: seq<Byte>, off: nat, len: nat) returns (r: Result<seq<Byte>>)
    ensures r == DecodeSolidRange(resource, off, len)
  {
    hide ExpandRange, ParseLayout, NumChunks;
    var parsed := ParseLayout(resource);
    if parsed.Err? {
      return Err(parsed.error);
    }
    var l := parsed.value;
    if off + len > l.total || len == 0 {
      return Err(BadFraming);
    }
    var (first, last) := CoveringChunks(l, off, len);
    var start := ChunkOnDisk(l.sizes, first);
    var decoded := ExpandChunks(l, resource[HEADER_SIZE + 4 * |l.sizes|..], first, last + 1, start);
    if decoded.Err? {
      return decoded;
    }
    var skip := SkipInChunk(off, l.chunkSize);
    r := if skip + len <= |decoded.value| then Ok(decoded.value[skip..skip + len]) else Err(Truncated);
  }

  method DecompressResource(resource: seq<Byte>, size: nat, total: nat) returns (r: Result<seq<Byte>>)
    ensures r == DecodeResource(resource, size, total)
  {
    hide ReadStarts, ExpandBetween;
    if total == 0 {
      return Ok([]);
    }
    if size == 0 {
      return Err(BadFraming);
    }
    ChunkCount(total, size);
    var n, width := NumChunks(total, size), EntryBytes(|resource|);
    var tableBytes: nat := (n - 1) * width;
    if tableBytes > |resource| {
      return Err(BadFraming);
    }
    r := ExpandAll(ReadStarts(resource, width, n), resource[tableBytes..], total, size);
  }

  lemma {:induction false} BetweenErrorStays(starts: seq<nat>, data: seq<Byte>, total: nat, size: nat, j: nat, k: nat)
    requires size > 0 && j <= k < |starts| && ExpandBetween(starts, data, total, size, j).Err?
    ensures ExpandBetween(starts, data, total, size, k) == ExpandBetween(starts, data, total, size, j)
    decreases k
  {
    if j < k {
      BetweenErrorStays(starts, data, total, size, j, k - 1);
    }
  }

  method ExpandAll(starts: seq<nat>, data: seq<Byte>, total: nat, size: nat) returns (r: Result<seq<Byte>>)
    requires size > 0 && |starts| > 0
    ensures r == ExpandBetween(starts, data, total, size, |starts| - 1)
  {
    hide ExpandChunk;
    var out, j := [], 0;
    while j < |starts| - 1
      invariant j < |starts| && ExpandBetween(starts, data, total, size, j) == Ok(out)
    {
      var next := BetweenNext(starts, data, total, size, j, out);
      if next.Err? {
        BetweenErrorStays(starts, data, total, size, j + 1, |starts| - 1);
        return next;
      }
      out := next.value;
      j := j + 1;
    }
    r := Ok(out);
  }

  method BetweenNext(starts: seq<nat>, data: seq<Byte>, total: nat, size: nat, j: nat, out: seq<Byte>)
    returns (r: Result<seq<Byte>>)
    requires size > 0 && j + 1 < |starts| && ExpandBetween(starts, data, total, size, j) == Ok(out)
    ensures r == ExpandBetween(starts, data, total, size, j + 1)
  {
    hide ExpandChunk;
    var start, end := starts[j], starts[j + 1];
    if end < start || end > |data| {
      return Err(BadFraming);
    }
    var plain := ExpandOne(data[start..end], PlainLen(total, size, j, |starts| - 1));
    if plain.Err? {
      return plain;
    }
    r := Ok(out + plain.value);
  }

  // --- Writing ---

  /** The stream of some valid parse of the chunk. */
  ghost predicate StreamFor(stream: seq<Byte>, chunk: seq<Byte>) {
    0 < |chunk| <= MAX_OUTPUT && OffsetTable(OffsetBases())
    && exists items :: ValidParse(X86(chunk, false), 0, INITIAL_HISTORY, items)
                       && stream == EncodeStream(X86(chunk, false), OffsetBases(), items)
  }

  /** The stream where it is shorter, and the chunk itself elsewhere. */
  ghost predicate ShorterForm(payload: seq<Byte>, chunk: seq<Byte>) {
    exists stream :: StreamFor(stream, chunk) && payload == if |stream| < |chunk| then stream else chunk
  }

  method CompressChunk(chunk: seq<Byte>, take: nat -> bool) returns (payload: seq<Byte>)
    requires |chunk| <= MAX_OUTPUT
    ensures Stores(payload, chunk) && (|chunk| > 0 ==> ShorterForm(payload, chunk))
  {
    hide Decompress, OffsetTable, OffsetBases, ValidParse, EncodeStream, X86;
    var compressed;
    ghost var items;
    compressed, items := CompressData(chunk, take);
    assert |chunk| > 0 ==> StreamFor(compressed, chunk);
    payload := if |compressed| < |chunk| then compressed else chunk;
  }

  /** Chunk by chunk; the last chunk may be shorter. */
  method CompressChunks(data: seq<Byte>, size: nat, take: nat -> bool) returns (payloads: seq<seq<Byte>>)
    requires size > 0 && (size <= MAX_OUTPUT || |data| <= MAX_OUTPUT)
    ensures StoresAll(payloads, data, size)
    ensures forall i: nat :: i < |payloads| ==> ShorterForm(payloads[i], ChunkAt(data, size, i))
  {
    hide Stores, NumChunks, PlainStart, ShorterForm;
    payloads := [];
    var n, pos := NumChunks(|data|, size), 0;
    while |payloads| < n
      invariant |payloads| <= n && pos == |payloads| * size
      invariant forall i :: 0 <= i < |payloads| ==> Stores(payloads[i], ChunkAt(data, size, i))
      invariant forall i: nat :: i < |payloads| ==> ShorterForm(payloads[i], ChunkAt(data, size, i))
      decreases n - |payloads|
    {
      ChunkSlice(data, size, |payloads|);
      var end := if pos + size <= |data| then pos + size else |data|;
      var payload := CompressChunk(data[pos..end], take);
      Distribute(|payloads|, 1, size);
      payloads := payloads + [payload];
      pos := pos + size;
    }
  }

  lemma {:induction false} ChunkSlice(data: seq<Byte>, size: nat, i: nat)
    requires size > 0 && i < NumChunks(|data|, size)
    ensures 0 <= i * size < |data| && |ChunkAt(data, size, i)| <= size
    ensures ChunkAt(data, size, i) == data[i * size..if i * size + size <= |data| then i * size + size else |data|]
  {
    var n := NumChunks(|data|, size);
    NonEmpty(data, size, i);
    ChunkCount(|data|, size);
    Distribute(i, 1, size);
    MulMonotone(size, i, n - 1);
    if i + 1 < n {
      MulMonotone(size, i + 1, n - 1);
    }
  }

  method WriteTable(out: seq<Byte>, vs: seq<nat>, width: nat) returns (r: seq<Byte>)
    ensures r == out + Table(vs, width)
  {
    r := out;
    for i := 0 to |vs|
      invariant r == out + Table(vs[..i], width)
    {
      assert vs[..i + 1][..i] == vs[..i];
      r := r + LeBytes(vs[i], width);
    }
    assert vs[..|vs|] == vs;
  }

  method WritePayloads(out: seq<Byte>, payloads: seq<seq<Byte>>) returns (r: seq<Byte>)
    ensures r == out + Join(payloads)
  {
    r := out;
    for i := 0 to |payloads|
      invariant r == out + Join(payloads[..i])
    {
      assert payloads[..i + 1][..i] == payloads[..i];
      r := r + payloads[i];
    }
    assert payloads[..|payloads|] == payloads;
  }

  /** A solid resource, with the shorter form of every chunk. It reads back as `data` exactly when the header can hold
      the chunk size or does not need to. */
  method CompressSolid(data: seq<Byte>, size: nat, take: nat -> bool)
    returns (r: Result<seq<Byte>>, ghost payloads: seq<seq<Byte>>)
    requires |data| < 0x1_0000_0000_0000_0000 && (size <= MAX_OUTPUT || |data| <= MAX_OUTPUT)
    ensures size == 0 <==> r.Err?
    ensures size > 0 ==>
              (DecodeSolid(r.value) == Ok(data) <==>
                 data == [] || 1 <= size < 0x1_0000_0000 || 0 < |data| <= size % 0x1_0000_0000)
    ensures size > 0 ==>
              && r.value == SolidResource(|data|, size, payloads) && |payloads| == NumChunks(|data|, size)
              && forall i: nat :: i < |payloads| ==> ShorterForm(payloads[i], ChunkAt(data, size, i))
  {
    hide DecodeSolid, StoresAll, LeBytes, ShorterForm, NumChunks, ChunkAt;
    payloads := [];
    if size == 0 {
      r := Err(BadFraming);
      return;
    }
    var chunks := CompressChunks(data, size, take);
    payloads := chunks;
    PayloadCount(chunks, data, size);
    var out := LeBytes(|data|, 8) + LeBytes(size % 0x1_0000_0000, 4) + LeBytes(SOLID_FORMAT, 4);
    ghost var header := out;
    out := WriteTable(out, Sizes(chunks), 4);
    out := WritePayloads(out, chunks);
    assert out == header + (Table(Sizes(chunks), 4) + Join(chunks));
    r := Ok(out);
    SolidReadableExactly(data, size, chunks);
  }

  /** The running total of the payloads before each chunk but the first. */
  method RunningTotals(sizes: seq<nat>) returns (vs: seq<nat>, total: nat)
    requires sizes != []
    ensures vs == Starts(sizes)[1..|sizes|] && total == Offset(sizes, |sizes|)
  {
    vs, total := [], sizes[0];
    assert Offset(sizes, 0) == 0;
    for i := 1 to |sizes|
      invariant |vs| == i - 1 && total == Offset(sizes, i)
      invariant forall k :: 0 <= k < |vs| ==> vs[k] == Offset(sizes, k + 1)
    {
      vs := vs + [total];
      total := total + sizes[i];
    }
  }

  method CompressResource(data: seq<Byte>, size: nat, take: nat -> bool)
    returns (r: Result<seq<Byte>>, ghost payloads: seq<seq<Byte>>)
    requires size <= MAX_OUTPUT || |data| <= MAX_OUTPUT
    ensures size == 0 <==> r.Err?
    ensures size > 0 && (r.value == [] || |r.value| < 0x1_0000_0000_0000_0000) ==>
              DecodeResource(r.value, size, |data|) == Ok(data)
    ensures size > 0 && |data| > 0 ==>
              && |payloads| == NumChunks(|data|, size) > 0 && r.value == OffsetResource(payloads)
              && forall i: nat :: i < |payloads| ==> ShorterForm(payloads[i], ChunkAt(data, size, i))
  {
    hide DecodeResource, StoresAll, LeBytes, NumChunks, Table, Join, Offset, OffsetResource, TableWidth, ShorterForm,
         ChunkAt;
    payloads := [];
    if size == 0 {
      r := Err(BadFraming);
      return;
    }
    if |data| == 0 {
      assert DecodeResource([], size, 0) == Ok([]) by { NothingToDecode(size); }
      r := Ok([]);
      return;
    }
    var chunks := CompressChunks(data, size, take);
    payloads := chunks;
    PayloadCount(chunks, data, size);
    ChunkCount(|data|, size);
    var vs, total := RunningTotals(Sizes(chunks));
    JoinLength(chunks);
    var out := WriteTable([], vs, EntryBytes(4 * (|chunks| - 1) + total));
    out := WritePayloads(out, chunks);
    ResourceIs(chunks, vs, total, out);
    r := Ok(out);
    SameWidth(chunks);
    if |out| < 0x1_0000_0000_0000_0000 {
      ResourceRoundTrip(data, size, chunks);
    }
  }

  lemma {:induction false} ResourceIs(payloads: seq<seq<Byte>>, vs: seq<nat>, total: nat, out: seq<Byte>)
    requires payloads != [] && vs == Starts(Sizes(payloads))[1..|payloads|] && total == |Join(payloads)|
    requires out == [] + Table(vs, EntryBytes(4 * (|payloads| - 1) + total)) + Join(payloads)
    ensures out == OffsetResource(payloads)
  {
  }

  lemma {:induction false} NothingToDecode(size: nat)
    ensures DecodeResource([], size, 0) == Ok([])
  {
  }
}
