/** WIM resources: data cut into chunks, each an independent LZMS stream or stored verbatim. The solid
    layout has a header and a table of chunk sizes, the other one a table of chunk offsets. */
module WimFraming {
  import opened Powers
  import opened RangeCoding
  import opened LsbBits
  import opened LzmsItems
  import opened LzmsCodec

  const SOLID_FORMAT := 3
  const HEADER_SIZE := 16

  // --- Chunks ---

  function NumChunks(total: nat, size: nat): nat
    requires size > 0
  {
    (total + size - 1) / size
  }

  function LastChunkLen(total: nat, size: nat): nat
    requires size > 0
  {
    if total % size == 0 then size else total % size
  }

  /** Plaintext length of chunk `i` of `n`. */
  function PlainLen(total: nat, size: nat, i: nat, n: nat): nat
    requires size > 0
  {
    if i + 1 < n then size else LastChunkLen(total, size)
  }

  lemma {:induction false} ChunkCount(total: nat, size: nat)
    requires total > 0 && size > 0
    ensures var n := NumChunks(total, size);
            n >= 1 && total == (n - 1) * size + LastChunkLen(total, size) && 1 <= LastChunkLen(total, size) <= size
  {
    var q, r := total / size, total % size;
    assert total == q * size + r;
    if r == 0 {
      Distribute(q - 1, 1, size);
      DivUnique(total + size - 1, size, q, size - 1);
    } else {
      Distribute(q, 1, size);
      DivUnique(total + size - 1, size, q + 1, r - 1);
    }
  }

  function ExpandChunk(chunk: seq<Byte>, plainLen: nat): (r: Result<seq<Byte>>)
    ensures r.Ok? && chunk != [] ==> |r.value| == plainLen
  {
    if |chunk| == plainLen then Ok(chunk)
    else if |chunk| > plainLen then Err(BadFraming)
    else Decompress(chunk, plainLen)
  }

  /** An acceptable form of a chunk: verbatim, or a shorter stream that decompresses to it. */
  predicate Stores(payload: seq<Byte>, chunk: seq<Byte>) {
    payload == chunk || (|payload| < |chunk| && Decompress(payload, |chunk|) == Ok(chunk))
  }

  lemma {:induction false} StoredExpands(payload: seq<Byte>, chunk: seq<Byte>)
    requires Stores(payload, chunk)
    ensures ExpandChunk(payload, |chunk|) == Ok(chunk)
  {
  }

  /** Where chunk `i` starts in the chunk data. */
  function Offset(sizes: seq<nat>, i: nat): nat
    requires i <= |sizes|
  {
    if i == 0 then 0 else Offset(sizes, i - 1) + sizes[i - 1]
  }

  /** The framing of a resource: total length, chunk size and the stored size of each chunk. */
  datatype Layout = Layout(total: nat, chunkSize: nat, sizes: seq<nat>)

  predicate ValidLayout(l: Layout) {
    l.chunkSize > 0 && l.total > 0 && |l.sizes| == NumChunks(l.total, l.chunkSize)
  }

  function ExpandAt(l: Layout, data: seq<Byte>, i: nat): Result<seq<Byte>>
    requires ValidLayout(l) && i < |l.sizes|
  {
    var start, end := Offset(l.sizes, i), Offset(l.sizes, i + 1);
    if end > |data| then Err(Truncated)
    else ExpandChunk(data[start..end], PlainLen(l.total, l.chunkSize, i, |l.sizes|))
  }

  /** Chunks `i` up to `j`, decoded one after the other and joined. */
  function ExpandRange(l: Layout, data: seq<Byte>, i: nat, j: nat): Result<seq<Byte>>
    requires ValidLayout(l) && i <= j <= |l.sizes|
    decreases j
  {
    if i == j then Ok([])
    else
      match ExpandRange(l, data, i, j - 1)
      case Err(e) => Err(e)
      case Ok(front) =>
        match ExpandAt(l, data, j - 1)
        case Err(e) => Err(e)
        case Ok(last) => Ok(front + last)
  }

  // --- Decoding part of a resource agrees with decoding all of it ---

  predicate NoEmptyChunk(sizes: seq<nat>) {
    forall i :: 0 <= i < |sizes| ==> sizes[i] > 0
  }

  /** Plaintext before chunk `i`. */
  function PlainStart(l: Layout, i: nat): nat
    requires ValidLayout(l) && i <= |l.sizes|
  {
    if i == |l.sizes| then l.total else i * l.chunkSize
  }

  lemma {:induction false} PlainStartStep(l: Layout, i: nat)
    requires ValidLayout(l) && i < |l.sizes|
    ensures PlainStart(l, i + 1) == PlainStart(l, i) + PlainLen(l.total, l.chunkSize, i, |l.sizes|)
  {
    ChunkCount(l.total, l.chunkSize);
    Distribute(i, 1, l.chunkSize);
  }

  lemma {:induction false} ExpandAtLength(l: Layout, data: seq<Byte>, i: nat)
    requires ValidLayout(l) && i < |l.sizes| && l.sizes[i] > 0 && ExpandAt(l, data, i).Ok?
    ensures |ExpandAt(l, data, i).value| == PlainLen(l.total, l.chunkSize, i, |l.sizes|)
  {
    hide ExpandChunk, NumChunks;
    var start, end := Offset(l.sizes, i), Offset(l.sizes, i + 1);
    assert |data[start..end]| > 0;
  }

  lemma {:induction false} ExpandRangeLength(l: Layout, data: seq<Byte>, i: nat, j: nat)
    requires ValidLayout(l) && i <= j <= |l.sizes| && NoEmptyChunk(l.sizes)
    requires ExpandRange(l, data, i, j).Ok?
    ensures PlainStart(l, i) + |ExpandRange(l, data, i, j).value| == PlainStart(l, j)
    decreases j
  {
    if i < j {
      hide ExpandAt, NumChunks;
      ExpandRangeLength(l, data, i, j - 1);
      PlainStartStep(l, j - 1);
      ExpandAtLength(l, data, j - 1);
    }
  }

  lemma {:induction false} ExpandRangeSplit(l: Layout, data: seq<Byte>, i: nat, j: nat, k: nat)
    requires ValidLayout(l) && i <= j <= k <= |l.sizes| && ExpandRange(l, data, i, k).Ok?
    ensures ExpandRange(l, data, i, j).Ok? && ExpandRange(l, data, j, k).Ok?
    ensures ExpandRange(l, data, i, k).value == ExpandRange(l, data, i, j).value + ExpandRange(l, data, j, k).value
    decreases k
  {
    hide ExpandAt;
    if j < k {
      ExpandRangeSplit(l, data, i, j, k - 1);
    } else {
      assert ExpandRange(l, data, i, k).value + [] == ExpandRange(l, data, i, k).value;
    }
  }

  // --- Solid resources ---

  datatype Header = Header(total: nat, chunkSize: nat, format: nat)

  function ReadHeader(resource: seq<Byte>): Header
    requires |resource| >= HEADER_SIZE
  {
    Header(LeValue(resource[0..8]), LeValue(resource[8..12]), LeValue(resource[12..16]))
  }

  function TableSizes(resource: seq<Byte>, n: nat): (sizes: seq<nat>)
    requires HEADER_SIZE + 4 * n <= |resource|
    ensures |sizes| == n
  {
    seq(n, i requires 0 <= i < n => LeValue(resource[HEADER_SIZE + 4 * i..HEADER_SIZE + 4 * i + 4]))
  }

  /** Decode a whole solid resource. A chunk count beyond 64 bits cannot fit in the resource either. */
  function DecodeSolid(resource: seq<Byte>): Result<seq<Byte>> {
    if |resource| < HEADER_SIZE then Err(BadFraming)
    else
      var h := ReadHeader(resource);
      if h.format != SOLID_FORMAT then Err(BadFraming)
      else if h.total == 0 then Ok([])
      else if h.chunkSize == 0 then Err(BadFraming)
      else
        var n := NumChunks(h.total, h.chunkSize);
        if HEADER_SIZE + 4 * n > |resource| then Err(BadFraming)
        else
          ExpandRange(Layout(h.total, h.chunkSize, TableSizes(resource, n)), resource[HEADER_SIZE + 4 * n..], 0, n)
  }

  function TableLen(header: seq<Byte>): (r: Result<nat>)
    ensures r.Ok? ==> r.value >= HEADER_SIZE && |header| >= HEADER_SIZE
  {
    if |header| < HEADER_SIZE then Err(Truncated)
    else
      var h := ReadHeader(header);
      if h.format != SOLID_FORMAT then Err(BadFraming)
      else if h.total == 0 then Ok(HEADER_SIZE)
      else if h.chunkSize == 0 then Err(BadFraming)
      else
        var need := HEADER_SIZE + 4 * NumChunks(h.total, h.chunkSize);
        if need >= 0x1_0000_0000_0000_0000 then Err(BadFraming) else Ok(need)
  }

  function ParseLayout(prefix: seq<Byte>): (r: Result<Layout>)
    ensures r.Ok? && r.value.total > 0 ==> ValidLayout(r.value) && HEADER_SIZE + 4 * |r.value.sizes| <= |prefix|
  {
    match TableLen(prefix)
    case Err(e) => Err(e)
    case Ok(need) =>
      if |prefix| < need then Err(Truncated)
      else
        var h := ReadHeader(prefix);
        Ok(Layout(h.total, h.chunkSize, TableSizes(prefix, (need - HEADER_SIZE) / 4)))
  }

  lemma {:induction false} ChunkOf(total: nat, size: nat, pos: nat)
    requires size > 0 && pos < total
    ensures pos / size < NumChunks(total, size) && pos / size * size <= pos
    ensures pos / size + 1 < NumChunks(total, size) ==> pos < (pos / size + 1) * size
  {
    var q := pos / size;
    assert pos == q * size + pos % size;
    Distribute(q, 1, size);
    ChunkCount(total, size);
    var n := NumChunks(total, size);
    Distribute(n - 1, 1, size);
    if q >= n {
      MulMonotone(size, n, q);
    }
  }

  /** Decode the plaintext bytes `off` to `off + len`, touching only the chunks that cover them. */
  function DecodeSolidRange(resource: seq<Byte>, off: nat, len: nat): Result<seq<Byte>> {
    match ParseLayout(resource)
    case Err(e) => Err(e)
    case Ok(l) =>
      if off + len > l.total || len == 0 then Err(BadFraming)
      else
        var (first, last) := CoveringChunks(l, off, len);
        match ExpandRange(l, resource[HEADER_SIZE + 4 * |l.sizes|..], first, last + 1)
        case Err(e) => Err(e)
        case Ok(decoded) =>
          var skip := SkipInChunk(off, l.chunkSize);
          if skip + len <= |decoded| then Ok(decoded[skip..skip + len]) else Err(Truncated)
  }

  /** First and last chunk of a non-empty range. */
  function CoveringChunks(l: Layout, off: nat, len: nat): (r: (nat, nat))
    requires ValidLayout(l) && off + len <= l.total && len > 0
    ensures r.0 <= r.1 < |l.sizes|
  {
    ChunkOf(l.total, l.chunkSize, off + len - 1);
    FirstToLast(off, off + len - 1, l.chunkSize);
    (off / l.chunkSize, (off + len - 1) / l.chunkSize)
  }

  function SkipInChunk(off: nat, size: nat): nat
    requires size > 0
  {
    FirstToLast(off, off, size);
    off - off / size * size
  }

  lemma {:induction false} FirstToLast(a: nat, b: nat, size: nat)
    requires size > 0 && a <= b
    ensures a / size <= b / size && a / size * size <= a
  {
    assert a == a / size * size + a % size && b == b / size * size + b % size;
    if a / size > b / size {
      MulMonotone(size, b / size + 1, a / size);
      Distribute(b / size, 1, size);
    }
  }

  /** Whole and partial decoding read the same layout. */
  lemma {:induction false} SameLayout(resource: seq<Byte>)
    requires |resource| < 0x1_0000_0000_0000_0000 && DecodeSolid(resource).Ok?
    ensures ParseLayout(resource).Ok?
    ensures var l := ParseLayout(resource).value;
            l.total > 0 ==>
              DecodeSolid(resource) == ExpandRange(l, resource[HEADER_SIZE + 4 * |l.sizes|..], 0, |l.sizes|)
  {
    hide ExpandRange, ReadHeader, LeValue;
  }

  lemma {:induction false} SliceOfMiddle(a: seq<Byte>, b: seq<Byte>, c: seq<Byte>, out: seq<Byte>, off: nat, len: nat)
    requires out == a + b + c && |a| <= off && off + len <= |a| + |b|
    ensures b[off - |a|..off - |a| + len] == out[off..off + len]
  {
  }

  /** Random access agrees with full decoding: for every resource that decodes and has no empty chunk,
      every range inside it. */
  lemma {:induction false} RangeAgrees(resource: seq<Byte>, off: nat, len: nat)
    requires |resource| < 0x1_0000_0000_0000_0000 && DecodeSolid(resource).Ok?
    requires ParseLayout(resource).Ok? && NoEmptyChunk(ParseLayout(resource).value.sizes)
    requires len > 0 && off + len <= ParseLayout(resource).value.total
    ensures |DecodeSolid(resource).value| == ParseLayout(resource).value.total
    ensures DecodeSolidRange(resource, off, len) == Ok(DecodeSolid(resource).value[off..off + len])
  {
    hide ParseLayout, DecodeSolid, ExpandRange, LeValue, NumChunks;
    SameLayout(resource);
    var l := ParseLayout(resource).value;
    var data, n := resource[HEADER_SIZE + 4 * |l.sizes|..], |l.sizes|;
    RangeInside(l, data, off, len);
  }

  lemma {:induction false} RangeInside(l: Layout, data: seq<Byte>, off: nat, len: nat)
    requires ValidLayout(l) && NoEmptyChunk(l.sizes) && ExpandRange(l, data, 0, |l.sizes|).Ok?
    requires len > 0 && off + len <= l.total
    ensures |ExpandRange(l, data, 0, |l.sizes|).value| == l.total
    ensures var (first, last) := CoveringChunks(l, off, len);
            && ExpandRange(l, data, first, last + 1).Ok?
            && Inside(ExpandRange(l, data, first, last + 1).value, ExpandRange(l, data, 0, |l.sizes|).value,
                      SkipInChunk(off, l.chunkSize), off, len)
  {
    hide ExpandRange, NumChunks;
    var n := |l.sizes|;
    var first, last := off / l.chunkSize, (off + len - 1) / l.chunkSize;
    FirstToLast(off, off + len - 1, l.chunkSize);
    ChunkOf(l.total, l.chunkSize, off + len - 1);
    ExpandRangeSplit(l, data, 0, first, n);
    ExpandRangeSplit(l, data, first, last + 1, n);
    ExpandRangeLength(l, data, 0, n);
    ExpandRangeLength(l, data, 0, first);
    ExpandRangeLength(l, data, first, last + 1);
    SliceOfMiddle(ExpandRange(l, data, 0, first).value, ExpandRange(l, data, first, last + 1).value,
                  ExpandRange(l, data, last + 1, n).value, ExpandRange(l, data, 0, n).value, off, len);
  }

  predicate Inside(part: seq<Byte>, whole: seq<Byte>, skip: nat, off: nat, len: nat) {
    skip + len <= |part| && off + len <= |whole| && part[skip..skip + len] == whole[off..off + len]
  }

  /** An empty chunk decodes to nothing, so the output falls short by its whole plaintext. */
  lemma {:induction false} EmptyChunkShort(l: Layout, data: seq<Byte>, j: nat)
    requires ValidLayout(l) && j <= |l.sizes| && ExpandRange(l, data, 0, j).Ok?
    ensures |ExpandRange(l, data, 0, j).value| <= PlainStart(l, j)
    ensures (exists i :: 0 <= i < j && l.sizes[i] == 0) ==> |ExpandRange(l, data, 0, j).value| < PlainStart(l, j)
  {
    if j > 0 {
      EmptyChunkShort(l, data, j - 1);
      PlainStartStep(l, j - 1);
      ChunkCount(l.total, l.chunkSize);
      var start, end := Offset(l.sizes, j - 1), Offset(l.sizes, j);
      var chunk, plain := data[start..end], PlainLen(l.total, l.chunkSize, j - 1, |l.sizes|);
      ExpandedLength(chunk, plain);
    }
  }

  lemma {:induction false} ExpandedLength(chunk: seq<Byte>, plainLen: nat)
    requires ExpandChunk(chunk, plainLen).Ok? && plainLen > 0
    ensures |ExpandChunk(chunk, plainLen).value| == if |chunk| == 0 then 0 else plainLen
  {
  }

  predicate ReadsSlice(resource: seq<Byte>, out: seq<Byte>, off: nat, len: nat) {
    off + len <= |out| && DecodeSolidRange(resource, off, len) == Ok(out[off..off + len])
  }

  /** Random access is exact on all ranges if and only if the table lists no empty chunk. */
  lemma {:induction false} RangeAgreesExactly(resource: seq<Byte>)
    requires |resource| < 0x1_0000_0000_0000_0000 && DecodeSolid(resource).Ok?
    requires ParseLayout(resource).Ok? && ParseLayout(resource).value.total > 0
    ensures var l := ParseLayout(resource).value;
            NoEmptyChunk(l.sizes) <==>
            forall off: nat, len: nat ::
              len > 0 && off + len <= l.total ==> ReadsSlice(resource, DecodeSolid(resource).value, off, len)
  {
    hide ParseLayout, DecodeSolid, ExpandRange, LeValue, NumChunks, DecodeSolidRange;
    var l, out := ParseLayout(resource).value, DecodeSolid(resource).value;
    if NoEmptyChunk(l.sizes) {
      forall off: nat, len: nat | len > 0 && off + len <= l.total ensures ReadsSlice(resource, out, off, len) {
        RangeAgrees(resource, off, len);
      }
    } else {
      SameLayout(resource);
      EmptyChunkShort(l, resource[HEADER_SIZE + 4 * |l.sizes|..], |l.sizes|);
      assert !ReadsSlice(resource, out, 0, l.total);
    }
  }

  // --- Resources with a table of chunk offsets ---

  /** Table entries are 8 bytes wide when the resource itself needs more than 32 bits of offset. */
  function EntryBytes(len: nat): nat {
    if len >= 0x1_0000_0000 then 8 else 4
  }

  /** Chunk starts: 0, the table entries, and the end of the chunk data. */
  function ReadStarts(resource: seq<Byte>, width: nat, n: nat): (starts: seq<nat>)
    requires n >= 1 && (n - 1) * width <= |resource|
    ensures |starts| == n + 1
  {
    [0] + seq(n - 1, i requires 0 <= i < n - 1 => EntryAt(resource, width, n - 1, i))
    + [|resource| - (n - 1) * width]
  }

  function EntryAt(resource: seq<Byte>, width: nat, count: nat, i: nat): nat
    requires i < count && count * width <= |resource|
  {
    MulMonotone(width, i + 1, count);
    Distribute(i, 1, width);
    LeValue(resource[i * width..i * width + width])
  }

  function ExpandBetween(starts: seq<nat>, data: seq<Byte>, total: nat, size: nat, j: nat): Result<seq<Byte>>
    requires size > 0 && j < |starts|
  {
    if j == 0 then Ok([])
    else
      match ExpandBetween(starts, data, total, size, j - 1)
      case Err(e) => Err(e)
      case Ok(front) =>
        if starts[j] < starts[j - 1] || starts[j] > |data| then Err(BadFraming)
        else
          match ExpandChunk(data[starts[j - 1]..starts[j]], PlainLen(total, size, j - 1, |starts| - 1))
          case Err(e) => Err(e)
          case Ok(last) => Ok(front + last)
  }

  /** Decode a non-solid resource; chunk size and total length come from outside. */
  function DecodeResource(resource: seq<Byte>, size: nat, total: nat): Result<seq<Byte>> {
    if total == 0 then Ok([])
    else if size == 0 then Err(BadFraming)
    else
      ChunkCount(total, size);
      var n, width := NumChunks(total, size), EntryBytes(|resource|);
      var tableBytes: nat := (n - 1) * width;
      if tableBytes > |resource| then Err(BadFraming)
      else ExpandBetween(ReadStarts(resource, width, n), resource[tableBytes..], total, size, n)
  }

  /** With starts that add up the sizes, both framings decode alike. */
  lemma {:induction false} BetweenIsRange(l: Layout, starts: seq<nat>, data: seq<Byte>, j: nat)
    requires ValidLayout(l) && |starts| == |l.sizes| + 1 && j <= |l.sizes|
    requires forall i :: 0 <= i <= |l.sizes| ==> starts[i] == Offset(l.sizes, i) && starts[i] <= |data|
    ensures ExpandBetween(starts, data, l.total, l.chunkSize, j) == ExpandRange(l, data, 0, j)
  {
    if j > 0 {
      BetweenIsRange(l, starts, data, j - 1);
      assert starts[j] == Offset(l.sizes, j) && starts[j - 1] == Offset(l.sizes, j - 1);
    }
  }
}
