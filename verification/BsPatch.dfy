/** The block patch format: differences to be added to the source, literal bytes, and a jump in the source. */
module BsPatch {
  import opened Powers
  import opened RangeCoding
  import opened LsbBits
  import opened Rift
  import opened CanonicalCode

  const MAX_TARGET := 0x400_0000
  const MAX_CONTROL := 0x7FFF_FFFF

  // --- Control values: magnitude and sign ---

  function SignedBytes(v: I64): (bs: seq<Byte>)
    ensures |bs| == 8
  {
    var x: int := v;
    var m: nat := if x < 0 then -x else x;
    LeBytes(m, 7) + [m / 0x100_0000_0000_0000 % 0x80 + if v < 0 then 0x80 else 0]
  }

  function SignedValue(bs: seq<Byte>): (v: I64)
    requires |bs| == 8
  {
    var low := LeValue(bs[..7]) % 0x100_0000_0000_0000;
    var m: int := bs[7] % 0x80 * 0x100_0000_0000_0000 + low;
    if bs[7] >= 0x80 then -m else m
  }

  lemma {:induction false} SevenBytes(m: nat)
    ensures LeValue(LeBytes(m, 7)) == m % 0x100_0000_0000_0000
  {
    var q, r := m / 0x100_0000_0000_0000, m % 0x100_0000_0000_0000;
    assert Pow2(56) == 0x100_0000_0000_0000 by { FiftySix(); }
    LeReadBack(r, 7);
    LeBytesLow(m, 7);
  }

  lemma {:induction false} FiftySix()
    ensures Pow2(56) == 0x100_0000_0000_0000
  {
    Pow2Add(32, 24);
    Pow2Add(16, 8);
    PowerTable();
  }

  /** `n` bytes hold a number modulo 2^(8n). */
  lemma {:induction false} LeBytesLow(v: nat, n: nat)
    ensures Pow2(8 * n) > 0 && LeBytes(v, n) == LeBytes(v % Pow2(8 * n), n)
  {
    if n > 0 {
      var p := Pow2(8 * (n - 1));
      Pow2Add(8 * (n - 1), 8);
      PowerTable();
      var w := v % (p * 0x100);
      LowByte(v, p);
      LeBytesLow(v / 0x100, n - 1);
    }
  }

  lemma {:induction false} LowByte(v: nat, p: nat)
    requires p > 0
    ensures v % (p * 0x100) % 0x100 == v % 0x100 && v % (p * 0x100) / 0x100 == v / 0x100 % p
  {
    var b, q := v % 0x100, v / 0x100;
    var c, d := q % p, q / p;
    assert q == d * p + c;
    assert v == d * (p * 0x100) + (c * 0x100 + b) by {
      assert v == q * 0x100 + b;
      assert (d * p + c) * 0x100 == d * (p * 0x100) + c * 0x100;
    }
    MulMonotone(0x100, c, p - 1);
    DivUnique(v, p * 0x100, d, c * 0x100 + b);
    DivUnique(c * 0x100 + b, 0x100, c, b);
  }

  /** Every number but the lowest is read back; its magnitude has no room. */
  lemma {:induction false} SignedReadBack(v: I64)
    ensures SignedValue(SignedBytes(v)) == v <==> v != MIN64
  {
    hide LeBytes, LeValue;
    var x: int := v;
    var m: nat := if x < 0 then -x else x;
    var bs := SignedBytes(v);
    assert bs[..7] == LeBytes(m, 7);
    SevenBytes(m);
  }

  // --- Blocks and what they make ---

  datatype Block = Block(diff: seq<Byte>, extra: seq<Byte>, seek: I64)

  predicate FitBlock(b: Block) {
    |b.diff| <= MAX_CONTROL && |b.extra| <= MAX_CONTROL && b.seek != MIN64
  }

  predicate FitBlocks(blocks: seq<Block>) {
    forall k :: 0 <= k < |blocks| ==> FitBlock(blocks[k])
  }

  function BlockBytes(b: Block): seq<Byte>
    requires FitBlock(b)
  {
    SignedBytes(|b.diff|) + SignedBytes(|b.extra|) + SignedBytes(b.seek) + b.diff + b.extra
  }

  function BlocksBytes(blocks: seq<Block>): seq<Byte>
    requires FitBlocks(blocks)
  {
    if |blocks| > 0 then BlockBytes(blocks[0]) + BlocksBytes(blocks[1..]) else []
  }

  /** Outside the source everything is 0. */
  function SourceAt(source: seq<Byte>, p: int): Byte {
    if 0 <= p < |source| then source[p] else 0
  }

  function Added(source: seq<Byte>, from: I64, diff: seq<Byte>): (r: seq<Byte>)
    ensures |r| == |diff|
  {
    seq(|diff|, i requires 0 <= i < |diff| => (diff[i] + SourceAt(source, Wrap(from + i))) % 0x100)
  }

  function Difference(source: seq<Byte>, from: I64, bytes: seq<Byte>): (r: seq<Byte>)
    ensures |r| == |bytes|
  {
    seq(|bytes|, i requires 0 <= i < |bytes| =>
      var b: int := bytes[i];
      (b - SourceAt(source, Wrap(from + i))) % 0x100)
  }

  lemma {:induction false} DifferenceAddsBack(source: seq<Byte>, from: I64, bytes: seq<Byte>)
    ensures Added(source, from, Difference(source, from, bytes)) == bytes
  {
  }

  function Moved(from: I64, b: Block): I64 {
    Wrap(from + b.seek + |b.diff|)
  }

  function PlayBlocks(source: seq<Byte>, from: I64, blocks: seq<Block>): seq<Byte>
    decreases |blocks|
  {
    if |blocks| > 0 then
      Added(source, from, blocks[0].diff) + blocks[0].extra + PlayBlocks(source, Moved(from, blocks[0]), blocks[1..])
    else []
  }

  // --- Applying a patch ---

  function Control(patch: seq<Byte>, i: nat): I64
    requires 8 * i + 8 <= |patch|
  {
    SignedValue(patch[8 * i..8 * i + 8])
  }

  predicate UsableBlock(patch: seq<Byte>, room: nat)
    requires |patch| >= 24
  {
    var add, insert := Control(patch, 0), Control(patch, 1);
    && 0 <= add <= MAX_CONTROL && 0 <= insert <= MAX_CONTROL
    && add + insert <= room && 24 + add + insert <= |patch|
  }

  /** The rest of the target from the rest of the patch, if every block fits. */
  function Apply(source: seq<Byte>, room: nat, from: I64, patch: seq<Byte>): (r: Option<seq<Byte>>)
    ensures r.Some? ==> |r.value| == room
    decreases |patch|
  {
    if room == 0 then Some([])
    else if |patch| < 24 || !UsableBlock(patch, room) then None
    else
      var add, insert := Control(patch, 0), Control(patch, 1);
      var b := Block(patch[24..24 + add], patch[24 + add..24 + add + insert], Control(patch, 2));
      var rest := Apply(source, room - add - insert, Moved(from, b), patch[24 + add + insert..]);
      if rest.None? then None else Some(Added(source, from, b.diff) + b.extra + rest.value)
  }

  lemma {:induction false} BlockParts(b: Block, more: seq<Byte>)
    requires FitBlock(b)
    ensures var patch := BlockBytes(b) + more;
            var n, m := |b.diff|, |b.extra|;
            && |patch| == 24 + n + m + |more| && Control(patch, 0) == n && Control(patch, 1) == m
            && Control(patch, 2) == b.seek && patch[24..24 + n] == b.diff && patch[24 + n..24 + n + m] == b.extra
            && patch[24 + n + m..] == more
  {
    hide SignedBytes, SignedValue;
    var patch := BlockBytes(b) + more;
    SignedReadBack(|b.diff|);
    SignedReadBack(|b.extra|);
    SignedReadBack(b.seek);
    assert patch[0..8] == SignedBytes(|b.diff|);
    assert patch[8..16] == SignedBytes(|b.extra|);
    assert patch[16..24] == SignedBytes(b.seek);
  }

  /** Applying a written patch plays its blocks. */
  lemma {:induction false} ApplyBlocks(source: seq<Byte>, from: I64, blocks: seq<Block>)
    requires FitBlocks(blocks)
    ensures var target := PlayBlocks(source, from, blocks);
            Apply(source, |target|, from, BlocksBytes(blocks)) == Some(target)
    decreases |blocks|
  {
    hide Control, BlockBytes, Added, Moved;
    var target := PlayBlocks(source, from, blocks);
    if |blocks| > 0 && |target| > 0 {
      var b := blocks[0];
      var more := BlocksBytes(blocks[1..]);
      BlockParts(b, more);
      ApplyBlocks(source, Moved(from, b), blocks[1..]);
    }
  }

  lemma {:induction false} BlocksNext(blocks: seq<Block>, b: Block)
    requires FitBlocks(blocks) && FitBlock(b)
    ensures FitBlocks(blocks + [b]) && BlocksBytes(blocks + [b]) == BlocksBytes(blocks) + BlockBytes(b)
  {
    hide BlockBytes;
    if |blocks| == 0 {
      assert blocks + [b] == [b] && [b][1..] == [];
    } else {
      assert (blocks + [b])[1..] == blocks[1..] + [b];
      BlocksNext(blocks[1..], b);
    }
  }

  /** Where the source is read after the blocks. */
  function EndOf(from: I64, blocks: seq<Block>): I64
    decreases |blocks|
  {
    if |blocks| > 0 then EndOf(Moved(from, blocks[0]), blocks[1..]) else from
  }

  lemma {:induction false} PlayNext(source: seq<Byte>, from: I64, blocks: seq<Block>, b: Block)
    ensures PlayBlocks(source, from, blocks + [b])
            == PlayBlocks(source, from, blocks) + (Added(source, EndOf(from, blocks), b.diff) + b.extra)
    ensures EndOf(from, blocks + [b]) == Moved(EndOf(from, blocks), b)
    decreases |blocks|
  {
    hide Added, Moved;
    if |blocks| == 0 {
      assert blocks + [b] == [b] && [b][1..] == [];
    } else {
      assert (blocks + [b])[1..] == blocks[1..] + [b];
      PlayNext(source, Moved(from, blocks[0]), blocks[1..], b);
    }
  }

  // --- The program ---

  method AddBytes(source: seq<Byte>, from: I64, diff: seq<Byte>, target: array<Byte>, at: nat)
    requires at + |diff| <= target.Length
    modifies target
    ensures target[..at] == old(target[..at]) && target[at..at + |diff|] == Added(source, from, diff)
  {
    for i := 0 to |diff|
      invariant target[..at] == old(target[..at])
      invariant forall j :: 0 <= j < i ==> target[at + j] == Added(source, from, diff)[j]
    {
      target[at + i] := (diff[i] + SourceAt(source, Wrap(from + i))) % 0x100;
    }
  }

  method CopyBytes(bytes: seq<Byte>, target: array<Byte>, at: nat)
    requires at + |bytes| <= target.Length
    modifies target
    ensures target[..at] == old(target[..at]) && target[at..at + |bytes|] == bytes
  {
    for i := 0 to |bytes|
      invariant target[..at] == old(target[..at])
      invariant forall j :: 0 <= j < i ==> target[at + j] == bytes[j]
    {
      target[at + i] := bytes[i];
    }
  }

  function Prepend(front: seq<Byte>, r: Option<seq<Byte>>): Option<seq<Byte>> {
    match r
    case None => None
    case Some(s) => Some(front + s)
  }

  lemma {:induction false} PrependTwice(a: seq<Byte>, b: seq<Byte>, r: Option<seq<Byte>>)
    ensures Prepend(a, Prepend(b, r)) == Prepend(a + b, r) && Prepend([], r) == r
  {
    if r.Some? {
      assert a + (b + r.value) == a + b + r.value && [] + r.value == r.value;
    }
  }

  function BlockAt(patch: seq<Byte>, room: nat): Block
    requires |patch| >= 24 && UsableBlock(patch, room)
  {
    var add, insert := Control(patch, 0), Control(patch, 1);
    Block(patch[24..24 + add], patch[24 + add..24 + add + insert], Control(patch, 2))
  }

  /** One block, and the rest of the patch. */
  lemma {:induction false} ApplyStep(source: seq<Byte>, room: nat, from: I64, patch: seq<Byte>)
    requires room > 0
    ensures Apply(source, room, from, patch) ==
            if |patch| < 24 || !UsableBlock(patch, room) then None
            else
              var b := BlockAt(patch, room);
              Prepend(Added(source, from, b.diff) + b.extra,
                      Apply(source, room - |b.diff| - |b.extra|, Moved(from, b), patch[24 + |b.diff| + |b.extra|..]))
  {
    hide Control, Added, Moved;
  }

  /** One block into the target: differences, then literal bytes. */
  method PutBlock(source: seq<Byte>, from: I64, b: Block, target: array<Byte>, at: nat)
    requires at + |b.diff| + |b.extra| <= target.Length
    modifies target
    ensures target[..at + |b.diff| + |b.extra|] == old(target[..at]) + (Added(source, from, b.diff) + b.extra)
  {
    hide Added;
    AddBytes(source, from, b.diff, target, at);
    ghost var middle := target[..at + |b.diff|];
    assert middle == target[..at] + target[at..at + |b.diff|];
    CopyBytes(b.extra, target, at + |b.diff|);
    var end := at + |b.diff| + |b.extra|;
    assert target[..end] == target[..at + |b.diff|] + target[at + |b.diff|..end];
  }

  /** The target is filled in place, block by block. */
  method Bspatch(source: seq<Byte>, size: nat, patch: seq<Byte>) returns (r: Option<seq<Byte>>)
    ensures r == if size > MAX_TARGET then None else Apply(source, size, 0, patch)
  {
    hide Added, Moved, Control, Apply, Prepend, UsableBlock, BlockAt;
    if size > MAX_TARGET {
      return None;
    }
    var target := new Byte[size](_ => 0);
    var pos: nat, from: I64, at: nat := 0, 0, 0;
    ghost var goal := Apply(source, size, 0, patch);
    PrependTwice([], [], goal);
    assert patch[0..] == patch && target[..0] == [];
    while at < size
      invariant at <= size && pos <= |patch|
      invariant goal == Prepend(target[..at], Apply(source, size - at, from, patch[pos..]))
      decreases |patch| - pos
    {
      var here := patch[pos..];
      ApplyStep(source, size - at, from, here);
      if |here| < 24 || !UsableBlock(here, size - at) {
        NoTarget(target[..at]);
        return None;
      }
      BlockFits(here, size - at);
      var b := BlockAt(here, size - at);
      ghost var before := target[..at];
      var used := 24 + |b.diff| + |b.extra|;
      PrependTwice(before, Added(source, from, b.diff) + b.extra,
                   Apply(source, size - at - |b.diff| - |b.extra|, Moved(from, b), here[used..]));
      PutBlock(source, from, b, target, at);
      assert here[used..] == patch[pos + used..];
      from := Moved(from, b);
      pos, at := pos + used, at + |b.diff| + |b.extra|;
    }
    TargetFull(source, target[..at], from, patch[pos..]);
    assert target[..at] == target[..];
    r := Some(target[..]);
  }

  lemma {:induction false} NoTarget(front: seq<Byte>)
    ensures Prepend(front, None) == None
  {
  }

  lemma {:induction false} TargetFull(source: seq<Byte>, front: seq<Byte>, from: I64, patch: seq<Byte>)
    ensures Prepend(front, Apply(source, 0, from, patch)) == Some(front)
  {
    assert front + [] == front;
  }

  lemma {:induction false} BlockFits(patch: seq<Byte>, room: nat)
    requires |patch| >= 24 && UsableBlock(patch, room)
    ensures var b := BlockAt(patch, room);
            |b.diff| + |b.extra| <= room && 24 + |b.diff| + |b.extra| <= |patch|
  {
  }

  // --- What a patch does to the source ---

  /** Two bytes of a number, the lower one first. */
  function Pair(lo: nat, hi: nat): nat {
    lo + 0x100 * hi
  }

  /** Sign and magnitude: the lowest byte first, the sign in the highest bit of the last. */
  lemma {:induction false} SignedMeaning(bs: seq<Byte>)
    requires |bs| == 8
    ensures var m: int := Pair(bs[0], bs[1]) + 0x1_0000 * Pair(bs[2], bs[3])
                          + 0x1_0000_0000 * (Pair(bs[4], bs[5]) + 0x1_0000 * Pair(bs[6], bs[7] % 0x80));
            SignedValue(bs) == if bs[7] >= 0x80 then -m else m
  {
    hide LeValue, Pair;
    var b := bs[..7];
    SevenValue(b);
    SevenBelow(b[0], b[1], b[2], b[3], b[4], b[5], b[6]);
    TopByte(bs[6], bs[7] % 0x80, Pair(b[0], b[1]) + 0x1_0000 * Pair(b[2], b[3]), Pair(b[4], b[5]));
  }

  lemma {:induction false} TopByte(b6: nat, top: nat, low: nat, mid: nat)
    ensures low + 0x1_0000_0000 * (mid + 0x1_0000 * b6) + top * 0x100_0000_0000_0000
            == low + 0x1_0000_0000 * (mid + 0x1_0000 * Pair(b6, top))
  {
  }

  lemma {:induction false} SevenBelow(a: nat, b: nat, c: nat, d: nat, e: nat, f: nat, g: nat)
    requires a < 0x100 && b < 0x100 && c < 0x100 && d < 0x100 && e < 0x100 && f < 0x100 && g < 0x100
    ensures Pair(a, b) + 0x1_0000 * Pair(c, d) + 0x1_0000_0000 * (Pair(e, f) + 0x1_0000 * g) < 0x100_0000_0000_0000
  {
  }

  lemma {:induction false} SevenValue(b: seq<Byte>)
    requires |b| == 7
    ensures LeValue(b) == Pair(b[0], b[1]) + 0x1_0000 * Pair(b[2], b[3])
                          + 0x1_0000_0000 * (Pair(b[4], b[5]) + 0x1_0000 * (b[6] as int))
  {
    hide LeValue;
    PairValue(b);
    PairValue(b[2..]);
    PairValue(b[4..]);
    assert b[2..][2..] == b[4..] && b[4..][2..] == b[6..];
    OneValue(b[6..]);
  }

  lemma {:induction false} PairValue(b: seq<Byte>)
    requires |b| >= 2
    ensures LeValue(b) == Pair(b[0], b[1]) + 0x1_0000 * LeValue(b[2..])
  {
    assert b[1..][1..] == b[2..];
  }

  lemma {:induction false} OneValue(b: seq<Byte>)
    requires |b| == 1
    ensures LeValue(b) == b[0]
  {
    assert b[1..] == [];
  }

  /** The first block: its differences are added to the source, and its literal bytes follow. */
  lemma {:induction false} FirstBlock(source: seq<Byte>, room: nat, from: I64, patch: seq<Byte>, k: nat)
    requires room > 0 && |patch| >= 24 && Apply(source, room, from, patch).Some? && UsableBlock(patch, room)
    ensures var target, add, insert := Apply(source, room, from, patch).value, Control(patch, 0), Control(patch, 1);
            && (k < add && from + k <= MAX64 ==>
                  target[k] == if 0 <= from + k < |source| then ByteSum(patch[24 + k], source[from + k])
                               else patch[24 + k])
            && (k < insert ==> target[add + k] == patch[24 + add + k])
  {
    hide Control, Moved, Added, Apply;
    var b := BlockAt(patch, room);
    ApplyStep(source, room, from, patch);
    AddedAt(source, from, b.diff, k);
  }

  function ByteSum(a: int, b: int): int {
    (a + b) % 0x100
  }

  /** The block `b` after the blocks `front`: it reads the source where the jumps and differences before it lead. */
  function Travelled(front: seq<Block>): int {
    if |front| > 0 then Travelled(front[..|front| - 1]) + |front[|front| - 1].diff| + front[|front| - 1].seek else 0
  }

  function Produced(front: seq<Block>): nat {
    if |front| > 0 then Produced(front[..|front| - 1]) + |front[|front| - 1].diff| + |front[|front| - 1].extra| else 0
  }

  lemma {:induction false} EndIsTravelled(front: seq<Block>, source: seq<Byte>)
    ensures EndOf(0, front) == Wrap(Travelled(front)) && |PlayBlocks(source, 0, front)| == Produced(front)
  {
    hide Wrap, Added;
    if |front| > 0 {
      var n := |front| - 1;
      EndIsTravelled(front[..n], source);
      PlayNext(source, 0, front[..n], front[n]);
      assert front == front[..n] + [front[n]];
      WrapAdd(Travelled(front[..n]), front[n].seek + |front[n].diff|);
    }
  }

  lemma {:induction false} PlayConcat(source: seq<Byte>, from: I64, a: seq<Block>, b: seq<Block>)
    ensures PlayBlocks(source, from, a + b) == PlayBlocks(source, from, a) + PlayBlocks(source, EndOf(from, a), b)
    decreases |a|
  {
    hide Added, Moved;
    if |a| == 0 {
      assert a + b == b;
    } else {
      assert (a + b)[1..] == a[1..] + b;
      PlayConcat(source, Moved(from, a[0]), a[1..], b);
    }
  }

  /** Any byte of any block of a patch that `Bscreate` writes or `Bspatch` plays, in terms of the source itself. */
  lemma {:induction false} PlayedByte(source: seq<Byte>, front: seq<Block>, b: Block, back: seq<Block>, k: nat)
    requires MIN64 <= Travelled(front) <= MAX64 - |b.diff|
    ensures var target, at, from := PlayBlocks(source, 0, front + [b] + back), Produced(front), Travelled(front);
            && |target| >= at + |b.diff| + |b.extra|
            && (k < |b.diff| ==>
                  target[at + k]
                  == if 0 <= from + k < |source| then ByteSum(b.diff[k], source[from + k]) else b.diff[k])
            && (k < |b.extra| ==> target[at + |b.diff| + k] == b.extra[k])
  {
    hide Moved, Wrap, EndOf, Travelled, Produced;
    EndIsTravelled(front, source);
    PlayConcat(source, 0, front, [b] + back);
    assert front + [b] + back == front + ([b] + back);
    var from := Travelled(front);
    assert ([b] + back)[0] == b && ([b] + back)[1..] == back;
    PlayOne(source, Wrap(from), b, back);
    AddedAt(source, Wrap(from), b.diff, k);
  }

  lemma {:induction false} PlayOne(source: seq<Byte>, from: I64, b: Block, back: seq<Block>)
    ensures PlayBlocks(source, from, [b] + back)
            == Added(source, from, b.diff) + b.extra + PlayBlocks(source, Moved(from, b), back)
  {
    hide Added, Moved;
    assert ([b] + back)[1..] == back;
  }

  lemma {:induction false} AddedAt(source: seq<Byte>, from: I64, diff: seq<Byte>, k: nat)
    ensures k < |diff| && from + k <= MAX64 ==>
              Added(source, from, diff)[k]
              == if 0 <= from + k < |source| then ByteSum(diff[k], source[from + k]) else diff[k]
  {
  }

  /** Zero differences copy the source. */
  lemma {:induction false} ZerosCopy(source: seq<Byte>, room: nat, from: nat, patch: seq<Byte>)
    requires room > 0 && |patch| >= 24 && from <= MAX64 && Apply(source, room, from, patch).Some?
    requires UsableBlock(patch, room) && from + Control(patch, 0) <= |source| <= MAX64
    requires var n := Control(patch, 0); patch[24..24 + n] == seq(n, i => 0)
    ensures var n := Control(patch, 0); Apply(source, room, from, patch).value[..n] == source[from..from + n]
  {
    hide Control;
    var target, n := Apply(source, room, from, patch).value, Control(patch, 0);
    forall k: nat | k < n ensures target[k] == source[from + k] {
      FirstBlock(source, room, from, patch, k);
      assert patch[24..24 + n][k] == patch[24 + k] && from + k < |source|;
    }
  }
}
