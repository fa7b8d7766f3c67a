/** The match finder of the LZMS compressor: recent offsets, hash chains, and a set-associative table of
    difference signatures. Whatever the tables hold, only verified matches are returned. */
module LzmsFinder {
  import opened Powers
  import opened RangeCoding
  import opened SlotTables
  import opened LzmsItems
  import opened LzmsModel
  import opened LzmsCodec
  import opened X86Filter

  const HASH_SIZE := 0x1_0000
  const MAX_STEPS := 32
  const DELTA_HASH_SIZE := 0x2000
  const DELTA_WAYS := 8

  /** `len` bytes from `pos` on equal those `offset` before. */
  predicate LzFits(d: seq<Byte>, pos: nat, offset: nat, len: nat) {
    && 1 <= offset <= pos && pos + len <= |d| && len <= MAX_MATCH_LEN
    && forall k :: pos <= k < pos + len ==> d[k] == d[k - offset]
  }

  predicate DeltaFits(d: seq<Byte>, pos: nat, raw: nat, power: nat, len: nat) {
    && 1 <= raw && power < 8 && pos + len <= |d| && len <= MAX_MATCH_LEN
    && DeltaExplains(d, pos, raw * Pow2(power), Pow2(power), len)
  }

  /** A found match; length 0 stands for none. */
  datatype Found = Found(offset: nat, power: nat, len: nat)

  method MatchLength(d: seq<Byte>, src: nat, dst: nat) returns (len: nat)
    requires src < dst <= |d|
    ensures LzFits(d, dst, dst - src, len)
    ensures len < Min(|d| - dst, MAX_MATCH_LEN) ==> d[src + len] != d[dst + len]
  {
    var max := Min(|d| - dst, MAX_MATCH_LEN);
    len := 0;
    while len < max && d[src + len] == d[dst + len]
      invariant len <= max && LzFits(d, dst, dst - src, len)
    {
      len := len + 1;
    }
  }

  /** How far the differences over `span` bytes repeat at distance `offset`. */
  method DeltaLength(d: seq<Byte>, pos: nat, offset: nat, span: nat) returns (len: nat)
    requires 1 <= offset <= pos <= |d| && 1 <= span
    ensures pos + len <= |d| && len <= MAX_MATCH_LEN
    ensures len > 0 ==> DeltaExplains(d, pos, offset, span, len)
  {
    len := 0;
    while pos + len < |d| && len < MAX_MATCH_LEN
      invariant pos + len <= |d| && len <= MAX_MATCH_LEN
      invariant len > 0 ==> DeltaExplains(d, pos, offset, span, len)
    {
      var p := pos + len;
      var s := p - offset;
      if p < span || s < span {
        break;
      }
      var a: nat, b: nat, c: nat := d[s], d[p - span], d[s - span];
      if (d[p] as nat) != ((a + b) % 0x100 + 0x100 - c) % 0x100 {
        break;
      }
      assert d[p] == DeltaByte(d, p, offset, span);
      len := len + 1;
    }
  }

  function Hash4(d: seq<Byte>, pos: nat): (h: nat)
    requires pos + 4 <= |d|
    ensures h < HASH_SIZE
  {
    Le32(d, pos) * 0x1E35_A7BD % 0x1_0000_0000 / 0x1_0000
  }

  function Xor32(a: nat, b: nat): nat
    requires a < 0x1_0000_0000 && b < 0x1_0000_0000
  {
    ((a as bv32) ^ (b as bv32)) as nat
  }

  function Difference(d: seq<Byte>, i: nat, span: nat): (v: nat)
    requires span <= i < |d|
    ensures v < 0x100
  {
    var a: nat, b: nat := d[i], d[i - span];
    (a + 0x100 - b) % 0x100
  }

  /** Signature of three consecutive differences, mixed with the position modulo `span`. */
  function DeltaSignature(d: seq<Byte>, i: nat, span: nat): (h: nat)
    requires 1 <= span <= i && i + 2 < |d|
    ensures h < DELTA_HASH_SIZE
  {
    var diffs := Difference(d, i, span) + 0x100 * Difference(d, i + 1, span) + 0x1_0000 * Difference(d, i + 2, span);
    var v := Xor32(diffs, i % span * 0x9E37_79B1 % 0x1_0000_0000);
    v * 0x85EB_CA77 % 0x1_0000_0000 / 0x8_0000
  }

  class Finder {
    const head: array<nat>
    const chain: array<nat>
    const deltaHead: array<nat>

    /** The tables refer to positions before `pos` only, and chains lead backwards. */
    ghost predicate Valid(d: seq<Byte>, pos: nat)
      reads head, chain, deltaHead
    {
      && head != chain && chain != deltaHead && head != deltaHead
      && head.Length == HASH_SIZE && chain.Length == |d| && deltaHead.Length == 8 * DELTA_HASH_SIZE * DELTA_WAYS
      && (forall h :: 0 <= h < head.Length ==> head[h] == 0 || head[h] < pos)
      && (forall p :: 0 <= p < chain.Length ==> chain[p] == 0 || chain[p] < p)
      && (forall k :: 0 <= k < deltaHead.Length ==> deltaHead[k] <= pos)
    }

    constructor (d: seq<Byte>)
      ensures Valid(d, 0) && fresh(head) && fresh(chain) && fresh(deltaHead)
    {
      head := new nat[HASH_SIZE](_ => 0);
      chain := new nat[|d|](_ => 0);
      deltaHead := new nat[8 * DELTA_HASH_SIZE * DELTA_WAYS](_ => 0);
    }

    /** The longest match at one of the recent offsets. */
    static method BestRecent(d: seq<Byte>, pos: nat, recent: RecentOffsets) returns (best: Found)
      requires recent.Valid() && pos < |d|
      ensures best.len > 0 ==> best.len >= 2 && LzFits(d, pos, best.offset, best.len)
    {
      best := Found(0, 0, 0);
      for qi := 0 to 4
        invariant best.len > 0 ==> best.len >= 2 && LzFits(d, pos, best.offset, best.len)
      {
        var off := recent.lz[Min(qi + recent.prevType % 2, 3)];
        if 0 < off <= pos {
          var len := MatchLength(d, pos - off, pos);
          if len > best.len && len >= 2 {
            best := Found(off, 0, len);
          }
        }
      }
    }

    /** Improve on `start` along the hash chain, then enter `pos` into it. */
    method BestChained(d: seq<Byte>, pos: nat, start: Found) returns (best: Found)
      requires Valid(d, pos) && pos + 3 < |d|
      requires start.len > 0 ==> LzFits(d, pos, start.offset, start.len)
      modifies head, chain
      ensures Valid(d, pos + 1)
      ensures best.len > 0 ==> LzFits(d, pos, best.offset, best.len)
      ensures best.len >= start.len
    {
      best := start;
      var h := Hash4(d, pos);
      var prev, steps := head[h], 0;
      while prev > 0 && steps < MAX_STEPS
        invariant prev == 0 || prev < pos
        invariant best.len > 0 ==> LzFits(d, pos, best.offset, best.len)
        invariant best.len >= start.len
        decreases MAX_STEPS - steps
        modifies {}
      {
        var len := MatchLength(d, prev, pos);
        if len > best.len {
          best := Found(pos - prev, 0, len);
        }
        prev := chain[prev];
        steps := steps + 1;
      }
      chain[pos] := head[h];
      head[h] := pos;
    }

    /** Probe the bucket of each power for a source whose differences repeat, and enter `pos`. */
    method BestDelta(d: seq<Byte>, pos: nat) returns (best: Found)
      requires Valid(d, pos + 1) && pos + 2 < |d|
      modifies deltaHead
      ensures Valid(d, pos + 1)
      ensures best.len > 0 ==> best.len >= 3 && DeltaFits(d, pos, best.offset, best.power, best.len)
    {
      best := Found(0, 0, 0);
      var power := 0;
      while power < 8 && Pow2(power) <= pos
        invariant power <= 8 && Valid(d, pos + 1)
        invariant best.len > 0 ==> best.len >= 3 && DeltaFits(d, pos, best.offset, best.power, best.len)
      {
        var base := (power * DELTA_HASH_SIZE + DeltaSignature(d, pos, Pow2(power))) * DELTA_WAYS;
        best := ProbeWays(d, pos, power, base, best);
        deltaHead[base + pos % DELTA_WAYS] := pos + 1;
        power := power + 1;
      }
    }

    method ProbeWays(d: seq<Byte>, pos: nat, power: nat, base: nat, start: Found) returns (best: Found)
      requires Valid(d, pos + 1) && pos < |d| && power < 8 && base + DELTA_WAYS <= deltaHead.Length
      requires start.len > 0 ==> start.len >= 3 && DeltaFits(d, pos, start.offset, start.power, start.len)
      ensures best.len > 0 ==> best.len >= 3 && DeltaFits(d, pos, best.offset, best.power, best.len)
    {
      best := start;
      var span := Pow2(power);
      for way := 0 to DELTA_WAYS
        invariant best.len > 0 ==> best.len >= 3 && DeltaFits(d, pos, best.offset, best.power, best.len)
      {
        var cand := deltaHead[base + way];
        if cand == 0 {
          continue;
        }
        var off := pos - (cand - 1);
        if off == 0 || off % span != 0 {
          continue;
        }
        var raw := off / span;
        assert raw * span == off;
        var len := DeltaLength(d, pos, off, span);
        if len > best.len && len >= 3 {
          best := Found(raw, power, len);
        }
      }
    }

    lemma Later(d: seq<Byte>, pos: nat, pos': nat)
      requires Valid(d, pos) && pos <= pos'
      ensures Valid(d, pos')
    {
    }
  }
}
