/** The symbols and fields of a patch in numbers. */
module LzxWire {
  import opened Powers
  import opened LsbBits
  import opened Rift
  import opened CanonicalCode
  import opened BitWriting
  import opened MatchCoding
  import opened LengthCoding
  import opened IntCoding

  // --- Copies ---

  /** The main symbol of a copy: eight for every offset slot, of which the first is for lengths above 8. */
  lemma {:induction false} CopySymbol(raw: nat, length: nat)
    requires Writable(raw, length)
    ensures var slot := CodeOffset(raw).slot;
            MainSymbol(raw, length) == 256 + 8 * slot + (if length <= 8 then length - 1 else 0)
  {
  }

  /** The slots: three sizes of signed differences, the mapped place, three recent distances, the distances 1 to 3, and
      two for every power of two. */
  lemma {:induction false} OffsetSlots(raw: nat)
    ensures var o := CodeOffset(raw);
            && (o.slot == 0 <==> 0x2_8000 <= raw < 0x2_C000) && (o.slot == 0 ==> o.width == 14)
            && (o.slot == 1 <==> (0x2_0000 <= raw < 0x2_8000) || (0x2_C000 <= raw < 0x3_4000))
            && (o.slot == 1 ==> o.width == 16)
            && (o.slot == 2 <==> raw < 0x2_0000 || (0x3_4000 <= raw < 0x5_4000)) && (o.slot == 2 ==> o.width == 18)
            && (o.slot == 3 <==> raw == 0x5_4000)
            && (o.slot in {4, 5, 6} <==> 0x5_4001 <= raw <= 0x5_4003)
            && (o.slot in {4, 5, 6} ==> raw == 0x5_4001 + (o.slot - 4))
  {
    hide AdjOf, BandFirst;
    if raw >= RAW_BASE + 4 {
      AdjInBand(raw - RAW_BASE);
    }
  }

  /** A plain distance: its slot tells the two highest bits and how many follow. */
  lemma {:induction false} DistanceSlots(dist: nat, half: nat)
    requires dist >= 4 && half >= 1
    ensures var o := CodeOffset(0x5_4003 + dist);
            && (o.slot == 9 + 2 * half <==> 2 * Pow2(half) <= dist < 3 * Pow2(half))
            && (o.slot == 10 + 2 * half <==> 3 * Pow2(half) <= dist < 4 * Pow2(half))
            && (o.slot in {9 + 2 * half, 10 + 2 * half} ==>
                  if half < 4 then o.width == half && o.low.None? else o.width == half - 4 && o.low == Some(dist % 16))
  {
    hide AdjOf, Pow2;
    AdjInBand(dist);
    var adj := AdjOf(dist);
    HalfBands(half, dist);
    if InBand(dist, 2 * half + 2) {
      AdjIs(dist, 2 * half + 2);
    }
    if InBand(dist, 2 * half + 3) {
      AdjIs(dist, 2 * half + 3);
    }
  }

  lemma {:induction false} HalfBands(half: nat, d: nat)
    requires half >= 1
    ensures InBand(d, 2 * half + 2) <==> 2 * Pow2(half) <= d < 3 * Pow2(half)
    ensures InBand(d, 2 * half + 3) <==> 3 * Pow2(half) <= d < 4 * Pow2(half)
  {
    hide Pow2;
    assert (2 * half + 2) / 2 - 1 == half && (2 * half + 2) % 2 == 0;
    assert (2 * half + 3) / 2 - 1 == half && (2 * half + 3) % 2 == 1;
  }

  /** Lengths up to 8 need nothing else; up to 263 one symbol; beyond that a number after symbol 0. */
  lemma {:induction false} LengthSymbols(length: nat)
    requires length >= 9
    ensures LengthSymbol(length) == if length <= 263 then length - 8 else 0
  {
  }

  // --- Code lengths ---

  /** Six small changes: one to three more, one to three less. */
  lemma {:induction false} SmallChanges(was: nat)
    requires 3 <= was < 0xFD
    ensures Changed(was, 0) == was + 1 && Changed(was, 1) == was + 2 && Changed(was, 2) == was + 3
    ensures Changed(was, 3) == was - 1 && Changed(was, 4) == was - 2 && Changed(was, 5) == was - 3
  {
  }

  /** Runs of 1, 2 or 3, or of a number between a power of two and the next, up to 127. */
  lemma {:induction false} RunLengths(l: LengthSym)
    requires ValidSym(l) && l.sym >= 23
    ensures var slot, n := (l.sym - 23) % 8, RunCount(l);
            && (slot < 3 ==> n == slot + 1)
            && (slot == 3 ==> 4 <= n < 8) && (slot == 4 ==> 8 <= n < 16) && (slot == 5 ==> 16 <= n < 32)
            && (slot == 6 ==> 32 <= n < 64) && (slot == 7 ==> 64 <= n < 128)
  {
    assert Pow2(2) == 4 && Pow2(4) == 16;
  }

  /** The symbols of a length list: a length, a change of the old one, a repetition of the last one, or old ones
      again. */
  lemma {:induction false} SymbolsMean(done: seq<nat>, l: LengthSym, prev: seq<nat>)
    requires |prev| == TOTAL_LENGTHS && ValidSym(l) && LengthCoding.Extend(done, l, prev).Some?
    ensures var i, r := |done|, LengthCoding.Extend(done, l, prev).value;
            && done <= r
            && (l.sym <= 16 ==> |r| == i + 1 && r[i] == l.sym)
            && (17 <= l.sym < 23 ==> |r| == i + 1 && r[i] == Changed(prev[i], l.sym - 17))
            && (l.sym >= 23 ==> |r| == i + RunCount(l))
            && (23 <= l.sym < 31 ==> i > 0 && forall k: nat :: i <= k < |r| ==> r[k] == done[i - 1])
            && (l.sym >= 31 ==> forall k: nat :: i <= k < |r| ==> r[k] == prev[k])
  {
    hide Changed, RunCount;
  }

  // --- Numbers ---

  /** Symbols 0 to 125 for numbers from 0 up, 126 to 251 for those from -1 down. */
  lemma {:induction false} NumberSymbols(v: I64)
    ensures v >= 0 ==> ValueCode(v).sym < 126 && (v <= 3 ==> ValueCode(v).sym == v)
    ensures v < 0 ==> 126 <= ValueCode(v).sym < 252
    ensures -4 <= v < 0 ==> var x: int := v; ValueCode(v).sym == 125 - x
    ensures v < 0 ==>
              var x: int := v; var twin: I64 := -x - 1;
              ValueCode(v) == IntCode(ValueCode(twin).sym + 126, ValueCode(twin).extra, ValueCode(twin).width)
  {
    hide AdjOf, BandFirst;
    ValueCodeFits(v);
  }

  /** A 64-bit number: zeros for the four-bit groups above the lowest one, a 1, and then the groups, lowest bit first.
      */
  lemma {:induction false} GroupedNumber(v: nat, groups: nat, k: nat)
    requires groups >= 1 && v < Pow2(4 * groups) && (groups > 1 ==> Pow2(4 * (groups - 1)) <= v) && k < 4 * groups
    ensures var bits := I64Bits(v);
            && |bits| == 5 * groups && (forall i: nat :: i < groups - 1 ==> bits[i] == 0) && bits[groups - 1] == 1
            && bits[groups + k] == v / Pow2(k) % 2
  {
    hide Pow2, ToLsb;
    NibblesAre(v, groups);
    ToLsbDigit(v, 4 * groups, k);
  }

  lemma {:induction false} NibblesAre(v: nat, groups: nat)
    requires groups >= 1 && v < Pow2(4 * groups) && (groups > 1 ==> Pow2(4 * (groups - 1)) <= v)
    ensures Nibbles(v) == groups - 1
  {
    if v > 0 {
      Log2Below(v, 4 * groups);
      if groups > 1 {
        Log2AtLeast(v, 4 * (groups - 1));
      }
    }
  }
}
