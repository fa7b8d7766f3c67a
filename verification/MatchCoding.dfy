/** How a copy of the patch codec becomes bits: its main symbol, the verbatim and aligned parts of its offset,
    and its length. Reading undoes writing. */
module MatchCoding {
  import opened Powers
  import opened BitStrings
  import opened LsbBits
  import opened CanonicalCode
  import opened LeftCode
  import opened BitReading
  import opened BitWriting

  const SOURCE_COPY := 0x54000
  const LRU_BASE := 0x54001
  const RAW_BASE := 0x54003
  const OFFSET_BIAS := 0x2A000

  const MAIN_SYMBOLS := 600
  const LENGTH_SYMBOLS := 256
  const ALIGNED_SYMBOLS := 16

  /** The code lengths of one segment. */
  datatype Codes = Codes(main: seq<nat>, lengths: seq<nat>, aligned: seq<nat>)

  predicate FullCodes(c: Codes) {
    && |c.main| == MAIN_SYMBOLS && LeftComplete(c.main)
    && |c.lengths| == LENGTH_SYMBOLS && LeftComplete(c.lengths)
    && |c.aligned| == ALIGNED_SYMBOLS && LeftComplete(c.aligned)
  }

  // --- One symbol ---

  /** The symbol whose code the bits start with. */
  ghost function TakeSymbol(lens: seq<nat>, rest: seq<Bit>): Field {
    if exists s: nat :: LeftDecodes(lens, rest, s) then
      var s: nat :| LeftDecodes(lens, rest, s);
      Field(s, rest[lens[s]..])
    else NoField
  }

  lemma {:induction false} SymbolReadBack(lens: seq<nat>, s: nat, tail: seq<Bit>)
    requires LeftComplete(lens) && s < |lens| && lens[s] > 0
    ensures TakeSymbol(lens, LeftBits(lens, s) + tail) == Field(s, tail)
  {
    hide LeftBits, LeftComplete;
    var rest := LeftBits(lens, s) + tail;
    assert LeftDecodes(lens, rest, s);
    var t: nat :| LeftDecodes(lens, rest, t) && TakeSymbol(lens, rest) == Field(t, rest[lens[t]..]);
    LeftUnique(lens, rest, s, t);
  }

  // --- Distances of 4 and more ---

  /** Each slot number `adj` from 4 on starts a band of 2^(adj/2-1) distances. */
  function BandFirst(adj: nat): nat
    requires adj >= 4
  {
    (2 + adj % 2) * Pow2(adj / 2 - 1)
  }

  predicate InBand(dist: nat, adj: nat) {
    adj >= 4 && BandFirst(adj) <= dist < BandFirst(adj) + Pow2(adj / 2 - 1)
  }

  /** The bands follow each other without a gap; those below 64 hold every 32-bit distance from 4 on. */
  lemma {:induction false} BandsMeet(adj: nat)
    requires adj >= 4
    ensures BandFirst(adj + 1) == BandFirst(adj) + Pow2(adj / 2 - 1)
    ensures BandFirst(4) == 4
  {
    assert Pow2(1) == 2;
    if adj % 2 == 0 {
      assert (adj + 1) / 2 == adj / 2;
    } else {
      assert (adj + 1) / 2 == adj / 2 + 1;
    }
  }

  lemma {:induction false} BandsAscend(a: nat, b: nat)
    requires 4 <= a < b
    ensures BandFirst(a) + Pow2(a / 2 - 1) <= BandFirst(b)
  {
    hide BandFirst;
    BandsMeet(b - 1);
    if a < b - 1 {
      BandsAscend(a, b - 1);
    }
  }

  lemma {:induction false} BandUnique(dist: nat, a: nat, b: nat)
    requires InBand(dist, a) && InBand(dist, b)
    ensures a == b
  {
    hide BandFirst;
    if a < b {
      BandsAscend(a, b);
    } else if b < a {
      BandsAscend(b, a);
    }
  }

  lemma {:induction false} LastBand()
    ensures BandFirst(36) == 0x4_0000 && BandFirst(64) == 0x1_0000_0000
  {
    PowerTable();
    assert Pow2(17) == 2 * Pow2(16);
    assert Pow2(32) == 2 * Pow2(31);
  }

  /** The slot number from the position of the highest bit and the bit below it. */
  function AdjOf(dist: nat): nat
    requires dist >= 4
  {
    var high := Log2(dist);
    2 * high + Shr(dist, high - 1) % 2
  }

  lemma {:induction false} AdjInBand(dist: nat)
    requires dist >= 4
    ensures InBand(dist, AdjOf(dist))
  {
    hide Shr, Log2;
    var high := Log2(dist);
    Log2Bounds(dist);
    Log2AtLeast(dist, 2) by { assert Pow2(2) == 4; }
    var h := Pow2(high - 1);
    ShrIsDiv(dist, high - 1);
    assert Pow2(high) == 2 * h && Pow2(high + 1) == 4 * h;
    DivBounds(dist, h, 2, 4);
    var q, r := dist / h, dist % h;
    assert dist == q * h + r;
    assert AdjOf(dist) / 2 == high && AdjOf(dist) % 2 == q - 2;
    assert (2 + AdjOf(dist) % 2) * h == q * h;
  }

  lemma {:induction false} AdjIs(dist: nat, adj: nat)
    requires dist >= 4 && InBand(dist, adj)
    ensures AdjOf(dist) == adj
  {
    hide InBand, AdjOf;
    AdjInBand(dist);
    BandUnique(dist, adj, AdjOf(dist));
  }

  // --- Offsets ---

  /** The offset part of a copy: slot, verbatim field, and the symbol of the aligned code if it has one. */
  datatype OffsetCode = OffsetCode(slot: nat, extra: nat, width: nat, low: Option<nat>)

  /** Signed differences from the mapped position: three fields of growing width. */
  function CodeSigned(raw: nat): OffsetCode
    requires raw < SOURCE_COPY
  {
    var d := raw - OFFSET_BIAS;
    if -0x2000 <= d < 0x2000 then OffsetCode(0, d + 0x2000, 14, None)
    else if -0xA000 <= d < 0xA000 then OffsetCode(1, if d < -0x2000 then d + 0xA000 else d + 0x6000, 16, None)
    else OffsetCode(2, if d >= 0x6000 then d + 0x1_6000 else d + 0x2_A000, 18, None)
  }

  /** Distances of 4 and more: up to slot number 9 all bits are verbatim, then the low four are coded. */
  function CodeDistance(dist: nat, adj: nat): OffsetCode
    requires InBand(dist, adj)
  {
    var half := adj / 2 - 1;
    if half < 4 then OffsetCode(adj + 7, dist - BandFirst(adj), half, None)
    else OffsetCode(adj + 7, (dist - BandFirst(adj)) / 16, half - 4, Some(dist % 16))
  }

  /** Slot 3 is the mapped position itself, 4 to 6 are the recent distances, 7 and up are plain distances. */
  function CodeOffset(raw: nat): OffsetCode {
    if raw == SOURCE_COPY then OffsetCode(3, 0, 0, None)
    else if LRU_BASE <= raw < LRU_BASE + 3 then OffsetCode(raw - 0x53FFD, 0, 0, None)
    else if raw < SOURCE_COPY then CodeSigned(raw)
    else if raw - RAW_BASE <= 3 then OffsetCode(raw - RAW_BASE + 7, 0, 0, None)
    else
      AdjInBand(raw - RAW_BASE);
      CodeDistance(raw - RAW_BASE, AdjOf(raw - RAW_BASE))
  }

  function OffsetBits(c: Codes, o: OffsetCode): seq<Bit>
    requires o.low.Some? ==> o.low.value < |c.aligned|
  {
    ToLsb(o.extra, o.width) + if o.low.Some? then LeftBits(c.aligned, o.low.value) else []
  }

  /** The offsets whose main symbol exists for every length. */
  function FitsTable(raw: nat): bool {
    if raw < 0x100 || raw == SOURCE_COPY || LRU_BASE <= raw < LRU_BASE + 3 then true
    else if raw >= RAW_BASE then
      var dist := raw - RAW_BASE;
      var slot := if dist <= 3 then dist + 7 else AdjOf(dist) + 7;
      0x100 + 8 * slot < MAIN_SYMBOLS
    else true
  }

  lemma {:induction false} FitsExactly(raw: nat)
    ensures FitsTable(raw) <==> raw < RAW_BASE + 0x4_0000
    ensures FitsTable(raw) <==> CodeOffset(raw).slot <= 42
  {
    hide AdjOf, BandFirst;
    if raw >= RAW_BASE + 4 {
      var dist := raw - RAW_BASE;
      AdjInBand(dist);
      LastBand();
      var adj := AdjOf(dist);
      if adj < 36 {
        BandsAscend(adj, 36);
      } else if adj > 36 {
        BandsAscend(36, adj);
      }
    }
  }

  // --- Reading offsets back ---

  function SignedOf(slot: nat, v: nat): int {
    match slot
    case 0 => v % 0x4000 - 0x2000
    case 1 => if v < 0x8000 then v - 0xA000 else v - 0x6000
    case _ => if v >= 0x2_0000 then v - 0x1_6000 else v - 0x2_A000
  }

  /** Slot number 0 stands for one of the numbers 36 to 63. */
  function TakeAdj(adj: nat, rest: seq<Bit>): Field {
    if adj != 0 then Field(adj, rest)
    else
      match TakeField(rest, 1)
      case NoField => NoField
      case Field(a, r) =>
        if a == 0 then Raised(TakeField(r, 2), 0x24)
        else
          match TakeField(r, 1)
          case NoField => NoField
          case Field(b, r') => if b == 0 then Raised(TakeField(r', 3), 0x28) else Raised(TakeField(r', 4), 0x30)
  }

  function Raised(f: Field, more: nat): Field {
    match f
    case NoField => NoField
    case Field(v, rest) => Field(v + more, rest)
  }

  ghost function TakeDistance(aligned: seq<nat>, adj: nat, rest: seq<Bit>): Field {
    if adj > 63 then NoField
    else if adj <= 3 then Field(adj, rest)
    else
      var half := adj / 2 - 1;
      if half < 4 then Raised(TakeField(rest, half), BandFirst(adj))
      else
        match TakeField(rest, half - 4)
        case NoField => NoField
        case Field(high, r) => Raised(TakeSymbol(aligned, r), BandFirst(adj) + 16 * high)
  }

  ghost function TakeOffset(c: Codes, slot: nat, rest: seq<Bit>): Field {
    if slot < 3 then
      match TakeField(rest, 14 + 2 * slot)
      case NoField => NoField
      case Field(v, r) =>
        var raw := SignedOf(slot, v) + OFFSET_BIAS;
        if raw < 0 then NoField else Field(raw, r)
    else if slot < 7 then Field(slot + 0x53FFD, rest)
    else
      match TakeAdj(slot - 7, rest)
      case NoField => NoField
      case Field(adj, r) =>
        match TakeDistance(c.aligned, adj, r)
        case NoField => NoField
        case Field(dist, r') => if dist + RAW_BASE < 0x1_0000_0000 then Field(dist + RAW_BASE, r') else NoField
  }

  predicate OffsetCovered(c: Codes, raw: nat) {
    var o := CodeOffset(raw);
    o.low.Some? ==> o.low.value < |c.aligned| && c.aligned[o.low.value] > 0
  }

  lemma {:induction false} SignedReadBack(c: Codes, raw: nat, tail: seq<Bit>)
    requires raw < SOURCE_COPY
    ensures var o := CodeSigned(raw);
            o.slot < 3 && TakeOffset(c, o.slot, ToLsb(o.extra, o.width) + tail) == Field(raw, tail)
  {
    hide TakeField;
    var o := CodeSigned(raw);
    FieldPowers();
    FieldReadBack(o.extra, o.width, tail);
  }

  lemma {:induction false} FieldPowers()
    ensures Pow2(14) == 0x4000 && Pow2(16) == 0x1_0000 && Pow2(18) == 0x4_0000
  {
    PowerTable();
    assert Pow2(16) == 4 * Pow2(14) && Pow2(18) == 4 * Pow2(16);
  }

  lemma {:induction false} DistanceReadBack(c: Codes, dist: nat, tail: seq<Bit>)
    requires 4 <= dist && dist + RAW_BASE < 0x1_0000_0000 && LeftComplete(c.aligned)
    requires InBand(dist, AdjOf(dist))
    requires var low := CodeDistance(dist, AdjOf(dist)).low;
             low.Some? ==> low.value < |c.aligned| && c.aligned[low.value] > 0
    ensures var o := CodeDistance(dist, AdjOf(dist));
            && 11 <= o.slot && o.slot - 7 == AdjOf(dist) <= 63
            && TakeDistance(c.aligned, o.slot - 7, OffsetBits(c, o) + tail) == Field(dist, tail)
  {
    hide TakeField, TakeSymbol, LeftComplete, AdjOf, BandFirst, LeftBits, ToLsb;
    var adj := AdjOf(dist);
    var o := CodeDistance(dist, adj);
    AdjBelow64(dist, adj);
    var half := adj / 2 - 1;
    if half < 4 {
      FieldReadBack(o.extra, o.width, tail);
      assert OffsetBits(c, o) + tail == ToLsb(o.extra, o.width) + tail;
    } else {
      var code := LeftBits(c.aligned, dist % 16);
      AlignedParts(dist, adj);
      FieldReadBack(o.extra, o.width, code + tail);
      SymbolReadBack(c.aligned, dist % 16, tail);
      assert OffsetBits(c, o) + tail == ToLsb(o.extra, o.width) + (code + tail);
    }
  }

  lemma {:induction false} AdjBelow64(dist: nat, adj: nat)
    requires InBand(dist, adj) && dist < 0x1_0000_0000
    ensures 4 <= adj < 64
  {
    LastBand();
    if adj > 64 {
      BandsAscend(64, adj);
    }
  }

  /** Bands of 16 and more start at multiples of 16. */
  lemma {:induction false} AlignedParts(dist: nat, adj: nat)
    requires InBand(dist, adj) && adj / 2 - 1 >= 4
    ensures var off := dist - BandFirst(adj);
            off / 16 < Pow2(adj / 2 - 5) && dist == BandFirst(adj) + 16 * (off / 16) + dist % 16
  {
    hide BandFirst, Pow2;
    BandSixteenths(adj);
  }

  lemma {:induction false} BandSixteenths(adj: nat)
    requires adj / 2 - 1 >= 4
    ensures BandFirst(adj) % 16 == 0 && Pow2(adj / 2 - 1) == 16 * Pow2(adj / 2 - 5)
  {
    hide Pow2;
    Pow2Add(adj / 2 - 5, 4);
    assert Pow2(4) == 16 by { SixteenIs(); }
    assert BandFirst(adj) == if adj % 2 == 0 then 16 * (2 * Pow2(adj / 2 - 5)) else 16 * (3 * Pow2(adj / 2 - 5));
  }

  lemma {:induction false} SixteenIs()
    ensures Pow2(4) == 16
  {
  }

  lemma {:induction false} OffsetReadBack(c: Codes, raw: nat, tail: seq<Bit>)
    requires raw < 0x1_0000_0000 && LeftComplete(c.aligned) && OffsetCovered(c, raw)
    ensures TakeOffset(c, CodeOffset(raw).slot, OffsetBits(c, CodeOffset(raw)) + tail) == Field(raw, tail)
  {
    hide TakeField, TakeSymbol, LeftComplete, LeftBits, AdjOf, TakeDistance, CodeDistance, CodeSigned, InBand;
    var o := CodeOffset(raw);
    if raw < SOURCE_COPY {
      SignedReadBack(c, raw, tail);
      SignedPlain(raw);
      assert OffsetBits(c, o) == ToLsb(o.extra, o.width);
    } else if raw >= RAW_BASE + 4 {
      AdjInBand(raw - RAW_BASE);
      DistanceReadBack(c, raw - RAW_BASE, tail);
    } else {
      assert ToLsb(0, 0) == [];
      assert OffsetBits(c, o) + tail == tail;
      SmallDistance(c, raw - RAW_BASE, tail);
    }
  }

  lemma {:induction false} SignedPlain(raw: nat)
    requires raw < SOURCE_COPY
    ensures CodeSigned(raw).low.None?
  {
  }

  lemma {:induction false} SmallDistance(c: Codes, adj: int, tail: seq<Bit>)
    ensures 0 <= adj <= 3 ==> TakeDistance(c.aligned, adj, tail) == Field(adj, tail)
  {
  }

  // --- Lengths ---

  function LengthSlot(length: nat): nat {
    if 2 <= length <= 8 then length - 1 else 0
  }

  /** The symbol of the length code for lengths without a slot; 0 announces a number. */
  function LengthSymbol(length: nat): nat
    requires length >= 9
  {
    if length - 8 <= 255 then length - 8 else 0
  }

  function LengthBits(c: Codes, length: nat): seq<Bit>
    requires length >= 2 && |c.lengths| == LENGTH_SYMBOLS
  {
    if length <= 8 then []
    else LeftBits(c.lengths, LengthSymbol(length)) + if length - 8 <= 255 then [] else U32Bits(length - 8)
  }

  ghost function TakeLength(c: Codes, slot: nat, rest: seq<Bit>): Field {
    if slot != 0 then Field(slot + 1, rest)
    else
      match TakeSymbol(c.lengths, rest)
      case NoField => NoField
      case Field(s, r) =>
        if s != 0 then Field(s + 8, r)
        else
          match TakeU32Number(r)
          case NoField => NoField
          case Field(v, r') => if v + 8 < 0x1_0000_0000 then Field(v + 8, r') else NoField
  }

  predicate LengthCovered(c: Codes, length: nat) {
    length >= 9 && |c.lengths| == LENGTH_SYMBOLS ==> c.lengths[LengthSymbol(length)] > 0
  }

  lemma {:induction false} LengthReadBack(c: Codes, length: nat, tail: seq<Bit>)
    requires 2 <= length < 0x1_0000_0000 && |c.lengths| == LENGTH_SYMBOLS && LeftComplete(c.lengths)
    requires LengthCovered(c, length)
    ensures TakeLength(c, LengthSlot(length), LengthBits(c, length) + tail) == Field(length, tail)
  {
    hide TakeSymbol, TakeU32Number, LeftComplete, LeftBits, U32Bits;
    if length <= 8 {
      assert [] + tail == tail;
    } else {
      var s := LengthSymbol(length);
      var number := if length - 8 <= 255 then [] else U32Bits(length - 8);
      SymbolReadBack(c.lengths, s, number + tail);
      assert LengthBits(c, length) + tail == LeftBits(c.lengths, s) + (number + tail);
      if length - 8 <= 255 {
        assert number + tail == tail;
      } else {
        U32ReadBack(length - 8, tail);
      }
    }
  }

  // --- Whole copies ---

  function MainSymbol(raw: nat, length: nat): nat {
    0x100 + 8 * CodeOffset(raw).slot + LengthSlot(length)
  }

  /** The offset has a place in the table and the length is one a copy can have. */
  predicate Writable(raw: nat, length: nat) {
    FitsTable(raw) && 2 <= length < 0x1_0000_0000
  }

  /** Every symbol the copy is written with is in use. */
  predicate CopyCovered(c: Codes, raw: nat, length: nat) {
    && MainSymbol(raw, length) < |c.main| && c.main[MainSymbol(raw, length)] > 0
    && OffsetCovered(c, raw) && LengthCovered(c, length)
  }

  lemma {:induction false} MainSymbolFits(raw: nat, length: nat)
    requires Writable(raw, length)
    ensures 0x100 <= MainSymbol(raw, length) < MAIN_SYMBOLS
  {
    FitsExactly(raw);
  }

  lemma {:induction false} LowSymbolFits(raw: nat)
    ensures CodeOffset(raw).low.Some? ==> CodeOffset(raw).low.value < ALIGNED_SYMBOLS
  {
    hide AdjOf, BandFirst, CodeSigned;
    if raw < SOURCE_COPY {
      SignedPlain(raw);
    }
  }

  function CopyBits(c: Codes, raw: nat, length: nat): seq<Bit>
    requires FullCodes(c) && Writable(raw, length)
  {
    MainSymbolFits(raw, length);
    LowSymbolFits(raw);
    LeftBits(c.main, MainSymbol(raw, length)) + OffsetBits(c, CodeOffset(raw)) + LengthBits(c, length)
  }

  /** As read from the stream: a byte, which has length 1, or a copy. */
  datatype Symbol = Symbol(raw: nat, length: nat)

  datatype Taken = NothingTaken | Taken(raw: nat, length: nat, rest: seq<Bit>)

  /** What the next symbol says: a byte with length 1, or a copy. */
  ghost function TakeCopy(c: Codes, rest: seq<Bit>): Taken {
    match TakeSymbol(c.main, rest)
    case NoField => NothingTaken
    case Field(s, r) =>
      if s < 0x100 then Taken(s, 1, r)
      else
        match TakeOffset(c, (s - 0x100) / 8, r)
        case NoField => NothingTaken
        case Field(raw, r') =>
          match TakeLength(c, (s - 0x100) % 8, r')
          case NoField => NothingTaken
          case Field(length, r'') => Taken(raw, length, r'')
  }

  /** Every copy with a usable offset is read back as it was written. */
  lemma {:induction false} CopyReadBack(c: Codes, raw: nat, length: nat, tail: seq<Bit>)
    requires FullCodes(c) && Writable(raw, length) && CopyCovered(c, raw, length)
    ensures TakeCopy(c, CopyBits(c, raw, length) + tail) == Taken(raw, length, tail)
  {
    hide TakeSymbol, TakeOffset, TakeLength, LeftComplete, LeftBits, OffsetBits, LengthBits, CodeOffset, FitsTable;
    FitsExactly(raw);
    var s := MainSymbol(raw, length);
    var o, l := OffsetBits(c, CodeOffset(raw)), LengthBits(c, length);
    SymbolReadBack(c.main, s, o + l + tail);
    OffsetReadBack(c, raw, l + tail);
    LengthReadBack(c, length, tail);
    assert CopyBits(c, raw, length) + tail == LeftBits(c.main, s) + (o + l + tail);
    assert o + l + tail == o + (l + tail);
  }

  lemma {:induction false} ByteReadBack(c: Codes, b: nat, tail: seq<Bit>)
    requires FullCodes(c) && b < 0x100 && c.main[b] > 0
    ensures TakeCopy(c, LeftBits(c.main, b) + tail) == Taken(b, 1, tail)
  {
    hide TakeSymbol, LeftComplete, LeftBits;
    SymbolReadBack(c.main, b, tail);
  }
}
