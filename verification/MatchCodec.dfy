/** The tables of one segment, and reading and writing copies with them. */
module MatchCodec {
  import opened Powers
  import opened BitStrings
  import opened LsbBits
  import opened CanonicalCode
  import opened LeftCode
  import opened BitReading
  import opened BitWriting
  import opened CtzTable
  import opened HuffmanBuild
  import opened MatchCoding
  import opened FrequencyCodes

  /** Built from its lengths; the decode table is right if the code is complete. */
  ghost predicate Usable(t: HuffmanTable) {
    && |t.slots| == 32 && ShortCells(t.entries, |t.lengths|) && ValidLefts(t.lengths) && t.codes == CodesFor(t.lengths)
    && (LeftComplete(t.lengths) ==> exists widths, top :: Built(t.lengths, t.slots, t.entries, widths, top))
  }

  datatype SegmentTables = SegmentTables(main: HuffmanTable, lengths: HuffmanTable, aligned: HuffmanTable)

  function CodesOf(t: SegmentTables): Codes {
    Codes(t.main.lengths, t.lengths.lengths, t.aligned.lengths)
  }

  ghost predicate UsableTables(t: SegmentTables) {
    Usable(t.main) && Usable(t.lengths) && Usable(t.aligned)
  }

  method TableFor(lens: seq<nat>) returns (r: Option<HuffmanTable>)
    ensures r.None? <==> !ValidLefts(lens)
    ensures r.Some? ==> Usable(r.value) && r.value.lengths == lens
  {
    hide LeftComplete, Built, ShortCells, CodesFor;
    var t, widths, top := FromLengths(lens);
    r := t;
  }

  /** A complete code of at most 15 bits with a code for every symbol that occurs. */
  method FrequencyTable(freqs: seq<nat>) returns (t: HuffmanTable)
    requires 2 <= |freqs| <= 0x8000 && exists s :: 0 <= s < |freqs| && freqs[s] > 0
    ensures Usable(t) && |t.lengths| == |freqs| && LeftComplete(t.lengths)
    ensures forall s :: 0 <= s < |freqs| ==> t.lengths[s] <= 15
    ensures forall s :: 0 <= s < |freqs| && freqs[s] > 0 ==> t.lengths[s] > 0
  {
    hide LeftComplete, Built, ShortCells, CodesFor, ActiveCount, Pow2;
    ActiveBounds(freqs);
    PowerTable();
    var table, widths, top := FromFrequencies(freqs, 15);
    t := table;
  }

  // --- What is left gets shorter ---

  ghost predicate Shrinks(f: Field, rest: seq<Bit>) {
    f.Field? ==> |f.rest| <= |rest|
  }

  lemma {:induction false} SymbolShrinks(lens: seq<nat>, rest: seq<Bit>)
    ensures Shrinks(TakeSymbol(lens, rest), rest)
  {
    hide LeftBits;
  }

  lemma {:induction false} NumberShrinks(rest: seq<Bit>)
    ensures Shrinks(TakeU32Number(rest), rest)
  {
    hide Pow2, FromLsb;
  }

  lemma {:induction false} AdjShrinks(adj: nat, rest: seq<Bit>)
    ensures Shrinks(TakeAdj(adj, rest), rest)
  {
    hide FromLsb;
  }

  lemma {:induction false} DistanceShrinks(aligned: seq<nat>, adj: nat, rest: seq<Bit>)
    ensures Shrinks(TakeDistance(aligned, adj, rest), rest)
  {
    hide TakeSymbol, BandFirst, FromLsb;
    if 4 <= adj <= 63 && adj / 2 - 1 >= 4 && TakeField(rest, adj / 2 - 5).Field? {
      SymbolShrinks(aligned, TakeField(rest, adj / 2 - 5).rest);
    }
  }

  lemma {:induction false} OffsetShrinks(c: Codes, slot: nat, rest: seq<Bit>)
    ensures Shrinks(TakeOffset(c, slot, rest), rest)
  {
    hide TakeDistance, TakeAdj, FromLsb, SignedOf;
    if slot >= 7 {
      AdjShrinks(slot - 7, rest);
      var f := TakeAdj(slot - 7, rest);
      if f.Field? {
        DistanceShrinks(c.aligned, f.val, f.rest);
      }
    }
  }

  lemma {:induction false} LengthShrinks(c: Codes, slot: nat, rest: seq<Bit>)
    ensures Shrinks(TakeLength(c, slot, rest), rest)
  {
    hide TakeSymbol, TakeU32Number;
    SymbolShrinks(c.lengths, rest);
    var f := TakeSymbol(c.lengths, rest);
    if f.Field? {
      NumberShrinks(f.rest);
    }
  }

  // --- Reading ---

  /** `v` and the bits now left are what `f` says, if `f` ends before the padding. */
  ghost predicate Agrees(f: Field, v: Option<nat>, rest: seq<Bit>, padding: nat) {
    f.Field? && padding <= |f.rest| ==> v == Some(f.val) && rest == f.rest
  }

  method ReadCode(t: HuffmanTable, r: BitReader) returns (v: Option<nat>)
    requires r.Valid() && Usable(t)
    modifies r
    ensures r.Valid() && (v.Some? ==> v.value < |t.lengths|)
    ensures LeftComplete(t.lengths) ==> Agrees(TakeSymbol(t.lengths, old(r.Rest())), v, r.Rest(), r.padding)
  {
    hide LeftBits, LeftComplete, Built, BitReader.Valid, BitReader.Rest, CodesFor, ShortCells;
    ghost var widths: seq<nat>, top: nat := [], 0;
    if LeftComplete(t.lengths) {
      widths, top :| Built(t.lengths, t.slots, t.entries, widths, top);
    }
    v := ReadSymbol(t, r, widths, top);
  }

  method ReadAdj(adj: nat, r: BitReader) returns (v: Option<nat>)
    requires r.Valid()
    modifies r
    ensures r.Valid() && Agrees(TakeAdj(adj, old(r.Rest())), v, r.Rest(), r.padding)
  {
    hide BitReader.Valid, BitReader.Rest, FromLsb;
    if adj != 0 {
      return Some(adj);
    }
    var first := r.ReadBits(1);
    if first.None? {
      return None;
    }
    if first.value == 0 {
      v := r.ReadBits(2);
      return if v.None? then None else Some(v.value + 0x24);
    }
    var second := r.ReadBits(1);
    if second.None? {
      return None;
    }
    if second.value == 0 {
      v := r.ReadBits(3);
      return if v.None? then None else Some(v.value + 4 + 0x24);
    }
    v := r.ReadBits(4);
    v := if v.None? then None else Some(v.value + 8 + 4 + 0x24);
  }

  method ReadDistance(aligned: HuffmanTable, adj: nat, r: BitReader) returns (v: Option<nat>)
    requires r.Valid() && Usable(aligned)
    modifies r
    ensures r.Valid()
    ensures LeftComplete(aligned.lengths) ==>
              Agrees(TakeDistance(aligned.lengths, adj, old(r.Rest())), v, r.Rest(), r.padding)
  {
    hide BitReader.Valid, BitReader.Rest, FromLsb, TakeSymbol, Usable, LeftComplete, Pow2, Shl;
    if adj > 63 {
      return None;
    }
    if adj <= 3 {
      return Some(adj);
    }
    var base, half := adj % 2 + 2, adj / 2 - 1;
    ShlIsMul(base, half);
    if half < 4 {
      var extra := r.ReadBits(half);
      return if extra.None? then None else Some(Shl(base, half) + extra.value);
    }
    var high := r.ReadBits(half - 4);
    if high.None? {
      return None;
    }
    var low := ReadCode(aligned, r);
    WidenBase(base, half - 4);
    v := if low.None? then None else Some(16 * (Shl(base, half - 4) + high.value) + low.value);
  }

  lemma {:induction false} WidenBase(base: nat, n: nat)
    ensures 16 * Shl(base, n) == base * Pow2(n + 4)
  {
    ShlIsMul(base, n);
    Pow2Add(n, 4);
    assert Pow2(4) == 16;
  }

  method ReadOffset(t: SegmentTables, slot: nat, r: BitReader) returns (v: Option<nat>)
    requires r.Valid() && Usable(t.aligned)
    modifies r
    ensures r.Valid()
    ensures LeftComplete(t.aligned.lengths) ==>
              Agrees(TakeOffset(CodesOf(t), slot, old(r.Rest())), v, r.Rest(), r.padding)
  {
    hide BitReader.Valid, BitReader.Rest, FromLsb, TakeDistance, TakeAdj, Usable, LeftComplete;
    if slot < 3 {
      var f := r.ReadBits(14 + 2 * slot);
      if f.None? {
        return None;
      }
      var raw := SignedOf(slot, f.value) + OFFSET_BIAS;
      return if raw < 0 then None else Some(raw);
    }
    if slot < 7 {
      return Some(slot + 0x53FFD);
    }
    ghost var taken := TakeAdj(slot - 7, r.Rest());
    var adj := ReadAdj(slot - 7, r);
    if taken.Field? {
      DistanceShrinks(t.aligned.lengths, taken.val, taken.rest);
    }
    if adj.None? {
      return None;
    }
    var dist := ReadDistance(t.aligned, adj.value, r);
    v := if dist.None? || dist.value + RAW_BASE >= 0x1_0000_0000 then None else Some(dist.value + RAW_BASE);
  }

  method ReadLength(t: SegmentTables, slot: nat, r: BitReader) returns (v: Option<nat>)
    requires r.Valid() && Usable(t.lengths)
    modifies r
    ensures r.Valid()
    ensures LeftComplete(t.lengths.lengths) ==>
              Agrees(TakeLength(CodesOf(t), slot, old(r.Rest())), v, r.Rest(), r.padding)
    ensures v.Some? && slot == 0 ==> v.value >= 9
    ensures v.Some? && slot > 0 ==> v.value == slot + 1
  {
    hide BitReader.Valid, BitReader.Rest, TakeSymbol, TakeU32Number, Usable, LeftComplete;
    if slot != 0 {
      return Some(slot + 1);
    }
    ghost var taken := TakeSymbol(t.lengths.lengths, r.Rest());
    if taken.Field? {
      NumberShrinks(taken.rest);
      NumberLarge(taken.rest);
    }
    var s := ReadCode(t.lengths, r);
    if s.None? {
      return None;
    }
    if s.value != 0 {
      return Some(s.value + 8);
    }
    var big := r.ReadU32Number();
    if big.None? || big.value < 256 {
      return None;
    }
    v := if big.value + 8 >= 0x1_0000_0000 then None else Some(big.value + 8);
  }

  lemma {:induction false} NumberLarge(rest: seq<Bit>)
    ensures TakeU32Number(rest).Field? ==> TakeU32Number(rest).val >= 256
  {
    hide FromLsb;
    var n := LeadingZeros(rest, 24);
    Pow2Monotone(8, n + 8);
    PowerTable();
  }

  ghost predicate AgreesCopy(t: Taken, v: Option<Symbol>, rest: seq<Bit>, padding: nat) {
    t.Taken? && padding <= |t.rest| ==> v == Some(Symbol(t.raw, t.length)) && rest == t.rest
  }

  /** The next byte or copy. */
  method ReadCopy(t: SegmentTables, r: BitReader) returns (v: Option<Symbol>)
    requires r.Valid() && UsableTables(t)
    modifies r
    ensures r.Valid()
    ensures FullCodes(CodesOf(t)) ==> AgreesCopy(TakeCopy(CodesOf(t), old(r.Rest())), v, r.Rest(), r.padding)
    ensures v.Some? ==> v.value.length >= 1 && (v.value.length == 1 ==> v.value.raw < 0x100)
  {
    hide BitReader.Valid, BitReader.Rest, TakeSymbol, TakeOffset, TakeLength, Usable, LeftComplete;
    ghost var c := CodesOf(t);
    ghost var first := TakeSymbol(c.main, r.Rest());
    if first.Field? && first.val >= 0x100 {
      OffsetShrinks(c, (first.val - 0x100) / 8, first.rest);
      ghost var second := TakeOffset(c, (first.val - 0x100) / 8, first.rest);
      if second.Field? {
        LengthShrinks(c, (first.val - 0x100) % 8, second.rest);
      }
    }
    var s := ReadCode(t.main, r);
    if s.None? {
      return None;
    }
    if s.value < 0x100 {
      return Some(Symbol(s.value, 1));
    }
    var raw := ReadOffset(t, (s.value - 0x100) / 8, r);
    if raw.None? {
      return None;
    }
    var length := ReadLength(t, (s.value - 0x100) % 8, r);
    v := if length.None? then None else Some(Symbol(raw.value, length.value));
  }

  // --- Writing ---

  /** Try the bands in turn. */
  method FindBand(dist: nat) returns (adj: nat)
    requires 4 <= dist < 0x1_0000_0000
    ensures InBand(dist, adj) && adj == AdjOf(dist) && adj < 64
  {
    hide BandFirst, Shl, AdjOf;
    BandsMeet(4);
    LastBand();
    adj := 4;
    while true
      invariant 4 <= adj < 64 && BandFirst(adj) <= dist
      decreases 64 - adj
    {
      var base, half := adj % 2 + 2, adj / 2 - 1;
      BandLimits(adj);
      if half < 4 {
        var shifted := Shl(base, half);
        if shifted <= dist < shifted + Pow2(half) {
          break;
        }
      } else {
        var high := half - 4;
        var first := if high > 0 then Shl(base, high) else base;
        var most := if high > 0 then Pow2(high) - 1 else 0;
        if 16 * first <= dist <= 16 * (first + most) + 15 {
          break;
        }
      }
      BandsMeet(adj);
      adj := adj + 1;
    }
    AdjIs(dist, adj);
  }

  lemma {:induction false} BandLimits(adj: nat)
    requires adj >= 4
    ensures var base, half := adj % 2 + 2, adj / 2 - 1;
            && BandFirst(adj) == Shl(base, half)
            && (half >= 4 ==> BandFirst(adj) == 16 * Shl(base, half - 4) && Pow2(half) == 16 * Pow2(half - 4))
            && Shl(base, 0) == base && Pow2(0) == 1
  {
    var base, half := adj % 2 + 2, adj / 2 - 1;
    ShlIsMul(base, half);
    if half >= 4 {
      WidenBase(base, half - 4);
      Pow2Add(half - 4, 4);
      assert Pow2(4) == 16;
    }
  }

  datatype SymbolInfo = SymbolInfo(slot: nat, extra: nat, aligned: bool)

  /** The slot of an offset and whether it ends in an aligned symbol: what the frequency pass counts is what
      `EncodeCopy` writes. */
  method ComputeSymbolInfo(raw: nat) returns (r: SymbolInfo)
    requires raw < 0x1_0000_0000
    ensures r.slot == CodeOffset(raw).slot && r.aligned == CodeOffset(raw).low.Some?
    ensures raw >= SOURCE_COPY ==> r.extra == CodeOffset(raw).width
  {
    hide BandFirst, AdjOf;
    if raw == SOURCE_COPY {
      return SymbolInfo(3, 0, false);
    }
    if LRU_BASE <= raw < LRU_BASE + 3 {
      return SymbolInfo(raw - 0x53FFD, 0, false);
    }
    if raw >= RAW_BASE {
      var dist := raw - RAW_BASE;
      if dist <= 3 {
        return SymbolInfo(dist + 7, 0, false);
      }
      var adj := FindBand(dist);
      var half := adj / 2 - 1;
      return if half < 4 then SymbolInfo(adj + 7, half, false) else SymbolInfo(adj + 7, half - 4, true);
    }
    var d := raw - OFFSET_BIAS;
    var slot := if -0x2000 <= d < 0x2000 then 0 else if -0xA000 <= d < 0xA000 then 1 else 2;
    r := SymbolInfo(slot, 0, false);
  }

  method WriteCode(t: HuffmanTable, w: BitWriter, s: nat)
    requires w.Valid() && Usable(t) && s < |t.lengths|
    modifies w
    ensures w.Valid() && w.Content() == old(w.Content()) + LeftBits(t.lengths, s)
  {
    WriteSymbol(t, w, s);
  }

  /** The slot and fields of an offset, found by search. */
  method ComputeOffset(raw: nat) returns (o: OffsetCode)
    requires raw < 0x1_0000_0000
    ensures o == CodeOffset(raw) && o.width <= 64
  {
    hide BandFirst, AdjOf;
    if raw == SOURCE_COPY {
      return OffsetCode(3, 0, 0, None);
    }
    if LRU_BASE <= raw < LRU_BASE + 3 {
      return OffsetCode(raw - 0x53FFD, 0, 0, None);
    }
    if raw >= RAW_BASE {
      var dist := raw - RAW_BASE;
      if dist <= 3 {
        return OffsetCode(dist + 7, 0, 0, None);
      }
      var adj := FindBand(dist);
      BandLimits(adj);
      var half := adj / 2 - 1;
      if half < 4 {
        return OffsetCode(adj + 7, dist - Shl(adj % 2 + 2, half), half, None);
      }
      HighPart(dist, adj);
      return OffsetCode(adj + 7, dist / 16 % Pow2(half - 4), half - 4, Some(dist % 16));
    }
    o := CodeSigned(raw);
  }

  lemma {:induction false} HighPart(dist: nat, adj: nat)
    requires InBand(dist, adj) && adj / 2 - 1 >= 4
    ensures dist / 16 % Pow2(adj / 2 - 5) == (dist - BandFirst(adj)) / 16
  {
    hide BandFirst;
    var p, off := Pow2(adj / 2 - 5), dist - BandFirst(adj);
    AlignedParts(dist, adj);
    BandLimits(adj);
    ShlIsMul(adj % 2 + 2, adj / 2 - 5);
    assert dist / 16 == (adj % 2 + 2) * p + off / 16;
    DivUnique(dist / 16, p, adj % 2 + 2, off / 16);
  }

  /** A copy goes out exactly when its main symbol exists; otherwise nothing is written. */
  method EncodeCopy(t: SegmentTables, w: BitWriter, raw: nat, length: nat) returns (ok: bool)
    requires w.Valid() && UsableTables(t) && FullCodes(CodesOf(t)) && raw < 0x1_0000_0000
    requires 2 <= length < 0x1_0000_0000
    modifies w
    ensures w.Valid() && (ok <==> FitsTable(raw))
    ensures w.Content() == old(w.Content()) + if ok then CopyBits(CodesOf(t), raw, length) else []
  {
    hide BitWriter.Valid, BitWriter.Content, LeftBits, ToLsb, CodeOffset, FitsTable, LeftComplete, Usable, U32Bits;
    var o := ComputeOffset(raw);
    FitsExactly(raw);
    LowSymbolFits(raw);
    var lengthSlot := if length - 1 <= 7 then length - 1 else 0;
    var main := 0x100 + 8 * o.slot + lengthSlot;
    if main >= |t.main.lengths| {
      return false;
    }
    ghost var before := w.Content();
    WriteCode(t.main, w, main);
    WriteOffset(t, w, o);
    WriteLength(t, w, length);
    assert w.Content() == before + CopyBits(CodesOf(t), raw, length);
    ok := true;
  }

  method WriteOffset(t: SegmentTables, w: BitWriter, o: OffsetCode)
    requires w.Valid() && Usable(t.aligned) && o.width <= 64 && (o.low.Some? ==> o.low.value < |t.aligned.lengths|)
    modifies w
    ensures w.Valid() && w.Content() == old(w.Content()) + OffsetBits(CodesOf(t), o)
  {
    hide BitWriter.Valid, BitWriter.Content, LeftBits, ToLsb, Usable;
    ghost var before := w.Content();
    w.WriteBits(o.extra, o.width);
    if o.low.Some? {
      WriteCode(t.aligned, w, o.low.value);
    }
    assert w.Content() == before + OffsetBits(CodesOf(t), o);
  }

  method WriteLength(t: SegmentTables, w: BitWriter, length: nat)
    requires w.Valid() && Usable(t.lengths) && |t.lengths.lengths| == LENGTH_SYMBOLS
    requires 2 <= length < 0x1_0000_0000
    modifies w
    ensures w.Valid() && w.Content() == old(w.Content()) + LengthBits(CodesOf(t), length)
  {
    hide BitWriter.Valid, BitWriter.Content, LeftBits, U32Bits, Usable;
    if length <= 8 {
      return;
    }
    ghost var before := w.Content();
    var rest := length - 8;
    var s := if rest <= 255 then rest else 0;
    WriteCode(t.lengths, w, s);
    if s == 0 {
      w.WriteU32Number(rest);
    }
    assert w.Content() == before + LengthBits(CodesOf(t), length);
  }
}
