/** LZMS items: literals, LZ matches and delta matches, with their recent-offset queues; how one item is
    coded, and that decoding it gives back the item and the same state. */
module LzmsItems {
  import opened BitStrings
  import opened RangeCoding
  import opened CanonicalCode
  import opened BackBits
  import opened SlotTables
  import opened LzmsCoder
  import opened AdaptiveCodes

  // --- Recent-offset queues ---

  function PushFront<T>(q: seq<T>, v: T): (q': seq<T>)
    requires |q| == 4
    ensures |q'| == 4
  {
    [v] + q[..3]
  }

  function MoveToFront<T>(q: seq<T>, i: nat): (q': seq<T>)
    requires |q| == 4 && i < 4
    ensures |q'| == 4
  {
    [q[i]] + q[..i] + q[i + 1..]
  }

  /** What encoder and decoder remember between items. `prevType` is 0 after a literal, 1 after an LZ
      match and 2 after a delta match. */
  datatype History = History(offsets: seq<nat>, deltas: seq<(nat, nat)>, prevType: nat)

  const INITIAL_HISTORY := History([1, 2, 3, 4], [(1, 0), (2, 0), (3, 0), (4, 0)], 0)

  predicate ValidHistory(h: History) {
    && |h.offsets| == 4 && |h.deltas| == 4 && h.prevType <= 2
    && (forall i :: 0 <= i < 4 ==> h.offsets[i] >= 1)
    && (forall i :: 0 <= i < 4 ==> h.deltas[i].0 >= 1 && h.deltas[i].1 < 8)
  }

  function Min(a: nat, b: nat): nat {
    if a <= b then a else b
  }

  /** The queue position of repeat code `rep`: the front entry is skipped right after a match of the
      same kind. */
  function LzPosition(h: History, rep: nat): (i: nat)
    ensures i < 4
  {
    Min(rep + h.prevType % 2, 3)
  }

  function DeltaPosition(h: History, rep: nat): (i: nat)
    ensures i < 4
  {
    Min(rep + h.prevType / 2 % 2, 3)
  }

  // --- Items ---

  /** `rep` is the repeat code, or None when the offset is coded explicitly. A delta match copies at
      distance `offset << power` the differences of bytes `1 << power` apart. */
  datatype Item =
    | Literal(byte: Byte)
    | LzMatch(rep: Option<nat>, offset: nat, length: nat)
    | DeltaMatch(rep: Option<nat>, offset: nat, power: nat, length: nat)

  /** The numbers of an item are in range; whether there is anything to copy depends on the position. */
  predicate Replayable(item: Item) {
    match item
    case Literal(_) => true
    case LzMatch(_, offset, length) => offset >= 1 && length >= 1
    case DeltaMatch(_, offset, power, length) => offset >= 1 && power < 8 && length >= 1
  }

  /** The item can be coded after history `h` in a stream for `size` bytes. */
  predicate Codable(item: Item, h: History, size: nat)
    requires ValidHistory(h)
  {
    match item
    case Literal(_) => true
    case LzMatch(rep, offset, length) =>
      && 1 <= length <= MAX_MATCH_LEN
      && (match rep
          case Some(r) => r < 3 && h.offsets[LzPosition(h, r)] == offset
          case None => 1 <= offset < size <= OFFSET_SENTINEL)
    case DeltaMatch(rep, offset, power, length) =>
      && 1 <= length <= MAX_MATCH_LEN && power < 8
      && (match rep
          case Some(r) => r < 3 && h.deltas[DeltaPosition(h, r)] == (offset, power)
          case None => 1 <= offset < size <= OFFSET_SENTINEL)
  }

  /** The queues after an item: an explicit offset is pushed, a repeated one moves to the front. */
  function After(h: History, item: Item): (h': History)
    requires ValidHistory(h)
    requires Replayable(item)
    ensures ValidHistory(h')
  {
    match item
    case Literal(_) => h.(prevType := 0)
    case LzMatch(None, offset, _) => h.(offsets := PushFront(h.offsets, offset), prevType := 1)
    case LzMatch(Some(r), _, _) => h.(offsets := MoveToFront(h.offsets, LzPosition(h, r)), prevType := 1)
    case DeltaMatch(None, offset, power, _) =>
      h.(deltas := PushFront(h.deltas, (offset, power)), prevType := 2)
    case DeltaMatch(Some(r), _, _, _) =>
      h.(deltas := MoveToFront(h.deltas, DeltaPosition(h, r)), prevType := 2)
  }

  // --- Encoding ---

  function EncodeRep(c: Coder, d0: Decision, d1: Decision, rep: nat): (c': Coder)
    requires Started(c)
    ensures Started(c') && SameStream(c'.model, c.model)
  {
    if rep == 0 then Decide(c, d0, 0)
    else Decide(Decide(c, d0, 1), d1, if rep == 1 then 0 else 1)
  }

  function EncodeOffset(c: Coder, a: Alphabet, offset: nat): (c': Coder)
    requires Started(c) && a in {LzOffsetSyms, DeltaOffsetSyms} && 1 <= offset < c.model.size <= OFFSET_SENTINEL
    ensures Started(c') && SameStream(c'.model, c.model)
  {
    OffsetSlotCovers(c.model.bases, offset, c.model.size);
    var slot := FindOffsetSlot(c.model.bases, offset);
    PutBits(PutSymbol(c, a, slot), offset - c.model.bases[slot], ExtraBits(c.model.bases, slot))
  }

  function EncodeLength(c: Coder, length: nat): (c': Coder)
    requires Started(c) && 1 <= length <= MAX_MATCH_LEN
    ensures Started(c') && SameStream(c'.model, c.model)
  {
    LengthSlotCovers(length);
    var slot := FindLengthSlot(length);
    PutBits(PutSymbol(c, LengthSyms, slot), length - LENGTH_BASES[slot], LENGTH_EXTRA[slot])
  }

  function EncodeItem(c: Coder, h: History, item: Item): (c': Coder)
    requires ValidCoder(c) && (Started(c) || item.Literal?)
    requires ValidHistory(h) && Codable(item, h, c.model.size)
    ensures Started(c') && SameStream(c'.model, c.model)
  {
    match item
    case Literal(b) => PutSymbol(Decide(c, Main, 0), LiteralSyms, b)
    case LzMatch(rep, offset, length) =>
      EncodeLength(EncodeLzOffset(Decide(Decide(c, Main, 1), Match, 0), rep, offset), length)
    case DeltaMatch(rep, offset, power, length) =>
      EncodeLength(EncodeDeltaOffset(Decide(Decide(c, Main, 1), Match, 1), rep, offset, power), length)
  }

  function EncodeLzOffset(c: Coder, rep: Option<nat>, offset: nat): (c': Coder)
    requires Started(c) && (rep.None? ==> 1 <= offset < c.model.size <= OFFSET_SENTINEL)
    ensures Started(c') && SameStream(c'.model, c.model)
  {
    match rep
    case Some(r) => EncodeRep(Decide(c, Lz, 1), LzRep0, LzRep1, r)
    case None => EncodeOffset(Decide(c, Lz, 0), LzOffsetSyms, offset)
  }

  function EncodeDeltaOffset(c: Coder, rep: Option<nat>, offset: nat, power: nat): (c': Coder)
    requires Started(c) && power < 8 && (rep.None? ==> 1 <= offset < c.model.size <= OFFSET_SENTINEL)
    ensures Started(c') && SameStream(c'.model, c.model)
  {
    match rep
    case Some(r) => EncodeRep(Decide(c, Delta, 1), DeltaRep0, DeltaRep1, r)
    case None => EncodeOffset(PutSymbol(Decide(c, Delta, 0), DeltaPowerSyms, power), DeltaOffsetSyms, offset)
  }

  // --- Decoding ---

  datatype Error = BadSymbol | OffsetPastStart | DeltaPastStart | TooLarge | BadInputLength | Truncated | BadFraming

  datatype TakenNumber = NoNumber | TakenNumber(val: nat, source: Source)

  function TakeRep(s: Source, data: seq<Byte>, d0: Decision, d1: Decision): (t: TakenBits)
    requires ValidModel(s.model)
    ensures t.val <= 2 && ValidModel(t.source.model) && SameStream(t.source.model, s.model)
  {
    var b0 := TakeBit(s, data, d0);
    if b0.bit == 0 then TakenBits(0, b0.source)
    else
      var b1 := TakeBit(b0.source, data, d1);
      TakenBits(1 + b1.bit, b1.source)
  }

  function TakeOffset(s: Source, a: Alphabet): (t: TakenNumber)
    requires ValidModel(s.model) && a in {LzOffsetSyms, DeltaOffsetSyms}
    ensures t.TakenNumber? ==> ValidModel(t.source.model) && SameStream(t.source.model, s.model) && t.val >= 1
  {
    match TakeSymbol(s, a)
    case NoSymbol => NoNumber
    case TakenSymbol(slot, s1) =>
      var bases := s.model.bases;
      Ascending(bases, 0, slot);
      var extra := TakeBits(s1, ExtraBits(bases, slot));
      TakenNumber(bases[slot] + extra.val, extra.source)
  }

  function TakeLength(s: Source): (t: TakenNumber)
    requires ValidModel(s.model)
    ensures t.TakenNumber? ==> ValidModel(t.source.model) && SameStream(t.source.model, s.model) && t.val >= 1
  {
    match TakeSymbol(s, LengthSyms)
    case NoSymbol => NoNumber
    case TakenSymbol(slot, s1) =>
      LengthTable(slot);
      LengthBasePositive(slot);
      var extra := TakeBits(s1, LENGTH_EXTRA[slot]);
      TakenNumber(LENGTH_BASES[slot] + extra.val, extra.source)
  }

  datatype TakenItem = NoItem | TakenItem(item: Item, source: Source, history: History)

  /** Decode one item and update the queues. The history changes before the length is read. */
  function TakeItem(s: Source, data: seq<Byte>, h: History): (t: TakenItem)
    requires ValidModel(s.model) && ValidHistory(h)
    ensures t.TakenItem? ==> && ValidModel(t.source.model) && SameStream(t.source.model, s.model)
                             && ValidHistory(t.history)
                             && Replayable(t.item)
  {
    var main := TakeBit(s, data, Main);
    if main.bit == 0 then
      match TakeSymbol(main.source, LiteralSyms)
      case NoSymbol => NoItem
      case TakenSymbol(sym, s1) => TakenItem(Literal(sym), s1, After(h, Literal(sym)))
    else
      var kind := TakeBit(main.source, data, Match);
      if kind.bit == 0 then TakeLz(kind.source, data, h) else TakeDelta(kind.source, data, h)
  }

  datatype TakenOffset = NoOffset | TakenOffset(rep: Option<nat>, offset: nat, power: nat, source: Source)

  function TakeLzOffset(s: Source, data: seq<Byte>, h: History): (t: TakenOffset)
    requires ValidModel(s.model) && ValidHistory(h)
    ensures t.TakenOffset? ==> ValidModel(t.source.model) && SameStream(t.source.model, s.model) && t.offset >= 1
  {
    var lz := TakeBit(s, data, Lz);
    if lz.bit == 0 then Explicit(TakeOffset(lz.source, LzOffsetSyms), 0)
    else
      var rep := TakeRep(lz.source, data, LzRep0, LzRep1);
      TakenOffset(Some(rep.val), h.offsets[LzPosition(h, rep.val)], 0, rep.source)
  }

  lemma {:induction false} PowerSymbol(s: Source)
    requires ValidModel(s.model)
    ensures var t := TakeSymbol(s, DeltaPowerSyms);
            t.TakenSymbol? ==> t.sym < 8 && ValidModel(t.source.model) && SameStream(t.source.model, s.model)
  {
    hide PrefixDecode, SetCode, ValidModel;
  }

  function OffsetAfterPower(t: TakenSymbol): (r: TakenOffset)
    requires t.TakenSymbol? ==> ValidModel(t.source.model)
    ensures r.TakenOffset? ==> && t.TakenSymbol? && r.offset >= 1 && r.power == t.sym
                               && ValidModel(r.source.model) && SameStream(r.source.model, t.source.model)
  {
    if t.TakenSymbol? then Explicit(TakeOffset(t.source, DeltaOffsetSyms), t.sym) else NoOffset
  }

  /** An explicit delta offset is preceded by its power. */
  function TakeNewDelta(s: Source): (t: TakenOffset)
    requires ValidModel(s.model)
    ensures t.TakenOffset? ==> ValidModel(t.source.model) && SameStream(t.source.model, s.model)
    ensures t.TakenOffset? ==> t.offset >= 1 && t.power < 8
  {
    PowerSymbol(s);
    OffsetAfterPower(TakeSymbol(s, DeltaPowerSyms))
  }

  function Explicit(t: TakenNumber, power: nat): TakenOffset {
    match t
    case NoNumber => NoOffset
    case TakenNumber(offset, s1) => TakenOffset(None, offset, power, s1)
  }

  function TakeDeltaOffset(s: Source, data: seq<Byte>, h: History): (t: TakenOffset)
    requires ValidModel(s.model) && ValidHistory(h)
    ensures t.TakenOffset? ==> ValidModel(t.source.model) && SameStream(t.source.model, s.model)
    ensures t.TakenOffset? ==> t.offset >= 1 && t.power < 8
  {
    var delta := TakeBit(s, data, Delta);
    if delta.bit == 0 then TakeNewDelta(delta.source)
    else
      var rep := TakeRep(delta.source, data, DeltaRep0, DeltaRep1);
      var pair := h.deltas[DeltaPosition(h, rep.val)];
      TakenOffset(Some(rep.val), pair.0, pair.1, rep.source)
  }

  function TakeLz(s: Source, data: seq<Byte>, h: History): (t: TakenItem)
    requires ValidModel(s.model) && ValidHistory(h)
    ensures t.TakenItem? ==> && ValidModel(t.source.model) && SameStream(t.source.model, s.model)
                             && ValidHistory(t.history)
                             && t.item.LzMatch? && Replayable(t.item)
  {
    var o := TakeLzOffset(s, data, h);
    if o.NoOffset? then NoItem
    else
      match TakeLength(o.source)
      case NoNumber => NoItem
      case TakenNumber(length, s1) =>
        var item := LzMatch(o.rep, o.offset, length);
        TakenItem(item, s1, After(h, item))
  }

  function TakeDelta(s: Source, data: seq<Byte>, h: History): (t: TakenItem)
    requires ValidModel(s.model) && ValidHistory(h)
    ensures t.TakenItem? ==> && ValidModel(t.source.model) && SameStream(t.source.model, s.model)
                             && ValidHistory(t.history)
                             && t.item.DeltaMatch? && Replayable(t.item)
  {
    var o := TakeDeltaOffset(s, data, h);
    if o.NoOffset? then NoItem
    else
      match TakeLength(o.source)
      case NoNumber => NoItem
      case TakenNumber(length, s1) =>
        var item := DeltaMatch(o.rep, o.offset, o.power, length);
        TakenItem(item, s1, After(h, item))
  }

  // --- Decoding undoes encoding, part by part ---

  lemma {:induction false} RepLeads(c: Coder, d0: Decision, d1: Decision, rep: nat, w: seq<Word>, back: seq<Bit>)
    requires Started(c) && Leads(EncodeRep(c, d0, d1, rep), w, back)
    ensures Leads(c, w, back)
  {
    hide Leads, InStep, ValidModel, ValidEnc, TakeBit, TakeSymbol, TakeBits, Decide, PutSymbol, PutBits;
    if rep == 0 {
      DecideLeads(c, d0, 0, w, back);
    } else {
      DecideLeads(Decide(c, d0, 1), d1, if rep == 1 then 0 else 1, w, back);
      DecideLeads(c, d0, 1, w, back);
    }
  }

  lemma {:induction false} RepSynced(c: Coder, s: Source, d0: Decision, d1: Decision, rep: nat,
                                     w: seq<Word>, data: seq<Byte>)
    requires Started(c) && rep <= 2
    requires Synced(c, s, w, data) && Leads(EncodeRep(c, d0, d1, rep), w, BackStream(data))
    ensures TakeRep(s, data, d0, d1).val == rep
    ensures Synced(EncodeRep(c, d0, d1, rep), TakeRep(s, data, d0, d1).source, w, data)
  {
    hide Leads, InStep, ValidModel, ValidEnc, TakeBit, TakeSymbol, TakeBits, Decide, PutSymbol, PutBits;
    if rep == 0 {
      DecideSynced(c, s, d0, 0, w, data);
    } else {
      var c1, bit := Decide(c, d0, 1), if rep == 1 then 0 else 1;
      DecideLeads(c1, d1, bit, w, BackStream(data));
      DecideSynced(c, s, d0, 1, w, data);
      DecideSynced(c1, TakeBit(s, data, d0).source, d1, bit, w, data);
    }
  }

  lemma {:induction false} OffsetLeads(c: Coder, a: Alphabet, offset: nat, w: seq<Word>, back: seq<Bit>)
    requires Started(c) && a in {LzOffsetSyms, DeltaOffsetSyms} && 1 <= offset < c.model.size <= OFFSET_SENTINEL
    requires Leads(EncodeOffset(c, a, offset), w, back)
    ensures Leads(c, w, back)
  {
    hide Leads, InStep, ValidModel, ValidEnc, TakeBit, TakeSymbol, TakeBits, Decide, PutSymbol, PutBits;
    ModelTable(c.model);
    OffsetSlotCovers(c.model.bases, offset, c.model.size);
    var slot := FindOffsetSlot(c.model.bases, offset);
    PutBitsLeads(PutSymbol(c, a, slot), offset - c.model.bases[slot], ExtraBits(c.model.bases, slot), w, back);
    PutSymbolLeads(c, a, slot, w, back);
  }

  lemma {:induction false} OffsetSynced(c: Coder, s: Source, a: Alphabet, offset: nat,
                                        w: seq<Word>, data: seq<Byte>)
    requires Started(c) && a in {LzOffsetSyms, DeltaOffsetSyms} && 1 <= offset < c.model.size <= OFFSET_SENTINEL
    requires Synced(c, s, w, data) && Leads(EncodeOffset(c, a, offset), w, BackStream(data))
    ensures TakeOffset(s, a).TakenNumber? && TakeOffset(s, a).val == offset
    ensures Synced(EncodeOffset(c, a, offset), TakeOffset(s, a).source, w, data)
  {
    hide Leads, InStep, ValidModel, ValidEnc, TakeBit, TakeSymbol, TakeBits, Decide, PutSymbol, PutBits;
    ModelTable(c.model);
    OffsetSlotCovers(c.model.bases, offset, c.model.size);
    var slot := FindOffsetSlot(c.model.bases, offset);
    var base, n := c.model.bases[slot], ExtraBits(c.model.bases, slot);
    PutBitsLeads(PutSymbol(c, a, slot), offset - base, n, w, BackStream(data));
    PutSymbolSynced(c, s, a, slot, w, data);
    PutBitsSynced(PutSymbol(c, a, slot), TakeSymbol(s, a).source, offset - base, n, w, data);
  }

  lemma {:induction false} LengthLeads(c: Coder, length: nat, w: seq<Word>, back: seq<Bit>)
    requires Started(c) && 1 <= length <= MAX_MATCH_LEN && Leads(EncodeLength(c, length), w, back)
    ensures Leads(c, w, back)
  {
    hide Leads, InStep, ValidModel, ValidEnc, TakeBit, TakeSymbol, TakeBits, Decide, PutSymbol, PutBits;
    LengthSlotCovers(length);
    var slot := FindLengthSlot(length);
    PutBitsLeads(PutSymbol(c, LengthSyms, slot), length - LENGTH_BASES[slot], LENGTH_EXTRA[slot], w, back);
    PutSymbolLeads(c, LengthSyms, slot, w, back);
  }

  lemma {:induction false} LengthSynced(c: Coder, s: Source, length: nat, w: seq<Word>, data: seq<Byte>)
    requires Started(c) && 1 <= length <= MAX_MATCH_LEN
    requires Synced(c, s, w, data) && Leads(EncodeLength(c, length), w, BackStream(data))
    ensures TakeLength(s).TakenNumber? && TakeLength(s).val == length
    ensures Synced(EncodeLength(c, length), TakeLength(s).source, w, data)
  {
    hide Leads, InStep, ValidModel, ValidEnc, TakeBit, TakeSymbol, TakeBits, Decide, PutSymbol, PutBits;
    LengthSlotCovers(length);
    var slot := FindLengthSlot(length);
    PutBitsLeads(PutSymbol(c, LengthSyms, slot), length - LENGTH_BASES[slot], LENGTH_EXTRA[slot], w, BackStream(data));
    PutSymbolSynced(c, s, LengthSyms, slot, w, data);
    PutBitsSynced(PutSymbol(c, LengthSyms, slot), TakeSymbol(s, LengthSyms).source,
                  length - LENGTH_BASES[slot], LENGTH_EXTRA[slot], w, data);
  }

  lemma {:induction false} LzOffsetLeads(c: Coder, rep: Option<nat>, offset: nat, w: seq<Word>, back: seq<Bit>)
    requires Started(c) && (rep.None? ==> 1 <= offset < c.model.size <= OFFSET_SENTINEL)
    requires Leads(EncodeLzOffset(c, rep, offset), w, back)
    ensures Leads(Decide(c, Lz, if rep.Some? then 1 else 0), w, back) && Leads(c, w, back)
  {
    hide Leads, InStep, ValidModel, ValidEnc, TakeBit, TakeSymbol, TakeBits, Decide, PutSymbol, PutBits;
    match rep
    case Some(r) =>
      RepLeads(Decide(c, Lz, 1), LzRep0, LzRep1, r, w, back);
      DecideLeads(c, Lz, 1, w, back);
    case None =>
      OffsetLeads(Decide(c, Lz, 0), LzOffsetSyms, offset, w, back);
      DecideLeads(c, Lz, 0, w, back);
  }

  lemma {:induction false} LzOffsetSynced(c: Coder, s: Source, h: History, rep: Option<nat>, offset: nat,
                                          w: seq<Word>, data: seq<Byte>)
    requires Started(c) && ValidHistory(h) && Codable(LzMatch(rep, offset, 1), h, c.model.size)
    requires Synced(c, s, w, data) && Leads(EncodeLzOffset(c, rep, offset), w, BackStream(data))
    ensures var t := TakeLzOffset(s, data, h);
            && t.TakenOffset? && t.rep == rep && t.offset == offset
            && Synced(EncodeLzOffset(c, rep, offset), t.source, w, data)
  {
    hide Leads, InStep, ValidModel, ValidEnc, TakeBit, TakeSymbol, TakeBits, Decide, PutSymbol, PutBits;
    var bit := if rep.Some? then 1 else 0;
    LzOffsetLeads(c, rep, offset, w, BackStream(data));
    DecideSynced(c, s, Lz, bit, w, data);
    var c1, s1 := Decide(c, Lz, bit), TakeBit(s, data, Lz).source;
    match rep
    case Some(r) => RepSynced(c1, s1, LzRep0, LzRep1, r, w, data);
    case None => OffsetSynced(c1, s1, LzOffsetSyms, offset, w, data);
  }

  lemma {:induction false} LzSynced(c: Coder, s: Source, h: History, rep: Option<nat>, offset: nat, length: nat,
                                    w: seq<Word>, data: seq<Byte>)
    requires Started(c) && ValidHistory(h) && Codable(LzMatch(rep, offset, length), h, c.model.size)
    requires Synced(c, s, w, data)
    requires Leads(EncodeLength(EncodeLzOffset(c, rep, offset), length), w, BackStream(data))
    ensures var t := TakeLz(s, data, h);
            && t.TakenItem? && t.item == LzMatch(rep, offset, length)
            && t.history == After(h, LzMatch(rep, offset, length))
            && Synced(EncodeLength(EncodeLzOffset(c, rep, offset), length), t.source, w, data)
  {
    hide Leads, InStep, ValidModel, ValidEnc, TakeLzOffset, TakeLength, EncodeLzOffset, EncodeLength;
    var c1 := EncodeLzOffset(c, rep, offset);
    LengthLeads(c1, length, w, BackStream(data));
    LzOffsetSynced(c, s, h, rep, offset, w, data);
    LengthSynced(c1, TakeLzOffset(s, data, h).source, length, w, data);
  }

  lemma {:induction false} NewDeltaLeads(c: Coder, offset: nat, power: nat, w: seq<Word>, back: seq<Bit>)
    requires Started(c) && power < 8 && 1 <= offset < c.model.size <= OFFSET_SENTINEL
    requires Leads(EncodeOffset(PutSymbol(c, DeltaPowerSyms, power), DeltaOffsetSyms, offset), w, back)
    ensures Leads(PutSymbol(c, DeltaPowerSyms, power), w, back) && Leads(c, w, back)
  {
    hide Leads, InStep, ValidModel, ValidEnc, TakeBit, TakeSymbol, TakeBits, Decide, PutSymbol, PutBits, EncodeOffset,
         EncodeRep;
    OffsetLeads(PutSymbol(c, DeltaPowerSyms, power), DeltaOffsetSyms, offset, w, back);
    PutSymbolLeads(c, DeltaPowerSyms, power, w, back);
  }

  lemma {:induction false} DeltaOffsetLeads(c: Coder, rep: Option<nat>, offset: nat, power: nat,
                                            w: seq<Word>, back: seq<Bit>)
    requires Started(c) && power < 8 && (rep.None? ==> 1 <= offset < c.model.size <= OFFSET_SENTINEL)
    requires Leads(EncodeDeltaOffset(c, rep, offset, power), w, back)
    ensures Leads(Decide(c, Delta, if rep.Some? then 1 else 0), w, back) && Leads(c, w, back)
  {
    hide Leads, InStep, ValidModel, ValidEnc, TakeBit, TakeSymbol, TakeBits, Decide, PutSymbol, PutBits, EncodeOffset,
         EncodeRep;
    match rep
    case Some(r) =>
      RepLeads(Decide(c, Delta, 1), DeltaRep0, DeltaRep1, r, w, back);
      DecideLeads(c, Delta, 1, w, back);
    case None =>
      NewDeltaLeads(Decide(c, Delta, 0), offset, power, w, back);
      DecideLeads(c, Delta, 0, w, back);
  }

  lemma {:induction false} NewDeltaSynced(c: Coder, s: Source, offset: nat, power: nat, w: seq<Word>, data: seq<Byte>)
    requires Started(c) && power < 8 && 1 <= offset < c.model.size <= OFFSET_SENTINEL && Synced(c, s, w, data)
    requires Leads(EncodeOffset(PutSymbol(c, DeltaPowerSyms, power), DeltaOffsetSyms, offset), w, BackStream(data))
    ensures var t := TakeNewDelta(s);
            && t.TakenOffset? && t.rep == None && t.offset == offset && t.power == power
            && Synced(EncodeOffset(PutSymbol(c, DeltaPowerSyms, power), DeltaOffsetSyms, offset), t.source, w, data)
  {
    hide Leads, InStep, ValidModel, ValidEnc, TakeBit, TakeSymbol, TakeBits, Decide, PutSymbol, PutBits, EncodeOffset,
         EncodeRep;
    var c1 := PutSymbol(c, DeltaPowerSyms, power);
    NewDeltaLeads(c, offset, power, w, BackStream(data));
    PutSymbolSynced(c, s, DeltaPowerSyms, power, w, data);
    OffsetSynced(c1, TakeSymbol(s, DeltaPowerSyms).source, DeltaOffsetSyms, offset, w, data);
  }

  lemma {:induction false} DeltaOffsetSynced(c: Coder, s: Source, h: History, rep: Option<nat>, offset: nat,
                                             power: nat, w: seq<Word>, data: seq<Byte>)
    requires Started(c) && ValidHistory(h) && Codable(DeltaMatch(rep, offset, power, 1), h, c.model.size)
    requires Synced(c, s, w, data) && Leads(EncodeDeltaOffset(c, rep, offset, power), w, BackStream(data))
    ensures var t := TakeDeltaOffset(s, data, h);
            && t.TakenOffset? && t.rep == rep && t.offset == offset && t.power == power
            && Synced(EncodeDeltaOffset(c, rep, offset, power), t.source, w, data)
  {
    hide Leads, InStep, ValidModel, ValidEnc, TakeBit, TakeSymbol, TakeBits, Decide, PutSymbol, PutBits;
    var bit := if rep.Some? then 1 else 0;
    DeltaOffsetLeads(c, rep, offset, power, w, BackStream(data));
    DecideSynced(c, s, Delta, bit, w, data);
    var c1, s1 := Decide(c, Delta, bit), TakeBit(s, data, Delta).source;
    match rep
    case Some(r) => RepSynced(c1, s1, DeltaRep0, DeltaRep1, r, w, data);
    case None =>
      NewDeltaSynced(c1, s1, offset, power, w, data);
  }

  lemma {:induction false} DeltaSynced(c: Coder, s: Source, h: History, rep: Option<nat>, offset: nat, power: nat,
                                       length: nat, w: seq<Word>, data: seq<Byte>)
    requires Started(c) && ValidHistory(h) && Codable(DeltaMatch(rep, offset, power, length), h, c.model.size)
    requires Synced(c, s, w, data)
    requires Leads(EncodeLength(EncodeDeltaOffset(c, rep, offset, power), length), w, BackStream(data))
    ensures var t := TakeDelta(s, data, h);
            && t.TakenItem? && t.item == DeltaMatch(rep, offset, power, length)
            && t.history == After(h, DeltaMatch(rep, offset, power, length))
            && Synced(EncodeLength(EncodeDeltaOffset(c, rep, offset, power), length), t.source, w, data)
  {
    hide Leads, InStep, ValidModel, ValidEnc, TakeDeltaOffset, TakeLength, EncodeDeltaOffset, EncodeLength;
    var c1 := EncodeDeltaOffset(c, rep, offset, power);
    LengthLeads(c1, length, w, BackStream(data));
    DeltaOffsetSynced(c, s, h, rep, offset, power, w, data);
    LengthSynced(c1, TakeDeltaOffset(s, data, h).source, length, w, data);
  }

  lemma {:induction false} ItemLeads(c: Coder, h: History, item: Item, w: seq<Word>, back: seq<Bit>)
    requires ValidCoder(c) && (Started(c) || item.Literal?)
    requires ValidHistory(h) && Codable(item, h, c.model.size)
    requires Leads(EncodeItem(c, h, item), w, back)
    ensures Leads(Decide(c, Main, if item.Literal? then 0 else 1), w, back) && Leads(c, w, back)
    ensures !item.Literal? ==>
              Leads(Decide(Decide(c, Main, 1), Match, if item.LzMatch? then 0 else 1), w, back)
  {
    hide Leads, InStep, ValidModel, ValidEnc, Decide, PutSymbol, PutBits, EncodeLzOffset, EncodeDeltaOffset,
         EncodeLength;
    match item
    case Literal(b) =>
      PutSymbolLeads(Decide(c, Main, 0), LiteralSyms, b, w, back);
      DecideLeads(c, Main, 0, w, back);
    case LzMatch(rep, offset, length) =>
      var c2 := Decide(Decide(c, Main, 1), Match, 0);
      LengthLeads(EncodeLzOffset(c2, rep, offset), length, w, back);
      LzOffsetLeads(c2, rep, offset, w, back);
      DecideLeads(Decide(c, Main, 1), Match, 0, w, back);
      DecideLeads(c, Main, 1, w, back);
    case DeltaMatch(rep, offset, power, length) =>
      var c2 := Decide(Decide(c, Main, 1), Match, 1);
      LengthLeads(EncodeDeltaOffset(c2, rep, offset, power), length, w, back);
      DeltaOffsetLeads(c2, rep, offset, power, w, back);
      DecideLeads(Decide(c, Main, 1), Match, 1, w, back);
      DecideLeads(c, Main, 1, w, back);
  }

  /** One item: the decoder recovers it, and models, queues and both streams agree again. */
  lemma {:induction false} ItemSynced(c: Coder, s: Source, h: History, item: Item, w: seq<Word>, data: seq<Byte>)
    requires ValidCoder(c) && (Started(c) || item.Literal?)
    requires ValidHistory(h) && Codable(item, h, c.model.size)
    requires Synced(c, s, w, data) && Leads(EncodeItem(c, h, item), w, BackStream(data))
    ensures var t := TakeItem(s, data, h);
            && t.TakenItem? && t.item == item && t.history == After(h, item)
            && Synced(EncodeItem(c, h, item), t.source, w, data)
  {
    hide Leads, InStep, ValidModel, ValidEnc, TakeBit, TakeSymbol, Decide, PutSymbol, TakeLz, TakeDelta,
         EncodeLzOffset, EncodeDeltaOffset, EncodeLength;
    ItemLeads(c, h, item, w, BackStream(data));
    var bit := if item.Literal? then 0 else 1;
    DecideSynced(c, s, Main, bit, w, data);
    var c1, s1 := Decide(c, Main, bit), TakeBit(s, data, Main).source;
    match item
    case Literal(b) =>
      PutSymbolSynced(c1, s1, LiteralSyms, b, w, data);
    case LzMatch(rep, offset, length) =>
      DecideSynced(c1, s1, Match, 0, w, data);
      LzSynced(Decide(c1, Match, 0), TakeBit(s1, data, Match).source, h, rep, offset, length, w, data);
    case DeltaMatch(rep, offset, power, length) =>
      DecideSynced(c1, s1, Match, 1, w, data);
      DeltaSynced(Decide(c1, Match, 1), TakeBit(s1, data, Match).source, h, rep, offset, power, length, w, data);
  }
}
