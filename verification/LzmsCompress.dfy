/** The compressor: it follows some valid parse of the filtered input, so decompressing gives the input back. */
module LzmsCompress {
  import opened Powers
  import opened RangeCoding
  import opened CanonicalCode
  import opened SlotTables
  import opened LzmsCoder
  import opened LzmsItems
  import opened LzmsCodec
  import opened LzmsModel
  import opened LzmsEncoder
  import opened LzmsFinder
  import opened X86Filter

  // --- A stream written item by item ---

  /** Whatever parse continues the stream from state `c` at `pos`, `items` leads to it from the start. */
  ghost predicate LeadsTo(c0: Coder, d: seq<Byte>, items: seq<Item>, c: Coder, pos: nat, h: History) {
    forall rest :: Encodable(c, d, pos, h, rest) ==>
                     && Encodable(c0, d, 0, INITIAL_HISTORY, items + rest)
                     && EncodeItems(c0, d, 0, INITIAL_HISTORY, items + rest) == EncodeItems(c, d, pos, h, rest)
  }

  lemma {:induction false} LeadsToStart(c0: Coder, d: seq<Byte>)
    ensures LeadsTo(c0, d, [], c0, 0, INITIAL_HISTORY)
  {
    hide EncodeItems, Encodable;
    forall rest: seq<Item> ensures [] + rest == rest {
    }
  }

  lemma {:induction false} LeadsToNext(c0: Coder, d: seq<Byte>, items: seq<Item>, c: Coder, pos: nat, h: History,
                                       item: Item)
    requires LeadsTo(c0, d, items, c, pos, h)
    requires ValidCoder(c) && pos < |d| && |d| == c.model.size && (pos > 0 ==> Started(c)) && ValidHistory(h)
    requires Explains(item, d, pos) && Codable(item, h, |d|)
    ensures Started(c) || item.Literal?
    ensures Replayable(item)
    ensures LeadsTo(c0, d, items + [item], EncodeItem(c, h, item), pos + Length(item), After(h, item))
  {
    hide EncodeItem, ValidModel, ValidEnc, Codable, After;
    var c1, pos1, h1 := EncodeItem(c, h, item), pos + Length(item), After(h, item);
    forall rest | Encodable(c1, d, pos1, h1, rest)
      ensures Encodable(c0, d, 0, INITIAL_HISTORY, (items + [item]) + rest)
      ensures EncodeItems(c0, d, 0, INITIAL_HISTORY, (items + [item]) + rest) == EncodeItems(c1, d, pos1, h1, rest)
    {
      assert (items + [item]) + rest == items + ([item] + rest);
      assert ([item] + rest)[1..] == rest;
      assert Encodable(c, d, pos, h, [item] + rest);
    }
  }

  lemma {:induction false} LeadsToEnd(c0: Coder, d: seq<Byte>, items: seq<Item>, c: Coder, h: History)
    requires LeadsTo(c0, d, items, c, |d|, h)
    requires ValidCoder(c) && |d| == c.model.size && (|d| > 0 ==> Started(c)) && ValidHistory(h)
    ensures Encodable(c0, d, 0, INITIAL_HISTORY, items) && EncodeItems(c0, d, 0, INITIAL_HISTORY, items) == c
  {
    assert Encodable(c, d, |d|, h, []);
    assert items + [] == items;
  }

  // --- Choosing items ---

  ghost predicate Apart(finder: Finder, recent: RecentOffsets) {
    {finder.head as object, finder.chain, finder.deltaHead} !! {recent as object, recent.lz, recent.delta}
  }

  lemma {:induction false} LzItem(d: seq<Byte>, pos: nat, h: History, rep: Option<nat>, offset: nat, len: nat)
    requires ValidHistory(h) && |d| <= OFFSET_SENTINEL && pos < |d| && len >= 1 && LzFits(d, pos, offset, len)
    requires rep.Some? ==> rep.value < 3 && h.offsets[LzPosition(h, rep.value)] == offset
    ensures var item := LzMatch(rep, offset, len); Explains(item, d, pos) && Codable(item, h, |d|)
  {
  }

  lemma {:induction false} DeltaItem(d: seq<Byte>, pos: nat, h: History, rep: Option<nat>, best: Found)
    requires ValidHistory(h) && |d| <= OFFSET_SENTINEL && pos < |d|
    requires best.len >= 1 && DeltaFits(d, pos, best.offset, best.power, best.len)
    requires rep.Some? ==> rep.value < 3 && h.deltas[DeltaPosition(h, rep.value)] == (best.offset, best.power)
    ensures var item := DeltaMatch(rep, best.offset, best.power, best.len);
            Explains(item, d, pos) && Codable(item, h, |d|)
  {
    MulMonotone(best.offset, 1, Pow2(best.power));
  }

  method LzCandidate(d: seq<Byte>, pos: nat, finder: Finder, recent: RecentOffsets) returns (best: Found)
    requires finder.Valid(d, pos) && recent.Valid() && Apart(finder, recent) && pos < |d|
    modifies finder.head, finder.chain
    ensures finder.Valid(d, pos + 1) && recent.Valid() && recent.Value() == old(recent.Value())
    ensures best.len > 0 ==> LzFits(d, pos, best.offset, best.len)
  {
    if pos + 3 < |d| {
      best := Finder.BestRecent(d, pos, recent);
      best := finder.BestChained(d, pos, best);
    } else {
      best := Found(0, 0, 0);
      finder.Later(d, pos, pos + 1);
    }
  }

  /** The item coded at `pos`. `take` stands for the price comparison: it may accept or refuse any match.
      Differences are looked for only where there is no usable LZ match. */
  method ChooseItem(d: seq<Byte>, pos: nat, finder: Finder, recent: RecentOffsets, take: nat -> bool)
    returns (item: Item)
    requires finder.Valid(d, pos) && recent.Valid() && Apart(finder, recent)
    requires pos < |d| <= OFFSET_SENTINEL
    modifies finder.head, finder.chain, finder.deltaHead
    ensures finder.Valid(d, pos + 1) && recent.Valid() && recent.Value() == old(recent.Value())
    ensures Explains(item, d, pos) && Codable(item, recent.Value(), |d|)
    ensures !take(pos) ==> item == Literal(d[pos])
  {
    var lz := LzCandidate(d, pos, finder, recent);
    var delta := Found(0, 0, 0);
    if lz.len < 3 && pos + 2 < |d| {
      delta := finder.BestDelta(d, pos);
    }
    item := Literal(d[pos]);
    if lz.len >= 3 && take(pos) {
      var rep := recent.FindLz(lz.offset);
      LzItem(d, pos, recent.Value(), rep, lz.offset, lz.len);
      item := LzMatch(rep, lz.offset, lz.len);
    } else if delta.len >= 3 && take(pos) {
      var rep := recent.FindDelta((delta.offset, delta.power));
      DeltaItem(d, pos, recent.Value(), rep, delta);
      item := DeltaMatch(rep, delta.offset, delta.power, delta.len);
    }
  }

  // --- The compressor ---

  ghost predicate Separate(enc: Encoder, finder: Finder, recent: RecentOffsets) {
    && {finder.head as object, finder.chain, finder.deltaHead, recent, recent.lz, recent.delta} !! enc.Repr
    && Apart(finder, recent)
  }

  lemma {:induction false} AreSeparate(enc: Encoder, finder: Finder, recent: RecentOffsets)
    requires {finder.head as object, finder.chain, finder.deltaHead, recent, recent.lz, recent.delta} !! enc.Repr
    requires {finder.head as object, finder.chain, finder.deltaHead} !! {recent as object, recent.lz, recent.delta}
    ensures Separate(enc, finder, recent)
  {
  }

  /** The encoder has written `items`, which cover `d` up to `pos`. */
  ghost predicate Written(c0: Coder, d: seq<Byte>, items: seq<Item>, enc: Encoder, recent: RecentOffsets, pos: nat)
    reads enc, enc.Repr, recent, recent.lz, recent.delta
  {
    && enc.Valid() && recent.Valid() && pos <= |d| && enc.size == |d|
    && (pos > 0 ==> Started(enc.State()))
    && LeadsTo(c0, d, items, enc.State(), pos, recent.Value())
  }

  lemma {:induction false} WrittenParts(c0: Coder, d: seq<Byte>, items: seq<Item>, enc: Encoder,
                                        recent: RecentOffsets, pos: nat)
    requires Written(c0, d, items, enc, recent, pos)
    ensures enc.Valid() && enc.Objects() && enc.bs.Valid() && ValidCoder(enc.State())
    ensures recent.Valid() && ValidHistory(recent.Value())
    ensures pos <= |d| && enc.size == |d| == enc.State().model.size
    ensures pos > 0 ==> Started(enc.State())
    ensures LeadsTo(c0, d, items, enc.State(), pos, recent.Value())
  {
    hide Encoder.Valid, Encoder.State, ValidModel, ValidEnc, LeadsTo;
    enc.StateParts();
  }

  method EncodeNext(ghost c0: Coder, d: seq<Byte>, ghost items: seq<Item>, enc: Encoder, finder: Finder,
                    recent: RecentOffsets, pos: nat, take: nat -> bool)
    returns (pos': nat, ghost item: Item)
    requires Written(c0, d, items, enc, recent, pos) && finder.Valid(d, pos) && Separate(enc, finder, recent)
    requires pos < |d| <= OFFSET_SENTINEL
    modifies enc`contexts, enc.rc, enc.bs, enc.codes.Values
    modifies finder.head, finder.chain, finder.deltaHead, recent, recent.lz, recent.delta
    ensures Written(c0, d, items + [item], enc, recent, pos') && finder.Valid(d, pos') && pos < pos' <= |d|
  {
    hide Encoder.Valid, Encoder.State, ValidModel, ValidEnc, LeadsTo, Codable, After, EncodeItem, RecentOffsets.Valid,
         RecentOffsets.Value, Explains, Replayable;
    WrittenParts(c0, d, items, enc, recent, pos);
    ghost var c, h := enc.State(), recent.Value();
    var next := ChooseItem(d, pos, finder, recent, take);
    item := next;
    LeadsToNext(c0, d, items, c, pos, h, next);
    enc.PutItem(h, next);
    recent.Record(next);
    pos' := pos + Length(next);
    finder.Later(d, pos + 1, pos');
  }

  lemma {:induction false} WrittenStart(d: seq<Byte>, enc: Encoder, recent: RecentOffsets)
    requires enc.Valid() && recent.Valid() && enc.size == |d| && enc.Objects() && enc.bs.Valid()
    requires recent.Value() == INITIAL_HISTORY
    ensures Written(enc.State(), d, [], enc, recent, 0)
  {
    hide Encoder.Valid, Encoder.State, ValidModel, ValidEnc, LeadsTo;
    LeadsToStart(enc.State(), d);
  }

  /** An even length; the stream already has one. */
  function PadEven(bs: seq<Byte>): seq<Byte> {
    if |bs| % 2 != 0 then bs + [0] else bs
  }

  method CompressItems(d: seq<Byte>, bases: seq<nat>, take: nat -> bool)
    returns (r: seq<Byte>, ghost items: seq<Item>)
    requires 0 < |d| <= OFFSET_SENTINEL && OffsetTable(bases)
    ensures ValidParse(d, 0, INITIAL_HISTORY, items) && r == EncodeStream(d, bases, items)
  {
    hide Encoder.Valid, Encoder.State, ValidModel, ValidEnc, LeadsTo, NewCoder, EncodeItems, Stream, Written,
         OffsetTable, ValidParse, Separate;
    var enc := new Encoder(|d|, bases);
    var finder := new Finder(d);
    var recent := new RecentOffsets();
    AreSeparate(enc, finder, recent);
    enc.StateParts();
    WrittenStart(d, enc, recent);
    ghost var c0 := enc.State();
    var pos := 0;
    items := [];
    while pos < |d|
      invariant Written(c0, d, items, enc, recent, pos) && finder.Valid(d, pos) && pos <= |d|
      invariant Separate(enc, finder, recent)
      decreases |d| - pos
    {
      ghost var item;
      pos, item := EncodeNext(c0, d, items, enc, finder, recent, pos, take);
      items := items + [item];
    }
    WrittenParts(c0, d, items, enc, recent, pos);
    LeadsToEnd(c0, d, items, enc.State(), recent.Value());
    StreamShape(enc.State());
    r := enc.Finish();
    r := PadEven(r);
  }

  method CompressData(x: seq<Byte>, take: nat -> bool) returns (r: seq<Byte>, ghost items: seq<Item>)
    requires |x| <= OFFSET_SENTINEL
    ensures OffsetTable(OffsetBases())
    ensures |x| == 0 ==> r == []
    ensures |x| > 0 ==> && ValidParse(X86(x, false), 0, INITIAL_HISTORY, items)
                        && r == EncodeStream(X86(x, false), OffsetBases(), items)
    ensures |x| <= MAX_OUTPUT ==> Decompress(r, |x|) == Ok(x)
  {
    hide ValidParse, EncodeStream, DecodeStream, OffsetTable, OffsetBases, X86;
    OffsetTableContiguous();
    items := [];
    if |x| == 0 {
      return [], items;
    }
    var filtered := new Byte[|x|](i requires 0 <= i < |x| => x[i]);
    assert filtered[..] == x;
    FilterInPlace(filtered, false);
    var bases := Generate();
    r, items := CompressItems(filtered[..], bases, take);
    if |x| <= MAX_OUTPUT {
      RoundTrip(x, items);
    }
  }
}
