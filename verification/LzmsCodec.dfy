/** Whole LZMS streams: what a parse of the input is, how the decoder replays it, and the round trip. */
module LzmsCodec {
  import opened Powers
  import opened BitStrings
  import opened RangeCoding
  import opened BackBits
  import opened SlotTables
  import opened LzmsCoder
  import opened LzmsItems
  import opened X86Filter

  datatype Result<T> = Ok(value: T) | Err(error: Error)

  const MAX_OUTPUT := 0x400_0000

  // --- Replaying items ---

  /** Append `n` bytes, each equal to the byte `offset` before it; the source may overlap the copy. */
  function LzCopy(out: seq<Byte>, offset: nat, n: nat): (r: seq<Byte>)
    requires 1 <= offset <= |out|
    ensures |r| == |out| + n && out <= r
    decreases n
  {
    if n == 0 then out else LzCopy(out + [out[|out| - offset]], offset, n - 1)
  }

  /** The byte at `i` when the differences over `span` bytes repeat at distance `offset`. */
  function DeltaByte(out: seq<Byte>, i: nat, offset: nat, span: nat): Byte
    requires i <= |out| && 1 <= offset && 1 <= span && offset + span <= i
  {
    var a: nat, b: nat, c: nat := out[i - offset], out[i - span], out[i - offset - span];
    ((a + b) % 0x100 + 0x100 - c) % 0x100
  }

  function DeltaCopy(out: seq<Byte>, offset: nat, span: nat, n: nat): (r: seq<Byte>)
    requires 1 <= offset && 1 <= span && offset + span <= |out|
    ensures |r| == |out| + n && out <= r
    decreases n
  {
    if n == 0 then out else DeltaCopy(out + [DeltaByte(out, |out|, offset, span)], offset, span, n - 1)
  }

  function Length(item: Item): nat {
    match item
    case Literal(_) => 1
    case LzMatch(_, _, length) => length
    case DeltaMatch(_, _, _, length) => length
  }

  /** Append what `item` stands for, cut off after `room` bytes. */
  function Replay(out: seq<Byte>, item: Item, room: nat): (r: Result<seq<Byte>>)
    requires Replayable(item) && room > 0
    ensures r.Ok? ==> |out| < |r.value| <= |out| + room && out <= r.value
  {
    match item
    case Literal(b) => Ok(out + [b])
    case LzMatch(_, offset, length) =>
      if offset > |out| then Err(OffsetPastStart) else Ok(LzCopy(out, offset, Min(length, room)))
    case DeltaMatch(_, offset, power, length) =>
      var span := Pow2(power);
      if offset * span + span > |out| then Err(DeltaPastStart)
      else
        MulMonotone(span, 1, offset);
        Ok(DeltaCopy(out, offset * span, span, Min(length, room)))
  }

  // --- Decoding ---

  function DecodeItems(s: Source, data: seq<Byte>, h: History, out: seq<Byte>, size: nat): (r: Result<seq<Byte>>)
    requires ValidModel(s.model) && ValidHistory(h) && |out| <= size
    ensures r.Ok? ==> |r.value| == size && out <= r.value
    decreases size - |out|
  {
    if |out| == size then Ok(out)
    else
      match TakeItem(s, data, h)
      case NoItem => Err(BadSymbol)
      case TakenItem(item, s', h') =>
        match Replay(out, item, size - |out|)
        case Err(e) => Err(e)
        case Ok(out') => DecodeItems(s', data, h', out', size)
  }

  function DecodeStream(data: seq<Byte>, size: nat, bases: seq<nat>): (r: Result<seq<Byte>>)
    requires |data| >= 4 && OffsetTable(bases)
    ensures r.Ok? ==> |r.value| == size
  {
    match DecodeItems(NewSource(data, size, bases), data, INITIAL_HISTORY, [], size)
    case Err(e) => Err(e)
    case Ok(out) => Ok(X86(out, true))
  }

  function Decompress(data: seq<Byte>, size: nat): (r: Result<seq<Byte>>)
    ensures r.Ok? && data != [] ==> |r.value| == size
    ensures size > MAX_OUTPUT && data != [] ==> r == Err(TooLarge)
  {
    if |data| == 0 || size == 0 then Ok([])
    else if size > MAX_OUTPUT then Err(TooLarge)
    else if |data| < 4 || |data| % 2 != 0 then Err(BadInputLength)
    else
      OffsetTableContiguous();
      DecodeStream(data, size, OffsetBases())
  }

  // --- Parses ---

  /** `item` reproduces the bytes of `d` from `pos` on from what lies before them. */
  predicate Explains(item: Item, d: seq<Byte>, pos: nat)
    requires pos <= |d|
  {
    && pos + Length(item) <= |d|
    && match item
       case Literal(b) => d[pos] == b
       case LzMatch(_, offset, length) =>
         1 <= offset <= pos && 1 <= length && forall k :: pos <= k < pos + length ==> d[k] == d[k - offset]
       case DeltaMatch(_, offset, power, length) =>
         && 1 <= offset && 1 <= length && power < 8
         && DeltaExplains(d, pos, offset * Pow2(power), Pow2(power), length)
  }

  predicate DeltaExplains(d: seq<Byte>, pos: nat, offset: nat, span: nat, n: nat)
    requires pos + n <= |d|
  {
    && 1 <= offset && 1 <= span && offset + span <= pos
    && forall k :: pos <= k < pos + n ==> d[k] == DeltaByte(d, k, offset, span)
  }

  /** The items cover `d` from `pos` to its end, and each can be coded when its turn comes. */
  predicate ValidParse(d: seq<Byte>, pos: nat, h: History, items: seq<Item>)
    requires pos <= |d| && ValidHistory(h)
    decreases |items|
  {
    if |items| == 0 then pos == |d|
    else
      && Explains(items[0], d, pos) && Codable(items[0], h, |d|)
      && ValidParse(d, pos + Length(items[0]), After(h, items[0]), items[1..])
  }

  /** The coder is ready for the items from `pos` on. Nothing can match at position 0, so the first
      decision bit of a stream is 0. */
  predicate Encodable(c: Coder, d: seq<Byte>, pos: nat, h: History, items: seq<Item>) {
    && ValidCoder(c) && pos <= |d| && |d| == c.model.size && (pos > 0 ==> Started(c))
    && ValidHistory(h) && ValidParse(d, pos, h, items)
  }

  lemma {:induction false} EncodableNext(c: Coder, d: seq<Byte>, pos: nat, h: History, items: seq<Item>)
    requires Encodable(c, d, pos, h, items) && |items| > 0
    ensures var item := items[0];
            && (Started(c) || item.Literal?) && Codable(item, h, c.model.size)
            && Replayable(item) && pos + Length(item) <= |d|
            && Started(EncodeItem(c, h, item)) && SameStream(EncodeItem(c, h, item).model, c.model)
            && Encodable(EncodeItem(c, h, item), d, pos + Length(item), After(h, item), items[1..])
  {
    hide ValidModel, ValidEnc, EncodeItem;
    var item := items[0];
    assert Explains(item, d, pos);
  }

  function EncodeItems(c: Coder, d: seq<Byte>, pos: nat, h: History, items: seq<Item>): (c': Coder)
    requires Encodable(c, d, pos, h, items)
    decreases |items|
  {
    if |items| > 0 then
      EncodableNext(c, d, pos, h, items);
      EncodeItems(EncodeItem(c, h, items[0]), d, pos + Length(items[0]), After(h, items[0]), items[1..])
    else c
  }

  lemma {:induction false} EncodedStarted(c: Coder, d: seq<Byte>, pos: nat, h: History, items: seq<Item>)
    requires Encodable(c, d, pos, h, items)
    ensures var c' := EncodeItems(c, d, pos, h, items);
            ValidCoder(c') && SameStream(c'.model, c.model) && (pos < |d| || Started(c) ==> Started(c'))
    decreases |items|
  {
    hide ValidModel, ValidEnc, EncodeItem, Codable, After;
    if |items| > 0 {
      EncodableNext(c, d, pos, h, items);
      EncodedStarted(EncodeItem(c, h, items[0]), d, pos + Length(items[0]), After(h, items[0]), items[1..]);
    }
  }

  // --- Each item replays to the bytes it explains ---

  lemma {:induction false} LzCopyReplays(d: seq<Byte>, pos: nat, offset: nat, n: nat)
    requires 1 <= offset <= pos && pos + n <= |d| && forall k :: pos <= k < pos + n ==> d[k] == d[k - offset]
    ensures LzCopy(d[..pos], offset, n) == d[..pos + n]
    decreases n
  {
    if n > 0 {
      assert d[..pos] + [d[pos - offset]] == d[..pos + 1];
      LzCopyReplays(d, pos + 1, offset, n - 1);
    }
  }

  lemma {:induction false} DeltaCopyReplays(d: seq<Byte>, pos: nat, offset: nat, span: nat, n: nat)
    requires pos + n <= |d| && DeltaExplains(d, pos, offset, span, n)
    ensures DeltaCopy(d[..pos], offset, span, n) == d[..pos + n]
    decreases n
  {
    if n > 0 {
      assert DeltaByte(d[..pos], pos, offset, span) == DeltaByte(d, pos, offset, span);
      assert d[..pos] + [DeltaByte(d, pos, offset, span)] == d[..pos + 1];
      DeltaCopyReplays(d, pos + 1, offset, span, n - 1);
    }
  }

  lemma {:induction false} ItemReplays(d: seq<Byte>, pos: nat, item: Item)
    requires pos < |d| && Explains(item, d, pos)
    ensures Replayable(item) && Replay(d[..pos], item, |d| - pos) == Ok(d[..pos + Length(item)])
  {
    match item
    case Literal(b) =>
      assert d[..pos] + [b] == d[..pos + 1];
    case LzMatch(_, offset, length) =>
      LzCopyReplays(d, pos, offset, length);
    case DeltaMatch(_, offset, power, length) =>
      DeltaCopyReplays(d, pos, offset * Pow2(power), Pow2(power), length);
  }

  // --- The round trip ---

  lemma {:induction false} ItemsLead(c: Coder, d: seq<Byte>, pos: nat, h: History, items: seq<Item>,
                                     w: seq<Word>, back: seq<Bit>)
    requires Encodable(c, d, pos, h, items)
    requires Leads(EncodeItems(c, d, pos, h, items), w, back)
    ensures Leads(c, w, back)
    decreases |items|
  {
    hide Leads, EncodeItem, Codable, After;
    if |items| > 0 {
      EncodableNext(c, d, pos, h, items);
      var c1 := EncodeItem(c, h, items[0]);
      ItemsLead(c1, d, pos + Length(items[0]), After(h, items[0]), items[1..], w, back);
      ItemLeads(c, h, items[0], w, back);
    }
  }

  /** From any point of a stream on: decoding the rest replays the rest of the parse. */
  lemma {:induction false} ItemsSynced(c: Coder, s: Source, d: seq<Byte>, pos: nat, h: History, items: seq<Item>,
                                       w: seq<Word>, data: seq<Byte>)
    requires Encodable(c, d, pos, h, items)
    requires Synced(c, s, w, data)
    requires Leads(EncodeItems(c, d, pos, h, items), w, BackStream(data))
    ensures DecodeItems(s, data, h, d[..pos], |d|) == Ok(d)
    decreases |items|
  {
    hide Leads, InStep, EncodeItem, Codable, After, TakeItem, Replay, ValidModel, ValidEnc;
    if |items| == 0 {
      assert d[..pos] == d;
    } else {
      EncodableNext(c, d, pos, h, items);
      var item, rest, h1 := items[0], items[1..], After(h, items[0]);
      var c1, pos1 := EncodeItem(c, h, item), pos + Length(item);
      ItemsLead(c1, d, pos1, h1, rest, w, BackStream(data));
      ItemSynced(c, s, h, item, w, data);
      ItemReplays(d, pos, item);
      ItemsSynced(c1, TakeItem(s, data, h).source, d, pos1, h1, rest, w, data);
    }
  }

  function EncodeStream(d: seq<Byte>, bases: seq<nat>, items: seq<Item>): (r: seq<Byte>)
    requires OffsetTable(bases) && ValidParse(d, 0, INITIAL_HISTORY, items)
  {
    Stream(EncodeItems(NewCoder(|d|, bases), d, 0, INITIAL_HISTORY, items))
  }

  lemma {:induction false} StreamRoundTrip(d: seq<Byte>, bases: seq<nat>, items: seq<Item>)
    requires OffsetTable(bases) && |d| > 0 && ValidParse(d, 0, INITIAL_HISTORY, items)
    ensures var data := EncodeStream(d, bases, items);
            && |data| >= 4 && |data| % 2 == 0
            && DecodeStream(data, |d|, bases) == Ok(X86(d, true))
  {
    hide Leads, Synced, EncodeItems, DecodeItems, ValidModel, ValidParse, OffsetTable;
    var c0 := NewCoder(|d|, bases);
    var c := EncodeItems(c0, d, 0, INITIAL_HISTORY, items);
    var data, w := Stream(c), Finish(c.rc);
    EncodedStarted(c0, d, 0, INITIAL_HISTORY, items);
    StreamShape(c);
    StreamLeads(c);
    StreamStarts(c);
    ItemsSynced(c0, NewSource(data, |d|, bases), d, 0, INITIAL_HISTORY, items, w, data);
    assert d[..0] == [];
  }

  /** The round trip, for every input up to 64 MiB and every valid parse of the filtered input. */
  lemma {:induction false} RoundTrip(x: seq<Byte>, items: seq<Item>)
    requires 1 <= |x| <= MAX_OUTPUT && ValidParse(X86(x, false), 0, INITIAL_HISTORY, items)
    ensures OffsetTable(OffsetBases())
    ensures Decompress(EncodeStream(X86(x, false), OffsetBases(), items), |x|) == Ok(x)
  {
    hide ValidParse, EncodeStream, DecodeStream, OffsetTable, OffsetBases, X86;
    OffsetTableContiguous();
    var d := X86(x, false);
    StreamRoundTrip(d, OffsetBases(), items);
    X86RoundTrip(x, false);
  }
}
