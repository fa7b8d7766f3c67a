/** The decompressor of raw LZMS streams, against its meaning on values. */
module LzmsProgram {
  import opened RangeCoding
  import opened SlotTables
  import opened LzmsCoder
  import opened LzmsItems
  import opened LzmsCodec
  import opened LzmsModel
  import opened LzmsDecoder
  import opened LzmsReplay
  import opened X86Filter

  ghost predicate Separate(dec: Decoder, recent: RecentOffsets, out: array<Byte>) {
    && {out as object, recent, recent.lz, recent.delta} !! dec.Repr
    && (out as object) !in {recent as object, recent.lz, recent.delta}
  }

  lemma {:induction false} FreshSeparate(dec: Decoder, recent: RecentOffsets, out: array<Byte>)
    requires {out as object, recent, recent.lz, recent.delta} !! dec.Repr
    requires (out as object) !in {recent as object, recent.lz, recent.delta}
    ensures Separate(dec, recent, out)
  {
  }

  /** What decoding from here on comes to. */
  ghost function Remaining(dec: Decoder, recent: RecentOffsets, out: array<Byte>, pos: nat): Result<seq<Byte>>
    requires dec.Valid() && recent.Valid() && pos <= out.Length
    reads dec, dec.Repr, recent, recent.lz, recent.delta, out
  {
    DecodeItems(dec.State(), dec.data, recent.Value(), out[..pos], out.Length)
  }

  lemma {:induction false} RemainingEnd(dec: Decoder, recent: RecentOffsets, out: array<Byte>)
    requires dec.Valid() && recent.Valid()
    ensures Remaining(dec, recent, out, out.Length) == Ok(out[..])
  {
    hide Decoder.Valid, Decoder.State, ValidModel;
    dec.StateParts();
    assert out[..out.Length] == out[..];
  }

  lemma {:induction false} RemainingStart(dec: Decoder, recent: RecentOffsets, out: array<Byte>)
    requires dec.Valid() && recent.Valid()
    requires |dec.data| >= 4 && OffsetTable(dec.bases)
    requires dec.bs.Valid() && dec.Objects() && dec.State() == NewSource(dec.data, out.Length, dec.bases)
    requires recent.Value() == INITIAL_HISTORY
    ensures DecodeStream(dec.data, out.Length, dec.bases)
         == match Remaining(dec, recent, out, 0)
            case Err(e) => Err(e)
            case Ok(v) => Ok(X86(v, true))
  {
    hide Decoder.Valid, Decoder.State, ValidModel, NewSource, DecodeItems, OffsetTable, X86;
    dec.StateParts();
    assert out[..0] == [];
  }

  lemma {:induction false} RemainingStep(dec: Decoder, recent: RecentOffsets, out: array<Byte>, pos: nat)
    requires dec.Valid() && recent.Valid() && pos < out.Length
    requires ValidModel(dec.State().model)
    ensures Remaining(dec, recent, out, pos)
         == match LzmsItems.TakeItem(dec.State(), dec.data, recent.Value())
            case NoItem => Err(BadSymbol)
            case TakenItem(item, s', h') =>
              match Replay(out[..pos], item, out.Length - pos)
              case Err(e) => Err(e)
              case Ok(out') => DecodeItems(s', dec.data, h', out', out.Length)
  {
    hide Decoder.Valid, Decoder.State, ValidModel, LzmsItems.TakeItem, Replay;
  }

  /** One turn of the decoding loop: the next item and its bytes. */
  method DecodeNext(dec: Decoder, recent: RecentOffsets, out: array<Byte>, pos: nat) returns (r: Result<nat>)
    requires dec.Valid() && recent.Valid() && pos < out.Length && Separate(dec, recent, out)
    modifies dec`contexts, dec.rc, dec.bs, dec.codes.Values, recent, recent.lz, recent.delta, out
    ensures r.Ok? ==> dec.Valid() && recent.Valid() && pos < r.value <= out.Length
    ensures old(Remaining(dec, recent, out, pos))
         == match r
            case Err(e) => Err(e)
            case Ok(pos') => Remaining(dec, recent, out, pos')
  {
    hide Decoder.Valid, Decoder.State, ValidModel, LzmsItems.TakeItem, Replay, After, DecodeItems;
    dec.StateParts();
    RemainingStep(dec, recent, out, pos);
    var item := dec.TakeItem(recent);
    if item.None? {
      return Err(BadSymbol);
    }
    r := ReplayInPlace(out, pos, item.value);
  }

  method DecompressStream(data: seq<Byte>, size: nat, bases: seq<nat>) returns (r: Result<seq<Byte>>)
    requires |data| >= 4 && OffsetTable(bases)
    ensures r == DecodeStream(data, size, bases)
  {
    hide Decoder.Valid, Decoder.State, ValidModel, DecodeItems, X86, OffsetTable, NewSource, Remaining, Separate,
         DecodeStream;
    var out := new Byte[size](_ => 0);
    var dec := new Decoder(data, size, bases);
    var recent := new RecentOffsets();
    assert Separate(dec, recent, out) by { FreshSeparate(dec, recent, out); }
    dec.StateParts();
    RemainingStart(dec, recent, out);
    var pos := 0;
    ghost var goal := Remaining(dec, recent, out, 0);
    while pos < size
      invariant dec.Valid() && recent.Valid() && pos <= size && Separate(dec, recent, out)
      invariant goal == Remaining(dec, recent, out, pos)
      decreases size - pos
    {
      var next := DecodeNext(dec, recent, out, pos);
      if next.Err? {
        return Err(next.error);
      }
      pos := next.value;
    }
    RemainingEnd(dec, recent, out);
    FilterInPlace(out, true);
    r := Ok(out[..]);
  }

  method DecompressData(data: seq<Byte>, size: nat) returns (r: Result<seq<Byte>>)
    ensures r == Decompress(data, size)
  {
    if |data| == 0 || size == 0 {
      return Ok([]);
    }
    if size > MAX_OUTPUT {
      return Err(TooLarge);
    }
    if |data| < 4 || |data| % 2 != 0 {
      return Err(BadInputLength);
    }
    var bases := Generate();
    OffsetTableContiguous();
    r := DecompressStream(data, size, bases);
  }
}
