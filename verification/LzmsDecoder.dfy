/** The LZMS decoder as it runs: two readers over one buffer, five adaptive codes, the decision contexts and
    the output array, updated in place. */
module LzmsDecoder {
  import opened BitStrings
  import opened RangeCoding
  import opened RangeCodec
  import opened CanonicalCode
  import opened AdaptiveCodes
  import opened BackBits
  import opened SlotTables
  import opened LzmsCoder
  import opened LzmsItems
  import opened LzmsModel

  class Decoder {
    const data: seq<Byte>
    const size: nat
    const bases: seq<nat>
    const rc: RangeDecoder
    const bs: BackBitsReader
    const codes: map<Alphabet, AdaptiveCode>
    var contexts: map<Decision, Context>

    ghost const Repr: set<object>

    ghost predicate Objects() {
      && Repr == {this, rc, bs} + codes.Values
      && (forall a: Alphabet :: a in codes)
      && (forall a, b: Alphabet :: codes[a] == codes[b] ==> a == b)
    }

    ghost predicate Valid()
      reads this, Repr
    {
      && Objects() && this in Repr
      && rc.data == data && rc.Valid() && bs.data == data && bs.Valid()
      && (forall a: Alphabet :: codes[a].Valid())
      && ValidModel(State().model)
    }

    ghost function State(): Source
      requires Objects() && bs.Valid()
      reads this, Repr
    {
      Source(Model(size, bases, contexts, map a: Alphabet | true :: codes[a].Value()), rc.Value(), bs.Rest())
    }

    constructor (input: seq<Byte>, outputSize: nat, offsetBases: seq<nat>)
      requires |input| >= 4 && OffsetTable(offsetBases)
      ensures Valid() && fresh(Repr) && data == input && size == outputSize && bases == offsetBases
      ensures State() == NewSource(input, outputSize, offsetBases)
    {
      hide AdaptiveCode.Valid, AdaptiveCode.Value, NewCode, NewContexts, DecInit, BackStream, OffsetTable, ValidModel,
           NumOffsetSlots;
      OffsetTableSize(offsetBases);
      data, size, bases := input, outputSize, offsetBases;
      var reader := new BackBitsReader(input);
      var coder := new RangeDecoder(input);
      var slots := CountOffsetSlots(offsetBases, outputSize);
      var all := AllocateCodes(slots);
      rc, bs, codes := coder, reader, all;
      contexts := NewContexts();
      Repr := {this, coder, reader} + all.Values;
      new;
      NewModelIs(size, bases, slots, State().model.codes);
    }

    lemma StateParts()
      requires Valid()
      ensures Objects() && bs.Valid() && ValidModel(State().model)
      ensures State().model.bases == bases && OffsetTable(bases)
    {
    }

    lemma Apart(recent: RecentOffsets)
      requires Valid()
      ensures {recent, recent.lz, recent.delta} !! Repr
    {
      hide State, ValidModel, AdaptiveCode.Valid, BackBitsReader.Valid, RangeDecoder.Valid;
    }

    method TakeSymbol(a: Alphabet) returns (r: Option<nat>)
      requires Valid()
      modifies bs, codes[a]
      ensures Valid()
      ensures match LzmsCoder.TakeSymbol(old(State()), a)
              case NoSymbol => r == None
              case TakenSymbol(sym, s) => r == Some(sym) && State() == s
    {
      hide AdaptiveCode.Valid, AdaptiveCode.Value, BackBitsReader.Valid, BackBitsReader.Rest, ValidModel, FindSymbol,
           Observe, SetCode, NumSyms, SameStream;
      ghost var s := State();
      ModelCodes(s.model, a);
      r := codes[a].DecodeSymbol(bs);
      if r.Some? {
        CodeSet(s.model, a, r.value, State().model.codes);
      } else {
        assert State().model.codes == s.model.codes;
      }
    }

    method TakeBit(d: Decision) returns (bit: Bit)
      requires Valid()
      modifies this`contexts, rc
      ensures Valid() && TakenBit(bit, State()) == LzmsCoder.TakeBit(old(State()), data, d)
    {
      hide AdaptiveCode.Valid, AdaptiveCode.Value, BackBitsReader.Valid, BackBitsReader.Rest, DecodeBit, ValidModel;
      ghost var s := State();
      ModelContext(s.model, d);
      bit := rc.DecodeBit(ContextProb(contexts[d]));
      contexts := contexts[d := NextContext(contexts[d], bit)];
      assert State().model == SetContext(s.model, d, bit);
    }

    method TakeBits(n: nat) returns (val: nat)
      requires Valid() && n <= 32
      modifies bs
      ensures Valid() && TakenBits(val, State()) == LzmsCoder.TakeBits(old(State()), n)
    {
      hide AdaptiveCode.Valid, AdaptiveCode.Value, ValidModel;
      ghost var s := State();
      val := bs.ReadBits(n);
      assert State().model == s.model;
    }

    method TakeRep(d0: Decision, d1: Decision) returns (rep: nat)
      requires Valid()
      modifies this`contexts, rc
      ensures Valid() && TakenBits(rep, State()) == LzmsItems.TakeRep(old(State()), data, d0, d1)
    {
      hide Valid, State, ValidModel, LzmsCoder.TakeBit;
      var b0 := TakeBit(d0);
      if b0 == 0 {
        return 0;
      }
      var b1 := TakeBit(d1);
      rep := if b1 == 0 then 1 else 2;
    }

    method TakeOffset(a: Alphabet) returns (r: Option<nat>)
      requires Valid() && a in {LzOffsetSyms, DeltaOffsetSyms}
      modifies this`contexts, rc, bs, codes.Values
      ensures Valid()
      ensures match LzmsItems.TakeOffset(old(State()), a)
              case NoNumber => r == None
              case TakenNumber(val, s) => r == Some(val) && State() == s
    {
      hide Valid, State, ValidModel, LzmsCoder.TakeSymbol, LzmsCoder.TakeBits, OffsetTable, ExtraBits;
      StateParts();
      var slot := TakeSymbol(a);
      if slot.None? {
        return None;
      }
      SlotReadable(bases, slot.value);
      var extra := TakeBits(ExtraBits(bases, slot.value));
      r := Some(bases[slot.value] + extra);
    }

    method TakeLength() returns (r: Option<nat>)
      requires Valid()
      modifies this`contexts, rc, bs, codes.Values
      ensures Valid()
      ensures match LzmsItems.TakeLength(old(State()))
              case NoNumber => r == None
              case TakenNumber(val, s) => r == Some(val) && State() == s
    {
      hide Valid, State, ValidModel, LzmsCoder.TakeSymbol, LzmsCoder.TakeBits, LENGTH_BASES, LENGTH_EXTRA;
      StateParts();
      var slot := TakeSymbol(LengthSyms);
      if slot.None? {
        return None;
      }
      LengthTableSizes();
      LengthTable(slot.value);
      var extra := TakeBits(LENGTH_EXTRA[slot.value]);
      r := Some(LENGTH_BASES[slot.value] + extra);
    }

    method TakeLzOffset(recent: RecentOffsets) returns (rep: Option<nat>, offset: Option<nat>)
      requires Valid() && recent.Valid()
      modifies this`contexts, rc, bs, codes.Values
      ensures Valid()
      ensures match LzmsItems.TakeLzOffset(old(State()), data, recent.Value())
              case NoOffset => offset == None
              case TakenOffset(rep', val, _, s) => rep == rep' && offset == Some(val) && State() == s
    {
      hide Valid, State, ValidModel, LzmsCoder.TakeBit, LzmsItems.TakeOffset, LzmsItems.TakeRep;
      var bit := TakeBit(Lz);
      if bit == 0 {
        rep := None;
        offset := TakeOffset(LzOffsetSyms);
      } else {
        var r := TakeRep(LzRep0, LzRep1);
        rep, offset := Some(r), Some(recent.lz[Min(r + recent.prevType % 2, 3)]);
      }
    }

    method TakeNewDelta() returns (offset: Option<nat>, power: nat)
      requires Valid()
      modifies this`contexts, rc, bs, codes.Values
      ensures Valid()
      ensures match LzmsItems.TakeNewDelta(old(State()))
              case NoOffset => offset == None
              case TakenOffset(rep', val, p, s) => rep' == None && offset == Some(val) && power == p && State() == s
    {
      hide Valid, State, ValidModel, LzmsCoder.TakeSymbol, LzmsItems.TakeOffset;
      StateParts();
      var sym := TakeSymbol(DeltaPowerSyms);
      if sym.None? {
        return None, 0;
      }
      power := sym.value;
      offset := TakeOffset(DeltaOffsetSyms);
    }

    method TakeDeltaOffset(recent: RecentOffsets) returns (rep: Option<nat>, offset: Option<nat>, power: nat)
      requires Valid() && recent.Valid()
      modifies this`contexts, rc, bs, codes.Values
      ensures Valid()
      ensures match LzmsItems.TakeDeltaOffset(old(State()), data, recent.Value())
              case NoOffset => offset == None
              case TakenOffset(rep', val, p, s) =>
                rep == rep' && offset == Some(val) && power == p && State() == s
    {
      hide Valid, State, ValidModel, LzmsCoder.TakeBit, LzmsItems.TakeNewDelta, LzmsItems.TakeRep;
      var bit := TakeBit(Delta);
      if bit == 0 {
        rep := None;
        offset, power := TakeNewDelta();
      } else {
        var r := TakeRep(DeltaRep0, DeltaRep1);
        var pair := recent.delta[Min(r + recent.prevType / 2 % 2, 3)];
        rep, offset, power := Some(r), Some(pair.0), pair.1;
      }
    }

    method TakeLz(recent: RecentOffsets) returns (r: Option<Item>)
      requires Valid() && recent.Valid()
      modifies this`contexts, rc, bs, codes.Values
      modifies recent, recent.lz, recent.delta
      ensures Valid() && recent.Valid()
      ensures match LzmsItems.TakeLz(old(State()), data, old(recent.Value()))
              case NoItem => r == None
              case TakenItem(item, s, h) => r == Some(item) && State() == s && recent.Value() == h
    {
      hide Valid, State, ValidModel, LzmsItems.TakeLzOffset, LzmsItems.TakeLength;
      var rep, offset := TakeLzOffset(recent);
      if offset.None? {
        return None;
      }
      var length := TakeLength();
      if length.None? {
        return None;
      }
      Apart(recent);
      recent.Record(LzMatch(rep, offset.value, length.value));
      r := Some(LzMatch(rep, offset.value, length.value));
    }

    method TakeDelta(recent: RecentOffsets) returns (r: Option<Item>)
      requires Valid() && recent.Valid()
      modifies this`contexts, rc, bs, codes.Values
      modifies recent, recent.lz, recent.delta
      ensures Valid() && recent.Valid()
      ensures match LzmsItems.TakeDelta(old(State()), data, old(recent.Value()))
              case NoItem => r == None
              case TakenItem(item, s, h) => r == Some(item) && State() == s && recent.Value() == h
    {
      hide Valid, State, ValidModel, LzmsItems.TakeDeltaOffset, LzmsItems.TakeLength;
      var rep, offset, power := TakeDeltaOffset(recent);
      if offset.None? {
        return None;
      }
      var length := TakeLength();
      if length.None? {
        return None;
      }
      Apart(recent);
      recent.Record(DeltaMatch(rep, offset.value, power, length.value));
      r := Some(DeltaMatch(rep, offset.value, power, length.value));
    }

    method TakeLiteral(recent: RecentOffsets) returns (r: Option<Item>)
      requires Valid() && recent.Valid()
      modifies this`contexts, rc, bs, codes.Values
      modifies recent, recent.lz, recent.delta
      ensures Valid() && recent.Valid()
      ensures match LzmsCoder.TakeSymbol(old(State()), LiteralSyms)
              case NoSymbol => r == None
              case TakenSymbol(sym, s) =>
                r == Some(Literal(sym)) && State() == s && recent.Value() == After(old(recent.Value()), Literal(sym))
    {
      hide Valid, State, ValidModel, LzmsCoder.TakeSymbol;
      StateParts();
      var sym := TakeSymbol(LiteralSyms);
      if sym.None? {
        return None;
      }
      Apart(recent);
      recent.Record(Literal(sym.value));
      r := Some(Literal(sym.value));
    }

    /** Decode one item and update the queues. */
    method TakeItem(recent: RecentOffsets) returns (r: Option<Item>)
      requires Valid() && recent.Valid()
      modifies this`contexts, rc, bs, codes.Values
      modifies recent, recent.lz, recent.delta
      ensures Valid() && recent.Valid()
      ensures match LzmsItems.TakeItem(old(State()), data, old(recent.Value()))
              case NoItem => r == None
              case TakenItem(item, s, h) => r == Some(item) && State() == s && recent.Value() == h
    {
      hide Valid, State, ValidModel, LzmsCoder.TakeBit, LzmsCoder.TakeSymbol, LzmsItems.TakeLz, LzmsItems.TakeDelta;
      var main := TakeBit(Main);
      if main == 0 {
        r := TakeLiteral(recent);
      } else {
        var kind := TakeBit(Match);
        if kind == 0 {
          r := TakeLz(recent);
        } else {
          r := TakeDelta(recent);
        }
      }
    }
  }
}
