/** The LZMS encoder as it runs: two writers, five adaptive codes and the decision contexts. */
module LzmsEncoder {
  import opened Powers
  import opened BitStrings
  import opened RangeCoding
  import opened RangeCodec
  import opened CanonicalCode
  import opened AdaptiveCodes
  import opened BackBits
  import opened SlotTables
  import opened LzmsCoder
  import opened LzmsItems
  import opened LzmsModel

  class Encoder {
    const size: nat
    const bases: seq<nat>
    const rc: RangeEncoder
    const bs: BackBitsWriter
    const codes: map<Alphabet, AdaptiveCode>
    var contexts: map<Decision, Context>

    ghost const Repr: set<object>

    ghost predicate Objects() {
      && Repr == {this, rc, bs} + codes.Values
      && (forall a: Alphabet :: a in codes)
      && (forall a, b: Alphabet :: codes[a] == codes[b] ==> a == b)
    }

    ghost predicate Valid()
      reads this, Repr
    {
      && Objects() && this in Repr
      && rc.Valid() && ValidEnc(rc.Value()) && bs.Valid()
      && (forall a: Alphabet :: codes[a].Valid())
      && ValidModel(State().model)
    }

    ghost function State(): Coder
      requires Objects() && bs.Valid()
      reads this, Repr
    {
      Coder(Model(size, bases, contexts, map a: Alphabet | true :: codes[a].Value()), rc.Value(), bs.Content())
    }

    constructor (inputSize: nat, offsetBases: seq<nat>)
      requires OffsetTable(offsetBases)
      ensures Valid() && fresh(Repr) && size == inputSize && bases == offsetBases
      ensures State() == NewCoder(inputSize, offsetBases)
    {
      hide AdaptiveCode.Valid, AdaptiveCode.Value, NewCode, NewContexts, OffsetTable, ValidModel, NumOffsetSlots,
           ValidEnc;
      OffsetTableSize(offsetBases);
      size, bases := inputSize, offsetBases;
      var writer := new BackBitsWriter();
      var coder := new RangeEncoder();
      var slots := CountOffsetSlots(offsetBases, inputSize);
      var all := AllocateCodes(slots);
      rc, bs, codes := coder, writer, all;
      contexts := NewContexts();
      Repr := {this, coder, writer} + all.Values;
      new;
      InitialEncValid();
      NewModelIs(size, bases, slots, State().model.codes);
    }

    lemma StateParts()
      requires Valid()
      ensures Objects() && bs.Valid() && ValidCoder(State())
      ensures State().model.bases == bases && State().model.size == size && OffsetTable(bases)
    {
    }

    method Decide(d: Decision, bit: Bit)
      requires Valid() && (State().rc == INITIAL_ENC ==> bit == 0)
      modifies this`contexts, rc
      ensures Valid() && State() == LzmsCoder.Decide(old(State()), d, bit)
    {
      hide AdaptiveCode.Valid, AdaptiveCode.Value, BackBitsWriter.Valid, BackBitsWriter.Content, EncodeBit,
           ValidModel, ValidEnc;
      ghost var s := State();
      ModelContext(s.model, d);
      EncodeBitValid(s.rc, ContextProb(contexts[d]), bit);
      rc.EncodeBit(bit, ContextProb(contexts[d]));
      contexts := contexts[d := NextContext(contexts[d], bit)];
      assert State().model == SetContext(s.model, d, bit);
    }

    /** One adaptive code changes, the others stay. */
    method PutCode(a: Alphabet, sym: nat, ghost c: Code)
      requires Objects() && bs.Valid() && (forall b: Alphabet :: codes[b].Valid())
      requires c == codes[a].Value() && ValidCode(c) && sym < |c.freqs|
      modifies bs, codes[a]
      ensures bs.Valid() && forall b: Alphabet :: codes[b].Valid()
      ensures forall b: Alphabet ::
                codes[b].Value() == if b == a then Observe(c, sym) else old(codes[b].Value())
      ensures bs.Content() == old(bs.Content()) + CodeBits(c.lens, sym)
    {
      hide AdaptiveCode.Valid, BackBitsWriter.Valid, BackBitsWriter.Content, Observe, CodeBits;
      codes[a].EncodeSymbol(sym, bs);
    }

    method PutSymbol(a: Alphabet, sym: nat)
      requires Valid() && Started(State()) && sym < NumSyms(a, State().model.Slots())
      modifies bs, codes[a]
      ensures Valid() && State() == LzmsCoder.PutSymbol(old(State()), a, sym)
    {
      hide AdaptiveCode.Valid, BackBitsWriter.Valid, BackBitsWriter.Content, ValidModel, ValidEnc, Observe, SetCode,
           NumSyms, SameStream, CodeBits;
      ghost var s := State();
      ModelCodes(s.model, a);
      PutCode(a, sym, s.model.codes[a]);
      CodeSet(s.model, a, sym, State().model.codes);
    }

    method PutBits(val: nat, n: nat)
      requires Valid() && Started(State()) && n <= 32 && val < Pow2(n)
      modifies bs
      ensures Valid() && State() == LzmsCoder.PutBits(old(State()), val, n)
    {
      hide AdaptiveCode.Valid, AdaptiveCode.Value, ValidModel, ValidEnc;
      ghost var s := State();
      bs.WriteBits(val, n);
      assert State().model == s.model;
    }

    method PutRep(d0: Decision, d1: Decision, rep: nat)
      requires Valid() && Started(State()) && rep <= 2
      modifies this`contexts, rc
      ensures Valid() && State() == EncodeRep(old(State()), d0, d1, rep)
    {
      hide Valid, State, ValidModel, ValidEnc, LzmsCoder.Decide;
      if rep == 0 {
        Decide(d0, 0);
      } else {
        Decide(d0, 1);
        Decide(d1, if rep == 1 then 0 else 1);
      }
    }

    method PutOffset(a: Alphabet, offset: nat)
      requires Valid() && Started(State()) && a in {LzOffsetSyms, DeltaOffsetSyms}
      requires 1 <= offset < size <= OFFSET_SENTINEL && size == State().model.size
      modifies this`contexts, rc, bs, codes.Values
      ensures Valid() && State() == EncodeOffset(old(State()), a, offset)
    {
      hide Valid, State, ValidModel, ValidEnc, LzmsCoder.PutSymbol, LzmsCoder.PutBits, OffsetTable, ExtraBits,
           FindOffsetSlot;
      StateParts();
      OffsetSlotCovers(bases, offset, size);
      OffsetTableSize(bases);
      var slot := FindOffsetSlot(bases, offset);
      PutSymbol(a, slot);
      PutBits(offset - bases[slot], ExtraBits(bases, slot));
    }

    method PutLength(length: nat)
      requires Valid() && Started(State()) && 1 <= length <= MAX_MATCH_LEN
      modifies this`contexts, rc, bs, codes.Values
      ensures Valid() && State() == EncodeLength(old(State()), length)
    {
      hide Valid, State, ValidModel, ValidEnc, LzmsCoder.PutSymbol, LzmsCoder.PutBits, LENGTH_BASES, LENGTH_EXTRA,
           FindLengthSlot;
      StateParts();
      LengthSlotCovers(length);
      LengthTableSizes();
      var slot := FindLengthSlot(length);
      PutSymbol(LengthSyms, slot);
      PutBits(length - LENGTH_BASES[slot], LENGTH_EXTRA[slot]);
    }

    method PutLzOffset(rep: Option<nat>, offset: nat)
      requires Valid() && Started(State()) && size == State().model.size
      requires match rep case Some(r) => r <= 2 case None => 1 <= offset < size <= OFFSET_SENTINEL
      modifies this`contexts, rc, bs, codes.Values
      ensures Valid() && State() == EncodeLzOffset(old(State()), rep, offset)
    {
      hide Valid, State, ValidModel, ValidEnc, LzmsCoder.Decide, EncodeRep, EncodeOffset;
      match rep
      case Some(r) =>
        Decide(Lz, 1);
        PutRep(LzRep0, LzRep1, r);
      case None =>
        Decide(Lz, 0);
        PutOffset(LzOffsetSyms, offset);
    }

    method PutDeltaOffset(rep: Option<nat>, offset: nat, power: nat)
      requires Valid() && Started(State()) && size == State().model.size && power < 8
      requires match rep case Some(r) => r <= 2 case None => 1 <= offset < size <= OFFSET_SENTINEL
      modifies this`contexts, rc, bs, codes.Values
      ensures Valid() && State() == EncodeDeltaOffset(old(State()), rep, offset, power)
    {
      hide Valid, State, ValidModel, ValidEnc, LzmsCoder.Decide, LzmsCoder.PutSymbol, EncodeRep, EncodeOffset;
      match rep
      case Some(r) =>
        Decide(Delta, 1);
        PutRep(DeltaRep0, DeltaRep1, r);
      case None =>
        Decide(Delta, 0);
        StateParts();
        PutSymbol(DeltaPowerSyms, power);
        PutOffset(DeltaOffsetSyms, offset);
    }

    /** Encode one item; the caller updates the queues. */
    method PutItem(ghost h: History, item: Item)
      requires Valid() && ValidHistory(h) && Codable(item, h, size) && size == State().model.size
      requires Started(State()) || item.Literal?
      modifies this`contexts, rc, bs, codes.Values
      ensures Valid() && State() == EncodeItem(old(State()), h, item)
    {
      hide Valid, State, ValidModel, ValidEnc, LzmsCoder.Decide, LzmsCoder.PutSymbol, EncodeLzOffset,
           EncodeDeltaOffset, EncodeLength;
      StateParts();
      match item
      case Literal(b) =>
        Decide(Main, 0);
        PutSymbol(LiteralSyms, b);
      case LzMatch(rep, offset, length) =>
        Decide(Main, 1);
        Decide(Match, 0);
        PutLzOffset(rep, offset);
        PutLength(length);
      case DeltaMatch(rep, offset, power, length) =>
        Decide(Main, 1);
        Decide(Match, 1);
        PutDeltaOffset(rep, offset, power);
        PutLength(length);
    }

    /** Range-coder words first, then the backward bit stream. */
    method Finish() returns (r: seq<Byte>)
      requires Valid()
      modifies this, rc, bs
      ensures r == Stream(old(State()))
    {
      hide ValidModel, ValidEnc, AdaptiveCode.Valid, BackBitsWriter.Valid, BackBitsWriter.Content, RangeCoding.Finish,
           WordBytes, BackBytes;
      var front := rc.Finish([]);
      assert front + [] == front;
      r := bs.Finish(front);
    }
  }
}
