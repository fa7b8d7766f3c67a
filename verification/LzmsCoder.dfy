/** The primitive coding steps of LZMS: decision bits through the range coder, and symbols and verbatim
    bits through the backward bit stream. Encoder and decoder move in step. */
module LzmsCoder {
  import opened BitStrings
  import opened RangeCoding
  import opened CanonicalCode
  import opened AdaptiveCodes
  import opened BackBits
  import opened SlotTables

  // --- The adaptive model that both sides keep ---

  /** A decision context: the last few decisions select the probability. */
  datatype Context = Context(state: nat, probs: seq<Prob>)

  predicate ValidContext(c: Context, size: nat) {
    && |c.probs| == size && c.state < size
    && forall i :: 0 <= i < |c.probs| ==> ValidProb(c.probs[i])
  }

  function ContextProb(c: Context): (r: nat)
    requires c.state < |c.probs|
    ensures 1 <= r <= 63
  {
    Probability(c.probs[c.state])
  }

  function NextContext(c: Context, bit: Bit): (c': Context)
    requires ValidContext(c, |c.probs|)
    ensures ValidContext(c', |c.probs|)
  {
    Context((2 * c.state + bit) % |c.probs|, c.probs[c.state := Update(c.probs[c.state], bit)])
  }

  function NewContext(size: nat): (c: Context)
    requires size > 0
    ensures ValidContext(c, size)
  {
    InitialProbValid();
    Context(0, seq(size, i => INITIAL_PROB))
  }

  datatype Decision = Main | Match | Lz | LzRep0 | LzRep1 | Delta | DeltaRep0 | DeltaRep1

  function NumStates(d: Decision): (n: nat)
    ensures n > 0
  {
    match d
    case Main => 16
    case Match => 32
    case _ => 64
  }

  datatype Alphabet = LiteralSyms | LzOffsetSyms | LengthSyms | DeltaOffsetSyms | DeltaPowerSyms

  function NumSyms(a: Alphabet, slots: nat): (n: nat)
    requires slots <= MAX_OFFSET_SLOTS
    ensures n <= MAX_OFFSET_SLOTS
  {
    match a
    case LiteralSyms => 256
    case LengthSyms => 54
    case DeltaPowerSyms => 8
    case _ => slots
  }

  function RebuildFreq(a: Alphabet): nat {
    match a
    case LengthSyms => 512
    case DeltaPowerSyms => 512
    case _ => 1024
  }

  /** All adaptive state for one stream that decodes to `size` bytes; `bases` is the offset table. */
  datatype Model = Model(size: nat, bases: seq<nat>, contexts: map<Decision, Context>, codes: map<Alphabet, Code>)
  {
    function Slots(): (n: nat)
      requires OffsetTable(bases)
      ensures n <= MAX_OFFSET_SLOTS
    {
      NumOffsetSlots(bases, size)
    }
  }

  predicate ValidModel(m: Model) {
    && OffsetTable(m.bases)
    && (forall d: Decision :: d in m.contexts && ValidContext(m.contexts[d], NumStates(d)))
    && (forall a: Alphabet ::
          a in m.codes && ValidCode(m.codes[a]) && |m.codes[a].freqs| == NumSyms(a, m.Slots()))
  }

  function NewContexts(): (m: map<Decision, Context>)
    ensures forall d: Decision :: d in m && ValidContext(m[d], NumStates(d))
  {
    map d: Decision | true :: NewContext(NumStates(d))
  }

  function NewCodes(slots: nat): (m: map<Alphabet, Code>)
    requires slots <= MAX_OFFSET_SLOTS
    ensures forall a: Alphabet :: a in m && ValidCode(m[a]) && |m[a].freqs| == NumSyms(a, slots)
  {
    map a: Alphabet | true :: NewCode(NumSyms(a, slots), RebuildFreq(a))
  }

  function NewModel(size: nat, bases: seq<nat>): (m: Model)
    requires OffsetTable(bases)
    ensures ValidModel(m) && m.size == size && m.bases == bases
  {
    var slots := NumOffsetSlots(bases, size);
    var m := Model(size, bases, NewContexts(), NewCodes(slots));
    assert m.Slots() == slots;
    m
  }

  lemma {:induction false} ModelTable(m: Model)
    requires ValidModel(m)
    ensures OffsetTable(m.bases)
  {
  }

  predicate SameStream(a: Model, b: Model) {
    a.size == b.size && a.bases == b.bases
  }

  function SetContext(m: Model, d: Decision, bit: Bit): (m': Model)
    requires ValidModel(m)
    ensures ValidModel(m') && SameStream(m', m)
  {
    assert ValidContext(NextContext(m.contexts[d], bit), NumStates(d));
    m.(contexts := m.contexts[d := NextContext(m.contexts[d], bit)])
  }

  function SetCode(m: Model, a: Alphabet, sym: nat): (m': Model)
    requires ValidModel(m) && sym < NumSyms(a, m.Slots())
    ensures ValidModel(m') && SameStream(m', m)
  {
    assert ValidCode(Observe(m.codes[a], sym));
    m.(codes := m.codes[a := Observe(m.codes[a], sym)])
  }

  // --- Encoding steps ---

  datatype Coder = Coder(model: Model, rc: Enc, bits: seq<Bit>)

  predicate ValidCoder(c: Coder) {
    ValidModel(c.model) && ValidEnc(c.rc)
  }

  /** Something has been coded; from here on any bit may follow. */
  predicate Started(c: Coder) {
    ValidCoder(c) && c.rc != INITIAL_ENC
  }

  function NewCoder(size: nat, bases: seq<nat>): (c: Coder)
    requires OffsetTable(bases)
    ensures ValidCoder(c) && c.model == NewModel(size, bases)
  {
    Coder(NewModel(size, bases), INITIAL_ENC, [])
  }

  /** The first decision of a stream must be 0 (a literal). */
  function Decide(c: Coder, d: Decision, bit: Bit): (c': Coder)
    requires ValidCoder(c) && (c.rc == INITIAL_ENC ==> bit == 0)
    ensures Started(c') && SameStream(c'.model, c.model)
  {
    var prob := ContextProb(c.model.contexts[d]);
    EncodeBitValid(c.rc, prob, bit);
    Coder(SetContext(c.model, d, bit), EncodeBit(c.rc, prob, bit), c.bits)
  }

  function PutSymbol(c: Coder, a: Alphabet, sym: nat): (c': Coder)
    requires Started(c) && sym < NumSyms(a, c.model.Slots())
    ensures Started(c') && SameStream(c'.model, c.model)
  {
    Coder(SetCode(c.model, a, sym), c.rc, c.bits + CodeBits(c.model.codes[a].lens, sym))
  }

  function PutBits(c: Coder, val: nat, n: nat): (c': Coder)
    requires Started(c)
    ensures Started(c') && SameStream(c'.model, c.model)
  {
    c.(bits := c.bits + ToBits(val, n))
  }

  // --- Decoding steps ---

  datatype Source = Source(model: Model, rc: Dec, rest: seq<Bit>)

  function NewSource(data: seq<Byte>, size: nat, bases: seq<nat>): (s: Source)
    requires |data| >= 4 && OffsetTable(bases)
    ensures ValidModel(s.model) && s.model == NewModel(size, bases)
  {
    Source(NewModel(size, bases), DecInit(data), BackStream(data))
  }

  datatype TakenBit = TakenBit(bit: Bit, source: Source)

  function TakeBit(s: Source, data: seq<Byte>, d: Decision): (t: TakenBit)
    requires ValidModel(s.model)
    ensures ValidModel(t.source.model) && SameStream(t.source.model, s.model)
  {
    var b := DecodeBit(s.rc, data, ContextProb(s.model.contexts[d]));
    TakenBit(b.bit, Source(SetContext(s.model, d, b.bit), b.dec, s.rest))
  }

  datatype TakenSymbol = NoSymbol | TakenSymbol(sym: nat, source: Source)

  function TakeSymbol(s: Source, a: Alphabet): (t: TakenSymbol)
    requires ValidModel(s.model)
    ensures t.TakenSymbol? ==> t.sym < NumSyms(a, s.model.Slots())
    ensures t.TakenSymbol? ==> ValidModel(t.source.model) && SameStream(t.source.model, s.model)
  {
    match PrefixDecode(s.model.codes[a], s.rest)
    case BadCode => NoSymbol
    case DecodedSymbol(sym, _, rest) => TakenSymbol(sym, Source(SetCode(s.model, a, sym), s.rc, rest))
  }

  datatype TakenBits = TakenBits(val: nat, source: Source)

  function TakeBits(s: Source, n: nat): (t: TakenBits)
    ensures t.source.model == s.model
  {
    TakenBits(FromBits(Peek(s.rest, n)), s.(rest := Skip(s.rest, n)))
  }

  // --- The finished stream ---

  /** Range-coder words at the front, the bit stream backwards at the end. */
  function Stream(c: Coder): seq<Byte> {
    WordBytes(Finish(c.rc)) + BackBytes(c.bits)
  }

  /** The words `w` and the back bits `back` continue what the encoder has fixed in state `c`. */
  predicate Leads(c: Coder, w: seq<Word>, back: seq<Bit>) {
    c.rc.cache < 0xFFFF && Contains(w, c.rc) && c.bits <= back
  }

  /** The decoder, on data made of `w` and `back`, stands where the encoder stood. */
  predicate Synced(c: Coder, s: Source, w: seq<Word>, data: seq<Byte>) {
    && c.rc.cache < 0xFFFF && InStep(c.rc, s.rc, w, data)
    && c.model == s.model
    && c.bits <= BackStream(data) && s.rest == BackStream(data)[|c.bits|..]
  }

  // --- One lemma per step: containment passes back, and decoding undoes the step ---

  lemma {:induction false} DecideLeads(c: Coder, d: Decision, bit: Bit, w: seq<Word>, back: seq<Bit>)
    requires ValidCoder(c) && (c.rc == INITIAL_ENC ==> bit == 0)
    requires Leads(Decide(c, d, bit), w, back)
    ensures Leads(c, w, back)
  {
    ContainsBackwards(w, c.rc, ContextProb(c.model.contexts[d]), bit);
  }

  lemma {:induction false} PutSymbolLeads(c: Coder, a: Alphabet, sym: nat, w: seq<Word>, back: seq<Bit>)
    requires Started(c) && sym < NumSyms(a, c.model.Slots()) && Leads(PutSymbol(c, a, sym), w, back)
    ensures Leads(c, w, back)
  {
  }

  lemma {:induction false} PutBitsLeads(c: Coder, val: nat, n: nat, w: seq<Word>, back: seq<Bit>)
    requires Started(c) && Leads(PutBits(c, val, n), w, back)
    ensures Leads(c, w, back)
  {
  }

  lemma {:induction false} DecideSynced(c: Coder, s: Source, d: Decision, bit: Bit,
                                        w: seq<Word>, data: seq<Byte>)
    requires ValidCoder(c) && (c.rc == INITIAL_ENC ==> bit == 0)
    requires Synced(c, s, w, data) && Leads(Decide(c, d, bit), w, BackStream(data))
    ensures TakeBit(s, data, d).bit == bit
    ensures Synced(Decide(c, d, bit), TakeBit(s, data, d).source, w, data)
  {
    DecodeBitInStep(c.rc, s.rc, w, data, ContextProb(c.model.contexts[d]), bit);
  }

  lemma {:induction false} NextBits(done: seq<Bit>, next: seq<Bit>, back: seq<Bit>)
    requires done + next <= back
    ensures back[|done|..] == next + back[|done + next|..]
  {
    assert back == (done + next) + back[|done + next|..];
  }

  lemma {:induction false} PutSymbolSynced(c: Coder, s: Source, a: Alphabet, sym: nat,
                                           w: seq<Word>, data: seq<Byte>)
    requires Started(c) && sym < NumSyms(a, c.model.Slots())
    requires Synced(c, s, w, data) && Leads(PutSymbol(c, a, sym), w, BackStream(data))
    ensures TakeSymbol(s, a).TakenSymbol? && TakeSymbol(s, a).sym == sym
    ensures Synced(PutSymbol(c, a, sym), TakeSymbol(s, a).source, w, data)
  {
    var code, back := c.model.codes[a], BackStream(data);
    var bits := CodeBits(code.lens, sym);
    NextBits(c.bits, bits, back);
    DecodeEncoded(code, sym, back[|c.bits + bits|..]);
  }

  lemma {:induction false} PutBitsSynced(c: Coder, s: Source, val: nat, n: nat, w: seq<Word>, data: seq<Byte>)
    requires Started(c) && val < Powers.Pow2(n)
    requires Synced(c, s, w, data) && Leads(PutBits(c, val, n), w, BackStream(data))
    ensures TakeBits(s, n).val == val
    ensures Synced(PutBits(c, val, n), TakeBits(s, n).source, w, data)
  {
    var back := BackStream(data);
    var bits := ToBits(val, n);
    NextBits(c.bits, bits, back);
    PeekOfPrefix(bits, back[|c.bits + bits|..]);
    FromToBits(val, n);
  }

  lemma {:induction false} StreamShape(c: Coder)
    requires Started(c)
    ensures |Finish(c.rc)| >= 3 && |Stream(c)| >= 4 && |Stream(c)| % 2 == 0
  {
    FinishContains(c.rc);
    var front, back := |Finish(c.rc)|, |Reverse(PadWords(c.bits))|;
    assert |Stream(c)| == 2 * (front + back);
  }

  /** The finished stream continues the final state, and a new decoder starts in step. */
  lemma {:induction false} StreamLeads(c: Coder)
    requires Started(c)
    ensures Leads(c, Finish(c.rc), BackStream(Stream(c)))
  {
    FinishContains(c.rc);
    BackBytesReadBack(WordBytes(Finish(c.rc)), c.bits);
  }

  lemma {:induction false} StreamStarts(c: Coder)
    requires Started(c)
    ensures |Stream(c)| >= 4
    ensures Synced(NewCoder(c.model.size, c.model.bases), NewSource(Stream(c), c.model.size, c.model.bases),
                   Finish(c.rc), Stream(c))
  {
    StreamShape(c);
    InitInStep(Finish(c.rc), Stream(c));
  }
}
