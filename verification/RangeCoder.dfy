/** The adaptive binary range coder: its arithmetic on values, and the theorem that decoding undoes
    encoding in spite of late carries. */
module RangeCoding {
  import opened BitStrings

  type Byte = b: nat | b < 0x100
  type Word = w: nat | w < 0x1_0000

  // --- Adaptive probabilities ---

  const INITIAL_RECENT_BITS := 0x5555_5555

  /** A context's estimate of P(0): how many of the last 64 bits were 0. `recent` is a 64-bit word. */
  datatype Prob = Prob(numZeros: nat, recent: nat)

  const INITIAL_PROB := Prob(48, INITIAL_RECENT_BITS)

  function Ones(w: nat, k: nat): (c: nat)
    ensures c <= k
  {
    if k == 0 then 0 else w % 2 + Ones(w / 2, k - 1)
  }

  predicate ValidProb(p: Prob) {
    p.recent < 0x1_0000_0000_0000_0000 && p.numZeros == 64 - Ones(p.recent, 64)
  }

  function Probability(p: Prob): (r: nat)
    ensures 1 <= r <= 63
  {
    if p.numZeros < 1 then 1 else if p.numZeros > 63 then 63 else p.numZeros
  }

  /** Shift `bit` into the window and correct the count for the bit that falls out. */
  function Update(p: Prob, bit: Bit): (p': Prob)
    requires ValidProb(p)
    ensures ValidProb(p')
  {
    OnesShift(p.recent, bit);
    var oldest := p.recent / 0x8000_0000_0000_0000;
    var dropped := if oldest == 0 then 1 else 0;
    var added := if bit == 0 then 1 else 0;
    Prob(p.numZeros - dropped + added, p.recent * 2 % 0x1_0000_0000_0000_0000 + bit)
  }

  /** The oldest bit of a window of `k + 1` bits counts on its own. */
  lemma {:induction false} OnesTop(top: Bit, low: nat, k: nat)
    requires low < Powers.Pow2(k)
    ensures Ones(top * Powers.Pow2(k) + low, k + 1) == Ones(low, k) + top
  {
    if k > 0 {
      var p := Powers.Pow2(k - 1);
      var w := top * (2 * p) + low;
      assert w == 2 * (top * p) + low;
      assert w / 2 == top * p + low / 2 && w % 2 == low % 2;
      OnesTop(top, low / 2, k - 1);
    }
  }

  lemma {:induction false} WindowParts(w: nat)
    requires w < 0x1_0000_0000_0000_0000
    ensures var top, low := w / 0x8000_0000_0000_0000, w % 0x8000_0000_0000_0000;
            && top <= 1 && w == top * 0x8000_0000_0000_0000 + low
            && w * 2 % 0x1_0000_0000_0000_0000 == 2 * low
  {
  }

  lemma {:induction false} OnesShift(w: nat, bit: Bit)
    requires w < 0x1_0000_0000_0000_0000
    ensures var top := w / 0x8000_0000_0000_0000; var w' := w * 2 % 0x1_0000_0000_0000_0000 + bit;
            top <= 1 && w' < 0x1_0000_0000_0000_0000 && Ones(w', 64) == Ones(w, 64) - top + bit
  {
    WindowParts(w);
    var top, low := w / 0x8000_0000_0000_0000, w % 0x8000_0000_0000_0000;
    assert Ones(w, 64) == Ones(low, 63) + top by {
      PowerOf63();
      OnesTop(top, low, 63);
    }
    var w' := 2 * low + bit;
    assert w' / 2 == low && w' % 2 == bit;
    OnesStep(w', 64);
  }

  lemma {:induction false} OnesStep(w: nat, k: nat)
    requires k > 0
    ensures Ones(w, k) == w % 2 + Ones(w / 2, k - 1)
  {
  }

  lemma {:induction false} TwoIs()
    ensures Powers.Pow2(1) == 2
  {
  }

  lemma {:induction false} PowerOf63()
    ensures Powers.Pow2(63) == 0x8000_0000_0000_0000
  {
    hide Powers.Pow2;
    Powers.PowerTable();
    Powers.Pow2Add(63, 1);
    assert Powers.Pow2(1) == 2 by { TwoIs(); }
  }

  /** `n` binary digit pairs 01. */
  function Fives(n: nat): nat {
    if n == 0 then 0 else 4 * Fives(n - 1) + 1
  }

  lemma {:induction false} OnesOfFives(n: nat, k: nat)
    requires k >= 2 * n
    ensures Ones(Fives(n), k) == n
    decreases k
  {
    if n == 0 {
      if k > 0 {
        OnesOfFives(0, k - 1);
      }
    } else {
      var w := Fives(n);
      OnesStep(w, k);
      OnesStep(w / 2, k - 1);
      assert w / 2 == 2 * Fives(n - 1) && w / 2 / 2 == Fives(n - 1);
      OnesOfFives(n - 1, k - 2);
    }
  }

  lemma {:induction false} InitialProbValid()
    ensures ValidProb(INITIAL_PROB)
  {
    assert Fives(8) == 0x5555;
    assert Fives(16) == 0x5555_5555;
    OnesOfFives(16, 64);
  }

  // --- Numbers written in 16-bit digits, most significant first ---

  function Num(ws: seq<Word>): nat {
    if |ws| == 0 then 0 else Num(ws[..|ws| - 1]) * 0x1_0000 + ws[|ws| - 1]
  }

  function Fill(w: Word, n: nat): (ws: seq<Word>)
    ensures |ws| == n
    ensures forall i :: 0 <= i < n ==> ws[i] == w
  {
    seq(n, i => w)
  }

  lemma {:induction false} NumAppend(ws: seq<Word>, w: Word)
    ensures Num(ws + [w]) == Num(ws) * 0x1_0000 + w
  {
    assert (ws + [w])[..|ws|] == ws;
  }

  /** A carry out of the low digits turns `c FFFF .. FFFF` into `c+1 0000 .. 0000`. */
  lemma {:induction false} CarryRipples(ws: seq<Word>, c: Word, n: nat)
    requires c < 0xFFFF
    ensures Num(ws + [c + 1] + Fill(0, n)) == Num(ws + [c] + Fill(0xFFFF, n)) + 1
  {
    if n == 0 {
      NumAppend(ws, c);
      NumAppend(ws, c + 1);
      assert ws + [c + 1] + Fill(0, 0) == ws + [c + 1];
      assert ws + [c] + Fill(0xFFFF, 0) == ws + [c];
    } else {
      CarryRipples(ws, c, n - 1);
      assert ws + [c + 1] + Fill(0, n) == (ws + [c + 1] + Fill(0, n - 1)) + [0];
      assert ws + [c] + Fill(0xFFFF, n) == (ws + [c] + Fill(0xFFFF, n - 1)) + [0xFFFF];
      NumAppend(ws + [c + 1] + Fill(0, n - 1), 0);
      NumAppend(ws + [c] + Fill(0xFFFF, n - 1), 0xFFFF);
    }
  }

  // --- The encoder ---

  /** `low` is a 33-bit sum, `range` a 32-bit word; `cache` and the `cacheCount` words 0xFFFF after it
      wait for a possible carry; nothing has been cached while `first` holds. */
  datatype Enc = Enc(low: nat, range: nat, cache: nat, cacheCount: nat, first: bool, words: seq<Word>)

  const INITIAL_ENC := Enc(0, 0xFFFF_FFFF, 0, 0, true, [])

  function ShiftLow(e: Enc): Enc {
    var overflow := e.low / 0x1_0000_0000 != 0;
    var low' := e.low % 0x1_0000 * 0x1_0000;
    var range' := e.range * 0x1_0000 % 0x1_0000_0000;
    if e.low < 0xFFFF_0000 || overflow then
      var flushed := if e.first then [] else
                       [(e.cache + if overflow then 1 else 0) % 0x1_0000]
                       + Fill(if overflow then 0 else 0xFFFF, e.cacheCount);
      Enc(low', range', e.low / 0x1_0000 % 0x1_0000, 0, false, e.words + flushed)
    else
      e.(low := low', range := range', cacheCount := e.cacheCount + 1)
  }

  /** One shift always suffices; `RangeEncoder.Normalize` loops. */
  function Normalize(e: Enc): Enc {
    if e.range < 0x1_0000 then ShiftLow(e) else e
  }

  /** Narrow the interval to the part that stands for `bit`. */
  function Narrow(e: Enc, prob: nat, bit: Bit): Enc {
    var bound := e.range / 64 * prob;
    if bit == 0 then e.(range := bound)
    else e.(low := e.low + bound, range := if e.range >= bound then e.range - bound else 0)
  }

  function EncodeBit(e: Enc, prob: nat, bit: Bit): Enc {
    Narrow(Normalize(e), prob, bit)
  }

  function Finish(e: Enc): seq<Word> {
    ShiftLow(ShiftLow(ShiftLow(ShiftLow(e)))).words
  }

  // --- What an encoder state denotes ---

  /** Every digit fixed so far, assuming that no further carry arrives. */
  function Digits(e: Enc): seq<Word>
    requires e.cache < 0x1_0000
  {
    if e.first then [] else e.words + [e.cache] + Fill(0xFFFF, e.cacheCount)
  }

  /** The lower end of the current interval, as one number with 16 * |Digits| + 32 binary digits. */
  function Base(e: Enc): nat
    requires e.cache < 0x1_0000
  {
    Num(Digits(e)) * 0x1_0000_0000 + e.low
  }

  /** What every step keeps: a carry fits in the cached word, and no digit is cached before the
      first word is known. The second conjunct bounds any later carry to a single one. */
  predicate ValidEnc(e: Enc) {
    && e.cache < 0xFFFF
    && 0x400 <= e.range < 0x1_0000_0000
    && e.low + e.range <= 0x2_0000_0000 - 0x2_0000
    && (e.first ==> e.cacheCount == 0 && e.words == [])
    && (e.first && e != INITIAL_ENC ==> e.low + e.range <= 0xFFFF_0000)
  }

  lemma {:induction false} InitialEncValid()
    ensures ValidEnc(INITIAL_ENC)
  {
  }

  lemma {:induction false} ShiftLowPlain(e: Enc)
    requires e.cache < 0xFFFF && e.low < 0xFFFF_0000
    requires e.first ==> e.cacheCount == 0 && e.words == []
    ensures ShiftLow(e).cache < 0xFFFF
    ensures Digits(ShiftLow(e)) == Digits(e) + [e.low / 0x1_0000]
  {
    assert e.low / 0x1_0000_0000 == 0;
    var e' := ShiftLow(e);
    assert e'.cache == e.low / 0x1_0000;
    assert Digits(e') == e'.words + [e'.cache];
    assert !e.first ==> e'.words == e.words + [e.cache] + Fill(0xFFFF, e.cacheCount);
  }

  lemma {:induction false} ShiftLowCarry(e: Enc)
    requires e.cache < 0xFFFF && 0x1_0000_0000 <= e.low < 0x2_0000_0000 - 0x2_0000 && !e.first
    ensures ShiftLow(e).cache < 0xFFFF
    ensures Digits(ShiftLow(e)) ==
            e.words + [e.cache + 1] + Fill(0, e.cacheCount) + [e.low / 0x1_0000 - 0x1_0000]
  {
    assert e.low / 0x1_0000_0000 == 1;
    var e' := ShiftLow(e);
    assert e'.cache == e.low / 0x1_0000 - 0x1_0000;
    assert Digits(e') == e'.words + [e'.cache];
  }

  lemma {:induction false} ShiftLowPending(e: Enc)
    requires e.cache < 0xFFFF && 0xFFFF_0000 <= e.low < 0x1_0000_0000 && !e.first
    ensures ShiftLow(e).cache < 0xFFFF
    ensures Digits(ShiftLow(e)) == Digits(e) + [0xFFFF]
  {
    assert e.low / 0x1_0000_0000 == 0;
    assert Fill(0xFFFF, e.cacheCount + 1) == Fill(0xFFFF, e.cacheCount) + [0xFFFF];
  }

  /** The new digit is appended; a pending carry is applied first. */
  lemma {:induction false} ShiftLowDigits(e: Enc)
    requires e.cache < 0xFFFF && e.low < 0x2_0000_0000 - 0x2_0000
    requires e.first ==> e.cacheCount == 0 && e.words == [] && e.low < 0xFFFF_0000
    ensures ShiftLow(e).cache < 0xFFFF
    ensures |Digits(ShiftLow(e))| == |Digits(e)| + 1
    ensures Num(Digits(ShiftLow(e))) == Num(Digits(e)) * 0x1_0000 + e.low / 0x1_0000
  {
    if e.low < 0xFFFF_0000 {
      ShiftLowPlain(e);
      NumAppend(Digits(e), e.low / 0x1_0000);
    } else if e.low >= 0x1_0000_0000 {
      ShiftLowCarry(e);
      CarryRipples(e.words, e.cache, e.cacheCount);
      NumAppend(e.words + [e.cache + 1] + Fill(0, e.cacheCount), e.low / 0x1_0000 - 0x1_0000);
    } else {
      ShiftLowPending(e);
      NumAppend(Digits(e), 0xFFFF);
    }
  }

  lemma {:induction false} ShiftLowBase(e: Enc)
    requires e.cache < 0xFFFF && e.low < 0x2_0000_0000 - 0x2_0000
    requires e.first ==> e.cacheCount == 0 && e.words == [] && e.low < 0xFFFF_0000
    ensures var e' := ShiftLow(e);
            && e'.cache < 0xFFFF && !e'.first && e'.low <= 0xFFFF_0000 && e'.low % 0x1_0000 == 0
            && |Digits(e')| == |Digits(e)| + 1
            && Base(e') == Base(e) * 0x1_0000
  {
    ShiftLowDigits(e);
  }

  lemma {:induction false} NormalizeBase(e: Enc)
    requires ValidEnc(e)
    ensures var e' := Normalize(e); var k := if e.range < 0x1_0000 then 1 else 0;
            && ValidEnc(e') && e'.range >= 0x1_0000
            && |Digits(e')| == |Digits(e)| + k
            && Base(e') == Base(e) * (if k == 1 then 0x1_0000 else 1)
            && e'.range == e.range * (if k == 1 then 0x1_0000 else 1)
  {
    if e.range < 0x1_0000 {
      ShiftLowBase(e);
    }
  }

  /** Every coded bit keeps the invariant, provided the very first bit of the stream is 0. */
  lemma {:induction false} EncodeBitValid(e: Enc, prob: nat, bit: Bit)
    requires ValidEnc(e) && 1 <= prob <= 63
    requires e == INITIAL_ENC ==> bit == 0
    ensures ValidEnc(EncodeBit(e, prob, bit)) && EncodeBit(e, prob, bit) != INITIAL_ENC
  {
    NormalizeBase(e);
    BoundBounds(Normalize(e).range, prob);
  }

  lemma {:induction false} BoundBounds(range: nat, prob: nat)
    requires range >= 0x1_0000 && 1 <= prob <= 63
    ensures var unit := range / 64;
            unit >= 0x400 && unit <= unit * prob <= unit * 63 && unit * 63 + unit <= range
  {
    var unit := range / 64;
    Powers.MulMonotone(unit, 1, prob);
    Powers.MulMonotone(unit, prob, 63);
  }

  // --- The interval containment that the decoder relies on ---

  /** The words `w`, read to the precision of `e`, name a point of the interval of `e`. */
  predicate Contains(w: seq<Word>, e: Enc)
    requires e.cache < 0x1_0000
  {
    var n := |Digits(e)| + 2;
    |w| >= n && Base(e) <= Num(w[..n]) < Base(e) + e.range
  }

  lemma {:induction false} NumDropLast(w: seq<Word>, n: nat)
    requires n < |w|
    ensures Num(w[..n]) == Num(w[..n + 1]) / 0x1_0000
    ensures Num(w[..n + 1]) == Num(w[..n]) * 0x1_0000 + w[n]
  {
    assert w[..n + 1][..n] == w[..n];
  }

  lemma {:induction false} NarrowBase(e: Enc, prob: nat, bit: Bit)
    requires e.cache < 0xFFFF
    ensures Digits(Narrow(e, prob, bit)) == Digits(e)
    ensures Base(Narrow(e, prob, bit)) == Base(e) + bit * (e.range / 64 * prob)
  {
  }

  lemma {:induction false} NormalizeContainsBackwards(w: seq<Word>, e: Enc)
    requires ValidEnc(e) && Contains(w, Normalize(e))
    ensures Contains(w, e)
  {
    NormalizeBase(e);
    if e.range < 0x1_0000 {
      var n := |Digits(e)| + 2;
      NumDropLast(w, n);
      Powers.DivBounds(Num(w[..n + 1]), 0x1_0000, Base(e), Base(e) + e.range);
    }
  }

  /** Containment passes back through a coded bit, and the bound test then tells the bit. */
  lemma {:induction false} ContainsBackwards(w: seq<Word>, e: Enc, prob: nat, bit: Bit)
    requires ValidEnc(e) && 1 <= prob <= 63
    requires e == INITIAL_ENC ==> bit == 0
    requires EncodeBit(e, prob, bit).cache < 0xFFFF && Contains(w, EncodeBit(e, prob, bit))
    ensures Contains(w, e) && Contains(w, Normalize(e))
    ensures var en := Normalize(e); var n := |Digits(en)| + 2;
            bit == 0 <==> Num(w[..n]) - Base(en) < en.range / 64 * prob
  {
    NormalizeBase(e);
    var en := Normalize(e);
    BoundBounds(en.range, prob);
    NarrowBase(en, prob, bit);
    NormalizeContainsBackwards(w, e);
  }

  /** The four final shifts: the last two only push out what is still cached. */
  lemma {:induction false} FinalShifts(e: Enc)
    requires e.cache < 0xFFFF && e.low < 0x2_0000_0000 - 0x2_0000
    requires e.first ==> e.cacheCount == 0 && e.words == [] && e.low < 0xFFFF_0000
    ensures |Finish(e)| == |Digits(e)| + 3
    ensures Num(Finish(e)) == Base(e) * 0x1_0000
  {
    hide ShiftLow, Num, Digits;
    var e1 := ShiftLow(e);
    ShiftLowBase(e);
    var e2 := ShiftLow(e1);
    ShiftLowBase(e1);
    LowIsZero(e1);
    ShiftLowOfZero(e2);
    var e3 := ShiftLow(e2);
    ShiftLowBase(e2);
    ShiftLowOfZero(e3);
    var e4 := ShiftLow(e3);
    ShiftLowBase(e3);
    DigitsAtEnd(e4);
  }

  lemma {:induction false} LowIsZero(e: Enc)
    requires e.low % 0x1_0000 == 0
    ensures ShiftLow(e).low == 0
  {
  }

  lemma {:induction false} DigitsAtEnd(e: Enc)
    requires !e.first && e.cache == 0 && e.cacheCount == 0
    ensures |Digits(e)| == |e.words| + 1 && Num(Digits(e)) == Num(e.words) * 0x1_0000
  {
    assert Digits(e) == e.words + [0];
    NumAppend(e.words, 0);
  }

  lemma {:induction false} ShiftLowOfZero(e: Enc)
    requires e.low == 0
    ensures ShiftLow(e).low == 0 && ShiftLow(e).cache == 0 && ShiftLow(e).cacheCount == 0
  {
  }

  /** After the final four shifts the words name exactly the lower end of the interval. */
  lemma {:induction false} FinishContains(e: Enc)
    requires e.cache < 0xFFFF && e.low < 0x2_0000_0000 - 0x2_0000 && e.range > 0
    requires e.first ==> e.cacheCount == 0 && e.words == [] && e.low < 0xFFFF_0000
    ensures Contains(Finish(e), e)
    ensures |Finish(e)| == |Digits(e)| + 3
  {
    FinalShifts(e);
    var w := Finish(e);
    var n := |Digits(e)| + 2;
    NumDropLast(w, n);
    assert w[..n + 1] == w;
  }

  // --- The decoder ---

  function Le16(data: seq<Byte>, pos: nat): Word
    requires pos + 2 <= |data|
  {
    var lo: nat, hi: nat := data[pos], data[pos + 1];
    lo + 0x100 * hi
  }

  /** The words laid out in the stream, low byte first. */
  function WordBytes(ws: seq<Word>): (bs: seq<Byte>)
    ensures |bs| == 2 * |ws|
  {
    if |ws| == 0 then [] else WordBytes(ws[..|ws| - 1]) + [ws[|ws| - 1] % 0x100, ws[|ws| - 1] / 0x100]
  }

  lemma {:induction false} WordBytesAt(ws: seq<Word>, i: nat)
    requires i < |ws|
    ensures Le16(WordBytes(ws), 2 * i) == ws[i]
  {
    if i < |ws| - 1 {
      WordBytesAt(ws[..|ws| - 1], i);
    }
  }

  lemma {:induction false} Le16OfWords(ws: seq<Word>, data: seq<Byte>, i: nat)
    requires WordBytes(ws) <= data && i < |ws|
    ensures 2 * i + 2 <= |data| && Le16(data, 2 * i) == ws[i]
  {
    WordBytesAt(ws, i);
  }

  datatype Dec = Dec(pos: nat, range: nat, code: nat)

  function DecInit(data: seq<Byte>): Dec
    requires |data| >= 4
  {
    Dec(4, 0xFFFF_FFFF, (Le16(data, 0) as nat) * 0x1_0000 + Le16(data, 2))
  }

  function DecNormalize(d: Dec, data: seq<Byte>): Dec {
    if d.range < 0x1_0000 then
      var shifted := d.code * 0x1_0000 % 0x1_0000_0000;
      if d.pos + 2 <= |data| then
        Dec(d.pos + 2, d.range * 0x1_0000, shifted + Le16(data, d.pos))
      else
        Dec(d.pos, d.range * 0x1_0000, shifted)
    else d
  }

  datatype DecodedBit = DecodedBit(bit: Bit, dec: Dec)

  function DecNarrow(d: Dec, prob: nat): DecodedBit {
    var bound := d.range / 64 * prob;
    if d.code < bound then DecodedBit(0, d.(range := bound))
    else DecodedBit(1, d.(range := if d.range >= bound then d.range - bound else 0, code := d.code - bound))
  }

  function DecodeBit(d: Dec, data: seq<Byte>, prob: nat): DecodedBit {
    DecNarrow(DecNormalize(d, data), prob)
  }

  // --- Encoder and decoder in step ---

  /** `d`, having read the first `n` of the words `w` at the front of `data`, has subtracted `base`. */
  predicate InStepAt(base: nat, n: nat, range: nat, d: Dec, w: seq<Word>, data: seq<Byte>) {
    && WordBytes(w) <= data && n <= |w|
    && d.range == range && d.pos == 2 * n && base <= Num(w[..n])
    && d.code == Num(w[..n]) - base
  }

  /** `d` stands where the encoder stood in state `e`. */
  predicate InStep(e: Enc, d: Dec, w: seq<Word>, data: seq<Byte>)
    requires e.cache < 0x1_0000
  {
    InStepAt(Base(e), |Digits(e)| + 2, e.range, d, w, data)
  }

  lemma {:induction false} FirstTwoWords(w: seq<Word>)
    requires |w| >= 2
    ensures Num(w[..2]) == (w[0] as nat) * 0x1_0000 + w[1]
  {
    NumDropLast(w, 0);
    NumDropLast(w, 1);
    assert w[..0] == [];
  }

  lemma {:induction false} FirstCode(w: seq<Word>, data: seq<Byte>)
    requires |w| >= 2 && WordBytes(w) <= data
    ensures |data| >= 4 && DecInit(data) == Dec(4, 0xFFFF_FFFF, Num(w[..2]))
  {
    Le16OfWords(w, data, 0);
    Le16OfWords(w, data, 1);
    FirstTwoWords(w);
  }

  lemma {:induction false} InitInStep(w: seq<Word>, data: seq<Byte>)
    requires |w| >= 2 && WordBytes(w) <= data
    ensures |data| >= 4 && InStep(INITIAL_ENC, DecInit(data), w, data)
  {
    FirstCode(w, data);
    assert InStepAt(0, 2, 0xFFFF_FFFF, DecInit(data), w, data);
  }

  lemma {:induction false} ReadWordInStep(base: nat, n: nat, range: nat, d: Dec, w: seq<Word>, data: seq<Byte>)
    requires InStepAt(base, n, range, d, w, data)
    requires n < |w| && range < 0x1_0000 && d.code < range
    ensures InStepAt(base * 0x1_0000, n + 1, range * 0x1_0000, DecNormalize(d, data), w, data)
  {
    Le16OfWords(w, data, n);
    NumDropLast(w, n);
  }

  lemma {:induction false} NormalizeInStep(e: Enc, d: Dec, w: seq<Word>, data: seq<Byte>)
    requires ValidEnc(e) && InStep(e, d, w, data) && Contains(w, e) && Contains(w, Normalize(e))
    ensures ValidEnc(Normalize(e)) && InStep(Normalize(e), DecNormalize(d, data), w, data)
  {
    NormalizeBase(e);
    if e.range < 0x1_0000 {
      ReadWordInStep(Base(e), |Digits(e)| + 2, e.range, d, w, data);
    }
  }

  lemma {:induction false} NarrowInStep(e: Enc, d: Dec, w: seq<Word>, data: seq<Byte>, prob: nat, bit: Bit)
    requires e.cache < 0xFFFF && InStep(e, d, w, data)
    requires e.range / 64 * prob <= e.range
    requires bit == 0 <==> d.code < e.range / 64 * prob
    ensures DecNarrow(d, prob).bit == bit
    ensures InStep(Narrow(e, prob, bit), DecNarrow(d, prob).dec, w, data)
  {
    NarrowBase(e, prob, bit);
  }

  /** One step of the range-coder theorem: the decoder recovers the bit and stays in step. */
  lemma {:induction false} DecodeBitInStep(e: Enc, d: Dec, w: seq<Word>, data: seq<Byte>, prob: nat, bit: Bit)
    requires ValidEnc(e) && 1 <= prob <= 63
    requires e == INITIAL_ENC ==> bit == 0
    requires EncodeBit(e, prob, bit).cache < 0xFFFF && Contains(w, EncodeBit(e, prob, bit))
    requires InStep(e, d, w, data)
    ensures DecodeBit(d, data, prob).bit == bit
    ensures InStep(EncodeBit(e, prob, bit), DecodeBit(d, data, prob).dec, w, data)
  {
    ContainsBackwards(w, e, prob, bit);
    NormalizeInStep(e, d, w, data);
    var en := Normalize(e);
    assert en.range >= 0x1_0000 by { NormalizeBase(e); }
    BoundBounds(en.range, prob);
    NarrowInStep(en, DecNormalize(d, data), w, data, prob, bit);
  }

  // --- Whole sequences of coded bits ---

  /** One coded bit: the context that prices it, and the bit. */
  datatype Choice = Choice(context: nat, bit: Bit)

  predicate ValidProbs(probs: seq<Prob>) {
    forall i :: 0 <= i < |probs| ==> ValidProb(probs[i])
  }

  predicate ValidChoices(choices: seq<Choice>, n: nat) {
    forall i :: 0 <= i < |choices| ==> choices[i].context < n
  }

  function EncodeAll(e: Enc, probs: seq<Prob>, choices: seq<Choice>): (e': Enc)
    requires ValidProbs(probs) && ValidChoices(choices, |probs|)
    decreases |choices|
  {
    if |choices| == 0 then e
    else
      var c := choices[0];
      EncodeAll(EncodeBit(e, Probability(probs[c.context]), c.bit),
                probs[c.context := Update(probs[c.context], c.bit)], choices[1..])
  }

  /** Decode one bit for each of the given contexts; the contexts adapt to the decoded bits. */
  function DecodeAll(d: Dec, data: seq<Byte>, probs: seq<Prob>, contexts: seq<nat>): (bits: seq<Bit>)
    requires ValidProbs(probs) && forall i :: 0 <= i < |contexts| ==> contexts[i] < |probs|
    ensures |bits| == |contexts|
    decreases |contexts|
  {
    if |contexts| == 0 then []
    else
      var c := contexts[0];
      var t := DecodeBit(d, data, Probability(probs[c]));
      [t.bit] + DecodeAll(t.dec, data, probs[c := Update(probs[c], t.bit)], contexts[1..])
  }

  function Contexts(choices: seq<Choice>): (r: seq<nat>)
    ensures |r| == |choices| && forall i :: 0 <= i < |choices| ==> r[i] == choices[i].context
  {
    seq(|choices|, i requires 0 <= i < |choices| => choices[i].context)
  }

  function Bits(choices: seq<Choice>): (r: seq<Bit>)
    ensures |r| == |choices| && forall i :: 0 <= i < |choices| ==> r[i] == choices[i].bit
  {
    seq(|choices|, i requires 0 <= i < |choices| => choices[i].bit)
  }

  lemma {:induction false} EncodeAllValid(e: Enc, probs: seq<Prob>, choices: seq<Choice>)
    requires ValidEnc(e) && ValidProbs(probs) && ValidChoices(choices, |probs|)
    requires e == INITIAL_ENC && |choices| > 0 ==> choices[0].bit == 0
    ensures ValidEnc(EncodeAll(e, probs, choices))
    ensures |choices| > 0 || e != INITIAL_ENC ==> EncodeAll(e, probs, choices) != INITIAL_ENC
    decreases |choices|
  {
    hide ValidEnc, EncodeBit;
    if |choices| > 0 {
      var c := choices[0];
      EncodeBitValid(e, Probability(probs[c.context]), c.bit);
      EncodeAllValid(EncodeBit(e, Probability(probs[c.context]), c.bit),
                     probs[c.context := Update(probs[c.context], c.bit)], choices[1..]);
    }
  }

  lemma {:induction false} ContainsAllBackwards(w: seq<Word>, e: Enc, probs: seq<Prob>, choices: seq<Choice>)
    requires ValidEnc(e) && ValidProbs(probs) && ValidChoices(choices, |probs|)
    requires e == INITIAL_ENC && |choices| > 0 ==> choices[0].bit == 0
    requires EncodeAll(e, probs, choices).cache < 0xFFFF && Contains(w, EncodeAll(e, probs, choices))
    ensures e.cache < 0xFFFF && Contains(w, e)
    decreases |choices|
  {
    hide ValidEnc, EncodeBit, Contains;
    assert e.cache < 0xFFFF by { CacheFits(e); }
    if |choices| > 0 {
      var c := choices[0];
      var prob := Probability(probs[c.context]);
      var e1 := EncodeBit(e, prob, c.bit);
      EncodeBitValid(e, prob, c.bit);
      ContainsAllBackwards(w, e1, probs[c.context := Update(probs[c.context], c.bit)], choices[1..]);
      ContainsBackwards(w, e, prob, c.bit);
    }
  }

  lemma {:induction false} CacheFits(e: Enc)
    requires ValidEnc(e)
    ensures e.cache < 0xFFFF
  {
  }

  lemma {:induction false} DecodeAllInStep(e: Enc, d: Dec, w: seq<Word>, data: seq<Byte>,
                                           probs: seq<Prob>, choices: seq<Choice>)
    requires ValidEnc(e) && ValidProbs(probs) && ValidChoices(choices, |probs|)
    requires e == INITIAL_ENC && |choices| > 0 ==> choices[0].bit == 0
    requires EncodeAll(e, probs, choices).cache < 0xFFFF && Contains(w, EncodeAll(e, probs, choices))
    requires InStep(e, d, w, data)
    ensures DecodeAll(d, data, probs, Contexts(choices)) == Bits(choices)
    decreases |choices|
  {
    hide ValidEnc, EncodeBit, DecodeBit, Contains, InStep;
    if |choices| > 0 {
      var c := choices[0];
      var prob, probs' := Probability(probs[c.context]), probs[c.context := Update(probs[c.context], c.bit)];
      var e1 := EncodeBit(e, prob, c.bit);
      EncodeBitValid(e, prob, c.bit);
      ContainsAllBackwards(w, e1, probs', choices[1..]);
      DecodeBitInStep(e, d, w, data, prob, c.bit);
      DecodeAllInStep(e1, DecodeBit(d, data, prob).dec, w, data, probs', choices[1..]);
      assert Contexts(choices)[1..] == Contexts(choices[1..]);
      assert Bits(choices) == [c.bit] + Bits(choices[1..]);
    }
  }

  /** The range-coder theorem: whatever follows the encoder's words in the data, the decoder recovers
      every bit of a sequence that begins with 0. */
  lemma {:induction false} RangeCoderRoundTrip(probs: seq<Prob>, choices: seq<Choice>, tail: seq<Byte>)
    requires ValidProbs(probs) && ValidChoices(choices, |probs|) && |choices| > 0 && choices[0].bit == 0
    ensures var data := WordBytes(Finish(EncodeAll(INITIAL_ENC, probs, choices))) + tail;
            |data| >= 4 && DecodeAll(DecInit(data), data, probs, Contexts(choices)) == Bits(choices)
  {
    var e := EncodeAll(INITIAL_ENC, probs, choices);
    EncodeAllValid(INITIAL_ENC, probs, choices);
    FinishContains(e);
    InitInStep(Finish(e), WordBytes(Finish(e)) + tail);
    var data := WordBytes(Finish(e)) + tail;
    DecodeAllInStep(INITIAL_ENC, DecInit(data), Finish(e), data, probs, choices);
  }

  // --- Why the first bit matters ---

  function OneBits(n: nat): (r: seq<Choice>)
    ensures ValidChoices(r, 1) && |r| == n
    ensures n > 0 ==> r[0] == Choice(0, 1) && r[1..] == OneBits(n - 1)
  {
    seq(n, i => Choice(0, 1))
  }

  lemma {:induction false} UpdateOne(zeros: nat, recent: nat)
    requires 1 <= zeros && recent < 0x8000_0000_0000_0000 && ValidProb(Prob(zeros, recent))
    ensures Update(Prob(zeros, recent), 1) == Prob(zeros - 1, 2 * recent + 1)
  {
    hide Ones, ValidProb;
  }

  lemma {:induction false} EncodeOne(e: Enc, prob: nat)
    requires e.range >= 0x1_0000 && e.range / 64 * prob <= e.range
    ensures EncodeBit(e, prob, 1) == e.(low := e.low + e.range / 64 * prob, range := e.range - e.range / 64 * prob)
  {
  }

  /** One more coded 1, in a window whose oldest bit is 0. */
  lemma {:induction false} CodeOne(low: nat, range: nat, zeros: nat, recent: nat, n: nat)
    requires range >= 0x1_0000 && 1 <= zeros <= 63 && recent < 0x8000_0000_0000_0000
    requires ValidProb(Prob(zeros, recent)) && range / 64 * zeros <= range
    ensures var bound := range / 64 * zeros; var p := Prob(zeros - 1, 2 * recent + 1);
            && ValidProb(p)
            && EncodeAll(INITIAL_ENC.(low := low, range := range), [Prob(zeros, recent)], OneBits(n + 1))
            == EncodeAll(INITIAL_ENC.(low := low + bound, range := range - bound), [p], OneBits(n))
  {
    hide Ones, ValidProb, OneBits, Finish, Update, EncodeBit;
    var e, p := INITIAL_ENC.(low := low, range := range), Prob(zeros, recent);
    UpdateOne(zeros, recent);
    EncodeOne(e, zeros);
    assert [p][0 := Update(p, 1)] == [Update(p, 1)];
    assert OneBits(n + 1)[0] == Choice(0, 1);
  }

  lemma {:induction false} FinishAfterOnes(e: Enc)
    requires e == INITIAL_ENC.(low := 0xFFFF_533A, range := 0xACC5)
    ensures Finish(e) == [0x533A, 0]
    ensures var data := WordBytes(Finish(e)); |data| == 4 && DecInit(data) == Dec(4, 0xFFFF_FFFF, 0x533A_0000)
  {
    var e1 := ShiftLow(e);
    assert e1 == Enc(0x533A_0000, 0xACC5_0000, 0, 1, true, []);
    var e2 := ShiftLow(e1);
    assert e2 == Enc(0, 0, 0x533A, 0, false, []);
    var e3 := ShiftLow(e2);
    assert e3 == Enc(0, 0, 0, 0, false, [0x533A]);
    var w := Finish(e);
    assert w == [0x533A, 0];
    assert WordBytes(w) <= WordBytes(w);
    FirstCode(w, WordBytes(w));
    FirstTwoWords(w);
    assert w[..2] == w;
  }

  lemma {:induction false} FirstOnes(e: Enc, probs: seq<Prob>, n: nat)
    requires n == 5 && ValidProbs(probs) && probs == [Prob(48, 0x5555_5555)]
    requires e == INITIAL_ENC.(low := 0x0, range := 0xFFFF_FFFF)
    ensures ValidProb(Prob(43, 0xA_AAAA_AABF))
    ensures EncodeAll(e, probs, OneBits(n + 5))
         == EncodeAll(e.(low := 0xFF8E_71D0, range := 0x71_8E2F), [Prob(43, 0xA_AAAA_AABF)], OneBits(n))
  {
    hide EncodeAll, OneBits, ValidProb;
    assert ValidProb(probs[0]);
    CodeOne(0x0, 0xFFFF_FFFF, 48, 0x5555_5555, 9);
    CodeOne(0xBFFF_FFD0, 0x4000_002F, 47, 0xAAAA_AAAB, 8);
    CodeOne(0xEEFF_FFD0, 0x1100_002F, 46, 0x1_5555_5557, 7);
    CodeOne(0xFB37_FFD0, 0x4C8_002F, 45, 0x2_AAAA_AAAF, 6);
    CodeOne(0xFE94_9FD0, 0x16B_602F, 44, 0x5_5555_555F, 5);
  }

  lemma {:induction false} LastOnes(e: Enc, probs: seq<Prob>, n: nat)
    requires n == 0 && ValidProbs(probs) && probs == [Prob(43, 0xA_AAAA_AABF)]
    requires e == INITIAL_ENC.(low := 0xFF8E_71D0, range := 0x71_8E2F)
    ensures ValidProb(Prob(38, 0x155_5555_57FF))
    ensures EncodeAll(e, probs, OneBits(n + 5))
         == EncodeAll(e.(low := 0xFFFF_533A, range := 0xACC5), [Prob(38, 0x155_5555_57FF)], OneBits(n))
  {
    hide EncodeAll, OneBits, ValidProb;
    assert ValidProb(probs[0]);
    CodeOne(0xFF8E_71D0, 0x71_8E2F, 43, 0xA_AAAA_AABF, 4);
    CodeOne(0xFFDA_BD38, 0x25_42C7, 42, 0x15_5555_557F, 3);
    CodeOne(0xFFF3_3106, 0xC_CEF9, 41, 0x2A_AAAA_AAFF, 2);
    CodeOne(0xFFFB_6579, 0x4_9A86, 40, 0x55_5555_55FF, 1);
    CodeOne(0xFFFE_4609, 0x1_B9F6, 39, 0xAA_AAAA_ABFF, 0);
  }

  /** Ten 1 bits in a fresh context push the lower end past 0xFFFF0000 before any word has been cached:
      the word is only counted, never written, and already the first decoded bit is wrong. */
  lemma {:induction false} LeadingOnesLoseAWord(probs: seq<Prob>, ones: seq<Choice>, data: seq<Byte>)
    requires ValidProbs(probs) && probs == [INITIAL_PROB] && ones == OneBits(10)
    requires data == WordBytes(Finish(EncodeAll(INITIAL_ENC, probs, ones)))
    ensures |data| == 4 && DecodeAll(DecInit(data), data, probs, Contexts(ones))[0] == 0
  {
    hide EncodeAll, DecodeAll, Finish, OneBits, WordBytes, ValidProb, DecInit, Contexts;
    assert ValidProb(probs[0]);
    FirstOnes(INITIAL_ENC, probs, 5);
    LastOnes(INITIAL_ENC.(low := 0xFF8E_71D0, range := 0x71_8E2F), [Prob(43, 0xA_AAAA_AABF)], 0);
    EncodeNone(INITIAL_ENC.(low := 0xFFFF_533A, range := 0xACC5), [Prob(38, 0x155_5555_57FF)]);
    FinishAfterOnes(INITIAL_ENC.(low := 0xFFFF_533A, range := 0xACC5));
    FirstDecoded(data, probs, Contexts(ones));
  }

  lemma {:induction false} EncodeNone(e: Enc, probs: seq<Prob>)
    requires ValidProbs(probs)
    ensures EncodeAll(e, probs, OneBits(0)) == e
  {
    assert OneBits(0) == [];
  }

  lemma {:induction false} FirstDecoded(data: seq<Byte>, probs: seq<Prob>, contexts: seq<nat>)
    requires |data| == 4 && DecInit(data) == Dec(4, 0xFFFF_FFFF, 0x533A_0000)
    requires ValidProbs(probs) && probs == [INITIAL_PROB] && |contexts| > 0
    requires forall i :: 0 <= i < |contexts| ==> contexts[i] < |probs|
    ensures DecodeAll(DecInit(data), data, probs, contexts)[0] == 0
  {
    assert contexts[0] == 0;
  }
}
