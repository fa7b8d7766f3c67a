/** Exactly which bit sequences survive the range coder: those whose first shift happens while the low end is below
    0xFFFF0000. A first word of 0xFFFF is only counted and never written. */
module RangeCoderExact {
  import opened BitStrings
  import opened RangeCoding

  /** No shift has happened yet. */
  predicate Fresh(e: Enc) {
    && e.first && e.cacheCount == 0 && e.words == [] && e.cache == 0
    && 0x400 <= e.range && e.low + e.range <= 0xFFFF_FFFF
  }

  /** What every step keeps, whatever the first bit is. */
  predicate Sound(e: Enc) {
    if e.first then Fresh(e) else ValidEnc(e)
  }

  /** The first shift, when it comes, is one that caches its word. */
  predicate FirstWordKept(e: Enc, probs: seq<Prob>, choices: seq<Choice>)
    requires ValidProbs(probs) && ValidChoices(choices, |probs|)
    decreases |choices|
  {
    e.first ==>
      if |choices| == 0 then e.low < 0xFFFF_0000
      else
        && (e.range < 0x1_0000 ==> e.low < 0xFFFF_0000)
        && FirstWordKept(Coded(e, probs, choices[0]), Adapted(probs, choices[0]), choices[1..])
  }

  function Coded(e: Enc, probs: seq<Prob>, c: Choice): Enc
    requires c.context < |probs|
  {
    EncodeBit(e, Probability(probs[c.context]), c.bit)
  }

  function Adapted(probs: seq<Prob>, c: Choice): (r: seq<Prob>)
    requires ValidProbs(probs) && c.context < |probs|
    ensures ValidProbs(r) && |r| == |probs|
  {
    probs[c.context := Update(probs[c.context], c.bit)]
  }

  // --- A kept first word: the decoder follows ---

  lemma {:induction false} SoundNormalize(e: Enc)
    requires Sound(e) && (e.first && e.range < 0x1_0000 ==> e.low < 0xFFFF_0000)
    ensures e.cache < 0xFFFF
    ensures var e' := Normalize(e); var k := if e.range < 0x1_0000 then 1 else 0;
            && Sound(e') && e'.range >= 0x1_0000 && e'.cache < 0xFFFF
            && |Digits(e')| == |Digits(e)| + k
            && Base(e') == Base(e) * (if k == 1 then 0x1_0000 else 1)
            && e'.range == e.range * (if k == 1 then 0x1_0000 else 1)
  {
    if !e.first {
      NormalizeBase(e);
    } else if e.range < 0x1_0000 {
      ShiftLowBase(e);
    }
  }

  lemma {:induction false} SoundNarrow(e: Enc, prob: nat, bit: Bit)
    requires Sound(e) && e.range >= 0x1_0000 && 1 <= prob <= 63
    ensures Sound(Narrow(e, prob, bit)) && e.cache < 0xFFFF && e.range / 64 * prob <= e.range
  {
    BoundBounds(e.range, prob);
  }

  lemma {:induction false} SoundNormalizeContains(w: seq<Word>, e: Enc)
    requires Sound(e) && (e.first && e.range < 0x1_0000 ==> e.low < 0xFFFF_0000)
    requires Normalize(e).cache < 0xFFFF && Contains(w, Normalize(e))
    ensures e.cache < 0xFFFF && Contains(w, e)
  {
    hide Sound, Normalize, Digits, Base;
    SoundNormalize(e);
    if e.range < 0x1_0000 {
      var n := |Digits(e)| + 2;
      NumDropLast(w, n);
      Powers.DivBounds(Num(w[..n + 1]), 0x1_0000, Base(e), Base(e) + e.range);
    } else {
      assert Normalize(e) == e by { NoShift(e); }
    }
  }

  lemma {:induction false} NoShift(e: Enc)
    requires e.range >= 0x1_0000
    ensures Normalize(e) == e
  {
  }

  lemma {:induction false} SoundContains(w: seq<Word>, e: Enc, prob: nat, bit: Bit)
    requires Sound(e) && (e.first && e.range < 0x1_0000 ==> e.low < 0xFFFF_0000) && 1 <= prob <= 63
    requires EncodeBit(e, prob, bit).cache < 0xFFFF && Contains(w, EncodeBit(e, prob, bit))
    ensures e.cache < 0xFFFF && Contains(w, e)
    ensures var en := Normalize(e);
            && en.cache < 0xFFFF && Contains(w, en)
            && (bit == 0 <==> Num(w[..|Digits(en)| + 2]) - Base(en) < en.range / 64 * prob)
  {
    hide Sound, Normalize, Digits, Base, Num;
    SoundNormalize(e);
    var en := Normalize(e);
    BoundBounds(en.range, prob);
    NarrowBase(en, prob, bit);
    SoundNormalizeContains(w, e);
  }

  lemma {:induction false} SoundInStep(e: Enc, d: Dec, w: seq<Word>, data: seq<Byte>, prob: nat, bit: Bit)
    requires Sound(e) && (e.first && e.range < 0x1_0000 ==> e.low < 0xFFFF_0000) && 1 <= prob <= 63
    requires EncodeBit(e, prob, bit).cache < 0xFFFF && Contains(w, EncodeBit(e, prob, bit))
    requires e.cache < 0xFFFF && InStep(e, d, w, data)
    ensures DecodeBit(d, data, prob).bit == bit
    ensures InStep(EncodeBit(e, prob, bit), DecodeBit(d, data, prob).dec, w, data)
  {
    hide Sound, DecNarrow;
    SoundContains(w, e, prob, bit);
    SoundNormalize(e);
    var en := Normalize(e);
    if e.range < 0x1_0000 {
      ReadWordInStep(Base(e), |Digits(e)| + 2, e.range, d, w, data);
    }
    SoundNarrow(en, prob, bit);
    NarrowInStep(en, DecNormalize(d, data), w, data, prob, bit);
  }

  lemma {:induction false} SoundCoded(e: Enc, probs: seq<Prob>, c: Choice)
    requires Sound(e) && (e.first && e.range < 0x1_0000 ==> e.low < 0xFFFF_0000) && c.context < |probs|
    ensures Sound(Coded(e, probs, c))
  {
    hide Sound;
    SoundNormalize(e);
    SoundNarrow(Normalize(e), Probability(probs[c.context]), c.bit);
  }

  lemma {:induction false} SoundCache(e: Enc)
    requires Sound(e)
    ensures e.cache < 0xFFFF
  {
  }

  lemma {:induction false} KeptStep(e: Enc, probs: seq<Prob>, choices: seq<Choice>)
    requires ValidProbs(probs) && ValidChoices(choices, |probs|) && |choices| > 0 && FirstWordKept(e, probs, choices)
    ensures e.first && e.range < 0x1_0000 ==> e.low < 0xFFFF_0000
    ensures !e.first ==> !Coded(e, probs, choices[0]).first
    ensures FirstWordKept(Coded(e, probs, choices[0]), Adapted(probs, choices[0]), choices[1..])
  {
    hide Adapted, Fill;
  }

  /** The words of a sound run name a point of the interval at its end. */
  lemma {:induction false} KeptFinish(e: Enc, probs: seq<Prob>, choices: seq<Choice>)
    requires ValidProbs(probs) && ValidChoices(choices, |probs|) && Sound(e) && FirstWordKept(e, probs, choices)
    ensures var last := EncodeAll(e, probs, choices);
            last.cache < 0xFFFF && Contains(Finish(last), last) && |Finish(last)| >= 2
    decreases |choices|
  {
    hide Contains, Finish, Coded, EncodeBit, Adapted;
    if |choices| == 0 {
      FinishOfSound(e);
    } else {
      EncodeAllStep(e, probs, choices);
      KeptStep(e, probs, choices);
      SoundCoded(e, probs, choices[0]);
      KeptFinish(Coded(e, probs, choices[0]), Adapted(probs, choices[0]), choices[1..]);
    }
  }

  lemma {:induction false} EncodeAllStep(e: Enc, probs: seq<Prob>, choices: seq<Choice>)
    requires ValidProbs(probs) && ValidChoices(choices, |probs|) && |choices| > 0
    ensures EncodeAll(e, probs, choices)
            == EncodeAll(Coded(e, probs, choices[0]), Adapted(probs, choices[0]), choices[1..])
  {
  }

  lemma {:induction false} FinishOfSound(e: Enc)
    requires Sound(e) && (e.first ==> e.low < 0xFFFF_0000)
    ensures e.cache < 0xFFFF && Contains(Finish(e), e) && |Finish(e)| >= 2
  {
    FinishContains(e);
  }

  lemma {:induction false} KeptContains(w: seq<Word>, e: Enc, probs: seq<Prob>, choices: seq<Choice>)
    requires ValidProbs(probs) && ValidChoices(choices, |probs|) && Sound(e) && FirstWordKept(e, probs, choices)
    requires EncodeAll(e, probs, choices).cache < 0xFFFF && Contains(w, EncodeAll(e, probs, choices))
    ensures e.cache < 0xFFFF && Contains(w, e)
    decreases |choices|
  {
    hide Contains, Sound, EncodeBit, FirstWordKept, Adapted;
    SoundCache(e);
    if |choices| > 0 {
      EncodeAllStep(e, probs, choices);
      KeptStep(e, probs, choices);
      SoundCoded(e, probs, choices[0]);
      KeptContains(w, Coded(e, probs, choices[0]), Adapted(probs, choices[0]), choices[1..]);
      SoundContains(w, e, Probability(probs[choices[0].context]), choices[0].bit);
    }
  }

  lemma {:induction false} KeptDecodes(e: Enc, d: Dec, w: seq<Word>, data: seq<Byte>, probs: seq<Prob>,
                                       choices: seq<Choice>)
    requires ValidProbs(probs) && ValidChoices(choices, |probs|) && Sound(e) && FirstWordKept(e, probs, choices)
    requires EncodeAll(e, probs, choices).cache < 0xFFFF && Contains(w, EncodeAll(e, probs, choices))
    requires e.cache < 0xFFFF && InStep(e, d, w, data)
    ensures DecodeAll(d, data, probs, Contexts(choices)) == Bits(choices)
    decreases |choices|
  {
    hide Contains, Sound, EncodeBit, DecodeBit, InStep, FirstWordKept, Update;
    if |choices| > 0 {
      var c := choices[0];
      var prob, e1 := Probability(probs[c.context]), Coded(e, probs, choices[0]);
      EncodeAllStep(e, probs, choices);
      KeptStep(e, probs, choices);
      SoundCoded(e, probs, c);
      KeptContains(w, e1, Adapted(probs, c), choices[1..]);
      SoundInStep(e, d, w, data, prob, c.bit);
      SoundCache(e1);
      KeptDecodes(e1, DecodeBit(d, data, prob).dec, w, data, Adapted(probs, c), choices[1..]);
      assert Contexts(choices)[1..] == Contexts(choices[1..]);
      assert Bits(choices) == [c.bit] + Bits(choices[1..]);
    }
  }

  // --- A lost first word: some bit comes out wrong ---

  /** As long as nothing has been cached, the count of pending words makes no difference. */
  lemma {:induction false} CountForgotten(x: Enc, s: Enc, probs: seq<Prob>, choices: seq<Choice>)
    requires ValidProbs(probs) && ValidChoices(choices, |probs|)
    requires x.first && s == x.(cacheCount := 0) && ValidEnc(s) && s != INITIAL_ENC
    ensures Finish(EncodeAll(x, probs, choices)) == Finish(EncodeAll(s, probs, choices))
    decreases |choices|
  {
    hide EncodeAll, Adapted, Fill;
    if |choices| == 0 {
      NoneCoded(x, probs, choices);
      NoneCoded(s, probs, choices);
      assert ShiftLow(x) == ShiftLow(s);
    } else {
      EncodeAllStep(x, probs, choices);
      EncodeAllStep(s, probs, choices);
      var x1, s1 := Coded(x, probs, choices[0]), Coded(s, probs, choices[0]);
      EncodeBitValid(s, Probability(probs[choices[0].context]), choices[0].bit);
      if s.range < 0x1_0000 {
        assert x1 == s1;
      } else {
        CountForgotten(x1, s1, Adapted(probs, choices[0]), choices[1..]);
      }
    }
  }

  lemma {:induction false} NoneCoded(e: Enc, probs: seq<Prob>, choices: seq<Choice>)
    requires ValidProbs(probs) && |choices| == 0
    ensures EncodeAll(e, probs, choices) == e
  {
  }

  lemma {:induction false} LostAtEnd(e: Enc)
    requires Fresh(e) && e.low >= 0xFFFF_0000
    ensures |Finish(e)| >= 2 && Num(Finish(e)[..2]) < 0xFFFF_0000
  {
    var v := e.low % 0x1_0000;
    var e1 := ShiftLow(e);
    assert e1.low == v * 0x1_0000 && e1.first && e1.words == [];
    var e2 := ShiftLow(e1);
    assert e2.cache == v && e2.low == 0 && !e2.first && e2.words == [] && e2.cacheCount == 0;
    ShiftLowOfZero(e2);
    var e3 := ShiftLow(e2);
    assert e3.words == [v];
    var w := Finish(e);
    assert w == [v, 0];
    FirstTwoWords(w);
  }

  lemma {:induction false} PendingShift(e: Enc)
    requires Fresh(e) && e.low >= 0xFFFF_0000 && e.range < 0x1_0000
    ensures var s := ShiftLow(e).(cacheCount := 0);
            && ShiftLow(e).first && Normalize(e) == ShiftLow(e)
            && ValidEnc(s) && s != INITIAL_ENC && s.range >= 0x1_0000
  {
    var s := ShiftLow(e).(cacheCount := 0);
    assert s.low + s.range <= 0xFFFF_0000 && s.range >= 0x400_0000;
  }

  lemma {:induction false} LostAtStep(e: Enc, probs: seq<Prob>, choices: seq<Choice>)
    requires ValidProbs(probs) && ValidChoices(choices, |probs|) && |choices| > 0
    requires Fresh(e) && e.low >= 0xFFFF_0000 && e.range < 0x1_0000
    ensures var w := Finish(EncodeAll(e, probs, choices)); |w| >= 2 && Num(w[..2]) < 0xFFFF_0000
  {
    hide EncodeAll, Finish, Contains, Adapted, Update, ShiftLow, ValidEnc, Num;
    var c, x := choices[0], ShiftLow(e);
    var prob := Probability(probs[c.context]);
    var s := x.(cacheCount := 0);
    PendingShift(e);
    var x1, s1 := Coded(e, probs, c), EncodeBit(s, prob, c.bit);
    assert s1 == x1.(cacheCount := 0);
    EncodeBitValid(s, prob, c.bit);
    EncodeAllStep(e, probs, choices);
    CountForgotten(x1, s1, Adapted(probs, c), choices[1..]);
    ValidStart(s1, Adapted(probs, c), choices[1..]);
  }

  /** The first two words lie in the interval of a state before the first shift. */
  lemma {:induction false} ValidStart(s: Enc, probs: seq<Prob>, choices: seq<Choice>)
    requires ValidProbs(probs) && ValidChoices(choices, |probs|) && ValidEnc(s) && s.first && s != INITIAL_ENC
    ensures var w := Finish(EncodeAll(s, probs, choices)); |w| >= 2 && Num(w[..2]) < 0xFFFF_0000
  {
    hide EncodeAll, Finish;
    var last := EncodeAll(s, probs, choices);
    EncodeAllValid(s, probs, choices);
    FinishContains(last);
    ContainsAllBackwards(Finish(last), s, probs, choices);
  }

  lemma {:induction false} LostWordSmall(e: Enc, probs: seq<Prob>, choices: seq<Choice>)
    requires ValidProbs(probs) && ValidChoices(choices, |probs|) && Fresh(e) && !FirstWordKept(e, probs, choices)
    ensures var w := Finish(EncodeAll(e, probs, choices)); |w| >= 2 && Num(w[..2]) < 0xFFFF_0000
    decreases |choices|
  {
    hide EncodeAll, Finish, Adapted, Num;
    if |choices| == 0 {
      NoneCoded(e, probs, choices);
      LostAtEnd(e);
    } else if e.range < 0x1_0000 {
      ShiftKeeps(e, probs, choices);
      LostAtStep(e, probs, choices);
    } else {
      EncodeAllStep(e, probs, choices);
      SoundCoded(e, probs, choices[0]);
      assert Coded(e, probs, choices[0]).first;
      LostWordSmall(Coded(e, probs, choices[0]), Adapted(probs, choices[0]), choices[1..]);
    }
  }

  lemma {:induction false} ShiftKeeps(e: Enc, probs: seq<Prob>, choices: seq<Choice>)
    requires ValidProbs(probs) && ValidChoices(choices, |probs|) && |choices| > 0
    requires e.first && e.range < 0x1_0000
    ensures e.low < 0xFFFF_0000 ==> FirstWordKept(e, probs, choices)
  {
    hide Adapted;
  }

  /** Decoding the bits before the lost word takes a code that starts with 0xFFFF. */
  lemma {:induction false} PrefixNeedsWord(e: Enc, d: Dec, value: nat, data: seq<Byte>, probs: seq<Prob>,
                                           choices: seq<Choice>)
    requires ValidProbs(probs) && ValidChoices(choices, |probs|) && Fresh(e) && !FirstWordKept(e, probs, choices)
    requires d.range == e.range && e.low <= value && d.code == value - e.low
    requires DecodeAll(d, data, probs, Contexts(choices)) == Bits(choices)
    ensures value >= 0xFFFF_0000
    decreases |choices|
  {
    hide Update;
    if |choices| > 0 && e.range < 0x1_0000 {
      ShiftKeeps(e, probs, choices);
    } else if |choices| > 0 {
      var c := choices[0];
      var prob := Probability(probs[c.context]);
      var t := DecodeBit(d, data, prob);
      assert Contexts(choices)[1..] == Contexts(choices[1..]) && Bits(choices)[1..] == Bits(choices[1..]);
      assert t.bit == Bits(choices)[0] == c.bit by { FirstBitDecoded(d, data, probs, choices); }
      SoundCoded(e, probs, c);
      BoundBounds(e.range, prob);
      FirstBitDecoded(d, data, probs, choices);
      PrefixNeedsWord(Coded(e, probs, c), t.dec, value, data, Adapted(probs, c), choices[1..]);
    }
  }

  lemma {:induction false} FirstBitDecoded(d: Dec, data: seq<Byte>, probs: seq<Prob>, choices: seq<Choice>)
    requires ValidProbs(probs) && ValidChoices(choices, |probs|) && |choices| > 0
    requires DecodeAll(d, data, probs, Contexts(choices)) == Bits(choices)
    ensures var t := DecodeBit(d, data, Probability(probs[choices[0].context]));
            && t.bit == choices[0].bit
            && DecodeAll(t.dec, data, Adapted(probs, choices[0]), Contexts(choices[1..])) == Bits(choices[1..])
  {
    hide DecodeBit, Update;
    assert Contexts(choices)[1..] == Contexts(choices[1..]) && Bits(choices)[1..] == Bits(choices[1..]);
    assert Contexts(choices)[0] == choices[0].context && Bits(choices)[0] == choices[0].bit;
  }

  /** The decoder recovers every bit exactly when the first word is kept, whatever follows in the data. */
  lemma {:induction false} RangeCoderExactly(probs: seq<Prob>, choices: seq<Choice>, tail: seq<Byte>)
    requires ValidProbs(probs) && ValidChoices(choices, |probs|)
    ensures var data := WordBytes(Finish(EncodeAll(INITIAL_ENC, probs, choices))) + tail;
            && |data| >= 4
            && (DecodeAll(DecInit(data), data, probs, Contexts(choices)) == Bits(choices)
                <==> FirstWordKept(INITIAL_ENC, probs, choices))
  {
    hide EncodeAll, DecodeAll, Finish, FirstWordKept, Contains, InStep, WordBytes, DecInit;
    var last := EncodeAll(INITIAL_ENC, probs, choices);
    var w := Finish(last);
    var data := WordBytes(w) + tail;
    if FirstWordKept(INITIAL_ENC, probs, choices) {
      KeptFinish(INITIAL_ENC, probs, choices);
      InitInStep(w, data);
      KeptDecodes(INITIAL_ENC, DecInit(data), w, data, probs, choices);
    } else {
      LostWordSmall(INITIAL_ENC, probs, choices);
      FirstCode(w, data);
      if DecodeAll(DecInit(data), data, probs, Contexts(choices)) == Bits(choices) {
        PrefixNeedsWord(INITIAL_ENC, DecInit(data), Num(w[..2]), data, probs, choices);
      }
    }
  }

  /** A sequence that begins with 0 keeps its first word. */
  lemma {:induction false} ZeroKeeps(e: Enc, probs: seq<Prob>, choices: seq<Choice>)
    requires ValidProbs(probs) && ValidChoices(choices, |probs|)
    requires ValidEnc(e) && (e == INITIAL_ENC && |choices| > 0 ==> choices[0].bit == 0)
    ensures FirstWordKept(e, probs, choices)
    decreases |choices|
  {
    hide EncodeBit, Adapted;
    if |choices| > 0 {
      var c := choices[0];
      EncodeBitValid(e, Probability(probs[c.context]), c.bit);
      ZeroKeeps(Coded(e, probs, c), Adapted(probs, c), choices[1..]);
    }
  }
}
