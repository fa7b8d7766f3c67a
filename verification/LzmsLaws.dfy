/** The LZMS format in independent terms: what an item copies, what the queues remember, which probability codes a
    decision, and which words go on the wire for an item. */
module LzmsLaws {
  import opened Powers
  import opened BitStrings
  import opened RangeCoding
  import opened SlotTables
  import opened LzmsCoder
  import opened LzmsItems
  import opened LzmsCodec

  // --- What an item copies ---

  lemma {:induction false} LzCopied(out: seq<Byte>, offset: nat, n: nat, i: nat)
    requires 1 <= offset <= |out| && |out| <= i < |out| + n
    ensures LzCopy(out, offset, n)[i] == LzCopy(out, offset, n)[i - offset]
    decreases n
  {
    var next := out + [out[|out| - offset]];
    if i > |out| {
      LzCopied(next, offset, n - 1, i);
    } else {
      assert next <= LzCopy(out, offset, n);
      assert LzCopy(out, offset, n)[i - offset] == next[i - offset];
    }
  }

  /** The difference over `span` bytes at `i`, less the one `offset` before. */
  function Imbalance(r: seq<Byte>, i: nat, offset: nat, span: nat): int
    requires offset + span <= i < |r|
  {
    var a: int, b: int, c: int, d: int := r[i], r[i - span], r[i - offset], r[i - offset - span];
    (a - b) - (c - d)
  }

  lemma {:induction false} DeltaCopied(out: seq<Byte>, offset: nat, span: nat, n: nat, i: nat)
    requires 1 <= offset && 1 <= span && offset + span <= |out| && |out| <= i < |out| + n
    ensures Imbalance(DeltaCopy(out, offset, span, n), i, offset, span) % 0x100 == 0
    decreases n
  {
    var next := out + [DeltaByte(out, |out|, offset, span)];
    if i > |out| {
      DeltaCopied(next, offset, span, n - 1, i);
    } else {
      var r := DeltaCopy(out, offset, span, n);
      assert next <= r;
      assert r[i] == next[i] && r[i - span] == out[i - span];
      assert r[i - offset] == out[i - offset] && r[i - offset - span] == out[i - offset - span];
      DeltaBalanced(out[i - offset], out[i - span], out[i - offset - span]);
    }
  }

  lemma {:induction false} DeltaBalanced(a: nat, b: nat, c: nat)
    requires c < 0x100
    ensures (((a + b) % 0x100 + 0x100 - c) % 0x100 - b - (a - c)) % 0x100 == 0
  {
  }

  /** The bytes an item appends: a literal, a copy of what lies `offset` before, or bytes whose differences over a
      power of two repeat those one distance before. It fails exactly if that would reach before the start. */
  lemma {:induction false} ReplayedBytes(out: seq<Byte>, item: Item, room: nat)
    requires Replayable(item) && room > 0
    ensures item.Literal? ==> Replay(out, item, room) == Ok(out + [item.byte])
    ensures item.LzMatch? ==>
              && (Replay(out, item, room).Ok? <==> item.offset <= |out|)
              && (item.offset <= |out| ==>
                    var r := Replay(out, item, room).value;
                    && |r| == |out| + Min(item.length, room) && out <= r
                    && forall i: nat :: |out| <= i < |r| ==> r[i] == r[i - item.offset])
    ensures item.DeltaMatch? ==>
              var span := Pow2(item.power);
              var offset := item.offset * span;
              && (Replay(out, item, room).Ok? <==> offset + span <= |out|)
              && (offset + span <= |out| ==>
                    var r := Replay(out, item, room).value;
                    && |r| == |out| + Min(item.length, room) && out <= r
                    && forall i: nat :: |out| <= i < |r| ==> Imbalance(r, i, offset, span) % 0x100 == 0)
  {
    hide LzCopy, DeltaCopy, Imbalance, Pow2;
    match item
    case Literal(_) =>
    case LzMatch(_, offset, length) =>
      if offset <= |out| {
        var n := Min(length, room);
        forall i: nat | |out| <= i < |out| + n
          ensures LzCopy(out, offset, n)[i] == LzCopy(out, offset, n)[i - offset]
        {
          LzCopied(out, offset, n, i);
        }
      }
    case DeltaMatch(_, offset, power, length) =>
      var span := Pow2(power);
      MulMonotone(span, 1, offset);
      if offset * span + span <= |out| {
        var n := Min(length, room);
        forall i: nat | |out| <= i < |out| + n
          ensures Imbalance(DeltaCopy(out, offset * span, span, n), i, offset * span, span) % 0x100 == 0
        {
          DeltaCopied(out, offset * span, span, n, i);
        }
      }
  }

  // --- What the queues remember ---

  /** `q'` is `q` with entry `i` taken out and `v` put in front. */
  predicate FrontOf<T(==)>(q: seq<T>, i: nat, v: T, q': seq<T>) {
    i < |q| && q' == [v] + q[..i] + q[i + 1..]
  }

  /** The entry that a repeat code names: right after a match of the same kind the front one is left out. */
  function RepeatEntry(h: History, rep: nat, kind: nat): nat {
    if h.prevType == kind then rep + 1 else rep
  }

  /** An LZ match puts its offset in front: a new one pushes out the oldest, a repeated one leaves its place. The other
      queue stays. */
  lemma {:induction false} LzRemembered(h: History, item: Item, size: nat)
    requires ValidHistory(h) && item.LzMatch? && Codable(item, h, size)
    ensures var i := if item.rep.Some? then RepeatEntry(h, item.rep.value, 1) else 3;
            && FrontOf(h.offsets, i, item.offset, After(h, item).offsets)
            && (item.rep.Some? ==> h.offsets[i] == item.offset)
            && After(h, item).deltas == h.deltas && After(h, item).prevType == 1
  {
  }

  lemma {:induction false} DeltaRemembered(h: History, item: Item, size: nat)
    requires ValidHistory(h) && item.DeltaMatch? && Codable(item, h, size)
    ensures var i := if item.rep.Some? then RepeatEntry(h, item.rep.value, 2) else 3;
            && FrontOf(h.deltas, i, (item.offset, item.power), After(h, item).deltas)
            && (item.rep.Some? ==> h.deltas[i] == (item.offset, item.power))
            && After(h, item).offsets == h.offsets && After(h, item).prevType == 2
  {
  }

  /** After a literal every repeat code counts from the front again, and both queues are as before. */
  lemma {:induction false} LiteralRemembered(h: History, b: Byte, rep: nat)
    requires ValidHistory(h) && rep <= 2
    ensures var h' := After(h, Literal(b));
            && h'.offsets == h.offsets && h'.deltas == h.deltas
            && LzPosition(h', rep) == rep && DeltaPosition(h', rep) == rep
  {
  }

  /** What a repeat code decodes to. */
  lemma {:induction false} RepeatNames(h: History, rep: nat)
    requires ValidHistory(h) && rep <= 2
    ensures LzPosition(h, rep) == RepeatEntry(h, rep, 1) && DeltaPosition(h, rep) == RepeatEntry(h, rep, 2)
  {
  }

  // --- Which probability codes a decision ---

  function ContextAfter(c: Context, bits: seq<Bit>): (c': Context)
    requires ValidContext(c, |c.probs|)
    ensures ValidContext(c', |c.probs|) && |c'.probs| == |c.probs|
  {
    if |bits| == 0 then c else NextContext(ContextAfter(c, bits[..|bits| - 1]), bits[|bits| - 1])
  }

  lemma {:induction false} StateFollows(c: Context, bits: seq<Bit>)
    requires ValidContext(c, |c.probs|)
    ensures ContextAfter(c, bits).state == (c.state * Pow2(|bits|) + FromBits(bits)) % |c.probs|
  {
    hide Pow2, FromBits, NextContext, ValidContext;
    NoBits(bits);
    if |bits| == 0 {
      StateBelow(c);
    } else {
      var n := |bits| - 1;
      StateFollows(c, bits[..n]);
      BitsStep(bits);
      NextState(ContextAfter(c, bits[..n]), bits[n]);
      OneMore(c.state, Pow2(n), FromBits(bits[..n]), bits[n], |c.probs|);
    }
  }

  lemma {:induction false} StateBelow(c: Context)
    requires ValidContext(c, |c.probs|)
    ensures (c.state * 1 + 0) % |c.probs| == c.state
  {
  }

  lemma {:induction false} NextState(c: Context, bit: Bit)
    requires ValidContext(c, |c.probs|)
    ensures |c.probs| > 0 && NextContext(c, bit).state == (2 * c.state + bit) % |c.probs|
  {
  }

  lemma {:induction false} NoBits(bits: seq<Bit>)
    ensures |bits| == 0 ==> FromBits(bits) == 0 && Pow2(|bits|) == 1
  {
  }

  lemma {:induction false} BitsStep(bits: seq<Bit>)
    requires |bits| > 0
    ensures var n := |bits| - 1;
            FromBits(bits) == 2 * FromBits(bits[..n]) + bits[n] && Pow2(|bits|) == 2 * Pow2(n)
  {
  }

  lemma {:induction false} OneMore(s: nat, p: nat, w: nat, bit: Bit, m: nat)
    requires m > 0
    ensures (2 * ((s * p + w) % m) + bit) % m == (s * (2 * p) + (2 * w + bit)) % m
  {
    Doubled(s * p + w, bit, m);
    Swap2(s, p);
    assert 2 * (s * p + w) + bit == s * (2 * p) + (2 * w + bit);
  }

  lemma {:induction false} Swap2(s: nat, p: nat)
    ensures s * (2 * p) == 2 * (s * p)
  {
  }

  lemma {:induction false} Doubled(v: nat, bit: nat, m: nat)
    requires m > 0
    ensures (2 * (v % m) + bit) % m == (2 * v + bit) % m
  {
    var q, r := v / m, v % m;
    assert v == q * m + r;
    var a := 2 * r + bit;
    var k, s := a / m, a % m;
    assert a == k * m + s;
    Distribute(2 * q, k, m);
    DivUnique(2 * v + bit, m, 2 * q + k, s);
  }

  /** The state is the number formed by the latest decisions, whatever came before: 4 of them for literals or matches,
      5 for the kind of match, 6 for all others. */
  lemma {:induction false} StateIsRecent(c: Context, bits: seq<Bit>, k: nat)
    requires |c.probs| == Pow2(k) && ValidContext(c, |c.probs|) && |bits| >= k
    ensures ContextAfter(c, bits).state == FromBits(bits[|bits| - k..])
  {
    hide Pow2;
    var front, recent := bits[..|bits| - k], bits[|bits| - k..];
    assert bits == front + recent;
    ContextConcat(c, front, recent);
    StateFollows(ContextAfter(c, front), recent);
    FromBitsBound(recent);
    var s := ContextAfter(c, front).state;
    DivUnique(s * Pow2(k) + FromBits(recent), Pow2(k), s, FromBits(recent));
  }

  lemma {:induction false} ContextConcat(c: Context, a: seq<Bit>, b: seq<Bit>)
    requires ValidContext(c, |c.probs|)
    ensures ContextAfter(c, a + b) == ContextAfter(ContextAfter(c, a), b)
  {
    hide NextContext;
    if |b| == 0 {
      assert a + b == a;
    } else {
      var n := |b| - 1;
      assert (a + b)[..|a + b| - 1] == a + b[..n];
      ContextConcat(c, a, b[..n]);
    }
  }

  lemma {:induction false} StateSizes(d: Decision)
    ensures NumStates(d) == Pow2(match d case Main => 4 case Match => 5 case _ => 6)
  {
    assert Pow2(4) == 16;
  }

  /** The five codes: how many symbols each has, all with the same count at first, and how soon it is rebuilt. */
  lemma {:induction false} FreshModel(size: nat, bases: seq<nat>, a: Alphabet)
    requires OffsetTable(bases)
    ensures var c := NewModel(size, bases).codes[a];
            && |c.freqs| == (match a case LiteralSyms => 256 case LengthSyms => 54 case DeltaPowerSyms => 8
                             case _ => NumOffsetSlots(bases, size))
            && c.rebuildFreq == c.countdown == (if a.LengthSyms? || a.DeltaPowerSyms? then 512 else 1024)
            && forall s: nat :: s < |c.freqs| ==> c.freqs[s] == 1
  {
  }

  /** A decision is coded with the estimate that belongs to its own state, and only that estimate learns from it. */
  lemma {:induction false} DecisionProbability(c: Coder, d: Decision, bit: Bit)
    requires ValidCoder(c) && (c.rc == INITIAL_ENC ==> bit == 0)
    ensures var from, to := c.model.contexts[d], Decide(c, d, bit).model.contexts[d];
            && from.state < |from.probs| == |to.probs|
            && Decide(c, d, bit).rc == EncodeBit(c.rc, Probability(from.probs[from.state]), bit)
            && to.probs == from.probs[from.state := Update(from.probs[from.state], bit)]
            && forall e: Decision :: e != d ==> Decide(c, d, bit).model.contexts[e] == c.model.contexts[e]
  {
    hide EncodeBit, Update, Probability, ValidEnc;
  }

  // --- The estimate of a probability ---

  function UpdateAll(p: Prob, bits: seq<Bit>): (p': Prob)
    requires ValidProb(p)
    ensures ValidProb(p')
  {
    if |bits| == 0 then p else Update(UpdateAll(p, bits[..|bits| - 1]), bits[|bits| - 1])
  }

  function ZeroCount(bits: seq<Bit>): (n: nat)
    ensures n <= |bits|
  {
    if |bits| == 0 then 0 else ZeroCount(bits[..|bits| - 1]) + if bits[|bits| - 1] == 0 then 1 else 0
  }

  const SPAN := 0x1_0000_0000_0000_0000

  lemma {:induction false} WindowFollows(p: Prob, bits: seq<Bit>)
    requires ValidProb(p)
    ensures UpdateAll(p, bits).recent == (p.recent * Pow2(|bits|) + FromBits(bits)) % SPAN
  {
    hide Ones, Pow2, FromBits, Update, ValidProb;
    NoBits(bits);
    if |bits| == 0 {
      WindowBelow(p);
    } else {
      var n := |bits| - 1;
      WindowFollows(p, bits[..n]);
      BitsStep(bits);
      OneMore(p.recent, Pow2(n), FromBits(bits[..n]), bits[n], SPAN);
      NextWindow(UpdateAll(p, bits[..n]), bits[n]);
    }
  }

  lemma {:induction false} WindowBelow(p: Prob)
    requires ValidProb(p)
    ensures (p.recent * 1 + 0) % SPAN == p.recent
  {
    hide Ones;
  }

  lemma {:induction false} NextWindow(p: Prob, bit: Bit)
    requires ValidProb(p)
    ensures Update(p, bit).recent == (2 * p.recent + bit) % SPAN
  {
    hide Ones;
    EvenRoom(p.recent, bit);
  }

  lemma {:induction false} EvenRoom(v: nat, bit: Bit)
    ensures v * 2 % SPAN + bit == (2 * v + bit) % SPAN
  {
  }

  lemma {:induction false} OnesOfBits(bits: seq<Bit>, k: nat)
    requires k >= |bits|
    ensures Ones(FromBits(bits), k) == |bits| - ZeroCount(bits)
    decreases k
  {
    if |bits| == 0 {
      NoOnes(k);
    } else {
      var n := |bits| - 1;
      OnesOfBits(bits[..n], k - 1);
      OnesStep(FromBits(bits), k);
    }
  }

  lemma {:induction false} NoOnes(k: nat)
    ensures Ones(0, k) == 0
    decreases k
  {
    if k > 0 {
      NoOnes(k - 1);
    }
  }

  /** Once 64 bits have been coded in a context, the probability of a 0 is taken as the share of zeros among the last
      64, at least 1 and at most 63 of them. */
  lemma {:induction false} ProbabilityIsShare(p: Prob, bits: seq<Bit>)
    requires ValidProb(p) && |bits| >= 64
    ensures var zeros := ZeroCount(bits[|bits| - 64..]);
            Probability(UpdateAll(p, bits)) == if zeros == 0 then 1 else if zeros == 64 then 63 else zeros
  {
    hide Pow2, Ones, FromBits, ZeroCount, Update;
    var front, recent := bits[..|bits| - 64], bits[|bits| - 64..];
    assert bits == front + recent;
    UpdateConcat(p, front, recent);
    WindowFollows(UpdateAll(p, front), recent);
    FromBitsBound(recent);
    PowerTable();
    var v := UpdateAll(p, front).recent;
    DivUnique(v * SPAN + FromBits(recent), SPAN, v, FromBits(recent));
    OnesOfBits(recent, 64);
    CountOf(UpdateAll(p, bits));
  }

  lemma {:induction false} CountOf(p: Prob)
    requires ValidProb(p)
    ensures p.numZeros == 64 - Ones(p.recent, 64)
  {
  }

  lemma {:induction false} UpdateConcat(p: Prob, a: seq<Bit>, b: seq<Bit>)
    requires ValidProb(p)
    ensures UpdateAll(p, a + b) == UpdateAll(UpdateAll(p, a), b)
  {
    hide Update, ValidProb;
    if |b| == 0 {
      assert a + b == a;
    } else {
      var n := |b| - 1;
      assert (a + b)[..|a + b| - 1] == a + b[..n];
      UpdateConcat(p, a, b[..n]);
    }
  }

  /** The interval is cut in two: the lower part stands for 0 and is about `prob` 64ths of it, the upper part for 1. */
  lemma {:induction false} IntervalCut(e: Enc, prob: nat)
    requires ValidEnc(e) && 1 <= prob <= 63 && e.range >= 0x1_0000
    ensures var zero, one := Narrow(e, prob, 0), Narrow(e, prob, 1);
            && zero.low == e.low && one.low == zero.low + zero.range && one.low + one.range == e.low + e.range
            && 64 * zero.range <= prob * e.range <= 64 * zero.range + 63 * prob
            && 64 * zero.range > prob * (e.range - 64)
  {
    hide ValidEnc;
    var q, r := e.range / 64, e.range % 64;
    assert e.range == 64 * q + r;
    MulMonotone(prob, r, 63);
    assert prob * e.range == 64 * (q * prob) + prob * r;
    MulMonotone(q, prob, 63);
  }

  // --- How the bits decide what an item is ---

  /** A 0 is a literal; 1 and 0 an LZ match, 1 and 1 a delta match; then 0 announces an explicit offset. */
  lemma {:induction false} ItemByBits(s: Source, data: seq<Byte>, h: History)
    requires ValidModel(s.model) && ValidHistory(h) && TakeItem(s, data, h).TakenItem?
    ensures var item, main := TakeItem(s, data, h).item, TakeBit(s, data, Main);
            && (item.Literal? <==> main.bit == 0)
            && (main.bit == 1 ==>
                  var kind := TakeBit(main.source, data, Match);
                  && (item.LzMatch? <==> kind.bit == 0) && (item.DeltaMatch? <==> kind.bit == 1)
                  && (item.LzMatch? ==> (item.rep.None? <==> TakeBit(kind.source, data, Lz).bit == 0))
                  && (item.DeltaMatch? ==> (item.rep.None? <==> TakeBit(kind.source, data, Delta).bit == 0)))
  {
    hide TakeBit, TakeSymbol, TakeLength, TakeRep, TakeOffset, TakeNewDelta;
    var main := TakeBit(s, data, Main);
    if main.bit == 1 {
      var kind := TakeBit(main.source, data, Match);
      if kind.bit == 0 {
        LzByBits(kind.source, data, h);
      } else {
        DeltaByBits(kind.source, data, h);
      }
    }
  }

  lemma {:induction false} LzByBits(s: Source, data: seq<Byte>, h: History)
    requires ValidModel(s.model) && ValidHistory(h) && TakeLz(s, data, h).TakenItem?
    ensures var item := TakeLz(s, data, h).item; item.LzMatch? && (item.rep.None? <==> TakeBit(s, data, Lz).bit == 0)
  {
    hide TakeBit, TakeSymbol, TakeLength, TakeRep, TakeOffset;
  }

  lemma {:induction false} DeltaByBits(s: Source, data: seq<Byte>, h: History)
    requires ValidModel(s.model) && ValidHistory(h) && TakeDelta(s, data, h).TakenItem?
    ensures var item := TakeDelta(s, data, h).item;
            item.DeltaMatch? && (item.rep.None? <==> TakeBit(s, data, Delta).bit == 0)
  {
    hide TakeBit, TakeSymbol, TakeLength, TakeRep, TakeOffset;
  }

  /** The repeat code is the number of 1 bits before the first 0, at most two. */
  lemma {:induction false} RepByBits(s: Source, data: seq<Byte>, d0: Decision, d1: Decision)
    requires ValidModel(s.model)
    ensures var first, rep := TakeBit(s, data, d0), TakeRep(s, data, d0, d1).val;
            && (rep == 0 <==> first.bit == 0)
            && (rep == 1 <==> first.bit == 1 && TakeBit(first.source, data, d1).bit == 0)
            && (rep == 2 <==> first.bit == 1 && TakeBit(first.source, data, d1).bit == 1)
  {
    hide TakeBit;
  }
}
