/** What an adaptive code has learnt: its lengths are those for the counts at the last rebuild. */
module AdaptiveLaws {
  import opened CodeLengths
  import opened CodeCost
  import opened CodeLengthCost
  import opened CodeLengthLaws
  import opened AdaptiveCodes

  function ObserveAll(c: Code, syms: seq<nat>): (c': Code)
    requires ValidCode(c) && forall i: nat :: i < |syms| ==> syms[i] < |c.freqs|
    ensures ValidCode(c') && |c'.freqs| == |c.freqs| && c'.rebuildFreq == c.rebuildFreq
  {
    if |syms| == 0 then c else Observe(ObserveAll(c, syms[..|syms| - 1]), syms[|syms| - 1])
  }

  function Occurrences(syms: seq<nat>, s: nat): nat {
    if |syms| == 0 then 0 else Occurrences(syms[..|syms| - 1], s) + if syms[|syms| - 1] == s then 1 else 0
  }

  function Counted(freqs: seq<nat>, syms: seq<nat>): (r: seq<nat>)
    ensures |r| == |freqs| && forall s: nat :: s < |r| ==> r[s] == freqs[s] + Occurrences(syms, s)
  {
    seq(|freqs|, s requires 0 <= s < |freqs| => freqs[s] + Occurrences(syms, s))
  }

  /** Until the countdown ends only the counts change. */
  lemma {:induction false} CountsGrow(c: Code, syms: seq<nat>)
    requires ValidCode(c) && (forall i: nat :: i < |syms| ==> syms[i] < |c.freqs|) && |syms| < c.countdown
    ensures var c' := ObserveAll(c, syms);
            c'.freqs == Counted(c.freqs, syms) && c'.lens == c.lens && c'.countdown == c.countdown - |syms|
  {
    hide ValidCode, Counted, Observe, CodeLens, Dilute;
    if |syms| > 0 {
      var n := |syms| - 1;
      CountsGrow(c, syms[..n]);
      ObserveGrows(ObserveAll(c, syms[..n]), syms[n]);
      CountedNext(c.freqs, syms);
    } else {
      NothingCounted(c.freqs, syms);
    }
  }

  lemma {:induction false} NothingCounted(freqs: seq<nat>, syms: seq<nat>)
    requires |syms| == 0
    ensures Counted(freqs, syms) == freqs
  {
  }

  lemma {:induction false} CountedNext(freqs: seq<nat>, syms: seq<nat>)
    requires |syms| > 0 && syms[|syms| - 1] < |freqs|
    ensures var s, before := syms[|syms| - 1], Counted(freqs, syms[..|syms| - 1]);
            Counted(freqs, syms) == before[s := before[s] + 1]
  {
  }

  lemma {:induction false} ObserveGrows(c: Code, s: nat)
    requires ValidCode(c) && s < |c.freqs|
    ensures var freqs, c' := c.freqs[s := c.freqs[s] + 1], Observe(c, s);
            if c.countdown > 1 then c' == Code(c.rebuildFreq, freqs, c.countdown - 1, c.lens)
            else ValidFreqs(freqs) && c' == Code(c.rebuildFreq, Dilute(freqs), c.rebuildFreq, CodeLens(freqs))
  {
  }

  /** The symbol that ends the countdown brings lengths for everything counted, and then the counts are halved. */
  lemma {:induction false} RebuiltFromCounts(c: Code, syms: seq<nat>)
    requires ValidCode(c) && (forall i: nat :: i < |syms| ==> syms[i] < |c.freqs|) && |syms| == c.countdown
    ensures var c', counts := ObserveAll(c, syms), Counted(c.freqs, syms);
            && ValidFreqs(counts) && c'.lens == CodeLens(counts) && c'.countdown == c.rebuildFreq
            && forall s: nat :: s < |counts| ==> 2 * c'.freqs[s] - 2 <= counts[s] <= 2 * c'.freqs[s] - 1
  {
    hide CodeLens, ValidFreqs, Observe, Counted, ValidCode;
    var n := |syms| - 1;
    CountdownPositive(c);
    CountsGrow(c, syms[..n]);
    ObserveGrows(ObserveAll(c, syms[..n]), syms[n]);
    CountedNext(c.freqs, syms);
    HalvedAndOne(Counted(c.freqs, syms));
  }

  lemma {:induction false} CountdownPositive(c: Code)
    requires ValidCode(c)
    ensures c.countdown >= 1
  {
  }

  lemma {:induction false} HalvedAndOne(counts: seq<nat>)
    ensures forall s: nat :: s < |counts| ==> 2 * Dilute(counts)[s] - 2 <= counts[s] <= 2 * Dilute(counts)[s] - 1
  {
  }

  /** A fresh code knows nothing: every symbol counts 1. */
  lemma {:induction false} FreshCounts(numSyms: nat, rebuildFreq: nat)
    requires numSyms <= MAX_SYMBOLS && 1 <= rebuildFreq <= 1024
    ensures var c := NewCode(numSyms, rebuildFreq);
            && c.countdown == rebuildFreq && c.lens == CodeLens(c.freqs)
            && forall s: nat :: s < numSyms ==> c.freqs[s] == 1
  {
  }

  /** After a rebuild no prefix code is shorter on what was counted, up to the scaling of a too deep tree. */
  lemma {:induction false} RebuiltShortest(c: Code, syms: seq<nat>, other: seq<nat>)
    requires ValidCode(c) && (forall i: nat :: i < |syms| ==> syms[i] < |c.freqs|) && |syms| == c.countdown
    requires Serves(other, Counted(c.freqs, syms)) && ValidFreqs(Counted(c.freqs, syms))
    ensures var w := DecidingCounts(Counted(c.freqs, syms));
            Dot(w, ObserveAll(c, syms).lens) <= Dot(w, other)
  {
    hide CodeLens, DecidingCounts, Serves, Dot;
    var counts := Counted(c.freqs, syms);
    RebuiltFromCounts(c, syms);
    SmallCounts(c, syms);
    CodeLensShortest(counts, other);
  }


  /** All counts of an adaptive code together stay far below 32 bits. */
  lemma {:induction false} SmallCounts(c: Code, syms: seq<nat>)
    requires ValidCode(c) && (forall i: nat :: i < |syms| ==> syms[i] < |c.freqs|) && |syms| == c.countdown
    requires ValidFreqs(Counted(c.freqs, syms))
    ensures Sum(DecidingCounts(Counted(c.freqs, syms))) <= U32_MAX
  {
    hide DecidingCounts, Scaled;
    var counts := Counted(c.freqs, syms);
    var k := DecidingAreScaled(counts);
    forall s: nat | s < |counts| ensures DecidingCounts(counts)[s] <= 4000 {
      OccurrencesBound(syms, s);
      ScaledLess(counts[s], k);
    }
    SumBound(DecidingCounts(counts), 4000);
  }

  lemma {:induction false} OccurrencesBound(syms: seq<nat>, s: nat)
    ensures Occurrences(syms, s) <= |syms|
  {
    if |syms| > 0 {
      OccurrencesBound(syms[..|syms| - 1], s);
    }
  }

  lemma {:induction false} ScaledLess(v: nat, k: nat)
    requires v > 0
    ensures Scaled(v, k) <= v
    decreases k
  {
    hide Scaled;
    HalveScaled(v, 0);
    if k > 0 {
      HalveScaled(v, k - 1);
      ScaledLess((v + 1) / 2, k - 1);
    }
  }

  lemma {:induction false} SumBound(s: seq<nat>, top: nat)
    requires forall i: nat :: i < |s| ==> s[i] <= top
    ensures Sum(s) <= |s| * top
  {
    if |s| > 0 {
      SumBound(s[..|s| - 1], top);
    }
  }
}
