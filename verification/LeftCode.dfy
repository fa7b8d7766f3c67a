/** Left-leaning canonical codes: the longest codes come first. With a full Kraft sum they are prefix-free
    and every window starts with exactly one of them. */
module LeftCode {
  import opened Powers
  import opened BitStrings
  import opened CanonicalCode

  const MAX_LEFT_LEN := 16

  predicate ValidLefts(lens: seq<nat>) {
    forall s :: 0 <= s < |lens| ==> lens[s] <= MAX_LEFT_LEN
  }

  /** The first code of length `l`: above it, halved, are all codes of greater length. */
  function Base(lens: seq<nat>, l: nat): nat
    decreases lens, MAX_LEFT_LEN - l
  {
    if l >= MAX_LEFT_LEN then 0 else (Base(lens, l + 1) + Count(lens, l + 1)) / 2
  }

  /** One past the last code of length `l`; also the number of tree nodes at depth `l`. */
  function End(lens: seq<nat>, l: nat): nat {
    Base(lens, l) + Count(lens, l)
  }

  function LeftCodeOf(lens: seq<nat>, s: nat): nat
    requires s < |lens|
  {
    Base(lens, lens[s]) + Count(lens[..s], lens[s])
  }

  /** The bits as written: the code is stored bit-reversed and goes out low bit first. */
  function LeftBits(lens: seq<nat>, s: nat): (bs: seq<Bit>)
    requires s < |lens|
    ensures |bs| == lens[s]
  {
    ToBits(LeftCodeOf(lens, s), lens[s])
  }

  // --- The Kraft sum, scaled by 2^16 ---

  function LeftShare(l: nat): nat {
    if 0 < l <= MAX_LEFT_LEN then Pow2(MAX_LEFT_LEN - l) else 0
  }

  function LeftKraft(lens: seq<nat>): nat {
    if |lens| == 0 then 0 else LeftKraft(lens[..|lens| - 1]) + LeftShare(lens[|lens| - 1])
  }

  /** The part of the sum from codes longer than `l`. */
  function KraftBeyond(lens: seq<nat>, l: nat): nat {
    if |lens| == 0 then 0
    else KraftBeyond(lens[..|lens| - 1], l) + if lens[|lens| - 1] > l then LeftShare(lens[|lens| - 1]) else 0
  }

  predicate LeftComplete(lens: seq<nat>) {
    ValidLefts(lens) && LeftKraft(lens) == Pow2(MAX_LEFT_LEN)
  }

  /** Codes up to length `l` contribute whole multiples of the share of length `l`. */
  lemma {:induction false} ShortPart(lens: seq<nat>, l: nat) returns (m: nat)
    requires ValidLefts(lens) && l <= MAX_LEFT_LEN
    ensures LeftKraft(lens) == KraftBeyond(lens, l) + m * Pow2(MAX_LEFT_LEN - l)
  {
    m := 0;
    if |lens| > 0 {
      var last := lens[|lens| - 1];
      var front := lens[..|lens| - 1];
      var k := ShortPart(front, l);
      m := k;
      if 0 < last <= l {
        Pow2Add(l - last, MAX_LEFT_LEN - l);
        Distribute(k, Pow2(l - last), Pow2(MAX_LEFT_LEN - l));
        m := k + Pow2(l - last);
      }
    }
  }

  lemma {:induction false} BeyondStep(lens: seq<nat>, l: nat)
    requires 0 < l <= MAX_LEFT_LEN
    ensures KraftBeyond(lens, l - 1) == KraftBeyond(lens, l) + Count(lens, l) * Pow2(MAX_LEFT_LEN - l)
  {
    if |lens| > 0 {
      hide Pow2;
      BeyondStep(lens[..|lens| - 1], l);
      Distribute(Count(lens[..|lens| - 1], l), 1, Pow2(MAX_LEFT_LEN - l));
    }
  }

  lemma {:induction false} BeyondMax(lens: seq<nat>)
    requires ValidLefts(lens)
    ensures KraftBeyond(lens, MAX_LEFT_LEN) == 0
  {
    if |lens| > 0 {
      BeyondMax(lens[..|lens| - 1]);
    }
  }

  lemma {:induction false} TwiceOut(a: nat, h: nat)
    ensures a * (2 * h) == 2 * a * h
  {
    Associate(2, a, h);
  }

  lemma {:induction false} EvenFactor(e: nat, h: nat, a: nat, b: nat)
    requires h > 0 && e * h + a * (2 * h) == b * (2 * h)
    ensures e % 2 == 0
  {
    TwiceOut(a, h);
    TwiceOut(b, h);
    Distribute(e, 2 * a, h);
    CancelFactor(e + 2 * a, 2 * b, h);
    CancelFactor(2 * b, e + 2 * a, h);
  }

  /** With a full Kraft sum the halvings are exact: the nodes of each depth are the leaves there and the
      parents of the next depth. */
  lemma {:induction false} EndIsKraft(lens: seq<nat>, l: nat)
    requires LeftComplete(lens) && 0 < l <= MAX_LEFT_LEN
    ensures End(lens, l) * Pow2(MAX_LEFT_LEN - l) == KraftBeyond(lens, l - 1)
    ensures l > 1 ==> End(lens, l) % 2 == 0
    decreases MAX_LEFT_LEN - l
  {
    hide LeftKraft, KraftBeyond, Count;
    var h := Pow2(MAX_LEFT_LEN - l);
    BeyondStep(lens, l);
    if l == MAX_LEFT_LEN {
      BeyondMax(lens);
      assert Base(lens, l) == 0;
    } else {
      EndIsKraft(lens, l + 1);
      var e := End(lens, l + 1);
      assert Base(lens, l) * 2 == e;
      assert h == 2 * Pow2(MAX_LEFT_LEN - (l + 1));
      HalfProduct(Base(lens, l), e, Pow2(MAX_LEFT_LEN - (l + 1)));
      Distribute(Base(lens, l), Count(lens, l), h);
    }
    if l > 1 {
      var m := ShortPart(lens, l - 1);
      Pow2Add(l - 1, MAX_LEFT_LEN - (l - 1));
      assert Pow2(MAX_LEFT_LEN - (l - 1)) == 2 * h;
      EvenFactor(End(lens, l), h, m, Pow2(l - 1));
    }
  }

  lemma {:induction false} HalfProduct(b: nat, e: nat, h: nat)
    requires 2 * b == e
    ensures b * (2 * h) == e * h
  {
    Associate(b, 2, h);
  }

  lemma {:induction false} BaseStep(lens: seq<nat>, l: nat)
    requires l < MAX_LEFT_LEN
    ensures Base(lens, l) == End(lens, l + 1) / 2
  {
  }

  /** The tree: two nodes below the root, and every inner node has two children. */
  lemma {:induction false} TreeShape(lens: seq<nat>)
    requires LeftComplete(lens)
    ensures End(lens, 1) == 2
    ensures forall l :: 0 < l < MAX_LEFT_LEN ==> End(lens, l + 1) == 2 * Base(lens, l)
  {
    hide Base, Count, KraftBeyond;
    EndIsKraft(lens, 1);
    var m := ShortPart(lens, 0);
    KraftAll(lens);
    assert Pow2(16) == 2 * Pow2(15);
    CancelFactor(End(lens, 1), 2, Pow2(15));
    CancelFactor(2, End(lens, 1), Pow2(15));
    forall l | 0 < l < MAX_LEFT_LEN ensures End(lens, l + 1) == 2 * Base(lens, l) {
      EndIsKraft(lens, l + 1);
      BaseStep(lens, l);
    }
  }

  lemma {:induction false} KraftAll(lens: seq<nat>)
    ensures KraftBeyond(lens, 0) == LeftKraft(lens)
  {
    if |lens| > 0 {
      KraftAll(lens[..|lens| - 1]);
    }
  }

  lemma {:induction false} NodesFit(lens: seq<nat>, l: nat)
    requires LeftComplete(lens) && 0 < l <= MAX_LEFT_LEN
    ensures End(lens, l) <= Pow2(l)
  {
    hide Base, Count, LeftKraft;
    TreeShape(lens);
    if l > 1 {
      NodesFit(lens, l - 1);
      assert End(lens, l - 1 + 1) == 2 * Base(lens, l - 1);
    }
  }

  lemma {:induction false} LeftCodeRange(lens: seq<nat>, s: nat)
    requires s < |lens|
    ensures Base(lens, lens[s]) <= LeftCodeOf(lens, s) < End(lens, lens[s])
  {
    CountPrefix(lens, s, |lens|, lens[s]);
    assert lens[..|lens|] == lens;
  }

  lemma {:induction false} LeftCodeFits(lens: seq<nat>, s: nat)
    requires LeftComplete(lens) && s < |lens| && lens[s] > 0
    ensures LeftCodeOf(lens, s) < Pow2(lens[s]) && FromBits(LeftBits(lens, s)) == LeftCodeOf(lens, s)
  {
    LeftCodeRange(lens, s);
    NodesFit(lens, lens[s]);
    FromToBits(LeftCodeOf(lens, s), lens[s]);
  }

  // --- The order of the codes ---

  /** The code space taken by the symbols below `n` that come before `s`: those with longer codes, and those with a
      code of equal length and a smaller number. */
  function LeftSpaceBefore(lens: seq<nat>, s: nat, n: nat): nat
    requires s < |lens| && n <= |lens|
  {
    if n == 0 then 0
    else
      var u := n - 1;
      LeftSpaceBefore(lens, s, u) + if lens[u] > lens[s] || (lens[u] == lens[s] && u < s) then LeftShare(lens[u]) else 0
  }

  lemma {:induction false} LeftSpaceSplits(lens: seq<nat>, s: nat, n: nat)
    requires s < |lens| && n <= |lens| && lens[s] > 0
    ensures LeftSpaceBefore(lens, s, n)
            == KraftBeyond(lens[..n], lens[s]) + Count(lens[..if n < s then n else s], lens[s]) * LeftShare(lens[s])
  {
    hide LeftShare;
    if n > 0 {
      LeftSpaceSplits(lens, s, n - 1);
      assert lens[..n][..n - 1] == lens[..n - 1];
      var l := lens[s];
      if n <= s && lens[n - 1] == l {
        Distribute(Count(lens[..n - 1], l), 1, LeftShare(l));
      }
    }
  }

  /** Each code starts where the codes before it end, longer ones first and equal ones by symbol number. */
  lemma {:induction false} LeftCodesInOrder(lens: seq<nat>, s: nat)
    requires LeftComplete(lens) && s < |lens| && lens[s] > 0
    ensures FromBits(LeftBits(lens, s)) * Pow2(MAX_LEFT_LEN - lens[s]) == LeftSpaceBefore(lens, s, |lens|)
  {
    hide Pow2, LeftKraft, KraftBeyond, Base, Count;
    var l, h := lens[s], LeftShare(lens[s]);
    LeftCodeFits(lens, s);
    LeftSpaceSplits(lens, s, |lens|);
    assert lens[..|lens|] == lens;
    Distribute(Base(lens, l), Count(lens[..s], l), h);
    BaseIsKraft(lens, l);
  }

  lemma {:induction false} BaseIsKraft(lens: seq<nat>, l: nat)
    requires LeftComplete(lens) && 0 < l <= MAX_LEFT_LEN
    ensures Base(lens, l) * Pow2(MAX_LEFT_LEN - l) == KraftBeyond(lens, l)
  {
    hide LeftKraft, KraftBeyond, Count;
    if l == MAX_LEFT_LEN {
      BeyondMax(lens);
      BaseAtMax(lens);
    } else {
      EndIsKraft(lens, l + 1);
      BaseStep(lens, l);
      HalfProduct(Base(lens, l), End(lens, l + 1), Pow2(MAX_LEFT_LEN - (l + 1)));
    }
  }

  // --- Windows ---

  predicate LeftDecodes(lens: seq<nat>, w: seq<Bit>, s: nat) {
    s < |lens| && lens[s] > 0 && LeftBits(lens, s) <= w
  }

  /** The node at depth `l` on the way along `w`. */
  function NodeOn(w: seq<Bit>, l: nat): nat
    requires l <= |w|
  {
    FromBits(w[..l])
  }

  lemma {:induction false} NodeStep(w: seq<Bit>, l: nat)
    requires l < |w|
    ensures 2 * NodeOn(w, l) <= NodeOn(w, l + 1) <= 2 * NodeOn(w, l) + 1
  {
    assert w[..l + 1][..l] == w[..l];
  }

  /** Below a leaf there are no nodes. */
  lemma {:induction false} BelowLeaf(lens: seq<nat>, w: seq<Bit>, l: nat, d: nat)
    requires LeftComplete(lens) && 0 < l < d <= MAX_LEFT_LEN && d <= |w| && NodeOn(w, l) >= Base(lens, l)
    ensures NodeOn(w, d) >= End(lens, d)
    decreases d
  {
    hide Base, Count, NodeOn, LeftKraft, Pow2;
    TreeShape(lens);
    NodeStep(w, d - 1);
    if l < d - 1 {
      BelowLeaf(lens, w, l, d - 1);
    }
    assert End(lens, d - 1 + 1) == 2 * Base(lens, d - 1);
  }

  lemma {:induction false} MatchIsNode(lens: seq<nat>, w: seq<Bit>, s: nat)
    requires LeftComplete(lens) && LeftDecodes(lens, w, s)
    ensures NodeOn(w, lens[s]) == LeftCodeOf(lens, s)
    ensures Base(lens, lens[s]) <= NodeOn(w, lens[s]) < End(lens, lens[s])
  {
    LeftCodeFits(lens, s);
    LeftCodeRange(lens, s);
    assert w[..lens[s]] == LeftBits(lens, s);
  }

  /** At most one code starts a window. */
  lemma {:induction false} LeftUnique(lens: seq<nat>, w: seq<Bit>, s: nat, t: nat)
    requires LeftComplete(lens) && LeftDecodes(lens, w, s) && LeftDecodes(lens, w, t)
    ensures s == t
  {
    MatchIsNode(lens, w, s);
    MatchIsNode(lens, w, t);
    if lens[s] < lens[t] {
      BelowLeaf(lens, w, lens[s], lens[t]);
    } else if lens[t] < lens[s] {
      BelowLeaf(lens, w, lens[t], lens[s]);
    } else if s != t {
      CountPrefix(lens, if s < t then s else t, if s < t then t else s, lens[s]);
    }
  }

  lemma {:induction false} BaseAtMax(lens: seq<nat>)
    ensures Base(lens, MAX_LEFT_LEN) == 0
  {
  }

  /** Descend to the first leaf. */
  lemma {:induction false} LeafOn(lens: seq<nat>, w: seq<Bit>, l: nat) returns (s: nat)
    requires LeftComplete(lens) && |w| >= MAX_LEFT_LEN && 0 < l <= MAX_LEFT_LEN && NodeOn(w, l) < End(lens, l)
    ensures LeftDecodes(lens, w, s)
    decreases MAX_LEFT_LEN - l
  {
    hide Base, Count, LeftKraft, Pow2, NodeOn, LeftComplete, LeftBits;
    BaseAtMax(lens);
    if NodeOn(w, l) < Base(lens, l) {
      NodeBelow(lens, w, l);
      s := LeafOn(lens, w, l + 1);
    } else {
      s := LeafHere(lens, w, l);
    }
  }

  lemma {:induction false} NodeBelow(lens: seq<nat>, w: seq<Bit>, l: nat)
    requires LeftComplete(lens) && 0 < l < MAX_LEFT_LEN <= |w| && NodeOn(w, l) < Base(lens, l)
    ensures NodeOn(w, l + 1) < End(lens, l + 1)
  {
    hide Count, LeftKraft, Pow2, NodeOn, LeftComplete;
    TreeShape(lens);
    NodeStep(w, l);
  }

  lemma {:induction false} LeafHere(lens: seq<nat>, w: seq<Bit>, l: nat) returns (s: nat)
    requires |w| >= MAX_LEFT_LEN && 0 < l <= MAX_LEFT_LEN && Base(lens, l) <= NodeOn(w, l) < End(lens, l)
    ensures LeftDecodes(lens, w, s)
  {
    hide Base, Count, FromBits, ToBits;
    s := SymbolOfRank(lens, l, NodeOn(w, l) - Base(lens, l));
    assert LeftCodeOf(lens, s) == NodeOn(w, l);
    ToFromBits(w[..l]);
  }

  /** Every window of 16 bits starts with a code. */
  lemma {:induction false} LeftExists(lens: seq<nat>, w: seq<Bit>) returns (s: nat)
    requires LeftComplete(lens) && |w| >= MAX_LEFT_LEN
    ensures LeftDecodes(lens, w, s)
  {
    TreeShape(lens);
    FromBitsBound(w[..1]);
    s := LeafOn(lens, w, 1);
  }
}
