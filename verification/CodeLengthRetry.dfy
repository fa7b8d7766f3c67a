/** Retries can turn the order of two counts around: seventeen symbols, of which one with count 2 has 9 bits and one
    with count 1 only 8. */
module CodeLengthRetry {
  import opened CanonicalCode
  import opened CodeLengths
  import opened CodeLengthCost
  import opened CodeLengthOrder
  import opened CodeLengthLaws

  // --- One tree that takes the leaves one by one ---

  /** The merged tree of weight `w` and the next leaf are always the two least. */
  predicate OneChain(ws: seq<nat>, w: nat)
    decreases |ws|
  {
    |ws| > 0 ==> w + ws[0] <= U32_MAX && ws[0] <= w && (|ws| > 1 ==> w < ws[1]) && OneChain(ws[1..], w + ws[0])
  }

  lemma {:induction false} OneChainHeight(ls: seq<Tree>, t: Tree)
    requires OneChain(Weights(ls), t.w) && AllLeaves(ls)
    ensures Height(MergeAll(Forest(ls, [t]))) == Height(t) + |ls|
    decreases |ls|
  {
    if |ls| > 0 {
      var next := Join(ls[0], t);
      OneChainStep(ls, t);
      OneChainHeight(ls[1..], next);
    }
  }

  lemma {:induction false} OneChainStep(ls: seq<Tree>, t: Tree)
    requires |ls| > 0 && OneChain(Weights(ls), t.w) && AllLeaves(ls)
    ensures var next := Join(ls[0], t);
            && MergeAll(Forest(ls, [t])) == MergeAll(Forest(ls[1..], [next]))
            && OneChain(Weights(ls[1..]), next.w) && Height(next) == Height(t) + 1
  {
    hide OneChain;
    OneChainParts(Weights(ls), t.w);
    assert Weights(ls)[1..] == Weights(ls[1..]);
    var f := Forest(ls, [t]);
    assert PickMin(f) == Picked(ls[0], Forest(ls[1..], [t]));
    assert PickMin(Forest(ls[1..], [t])) == Picked(t, Forest(ls[1..], []));
    assert MergeStep(f) == Forest(ls[1..], [Join(ls[0], t)]);
  }

  lemma {:induction false} OneChainParts(ws: seq<nat>, w: nat)
    requires OneChain(ws, w) && |ws| > 0
    ensures w + ws[0] <= U32_MAX && ws[0] <= w && (|ws| > 1 ==> w < ws[1]) && OneChain(ws[1..], w + ws[0])
  {
  }

  // --- Two trees that take turns ---

  /** Of two merged trees the lighter one and the next leaf are always the two least. */
  predicate TwoChains(ws: seq<nat>, p: nat, q: nat)
    decreases |ws|
  {
    |ws| > 0 ==> p + ws[0] <= U32_MAX && p < ws[0] <= q && p <= q && TwoChains(ws[1..], q, p + ws[0])
  }

  /** How deep the first tree ends up when `n` leaves are to come; the second one is as deep as the first one leaf on.
      */
  function ChainDepth(n: nat): nat {
    if n < 2 then n + 1 else ChainDepth(n - 2) + 1
  }

  lemma {:induction false} TwoChainsDepth(ls: seq<Tree>, p: Tree, q: Tree)
    requires TwoChains(Weights(ls), p.w, q.w) && AllLeaves(ls) && Distinct(Syms(p) + (Syms(q) + AllSyms(ls)))
    ensures var root := MergeAll(Forest(ls, [p, q]));
            && HangsAt(root, p, ChainDepth(|ls|))
            && HangsAt(root, q, if |ls| == 0 then 1 else ChainDepth(|ls| - 1))
    decreases |ls|
  {
    hide Distinct, Syms, HangsAt;
    if |ls| == 0 {
      LastTwo(p, q);
    } else {
      var next := Join(p, ls[0]);
      TwoChainsStep(ls, p, q);
      ChainSyms(ls, p, q);
      TwoChainsDepth(ls[1..], q, next);
      JoinHangs(MergeAll(Forest(ls, [p, q])), p, ls[0], if |ls| == 1 then 1 else ChainDepth(|ls| - 2));
    }
  }

  lemma {:induction false} LastTwo(p: Tree, q: Tree)
    requires Distinct(Syms(p) + (Syms(q) + AllSyms([])))
    ensures var root := MergeAll(Forest([], [p, q])); HangsAt(root, p, 1) && HangsAt(root, q, 1)
  {
    hide Distinct, HangsAt;
    var f := Forest([], [p, q]);
    assert PickMin(f) == Picked(p, Forest([], [q]));
    assert MergeStep(f) == Forest([], [Join(p, q)]);
    assert MergeAll(f) == Join(p, q);
    assert Syms(p) + (Syms(q) + AllSyms([])) == Syms(p) + Syms(q);
    SelfHangs(Join(p, q));
    JoinHangs(Join(p, q), p, q, 0);
  }

  lemma {:induction false} SelfHangs(t: Tree)
    ensures HangsAt(t, t, 0)
  {
  }

  lemma {:induction false} ChainSyms(ls: seq<Tree>, p: Tree, q: Tree)
    requires |ls| > 0 && Distinct(Syms(p) + (Syms(q) + AllSyms(ls)))
    ensures Distinct(Syms(p) + Syms(ls[0]))
    ensures Distinct(Syms(q) + (Syms(Join(p, ls[0])) + AllSyms(ls[1..])))
  {
    hide Distinct;
    var all := Syms(p) + (Syms(q) + AllSyms(ls));
    assert all == (Syms(p) + Syms(ls[0])) + (Syms(q) + AllSyms(ls[1..]));
    DistinctParts(Syms(p) + Syms(ls[0]), Syms(q) + AllSyms(ls[1..]));
    assert all == Syms(q) + (Syms(Join(p, ls[0])) + AllSyms(ls[1..]));
  }

  lemma {:induction false} TwoChainsStep(ls: seq<Tree>, p: Tree, q: Tree)
    requires |ls| > 0 && TwoChains(Weights(ls), p.w, q.w) && AllLeaves(ls)
    ensures var next := Join(p, ls[0]);
            && MergeAll(Forest(ls, [p, q])) == MergeAll(Forest(ls[1..], [q, next]))
            && TwoChains(Weights(ls[1..]), q.w, next.w)
  {
    hide TwoChains;
    TwoChainsParts(Weights(ls), p.w, q.w);
    assert Weights(ls)[1..] == Weights(ls[1..]);
    var f := Forest(ls, [p, q]);
    assert PickMin(f) == Picked(p, Forest(ls, [q]));
    assert PickMin(Forest(ls, [q])) == Picked(ls[0], Forest(ls[1..], [q]));
    assert MergeStep(f) == Forest(ls[1..], [q, Join(p, ls[0])]);
  }

  lemma {:induction false} TwoChainsParts(ws: seq<nat>, p: nat, q: nat)
    requires TwoChains(ws, p, q) && |ws| > 0
    ensures p + ws[0] <= U32_MAX && p < ws[0] <= q && TwoChains(ws[1..], q, p + ws[0])
  {
  }

  // --- Sorted arrangements are unique ---

  lemma {:induction false} OneOrder(a: seq<Tree>, b: seq<Tree>)
    requires InSortedOrder(a) && InSortedOrder(b) && multiset(a) == multiset(b)
    ensures a == b
    decreases |a|
  {
    if |a| == 0 {
      assert |multiset(b)| == |b|;
    } else {
      var k := RemovedAlike(a, 0, b);
      var j := RemovedAlike(b, 0, a);
      FirstAlike(a, b, k, j);
      assert Removed(a, 0) == a[1..] && Removed(b, 0) == b[1..];
      OneOrder(a[1..], b[1..]);
    }
  }

  lemma {:induction false} FirstAlike(a: seq<Tree>, b: seq<Tree>, k: nat, j: nat)
    requires InSortedOrder(a) && InSortedOrder(b) && k < |b| && j < |a| && b[k] == a[0] && a[j] == b[0]
    ensures k == 0
  {
  }

  lemma {:induction false} OrderedNeighbours(ts: seq<Tree>)
    requires AllLeaves(ts) && forall i: nat :: i + 1 < |ts| ==> Before(ts[i], ts[i + 1])
    ensures InSortedOrder(ts)
  {
    forall i: nat, j: nat | i < j < |ts| ensures Before(ts[i], ts[j]) {
      BeforeLater(ts, i, j);
    }
  }

  lemma {:induction false} BeforeLater(ts: seq<Tree>, i: nat, j: nat)
    requires AllLeaves(ts) && i < j < |ts| && forall i: nat :: i + 1 < |ts| ==> Before(ts[i], ts[i + 1])
    ensures Before(ts[i], ts[j])
  {
    assert Before(ts[j - 1], ts[j - 1 + 1]);
    if i + 1 < j {
      BeforeLater(ts, i, j - 1);
    }
  }

  // --- The input ---

  function LeavesFor(freqs: seq<nat>): (ts: seq<Tree>)
    ensures |ts| == |freqs| && forall i: nat :: i < |ts| ==> ts[i] == Leaf(freqs[i], i)
  {
    seq(|freqs|, i requires 0 <= i < |freqs| => Leaf(freqs[i], i))
  }

  lemma {:induction false} AllActive(freqs: seq<nat>)
    requires forall i: nat :: i < |freqs| ==> freqs[i] > 0
    ensures Active(freqs) == LeavesFor(freqs)
  {
    if |freqs| > 0 {
      var n := |freqs| - 1;
      AllActive(freqs[..n]);
      assert LeavesFor(freqs) == LeavesFor(freqs[..n]) + [Leaf(freqs[n], n)];
    }
  }

  function Witness(): seq<nat> {
    [1, 2, 1, 3, 5, 8, 13, 21, 34, 55, 89, 144, 233, 377, 610, 987, 1597]
  }

  function Rearranged(ts: seq<Tree>): (r: seq<Tree>)
    requires |ts| >= 3
    ensures |r| == |ts| && multiset(r) == multiset(ts)
  {
    assert ts == [ts[0], ts[1], ts[2]] + ts[3..];
    [ts[0], ts[2], ts[1]] + ts[3..]
  }

  lemma {:induction false} SortRearranged(ts: seq<Tree>)
    requires |ts| >= 3 && AllLeaves(ts) && InSortedOrder(Rearranged(ts))
    requires forall i: nat, j: nat :: i < j < |ts| ==> ts[i].sym != ts[j].sym
    ensures Sort(ts) == Rearranged(ts)
  {
    hide Sort, InSortedOrder, Rearranged;
    SortOrdered(ts);
    OneOrder(Sort(ts), Rearranged(ts));
  }

  lemma {:induction false} WitnessRises()
    ensures var w := Witness(); |w| == 17 && forall i: nat :: 2 <= i < 16 ==> w[i] < w[i + 1]
  {
  }

  lemma {:induction false} WitnessSorted()
    ensures var ts := LeavesFor(Witness()); Usable(ts) && Sort(ts) == Rearranged(ts)
  {
    hide Sort;
    var ts := LeavesFor(Witness());
    WitnessRises();
    OrderedNeighbours(Rearranged(ts));
    SortRearranged(ts);
  }

  lemma {:induction false} WitnessDeep()
    ensures Height(TreeOf(LeavesFor(Witness()))) == 16
  {
    hide OneChain, Sort, MergeAll, Height;
    WitnessSorted();
    var ts := LeavesFor(Witness());
    var s := Rearranged(ts);
    var rest := s[2..];
    FirstMerge(s);
    assert Weights(rest) == [2, 3, 5, 8, 13, 21, 34, 55, 89, 144, 233, 377, 610, 987, 1597];
    WitnessChain();
    OneChainHeight(rest, Join(s[0], s[1]));
    LeafPairHeight(s[0], s[1]);
  }

  lemma {:induction false} LeafPairHeight(a: Tree, b: Tree)
    requires a.Leaf? && b.Leaf?
    ensures Height(Join(a, b)) == 1
  {
  }

  lemma {:induction false} FirstMerge(s: seq<Tree>)
    requires |s| > 2
    ensures MergeAll(Forest(s, [])) == MergeAll(Forest(s[2..], [Join(s[0], s[1])]))
  {
    var f := Forest(s, []);
    assert PickMin(f) == Picked(s[0], Forest(s[1..], []));
    assert PickMin(Forest(s[1..], [])) == Picked(s[1], Forest(s[2..], []));
    assert MergeStep(f) == Forest(s[2..], [Join(s[0], s[1])]);
  }

  lemma {:induction false} WitnessChain()
    ensures OneChain([2, 3, 5, 8, 13, 21, 34, 55, 89, 144, 233, 377, 610, 987, 1597], 2)
  {
    assert OneChain([377, 610, 987, 1597], 609);
    assert OneChain([34, 55, 89, 144, 233, 377, 610, 987, 1597], 54);
  }

  // --- The second round ---

  lemma {:induction false} SecondMerge(s: seq<Tree>, t: Tree)
    requires |s| > 2 && s[0].w <= t.w && s[1].w <= t.w
    ensures MergeAll(Forest(s, [t])) == MergeAll(Forest(s[2..], [t, Join(s[0], s[1])]))
  {
    var f := Forest(s, [t]);
    assert PickMin(f) == Picked(s[0], Forest(s[1..], [t]));
    assert PickMin(Forest(s[1..], [t])) == Picked(s[1], Forest(s[2..], [t]));
    assert MergeStep(f) == Forest(s[2..], [t, Join(s[0], s[1])]);
  }

  lemma {:induction false} HalvedWitness()
    ensures Halved(Witness()) == [1, 1, 1, 2, 3, 4, 7, 11, 17, 28, 45, 72, 117, 189, 305, 494, 799]
  {
  }

  lemma {:induction false} HalvedTwoChains()
    ensures TwoChains([3, 4, 7, 11, 17, 28, 45, 72, 117, 189, 305, 494, 799], 2, 3) && ChainDepth(13) == 8
  {
    assert TwoChains([117, 189, 305, 494, 799], 74, 118);
  }

  lemma {:induction false} HalvedSmall()
    ensures Sum([1, 1, 1, 2, 3, 4, 7, 11, 17, 28, 45, 72, 117, 189, 305, 494, 799]) == 2096
  {
    hide Sum;
    var h := [1, 1, 1, 2, 3, 4, 7, 11, 17, 28, 45, 72, 117, 189, 305, 494, 799];
    var total := 0;
    NoSum(h);
    for k := 0 to 17
      invariant total == Sum(h[..k])
      invariant total == [0, 1, 2, 3, 5, 8, 12, 19, 30, 47, 75, 120, 192, 309, 498, 803, 1297, 2096][k]
    {
      SumPrefix(h, k);
      total := total + h[k];
    }
    assert h[..17] == h;
  }

  lemma {:induction false} NoSum(h: seq<nat>)
    ensures Sum(h[..0]) == 0
  {
  }

  lemma {:induction false} SumPrefix(h: seq<nat>, k: nat)
    requires k < |h|
    ensures Sum(h[..k + 1]) == Sum(h[..k]) + h[k]
  {
    assert h[..k + 1][..k] == h[..k];
  }

  lemma {:induction false} HalvedSorted(ts: seq<Tree>)
    requires ts == LeavesFor(Halved(Witness()))
    ensures InSortedOrder(ts)
  {
    HalvedWitness();
    OrderedNeighbours(ts);
  }

  /** The first pair ends up 9 deep, the second one 8. */
  lemma {:induction false} HalvedDepths(ts: seq<Tree>)
    requires ts == LeavesFor(Halved(Witness())) && Distinct(AllSyms(ts))
    ensures var root := MergeAll(Forest(ts, [])); HangsAt(root, ts[1], 9) && HangsAt(root, ts[2], 8)
  {
    hide Distinct, AllSyms, HangsAt, TwoChains, MergeAll, Halved, ChainDepth;
    HalvedWitness();
    var root, rest := MergeAll(Forest(ts, [])), ts[4..];
    var p, q := Join(ts[0], ts[1]), Join(ts[2], ts[3]);
    FirstMerge(ts);
    SecondMerge(ts[2..], p);
    assert ts[2..][2..] == rest;
    HalvedTwoChains();
    assert Weights(rest) == [3, 4, 7, 11, 17, 28, 45, 72, 117, 189, 305, 494, 799];
    FourSyms(ts, p, q);
    TwoChainsDepth(rest, p, q);
    ChainDepthBack();
    JoinHangs(root, ts[0], ts[1], 8);
    JoinHangs(root, ts[2], ts[3], 7);
  }

  lemma {:induction false} ChainDepthBack()
    ensures ChainDepth(12) == 7
  {
  }

  lemma {:induction false} FourSyms(ts: seq<Tree>, p: Tree, q: Tree)
    requires |ts| >= 4 && Distinct(AllSyms(ts)) && p == Join(ts[0], ts[1]) && q == Join(ts[2], ts[3])
    ensures Distinct(Syms(p) + (Syms(q) + AllSyms(ts[4..])))
    ensures Distinct(Syms(ts[0]) + Syms(ts[1])) && Distinct(Syms(ts[2]) + Syms(ts[3]))
  {
    hide Distinct;
    var a, b, rest := Syms(ts[0]) + Syms(ts[1]), Syms(ts[2]) + Syms(ts[3]), AllSyms(ts[4..]);
    assert ts[1..][1..] == ts[2..] && ts[2..][1..] == ts[3..] && ts[3..][1..] == ts[4..];
    assert AllSyms(ts[2..]) == Syms(ts[2]) + AllSyms(ts[3..]);
    assert AllSyms(ts) == a + (b + rest);
    DistinctParts(a, b + rest);
    DistinctParts(b, rest);
  }

  /** The larger of two counts can have the longer word: the first round is too deep, the halves are equal, and then the
      symbol number decides. */
  lemma {:induction false} MoreFrequentLonger()
    ensures var f, lens := Witness(), CodeLens(Witness());
            && ValidFreqs(f) && f[1] > f[2] > 0 && lens[1] == 9 && lens[2] == 8
  {
    hide LimitedLens, Height, TreeOf, Halved, Sort, Lists, Witness;
    var f := Witness();
    var ts := LeavesFor(f);
    WitnessActive();
    WitnessDeep();
    LimitedOnce(ts, 17);
    NextLists(ts, f);
    SecondRound(Halve(Sort(ts)));
  }

  lemma {:induction false} WitnessActive()
    ensures var f := Witness(); var ts := LeavesFor(f);
            && |f| == 17 && f[1] == 2 && f[2] == 1 && ValidFreqs(f) && Active(f) == ts && Usable(ts) && Lists(ts, f)
  {
    hide Active;
    AllActive(Witness());
  }

  lemma {:induction false} LimitedOnce(ts: seq<Tree>, n: nat)
    requires Usable(ts)
    ensures Height(TreeOf(ts)) <= MAX_CODEWORD_LEN ==> LimitedLens(ts, n) == Assign(TreeOf(ts), 0, Zero(n))
    ensures Height(TreeOf(ts)) > MAX_CODEWORD_LEN ==>
              Usable(Halve(Sort(ts))) && LimitedLens(ts, n) == LimitedLens(Halve(Sort(ts)), n)
  {
    hide Height, TreeOf, Sort, Assign;
    if Height(TreeOf(ts)) > MAX_CODEWORD_LEN {
      RetryProgress(ts);
    }
  }

  lemma {:induction false} SecondRound(ts: seq<Tree>)
    requires Usable(ts) && Lists(ts, Halved(Witness()))
    ensures LimitedLens(ts, 17)[1] == 9 && LimitedLens(ts, 17)[2] == 8
  {
    hide LimitedLens, Height, MergeAll, Halved, Sort, Assign, Sum, AllSyms, Distinct, HangsAt, Lists, Labelled, Syms;
    var h := Halved(Witness());
    var s := LeavesFor(h);
    HalvedWitness();
    SecondSorted(ts);
    HalvedSmall();
    SmallSumShallow(ts, h);
    LimitedOnce(ts, 17);
    ListsLabelled(ts, h);
    TreeSyms(ts);
    SortSyms(ts);
    LabelledDistinct(ts, 17);
    HalvedDepths(s);
    LeafAt(TreeOf(ts), s, 1, 9);
    LeafAt(TreeOf(ts), s, 2, 8);
  }

  lemma {:induction false} SecondSorted(ts: seq<Tree>)
    requires Usable(ts) && Lists(ts, Halved(Witness()))
    ensures Sort(ts) == LeavesFor(Halved(Witness()))
  {
    hide Halved, Sort, InSortedOrder, Witness, Labelled, Active;
    var h := Halved(Witness());
    HalvedPositive();
    AllActive(h);
    HalvedSorted(LeavesFor(h));
    ListsLabelled(ts, h);
    LabelledApart(ts, |h|);
    SortOrdered(ts);
    OneOrder(Sort(ts), LeavesFor(h));
  }

  lemma {:induction false} HalvedPositive()
    ensures forall i: nat :: i < |Halved(Witness())| ==> Halved(Witness())[i] > 0
  {
    HalvedWitness();
  }

  lemma {:induction false} LeafAt(root: Tree, ts: seq<Tree>, i: nat, d: nat)
    requires AllLeaves(ts) && i < |ts| && ts[i].sym == i < 17 && Distinct(AllSyms(ts)) && Syms(root) == AllSyms(ts)
    requires HangsAt(root, ts[i], d)
    ensures Assign(root, 0, Zero(17))[i] == d
  {
    hide Assign, Distinct, AllSyms;
    SymAmong(ts, i);
    assert i in Syms(ts[i]);
    AssignIsDepth(root, 0, Zero(17), i);
  }
}
