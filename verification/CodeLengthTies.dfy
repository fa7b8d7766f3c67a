/** Equal weights: because ties go to the leaf, no cheapest prefix code has a smaller sum of lengths. */
module CodeLengthTies {
  import opened Powers
  import opened CanonicalCode
  import opened CodeLengths
  import opened CodeCost
  import opened CodeLengthCost
  import opened CodeLengthOrder
  import opened CodeLengthLaws
  import opened HeapCost

  // --- Weights that also count leaves ---

  function LeafCount(t: Tree): (n: nat)
    ensures n >= 1
  {
    match t
    case Leaf(_, _) => 1
    case Node(_, l, r) => LeafCount(l) + LeafCount(r)
  }

  /** The same tree with weights that put the number of leaves behind the weight. */
  function Lift(t: Tree, k: nat): (r: Tree)
    ensures r.w == t.w * k + LeafCount(t) && (r.Leaf? <==> t.Leaf?)
  {
    match t
    case Leaf(w, s) => Leaf(w * k + 1, s)
    case Node(w, l, r) => Node(w * k + LeafCount(t), Lift(l, k), Lift(r, k))
  }

  function LiftAll(ts: seq<Tree>, k: nat): (r: seq<Tree>)
    ensures |r| == |ts| && forall i: nat :: i < |ts| ==> r[i] == Lift(ts[i], k)
  {
    seq(|ts|, i requires 0 <= i < |ts| => Lift(ts[i], k))
  }

  function LiftForest(f: Forest, k: nat): (r: Forest)
    ensures Size(r) == Size(f)
  {
    Forest(LiftAll(f.leaves, k), LiftAll(f.nodes, k))
  }

  lemma {:induction false} LiftExact(t: Tree, k: nat)
    requires Exact(t)
    ensures Exact(Lift(t, k))
  {
    if t.Node? {
      LiftExact(t.left, k);
      LiftExact(t.right, k);
      Distribute(t.left.w, t.right.w, k);
    }
  }

  /** A plain sum of the lengths of the leaves. */
  function DepthSum(t: Tree, d: nat): nat {
    match t
    case Leaf(_, _) => d
    case Node(_, l, r) => DepthSum(l, d + 1) + DepthSum(r, d + 1)
  }

  lemma {:induction false} LiftCost(t: Tree, k: nat, d: nat)
    ensures DepthCost(Lift(t, k), d) == k * DepthCost(t, d) + DepthSum(t, d)
  {
    match t
    case Leaf(w, _) =>
      LeafLifted(w, k, d);
    case Node(_, l, r) =>
      LiftCost(l, k, d + 1);
      LiftCost(r, k, d + 1);
      TwoCosts(k, DepthCost(l, d + 1), DepthCost(r, d + 1), DepthSum(l, d + 1), DepthSum(r, d + 1));
  }

  lemma {:induction false} TwoCosts(k: nat, a: nat, b: nat, x: nat, y: nat)
    ensures (k * a + x) + (k * b + y) == k * (a + b) + (x + y)
  {
  }

  lemma {:induction false} LeafLifted(w: nat, k: nat, d: nat)
    ensures (w * k + 1) * d == k * (w * d) + d
  {
    Distribute(w * k, 1, d);
    Associate(k, w, d);
  }

  // --- The lifted forest is merged in the same way ---

  predicate FewLeaves(f: Forest, k: nat) {
    && (forall i: nat :: i < |f.leaves| ==> f.leaves[i].Leaf?)
    && forall i: nat :: i < |f.nodes| ==> LeafCount(f.nodes[i]) <= k
  }

  lemma {:induction false} LeafBefore(leaf: Tree, node: Tree, k: nat)
    requires leaf.Leaf? && LeafCount(node) <= k
    ensures leaf.w <= node.w <==> Lift(leaf, k).w <= Lift(node, k).w
  {
    hide LeafCount, Lift;
    SameOrder(leaf.w, node.w, LeafCount(node), k);
    LeafIsOne(leaf);
  }

  lemma {:induction false} LeafIsOne(leaf: Tree)
    requires leaf.Leaf?
    ensures LeafCount(leaf) == 1
  {
  }

  lemma {:induction false} SameOrder(a: nat, b: nat, c: nat, k: nat)
    requires 1 <= c <= k
    ensures a <= b <==> a * k + 1 <= b * k + c
  {
    if a <= b {
      Scale(a, b, k);
    } else {
      Scale(b + 1, a, k);
    }
  }

  lemma {:induction false} Scale(a: nat, b: nat, k: nat)
    requires a <= b
    ensures a * k <= b * k && (a > 0 ==> a * k == (a - 1) * k + k)
  {
    MulMonotone(k, a, b);
  }

  /** The same tree is picked. */
  lemma {:induction false} LiftPick(f: Forest, k: nat)
    requires Size(f) > 0 && FewLeaves(f, k)
    ensures PickMin(LiftForest(f, k)) == Picked(Lift(PickMin(f).tree, k), LiftForest(PickMin(f).rest, k))
    ensures FewLeaves(PickMin(f).rest, k)
  {
    hide LeafCount, Lift;
    var g := LiftForest(f, k);
    if |f.leaves| > 0 && |f.nodes| > 0 {
      LeafBefore(f.leaves[0], f.nodes[0], k);
    }
    if |f.leaves| > 0 {
      assert LiftAll(f.leaves, k)[1..] == LiftAll(f.leaves[1..], k);
    }
    if |f.nodes| > 0 {
      assert LiftAll(f.nodes, k)[1..] == LiftAll(f.nodes[1..], k);
    }
  }

  /** Both queues ascend from `last` on, and what is below a merged tree was picked before. */
  predicate Rises(ts: seq<Tree>, last: nat) {
    && Ascending(ts)
    && forall i: nat :: i < |ts| ==> last <= ts[i].w && Exact(ts[i])
                                     && (ts[i].Node? ==> ts[i].left.w <= last && ts[i].right.w <= last)
  }

  predicate BothRise(f: Forest, last: nat) {
    Rises(f.leaves, last) && Rises(f.nodes, last)
  }

  lemma {:induction false} PickRises(f: Forest, last: nat)
    requires Size(f) > 0 && BothRise(f, last)
    ensures var p := PickMin(f); last <= p.tree.w && BothRise(p.rest, p.tree.w) && Exact(p.tree)
    ensures forall t :: t in PickMin(f).rest.nodes ==> t in f.nodes
  {
    hide Exact;
  }

  lemma {:induction false} JoinRises(nodes: seq<Tree>, last: nat, j: Tree, first: nat)
    requires Rises(nodes, last) && Exact(j) && j.Node? && j.left.w == first <= last && j.right.w == last
    requires forall t :: t in nodes && t.Node? ==> t.left.w <= first && t.right.w <= first
    requires forall i: nat :: i < |nodes| ==> nodes[i].Node?
    ensures Rises(nodes + [j], last)
  {
    forall i: nat | i < |nodes| ensures nodes[i].w <= j.w {
      assert nodes[i] in nodes && Exact(nodes[i]);
    }
  }

  // --- The lifted merge is optimal ---

  lemma {:induction false} CountIsSyms(t: Tree)
    ensures LeafCount(t) == |Syms(t)|
  {
    if t.Node? {
      CountIsSyms(t.left);
      CountIsSyms(t.right);
    }
  }

  lemma {:induction false} LiftJoin(a: Tree, b: Tree, k: nat)
    requires a.w + b.w <= U32_MAX
    ensures var j := Lift(Join(a, b), k); j == Node(Lift(a, k).w + Lift(b, k).w, Lift(a, k), Lift(b, k))
  {
    Distribute(a.w, b.w, k);
  }

  /** All invariants of the merge. */
  ghost predicate Ready(f: Forest, k: nat, ws: seq<nat>) {
    && FewLeaves(f, k) && |ForestSyms(f)| <= k && (forall i: nat :: i < |f.nodes| ==> f.nodes[i].Node?)
    && AllExact(AllTrees(f)) && Sum(Weights(AllTrees(f))) <= U32_MAX
    && var ts := AllTrees(LiftForest(f, k));
       AllExact(ts) && Dominates(ws, Weights(ts), Sum(Costs(ts)))
  }

  lemma {:induction false} TwoPicks(f: Forest, k: nat, last: nat)
    requires Size(f) > 1 && FewLeaves(f, k) && BothRise(LiftForest(f, k), last)
    ensures var a := PickMin(f); var b := PickMin(a.rest); var g := LiftForest(f, k);
            && PickMin(g) == Picked(Lift(a.tree, k), LiftForest(a.rest, k))
            && PickMin(LiftForest(a.rest, k)) == Picked(Lift(b.tree, k), LiftForest(b.rest, k))
            && FewLeaves(b.rest, k) && Lift(a.tree, k).w <= Lift(b.tree, k).w
            && BothRise(LiftForest(a.rest, k), Lift(a.tree, k).w) && BothRise(LiftForest(b.rest, k), Lift(b.tree, k).w)
            && (forall t :: t in LiftForest(b.rest, k).nodes ==> t in LiftForest(a.rest, k).nodes)
  {
    hide PickMin, Lift, BothRise, FewLeaves, LiftForest;
    var a := PickMin(f);
    LiftPick(f, k);
    LiftPick(a.rest, k);
    PickRises(LiftForest(f, k), last);
    PickRises(LiftForest(a.rest, k), Lift(a.tree, k).w);
  }

  lemma {:induction false} LiftedStep(f: Forest, k: nat)
    requires Size(f) > 1
    ensures var a := PickMin(f); var b := PickMin(a.rest); var g := LiftForest(b.rest, k);
            && LiftForest(MergeStep(f), k) == Forest(g.leaves, g.nodes + [Lift(Join(a.tree, b.tree), k)])
            && AllTrees(LiftForest(MergeStep(f), k)) == AllTrees(g) + [Lift(Join(a.tree, b.tree), k)]
  {
    hide PickMin, Lift, Join;
    var a := PickMin(f);
    var b := PickMin(a.rest);
    var g, j := LiftForest(b.rest, k), Lift(Join(a.tree, b.tree), k);
    assert LiftAll(b.rest.nodes + [Join(a.tree, b.tree)], k) == g.nodes + [j];
    assert g.leaves + (g.nodes + [j]) == g.leaves + g.nodes + [j];
  }

  /** The two picks from the lifted lists, and the list after the merge. */
  lemma {:induction false} LiftedDominates(f: Forest, k: nat, ws: seq<nat>, last: nat)
    requires Size(f) > 1 && Ready(f, k, ws) && BothRise(LiftForest(f, k), last)
    requires var a := PickMin(f); a.tree.w + PickMin(a.rest).tree.w <= U32_MAX
    ensures var ts := AllTrees(LiftForest(MergeStep(f), k));
            AllExact(ts) && Dominates(ws, Weights(ts), Sum(Costs(ts)))
  {
    hide PickMin, Lift, Join, Dominates, Sum, Costs, AllExact, Exact, Rises, FewLeaves, LiftForest, MergeStep;
    var a := PickMin(f);
    var b := PickMin(a.rest);
    TwoPicks(f, k, last);
    RiseAscending(LiftForest(f, k), last);
    RiseAscending(LiftForest(a.rest, k), Lift(a.tree, k).w);
    var i := PickLeast(LiftForest(f, k));
    var j := PickLeast(LiftForest(a.rest, k));
    LiftJoin(a.tree, b.tree, k);
    LiftedStep(f, k);
    MergeDominates(ws, AllTrees(LiftForest(f, k)), i, j, Lift(Join(a.tree, b.tree), k));
  }

  lemma {:induction false} RiseAscending(f: Forest, last: nat)
    requires BothRise(f, last)
    ensures Ascending(f.leaves) && Ascending(f.nodes)
  {
  }

  lemma {:induction false} LiftedRises(f: Forest, k: nat, last: nat)
    requires Size(f) > 1 && FewLeaves(f, k) && BothRise(LiftForest(f, k), last)
    requires forall i: nat :: i < |f.nodes| ==> f.nodes[i].Node?
    requires var a := PickMin(f);
             && a.tree.w + PickMin(a.rest).tree.w <= U32_MAX && Exact(a.tree) && Exact(PickMin(a.rest).tree)
    ensures BothRise(LiftForest(MergeStep(f), k), Lift(PickMin(PickMin(f).rest).tree, k).w)
  {
    hide PickMin, Lift, Join, Exact, FewLeaves, MergeStep;
    var a := PickMin(f);
    var b := PickMin(a.rest);
    TwoPicks(f, k, last);
    LiftJoin(a.tree, b.tree, k);
    LiftedStep(f, k);
    LiftExact(a.tree, k);
    LiftExact(b.tree, k);
    var j := Lift(Join(a.tree, b.tree), k);
    NodeExact(j);
    NodesStay(f);
    var g := LiftForest(b.rest, k);
    JoinRises(g.nodes, Lift(b.tree, k).w, j, Lift(a.tree, k).w);
  }

  lemma {:induction false} NodeExact(t: Tree)
    requires t.Node? && t.w == t.left.w + t.right.w && Exact(t.left) && Exact(t.right)
    ensures Exact(t)
  {
  }

  lemma {:induction false} NodesStay(f: Forest)
    requires Size(f) > 1 && forall i: nat :: i < |f.nodes| ==> f.nodes[i].Node?
    ensures forall i: nat :: i < |PickMin(PickMin(f).rest).rest.nodes| ==> PickMin(PickMin(f).rest).rest.nodes[i].Node?
  {
  }

  lemma {:induction false} JoinedFew(f: Forest, k: nat)
    requires Size(f) > 1 && FewLeaves(PickMin(PickMin(f).rest).rest, k) && |ForestSyms(MergeStep(f))| <= k
    requires forall i: nat :: i < |f.nodes| ==> f.nodes[i].Node?
    ensures FewLeaves(MergeStep(f), k) && forall i: nat :: i < |MergeStep(f).nodes| ==> MergeStep(f).nodes[i].Node?
  {
    hide PickMin, Syms, LeafCount, ForestSyms;
    var a := PickMin(f);
    var b := PickMin(a.rest);
    var j := Join(a.tree, b.tree);
    NodesStay(f);
    CountIsSyms(j);
    LastSyms(b.rest.leaves, b.rest.nodes, j);
  }

  lemma {:induction false} LastSyms(leaves: seq<Tree>, nodes: seq<Tree>, j: Tree)
    ensures |Syms(j)| <= |ForestSyms(Forest(leaves, nodes + [j]))|
  {
    hide Syms;
    AllSymsConcat(nodes, [j]);
    assert AllSyms([j]) == Syms(j) by { assert [j][1..] == []; }
    assert ForestSyms(Forest(leaves, nodes + [j])) == Syms(j) + (AllSyms(leaves) + AllSyms(nodes));
  }

  lemma {:induction false} ReadyNext(f: Forest, k: nat, ws: seq<nat>, last: nat, order: nat)
    requires Size(f) > 1 && Ready(f, k, ws) && BothRise(LiftForest(f, k), last) && InOrder(f, order)
    ensures Ready(MergeStep(f), k, ws)
    ensures BothRise(LiftForest(MergeStep(f), k), Lift(PickMin(PickMin(f).rest).tree, k).w)
  {
    hide PickMin, Lift, Join, Dominates, Sum, Costs, BothRise, FewLeaves, LiftForest, InOrder, MergeStep, Exact;
    var i, j := MergeLists(f, order);
    PickedExact(f, order);
    LiftedDominates(f, k, ws, last);
    LiftedRises(f, k, last);
    MergeStepSyms(f);
    TwoPicks(f, k, last);
    JoinedFew(f, k);
  }

  lemma {:induction false} PickedExact(f: Forest, order: nat)
    requires Size(f) > 1 && InOrder(f, order) && AllExact(AllTrees(f)) && Sum(Weights(AllTrees(f))) <= U32_MAX
    ensures var a := PickMin(f);
            Exact(a.tree) && Exact(PickMin(a.rest).tree) && a.tree.w + PickMin(a.rest).tree.w <= U32_MAX
  {
    hide PickMin, Exact, InOrder, Sum, Removed;
    var a := PickMin(f);
    OrderOf(f, order);
    PickMinInOrder(f, order);
    OrderOf(a.rest, a.tree.w);
    var i := PickLeast(f);
    var j := PickLeast(a.rest);
    ListsRemoved(AllTrees(f), i);
    ListsRemoved(AllTrees(a.rest), j);
    ExactRemoved(AllTrees(f), i);
    ExactRemoved(AllTrees(a.rest), j);
  }

  lemma {:induction false} MergeReady(f: Forest, k: nat, ws: seq<nat>, last: nat, order: nat)
    requires Size(f) > 0 && Ready(f, k, ws) && BothRise(LiftForest(f, k), last) && InOrder(f, order)
    ensures var t := Lift(MergeAll(f), k); Dominates(ws, Weights([t]), Sum(Costs([t])))
    decreases Size(f)
  {
    hide BothRise, LiftForest, InOrder, MergeStep, PickMin, Ready, Dominates, Sum, Costs;
    if Size(f) == 1 {
      LoneReady(f, k, ws);
    } else {
      ReadyNext(f, k, ws, last, order);
      var order' := MergeStepInOrder(f, order);
      MergeReady(MergeStep(f), k, ws, Lift(PickMin(PickMin(f).rest).tree, k).w, order');
    }
  }

  lemma {:induction false} LoneReady(f: Forest, k: nat, ws: seq<nat>)
    requires Size(f) == 1 && Ready(f, k, ws)
    ensures var t := Lift(MergeAll(f), k); Dominates(ws, Weights([t]), Sum(Costs([t])))
  {
    hide Dominates, Sum, Costs;
    assert AllTrees(LiftForest(f, k)) == [Lift(MergeAll(f), k)];
  }

  // --- The lengths ---

  lemma {:induction false} SumSet(s: seq<nat>, i: nat, d: nat)
    requires i < |s| && s[i] == 0
    ensures Sum(s[i := d]) == Sum(s) + d
  {
    hide Sum;
    SumWithout(s, i);
    SumWithout(s[i := d], i);
    assert Without(s[i := d], i) == Without(s, i);
  }

  lemma {:induction false} SumAssign(t: Tree, d: nat, lens: seq<nat>)
    requires Distinct(Syms(t)) && Free(Syms(t), lens)
    ensures Sum(Assign(t, d, lens)) == Sum(lens) + DepthSum(t, d)
  {
    hide Sum, Distinct;
    if t.Leaf? {
      assert t.sym in Syms(t);
      SumSet(lens, t.sym, d);
    } else {
      NodeParts(t, lens);
      SumAssign(t.right, d + 1, lens);
      StaysFree(Syms(t.left), t.right, d + 1, lens);
      SumAssign(t.left, d + 1, Assign(t.right, d + 1, lens));
    }
  }

  lemma {:induction false} SumZero(n: nat)
    ensures Sum(Zero(n)) == 0
  {
    if n > 0 {
      SumZero(n - 1);
      assert Zero(n)[..n - 1] == Zero(n - 1);
    }
  }

  lemma {:induction false} LiftedDot(ts: seq<Tree>, k: nat, ds: seq<nat>)
    requires AllLeaves(ts) && |ds| == |ts|
    ensures Dot(Weights(LiftAll(ts, k)), ds) == k * Dot(Weights(ts), ds) + Sum(ds)
  {
    if |ts| > 0 {
      var n := |ts| - 1;
      LiftedDot(ts[..n], k, ds[..n]);
      assert Weights(LiftAll(ts, k))[..n] == Weights(LiftAll(ts[..n], k)) && Weights(ts)[..n] == Weights(ts[..n]);
      LeafLifted(ts[n].w, k, ds[n]);
      Distribute(Dot(Weights(ts[..n]), ds[..n]), ts[n].w * ds[n], k);
    }
  }

  lemma {:induction false} LiftedLeaves(ts: seq<Tree>, k: nat)
    requires AllLeaves(ts) && Ascending(ts)
    ensures Rises(LiftAll(ts, k), 0) && AllExact(LiftAll(ts, k)) && Sum(Costs(LiftAll(ts, k))) == 0
  {
    forall i: nat, j: nat | i < j < |ts| ensures LiftAll(ts, k)[i].w <= LiftAll(ts, k)[j].w {
      MulMonotone(k, ts[i].w, ts[j].w);
    }
    LeavesFree(LiftAll(ts, k));
  }

  lemma {:induction false} StartsReady(ts: seq<Tree>, freqs: seq<nat>)
    requires Usable(ts) && Lists(ts, freqs) && Sum(freqs) <= U32_MAX
    ensures var f := Forest(Sort(ts), []); var ws := Weights(LiftAll(Sort(ts), |ts|));
            Ready(f, |ts|, ws) && BothRise(LiftForest(f, |ts|), 0) && InOrder(f, 1)
  {
    hide Sort, Sum, Dominates, Rises, Exact, Costs, Tame, Lists, InOrder;
    var f := Forest(Sort(ts), []);
    var lifted := LiftAll(Sort(ts), |ts|);
    StartsInOrder(ts, freqs);
    SortAscending(ts);
    LiftedLeaves(Sort(ts), |ts|);
    NothingRises();
    assert AllTrees(LiftForest(f, |ts|)) == lifted;
    DominatesSelf(Weights(lifted));
    AllSymsSize(Sort(ts));
    ForestOfLeaves(f);
  }

  lemma {:induction false} NothingRises()
    ensures forall k: nat :: Rises(LiftAll([], k), 0)
  {
  }

  /** Without a retry: a code that costs no more has no smaller sum of lengths. */
  lemma {:induction false} TreeTies(ts: seq<Tree>, freqs: seq<nat>, other: seq<nat>)
    requires Usable(ts) && Lists(ts, freqs) && Serves(other, freqs) && Sum(freqs) <= U32_MAX
    requires Dot(freqs, other) == Dot(freqs, Assign(TreeOf(ts), 0, Zero(|freqs|)))
    ensures Sum(Assign(TreeOf(ts), 0, Zero(|freqs|))) <= Sum(other)
  {
    hide Sort, MergeAll, Assign, Sum, Dot, Dominates, Ready, BothRise, InOrder, Distinct, AllSyms, Syms, DepthCost,
         Matches, KraftSum, Kraft, LiftForest;
    var k, t := |ts|, TreeOf(ts);
    var f, ws := Forest(Sort(ts), []), Weights(LiftAll(Sort(ts), k));
    StartsReady(ts, freqs);
    MergeReady(f, k, ws, 0, 1);
    var ds := OtherCode(ts, freqs, other);
    assert Fits(ds, MAX_CODEWORD_LEN);
    LastDominates(ws, Lift(t, k), ds);
    LiftCost(t, k, 0);
    LiftedDot(Sort(ts), k, ds);
    TreeTotals(ts, freqs);
  }

  /** The lengths of the tree as vectors. */
  lemma {:induction false} TreeTotals(ts: seq<Tree>, freqs: seq<nat>)
    requires Usable(ts) && Lists(ts, freqs)
    ensures var lens := Assign(TreeOf(ts), 0, Zero(|freqs|));
            Dot(freqs, lens) == DepthCost(TreeOf(ts), 0) && Sum(lens) == DepthSum(TreeOf(ts), 0)
  {
    hide Sort, MergeAll, Assign, Sum, Dot, Distinct, AllSyms, Syms, DepthCost, Matches;
    var s := Sort(ts);
    ListsLabelled(ts, freqs);
    TreeSyms(ts);
    forall i: nat | i < |s| ensures Matches(s[i], freqs) {
      ListedLeaf(s, freqs, i);
      LeafMatches(s[i], freqs);
    }
    MergeMatches(Forest(s, []), freqs);
    DotAssign(TreeOf(ts), 0, Zero(|freqs|), freqs);
    DotZero(freqs);
    SumAssign(TreeOf(ts), 0, Zero(|freqs|));
    SumZero(|freqs|);
  }

  lemma {:induction false} LimitedTies(ts: seq<Tree>, freqs: seq<nat>, other: seq<nat>)
    requires Usable(ts) && Lists(ts, freqs) && Serves(other, freqs) && Sum(Settled(ts, freqs)) <= U32_MAX
    requires var w := Settled(ts, freqs); Dot(w, other) == Dot(w, LimitedLens(ts, |freqs|))
    ensures Sum(LimitedLens(ts, |freqs|)) <= Sum(other)
    decreases WeightSum(ts)
  {
    hide Dot, Sort, TreeOf, Assign, Height, Sum, Lists, KraftSum;
    if Height(TreeOf(ts)) <= MAX_CODEWORD_LEN {
      TreeTies(ts, freqs, other);
    } else {
      RetryProgress(ts);
      NextLists(ts, freqs);
      LimitedTies(Halve(Sort(ts)), Halved(freqs), other);
    }
  }

  /** Among the cheapest prefix codes of at most 15 bits the lengths have the least sum. */
  lemma {:induction false} CodeLensTies(freqs: seq<nat>, other: seq<nat>)
    requires ValidFreqs(freqs) && Serves(other, freqs) && Sum(DecidingCounts(freqs)) <= U32_MAX
    requires Dot(DecidingCounts(freqs), other) == Dot(DecidingCounts(freqs), CodeLens(freqs))
    ensures Sum(CodeLens(freqs)) <= Sum(other)
  {
    hide Settled, LimitedLens, Dot, Sum, KraftSum;
    var ts := Active(freqs);
    SumZero(|freqs|);
    if |ts| >= 2 {
      LimitedTies(ts, freqs, other);
    } else if |ts| == 1 {
      var s := ts[0].sym;
      SumSet(Zero(|freqs|), s, 1);
      SumWithout(other, s);
    }
  }
}
