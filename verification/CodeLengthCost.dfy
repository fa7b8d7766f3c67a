/** The merge is optimal: no prefix code has a smaller weighted length than the depths of its tree. */
module CodeLengthCost {
  import opened CodeLengths
  import opened CodeCost

  // --- Costs of trees ---

  /** The weighted depths of the leaves of a tree that hangs at depth `d`. */
  function DepthCost(t: Tree, d: nat): nat {
    match t
    case Leaf(w, _) => w * d
    case Node(_, l, r) => DepthCost(l, d + 1) + DepthCost(r, d + 1)
  }

  /** Every weight is the sum of the weights below it. */
  predicate Exact(t: Tree) {
    t.Node? ==> t.w == t.left.w + t.right.w && Exact(t.left) && Exact(t.right)
  }

  predicate AllExact(ts: seq<Tree>) {
    forall i: nat :: i < |ts| ==> Exact(ts[i])
  }

  lemma {:induction false} OneDeeper(t: Tree, d: nat)
    requires Exact(t)
    ensures DepthCost(t, d + 1) == DepthCost(t, d) + t.w
  {
    if t.Node? {
      OneDeeper(t.left, d + 1);
      OneDeeper(t.right, d + 1);
    }
  }

  /** A merge costs the weight of the new tree. */
  lemma {:induction false} JoinCost(a: Tree, b: Tree)
    requires Exact(a) && Exact(b) && a.w + b.w <= U32_MAX
    ensures Exact(Join(a, b)) && DepthCost(Join(a, b), 0) == DepthCost(a, 0) + DepthCost(b, 0) + (a.w + b.w)
  {
    OneDeeper(a, 0);
    OneDeeper(b, 0);
  }

  // --- Forests as lists of weights ---

  function AllTrees(f: Forest): (ts: seq<Tree>)
    ensures |ts| == Size(f)
  {
    f.leaves + f.nodes
  }

  function Weights(ts: seq<Tree>): (ws: seq<nat>)
    ensures |ws| == |ts| && forall i: nat :: i < |ts| ==> ws[i] == ts[i].w
  {
    seq(|ts|, i requires 0 <= i < |ts| => ts[i].w)
  }

  function Costs(ts: seq<Tree>): (cs: seq<nat>)
    ensures |cs| == |ts| && forall i: nat :: i < |ts| ==> cs[i] == DepthCost(ts[i], 0)
  {
    seq(|ts|, i requires 0 <= i < |ts| => DepthCost(ts[i], 0))
  }

  function Sum(s: seq<nat>): nat {
    if |s| == 0 then 0 else Sum(s[..|s| - 1]) + s[|s| - 1]
  }

  lemma {:induction false} SumWithout(s: seq<nat>, i: nat)
    requires i < |s|
    ensures Sum(s) == s[i] + Sum(Without(s, i))
  {
    var n := |s| - 1;
    WithoutLast(s, i);
    if i < n {
      SumWithout(s[..n], i);
      assert Without(s, i)[n - 1] == s[n];
    }
  }

  lemma {:induction false} SumAppend(s: seq<nat>, x: nat)
    ensures Sum(s + [x]) == Sum(s) + x
  {
    assert (s + [x])[..|s|] == s;
  }

  function Removed(ts: seq<Tree>, i: nat): seq<Tree>
    requires i < |ts|
  {
    ts[..i] + ts[i + 1..]
  }

  lemma {:induction false} ListsRemoved(ts: seq<Tree>, i: nat)
    requires i < |ts|
    ensures Weights(Removed(ts, i)) == Without(Weights(ts), i) && Costs(Removed(ts, i)) == Without(Costs(ts), i)
    ensures Sum(Weights(ts)) == ts[i].w + Sum(Weights(Removed(ts, i)))
    ensures Sum(Costs(ts)) == DepthCost(ts[i], 0) + Sum(Costs(Removed(ts, i)))
  {
    hide DepthCost, Sum;
    SumWithout(Weights(ts), i);
    SumWithout(Costs(ts), i);
  }

  lemma {:induction false} ListsAdded(ts: seq<Tree>, t: Tree)
    ensures Weights(ts + [t]) == Weights(ts) + [t.w]
    ensures Sum(Weights(ts + [t])) == Sum(Weights(ts)) + t.w
    ensures Sum(Costs(ts + [t])) == Sum(Costs(ts)) + DepthCost(t, 0)
  {
    hide DepthCost, Sum;
    SumAppend(Weights(ts), t.w);
    SumAppend(Costs(ts), DepthCost(t, 0));
    assert Weights(ts + [t]) == Weights(ts) + [t.w];
    assert Costs(ts + [t]) == Costs(ts) + [DepthCost(t, 0)];
  }

  /** A pick takes a tree of least weight out of the list. */
  lemma {:induction false} PickLeast(f: Forest) returns (i: nat)
    requires Size(f) > 0 && Ascending(f.leaves) && Ascending(f.nodes)
    ensures var p, ts := PickMin(f), AllTrees(f);
            Least(Weights(ts), i) && ts[i] == p.tree && AllTrees(p.rest) == Removed(ts, i)
  {
    if f.nodes == [] || (f.leaves != [] && f.leaves[0].w <= f.nodes[0].w) {
      i := 0;
      assert AllTrees(f)[1..] == f.leaves[1..] + f.nodes;
    } else {
      i := |f.leaves|;
      assert AllTrees(f)[..i] == f.leaves && AllTrees(f)[i + 1..] == f.nodes[1..];
    }
  }

  lemma {:induction false} MergeTrees(f: Forest)
    requires Size(f) > 1
    ensures var a := PickMin(f); var b := PickMin(a.rest);
            AllTrees(MergeStep(f)) == AllTrees(b.rest) + [Join(a.tree, b.tree)]
  {
    hide PickMin, Join;
  }

  lemma {:induction false} ExactRemoved(ts: seq<Tree>, i: nat)
    requires i < |ts| && AllExact(ts)
    ensures AllExact(Removed(ts, i)) && Exact(ts[i])
  {
    hide Exact;
  }

  lemma {:induction false} ExactAdded(ts: seq<Tree>, t: Tree)
    requires AllExact(ts) && Exact(t)
    ensures AllExact(ts + [t])
  {
    hide Exact;
  }

  /** What a merge does to the lists. */
  lemma {:induction false} MergeLists(f: Forest, last: nat) returns (i: nat, j: nat)
    requires Size(f) > 1 && InOrder(f, last) && AllExact(AllTrees(f)) && Sum(Weights(AllTrees(f))) <= U32_MAX
    ensures var ts, ts' := AllTrees(f), AllTrees(MergeStep(f));
            var ws := Weights(ts);
            && Least(ws, i) && Least(Without(ws, i), j)
            && var w := ws[i] + Without(ws, i)[j];
            && Weights(ts') == Without(Without(ws, i), j) + [w] && AllExact(ts')
            && Sum(Weights(ts')) == Sum(ws) && Sum(Costs(ts')) == Sum(Costs(ts)) + w
  {
    hide PickMin, DepthCost, Exact, InOrder, Join, Sum, AllExact, Costs, Without, Removed, MergeStep;
    var a := PickMin(f);
    var b := PickMin(a.rest);
    OrderOf(f, last);
    PickMinInOrder(f, last);
    OrderOf(a.rest, a.tree.w);
    i := PickLeast(f);
    j := PickLeast(a.rest);
    ListsRemoved(AllTrees(f), i);
    ListsRemoved(AllTrees(a.rest), j);
    ExactRemoved(AllTrees(f), i);
    ExactRemoved(AllTrees(a.rest), j);
    JoinCost(a.tree, b.tree);
    JoinWeight(a.tree, b.tree);
    ListsAdded(AllTrees(b.rest), Join(a.tree, b.tree));
    ExactAdded(AllTrees(b.rest), Join(a.tree, b.tree));
    MergeTrees(f);
  }

  lemma {:induction false} JoinWeight(a: Tree, b: Tree)
    requires a.w + b.w <= U32_MAX
    ensures Join(a, b).w == a.w + b.w
  {
  }

  lemma {:induction false} OrderOf(f: Forest, last: nat)
    requires InOrder(f, last)
    ensures Ascending(f.leaves) && Ascending(f.nodes)
  {
  }

  /** However lengths are given to the trees of a forest, merging does not cost more. */
  lemma {:induction false} MergeIsBest(f: Forest, last: nat, ds: seq<nat>, m: nat)
    requires Size(f) > 0 && InOrder(f, last) && AllExact(AllTrees(f)) && Sum(Weights(AllTrees(f))) <= U32_MAX
    requires |ds| == Size(f) && Fits(ds, m)
    ensures DepthCost(MergeAll(f), 0) <= Dot(Weights(AllTrees(f)), ds) + Sum(Costs(AllTrees(f)))
    decreases Size(f)
  {
    hide DepthCost, Exact, InOrder, Dot, Kraft, MergeStep, PickMin;
    if Size(f) == 1 {
      OneTree(f);
    } else {
      var i, j := MergeLists(f, last);
      var e := MergeCost(Weights(AllTrees(f)), i, j, ds, m);
      var last' := MergeStepInOrder(f, last);
      MergeIsBest(MergeStep(f), last', e, m);
    }
  }

  lemma {:induction false} OneTree(f: Forest)
    requires Size(f) == 1
    ensures Sum(Costs(AllTrees(f))) == DepthCost(MergeAll(f), 0)
  {
    hide DepthCost;
    var cs := Costs(AllTrees(f));
    assert cs[..0] == [];
  }
}
