/** Length-limited Huffman lengths for the patch codec: a heap-built tree, depths capped, the Kraft sum
    repaired, and the lengths handed out by frequency. */
module LengthLimit {
  import opened Powers
  import opened CodeLengths
  import opened CodeLenCompute
  import opened KraftRepair
  import opened CodeCost
  import opened HeapCost
  import CodeLengthCost
  import CodeLengthLaws
  import CodeLengthOrder

  // --- The tree ---

  function HeapSyms(a: Arena, next: nat, heap: seq<nat>): multiset<nat>
    requires Built(a, next) && forall k :: 0 <= k < |heap| ==> heap[k] < next
    decreases |heap|
  {
    if |heap| == 0 then multiset{} else Syms(TreeAt(a, next, heap[0])) + HeapSyms(a, next, heap[1..])
  }

  lemma {:induction false} HeapRemove(a: Arena, next: nat, heap: seq<nat>, k: nat)
    requires Built(a, next) && k < |heap| && forall j :: 0 <= j < |heap| ==> heap[j] < next
    ensures HeapSyms(a, next, heap) == Syms(TreeAt(a, next, heap[k])) + HeapSyms(a, next, heap[..k] + heap[k + 1..])
    decreases |heap|
  {
    hide Syms, TreeAt;
    if k == 0 {
      assert heap[..0] + heap[1..] == heap[1..];
    } else {
      HeapRemove(a, next, heap[1..], k - 1);
      assert heap[1..][..k - 1] + heap[1..][k..] == (heap[..k] + heap[k + 1..])[1..];
    }
  }

  lemma {:induction false} HeapKept(a: Arena, next: nat, w: nat, left: nat, right: nat, heap: seq<nat>)
    requires Built(a, next) && next < |a.freq| && left < next && right < next
    requires forall j :: 0 <= j < |heap| ==> heap[j] < next
    ensures HeapSyms(SetNode(a, next, w, left, right), next + 1, heap) == HeapSyms(a, next, heap)
    decreases |heap|
  {
    if |heap| > 0 {
      TreeAtKept(a, next, w, left, right, heap[0]);
      HeapKept(a, next, w, left, right, heap[1..]);
    }
  }

  function HeapTrees(a: Arena, next: nat, heap: seq<nat>): (ts: seq<Tree>)
    requires Built(a, next) && forall k :: 0 <= k < |heap| ==> heap[k] < next
    ensures |ts| == |heap| && forall k: nat :: k < |ts| ==> ts[k] == TreeAt(a, next, heap[k])
  {
    seq(|heap|, k requires 0 <= k < |heap| => TreeAt(a, next, heap[k]))
  }

  /** The trees of the heap are worth merging: any code for `ws` gives one for them. */
  ghost predicate OnTrack(ws: seq<nat>, ts: seq<Tree>) {
    && CodeLengthCost.AllExact(ts)
    && Dominates(ws, CodeLengthCost.Weights(ts), CodeLengthCost.Sum(CodeLengthCost.Costs(ts)))
  }

  /** The least entry by weight, then by node number. */
  method PopLeast(a: Arena, heap: seq<nat>, ghost next: nat) returns (i: nat, rest: seq<nat>, ghost at: nat)
    requires |heap| > 0 && Built(a, next) && forall j :: 0 <= j < |heap| ==> heap[j] < next
    ensures i < next && |rest| == |heap| - 1 && (forall j :: 0 <= j < |rest| ==> rest[j] < next)
    ensures HeapSyms(a, next, heap) == Syms(TreeAt(a, next, i)) + HeapSyms(a, next, rest)
    ensures at < |heap| && i == heap[at] && rest == heap[..at] + heap[at + 1..]
    ensures forall j: nat :: j < |heap| ==>
              a.freq[i] < a.freq[heap[j]] || (a.freq[i] == a.freq[heap[j]] && i <= heap[j])
  {
    var least := 0;
    for k := 1 to |heap|
      invariant least < |heap|
      invariant forall j: nat :: j < k ==>
                  var x, y := heap[least], heap[j]; a.freq[x] < a.freq[y] || (a.freq[x] == a.freq[y] && x <= y)
    {
      var x, y := heap[k], heap[least];
      if a.freq[x] < a.freq[y] || (a.freq[x] == a.freq[y] && x < y) {
        least := k;
      }
    }
    HeapRemove(a, next, heap, least);
    i, rest, at := heap[least], heap[..least] + heap[least + 1..], least;
  }

  lemma {:induction false} HeapPush(a: Arena, next: nat, heap: seq<nat>, i: nat)
    requires Built(a, next) && i < next && forall j :: 0 <= j < |heap| ==> heap[j] < next
    ensures HeapSyms(a, next, heap + [i]) == HeapSyms(a, next, heap) + Syms(TreeAt(a, next, i))
    decreases |heap|
  {
    var all := heap + [i];
    HeapRemove(a, next, all, |heap|);
    assert all[..|heap|] + all[|heap| + 1..] == heap;
  }

  /** The numbers from `k` up to but not including `n`. */
  function Numbers(k: nat, n: nat): (r: seq<nat>)
    requires k <= n
    ensures |r| == n - k && forall i :: 0 <= i < |r| ==> r[i] == k + i
  {
    seq(n - k, i requires 0 <= i < n - k => k + i)
  }

  lemma {:induction false} LeafHeap(a: Arena, k: nat)
    requires Built(a, |a.leaves|) && k <= |a.leaves|
    ensures HeapSyms(a, |a.leaves|, Numbers(k, |a.leaves|)) == AllSyms(a.leaves[k..])
    decreases |a.leaves| - k
  {
    hide Syms;
    if k < |a.leaves| {
      LeafHeap(a, k + 1);
      assert Numbers(k, |a.leaves|)[1..] == Numbers(k + 1, |a.leaves|);
      assert a.leaves[k..][1..] == a.leaves[k + 1..];
    }
  }

  method MergeByHeap(leaves: seq<Tree>) returns (a: Arena)
    requires |leaves| >= 2 && AllLeaves(leaves)
    ensures a.leaves == leaves && |a.freq| == 2 * |leaves| - 1 && Built(a, |a.freq|)
    ensures Syms(TreeAt(a, |a.freq|, |a.freq| - 1)) == AllSyms(leaves)
    ensures OnTrack(CodeLengthCost.Weights(leaves), [TreeAt(a, |a.freq|, |a.freq| - 1)])
  {
    hide TreeAt, Syms, HeapSyms, SetNode, OnTrack;
    var m := |leaves|;
    var total := 2 * m - 1;
    a := Arena(leaves, seq(total, i => if 0 <= i < m then leaves[i].w else 0), seq(total, i => (0, 0)));
    var heap: seq<nat> := Numbers(0, m);
    LeafHeap(a, 0);
    assert leaves[0..] == leaves;
    StartOnTrack(a, heap);
    var next: nat := m;
    while |heap| > 1
      invariant a.leaves == leaves && |a.freq| == total && m <= next <= total && Built(a, next)
      invariant |heap| + next == 2 * m && (forall j :: 0 <= j < |heap| ==> heap[j] < next)
      invariant HeapSyms(a, next, heap) == AllSyms(leaves)
      invariant OnTrack(CodeLengthCost.Weights(leaves), HeapTrees(a, next, heap))
      invariant next > m ==> heap[|heap| - 1] == next - 1
      decreases total - next
    {
      a, heap := MergeLeast(a, next, heap, CodeLengthCost.Weights(leaves));
      next := next + 1;
    }
    OneTree(a, next, heap);
    assert HeapTrees(a, next, heap) == [TreeAt(a, next, next - 1)];
  }

  lemma {:induction false} StartOnTrack(a: Arena, heap: seq<nat>)
    requires Built(a, |a.leaves|) && AllLeaves(a.leaves) && heap == Numbers(0, |a.leaves|)
    ensures HeapTrees(a, |a.leaves|, heap) == a.leaves && OnTrack(CodeLengthCost.Weights(a.leaves), a.leaves)
  {
    hide Dominates;
    DominatesSelf(CodeLengthCost.Weights(a.leaves));
    CodeLengthLaws.LeavesFree(a.leaves);
    assert HeapTrees(a, |a.leaves|, heap) == a.leaves;
  }

  /** The heap after a merge as a list of trees. */
  lemma {:induction false} MergedHeap(a: Arena, next: nat, heap: seq<nat>, x: nat, y: nat, ws: seq<nat>)
    requires Built(a, next) && next < |a.freq| && |heap| > 1 && forall j :: 0 <= j < |heap| ==> heap[j] < next
    requires x < |heap| && y < |heap| - 1 && OnTrack(ws, HeapTrees(a, next, heap))
    requires var rest := heap[..x] + heap[x + 1..];
             && (forall j: nat :: j < |heap| ==> a.freq[heap[x]] <= a.freq[heap[j]])
             && (forall j: nat :: j < |rest| ==> a.freq[rest[y]] <= a.freq[rest[j]])
    ensures var rest := heap[..x] + heap[x + 1..];
            var others := rest[..y] + rest[y + 1..];
            var a' := SetNode(a, next, a.freq[heap[x]] + a.freq[rest[y]], heap[x], rest[y]);
            && (forall j :: 0 <= j < |others| ==> others[j] < next)
            && OnTrack(ws, HeapTrees(a', next + 1, others + [next]))
  {
    hide TreeAt, Dominates, CodeLengthCost.AllExact, CodeLengthCost.Costs, CodeLengthCost.Sum;
    var rest := heap[..x] + heap[x + 1..];
    var others := rest[..y] + rest[y + 1..];
    var left, right := heap[x], rest[y];
    var w := a.freq[left] + a.freq[right];
    var ts := HeapTrees(a, next, heap);
    assert HeapTrees(a, next, rest) == CodeLengthCost.Removed(ts, x);
    assert HeapTrees(a, next, others) == CodeLengthCost.Removed(HeapTrees(a, next, rest), y);
    NewNode(a, next, w, left, right);
    KeptTrees(a, next, w, left, right, others);
    MergeDominates(ws, ts, x, y, TreeAt(SetNode(a, next, w, left, right), next + 1, next));
  }

  lemma {:induction false} MergedOnTrack(a: Arena, next: nat, heap: seq<nat>, x: nat, y: nat, others: seq<nat>,
                                         ws: seq<nat>)
    requires Built(a, next) && next < |a.freq| && |heap| > 1 && forall j :: 0 <= j < |heap| ==> heap[j] < next
    requires x < |heap| && y < |heap| - 1
    requires var rest := heap[..x] + heap[x + 1..];
             && others == rest[..y] + rest[y + 1..]
             && (forall j: nat :: j < |heap| ==> a.freq[heap[x]] <= a.freq[heap[j]])
             && (forall j: nat :: j < |rest| ==> a.freq[rest[y]] <= a.freq[rest[j]])
    ensures var right := (heap[..x] + heap[x + 1..])[y];
            var a' := SetNode(a, next, a.freq[heap[x]] + a.freq[right], heap[x], right);
            && (forall j :: 0 <= j < |others| ==> others[j] < next)
            && (OnTrack(ws, HeapTrees(a, next, heap)) ==> OnTrack(ws, HeapTrees(a', next + 1, others + [next])))
  {
    hide OnTrack, HeapTrees, SetNode;
    if OnTrack(ws, HeapTrees(a, next, heap)) {
      MergedHeap(a, next, heap, x, y, ws);
    }
  }

  lemma {:induction false} NewNode(a: Arena, next: nat, w: nat, left: nat, right: nat)
    requires Built(a, next) && next < |a.freq| && left < next && right < next
    ensures TreeAt(SetNode(a, next, w, left, right), next + 1, next)
         == Node(w, TreeAt(a, next, left), TreeAt(a, next, right))
  {
    TreeAtKept(a, next, w, left, right, left);
    TreeAtKept(a, next, w, left, right, right);
  }

  lemma {:induction false} KeptTrees(a: Arena, next: nat, w: nat, left: nat, right: nat, heap: seq<nat>)
    requires Built(a, next) && next < |a.freq| && left < next && right < next
    requires forall j :: 0 <= j < |heap| ==> heap[j] < next
    ensures var a' := SetNode(a, next, w, left, right);
            HeapTrees(a', next + 1, heap + [next]) == HeapTrees(a, next, heap) + [TreeAt(a', next + 1, next)]
  {
    hide TreeAt, SetNode;
    forall j: nat | j < |heap|
      ensures TreeAt(SetNode(a, next, w, left, right), next + 1, heap[j]) == TreeAt(a, next, heap[j])
    {
      TreeAtKept(a, next, w, left, right, heap[j]);
    }
  }

  method MergeLeast(a: Arena, next: nat, heap: seq<nat>, ghost ws: seq<nat>) returns (a': Arena, heap': seq<nat>)
    requires Built(a, next) && next < |a.freq| && |heap| > 1 && forall j :: 0 <= j < |heap| ==> heap[j] < next
    ensures Built(a', next + 1) && a'.leaves == a.leaves && |a'.freq| == |a.freq|
    ensures |heap'| == |heap| - 1 && (forall j :: 0 <= j < |heap'| ==> heap'[j] < next + 1)
    ensures heap'[|heap'| - 1] == next && HeapSyms(a', next + 1, heap') == HeapSyms(a, next, heap)
    ensures OnTrack(ws, HeapTrees(a, next, heap)) ==> OnTrack(ws, HeapTrees(a', next + 1, heap'))
  {
    hide HeapSyms, SetNode, OnTrack, TreeAt, HeapTrees;
    var left, right, rest;
    ghost var x, y;
    left, rest, x := PopLeast(a, heap, next);
    right, rest, y := PopLeast(a, rest, next);
    MergedOnTrack(a, next, heap, x, y, rest, ws);
    var w := a.freq[left] + a.freq[right];
    a' := SetNode(a, next, w, left, right);
    heap' := rest + [next];
    HeapKept(a, next, w, left, right, rest);
    HeapPush(a', next + 1, rest, next);
    NewTree(a, next, w, left, right);
  }

  lemma {:induction false} NewTree(a: Arena, next: nat, w: nat, left: nat, right: nat)
    requires Built(a, next) && next < |a.freq| && left < next && right < next
    ensures Syms(TreeAt(SetNode(a, next, w, left, right), next + 1, next))
         == Syms(TreeAt(a, next, left)) + Syms(TreeAt(a, next, right))
  {
    TreeAtKept(a, next, w, left, right, left);
    TreeAtKept(a, next, w, left, right, right);
  }

  lemma {:induction false} OneTree(a: Arena, next: nat, heap: seq<nat>)
    requires Built(a, next) && |heap| == 1 && heap[0] < next
    ensures HeapSyms(a, next, heap) == Syms(TreeAt(a, next, heap[0]))
  {
    assert heap[1..] == [];
  }

  // --- Capped depths ---

  function Capped(d: nat, ml: nat): nat {
    if d < ml then d else ml
  }

  /** Kraft sum of the capped depths, scaled by 2^ml; 0 marks a symbol without a depth. */
  function CapSum(lens: seq<nat>, ml: nat): nat {
    if |lens| == 0 then 0
    else
      var d := lens[|lens| - 1];
      CapSum(lens[..|lens| - 1], ml) + if d > 0 then Pow2(ml - Capped(d, ml)) else 0
  }

  /** What the leaves below a tree at depth `d` contribute. */
  function CapTree(t: Tree, d: nat, ml: nat): nat {
    match t
    case Leaf(_, _) => Pow2(ml - Capped(d, ml))
    case Node(_, l, r) => CapTree(l, d + 1, ml) + CapTree(r, d + 1, ml)
  }

  lemma {:induction false} CapUpdate(lens: seq<nat>, s: nat, d: nat, ml: nat)
    requires s < |lens| && lens[s] == 0 && d > 0
    ensures CapSum(lens[s := d], ml) == CapSum(lens, ml) + Pow2(ml - Capped(d, ml))
  {
    var n := |lens| - 1;
    if s == n {
      assert lens[s := d][..n] == lens[..n];
    } else {
      CapUpdate(lens[..n], s, d, ml);
      assert lens[s := d][..n] == lens[..n][s := d];
    }
  }

  lemma {:induction false} CapAssign(t: Tree, d: nat, lens: seq<nat>, ml: nat)
    requires (d > 0 || t.Node?) && Distinct(Syms(t)) && Free(Syms(t), lens)
    ensures CapSum(Assign(t, d, lens), ml) == CapSum(lens, ml) + CapTree(t, d, ml)
  {
    if t.Leaf? {
      assert t.sym in Syms(t);
      CapUpdate(lens, t.sym, d, ml);
    } else {
      var mid := Assign(t.right, d + 1, lens);
      NodeParts(t, lens);
      CapAssign(t.right, d + 1, lens, ml);
      StaysFree(Syms(t.left), t.right, d + 1, lens);
      CapAssign(t.left, d + 1, mid, ml);
    }
  }

  /** Capping raises the sum by less than 1 for each leaf. */
  lemma {:induction false} CapBounds(t: Tree, d: nat, ml: nat)
    ensures d <= ml ==> CapTree(t, d, ml) <= Pow2(ml - d) + |Syms(t)|
    ensures d >= ml ==> CapTree(t, d, ml) == |Syms(t)|
  {
    if t.Node? {
      CapBounds(t.left, d + 1, ml);
      CapBounds(t.right, d + 1, ml);
      if d < ml {
        assert Pow2(ml - d) == 2 * Pow2(ml - (d + 1));
      }
    }
  }

  // --- Counting the lengths ---

  lemma {:induction false} AddLeaf(bl: seq<nat>, ml: nat, a: nat, l: nat)
    requires l <= ml < |bl| && 1 <= a <= ml
    ensures var r := bl[a := bl[a] + 1];
            && KSum(r, ml, l) == KSum(bl, ml, l) + (if a <= l then Pow2(ml - a) else 0)
            && Leaves(r, l) == Leaves(bl, l) + (if a <= l then 1 else 0)
  {
    if l > 0 {
      hide Pow2;
      AddLeaf(bl, ml, a, l - 1);
      if l == a {
        Distribute(bl[a], 1, Pow2(ml - a));
      }
    }
  }

  /** How many of the capped depths equal `l`. */
  function CappedCount(depth: seq<nat>, l: nat, ml: nat): nat {
    if |depth| == 0 then 0
    else CappedCount(depth[..|depth| - 1], l, ml) + if Capped(depth[|depth| - 1], ml) == l then 1 else 0
  }

  lemma {:induction false} NoneCounted(depth: seq<nat>)
    ensures forall l: nat, ml: nat :: CappedCount(depth[..0], l, ml) == 0
  {
  }

  lemma {:induction false} NextCounted(depth: seq<nat>, i: nat, ml: nat)
    requires i < |depth|
    ensures forall l: nat :: CappedCount(depth[..i + 1], l, ml)
                             == CappedCount(depth[..i], l, ml) + if Capped(depth[i], ml) == l then 1 else 0
  {
    assert depth[..i + 1][..i] == depth[..i];
  }

  method CountCapped(depth: seq<nat>, m: nat, ml: nat) returns (bl: seq<nat>)
    requires 1 <= ml && m <= |depth| && forall i :: 0 <= i < m ==> depth[i] > 0
    ensures |bl| == ml + 1 && KSum(bl, ml, ml) == CapSum(depth[..m], ml) && Leaves(bl, ml) == m
    ensures forall l: nat :: l <= ml ==> bl[l] == CappedCount(depth[..m], l, ml)
  {
    hide KSum, Leaves, CapSum, Pow2, CappedCount;
    bl := seq(ml + 1, i => 0);
    NoneCounted(depth);
    assert KSum(bl, ml, ml) == 0 && Leaves(bl, ml) == 0 by { LeavesNone(bl, ml, ml); }
    assert CapSum(depth[..0], ml) == 0 by { NoCap(depth, ml); }
    for i := 0 to m
      invariant |bl| == ml + 1 && KSum(bl, ml, ml) == CapSum(depth[..i], ml) && Leaves(bl, ml) == i
      invariant forall l: nat :: l <= ml ==> bl[l] == CappedCount(depth[..i], l, ml)
    {
      var l := if depth[i] < ml then depth[i] else ml;
      AddLeaf(bl, ml, l, ml);
      CapNext(depth, i, ml);
      NextCounted(depth, i, ml);
      bl := bl[l := bl[l] + 1];
    }
  }

  lemma {:induction false} NoCap(depth: seq<nat>, ml: nat)
    ensures CapSum(depth[..0], ml) == 0
  {
  }

  lemma {:induction false} CapNext(depth: seq<nat>, i: nat, ml: nat)
    requires i < |depth| && depth[i] > 0
    ensures CapSum(depth[..i + 1], ml) == CapSum(depth[..i], ml) + Pow2(ml - Capped(depth[i], ml))
  {
    assert depth[..i + 1][..i] == depth[..i];
  }

  // --- The distribution of lengths ---

  function LeavesOf(weights: seq<nat>): (r: seq<Tree>)
    ensures |r| == |weights| && forall i :: 0 <= i < |r| ==> r[i] == Leaf(weights[i], i)
  {
    seq(|weights|, i requires 0 <= i < |weights| => Leaf(weights[i], i))
  }

  lemma {:induction false} LeafSyms(weights: seq<nat>, k: nat)
    requires k <= |weights|
    ensures var m := AllSyms(LeavesOf(weights)[k..]);
            && |m| == |weights| - k && Distinct(m)
            && forall s :: s in m <==> k <= s < |weights|
    decreases |weights| - k
  {
    if k < |weights| {
      LeafSyms(weights, k + 1);
      assert LeavesOf(weights)[k..][1..] == LeavesOf(weights)[k + 1..];
    }
  }

  lemma {:induction false} CapOfZero(n: nat, ml: nat)
    ensures CapSum(Zero(n), ml) == 0
  {
    if n > 0 {
      CapOfZero(n - 1, ml);
      assert Zero(n)[..n - 1] == Zero(n - 1);
    }
  }

  /** Depths of a tree over `m` symbols: all positive, and after capping the Kraft sum exceeds a full one
      by less than `m`. */
  lemma {:induction false} DepthsOfTree(t: Tree, weights: seq<nat>, depth: seq<nat>, ml: nat)
    requires |weights| >= 2 && Syms(t) == AllSyms(LeavesOf(weights)) && |depth| >= |weights|
    requires DepthsAt(LeavesOf(weights), depth, Assign(t, 0, Zero(|weights|)))
    ensures forall i :: 0 <= i < |weights| ==> depth[i] > 0
    ensures CapSum(depth[..|weights|], ml) <= Pow2(ml) + |weights|
  {
    var m := |weights|;
    LeafSyms(weights, 0);
    assert LeavesOf(weights)[0..] == LeavesOf(weights);
    SeveralSyms(t);
    hide Syms, AllSyms, Assign, CapSum, CapTree;
    CapAssign(t, 0, Zero(m), ml);
    CapOfZero(m, ml);
    CapBounds(t, 0, ml);
    var lens := Assign(t, 0, Zero(m));
    assert forall i :: 0 <= i < m ==> LeavesOf(weights)[i].sym == i;
    assert depth[..m] == lens;
    forall i | 0 <= i < m ensures depth[i] > 0 {
      AssignPositive(t, 0, Zero(m), i);
    }
  }

  // --- The depths are the best lengths ---

  lemma {:induction false} FullTree(t: Tree, d: nat, m: nat)
    requires d + Height(t) <= m
    ensures CapTree(t, d, m) == Pow2(m - d)
  {
    if t.Node? {
      FullTree(t.left, d + 1, m);
      FullTree(t.right, d + 1, m);
    }
  }

  lemma {:induction false} DepthAtMost(t: Tree, s: nat)
    ensures CodeLengthOrder.DepthIn(t, s) <= Height(t)
  {
    if t.Node? {
      DepthAtMost(t.left, s);
      DepthAtMost(t.right, s);
    }
  }

  lemma {:induction false} DeepestLeaf(t: Tree) returns (s: nat)
    requires Distinct(Syms(t))
    ensures s in Syms(t) && CodeLengthOrder.DepthIn(t, s) == Height(t)
  {
    hide Distinct;
    if t.Leaf? {
      s := t.sym;
    } else {
      DistinctParts(Syms(t.left), Syms(t.right));
      s := DeepestLeaf(if Height(t.left) >= Height(t.right) then t.left else t.right);
    }
  }

  /** The depths of the symbols `0` to `n - 1` of a tree: all positive, the greatest one its height, and a full code. */
  lemma {:induction false} DepthsFull(t: Tree, n: nat)
    requires t.Node? && Distinct(Syms(t)) && forall s :: s in Syms(t) <==> 0 <= s < n
    ensures var raw := Assign(t, 0, Zero(n));
            && (forall s: nat :: s < n ==> 0 < raw[s] <= Height(t)) && (exists s: nat :: s < n && raw[s] == Height(t))
            && forall m: nat :: Height(t) <= m ==> CapSum(raw, m) == Pow2(m)
  {
    hide Distinct, CapSum, Assign, Syms, Pow2, CapTree;
    var raw := Assign(t, 0, Zero(n));
    forall s: nat | s < n ensures 0 < raw[s] <= Height(t) {
      CodeLengthOrder.AssignIsDepth(t, 0, Zero(n), s);
      DepthAtMost(t, s);
      AssignPositive(t, 0, Zero(n), s);
    }
    var deep := DeepestLeaf(t);
    CodeLengthOrder.AssignIsDepth(t, 0, Zero(n), deep);
    assert raw[deep] == Height(t);
    forall m: nat | Height(t) <= m ensures CapSum(raw, m) == Pow2(m) {
      CapAssign(t, 0, Zero(n), m);
      CapOfZero(n, m);
      FullTree(t, 0, m);
    }
  }

  lemma {:induction false} CapIsKraft(ds: seq<nat>, m: nat)
    requires forall k: nat :: k < |ds| ==> 0 < ds[k] <= m
    ensures CapSum(ds, m) == Kraft(ds, m)
  {
    if |ds| > 0 {
      CapIsKraft(ds[..|ds| - 1], m);
    }
  }

  /** The depths of the merged tree are the lengths of a cheapest prefix code. */
  lemma {:induction false} DepthsBest(t: Tree, weights: seq<nat>)
    requires |weights| >= 2 && Syms(t) == AllSyms(LeavesOf(weights)) && CodeLengthLaws.Matches(t, weights)
    requires OnTrack(weights, [t])
    ensures var raw := Assign(t, 0, Zero(|weights|));
            && Best(weights, raw) && (forall s: nat :: s < |raw| ==> 0 < raw[s])
            && forall m: nat :: (forall s: nat :: s < |raw| ==> raw[s] <= m) ==> CapSum(raw, m) == Pow2(m)
  {
    hide Dot, Kraft, Assign, Distinct, AllSyms, Syms, Pow2, CapSum, CodeLengthLaws.Matches, Dominates;
    var n := |weights|;
    LeafSyms(weights, 0);
    assert LeavesOf(weights)[0..] == LeavesOf(weights);
    SeveralSyms(t);
    DepthsFull(t, n);
    var raw := Assign(t, 0, Zero(n));
    CapIsKraft(raw, Height(t));
    assert Fits(raw, Height(t));
    CodeLengthLaws.DotAssign(t, 0, Zero(n), weights);
    CodeLengthLaws.DotZero(weights);
    forall other | |other| == n && PrefixLengths(other) ensures Dot(weights, raw) <= Dot(weights, other) {
      LastDominates(weights, t, other);
    }
  }

  lemma {:induction false} TreeMatches(a: Arena, next: nat, i: nat, weights: seq<nat>)
    requires Built(a, next) && i < next && a.leaves == LeavesOf(weights)
    ensures CodeLengthLaws.Matches(TreeAt(a, next, i), weights)
    decreases i
  {
    if i >= |a.leaves| {
      TreeMatches(a, next, a.children[i].0, weights);
      TreeMatches(a, next, a.children[i].1, weights);
    }
  }

  /** `run` repairs the capped depths `raw`. */
  ghost predicate RepairsDepths(run: seq<seq<nat>>, raw: seq<nat>, ml: nat) {
    && |run| > 0 && RepairRun(run, run[0], ml) && |run[0]| == ml + 1
    && (forall l: nat :: l <= ml ==> run[0][l] == CappedCount(raw, l, ml))
    && ((forall s: nat :: s < |raw| ==> raw[s] <= ml) ==> run[|run| - 1] == run[0])
  }

  /** How many codes of each length: complete, and as many as there are symbols. They are those of a cheapest code,
      `raw`, whose lengths are capped and repaired if they exceed the limit. */
  method LengthCounts(weights: seq<nat>, ml: nat) returns (bl: seq<nat>, ghost raw: seq<nat>, ghost run: seq<seq<nat>>)
    requires 1 <= ml <= 15 && 2 <= |weights| <= Pow2(ml)
    ensures |bl| == ml + 1 && Leaves(bl, ml) == |weights| && KSum(bl, ml, ml) == Pow2(ml)
    ensures Best(weights, raw) && forall s: nat :: s < |raw| ==> 0 < raw[s]
    ensures RepairsDepths(run, raw, ml) && bl == run[|run| - 1]
  {
    hide KSum, Leaves, CapSum, Pow2, TreeAt, Syms, AllSyms, Assign, DepthsAt, OnTrack, Best, CappedCount, RepairRun;
    var leaves := LeavesOf(weights);
    var a := MergeByHeap(leaves);
    var depth, _, lens := MeasureDepths(a, |weights|);
    ghost var t := TreeAt(a, |a.freq|, |a.freq| - 1);
    DepthsOfTree(t, weights, depth, ml);
    TreeMatches(a, |a.freq|, |a.freq| - 1, weights);
    assert CodeLengthCost.Weights(leaves) == weights;
    DepthsBest(t, weights);
    raw := lens;
    assert depth[..|weights|] == raw by { DepthsAtLeaves(weights, depth, raw); }
    bl := CountCapped(depth, |weights|, ml);
    assert |weights| <= MAX_ROUNDS by { FewLeaves(ml); }
    ghost var counted := bl;
    bl, run := RepairLengths(bl, ml);
    assert run[0] == counted by { RunStarts(run, counted, ml); }
  }

  lemma {:induction false} RunStarts(run: seq<seq<nat>>, start: seq<nat>, ml: nat)
    requires |run| > 0 && RepairRun(run, start, ml)
    ensures run[0] == start
  {
  }

  lemma {:induction false} DepthsAtLeaves(weights: seq<nat>, depth: seq<nat>, lens: seq<nat>)
    requires DepthsAt(LeavesOf(weights), depth, lens) && |lens| == |weights|
    ensures depth[..|weights|] == lens
  {
    assert forall i: nat :: i < |weights| ==> LeavesOf(weights)[i].sym == i;
  }

  lemma {:induction false} FewLeaves(ml: nat)
    requires ml <= 15
    ensures Pow2(ml) <= MAX_ROUNDS
  {
    Pow2Monotone(ml, 15);
    PowerTable();
  }
}
