/** Code lengths as they are computed: the trees live in index arrays, merged through two queues and
    walked with a stack. */
module CodeLenCompute {
  import opened CanonicalCode
  import opened CodeLengths

  // --- Trees in arrays ---

  /** Nodes below `num` are the leaves; node `i` from `num` on has two children below it. */
  datatype Arena = Arena(leaves: seq<Tree>, freq: seq<nat>, children: seq<(nat, nat)>)

  predicate Built(a: Arena, next: nat) {
    && |a.leaves| <= next <= |a.freq| == |a.children|
    && (forall i :: |a.leaves| <= i < next ==> a.children[i].0 < i && a.children[i].1 < i)
    && (forall i :: 0 <= i < |a.leaves| ==> a.leaves[i].w == a.freq[i])
  }

  function TreeAt(a: Arena, next: nat, i: nat): (t: Tree)
    requires Built(a, next) && i < next
    ensures t.w == a.freq[i]
    decreases i
  {
    if i < |a.leaves| then a.leaves[i]
    else Node(a.freq[i], TreeAt(a, next, a.children[i].0), TreeAt(a, next, a.children[i].1))
  }

  function SetNode(a: Arena, next: nat, w: nat, left: nat, right: nat): (a': Arena)
    requires Built(a, next) && next < |a.freq| && left < next && right < next
    ensures Built(a', next + 1) && |a'.freq| == |a.freq| && a'.leaves == a.leaves
  {
    Arena(a.leaves, a.freq[next := w], a.children[next := (left, right)])
  }

  lemma {:induction false} TreeAtKept(a: Arena, next: nat, w: nat, left: nat, right: nat, i: nat)
    requires Built(a, next) && next < |a.freq| && left < next && right < next && i < next
    ensures TreeAt(SetNode(a, next, w, left, right), next + 1, i) == TreeAt(a, next, i)
    decreases i
  {
    if i >= |a.leaves| {
      TreeAtKept(a, next, w, left, right, a.children[i].0);
      TreeAtKept(a, next, w, left, right, a.children[i].1);
    }
  }

  /** The trees from node `from` on. */
  function TreesFrom(a: Arena, next: nat, from: nat): (ts: seq<Tree>)
    requires Built(a, next) && from <= next
    ensures |ts| == next - from
    ensures forall k :: 0 <= k < |ts| ==> ts[k] == TreeAt(a, next, from + k)
  {
    seq(next - from, k requires 0 <= k < next - from => TreeAt(a, next, from + k))
  }

  function Waiting(a: Arena, next: nat, q1: nat, q2: nat): Forest
    requires Built(a, next) && q1 <= |a.leaves| && |a.leaves| <= q2 <= next
  {
    Forest(a.leaves[q1..], TreesFrom(a, next, q2))
  }

  /** The front of one of the two queues; ties go to the leaf. */
  method Pick(a: Arena, next: nat, q1: nat, q2: nat) returns (i: nat, q1': nat, q2': nat)
    requires Built(a, next) && q1 <= |a.leaves| && |a.leaves| <= q2 <= next
    requires q1 < |a.leaves| || q2 < next
    ensures i < next && q1 <= q1' <= |a.leaves| && q2 <= q2' <= next && q1' + q2' == q1 + q2 + 1
    ensures PickMin(Waiting(a, next, q1, q2)) == Picked(TreeAt(a, next, i), Waiting(a, next, q1', q2'))
  {
    if q2 == next || (q1 < |a.leaves| && a.freq[q1] <= a.freq[q2]) {
      i, q1', q2' := q1, q1 + 1, q2;
      assert a.leaves[q1..][1..] == a.leaves[q1 + 1..];
    } else {
      i, q1', q2' := q2, q1, q2 + 1;
      assert TreesFrom(a, next, q2)[1..] == TreesFrom(a, next, q2 + 1);
    }
  }

  lemma {:induction false} MergedForest(a: Arena, next: nat, q1: nat, q2: nat, left: nat, right: nat)
    requires Built(a, next) && next < |a.freq| && left < next && right < next
    requires q1 <= |a.leaves| && |a.leaves| <= q2 <= next
    ensures var w := SaturatingAdd(a.freq[left], a.freq[right]);
            var f := Waiting(a, next, q1, q2);
            Waiting(SetNode(a, next, w, left, right), next + 1, q1, q2)
            == f.(nodes := f.nodes + [Join(TreeAt(a, next, left), TreeAt(a, next, right))])
  {
    var w := SaturatingAdd(a.freq[left], a.freq[right]);
    var a' := SetNode(a, next, w, left, right);
    forall k | q2 <= k < next ensures TreeAt(a', next + 1, k) == TreeAt(a, next, k) {
      TreeAtKept(a, next, w, left, right, k);
    }
    TreeAtKept(a, next, w, left, right, left);
    TreeAtKept(a, next, w, left, right, right);
    assert TreesFrom(a', next + 1, q2)
        == TreesFrom(a, next, q2) + [Join(TreeAt(a, next, left), TreeAt(a, next, right))];
  }

  lemma {:induction false} StartForest(a: Arena)
    requires Built(a, |a.leaves|)
    ensures Waiting(a, |a.leaves|, 0, |a.leaves|) == Forest(a.leaves, [])
  {
  }

  lemma {:induction false} MergeAllStep(f: Forest)
    requires Size(f) > 1
    ensures MergeAll(f) == MergeAll(MergeStep(f))
  {
  }

  /** Merge the sorted leaves into one tree, whose root is the last node. */
  method Merge(leaves: seq<Tree>) returns (a: Arena)
    requires |leaves| >= 2 && AllLeaves(leaves)
    ensures a.leaves == leaves && |a.freq| == 2 * |leaves| - 1 && Built(a, |a.freq|)
    ensures TreeAt(a, |a.freq|, |a.freq| - 1) == MergeAll(Forest(leaves, []))
  {
    hide MergeAll, MergeStep, TreeAt;
    var num := |leaves|;
    var total := 2 * num - 1;
    a := Arena(leaves, seq(total, i => if 0 <= i < num then leaves[i].w else 0), seq(total, i => (0, 0)));
    var q1, q2, next := 0, num, num;
    StartForest(a);
    while next < total
      invariant a.leaves == leaves && |a.freq| == total && num <= next <= total && Built(a, next)
      invariant q1 <= num <= q2 <= next && num - q1 + next - q2 == total - next + 1 && (next > num ==> q2 < next)
      invariant MergeAll(Waiting(a, next, q1, q2)) == MergeAll(Forest(leaves, []))
    {
      MergeAllStep(Waiting(a, next, q1, q2));
      a, q1, q2 := MergeNext(a, next, q1, q2);
      next := next + 1;
    }
    LastTree(a, next, q1, q2);
  }

  method MergeNext(a: Arena, next: nat, q1: nat, q2: nat) returns (a': Arena, q1': nat, q2': nat)
    requires Built(a, next) && next < |a.freq| && q1 <= |a.leaves| && |a.leaves| <= q2 <= next
    requires |a.leaves| - q1 + next - q2 >= 2
    ensures Built(a', next + 1) && a'.leaves == a.leaves && |a'.freq| == |a.freq|
    ensures q1 <= q1' <= |a.leaves| && q2 <= q2' <= next && q1' + q2' == q1 + q2 + 2
    ensures Waiting(a', next + 1, q1', q2') == MergeStep(Waiting(a, next, q1, q2))
  {
    var left, right;
    left, q1', q2' := Pick(a, next, q1, q2);
    right, q1', q2' := Pick(a, next, q1', q2');
    MergedForest(a, next, q1', q2', left, right);
    a' := SetNode(a, next, SaturatingAdd(a.freq[left], a.freq[right]), left, right);
  }

  lemma {:induction false} LastTree(a: Arena, next: nat, q1: nat, q2: nat)
    requires Built(a, next) && q1 == |a.leaves| <= q2 == next - 1
    ensures MergeAll(Waiting(a, next, q1, q2)) == TreeAt(a, next, next - 1)
  {
  }

  // --- Depths ---

  datatype Visit = Visit(tree: nat, depth: nat)

  predicate ValidStack(stack: seq<Visit>, n: nat) {
    forall i :: 0 <= i < |stack| ==> stack[i].tree < n
  }

  /** Assigning the depths below everything on the stack, from its top down. */
  function AssignStack(a: Arena, next: nat, stack: seq<Visit>, lens: seq<nat>): (r: seq<nat>)
    requires Built(a, next) && ValidStack(stack, next)
    ensures |r| == |lens|
    decreases |stack|
  {
    if |stack| == 0 then lens
    else
      var v := stack[|stack| - 1];
      AssignStack(a, next, stack[..|stack| - 1], Assign(TreeAt(a, next, v.tree), v.depth, lens))
  }

  function StackHeight(a: Arena, next: nat, stack: seq<Visit>): nat
    requires Built(a, next) && ValidStack(stack, next)
    decreases |stack|
  {
    if |stack| == 0 then 0
    else
      var v := stack[|stack| - 1];
      Max(StackHeight(a, next, stack[..|stack| - 1]), v.depth + Height(TreeAt(a, next, v.tree)))
  }

  function Nodes(t: Tree): (n: nat)
    ensures n >= 1
  {
    match t
    case Leaf(_, _) => 1
    case Node(_, l, r) => 1 + Nodes(l) + Nodes(r)
  }

  function StackNodes(a: Arena, next: nat, stack: seq<Visit>): nat
    requires Built(a, next) && ValidStack(stack, next)
    decreases |stack|
  {
    if |stack| == 0 then 0
    else StackNodes(a, next, stack[..|stack| - 1]) + Nodes(TreeAt(a, next, stack[|stack| - 1].tree))
  }

  /** Expanding an inner node on top of the stack: its right child ends up on top. */
  lemma {:induction false} Expand(a: Arena, next: nat, rest: seq<Visit>, v: Visit, lens: seq<nat>)
    requires Built(a, next) && ValidStack(rest, next) && v.tree < next && v.tree >= |a.leaves|
    ensures var kids := a.children[v.tree];
            var stack := rest + [Visit(kids.0, v.depth + 1)] + [Visit(kids.1, v.depth + 1)];
            && ValidStack(stack, next)
            && AssignStack(a, next, stack, lens) == AssignStack(a, next, rest + [v], lens)
            && StackHeight(a, next, stack) == StackHeight(a, next, rest + [v])
            && StackNodes(a, next, stack) < StackNodes(a, next, rest + [v])
  {
    var kids := a.children[v.tree];
    var one := rest + [Visit(kids.0, v.depth + 1)];
    var stack := one + [Visit(kids.1, v.depth + 1)];
    assert stack[..|stack| - 1] == one && one[..|one| - 1] == rest && (rest + [v])[..|rest|] == rest;
  }

  lemma {:induction false} Pop(a: Arena, next: nat, rest: seq<Visit>, v: Visit, lens: seq<nat>)
    requires Built(a, next) && ValidStack(rest, next) && v.tree < |a.leaves| && AllLeaves(a.leaves)
    requires a.leaves[v.tree].sym < |lens|
    ensures AssignStack(a, next, rest + [v], lens)
         == AssignStack(a, next, rest, lens[a.leaves[v.tree].sym := v.depth])
    ensures StackHeight(a, next, rest + [v]) == Max(StackHeight(a, next, rest), v.depth)
    ensures StackNodes(a, next, rest) < StackNodes(a, next, rest + [v])
  {
    assert (rest + [v])[..|rest|] == rest;
  }

  predicate DistinctSyms(leaves: seq<Tree>, n: nat) {
    && AllLeaves(leaves)
    && (forall i :: 0 <= i < |leaves| ==> leaves[i].sym < n)
    && (forall i, j :: 0 <= i < j < |leaves| ==> leaves[i].sym != leaves[j].sym)
  }

  /** `lens` holds the depths of the leaves at their symbols and 0 elsewhere. */
  ghost predicate DepthsAt(leaves: seq<Tree>, depth: seq<nat>, lens: seq<nat>) {
    && |depth| >= |leaves| && DistinctSyms(leaves, |lens|)
    && (forall i :: 0 <= i < |leaves| ==> lens[leaves[i].sym] == depth[i])
    && (forall s :: 0 <= s < |lens| && lens[s] != 0 ==> exists i :: 0 <= i < |leaves| && leaves[i].sym == s)
  }

  lemma {:induction false} SetDepth(leaves: seq<Tree>, depth: seq<nat>, lens: seq<nat>, i: nat, d: nat)
    requires DepthsAt(leaves, depth, lens) && i < |leaves|
    ensures DepthsAt(leaves, depth[i := d], lens[leaves[i].sym := d])
  {
  }

  /** Walk the tree with an explicit stack. */
  method MeasureDepths(a: Arena, n: nat) returns (depth: seq<nat>, maxDepth: nat, ghost lens: seq<nat>)
    requires Built(a, |a.freq|) && |a.leaves| < |a.freq| && DistinctSyms(a.leaves, n)
    ensures var root := TreeAt(a, |a.freq|, |a.freq| - 1);
            maxDepth == Height(root) && lens == Assign(root, 0, Zero(n))
    ensures |lens| == n && DepthsAt(a.leaves, depth, lens)
  {
    var total := |a.freq|;
    depth, maxDepth, lens := Zero(total), 0, Zero(n);
    var stack := [Visit(total - 1, 0)];
    ghost var goal, height := AssignStack(a, total, stack, lens), StackHeight(a, total, stack);
    assert stack[..0] == [];
    while stack != []
      invariant ValidStack(stack, total) && |depth| == total && |lens| == n
      invariant DepthsAt(a.leaves, depth, lens)
      invariant goal == AssignStack(a, total, stack, lens)
      invariant height == Max(maxDepth, StackHeight(a, total, stack))
      decreases StackNodes(a, total, stack)
    {
      depth, maxDepth, stack, lens := MeasureNext(a, depth, maxDepth, stack, lens);
    }
  }

  method MeasureNext(a: Arena, depth: seq<nat>, maxDepth: nat, stack: seq<Visit>, ghost lens: seq<nat>)
    returns (depth': seq<nat>, maxDepth': nat, stack': seq<Visit>, ghost lens': seq<nat>)
    requires Built(a, |a.freq|) && ValidStack(stack, |a.freq|) && stack != []
    requires |depth| == |a.freq| && DepthsAt(a.leaves, depth, lens)
    ensures ValidStack(stack', |a.freq|) && |depth'| == |depth| && |lens'| == |lens|
    ensures DepthsAt(a.leaves, depth', lens')
    ensures AssignStack(a, |a.freq|, stack', lens') == AssignStack(a, |a.freq|, stack, lens)
    ensures Max(maxDepth', StackHeight(a, |a.freq|, stack')) == Max(maxDepth, StackHeight(a, |a.freq|, stack))
    ensures StackNodes(a, |a.freq|, stack') < StackNodes(a, |a.freq|, stack)
  {
    var v, rest := stack[|stack| - 1], stack[..|stack| - 1];
    assert stack == rest + [v];
    depth' := depth[v.tree := v.depth];
    if v.tree < |a.leaves| {
      Pop(a, |a.freq|, rest, v, lens);
      SetDepth(a.leaves, depth, lens, v.tree, v.depth);
      maxDepth', stack', lens' := Max(maxDepth, v.depth), rest, lens[a.leaves[v.tree].sym := v.depth];
    } else {
      Expand(a, |a.freq|, rest, v, lens);
      var kids := a.children[v.tree];
      stack' := rest + [Visit(kids.0, v.depth + 1)] + [Visit(kids.1, v.depth + 1)];
      maxDepth', lens' := maxDepth, lens;
    }
  }

  // --- The whole computation ---

  lemma {:induction false} SymCounted(ts: seq<Tree>, i: nat)
    requires AllLeaves(ts) && i < |ts|
    ensures AllSyms(ts)[ts[i].sym] >= 1
  {
    if i > 0 {
      SymCounted(ts[1..], i - 1);
    }
  }

  lemma {:induction false} LabelsDistinct(ts: seq<Tree>, n: nat)
    requires AllLeaves(ts) && Labelled(ts, n)
    ensures DistinctSyms(ts, n)
    decreases |ts|
  {
    if ts != [] {
      var rest := ts[1..];
      LabelsRest(ts, n);
      LabelsDistinct(rest, n);
      forall j | 1 <= j < |ts| ensures ts[0].sym != ts[j].sym {
        SymCounted(rest, j - 1);
        assert ts[j] == rest[j - 1];
      }
      assert forall i :: 1 <= i < |ts| ==> ts[i] == rest[i - 1];
    }
  }

  lemma {:induction false} LabelsRest(ts: seq<Tree>, n: nat)
    requires AllLeaves(ts) && Labelled(ts, n) && ts != []
    ensures Labelled(ts[1..], n) && ts[0].sym < n && ts[0].sym !in AllSyms(ts[1..])
  {
    var m := AllSyms(ts);
    assert m == multiset{ts[0].sym} + AllSyms(ts[1..]);
    assert ts[0].sym in m;
    forall s | s in AllSyms(ts[1..]) ensures AllSyms(ts[1..])[s] == 1 && s < n {
      assert s in m;
    }
  }

  lemma {:induction false} LensFromDepths(leaves: seq<Tree>, depth: seq<nat>, lens: seq<nat>, r: seq<nat>)
    requires DepthsAt(leaves, depth, lens) && |r| == |lens|
    requires forall i :: 0 <= i < |leaves| ==> r[leaves[i].sym] == depth[i]
    requires forall s :: 0 <= s < |r| && r[s] != 0 ==> exists i :: 0 <= i < |leaves| && leaves[i].sym == s
    ensures r == lens
  {
    forall s | 0 <= s < |r| ensures r[s] == lens[s] {
      if r[s] != 0 || lens[s] != 0 {
        var i :| 0 <= i < |leaves| && leaves[i].sym == s;
      }
    }
  }

  method WriteLens(leaves: seq<Tree>, depth: seq<nat>, n: nat, ghost lens: seq<nat>) returns (r: seq<nat>)
    requires DepthsAt(leaves, depth, lens) && |lens| == n
    ensures r == lens
  {
    r := Zero(n);
    for i := 0 to |leaves|
      invariant |r| == n && forall k :: 0 <= k < i ==> r[leaves[k].sym] == depth[k]
      invariant forall s :: 0 <= s < n && r[s] != 0 ==> exists k :: 0 <= k < |leaves| && leaves[k].sym == s
    {
      r := r[leaves[i].sym := depth[i]];
    }
    LensFromDepths(leaves, depth, lens, r);
  }

  lemma {:induction false} SortedLabels(ts: seq<Tree>, n: nat)
    requires Usable(ts) && Labelled(ts, n)
    ensures DistinctSyms(Sort(ts), n) && Labelled(Halve(Sort(ts)), n)
  {
    SortSyms(ts);
    HalveSyms(Sort(ts));
    LabelsDistinct(Sort(ts), n);
  }

  /** Build the tree and walk it; while it is too deep, halve the frequencies and start again. */
  method ComputeLimited(ts: seq<Tree>, n: nat) returns (lens: seq<nat>)
    requires Usable(ts) && Labelled(ts, n)
    ensures lens == LimitedLens(ts, n)
  {
    hide Labelled, Halve, Sort, Height, Assign, TreeAt, MergeAll;
    var active := ts;
    while true
      invariant Usable(active) && Labelled(active, n) && LimitedLens(active, n) == LimitedLens(ts, n)
      decreases WeightSum(active)
    {
      SortedLabels(active, n);
      var sorted := Sort(active);
      var a := Merge(sorted);
      ghost var depths: seq<nat>;
      var depth, maxDepth;
      depth, maxDepth, depths := MeasureDepths(a, n);
      if maxDepth <= MAX_CODEWORD_LEN {
        lens := WriteLens(sorted, depth, n, depths);
        return;
      }
      RetryProgress(active);
      active := Halve(sorted);
    }
  }

  method ActiveSymbols(freqs: seq<nat>) returns (ts: seq<Tree>)
    ensures ts == Active(freqs)
  {
    ts := [];
    for i := 0 to |freqs|
      invariant ts == Active(freqs[..i])
    {
      assert freqs[..i + 1][..i] == freqs[..i];
      if freqs[i] > 0 {
        ts := ts + [Leaf(freqs[i], i)];
      }
    }
    assert freqs[..|freqs|] == freqs;
  }

  method ComputeLens(freqs: seq<nat>) returns (lens: seq<nat>)
    requires ValidFreqs(freqs)
    ensures lens == CodeLens(freqs)
  {
    var active := ActiveSymbols(freqs);
    if |active| == 0 {
      return Zero(|freqs|);
    }
    if |active| == 1 {
      return Zero(|freqs|)[active[0].sym := 1];
    }
    ActiveLabelled(freqs);
    lens := ComputeLimited(active, |freqs|);
  }
}
