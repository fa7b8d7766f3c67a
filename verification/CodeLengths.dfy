/** Huffman code lengths by the two-queue merge, with frequencies halved until the tree is at most
    15 deep. The result is a complete code. */
module CodeLengths {
  import opened Powers
  import opened CanonicalCode

  const U32_MAX := 0xFFFF_FFFF
  const MAX_SYMBOLS := 799

  /** `w` is the weight of the whole tree. */
  datatype Tree =
    | Leaf(w: nat, sym: nat)
    | Node(w: nat, left: Tree, right: Tree)

  function Max(a: nat, b: nat): nat {
    if a >= b then a else b
  }

  function SaturatingAdd(a: nat, b: nat): nat {
    if a + b > U32_MAX then U32_MAX else a + b
  }

  function Height(t: Tree): nat {
    match t
    case Leaf(_, _) => 0
    case Node(_, l, r) => 1 + Max(Height(l), Height(r))
  }

  // --- The merge ---

  /** The two queues: leaves by weight, and merged trees in order of creation. */
  datatype Forest = Forest(leaves: seq<Tree>, nodes: seq<Tree>)

  function Size(f: Forest): nat {
    |f.leaves| + |f.nodes|
  }

  datatype Picked = Picked(tree: Tree, rest: Forest)

  function PickMin(f: Forest): (p: Picked)
    requires Size(f) > 0
    ensures Size(p.rest) == Size(f) - 1
  {
    if f.nodes == [] || (f.leaves != [] && f.leaves[0].w <= f.nodes[0].w) then
      Picked(f.leaves[0], f.(leaves := f.leaves[1..]))
    else
      Picked(f.nodes[0], f.(nodes := f.nodes[1..]))
  }

  function Join(a: Tree, b: Tree): Tree {
    Node(SaturatingAdd(a.w, b.w), a, b)
  }

  function MergeStep(f: Forest): (f': Forest)
    requires Size(f) > 1
    ensures Size(f') == Size(f) - 1
  {
    var a := PickMin(f);
    var b := PickMin(a.rest);
    b.rest.(nodes := b.rest.nodes + [Join(a.tree, b.tree)])
  }

  function MergeAll(f: Forest): Tree
    requires Size(f) > 0
    decreases Size(f)
  {
    if Size(f) == 1 then PickMin(f).tree else MergeAll(MergeStep(f))
  }

  // --- Sorting the leaves by frequency, then by symbol ---

  predicate Precedes(a: Tree, b: Tree)
    requires a.Leaf? && b.Leaf?
  {
    a.w < b.w || (a.w == b.w && a.sym <= b.sym)
  }

  predicate AllLeaves(ts: seq<Tree>) {
    forall i :: 0 <= i < |ts| ==> ts[i].Leaf?
  }

  function Insert(t: Tree, ts: seq<Tree>): (r: seq<Tree>)
    requires t.Leaf? && AllLeaves(ts)
    ensures |r| == |ts| + 1 && AllLeaves(r)
    ensures multiset(r) == multiset(ts) + multiset{t}
  {
    if ts == [] then [t]
    else if Precedes(t, ts[0]) then
      assert [t] + ts == [t] + ts;
      [t] + ts
    else
      assert ts == [ts[0]] + ts[1..];
      [ts[0]] + Insert(t, ts[1..])
  }

  function Sort(ts: seq<Tree>): (r: seq<Tree>)
    requires AllLeaves(ts)
    ensures |r| == |ts| && AllLeaves(r)
    ensures multiset(r) == multiset(ts)
  {
    if ts == [] then []
    else
      assert ts == ts[..|ts| - 1] + [ts[|ts| - 1]];
      Insert(ts[|ts| - 1], Sort(ts[..|ts| - 1]))
  }

  predicate Ascending(ts: seq<Tree>) {
    forall i, j :: 0 <= i < j < |ts| ==> ts[i].w <= ts[j].w
  }

  lemma {:induction false} InsertAscending(t: Tree, ts: seq<Tree>)
    requires t.Leaf? && AllLeaves(ts) && Ascending(ts)
    ensures Ascending(Insert(t, ts))
  {
    if ts != [] && !Precedes(t, ts[0]) {
      InsertAscending(t, ts[1..]);
      var r := Insert(t, ts[1..]);
      forall i | 0 <= i < |r| ensures ts[0].w <= r[i].w {
        assert r[i] in multiset(r);
        assert r[i] == t || r[i] in ts[1..];
      }
    }
  }

  lemma {:induction false} SortAscending(ts: seq<Tree>)
    requires AllLeaves(ts)
    ensures Ascending(Sort(ts))
  {
    if ts != [] {
      SortAscending(ts[..|ts| - 1]);
      InsertAscending(ts[|ts| - 1], Sort(ts[..|ts| - 1]));
    }
  }

  // --- Symbols are neither lost nor duplicated ---

  function Syms(t: Tree): multiset<nat> {
    match t
    case Leaf(_, s) => multiset{s}
    case Node(_, l, r) => Syms(l) + Syms(r)
  }

  function AllSyms(ts: seq<Tree>): multiset<nat> {
    if |ts| == 0 then multiset{} else Syms(ts[0]) + AllSyms(ts[1..])
  }

  lemma {:induction false} AllSymsConcat(a: seq<Tree>, b: seq<Tree>)
    ensures AllSyms(a + b) == AllSyms(a) + AllSyms(b)
  {
    hide Syms;
    if a == [] {
      assert a + b == b;
    } else {
      AllSymsConcat(a[1..], b);
      assert (a + b)[1..] == a[1..] + b;
    }
  }

  function ForestSyms(f: Forest): multiset<nat> {
    AllSyms(f.leaves) + AllSyms(f.nodes)
  }

  lemma {:induction false} PickMinSyms(f: Forest)
    requires Size(f) > 0
    ensures ForestSyms(f) == Syms(PickMin(f).tree) + ForestSyms(PickMin(f).rest)
  {
  }

  lemma {:induction false} MergeStepSyms(f: Forest)
    requires Size(f) > 1
    ensures ForestSyms(MergeStep(f)) == ForestSyms(f)
  {
    var a := PickMin(f);
    var b := PickMin(a.rest);
    var j := Join(a.tree, b.tree);
    PickMinSyms(f);
    PickMinSyms(a.rest);
    AllSymsConcat(b.rest.nodes, [j]);
    assert AllSyms([j]) == Syms(j) by { assert [j][1..] == []; }
  }

  lemma {:induction false} MergeAllSyms(f: Forest)
    requires Size(f) > 0
    ensures Syms(MergeAll(f)) == ForestSyms(f)
    decreases Size(f)
  {
    if Size(f) == 1 {
      PickMinSyms(f);
      var rest := PickMin(f).rest;
      assert rest.leaves == [] && rest.nodes == [];
    } else {
      MergeStepSyms(f);
      MergeAllSyms(MergeStep(f));
    }
  }

  // --- A tree of height h weighs at least the (h+2)-nd Fibonacci number ---

  function Fib(n: nat): nat {
    if n < 2 then n else Fib(n - 1) + Fib(n - 2)
  }

  function LeastWeight(h: nat): nat {
    if Fib(h + 2) > U32_MAX then U32_MAX else Fib(h + 2)
  }

  predicate Tame(t: Tree) {
    && 1 <= t.w <= U32_MAX && t.w >= LeastWeight(Height(t))
    && (t.Node? ==> t.w == SaturatingAdd(t.left.w, t.right.w) && Tame(t.left) && Tame(t.right))
  }

  /** Every weight waiting in the queues is at least `last`, the last weight picked, and every weight
      already below a merged tree is at most `last`. */
  predicate Waiting(ts: seq<Tree>, last: nat) {
    && Ascending(ts)
    && (forall i :: 0 <= i < |ts| ==> Tame(ts[i]) && last <= ts[i].w)
    && (forall i :: 0 <= i < |ts| && ts[i].Node? ==> ts[i].left.w <= last && ts[i].right.w <= last)
  }

  predicate InOrder(f: Forest, last: nat) {
    && Waiting(f.leaves, last) && Waiting(f.nodes, last) && AllLeaves(f.leaves)
    && forall i :: 0 <= i < |f.nodes| ==> f.nodes[i].Node?
  }

  lemma {:induction false} PickMinInOrder(f: Forest, last: nat)
    requires Size(f) > 0 && InOrder(f, last)
    ensures var p := PickMin(f);
            && last <= p.tree.w && InOrder(p.rest, p.tree.w) && Tame(p.tree)
            && (p.tree.Node? ==> p.tree.left.w <= last && p.tree.right.w <= last)
  {
  }

  lemma {:induction false} LeastWeightStep(h: nat)
    ensures LeastWeight(h + 2) <= SaturatingAdd(LeastWeight(h + 1), LeastWeight(h))
  {
  }

  /** `x` is the higher of the two trees joined; its own higher child was picked before `y`. */
  lemma {:induction false} JoinHeavy(x: Tree, y: Tree, w: nat)
    requires Tame(x) && Tame(y) && Height(x) >= Height(y) && w == SaturatingAdd(x.w, y.w)
    requires x.Node? ==> x.left.w <= y.w && x.right.w <= y.w
    ensures w >= LeastWeight(Height(x) + 1)
  {
    if x.Leaf? {
      assert Fib(3) == 2;
    } else {
      var c := if Height(x.left) >= Height(x.right) then x.left else x.right;
      LeastWeightStep(Height(c));
      assert y.w >= LeastWeight(Height(c)) && x.w >= LeastWeight(Height(c) + 1);
    }
  }

  lemma {:induction false} JoinTame(a: Tree, b: Tree, last: nat)
    requires Tame(a) && Tame(b) && last <= a.w <= b.w
    requires a.Node? ==> a.left.w <= last && a.right.w <= last
    requires b.Node? ==> b.left.w <= a.w && b.right.w <= a.w
    ensures Tame(Join(a, b))
  {
    if Height(a) >= Height(b) {
      JoinHeavy(a, b, Join(a, b).w);
    } else {
      JoinHeavy(b, a, Join(a, b).w);
    }
  }

  lemma {:induction false} EnqueueInOrder(nodes: seq<Tree>, last: nat, j: Tree)
    requires Waiting(nodes, last) && Tame(j) && j.Node?
    requires j.left.w <= last && j.right.w == last
    requires forall i :: 0 <= i < |nodes| ==>
               nodes[i].Node? && nodes[i].left.w <= j.left.w && nodes[i].right.w <= j.left.w
    ensures Waiting(nodes + [j], last)
  {
    assert Tame(j.right);
    forall i | 0 <= i < |nodes| ensures nodes[i].w <= j.w {
      assert Tame(nodes[i]);
    }
  }

  lemma {:induction false} MergeStepInOrder(f: Forest, last: nat) returns (last': nat)
    requires Size(f) > 1 && InOrder(f, last)
    ensures InOrder(MergeStep(f), last')
  {
    var a := PickMin(f);
    var b := PickMin(a.rest);
    PickMinInOrder(f, last);
    PickMinInOrder(a.rest, a.tree.w);
    JoinTame(a.tree, b.tree, last);
    last' := b.tree.w;
    PickMinKeeps(f);
    PickMinKeeps(a.rest);
    EnqueueInOrder(b.rest.nodes, last', Join(a.tree, b.tree));
  }

  lemma {:induction false} PickMinKeeps(f: Forest)
    requires Size(f) > 0
    ensures forall t :: t in PickMin(f).rest.nodes ==> t in f.nodes
  {
  }

  lemma {:induction false} MergeAllTame(f: Forest, last: nat)
    requires Size(f) > 0 && InOrder(f, last)
    ensures Tame(MergeAll(f))
    decreases Size(f)
  {
    if Size(f) == 1 {
      PickMinInOrder(f, last);
    } else {
      var last' := MergeStepInOrder(f, last);
      MergeAllTame(MergeStep(f), last');
    }
  }

  // --- With all frequencies 1 the tree is shallow ---

  predicate UnitLeaves(t: Tree) {
    match t
    case Leaf(w, _) => w == 1
    case Node(_, l, r) => UnitLeaves(l) && UnitLeaves(r)
  }

  predicate AllUnit(ts: seq<Tree>) {
    forall i :: 0 <= i < |ts| ==> UnitLeaves(ts[i])
  }

  lemma {:induction false} MergeAllUnit(f: Forest)
    requires Size(f) > 0 && AllUnit(f.leaves) && AllUnit(f.nodes)
    ensures UnitLeaves(MergeAll(f))
    decreases Size(f)
  {
    if Size(f) > 1 {
      MergeAllUnit(MergeStep(f));
    }
  }

  lemma {:induction false} UnitWeight(t: Tree)
    requires UnitLeaves(t) && Tame(t)
    ensures t.w <= |Syms(t)|
  {
    if t.Node? {
      UnitWeight(t.left);
      UnitWeight(t.right);
    }
  }

  lemma {:induction false} FibMonotone(a: nat, b: nat)
    requires a <= b
    ensures Fib(a) <= Fib(b)
  {
    if a < b {
      FibMonotone(a, b - 1);
    }
  }

  lemma {:induction false} AllSymsSize(ts: seq<Tree>)
    requires AllLeaves(ts)
    ensures |AllSyms(ts)| == |ts|
  {
    if ts != [] {
      AllSymsSize(ts[1..]);
    }
  }

  predicate Usable(ts: seq<Tree>) {
    && AllLeaves(ts) && 2 <= |ts| <= MAX_SYMBOLS
    && forall i :: 0 <= i < |ts| ==> 1 <= ts[i].w <= U32_MAX
  }

  function TreeOf(ts: seq<Tree>): Tree
    requires Usable(ts)
  {
    MergeAll(Forest(Sort(ts), []))
  }

  lemma {:induction false} SortUsable(ts: seq<Tree>)
    requires Usable(ts)
    ensures Usable(Sort(ts))
  {
    forall i | 0 <= i < |ts| ensures 1 <= Sort(ts)[i].w <= U32_MAX {
      assert Sort(ts)[i] in multiset(ts);
    }
  }

  lemma {:induction false} UnitTree(ts: seq<Tree>)
    requires Usable(ts) && forall i :: 0 <= i < |ts| ==> ts[i].w == 1
    ensures Tame(TreeOf(ts)) && UnitLeaves(TreeOf(ts))
  {
    var s := Sort(ts);
    SortUsable(ts);
    SortAscending(ts);
    forall i | 0 <= i < |s| ensures s[i].w == 1 {
      assert s[i] in multiset(ts);
    }
    var f := Forest(s, []);
    assert InOrder(f, 1);
    MergeAllTame(f, 1);
    MergeAllUnit(f);
  }

  lemma {:induction false} HeightBound(t: Tree)
    requires Tame(t) && t.w <= MAX_SYMBOLS
    ensures Height(t) <= MAX_CODEWORD_LEN
  {
    if Height(t) > MAX_CODEWORD_LEN {
      FibMonotone(18, Height(t) + 2);
      FibOf18();
    }
  }

  /** The repeated halving ends: once every frequency is 1 the tree of at most 799 leaves is at most
      15 deep, because depth 16 would need Fib(18) = 2584 of them. */
  lemma {:induction false} UnitTreeShallow(ts: seq<Tree>)
    requires Usable(ts) && forall i :: 0 <= i < |ts| ==> ts[i].w == 1
    ensures Height(TreeOf(ts)) <= MAX_CODEWORD_LEN
  {
    UnitTree(ts);
    MergeAllSyms(Forest(Sort(ts), []));
    AllSymsSize(Sort(ts));
    UnitWeight(TreeOf(ts));
    HeightBound(TreeOf(ts));
  }

  lemma {:induction false} FibOf18()
    ensures Fib(18) == 2584
  {
    assert Fib(8) == 21 && Fib(9) == 34;
    assert Fib(10) == 55 && Fib(11) == 89;
    assert Fib(12) == 144 && Fib(13) == 233;
    assert Fib(14) == 377 && Fib(15) == 610;
    assert Fib(16) == 987 && Fib(17) == 1597;
  }

  // --- Lengths from a tree ---

  /** Write the depth of every leaf below `t`, which hangs at depth `d`. */
  function Assign(t: Tree, d: nat, lens: seq<nat>): (r: seq<nat>)
    ensures |r| == |lens|
  {
    match t
    case Leaf(_, s) => if s < |lens| then lens[s := d] else lens
    case Node(_, l, r) => Assign(l, d + 1, Assign(r, d + 1, lens))
  }

  function Zero(n: nat): (z: seq<nat>)
    ensures |z| == n && forall i :: 0 <= i < n ==> z[i] == 0
  {
    seq(n, i => 0)
  }

  function Halve(ts: seq<Tree>): (r: seq<Tree>)
    requires AllLeaves(ts)
    ensures |r| == |ts| && AllLeaves(r)
    ensures forall i :: 0 <= i < |ts| ==> r[i] == Leaf((ts[i].w + 1) / 2, ts[i].sym)
  {
    seq(|ts|, i requires 0 <= i < |ts| => Leaf((ts[i].w + 1) / 2, ts[i].sym))
  }

  function WeightSum(ts: seq<Tree>): nat {
    if |ts| == 0 then 0 else WeightSum(ts[..|ts| - 1]) + ts[|ts| - 1].w
  }

  lemma {:induction false} HalveShrinks(ts: seq<Tree>)
    requires AllLeaves(ts) && forall i :: 0 <= i < |ts| ==> 1 <= ts[i].w
    ensures WeightSum(Halve(ts)) <= WeightSum(ts)
    ensures (exists i :: 0 <= i < |ts| && ts[i].w != 1) ==> WeightSum(Halve(ts)) < WeightSum(ts)
  {
    if ts != [] {
      var p := ts[..|ts| - 1];
      HalveShrinks(p);
      assert Halve(ts)[..|ts| - 1] == Halve(p);
      assert forall i :: 0 <= i < |p| ==> p[i] == ts[i];
    }
  }

  lemma {:induction false} WeightSumConcat(a: seq<Tree>, b: seq<Tree>)
    ensures WeightSum(a + b) == WeightSum(a) + WeightSum(b)
  {
    if b == [] {
      assert a + b == a;
    } else {
      WeightSumConcat(a, b[..|b| - 1]);
      assert (a + b)[..|a + b| - 1] == a + b[..|b| - 1];
    }
  }

  lemma {:induction false} InsertWeightSum(t: Tree, ts: seq<Tree>)
    requires t.Leaf? && AllLeaves(ts)
    ensures WeightSum(Insert(t, ts)) == WeightSum(ts) + t.w
  {
    assert WeightSum([t]) == t.w by { assert [t][..0] == []; }
    if ts == [] {
    } else if Precedes(t, ts[0]) {
      WeightSumConcat([t], ts);
    } else {
      InsertWeightSum(t, ts[1..]);
      WeightSumConcat([ts[0]], Insert(t, ts[1..]));
      WeightSumConcat([ts[0]], ts[1..]);
      assert ts == [ts[0]] + ts[1..];
    }
  }

  lemma {:induction false} SortWeightSum(ts: seq<Tree>)
    requires AllLeaves(ts)
    ensures WeightSum(Sort(ts)) == WeightSum(ts)
  {
    if ts != [] {
      SortWeightSum(ts[..|ts| - 1]);
      InsertWeightSum(ts[|ts| - 1], Sort(ts[..|ts| - 1]));
    }
  }

  lemma {:induction false} RetryProgress(ts: seq<Tree>)
    requires Usable(ts) && Height(TreeOf(ts)) > MAX_CODEWORD_LEN
    ensures Usable(Halve(Sort(ts))) && WeightSum(Halve(Sort(ts))) < WeightSum(ts)
  {
    SortUsable(ts);
    SortWeightSum(ts);
    HalveShrinks(Sort(ts));
    if forall i :: 0 <= i < |ts| ==> ts[i].w == 1 {
      UnitTreeShallow(ts);
    } else {
      var i :| 0 <= i < |ts| && ts[i].w != 1;
      assert ts[i] in multiset(Sort(ts));
    }
  }

  /** Build the tree, and start again with halved frequencies while it is too deep. */
  function LimitedLens(ts: seq<Tree>, n: nat): (lens: seq<nat>)
    requires Usable(ts)
    ensures |lens| == n
    decreases WeightSum(ts)
  {
    if Height(TreeOf(ts)) <= MAX_CODEWORD_LEN then Assign(TreeOf(ts), 0, Zero(n))
    else
      RetryProgress(ts);
      LimitedLens(Halve(Sort(ts)), n)
  }

  /** The symbols with a nonzero frequency, as leaves. */
  function Active(freqs: seq<nat>): (ts: seq<Tree>)
    ensures AllLeaves(ts) && |ts| <= |freqs|
    ensures forall i :: 0 <= i < |ts| ==> ts[i].sym < |freqs| && ts[i].w == freqs[ts[i].sym] > 0
  {
    if |freqs| == 0 then []
    else
      var n := |freqs| - 1;
      Active(freqs[..n]) + if freqs[n] > 0 then [Leaf(freqs[n], n)] else []
  }

  predicate ValidFreqs(freqs: seq<nat>) {
    |freqs| <= MAX_SYMBOLS && forall i :: 0 <= i < |freqs| ==> freqs[i] <= U32_MAX
  }

  function CodeLens(freqs: seq<nat>): (lens: seq<nat>)
    requires ValidFreqs(freqs)
    ensures |lens| == |freqs|
  {
    var ts := Active(freqs);
    if |ts| == 0 then Zero(|freqs|)
    else if |ts| == 1 then Zero(|freqs|)[ts[0].sym := 1]
    else LimitedLens(ts, |freqs|)
  }

  // --- The lengths form a complete code ---

  lemma {:induction false} KraftUpdate(lens: seq<nat>, s: nat, d: nat)
    requires s < |lens| && lens[s] == 0
    ensures KraftSum(lens[s := d]) == KraftSum(lens) + Share(d)
  {
    var n := |lens| - 1;
    if s == n {
      assert lens[s := d][..n] == lens[..n];
    } else {
      KraftUpdate(lens[..n], s, d);
      assert lens[s := d][..n] == lens[..n][s := d];
    }
  }

  predicate Distinct(m: multiset<nat>) {
    forall s :: s in m ==> m[s] == 1
  }

  lemma {:induction false} AssignElsewhere(t: Tree, d: nat, lens: seq<nat>, s: nat)
    requires s < |lens| && s !in Syms(t)
    ensures Assign(t, d, lens)[s] == lens[s]
  {
    if t.Node? {
      AssignElsewhere(t.right, d + 1, lens, s);
      AssignElsewhere(t.left, d + 1, Assign(t.right, d + 1, lens), s);
    }
  }

  predicate Free(m: multiset<nat>, lens: seq<nat>) {
    forall s :: s in m ==> s < |lens| && lens[s] == 0
  }

  lemma {:induction false} StaysFree(m: multiset<nat>, t: Tree, d: nat, lens: seq<nat>)
    requires Free(m, lens) && forall s :: s in m ==> s !in Syms(t)
    ensures Free(m, Assign(t, d, lens))
  {
    forall s | s in m ensures s < |lens| && Assign(t, d, lens)[s] == 0 {
      AssignElsewhere(t, d, lens, s);
    }
  }

  /** A subtree at depth `d` takes exactly the share of a code of length `d`. */
  lemma {:induction false} AssignKraft(t: Tree, d: nat, lens: seq<nat>)
    requires d + Height(t) <= MAX_CODEWORD_LEN && (d > 0 || t.Node?)
    requires Distinct(Syms(t)) && Free(Syms(t), lens) && ValidLens(lens)
    ensures ValidLens(Assign(t, d, lens))
    ensures KraftSum(Assign(t, d, lens)) == KraftSum(lens) + Pow2(MAX_CODEWORD_LEN - d)
  {
    hide KraftSum, Pow2, Distinct;
    if t.Leaf? {
      assert t.sym in Syms(t);
      KraftUpdate(lens, t.sym, d);
    } else {
      var mid := Assign(t.right, d + 1, lens);
      NodeParts(t, lens);
      AssignKraft(t.right, d + 1, lens);
      StaysFree(Syms(t.left), t.right, d + 1, lens);
      AssignKraft(t.left, d + 1, mid);
      HalfShare(d);
    }
  }

  lemma {:induction false} HalfShare(d: nat)
    requires d < MAX_CODEWORD_LEN
    ensures Pow2(MAX_CODEWORD_LEN - d) == 2 * Pow2(MAX_CODEWORD_LEN - (d + 1))
  {
  }

  lemma {:induction false} NodeParts(t: Tree, lens: seq<nat>)
    requires t.Node? && Distinct(Syms(t)) && Free(Syms(t), lens)
    ensures Distinct(Syms(t.left)) && Distinct(Syms(t.right))
    ensures Free(Syms(t.left), lens) && Free(Syms(t.right), lens)
    ensures forall s :: s in Syms(t.left) ==> s !in Syms(t.right)
  {
    DistinctParts(Syms(t.left), Syms(t.right));
    FreeParts(Syms(t.left), Syms(t.right), lens);
  }

  lemma {:induction false} FreeParts(a: multiset<nat>, b: multiset<nat>, lens: seq<nat>)
    requires Free(a + b, lens)
    ensures Free(a, lens) && Free(b, lens)
  {
    assert forall s :: s in a ==> s in a + b;
    assert forall s :: s in b ==> s in a + b;
  }

  lemma {:induction false} AssignPositive(t: Tree, d: nat, lens: seq<nat>, s: nat)
    requires s in Syms(t) && s < |lens| && (d > 0 || t.Node?)
    ensures Assign(t, d, lens)[s] > 0
  {
    if t.Node? {
      if s in Syms(t.left) {
        AssignPositive(t.left, d + 1, Assign(t.right, d + 1, lens), s);
      } else {
        AssignPositive(t.right, d + 1, lens, s);
        AssignElsewhere(t.left, d + 1, Assign(t.right, d + 1, lens), s);
      }
    }
  }

  lemma {:induction false} DistinctParts(a: multiset<nat>, b: multiset<nat>)
    requires Distinct(a + b)
    ensures Distinct(a) && Distinct(b)
    ensures forall s :: s in a ==> s !in b
  {
    forall s | s in a ensures a[s] == 1 && s !in b {
      assert s in a + b;
    }
    forall s | s in b ensures b[s] == 1 {
      assert s in a + b;
    }
  }

  /** The leaves stand for distinct symbols below `n`. */
  predicate Labelled(ts: seq<Tree>, n: nat) {
    Distinct(AllSyms(ts)) && forall s :: s in AllSyms(ts) ==> s < n
  }

  lemma {:induction false} InsertSyms(t: Tree, ts: seq<Tree>)
    requires t.Leaf? && AllLeaves(ts)
    ensures AllSyms(Insert(t, ts)) == AllSyms(ts) + Syms(t)
  {
    hide Syms;
    if ts != [] && !Precedes(t, ts[0]) {
      InsertSyms(t, ts[1..]);
      assert Insert(t, ts)[1..] == Insert(t, ts[1..]);
    } else {
      assert Insert(t, ts)[1..] == ts;
    }
  }

  lemma {:induction false} AllSymsLast(ts: seq<Tree>)
    requires ts != []
    ensures AllSyms(ts) == AllSyms(ts[..|ts| - 1]) + Syms(ts[|ts| - 1])
  {
    var t := ts[|ts| - 1];
    AllSymsConcat(ts[..|ts| - 1], [t]);
    assert ts == ts[..|ts| - 1] + [t];
    assert AllSyms([t]) == Syms(t) by { assert [t][1..] == []; }
  }

  lemma {:induction false} SortSyms(ts: seq<Tree>)
    requires AllLeaves(ts)
    ensures AllSyms(Sort(ts)) == AllSyms(ts)
  {
    if ts != [] {
      SortSyms(ts[..|ts| - 1]);
      InsertSyms(ts[|ts| - 1], Sort(ts[..|ts| - 1]));
      AllSymsLast(ts);
    }
  }

  lemma {:induction false} HalveSyms(ts: seq<Tree>)
    requires AllLeaves(ts)
    ensures AllSyms(Halve(ts)) == AllSyms(ts)
  {
    if ts != [] {
      HalveSyms(ts[1..]);
      assert Halve(ts)[1..] == Halve(ts[1..]);
    }
  }

  lemma {:induction false} TreeSyms(ts: seq<Tree>)
    requires Usable(ts)
    ensures Syms(TreeOf(ts)) == AllSyms(ts) && TreeOf(ts).Node?
  {
    MergeAllSyms(Forest(Sort(ts), []));
    SortSyms(ts);
    AllSymsSize(ts);
    SeveralSyms(TreeOf(ts));
  }

  lemma {:induction false} SeveralSyms(t: Tree)
    requires |Syms(t)| != 1
    ensures t.Node?
  {
  }

  /** The main result on lengths: a complete prefix code in which every active symbol has a code. */
  lemma {:induction false} LimitedLensComplete(ts: seq<Tree>, n: nat)
    requires Usable(ts) && Labelled(ts, n)
    ensures Complete(LimitedLens(ts, n))
    ensures forall s :: s in AllSyms(ts) ==> LimitedLens(ts, n)[s] > 0
    decreases WeightSum(ts)
  {
    hide TreeOf, AllSyms, Syms, Height, Assign, Halve, Sort, KraftSum, WeightSum;
    var t := TreeOf(ts);
    TreeSyms(ts);
    if Height(t) <= MAX_CODEWORD_LEN {
      KraftOfZero(n);
      AssignKraft(t, 0, Zero(n));
      forall s | s in AllSyms(ts) ensures LimitedLens(ts, n)[s] > 0 {
        AssignPositive(t, 0, Zero(n), s);
      }
    } else {
      RetryProgress(ts);
      SortSyms(ts);
      HalveSyms(Sort(ts));
      LimitedLensComplete(Halve(Sort(ts)), n);
    }
  }

  lemma {:induction false} KraftOfZero(n: nat)
    ensures KraftSum(Zero(n)) == 0
  {
    if n > 0 {
      KraftOfZero(n - 1);
      assert Zero(n)[..n - 1] == Zero(n - 1);
    }
  }

  lemma {:induction false} ActiveStep(freqs: seq<nat>)
    requires |freqs| > 0
    ensures var n := |freqs| - 1;
            AllSyms(Active(freqs)) ==
              AllSyms(Active(freqs[..n])) + if freqs[n] > 0 then multiset{n} else multiset{}
  {
    var n := |freqs| - 1;
    var leaf := Leaf(freqs[n], n);
    AllSymsConcat(Active(freqs[..n]), [leaf]);
    assert AllSyms([leaf]) == multiset{n} by { assert [leaf][1..] == []; }
    assert Active(freqs[..n]) + [] == Active(freqs[..n]);
  }

  lemma {:induction false} ActiveLabelled(freqs: seq<nat>)
    ensures Labelled(Active(freqs), |freqs|)
  {
    if |freqs| > 0 {
      var n := |freqs| - 1;
      ActiveLabelled(freqs[..n]);
      ActiveStep(freqs);
      assert n !in AllSyms(Active(freqs[..n]));
    }
  }

  lemma {:induction false} ActiveHas(freqs: seq<nat>, s: nat)
    requires s < |freqs| && freqs[s] > 0
    ensures s in AllSyms(Active(freqs))
  {
    ActiveStep(freqs);
    if s < |freqs| - 1 {
      ActiveHas(freqs[..|freqs| - 1], s);
    }
  }

  /** `compute` on any frequencies: two or more active symbols give a complete code, one or none an
      undersubscribed one; every active symbol can be coded. */
  lemma {:induction false} CodeLensPrefixCode(freqs: seq<nat>)
    requires ValidFreqs(freqs)
    ensures Subscribed(CodeLens(freqs))
    ensures |Active(freqs)| >= 2 ==> Complete(CodeLens(freqs))
    ensures forall s :: 0 <= s < |freqs| && freqs[s] > 0 ==> CodeLens(freqs)[s] > 0
  {
    hide KraftSum, Pow2, LimitedLens, Active, AllSyms, Labelled;
    var ts := Active(freqs);
    ActiveLabelled(freqs);
    NoneComplete(|freqs|);
    if |ts| == 1 {
      LoneSymbol(ts, |freqs|);
    } else if |ts| >= 2 {
      LimitedLensComplete(ts, |freqs|);
    }
    forall s | 0 <= s < |freqs| && freqs[s] > 0 ensures CodeLens(freqs)[s] > 0 {
      ActiveHas(freqs, s);
      NoSymbols(ts);
    }
  }

  lemma {:induction false} NoneComplete(n: nat)
    ensures Subscribed(Zero(n))
  {
    KraftOfZero(n);
  }

  lemma {:induction false} NoSymbols(ts: seq<Tree>)
    ensures |ts| == 0 ==> AllSyms(ts) == multiset{}
  {
  }

  lemma {:induction false} LoneSymbol(ts: seq<Tree>, n: nat)
    requires |ts| == 1 && ts[0].Leaf? && ts[0].sym < n
    ensures Subscribed(Zero(n)[ts[0].sym := 1]) && AllSyms(ts) == multiset{ts[0].sym}
  {
    hide KraftSum, Pow2;
    KraftOfZero(n);
    KraftUpdate(Zero(n), ts[0].sym, 1);
    assert ts[1..] == [] && AllSyms(ts) == multiset{ts[0].sym} by { AllOfOne(ts); }
    Pow2Monotone(14, 15);
  }

  lemma {:induction false} AllOfOne(ts: seq<Tree>)
    requires |ts| == 1 && ts[0].Leaf?
    ensures ts[1..] == [] && AllSyms(ts) == multiset{ts[0].sym}
  {
    assert ts[1..] == [];
  }
}
