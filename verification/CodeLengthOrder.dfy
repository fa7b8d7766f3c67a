/** The merge hands out lengths in order: what comes first in the sorted leaves never has the shorter code. */
module CodeLengthOrder {
  import opened CodeLengths

  /** How deep the symbol `s` lies in a tree. */
  function DepthIn(t: Tree, s: nat): nat {
    match t
    case Leaf(_, _) => 0
    case Node(_, l, r) => 1 + if s in Syms(l) then DepthIn(l, s) else DepthIn(r, s)
  }

  lemma {:induction false} AssignIsDepth(t: Tree, d: nat, lens: seq<nat>, s: nat)
    requires Distinct(Syms(t)) && s in Syms(t) && s < |lens|
    ensures Assign(t, d, lens)[s] == d + DepthIn(t, s)
  {
    hide Distinct;
    if t.Node? {
      DistinctParts(Syms(t.left), Syms(t.right));
      if s in Syms(t.left) {
        AssignIsDepth(t.left, d + 1, Assign(t.right, d + 1, lens), s);
      } else {
        AssignIsDepth(t.right, d + 1, lens, s);
        AssignElsewhere(t.left, d + 1, Assign(t.right, d + 1, lens), s);
      }
    }
  }

  /** The symbols of `t` hang `d` deeper in `root` than in `t`. */
  ghost predicate HangsAt(root: Tree, t: Tree, d: nat) {
    forall s :: s in Syms(t) ==> DepthIn(root, s) == d + DepthIn(t, s)
  }

  /** The depths at which the trees of a forest end up. */
  datatype Levels = Levels(leaves: seq<nat>, nodes: seq<nat>)

  ghost predicate HangAt(root: Tree, ts: seq<Tree>, ds: seq<nat>) {
    |ts| == |ds| && forall i: nat :: i < |ts| ==> HangsAt(root, ts[i], ds[i])
  }

  predicate Falling(ds: seq<nat>) {
    forall i: nat, j: nat :: i < j < |ds| ==> ds[i] >= ds[j]
  }

  predicate AllUpTo(ds: seq<nat>, top: nat) {
    forall i: nat :: i < |ds| ==> ds[i] <= top
  }

  /** Both queues go from deep to shallow, and nothing is more than one level below the newest merged tree. */
  ghost predicate Settles(f: Forest, l: Levels, root: Tree) {
    && HangAt(root, f.leaves, l.leaves) && HangAt(root, f.nodes, l.nodes)
    && Falling(l.leaves) && Falling(l.nodes)
    && (|l.nodes| > 0 ==> var top := l.nodes[|l.nodes| - 1] + 1; AllUpTo(l.leaves, top) && AllUpTo(l.nodes, top))
  }

  lemma {:induction false} JoinHangs(root: Tree, a: Tree, b: Tree, d: nat)
    requires HangsAt(root, Join(a, b), d) && Distinct(Syms(a) + Syms(b))
    ensures HangsAt(root, a, d + 1) && HangsAt(root, b, d + 1)
  {
    hide Distinct;
    DistinctParts(Syms(a), Syms(b));
    forall s | s in Syms(a) ensures DepthIn(root, s) == d + 1 + DepthIn(a, s) {
      assert s in Syms(Join(a, b));
    }
    forall s | s in Syms(b) ensures DepthIn(root, s) == d + 1 + DepthIn(b, s) {
      assert s in Syms(Join(a, b));
    }
  }

  /** Before a pick, with the picked tree at depth `d`. */
  function Unpicked(f: Forest, d: nat, l: Levels): Levels
    requires Size(f) > 0
  {
    if |PickMin(f).rest.leaves| < |f.leaves| then l.(leaves := [d] + l.leaves) else l.(nodes := [d] + l.nodes)
  }

  lemma {:induction false} UnpickHangs(f: Forest, d: nat, l: Levels, root: Tree)
    requires Size(f) > 0 && HangsAt(root, PickMin(f).tree, d)
    requires HangAt(root, PickMin(f).rest.leaves, l.leaves) && HangAt(root, PickMin(f).rest.nodes, l.nodes)
    ensures var u := Unpicked(f, d, l); HangAt(root, f.leaves, u.leaves) && HangAt(root, f.nodes, u.nodes)
  {
    hide HangsAt;
  }

  lemma {:induction false} UnpickFalls(f: Forest, d: nat, l: Levels)
    requires Size(f) > 0 && Falling(l.leaves) && Falling(l.nodes) && AllUpTo(l.leaves, d) && AllUpTo(l.nodes, d)
    requires |l.nodes| == |PickMin(f).rest.nodes|
    ensures var u := Unpicked(f, d, l);
            && Falling(u.leaves) && Falling(u.nodes) && AllUpTo(u.leaves, d) && AllUpTo(u.nodes, d)
            && (|u.nodes| > 0 ==> |u.nodes| == |f.nodes| && u.nodes[|u.nodes| - 1] in {d} + (set x | x in l.nodes))
            && (|l.nodes| > 0 ==> u.nodes[|u.nodes| - 1] == l.nodes[|l.nodes| - 1])
            && (|l.nodes| == 0 && |u.nodes| > 0 ==> u.nodes[|u.nodes| - 1] == d)
  {
  }

  lemma {:induction false} MergeLevels(f: Forest) returns (l: Levels)
    requires Size(f) > 0 && Distinct(ForestSyms(f))
    ensures Settles(f, l, MergeAll(f))
    decreases Size(f)
  {
    hide Syms, HangsAt, Distinct, ForestSyms, DepthIn;
    if Size(f) == 1 {
      l := Levels(seq(|f.leaves|, i => 0), seq(|f.nodes|, i => 0));
      LoneHangs(f);
    } else {
      MergeStepSyms(f);
      var l' := MergeLevels(MergeStep(f));
      PairDistinct(f);
      l := Unmerged(f, l', MergeAll(f));
    }
  }

  lemma {:induction false} PairDistinct(f: Forest)
    requires Size(f) > 1 && Distinct(ForestSyms(f))
    ensures var a := PickMin(f); var b := PickMin(a.rest); Distinct(Syms(a.tree) + Syms(b.tree))
  {
    hide Distinct, ForestSyms, Syms, PickMin;
    var a := PickMin(f);
    var b := PickMin(a.rest);
    PickMinSyms(f);
    PickMinSyms(a.rest);
    DistinctPair(Syms(a.tree), Syms(b.tree), ForestSyms(b.rest), ForestSyms(f));
  }

  /** The levels before a merge from those after it: the two trees picked hang below the one they made. */
  lemma {:induction false} Unmerged(f: Forest, l': Levels, root: Tree) returns (l: Levels)
    requires Size(f) > 1 && Settles(MergeStep(f), l', root)
    requires var a := PickMin(f); var b := PickMin(a.rest); Distinct(Syms(a.tree) + Syms(b.tree))
    ensures Settles(f, l, root)
  {
    hide PickMin, Unpicked, HangsAt, Distinct, Syms, Join;
    var a := PickMin(f);
    var b := PickMin(a.rest);
    var n := |l'.nodes| - 1;
    JoinHangs(root, a.tree, b.tree, l'.nodes[n]);
    var d := l'.nodes[n] + 1;
    var back := Levels(l'.leaves, l'.nodes[..n]);
    FrontHangs(root, b.rest.nodes, Join(a.tree, b.tree), l'.nodes);
    UnpickHangs(a.rest, d, back, root);
    UnpickFalls(a.rest, d, back);
    var one := Unpicked(a.rest, d, back);
    UnpickHangs(f, d, one, root);
    UnpickFalls(f, d, one);
    l := Unpicked(f, d, one);
  }

  lemma {:induction false} FrontHangs(root: Tree, ts: seq<Tree>, t: Tree, ds: seq<nat>)
    requires HangAt(root, ts + [t], ds)
    ensures HangAt(root, ts, ds[..|ds| - 1]) && HangsAt(root, t, ds[|ds| - 1])
  {
    hide HangsAt;
    assert forall i: nat :: i < |ts| ==> (ts + [t])[i] == ts[i];
    assert (ts + [t])[|ts|] == t;
  }

  lemma {:induction false} LoneHangs(f: Forest)
    requires Size(f) == 1
    ensures HangAt(MergeAll(f), f.leaves, seq(|f.leaves|, i => 0))
    ensures HangAt(MergeAll(f), f.nodes, seq(|f.nodes|, i => 0))
  {
  }

  lemma {:induction false} DistinctPair(a: multiset<nat>, b: multiset<nat>, rest: multiset<nat>, all: multiset<nat>)
    requires Distinct(all) && all == a + (b + rest)
    ensures Distinct(a + b)
  {
    assert all == (a + b) + rest;
    DistinctParts(a + b, rest);
  }

  // --- Sorted leaves ---

  predicate Before(a: Tree, b: Tree)
    requires a.Leaf? && b.Leaf?
  {
    a.w < b.w || (a.w == b.w && a.sym < b.sym)
  }

  predicate InSortedOrder(ts: seq<Tree>) {
    AllLeaves(ts) && forall i: nat, j: nat :: i < j < |ts| ==> Before(ts[i], ts[j])
  }

  lemma {:induction false} InsertOrdered(t: Tree, ts: seq<Tree>)
    requires t.Leaf? && InSortedOrder(ts) && forall i: nat :: i < |ts| ==> ts[i].sym != t.sym
    ensures InSortedOrder(Insert(t, ts))
  {
    if ts != [] && !Precedes(t, ts[0]) {
      InsertOrdered(t, ts[1..]);
      var r := Insert(t, ts[1..]);
      forall i: nat | i < |r| ensures Before(ts[0], r[i]) {
        assert r[i] in multiset(r);
        assert r[i] == t || r[i] in ts[1..];
      }
    }
  }

  /** Strictly by weight, and by symbol number where weights are equal. */
  lemma {:induction false} SortOrdered(ts: seq<Tree>)
    requires AllLeaves(ts) && forall i: nat, j: nat :: i < j < |ts| ==> ts[i].sym != ts[j].sym
    ensures InSortedOrder(Sort(ts))
  {
    if ts != [] {
      var n := |ts| - 1;
      SortOrdered(ts[..n]);
      var s := Sort(ts[..n]);
      forall i: nat | i < |s| ensures s[i].sym != ts[n].sym {
        assert s[i] in multiset(ts[..n]);
        var k :| 0 <= k < n && ts[..n][k] == s[i];
        assert ts[k].sym != ts[n].sym;
      }
      InsertOrdered(ts[n], s);
    }
  }

  /** Later in the sorted order means no longer code. */
  lemma {:induction false} TreeOrder(ts: seq<Tree>, n: nat, i: nat, j: nat)
    requires Usable(ts) && Labelled(ts, n) && i < j < |ts|
    requires Sort(ts)[i].sym < n && Sort(ts)[j].sym < n
    ensures var lens := Assign(TreeOf(ts), 0, Zero(n)); lens[Sort(ts)[i].sym] >= lens[Sort(ts)[j].sym]
  {
    hide Sort, MergeAll, Assign, Distinct, AllSyms, DepthIn;
    var f := Forest(Sort(ts), []);
    SortSyms(ts);
    ForestOfLeaves(f);
    TreeSyms(ts);
    var l := MergeLevels(f);
    LeafDepth(ts, n, l, i);
    LeafDepth(ts, n, l, j);
  }

  lemma {:induction false} ForestOfLeaves(f: Forest)
    requires f.nodes == []
    ensures ForestSyms(f) == AllSyms(f.leaves)
  {
  }

  lemma {:induction false} LeafDepth(ts: seq<Tree>, n: nat, l: Levels, i: nat)
    requires Usable(ts) && Labelled(ts, n) && i < |ts| && Sort(ts)[i].sym < n
    requires HangAt(TreeOf(ts), Sort(ts), l.leaves)
    ensures Assign(TreeOf(ts), 0, Zero(n))[Sort(ts)[i].sym] == l.leaves[i]
  {
    hide Sort, TreeOf, Assign, Distinct, AllSyms;
    var t := Sort(ts)[i];
    assert HangsAt(TreeOf(ts), t, l.leaves[i]) && t.sym in Syms(t);
    TreeSyms(ts);
    SortSyms(ts);
    SymAmong(Sort(ts), i);
    AssignIsDepth(TreeOf(ts), 0, Zero(n), t.sym);
  }

  lemma {:induction false} SymAmong(ts: seq<Tree>, i: nat)
    requires AllLeaves(ts) && i < |ts|
    ensures ts[i].sym in AllSyms(ts)
  {
    if i > 0 {
      SymAmong(ts[1..], i - 1);
    }
  }
}
