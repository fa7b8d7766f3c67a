/** Merging the two least trees of a list is optimal whatever order the list is kept in. */
module HeapCost {
  import opened CodeLengths
  import opened CodeCost
  import opened CodeLengthCost

  /** Lengths of some prefix code. */
  ghost predicate PrefixLengths(ds: seq<nat>) {
    exists m: nat :: Fits(ds, m)
  }

  /** `ds` are the lengths of a prefix code, and no prefix code for the weights costs less. */
  ghost predicate Best(ws: seq<nat>, ds: seq<nat>) {
    && |ds| == |ws| && PrefixLengths(ds)
    && forall other :: |other| == |ws| && PrefixLengths(other) ==> Dot(ws, ds) <= Dot(ws, other)
  }

  /** Any code for `ws` gives a code for `cur` that is cheaper by `cost`. */
  ghost predicate Dominates(ws: seq<nat>, cur: seq<nat>, cost: nat) {
    forall ds, m: nat :: |ds| == |ws| && Fits(ds, m) ==> Cheaper(cur, cost, m, Dot(ws, ds))
  }

  ghost predicate Cheaper(cur: seq<nat>, cost: nat, m: nat, total: nat) {
    exists e :: |e| == |cur| && Fits(e, m) && Dot(cur, e) + cost <= total
  }

  lemma {:induction false} DominatesSelf(ws: seq<nat>)
    ensures Dominates(ws, ws, 0)
  {
    hide Fits, Dot;
    forall ds, m: nat | |ds| == |ws| && Fits(ds, m) ensures Cheaper(ws, 0, m, Dot(ws, ds)) {
      assert |ds| == |ws| && Fits(ds, m) && Dot(ws, ds) + 0 <= Dot(ws, ds);
    }
  }

  lemma {:induction false} CheaperMerge(cur: seq<nat>, cost: nat, m: nat, total: nat, i: nat, j: nat)
    requires Cheaper(cur, cost, m, total) && |cur| >= 2 && Least(cur, i) && Least(Without(cur, i), j)
    ensures var w := cur[i] + Without(cur, i)[j];
            Cheaper(Without(Without(cur, i), j) + [w], cost + w, m, total)
  {
    hide Fits, Dot, Least, Without;
    var e :| |e| == |cur| && Fits(e, m) && Dot(cur, e) + cost <= total;
    var e' := MergeCost(cur, i, j, e, m);
    assert Fits(e', m);
  }

  lemma {:induction false} DominatesMerge(ws: seq<nat>, cur: seq<nat>, cost: nat, i: nat, j: nat)
    requires Dominates(ws, cur, cost) && |cur| >= 2 && Least(cur, i) && Least(Without(cur, i), j)
    ensures var w := cur[i] + Without(cur, i)[j];
            Dominates(ws, Without(Without(cur, i), j) + [w], cost + w)
  {
    hide Fits, Dot, Cheaper, Without;
    forall ds, m: nat | |ds| == |ws| && Fits(ds, m)
      ensures var w := cur[i] + Without(cur, i)[j];
              Cheaper(Without(Without(cur, i), j) + [w], cost + w, m, Dot(ws, ds))
    {
      CheaperMerge(cur, cost, m, Dot(ws, ds), i, j);
    }
  }

  /** One merge of a list of trees. */
  lemma {:induction false} MergeDominates(ws: seq<nat>, ts: seq<Tree>, i: nat, j: nat, t: Tree)
    requires Dominates(ws, Weights(ts), Sum(Costs(ts))) && AllExact(ts) && |ts| >= 2
    requires Least(Weights(ts), i) && i < |ts| && Least(Weights(Removed(ts, i)), j) && j < |Removed(ts, i)|
    requires t == Node(ts[i].w + Removed(ts, i)[j].w, ts[i], Removed(ts, i)[j])
    ensures var ts' := Removed(Removed(ts, i), j) + [t];
            AllExact(ts') && Dominates(ws, Weights(ts'), Sum(Costs(ts')))
  {
    hide Dominates, Sum, Costs, Exact, AllExact, Least, Removed, Without, DepthCost;
    ListsRemoved(ts, i);
    ListsRemoved(Removed(ts, i), j);
    ListsAdded(Removed(Removed(ts, i), j), t);
    ExactRemoved(ts, i);
    ExactRemoved(Removed(ts, i), j);
    NodeCost(t);
    ExactAdded(Removed(Removed(ts, i), j), t);
    DominatesMerge(ws, Weights(ts), Sum(Costs(ts)), i, j);
  }

  lemma {:induction false} NodeCost(t: Tree)
    requires t.Node? && Exact(t.left) && Exact(t.right) && t.w == t.left.w + t.right.w
    ensures Exact(t) && DepthCost(t, 0) == DepthCost(t.left, 0) + DepthCost(t.right, 0) + t.w
  {
    OneDeeper(t.left, 0);
    OneDeeper(t.right, 0);
  }

  /** The tree that is left costs no more than any code. */
  lemma {:induction false} LastDominates(ws: seq<nat>, t: Tree, other: seq<nat>)
    requires Dominates(ws, Weights([t]), Sum(Costs([t]))) && |other| == |ws| && PrefixLengths(other)
    ensures DepthCost(t, 0) <= Dot(ws, other)
  {
    hide Fits, Dot, DepthCost;
    var m: nat :| Fits(other, m);
    assert Cheaper(Weights([t]), Sum(Costs([t])), m, Dot(ws, other));
    assert Costs([t])[..0] == [];
  }
}
