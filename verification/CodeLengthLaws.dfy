/** What the counts decide: frequent symbols have the shorter codes, and no prefix code is shorter in all. */
module CodeLengthLaws {
  import opened Powers
  import opened CanonicalCode
  import opened CodeLengths
  import opened CodeCost
  import opened CodeLengthCost
  import opened CodeLengthOrder

  // --- Sums over leaves, in any order ---

  function SumOf(ts: seq<Tree>, g: Tree -> nat): nat {
    if |ts| == 0 then 0 else SumOf(ts[..|ts| - 1], g) + g(ts[|ts| - 1])
  }

  lemma {:induction false} SumOfRemoved(ts: seq<Tree>, i: nat, g: Tree -> nat)
    requires i < |ts|
    ensures SumOf(ts, g) == g(ts[i]) + SumOf(Removed(ts, i), g)
  {
    var n := |ts| - 1;
    if i < n {
      SumOfRemoved(ts[..n], i, g);
      assert Removed(ts, i)[..n - 1] == Removed(ts[..n], i);
    } else {
      assert Removed(ts, i) == ts[..n];
    }
  }

  lemma {:induction false} RemovedItems(ts: seq<Tree>, i: nat)
    requires i < |ts|
    ensures multiset(ts) == multiset(Removed(ts, i)) + multiset{ts[i]}
  {
    assert ts == ts[..i] + [ts[i]] + ts[i + 1..];
  }

  /** The same leaf taken out of two arrangements. */
  lemma {:induction false} RemovedAlike(a: seq<Tree>, i: nat, b: seq<Tree>) returns (k: nat)
    requires multiset(a) == multiset(b) && i < |a|
    ensures k < |b| && b[k] == a[i] && multiset(Removed(a, i)) == multiset(Removed(b, k))
  {
    assert a[i] in multiset(b);
    k :| k < |b| && b[k] == a[i];
    RemovedItems(a, i);
    RemovedItems(b, k);
    assert multiset(Removed(a, i)) == multiset(a) - multiset{a[i]};
    assert multiset(Removed(b, k)) == multiset(b) - multiset{a[i]};
  }

  lemma {:induction false} SumOfPermuted(a: seq<Tree>, b: seq<Tree>, g: Tree -> nat)
    requires multiset(a) == multiset(b)
    ensures SumOf(a, g) == SumOf(b, g)
    decreases |a|
  {
    if |a| > 0 {
      var n := |a| - 1;
      var k := RemovedAlike(a, n, b);
      assert Removed(a, n) == a[..n];
      SumOfRemoved(b, k, g);
      SumOfPermuted(a[..n], Removed(b, k), g);
    } else {
      assert |multiset(b)| == |b|;
    }
  }

  lemma {:induction false} HalvePermuted(a: seq<Tree>, b: seq<Tree>)
    requires AllLeaves(a) && AllLeaves(b) && multiset(a) == multiset(b)
    ensures multiset(Halve(a)) == multiset(Halve(b))
    decreases |a|
  {
    if |a| > 0 {
      var n := |a| - 1;
      var k := RemovedAlike(a, n, b);
      assert Removed(a, n) == a[..n];
      HalvePermuted(a[..n], Removed(b, k));
      RemovedItems(Halve(b), k);
      RemovedItems(Halve(a), n);
      assert Removed(Halve(a), n) == Halve(a[..n]);
      assert Removed(Halve(b), k) == Halve(Removed(b, k));
    } else {
      assert |multiset(b)| == |b|;
    }
  }

  // --- Leaves that stand for frequencies ---

  predicate Lists(ts: seq<Tree>, freqs: seq<nat>) {
    AllLeaves(ts) && multiset(ts) == multiset(Active(freqs))
  }

  function Halved(freqs: seq<nat>): (r: seq<nat>)
    ensures |r| == |freqs| && forall s: nat :: s < |r| ==> r[s] == (freqs[s] + 1) / 2
  {
    seq(|freqs|, s requires 0 <= s < |freqs| => (freqs[s] + 1) / 2)
  }

  lemma {:induction false} HalveActive(freqs: seq<nat>)
    ensures Halve(Active(freqs)) == Active(Halved(freqs))
  {
    if |freqs| > 0 {
      var n := |freqs| - 1;
      HalveActive(freqs[..n]);
      assert Halved(freqs)[..n] == Halved(freqs[..n]);
    }
  }

  lemma {:induction false} NextLists(ts: seq<Tree>, freqs: seq<nat>)
    requires Lists(ts, freqs)
    ensures Lists(Halve(Sort(ts)), Halved(freqs))
  {
    HalvePermuted(Sort(ts), Active(freqs));
    HalveActive(freqs);
  }

  lemma {:induction false} ActiveAt(freqs: seq<nat>, s: nat)
    requires s < |freqs| && freqs[s] > 0
    ensures Leaf(freqs[s], s) in Active(freqs)
  {
    if s < |freqs| - 1 {
      ActiveAt(freqs[..|freqs| - 1], s);
    }
  }

  lemma {:induction false} SortedAt(ts: seq<Tree>, freqs: seq<nat>, s: nat) returns (i: nat)
    requires Lists(ts, freqs) && s < |freqs| && freqs[s] > 0
    ensures i < |ts| && Sort(ts)[i] == Leaf(freqs[s], s)
  {
    ActiveAt(freqs, s);
    assert Leaf(freqs[s], s) in multiset(Active(freqs));
    assert Leaf(freqs[s], s) in multiset(Sort(ts));
    i :| i < |ts| && Sort(ts)[i] == Leaf(freqs[s], s);
  }

  lemma {:induction false} ListedLeaf(ts: seq<Tree>, freqs: seq<nat>, i: nat)
    requires Lists(ts, freqs) && i < |ts|
    ensures ts[i].sym < |freqs| && ts[i].w == freqs[ts[i].sym] > 0
  {
    assert ts[i] in multiset(ts);
    var k :| 0 <= k < |Active(freqs)| && Active(freqs)[k] == ts[i];
  }

  lemma {:induction false} SameSyms(a: seq<Tree>, b: seq<Tree>)
    requires multiset(a) == multiset(b)
    ensures AllSyms(a) == AllSyms(b)
    decreases |a|
  {
    hide Syms;
    if |a| > 0 {
      var k := RemovedAlike(a, 0, b);
      assert Removed(a, 0) == a[1..];
      SameSyms(a[1..], Removed(b, k));
      assert b == b[..k] + ([b[k]] + b[k + 1..]);
      AllSymsConcat(b[..k], [b[k]] + b[k + 1..]);
      AllSymsConcat([b[k]], b[k + 1..]);
      AllSymsConcat(b[..k], b[k + 1..]);
      AllSymsConcat([a[0]], a[1..]);
      assert a == [a[0]] + a[1..];
    } else {
      assert |multiset(b)| == |b|;
    }
  }

  lemma {:induction false} ListsLabelled(ts: seq<Tree>, freqs: seq<nat>)
    requires Lists(ts, freqs)
    ensures Labelled(ts, |freqs|)
  {
    ActiveLabelled(freqs);
    SameSyms(ts, Active(freqs));
  }

  // --- The tree against any other code ---

  predicate Matches(t: Tree, freqs: seq<nat>) {
    match t
    case Leaf(w, s) => s < |freqs| && w == freqs[s]
    case Node(_, l, r) => Matches(l, freqs) && Matches(r, freqs)
  }

  predicate AllMatch(ts: seq<Tree>, freqs: seq<nat>) {
    forall i: nat :: i < |ts| ==> Matches(ts[i], freqs)
  }

  lemma {:induction false} MergeMatches(f: Forest, freqs: seq<nat>)
    requires Size(f) > 0 && AllMatch(f.leaves, freqs) && AllMatch(f.nodes, freqs)
    ensures Matches(MergeAll(f), freqs)
    decreases Size(f)
  {
    if Size(f) > 1 {
      MergeMatches(MergeStep(f), freqs);
    }
  }

  lemma {:induction false} DotAssign(t: Tree, d: nat, lens: seq<nat>, freqs: seq<nat>)
    requires |lens| == |freqs| && Matches(t, freqs) && Distinct(Syms(t)) && Free(Syms(t), lens)
    ensures Dot(freqs, Assign(t, d, lens)) == Dot(freqs, lens) + DepthCost(t, d)
  {
    hide Dot, Distinct;
    if t.Leaf? {
      assert t.sym in Syms(t);
      DotSet(freqs, lens, t.sym, d);
    } else {
      var mid := Assign(t.right, d + 1, lens);
      NodeParts(t, lens);
      DotAssign(t.right, d + 1, lens, freqs);
      StaysFree(Syms(t.left), t.right, d + 1, lens);
      DotAssign(t.left, d + 1, mid, freqs);
    }
  }

  lemma {:induction false} DotZero(freqs: seq<nat>)
    ensures Dot(freqs, Zero(|freqs|)) == 0
  {
    if |freqs| > 0 {
      var n := |freqs| - 1;
      DotZero(freqs[..n]);
      assert Zero(n + 1)[..n] == Zero(n);
    }
  }

  predicate Named(ts: seq<Tree>, lens: seq<nat>) {
    AllLeaves(ts) && forall i: nat :: i < |ts| ==> ts[i].sym < |lens|
  }

  predicate Coded(ts: seq<Tree>, lens: seq<nat>) {
    Named(ts, lens) && forall i: nat :: i < |ts| ==> 0 < lens[ts[i].sym] <= MAX_CODEWORD_LEN
  }

  /** The lengths that a code gives to some leaves. */
  function LensAt(ts: seq<Tree>, lens: seq<nat>): (ds: seq<nat>)
    requires Named(ts, lens)
    ensures |ds| == |ts| && forall i: nat :: i < |ts| ==> ds[i] == lens[ts[i].sym]
  {
    seq(|ts|, i requires 0 <= i < |ts| => lens[ts[i].sym])
  }

  function CostBy(lens: seq<nat>): Tree -> nat {
    (t: Tree) => if t.Leaf? && t.sym < |lens| then t.w * lens[t.sym] else 0
  }

  function ShareBy(lens: seq<nat>): Tree -> nat {
    (t: Tree) => if t.Leaf? && t.sym < |lens| then Share(lens[t.sym]) else 0
  }

  function LengthBy(lens: seq<nat>): Tree -> nat {
    (t: Tree) => if t.Leaf? && t.sym < |lens| then lens[t.sym] else 0
  }

  function WeightBy(): Tree -> nat {
    (t: Tree) => t.w
  }

  lemma {:induction false} DotOfLeaves(ts: seq<Tree>, lens: seq<nat>)
    requires Named(ts, lens)
    ensures Dot(Weights(ts), LensAt(ts, lens)) == SumOf(ts, CostBy(lens))
  {
    if |ts| > 0 {
      var n := |ts| - 1;
      DotOfLeaves(ts[..n], lens);
      assert Weights(ts)[..n] == Weights(ts[..n]) && LensAt(ts, lens)[..n] == LensAt(ts[..n], lens);
    }
  }

  lemma {:induction false} SumOfLeaves(ts: seq<Tree>, lens: seq<nat>)
    requires Named(ts, lens)
    ensures Sum(LensAt(ts, lens)) == SumOf(ts, LengthBy(lens))
  {
    if |ts| > 0 {
      var n := |ts| - 1;
      SumOfLeaves(ts[..n], lens);
      assert LensAt(ts, lens)[..n] == LensAt(ts[..n], lens);
    }
  }

  lemma {:induction false} KraftOfLeaves(ts: seq<Tree>, lens: seq<nat>)
    requires Coded(ts, lens)
    ensures Kraft(LensAt(ts, lens), MAX_CODEWORD_LEN) == SumOf(ts, ShareBy(lens))
  {
    hide Pow2;
    if |ts| > 0 {
      var n := |ts| - 1;
      KraftOfLeaves(ts[..n], lens);
      assert LensAt(ts, lens)[..n] == LensAt(ts[..n], lens);
    }
  }

  lemma {:induction false} NoneActive(freqs: seq<nat>)
    ensures |freqs| == 0 ==> Active(freqs) == []
  {
  }

  lemma {:induction false} NextActive(freqs: seq<nat>, g: Tree -> nat)
    requires |freqs| > 0
    ensures var n := |freqs| - 1;
            SumOf(Active(freqs), g) == SumOf(Active(freqs[..n]), g) + if freqs[n] > 0 then g(Leaf(freqs[n], n)) else 0
  {
    var n := |freqs| - 1;
    var front := Active(freqs[..n]);
    if freqs[n] > 0 {
      assert Active(freqs)[..|front|] == front;
    } else {
      assert Active(freqs) == front;
    }
  }

  lemma {:induction false} ActiveDot(freqs: seq<nat>, lens: seq<nat>)
    requires |lens| >= |freqs|
    ensures SumOf(Active(freqs), CostBy(lens)) == Dot(freqs, lens[..|freqs|])
  {
    hide Active;
    NoneActive(freqs);
    if |freqs| > 0 {
      var n := |freqs| - 1;
      ActiveDot(freqs[..n], lens);
      assert lens[..n + 1][..n] == lens[..n];
      NextActive(freqs, CostBy(lens));
    }
  }

  lemma {:induction false} ActiveLengths(freqs: seq<nat>, lens: seq<nat>)
    requires |lens| >= |freqs|
    ensures SumOf(Active(freqs), LengthBy(lens)) <= Sum(lens[..|freqs|])
  {
    hide Active;
    NoneActive(freqs);
    if |freqs| > 0 {
      var n := |freqs| - 1;
      ActiveLengths(freqs[..n], lens);
      assert lens[..n + 1][..n] == lens[..n];
      NextActive(freqs, LengthBy(lens));
    }
  }

  lemma {:induction false} ActiveKraft(freqs: seq<nat>, lens: seq<nat>)
    requires |lens| >= |freqs|
    ensures SumOf(Active(freqs), ShareBy(lens)) <= KraftSum(lens[..|freqs|])
  {
    hide Pow2, Active;
    NoneActive(freqs);
    if |freqs| > 0 {
      var n := |freqs| - 1;
      ActiveKraft(freqs[..n], lens);
      assert lens[..n + 1][..n] == lens[..n];
      NextActive(freqs, ShareBy(lens));
    }
  }

  /** Some prefix code of at most 15 bits in which every symbol with a count has a word. */
  predicate Serves(lens: seq<nat>, freqs: seq<nat>) {
    |lens| == |freqs| && Subscribed(lens) && forall s: nat :: s < |freqs| && freqs[s] > 0 ==> lens[s] > 0
  }

  /** Another code restricted to the sorted leaves. */
  lemma {:induction false} OtherCode(ts: seq<Tree>, freqs: seq<nat>, other: seq<nat>) returns (ds: seq<nat>)
    requires Lists(ts, freqs) && Serves(other, freqs)
    ensures |ds| == |ts| && Fits(ds, MAX_CODEWORD_LEN) && Dot(Weights(Sort(ts)), ds) == Dot(freqs, other)
    ensures Sum(ds) <= Sum(other)
  {
    hide Pow2, KraftSum, Kraft, Dot, CostBy, ShareBy, LengthBy, Sort, SumOf, Active, Sum;
    var s := Sort(ts);
    SortedServed(ts, freqs, other);
    ds := LensAt(s, other);
    DotOfLeaves(s, other);
    KraftOfLeaves(s, other);
    SumOfPermuted(s, Active(freqs), CostBy(other));
    SumOfPermuted(s, Active(freqs), ShareBy(other));
    SumOfPermuted(s, Active(freqs), LengthBy(other));
    SumOfLeaves(s, other);
    ActiveLengths(freqs, other);
    ActiveDot(freqs, other);
    ActiveKraft(freqs, other);
    assert other[..|freqs|] == other;
  }

  lemma {:induction false} SortedServed(ts: seq<Tree>, freqs: seq<nat>, other: seq<nat>)
    requires Lists(ts, freqs) && Serves(other, freqs)
    ensures Coded(Sort(ts), other)
  {
    hide KraftSum, Sort, Active;
    var s := Sort(ts);
    forall i: nat | i < |s| ensures s[i].sym < |freqs| && 0 < other[s[i].sym] <= MAX_CODEWORD_LEN {
      ListedLeaf(s, freqs, i);
    }
  }

  /** Without a retry: the depths of the tree cost no more than any other code. */
  lemma {:induction false} TreeIsBest(ts: seq<Tree>, freqs: seq<nat>, other: seq<nat>)
    requires Usable(ts) && Lists(ts, freqs) && Serves(other, freqs) && Sum(freqs) <= U32_MAX
    ensures Dot(freqs, Assign(TreeOf(ts), 0, Zero(|freqs|))) <= Dot(freqs, other)
  {
    hide Pow2, KraftSum, Kraft, Dot, Sort, MergeAll, Assign, DepthCost, Matches, Sum, Distinct, Syms, AllSyms;
    var s := Sort(ts);
    var f := Forest(s, []);
    var ds := OtherCode(ts, freqs, other);
    StartsInOrder(ts, freqs);
    MergeIsBest(f, 1, ds, MAX_CODEWORD_LEN);
    ListsLabelled(ts, freqs);
    TreeSyms(ts);
    forall i: nat | i < |s| ensures Matches(s[i], freqs) {
      ListedLeaf(s, freqs, i);
      LeafMatches(s[i], freqs);
    }
    MergeMatches(f, freqs);
    DotAssign(TreeOf(ts), 0, Zero(|freqs|), freqs);
    DotZero(freqs);
  }

  lemma {:induction false} LeafMatches(t: Tree, freqs: seq<nat>)
    requires t.Leaf? && t.sym < |freqs| && t.w == freqs[t.sym]
    ensures Matches(t, freqs)
  {
  }

  /** The sorted leaves are ready for the merge; their weights add up to all counts, and they cost nothing yet. */
  lemma {:induction false} StartsInOrder(ts: seq<Tree>, freqs: seq<nat>)
    requires Usable(ts) && Lists(ts, freqs)
    ensures var f := Forest(Sort(ts), []);
            && InOrder(f, 1) && AllExact(AllTrees(f)) && AllTrees(f) == Sort(ts)
            && Sum(Weights(AllTrees(f))) == Sum(freqs) && Sum(Costs(AllTrees(f))) == 0
  {
    hide Sum, Sort, Exact, DepthCost, SumOf, Active, WeightBy, Tame;
    SortUsable(ts);
    SortAscending(ts);
    var f := Forest(Sort(ts), []);
    assert AllTrees(f) == Sort(ts);
    LeavesTame(Sort(ts));
    LeavesFree(Sort(ts));
    WeightsSum(Sort(ts));
    SumOfPermuted(Sort(ts), Active(freqs), WeightBy());
    ActiveSum(freqs);
  }

  lemma {:induction false} LeavesTame(ts: seq<Tree>)
    requires AllLeaves(ts) && forall i :: 0 <= i < |ts| ==> 1 <= ts[i].w <= U32_MAX
    ensures AllExact(ts) && forall i :: 0 <= i < |ts| ==> Tame(ts[i])
  {
    assert Fib(2) == 1;
  }

  lemma {:induction false} LeavesFree(ts: seq<Tree>)
    requires AllLeaves(ts)
    ensures Sum(Costs(ts)) == 0
  {
    if |ts| > 0 {
      var n := |ts| - 1;
      LeavesFree(ts[..n]);
      assert Costs(ts)[..n] == Costs(ts[..n]);
    }
  }

  lemma {:induction false} WeightsSum(ts: seq<Tree>)
    ensures Sum(Weights(ts)) == SumOf(ts, WeightBy())
  {
    if |ts| > 0 {
      var n := |ts| - 1;
      WeightsSum(ts[..n]);
      assert Weights(ts)[..n] == Weights(ts[..n]);
    }
  }

  lemma {:induction false} ActiveSum(freqs: seq<nat>)
    ensures SumOf(Active(freqs), WeightBy()) == Sum(freqs)
  {
    hide Active;
    NoneActive(freqs);
    if |freqs| > 0 {
      var n := |freqs| - 1;
      ActiveSum(freqs[..n]);
      NextActive(freqs, WeightBy());
    }
  }

  /** Without a retry: of two symbols the one with the larger count, or with the larger number if the counts are equal,
      does not have the longer word. */
  lemma {:induction false} TreeOrdered(ts: seq<Tree>, freqs: seq<nat>, a: nat, b: nat)
    requires Usable(ts) && Lists(ts, freqs) && a < |freqs| && b < |freqs|
    requires 0 < freqs[a] && (freqs[a] < freqs[b] || (freqs[a] == freqs[b] && a < b))
    ensures var lens := Assign(TreeOf(ts), 0, Zero(|freqs|)); lens[a] >= lens[b]
  {
    hide Sort, TreeOf, Assign, Distinct, AllSyms;
    var i := SortedAt(ts, freqs, a);
    var j := SortedAt(ts, freqs, b);
    ListsLabelled(ts, freqs);
    LabelledApart(ts, |freqs|);
    SortOrdered(ts);
    InOrderApart(Sort(ts), i, j);
    TreeOrder(ts, |freqs|, i, j);
  }

  lemma {:induction false} InOrderApart(ts: seq<Tree>, i: nat, j: nat)
    requires InSortedOrder(ts) && i < |ts| && j < |ts| && Before(ts[i], ts[j])
    ensures i < j
  {
  }

  lemma {:induction false} LabelledApart(ts: seq<Tree>, n: nat)
    requires AllLeaves(ts) && Labelled(ts, n)
    ensures forall i: nat, j: nat :: i < j < |ts| ==> ts[i].sym != ts[j].sym
  {
    hide Labelled;
    forall i: nat, j: nat | i < j < |ts| ensures ts[i].sym != ts[j].sym {
      TwoAlike(ts, i, j);
      assert Distinct(AllSyms(ts)) by { LabelledDistinct(ts, n); }
    }
  }

  lemma {:induction false} LabelledDistinct(ts: seq<Tree>, n: nat)
    requires Labelled(ts, n)
    ensures Distinct(AllSyms(ts))
  {
  }

  lemma {:induction false} TwoAlike(ts: seq<Tree>, i: nat, j: nat)
    requires AllLeaves(ts) && i < j < |ts|
    ensures ts[i].sym == ts[j].sym ==> AllSyms(ts)[ts[i].sym] >= 2
  {
    if i > 0 {
      TwoAlike(ts[1..], i - 1, j - 1);
    } else {
      SymAmong(ts[1..], j - 1);
    }
  }

  // --- With retries ---

  /** The counts of the last round: halved, rounding up, as often as the tree was too deep. */
  function Settled(ts: seq<Tree>, freqs: seq<nat>): (r: seq<nat>)
    requires Usable(ts)
    ensures |r| == |freqs|
    decreases WeightSum(ts)
  {
    if Height(TreeOf(ts)) <= MAX_CODEWORD_LEN then freqs
    else
      RetryProgress(ts);
      Settled(Halve(Sort(ts)), Halved(freqs))
  }

  lemma {:induction false} LimitedIsBest(ts: seq<Tree>, freqs: seq<nat>, other: seq<nat>)
    requires Usable(ts) && Lists(ts, freqs) && Serves(other, freqs) && Sum(Settled(ts, freqs)) <= U32_MAX
    ensures var w := Settled(ts, freqs); Dot(w, LimitedLens(ts, |freqs|)) <= Dot(w, other)
    decreases WeightSum(ts)
  {
    hide Dot, Sort, TreeOf, Assign, Height, Sum, Lists, KraftSum;
    if Height(TreeOf(ts)) <= MAX_CODEWORD_LEN {
      TreeIsBest(ts, freqs, other);
    } else {
      RetryProgress(ts);
      NextLists(ts, freqs);
      LimitedIsBest(Halve(Sort(ts)), Halved(freqs), other);
    }
  }

  lemma {:induction false} LimitedOrdered(ts: seq<Tree>, freqs: seq<nat>, a: nat, b: nat)
    requires Usable(ts) && Lists(ts, freqs) && a < |freqs| && b < |freqs| && 0 < freqs[a]
    requires var w := Settled(ts, freqs); w[a] < w[b] || (w[a] == w[b] && a < b)
    ensures LimitedLens(ts, |freqs|)[a] >= LimitedLens(ts, |freqs|)[b]
    decreases WeightSum(ts)
  {
    hide Sort, TreeOf, Assign, Height, Lists;
    if Height(TreeOf(ts)) <= MAX_CODEWORD_LEN {
      TreeOrdered(ts, freqs, a, b);
    } else {
      RetryProgress(ts);
      NextLists(ts, freqs);
      LimitedOrdered(Halve(Sort(ts)), Halved(freqs), a, b);
    }
  }

  /** Division by 2^k, rounding up. */
  function Scaled(v: nat, k: nat): nat {
    (v + Pow2(k) - 1) / Pow2(k)
  }

  lemma {:induction false} HalveScaled(v: nat, k: nat)
    ensures Scaled((v + 1) / 2, k) == Scaled(v, k + 1) && Scaled(v, 0) == v
  {
    var p := Pow2(k);
    var h, q := (v + 1) / 2, ((v + 1) / 2 + p - 1) / p;
    var r := (h + p - 1) % p;
    assert h + p - 1 == q * p + r;
    assert v + 2 * p - 1 == q * (2 * p) + (2 * r + (v + 1 - 2 * h));
    DivUnique(v + 2 * p - 1, 2 * p, q, 2 * r + (v + 1 - 2 * h));
  }

  /** The deciding counts are the given ones, divided by one power of two and rounded up. */
  lemma {:induction false} SettledScales(ts: seq<Tree>, freqs: seq<nat>) returns (k: nat)
    requires Usable(ts)
    ensures forall s: nat :: s < |freqs| ==> Settled(ts, freqs)[s] == Scaled(freqs[s], k)
    ensures k == 0 <==> Height(TreeOf(ts)) <= MAX_CODEWORD_LEN
    decreases WeightSum(ts)
  {
    hide Sort, TreeOf, Height, Scaled, Pow2;
    if Height(TreeOf(ts)) <= MAX_CODEWORD_LEN {
      k := 0;
      forall s: nat | s < |freqs| ensures Settled(ts, freqs)[s] == Scaled(freqs[s], 0) {
        HalveScaled(freqs[s], 0);
      }
    } else {
      RetryProgress(ts);
      var j := SettledScales(Halve(Sort(ts)), Halved(freqs));
      k := j + 1;
      forall s: nat | s < |freqs| ensures Settled(ts, freqs)[s] == Scaled(freqs[s], k) {
        HalveScaled(freqs[s], j);
      }
    }
  }

  const SHALLOW_SUM := 2584

  /** Small sums need no retry: a tree of depth 16 weighs at least the 18th Fibonacci number. */
  lemma {:induction false} SmallSumShallow(ts: seq<Tree>, freqs: seq<nat>)
    requires Usable(ts) && Lists(ts, freqs) && Sum(freqs) < SHALLOW_SUM
    ensures Height(TreeOf(ts)) <= MAX_CODEWORD_LEN
  {
    hide Sort, MergeAll, Height, Sum, Tame, Lists;
    var f := Forest(Sort(ts), []);
    StartsInOrder(ts, freqs);
    MergeAllTame(f, 1);
    MergeWeight(f, 1);
    LightShallow(TreeOf(ts));
  }

  lemma {:induction false} LightShallow(t: Tree)
    requires Tame(t) && t.w < SHALLOW_SUM
    ensures Height(t) <= MAX_CODEWORD_LEN
  {
    if Height(t) > MAX_CODEWORD_LEN {
      FibMonotone(18, Height(t) + 2);
      FibOf18();
    }
  }

  lemma {:induction false} MergeWeight(f: Forest, last: nat)
    requires Size(f) > 0 && InOrder(f, last) && AllExact(AllTrees(f)) && Sum(Weights(AllTrees(f))) <= U32_MAX
    ensures MergeAll(f).w == Sum(Weights(AllTrees(f)))
    decreases Size(f)
  {
    hide Exact, InOrder, MergeStep, PickMin, Costs;
    if Size(f) == 1 {
      LoneWeight(f);
    } else {
      var i, j := MergeLists(f, last);
      var last' := MergeStepInOrder(f, last);
      MergeWeight(MergeStep(f), last');
    }
  }

  lemma {:induction false} LoneWeight(f: Forest)
    requires Size(f) == 1
    ensures MergeAll(f).w == Sum(Weights(AllTrees(f)))
  {
    assert Weights(AllTrees(f))[..0] == [];
  }

  // --- The laws ---

  /** The counts that decide: the given ones unless there are retries. */
  function DecidingCounts(freqs: seq<nat>): (w: seq<nat>)
    requires ValidFreqs(freqs)
    ensures |w| == |freqs|
  {
    var ts := Active(freqs);
    if |ts| >= 2 then Settled(ts, freqs) else freqs
  }

  lemma {:induction false} DecidingAreScaled(freqs: seq<nat>) returns (k: nat)
    requires ValidFreqs(freqs)
    ensures forall s: nat :: s < |freqs| ==> DecidingCounts(freqs)[s] == Scaled(freqs[s], k)
    ensures Sum(freqs) < SHALLOW_SUM ==> k == 0 && DecidingCounts(freqs) == freqs
  {
    hide Settled, Scaled, Sum, Height, TreeOf, Active;
    var ts := Active(freqs);
    if |ts| >= 2 {
      k := SettledScales(ts, freqs);
      if Sum(freqs) < SHALLOW_SUM {
        SmallSumShallow(ts, freqs);
      }
    } else {
      k := 0;
    }
    forall s: nat | s < |freqs| ensures Scaled(freqs[s], 0) == freqs[s] {
      HalveScaled(freqs[s], 0);
    }
  }

  /** No prefix code of at most 15 bits for the same symbols has a smaller weighted length. */
  lemma {:induction false} CodeLensShortest(freqs: seq<nat>, other: seq<nat>)
    requires ValidFreqs(freqs) && Serves(other, freqs) && Sum(DecidingCounts(freqs)) <= U32_MAX
    ensures Dot(DecidingCounts(freqs), CodeLens(freqs)) <= Dot(DecidingCounts(freqs), other)
  {
    hide Settled, LimitedLens, Dot, Sum, KraftSum;
    var ts := Active(freqs);
    if |ts| >= 2 {
      LimitedIsBest(ts, freqs, other);
    } else if |ts| == 1 {
      var s := ts[0].sym;
      DotZero(freqs);
      DotSet(freqs, Zero(|freqs|), s, 1);
      DotWithout(freqs, other, s);
      MulMonotone(freqs[s], 1, other[s]);
    } else {
      DotZero(freqs);
    }
  }

  /** The words go by the deciding counts, and among equal ones by symbol number. */
  lemma {:induction false} CodeLensOrdered(freqs: seq<nat>, a: nat, b: nat)
    requires ValidFreqs(freqs) && a < |freqs| && b < |freqs| && freqs[a] > 0 && freqs[b] > 0
    requires var w := DecidingCounts(freqs); w[a] < w[b] || (w[a] == w[b] && a < b)
    ensures CodeLens(freqs)[a] >= CodeLens(freqs)[b]
  {
    hide Settled, LimitedLens, Active;
    TwoActive(freqs, a, b);
    LimitedOrdered(Active(freqs), freqs, a, b);
  }

  lemma {:induction false} TwoActive(freqs: seq<nat>, a: nat, b: nat)
    requires a < |freqs| && b < |freqs| && a != b && freqs[a] > 0 && freqs[b] > 0
    ensures |Active(freqs)| >= 2 && Lists(Active(freqs), freqs)
  {
    hide Active;
    ActiveAt(freqs, a);
    ActiveAt(freqs, b);
  }

  /** Where no retry can happen, a more frequent symbol never has the longer word. */
  lemma {:induction false} MoreFrequentNotLonger(freqs: seq<nat>, a: nat, b: nat)
    requires ValidFreqs(freqs) && a < |freqs| && b < |freqs| && freqs[a] > freqs[b] > 0 && Sum(freqs) < SHALLOW_SUM
    ensures CodeLens(freqs)[a] <= CodeLens(freqs)[b]
  {
    hide CodeLens, Sum, Scaled;
    var k := DecidingAreScaled(freqs);
    CodeLensOrdered(freqs, b, a);
  }
}
