/** Codes from symbol frequencies, and the flat codes of the simple mode. Both are complete. */
module FrequencyCodes {
  import opened Powers
  import opened LeftCode
  import opened KraftRepair
  import opened LengthLimit
  import opened CtzTable
  import opened HuffmanBuild
  import opened CodeCost
  import opened LengthOrder
  import HeapCost
  import BitWriting

  lemma {:induction false} LeftKraftUpdate(lens: seq<nat>, s: nat, l: nat)
    requires s < |lens| && lens[s] == 0
    ensures LeftKraft(lens[s := l]) == LeftKraft(lens) + LeftShare(l)
  {
    var n := |lens| - 1;
    if s == n {
      assert lens[s := l][..n] == lens[..n];
    } else {
      LeftKraftUpdate(lens[..n], s, l);
      assert lens[s := l][..n] == lens[..n][s := l];
    }
  }

  function NoLengths(n: nat): (r: seq<nat>)
    ensures |r| == n && forall i :: 0 <= i < n ==> r[i] == 0
  {
    seq(n, i => 0)
  }

  // --- Handing out lengths ---

  predicate DistinctBelow(order: seq<nat>, n: nat) {
    && (forall i :: 0 <= i < |order| ==> order[i] < n)
    && (forall i, j :: 0 <= i < j < |order| ==> order[i] != order[j])
  }

  /** The first `k` symbols of the order have lengths from 1 to `ml`; the others have none. */
  ghost predicate HandedOut(order: seq<nat>, k: nat, lens: seq<nat>, ml: nat) {
    && k <= |order| && DistinctBelow(order, |lens|)
    && (forall i :: 0 <= i < k ==> 1 <= lens[order[i]] <= ml)
    && (forall s :: 0 <= s < |lens| && lens[s] != 0 ==> exists i :: 0 <= i < k && order[i] == s)
  }

  lemma {:induction false} HandOut(order: seq<nat>, k: nat, lens: seq<nat>, ml: nat, l: nat)
    requires HandedOut(order, k, lens, ml) && k < |order| && 1 <= l <= ml
    ensures lens[order[k]] == 0 && HandedOut(order, k + 1, lens[order[k] := l], ml)
  {
    var r := lens[order[k] := l];
    forall s | 0 <= s < |r| && r[s] != 0 ensures exists i :: 0 <= i < k + 1 && order[i] == s {
      if s == order[k] {
        assert order[k] == s;
      } else {
        var i :| 0 <= i < k && order[i] == s;
        assert order[i] == s;
      }
    }
  }

  lemma {:induction false} SharesOf(bl: seq<nat>, ml: nat, l: nat)
    requires 1 <= l <= ml <= 15 && ml < |bl|
    ensures KSum(bl, ml, l - 1) * Pow2(16 - ml) + bl[l] * Pow2(16 - l) == KSum(bl, ml, l) * Pow2(16 - ml)
  {
    Pow2Add(ml - l, 16 - ml);
    Associate(bl[l], Pow2(ml - l), Pow2(16 - ml));
    Distribute(KSum(bl, ml, l - 1), bl[l] * Pow2(ml - l), Pow2(16 - ml));
  }

  lemma {:induction false} LeavesMonotone(bl: seq<nat>, k: nat, l: nat)
    requires k <= l < |bl|
    ensures Leaves(bl, k) <= Leaves(bl, l)
  {
    if k < l {
      LeavesMonotone(bl, k, l - 1);
    }
  }

  /** Lengths in the order of the symbols, the shortest ones first. */
  method HandOutLengths(order: seq<nat>, n: nat, bl: seq<nat>, ml: nat) returns (lens: seq<nat>)
    requires DistinctBelow(order, n) && 1 <= ml <= 15 && |bl| == ml + 1 && Leaves(bl, ml) == |order|
    ensures |lens| == n && HandedOut(order, |order|, lens, ml)
    ensures LeftKraft(lens) == KSum(bl, ml, ml) * Pow2(16 - ml)
    ensures Within(order, |lens|) && At(order, lens) == Expanded(bl, ml)
  {
    hide HandedOut, LeftKraft, KSum, Leaves, Pow2, LeftShare, At, Expanded;
    lens := NoLengths(n);
    var next := 0;
    NothingHandedOut(order, n, ml, bl);
    for l := 1 to ml + 1
      invariant |lens| == n && next == Leaves(bl, l - 1) && HandedOut(order, next, lens, ml)
      invariant LeftKraft(lens) == KSum(bl, ml, l - 1) * Pow2(16 - ml)
      invariant next <= |order| && At(order[..next], lens) == Expanded(bl, l - 1)
    {
      LeavesMonotone(bl, l, ml);
      LeavesStep(bl, l);
      lens, next := HandOutOne(order, n, bl, ml, l, lens, next);
      SharesOf(bl, ml, l);
      ExpandedNext(bl, l);
    }
    assert order[..next] == order;
  }

  lemma {:induction false} ExpandedNext(bl: seq<nat>, l: nat)
    requires 1 <= l < |bl|
    ensures Expanded(bl, l) == Expanded(bl, l - 1) + Times(l, bl[l])
  {
  }

  lemma {:induction false} LeavesStep(bl: seq<nat>, l: nat)
    requires 1 <= l < |bl|
    ensures Leaves(bl, l) == Leaves(bl, l - 1) + bl[l]
  {
  }

  lemma {:induction false} NothingHandedOut(order: seq<nat>, n: nat, ml: nat, bl: seq<nat>)
    requires DistinctBelow(order, n) && ml <= 15 && ml < |bl|
    ensures HandedOut(order, 0, NoLengths(n), ml) && LeftKraft(NoLengths(n)) == 0
    ensures Leaves(bl, 0) == 0 && KSum(bl, ml, 0) * Pow2(16 - ml) == 0
    ensures At(order[..0], NoLengths(n)) == Expanded(bl, 0)
  {
    NoKraft(NoLengths(n));
  }

  method HandOutOne(order: seq<nat>, n: nat, bl: seq<nat>, ml: nat, l: nat, start: seq<nat>, from: nat)
    returns (lens: seq<nat>, next: nat)
    requires 1 <= l <= ml <= 15 && |bl| == ml + 1 && |start| == n && HandedOut(order, from, start, ml)
    requires from + bl[l] <= |order|
    ensures |lens| == n && next == from + bl[l] && HandedOut(order, next, lens, ml)
    ensures LeftKraft(lens) == LeftKraft(start) + bl[l] * Pow2(16 - l)
    ensures Within(order, n) && At(order[..next], lens) == At(order[..from], start) + Times(l, bl[l])
  {
    hide HandedOut, LeftKraft, Pow2, At;
    lens, next := start, from;
    OrderFits(order, next, lens, ml);
    assert Times(l, 0) == [];
    for c := 0 to bl[l]
      invariant |lens| == n && next == from + c && HandedOut(order, next, lens, ml)
      invariant LeftKraft(lens) == LeftKraft(start) + c * Pow2(16 - l)
      invariant At(order[..next], lens) == At(order[..from], start) + Times(l, c)
    {
      OrderFits(order, next, lens, ml);
      HandOut(order, next, lens, ml, l);
      LeftKraftUpdate(lens, order[next], l);
      Distribute(c, 1, Pow2(16 - l));
      AtNext(order, next, lens, l);
      assert Times(l, c + 1) == Times(l, c) + [l];
      lens := lens[order[next] := l];
      next := next + 1;
    }
  }

  lemma {:induction false} OrderFits(order: seq<nat>, k: nat, lens: seq<nat>, ml: nat)
    requires HandedOut(order, k, lens, ml)
    ensures forall i: nat :: i < |order| ==> order[i] < |lens|
    ensures forall i: nat, j: nat :: i < j < |order| ==> order[i] != order[j]
  {
  }

  lemma {:induction false} AtNext(order: seq<nat>, k: nat, lens: seq<nat>, l: nat)
    requires Within(order, |lens|) && k < |order| && forall i: nat, j: nat :: i < j < |order| ==> order[i] != order[j]
    ensures At(order[..k + 1], lens[order[k] := l]) == At(order[..k], lens) + [l]
  {
  }

  // --- Symbols by frequency ---

  /** Higher frequency first, then lower number. */
  predicate Ahead(freqs: seq<nat>, a: nat, b: nat)
    requires a < |freqs| && b < |freqs|
  {
    freqs[a] > freqs[b] || (freqs[a] == freqs[b] && a < b)
  }

  function InsertByFrequency(freqs: seq<nat>, order: seq<nat>, s: nat): (r: seq<nat>)
    requires s < |freqs| && forall i :: 0 <= i < |order| ==> order[i] < |freqs|
    ensures |r| == |order| + 1 && forall i :: 0 <= i < |r| ==> r[i] < |freqs|
    ensures multiset(r) == multiset(order) + multiset{s}
  {
    if |order| == 0 || Ahead(freqs, order[|order| - 1], s) then order + [s]
    else
      assert order == order[..|order| - 1] + [order[|order| - 1]];
      InsertByFrequency(freqs, order[..|order| - 1], s) + [order[|order| - 1]]
  }

  predicate ByFrequency(freqs: seq<nat>, order: seq<nat>) {
    Within(order, |freqs|) && forall i: nat, j: nat :: i < j < |order| ==> Ahead(freqs, order[i], order[j])
  }

  lemma {:induction false} InsertKeepsOrder(freqs: seq<nat>, order: seq<nat>, s: nat)
    requires s < |freqs| && ByFrequency(freqs, order) && Within(order, |freqs|)
    requires forall i: nat :: i < |order| ==> order[i] != s
    ensures ByFrequency(freqs, InsertByFrequency(freqs, order, s))
    decreases |order|
  {
    hide ByFrequency, Ahead;
    var n := |order| - 1;
    if n >= 0 && !Ahead(freqs, order[n], s) {
      FrontOrdered(freqs, order, s);
      InsertKeepsOrder(freqs, order[..n], s);
      InsertedAhead(freqs, order[..n], s, order[n]);
      AppendOrdered(freqs, InsertByFrequency(freqs, order[..n], s), order[n]);
    } else {
      LastAhead(freqs, order, s);
      AppendOrdered(freqs, order, s);
    }
  }

  lemma {:induction false} FrontOrdered(freqs: seq<nat>, order: seq<nat>, s: nat)
    requires s < |freqs| && ByFrequency(freqs, order) && |order| > 0 && order[|order| - 1] != s
    requires !Ahead(freqs, order[|order| - 1], s)
    ensures var n := |order| - 1;
            && ByFrequency(freqs, order[..n]) && Within(order[..n], |freqs|) && Ahead(freqs, s, order[n])
            && forall i: nat :: i < n ==> Ahead(freqs, order[..n][i], order[n])
  {
  }

  lemma {:induction false} AppendOrdered(freqs: seq<nat>, order: seq<nat>, s: nat)
    requires s < |freqs| && ByFrequency(freqs, order) && Within(order, |freqs|)
    requires forall i: nat :: i < |order| ==> Ahead(freqs, order[i], s)
    ensures ByFrequency(freqs, order + [s])
  {
  }

  /** The order is transitive: what comes before the last one comes before whatever the last one does. */
  lemma {:induction false} LastAhead(freqs: seq<nat>, order: seq<nat>, s: nat)
    requires s < |freqs| && ByFrequency(freqs, order) && (|order| > 0 ==> Ahead(freqs, order[|order| - 1], s))
    ensures Within(order, |freqs|) && forall i: nat :: i < |order| ==> Ahead(freqs, order[i], s)
  {
  }

  lemma {:induction false} InsertedAhead(freqs: seq<nat>, order: seq<nat>, s: nat, last: nat)
    requires s < |freqs| && last < |freqs| && Within(order, |freqs|) && Ahead(freqs, s, last)
    requires forall i: nat :: i < |order| ==> Ahead(freqs, order[i], last)
    ensures var r := InsertByFrequency(freqs, order, s); forall i: nat :: i < |r| ==> Ahead(freqs, r[i], last)
  {
    hide InsertByFrequency, Ahead;
    var r := InsertByFrequency(freqs, order, s);
    forall i: nat | i < |r| ensures Ahead(freqs, r[i], last) {
      assert r[i] in multiset(r);
      assert r[i] == s || r[i] in order;
    }
  }

  function ActiveCount(freqs: seq<nat>): nat {
    if |freqs| == 0 then 0 else ActiveCount(freqs[..|freqs| - 1]) + if freqs[|freqs| - 1] > 0 then 1 else 0
  }

  lemma {:induction false} ActiveNext(freqs: seq<nat>, s: nat)
    requires s < |freqs|
    ensures ActiveCount(freqs[..s + 1]) == ActiveCount(freqs[..s]) + if freqs[s] > 0 then 1 else 0
  {
    assert freqs[..s + 1][..s] == freqs[..s];
  }

  method ActiveByFrequency(freqs: seq<nat>) returns (order: seq<nat>)
    ensures DistinctBelow(order, |freqs|) && |order| == ActiveCount(freqs)
    ensures forall s :: 0 <= s < |freqs| ==> (s in order <==> freqs[s] > 0)
    ensures ByFrequency(freqs, order)
  {
    hide InsertByFrequency, ActiveCount, ByFrequency;
    order := [];
    NoneActive(freqs);
    assert ByFrequency(freqs, order) by { NothingOrdered(freqs); }
    for s := 0 to |freqs|
      invariant forall i :: 0 <= i < |order| ==> order[i] < |freqs|
      invariant |order| == ActiveCount(freqs[..s]) && ByFrequency(freqs, order)
      invariant forall v :: multiset(order)[v] == if 0 <= v < s && freqs[v] > 0 then 1 else 0
    {
      ActiveNext(freqs, s);
      if freqs[s] > 0 {
        NotYet(order, s);
        InsertKeepsOrder(freqs, order, s);
        order := InsertByFrequency(freqs, order, s);
      }
    }
    OrderComplete(freqs, order);
  }

  lemma {:induction false} NothingOrdered(freqs: seq<nat>)
    ensures ByFrequency(freqs, [])
  {
  }

  lemma {:induction false} NotYet(order: seq<nat>, s: nat)
    requires multiset(order)[s] == 0
    ensures forall i: nat :: i < |order| ==> order[i] != s
  {
    assert s !in order;
  }

  lemma {:induction false} NoneActive(freqs: seq<nat>)
    ensures ActiveCount(freqs[..0]) == 0 && freqs[..|freqs|] == freqs
  {
  }

  lemma {:induction false} OrderComplete(freqs: seq<nat>, order: seq<nat>)
    requires forall i :: 0 <= i < |order| ==> order[i] < |freqs|
    requires forall v :: multiset(order)[v] == if 0 <= v < |freqs| && freqs[v] > 0 then 1 else 0
    ensures DistinctBelow(order, |freqs|)
    ensures forall s :: 0 <= s < |freqs| ==> (s in order <==> freqs[s] > 0)
  {
    forall i, j | 0 <= i < j < |order| ensures order[i] != order[j] {
      CountedTwice(order, i, j);
    }
    forall s | 0 <= s < |freqs| ensures s in order <==> freqs[s] > 0 {
      assert s in order <==> multiset(order)[s] > 0;
    }
  }

  lemma {:induction false} CountedTwice(s: seq<nat>, i: nat, j: nat)
    requires i < j < |s|
    ensures s[i] == s[j] ==> multiset(s)[s[i]] >= 2
  {
    assert s == s[..i] + [s[i]] + s[i + 1..j] + [s[j]] + s[j + 1..];
  }

  method ActiveSymbols(freqs: seq<nat>) returns (active: seq<nat>)
    ensures |active| == ActiveCount(freqs)
    ensures forall i :: 0 <= i < |active| ==> active[i] < |freqs| && freqs[active[i]] > 0
    ensures forall s :: 0 <= s < |freqs| && freqs[s] > 0 ==> s in active
    ensures forall i: nat, j: nat :: i < j < |active| ==> active[i] < active[j]
  {
    hide ActiveCount;
    active := [];
    NoneActive(freqs);
    for s := 0 to |freqs|
      invariant |active| == ActiveCount(freqs[..s])
      invariant forall i :: 0 <= i < |active| ==> active[i] < |freqs| && freqs[active[i]] > 0
      invariant forall v :: 0 <= v < s && freqs[v] > 0 ==> v in active
      invariant forall i :: 0 <= i < |active| ==> active[i] < s
      invariant forall i: nat, j: nat :: i < j < |active| ==> active[i] < active[j]
    {
      ActiveNext(freqs, s);
      if freqs[s] > 0 {
        active := active + [s];
      }
    }
  }

  /** A lone symbol gets a phantom sibling, so that its code of length 1 is complete too. */
  method LoneLengths(n: nat, symbol: nat) returns (lens: seq<nat>)
    requires symbol < n
    ensures |lens| == n && ValidLefts(lens) && lens[symbol] == 1 && (n >= 2 ==> LeftComplete(lens))
    ensures forall s :: 0 <= s < n ==> lens[s] <= 1
  {
    hide LeftKraft;
    lens := NoLengths(n);
    NoKraft(lens);
    LeftKraftUpdate(lens, symbol, 1);
    lens := lens[symbol := 1];
    if n >= 2 {
      var phantom := if symbol == 0 then 1 else 0;
      LeftKraftUpdate(lens, phantom, 1);
      lens := lens[phantom := 1];
      assert Pow2(16) == 2 * Pow2(15);
    }
  }

  /** A cheapest code whose lengths are capped, repaired and handed out by frequency. */
  ghost predicate FromCheapest(freqs: seq<nat>, ml: nat, lens: seq<nat>, raw: seq<nat>) {
    && ShortestOver(freqs, raw) && |lens| == |freqs|
    && (AllUpTo(raw, ml) ==> Dot(freqs, lens) <= Dot(freqs, raw))
  }

  /** A symbol with a count that comes after another one by frequency does not have the shorter code. */
  predicate OrderedByFrequency(freqs: seq<nat>, lens: seq<nat>) {
    |lens| == |freqs|
    && forall a: nat, b: nat :: a < |freqs| && b < |freqs| && freqs[b] > 0 && Ahead(freqs, a, b) ==> lens[a] <= lens[b]
  }

  /** Lengths for any frequencies with at most 2^ml symbols in use: every used symbol has a code of at
      most `ml` bits, the code is complete, more frequent symbols never have longer codes, and as long as some cheapest
      code keeps to the limit no prefix code is shorter in all. */
  method LengthsFor(freqs: seq<nat>, ml: nat) returns (lens: seq<nat>, ghost raw: seq<nat>)
    requires 1 <= ml <= 15 && ActiveCount(freqs) <= Pow2(ml)
    ensures |lens| == |freqs| && ValidLefts(lens) && forall s :: 0 <= s < |freqs| ==> lens[s] <= ml
    ensures forall s :: 0 <= s < |freqs| && freqs[s] > 0 ==> lens[s] >= 1
    ensures ActiveCount(freqs) >= 2 ==> forall s :: 0 <= s < |freqs| && freqs[s] == 0 ==> lens[s] == 0
    ensures ActiveCount(freqs) >= 1 && |freqs| >= 2 ==> LeftComplete(lens)
    ensures OrderedByFrequency(freqs, lens) && (ActiveCount(freqs) >= 2 ==> FromCheapest(freqs, ml, lens, raw))
  {
    hide LeftKraft, KSum, Leaves, Pow2, ActiveCount, OrderedByFrequency, FromCheapest, ByFrequency, HandedOut, At,
         Expanded;
    var active := ActiveSymbols(freqs);
    raw := [];
    if |active| == 0 {
      lens := NoLengths(|freqs|);
      NoneOrdered(freqs, lens);
      return;
    }
    if |active| == 1 {
      lens := LoneLengths(|freqs|, active[0]);
      LoneOrdered(freqs, lens, active);
      return;
    }
    var weights := seq(|active|, i requires 0 <= i < |active| => freqs[active[i]]);
    ghost var ds, run;
    var bl;
    bl, ds, run := LengthCounts(weights, ml);
    var order := ActiveByFrequency(freqs);
    lens := HandOutLengths(order, |freqs|, bl, ml);
    Pow2Add(ml, 16 - ml);
    AllHandedOut(freqs, order, lens, ml);
    raw := Spread(active, ds, |freqs|);
    HandedOutOrdered(freqs, order, lens, bl, ml);
    HandedOutCheap(freqs, active, order, weights, lens, ds, bl, run, ml);
  }

  lemma {:induction false} NoneOrdered(freqs: seq<nat>, lens: seq<nat>)
    requires |lens| == |freqs| && forall s :: 0 <= s < |freqs| ==> lens[s] == 0
    ensures OrderedByFrequency(freqs, lens)
  {
  }

  lemma {:induction false} LoneOrdered(freqs: seq<nat>, lens: seq<nat>, active: seq<nat>)
    requires |lens| == |freqs| && |active| == 1 && active[0] < |freqs| && lens[active[0]] == 1
    requires forall s :: 0 <= s < |freqs| ==> lens[s] <= 1
    requires forall s :: 0 <= s < |freqs| && freqs[s] > 0 ==> s in active
    ensures OrderedByFrequency(freqs, lens)
  {
  }

  lemma {:induction false} HandedOutOrdered(freqs: seq<nat>, order: seq<nat>, lens: seq<nat>, bl: seq<nat>, ml: nat)
    requires ByFrequency(freqs, order) && |lens| == |freqs| && |bl| == ml + 1 && At(order, lens) == Expanded(bl, ml)
    requires forall s :: 0 <= s < |freqs| ==> (s in order <==> freqs[s] > 0)
    ensures OrderedByFrequency(freqs, lens)
  {
    hide Expanded;
    ExpandedRises(bl, ml);
    forall a: nat, b: nat | a < |freqs| && b < |freqs| && freqs[b] > 0 && Ahead(freqs, a, b)
      ensures lens[a] <= lens[b]
    {
      var i: nat :| i < |order| && order[i] == a;
      var j: nat :| j < |order| && order[j] == b;
      EarlierIndex(freqs, order, i, j);
      assert At(order, lens)[i] <= At(order, lens)[j];
    }
  }

  lemma {:induction false} EarlierIndex(freqs: seq<nat>, order: seq<nat>, i: nat, j: nat)
    requires ByFrequency(freqs, order) && i < |order| && j < |order| && Ahead(freqs, order[i], order[j])
    ensures i < j
  {
  }

  lemma {:induction false} HandedOutCheap(freqs: seq<nat>, active: seq<nat>, order: seq<nat>, weights: seq<nat>,
                                          lens: seq<nat>, ds: seq<nat>, bl: seq<nat>, run: seq<seq<nat>>, ml: nat)
    requires Within(active, |freqs|) && weights == At(active, freqs)
    requires forall i :: 0 <= i < |active| ==> freqs[active[i]] > 0
    requires forall s :: 0 <= s < |freqs| && freqs[s] > 0 ==> s in active
    requires forall i: nat, j: nat :: i < j < |active| ==> active[i] < active[j]
    requires ByFrequency(freqs, order) && DistinctBelow(order, |freqs|)
    requires forall s :: 0 <= s < |freqs| ==> (s in order <==> freqs[s] > 0)
    requires HeapCost.Best(weights, ds) && forall s: nat :: s < |ds| ==> 0 < ds[s]
    requires RepairsDepths(run, ds, ml) && bl == run[|run| - 1]
    requires |lens| == |freqs| && |bl| == ml + 1 && At(order, lens) == Expanded(bl, ml)
    ensures FromCheapest(freqs, ml, lens, Spread(active, ds, |freqs|))
  {
    hide Expanded, Spread, RepairRun, Dot, ShortestOver, HeapCost.PrefixLengths;
    assert Enumerates(active, freqs);
    SpreadShortest(active, freqs, ds);
    var raw := Spread(active, ds, |freqs|);
    if AllUpTo(raw, ml) {
      SpreadAt(active, ds, |freqs|);
      forall i: nat | i < |ds| ensures ds[i] <= ml {
        assert At(active, raw)[i] == raw[active[i]];
      }
      OrderEnumerates(freqs, order);
      HandedOutCheapest(active, order, freqs, lens, ds, bl, ml);
    }
  }

  lemma {:induction false} OrderEnumerates(freqs: seq<nat>, order: seq<nat>)
    requires ByFrequency(freqs, order) && DistinctBelow(order, |freqs|)
    requires forall s :: 0 <= s < |freqs| ==> (s in order <==> freqs[s] > 0)
    ensures Enumerates(order, freqs) && Descending(At(order, freqs))
  {
  }

  lemma {:induction false} AllHandedOut(freqs: seq<nat>, order: seq<nat>, lens: seq<nat>, ml: nat)
    requires |lens| == |freqs| && ml <= 15 && HandedOut(order, |order|, lens, ml)
    requires forall s :: 0 <= s < |freqs| ==> (s in order <==> freqs[s] > 0)
    ensures ValidLefts(lens)
    ensures forall s :: 0 <= s < |freqs| && freqs[s] > 0 ==> 1 <= lens[s] <= ml
    ensures forall s :: 0 <= s < |freqs| && freqs[s] == 0 ==> lens[s] == 0
  {
    forall s | 0 <= s < |freqs| && freqs[s] > 0 ensures 1 <= lens[s] <= ml {
      assert s in order;
    }
    forall s | 0 <= s < |freqs| && lens[s] != 0 ensures freqs[s] != 0 {
      var i :| 0 <= i < |order| && order[i] == s;
      assert s in order;
    }
  }

  lemma {:induction false} ActiveBounds(freqs: seq<nat>)
    ensures ActiveCount(freqs) <= |freqs|
    ensures (exists s :: 0 <= s < |freqs| && freqs[s] > 0) ==> ActiveCount(freqs) >= 1
  {
    if |freqs| > 0 {
      var front := freqs[..|freqs| - 1];
      ActiveBounds(front);
      if s :| 0 <= s < |freqs| && freqs[s] > 0 && s < |front| {
        assert front[s] > 0;
      }
    }
  }

  method FromFrequencies(freqs: seq<nat>, ml: nat) returns (t: HuffmanTable, ghost widths: seq<nat>, ghost top: nat)
    requires 1 <= ml <= 15 && ActiveCount(freqs) <= Pow2(ml)
    ensures |t.lengths| == |freqs| && t.codes == CodesFor(t.lengths) && |t.slots| == 32
            && ShortCells(t.entries, |t.lengths|)
    ensures ValidLefts(t.lengths) && forall s :: 0 <= s < |freqs| ==> t.lengths[s] <= ml
    ensures forall s :: 0 <= s < |freqs| && freqs[s] > 0 ==> t.lengths[s] >= 1
    ensures OrderedByFrequency(freqs, t.lengths)
    ensures ActiveCount(freqs) >= 1 && |freqs| >= 2 ==>
              LeftComplete(t.lengths) && Built(t.lengths, t.slots, t.entries, widths, top)
  {
    hide LeftKraft, KSum, Pow2, ActiveCount, Built;
    var lens;
    ghost var raw;
    lens, raw := LengthsFor(freqs, ml);
    var r;
    r, widths, top := FromLengths(lens);
    t := r.value;
  }

  // --- Flat codes ---

  /** Lengths that differ by at most one: short ones first, so many that the code is complete. */
  function FlatLengths(count: nat): (lens: seq<nat>)
    requires 2 <= count <= 0x1_0000
    ensures |lens| == count
  {
    if count == 2 then [1, 1]
    else
      var bits := Log2(count - 1) + 1;
      FlatBits(count);
      var short: nat := Pow2(bits) - count;
      Repeat(bits - 1, short) + Repeat(bits, count - short)
  }

  function Repeat(v: nat, n: nat): (r: seq<nat>)
    ensures |r| == n && forall i :: 0 <= i < n ==> r[i] == v
  {
    seq(n, i => v)
  }

  lemma {:induction false} FlatBits(count: nat)
    requires 3 <= count <= 0x1_0000
    ensures var bits := Log2(count - 1) + 1;
            2 <= bits <= 16 && count <= Pow2(bits) <= 2 * (count - 1)
  {
    var n := count - 1;
    BitWriting.Log2Bounds(n);
    PowerTable();
    BitWriting.Log2Below(n, 16);
  }

  lemma {:induction false} RepeatKraft(front: seq<nat>, l: nat, n: nat)
    requires 1 <= l <= 16
    ensures LeftKraft(front + Repeat(l, n)) == LeftKraft(front) + n * Pow2(16 - l)
  {
    if n == 0 {
      assert front + Repeat(l, 0) == front;
    } else {
      RepeatKraft(front, l, n - 1);
      Distribute(n - 1, 1, Pow2(16 - l));
      assert (front + Repeat(l, n))[..|front| + n - 1] == front + Repeat(l, n - 1);
    }
  }

  lemma {:induction false} TwoRunsKraft(a: nat, n: nat, b: nat, k: nat)
    requires 1 <= a <= 16 && 1 <= b <= 16
    ensures LeftKraft(Repeat(a, n) + Repeat(b, k)) == n * Pow2(16 - a) + k * Pow2(16 - b)
  {
    hide LeftKraft, Pow2;
    assert [] + Repeat(a, n) == Repeat(a, n);
    RepeatKraft([], a, n);
    RepeatKraft(Repeat(a, n), b, k);
    NoKraft([]);
  }

  lemma {:induction false} TwoRunsComplete(a: nat, n: nat, b: nat, k: nat)
    requires 1 <= a <= 16 && 1 <= b <= 16 && n * Pow2(16 - a) + k * Pow2(16 - b) == Pow2(16)
    ensures LeftComplete(Repeat(a, n) + Repeat(b, k))
  {
    hide LeftKraft, Pow2;
    TwoRunsKraft(a, n, b, k);
  }

  lemma {:induction false} FlatComplete(count: nat)
    requires 2 <= count <= 0x1_0000
    ensures LeftComplete(FlatLengths(count))
  {
    hide LeftKraft, Pow2, LeftComplete;
    if count == 2 {
      assert FlatLengths(2) == Repeat(1, 1) + Repeat(1, 1);
      PowerTable();
      TwoRunsComplete(1, 1, 1, 1);
    } else {
      var bits := Log2(count - 1) + 1;
      FlatBits(count);
      var short: nat := Pow2(bits) - count;
      FlatSum(bits, short, count);
      TwoRunsComplete(bits - 1, short, bits, count - short);
    }
  }

  lemma {:induction false} FlatSum(bits: nat, short: nat, count: nat)
    requires 2 <= bits <= 16 && short + count == Pow2(bits) && short <= count
    ensures short * Pow2(16 - (bits - 1)) + (count - short) * Pow2(16 - bits) == Pow2(16)
  {
    var h := Pow2(16 - bits);
    assert Pow2(16 - (bits - 1)) == 2 * h;
    Associate(short, 2, h);
    Distribute(2 * short, count - short, h);
    Pow2Add(bits, 16 - bits);
  }

  /** The short codes of a flat code come first, and no two lengths differ by more than 1. */
  lemma {:induction false} FlatOrder(count: nat, i: nat, j: nat)
    requires 2 <= count <= 0x1_0000 && i <= j < count
    ensures FlatLengths(count)[i] <= FlatLengths(count)[j] <= FlatLengths(count)[i] + 1
  {
    hide Pow2, Log2;
    if count > 2 {
      FlatBits(count);
    }
  }

  /** Completeness and the order fix the lengths: the shortest length that lets all symbols have codes. */
  lemma {:induction false} FlatUnique(lens: seq<nat>)
    requires 2 <= |lens| <= 0x1_0000 && LeftComplete(lens)
    requires forall i: nat, j: nat :: i <= j < |lens| ==> 1 <= lens[i] <= lens[j] <= lens[i] + 1
    ensures lens == FlatLengths(|lens|)
  {
    hide Pow2, LeftKraft, FlatLengths;
    var n, c := |lens|, lens[0];
    var a := ShortRun(lens);
    TwoRuns(lens, a);
    if a == n {
      OneRunCount(c, n);
      if c == 1 {
        PowerTable();
        FlatOfTwo();
        assert lens == [1, 1];
      } else {
        TwicePow(c - 1);
        FlatOf(n, c - 1);
        assert lens == Repeat(c - 1, 0) + Repeat(c, n);
      }
    } else {
      TwoRunsCount(c, a, n);
      TwicePow(c);
      FlatOf(n, c);
    }
  }

  lemma {:induction false} TwoRuns(lens: seq<nat>, a: nat)
    requires |lens| > 0 && LeftComplete(lens) && 1 <= a <= |lens| && lens[0] >= 1
    requires forall i: nat :: i < |lens| ==> lens[i] == if i < a then lens[0] else lens[0] + 1
    ensures var n, c := |lens|, lens[0];
            && c <= 16 && lens == Repeat(c, a) + Repeat(c + 1, n - a)
            && (a < n ==> c < 16 && a * Pow2(16 - c) + (n - a) * Pow2(16 - (c + 1)) == Pow2(16))
            && (a == n ==> n * Pow2(16 - c) + 0 * Pow2(0) == Pow2(16))
  {
    hide LeftKraft, Pow2;
    var n, c := |lens|, lens[0];
    if a < n {
      assert lens[a] == c + 1;
      TwoRunsKraft(c, a, c + 1, n - a);
    } else {
      assert lens == Repeat(c, n) + Repeat(16, 0);
      TwoRunsKraft(c, n, 16, 0);
    }
  }

  lemma {:induction false} FlatOfTwo()
    ensures FlatLengths(2) == [1, 1]
  {
  }

  lemma {:induction false} FlatOf(n: nat, c: nat)
    requires 2 <= n <= 0x1_0000 && c >= 1 && Pow2(c) < n <= Pow2(c + 1)
    ensures FlatLengths(n) == Repeat(c, Pow2(c + 1) - n) + Repeat(c + 1, n - (Pow2(c + 1) - n))
  {
    hide Pow2;
    FlatLog(n, c);
    TwicePow(c);
  }

  lemma {:induction false} TwicePow(c: nat)
    ensures Pow2(c + 1) == 2 * Pow2(c)
  {
  }

  lemma {:induction false} ShortRun(lens: seq<nat>) returns (a: nat)
    requires |lens| > 0 && forall i: nat, j: nat :: i <= j < |lens| ==> 1 <= lens[i] <= lens[j] <= lens[i] + 1
    ensures 1 <= a <= |lens| && forall i: nat :: i < |lens| ==> lens[i] == if i < a then lens[0] else lens[0] + 1
  {
    a := 1;
    while a < |lens| && lens[a] == lens[0]
      invariant 1 <= a <= |lens| && forall i: nat :: i < a ==> lens[i] == lens[0]
    {
      a := a + 1;
    }
  }

  lemma {:induction false} OneRunCount(c: nat, n: nat)
    requires 1 <= c <= 16 && n * Pow2(16 - c) + 0 * Pow2(0) == Pow2(16)
    ensures n == Pow2(c)
  {
    Pow2Add(c, 16 - c);
    SameFactor(n, Pow2(c), Pow2(16 - c));
  }

  lemma {:induction false} TwoRunsCount(c: nat, a: nat, n: nat)
    requires 1 <= c <= 15 && a <= n && a * Pow2(16 - c) + (n - a) * Pow2(16 - (c + 1)) == Pow2(16)
    ensures a + n == Pow2(c + 1)
  {
    hide Pow2;
    var h := Pow2(15 - c);
    TwicePow(15 - c);
    Associate(a, 2, h);
    Distribute(2 * a, n - a, h);
    Pow2Add(c + 1, 15 - c);
    SameFactor(a + n, Pow2(c + 1), h);
  }

  lemma {:induction false} SameFactor(x: nat, y: nat, h: nat)
    requires h > 0 && x * h == y * h
    ensures x == y
  {
    CancelFactor(x, y, h);
    CancelFactor(y, x, h);
  }

  lemma {:induction false} FlatLog(n: nat, c: nat)
    requires n >= 2 && c >= 1 && Pow2(c) < n <= Pow2(c + 1)
    ensures Log2(n - 1) == c && n > 2
  {
    BitWriting.Log2Below(n - 1, c + 1);
    BitWriting.Log2AtLeast(n - 1, c);
    Pow2Monotone(1, c);
  }
}
