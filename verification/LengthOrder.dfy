/** Handing the shortest lengths to the most frequent symbols is the cheapest way to hand them out. */
module LengthOrder {
  import opened Powers
  import opened CodeCost
  import opened HeapCost
  import opened LengthLimit

  // --- Values in the order of some symbols ---

  predicate Within(order: seq<nat>, n: nat) {
    forall i: nat :: i < |order| ==> order[i] < n
  }

  function At(order: seq<nat>, v: seq<nat>): (r: seq<nat>)
    requires Within(order, |v|)
    ensures |r| == |order| && forall i: nat :: i < |r| ==> r[i] == v[order[i]]
  {
    seq(|order|, i requires 0 <= i < |order| => v[order[i]])
  }

  /** Each symbol with a count once, and no other symbol. */
  predicate Enumerates(order: seq<nat>, freqs: seq<nat>) {
    && Within(order, |freqs|)
    && (forall i: nat, j: nat :: i < j < |order| ==> order[i] != order[j])
    && (forall s: nat :: s < |freqs| ==> (s in order <==> freqs[s] > 0))
  }

  /** `v` at the first `k` symbols of the order, 0 elsewhere. */
  function Masked(order: seq<nat>, k: nat, v: seq<nat>): (r: seq<nat>)
    requires k <= |order|
    ensures |r| == |v| && forall s: nat :: s < |v| ==> r[s] == if s in order[..k] then v[s] else 0
  {
    seq(|v|, s requires 0 <= s < |v| => if s in order[..k] then v[s] else 0)
  }

  lemma {:induction false} MaskedNext(order: seq<nat>, k: nat, v: seq<nat>)
    requires k < |order| && Within(order, |v|) && forall i: nat, j: nat :: i < j < |order| ==> order[i] != order[j]
    ensures Masked(order, k, v)[order[k]] == 0
    ensures Masked(order, k + 1, v) == Masked(order, k, v)[order[k] := v[order[k]]]
  {
    assert order[..k + 1] == order[..k] + [order[k]];
  }

  lemma {:induction false} WeightSet(ws: seq<nat>, ds: seq<nat>, i: nat, w: nat)
    requires |ws| == |ds| && i < |ws| && ws[i] == 0
    ensures Dot(ws[i := w], ds) == Dot(ws, ds) + w * ds[i]
  {
    hide Dot;
    DotWithout(ws, ds, i);
    DotWithout(ws[i := w], ds, i);
    assert Without(ws[i := w], i) == Without(ws, i);
  }

  lemma {:induction false} NoWeight(ws: seq<nat>, ds: seq<nat>)
    requires |ws| == |ds| && forall i: nat :: i < |ws| ==> ws[i] == 0
    ensures Dot(ws, ds) == 0
  {
    if |ws| > 0 {
      NoWeight(ws[..|ws| - 1], ds[..|ds| - 1]);
    }
  }

  lemma {:induction false} DotMasked(order: seq<nat>, k: nat, freqs: seq<nat>, lens: seq<nat>)
    requires Enumerates(order, freqs) && k <= |order| && |lens| == |freqs|
    ensures Dot(Masked(order, k, freqs), lens) == Dot(At(order, freqs)[..k], At(order, lens)[..k])
  {
    if k == 0 {
      NoWeight(Masked(order, 0, freqs), lens);
    } else {
      DotMasked(order, k - 1, freqs, lens);
      MaskedNext(order, k - 1, freqs);
      WeightSet(Masked(order, k - 1, freqs), lens, order[k - 1], freqs[order[k - 1]]);
      PrefixDot(At(order, freqs), At(order, lens), k);
    }
  }

  lemma {:induction false} PrefixDot(ws: seq<nat>, ds: seq<nat>, k: nat)
    requires |ws| == |ds| && 0 < k <= |ws|
    ensures Dot(ws[..k], ds[..k]) == Dot(ws[..k - 1], ds[..k - 1]) + ws[k - 1] * ds[k - 1]
  {
    assert ws[..k][..k - 1] == ws[..k - 1] && ds[..k][..k - 1] == ds[..k - 1];
  }

  /** The weighted length, symbol by symbol in any order. */
  lemma {:induction false} DotInOrder(order: seq<nat>, freqs: seq<nat>, lens: seq<nat>)
    requires Enumerates(order, freqs) && |lens| == |freqs|
    ensures Dot(freqs, lens) == Dot(At(order, freqs), At(order, lens))
  {
    hide Dot;
    DotMasked(order, |order|, freqs, lens);
    assert order[..|order|] == order;
    assert Masked(order, |order|, freqs) == freqs;
    assert At(order, freqs)[..|order|] == At(order, freqs) && At(order, lens)[..|order|] == At(order, lens);
  }

  lemma {:induction false} CapMasked(order: seq<nat>, k: nat, lens: seq<nat>, m: nat)
    requires Within(order, |lens|) && k <= |order| && forall i: nat, j: nat :: i < j < |order| ==> order[i] != order[j]
    requires forall i: nat :: i < |order| ==> 0 < lens[order[i]] <= m
    ensures CapSum(Masked(order, k, lens), m) == Kraft(At(order, lens)[..k], m)
  {
    hide Pow2, CapSum, Kraft;
    if k == 0 {
      NoCode(Masked(order, 0, lens), m);
      NoLengths(At(order, lens), m);
    } else {
      CapMasked(order, k - 1, lens, m);
      MaskedNext(order, k - 1, lens);
      CapUpdate(Masked(order, k - 1, lens), order[k - 1], lens[order[k - 1]], m);
      PrefixKraft(At(order, lens), k, m);
    }
  }

  lemma {:induction false} NoLengths(ds: seq<nat>, m: nat)
    ensures Kraft(ds[..0], m) == 0
  {
  }

  lemma {:induction false} PrefixKraft(ds: seq<nat>, k: nat, m: nat)
    requires 0 < k <= |ds| && ds[k - 1] <= m
    ensures Kraft(ds[..k], m) == Kraft(ds[..k - 1], m) + Pow2(m - ds[k - 1])
  {
    hide Pow2;
    assert ds[..k][..k - 1] == ds[..k - 1];
  }

  lemma {:induction false} NoCode(lens: seq<nat>, m: nat)
    requires forall s: nat :: s < |lens| ==> lens[s] == 0
    ensures CapSum(lens, m) == 0
  {
    if |lens| > 0 {
      NoCode(lens[..|lens| - 1], m);
    }
  }

  lemma {:induction false} FewerCodes(few: seq<nat>, lens: seq<nat>, m: nat)
    requires |few| == |lens| && forall s: nat :: s < |lens| ==> few[s] == 0 || few[s] == lens[s]
    ensures CapSum(few, m) <= CapSum(lens, m)
  {
    hide Pow2;
    if |lens| > 0 {
      FewerCodes(few[..|few| - 1], lens[..|lens| - 1], m);
    }
  }

  // --- Codes for symbols with counts ---

  /** Lengths of a prefix code in which every symbol with a count has a word; 0 for a symbol without one. */
  ghost predicate CodeOver(freqs: seq<nat>, lens: seq<nat>) {
    && |lens| == |freqs| && (forall s: nat :: s < |freqs| && freqs[s] > 0 ==> lens[s] > 0)
    && exists m: nat :: AllUpTo(lens, m) && CapSum(lens, m) <= Pow2(m)
  }

  /** A prefix code such that no other one has a smaller weighted length. */
  ghost predicate ShortestOver(freqs: seq<nat>, lens: seq<nat>) {
    CodeOver(freqs, lens)
    && forall other :: |other| == |freqs| && CodeOver(freqs, other) ==> Dot(freqs, lens) <= Dot(freqs, other)
  }

  lemma {:induction false} OtherAt(order: seq<nat>, freqs: seq<nat>, other: seq<nat>)
    requires Enumerates(order, freqs) && CodeOver(freqs, other)
    ensures PrefixLengths(At(order, other))
  {
    hide CapSum, Kraft, Pow2;
    var m: nat :| AllUpTo(other, m) && CapSum(other, m) <= Pow2(m);
    CapMasked(order, |order|, other, m);
    FewerCodes(Masked(order, |order|, other), other, m);
    assert At(order, other)[..|order|] == At(order, other);
    assert Fits(At(order, other), m);
  }

  /** The best lengths for the counts, spread over the symbols. */
  function Spread(order: seq<nat>, ds: seq<nat>, n: nat): (r: seq<nat>)
    requires |order| == |ds| && Within(order, n)
    ensures |r| == n
    decreases |order|
  {
    if |order| == 0 then seq(n, i => 0)
    else Spread(order[..|order| - 1], ds[..|ds| - 1], n)[order[|order| - 1] := ds[|ds| - 1]]
  }

  lemma {:induction false} SpreadAt(order: seq<nat>, ds: seq<nat>, n: nat)
    requires |order| == |ds| && Within(order, n) && forall i: nat, j: nat :: i < j < |order| ==> order[i] != order[j]
    ensures At(order, Spread(order, ds, n)) == ds
    ensures forall s: nat :: s < n && s !in order ==> Spread(order, ds, n)[s] == 0
  {
    hide Spread;
    forall i: nat | i < |order| ensures Spread(order, ds, n)[order[i]] == ds[i] {
      SpreadEntry(order, ds, n, i);
    }
    forall s: nat | s < n && s !in order ensures Spread(order, ds, n)[s] == 0 {
      SpreadNone(order, ds, n, s);
    }
  }

  lemma {:induction false} SpreadEntry(order: seq<nat>, ds: seq<nat>, n: nat, i: nat)
    requires |order| == |ds| && Within(order, n) && i < |order|
    requires forall i: nat, j: nat :: i < j < |order| ==> order[i] != order[j]
    ensures Spread(order, ds, n)[order[i]] == ds[i]
    decreases |order|
  {
    var k := |order| - 1;
    if i < k {
      SpreadEntry(order[..k], ds[..k], n, i);
    }
  }

  lemma {:induction false} SpreadNone(order: seq<nat>, ds: seq<nat>, n: nat, s: nat)
    requires |order| == |ds| && Within(order, n) && s < n && s !in order
    ensures Spread(order, ds, n)[s] == 0
    decreases |order|
  {
    if |order| > 0 {
      SpreadNone(order[..|order| - 1], ds[..|ds| - 1], n, s);
    }
  }

  lemma {:induction false} SpreadShortest(order: seq<nat>, freqs: seq<nat>, ds: seq<nat>)
    requires Enumerates(order, freqs) && |ds| == |order| && Best(At(order, freqs), ds)
    requires forall i: nat :: i < |ds| ==> ds[i] > 0
    ensures ShortestOver(freqs, Spread(order, ds, |freqs|))
  {
    hide CapSum, Kraft, Pow2, Dot, Spread, CodeOver;
    var r := Spread(order, ds, |freqs|);
    SpreadIsCode(order, freqs, ds);
    SpreadAt(order, ds, |freqs|);
    DotInOrder(order, freqs, r);
    CodeLength(freqs, r);
    forall other | |other| == |freqs| && CodeOver(freqs, other) ensures Dot(freqs, r) <= Dot(freqs, other) {
      OtherAt(order, freqs, other);
      DotInOrder(order, freqs, other);
    }
  }

  lemma {:induction false} CodeLength(freqs: seq<nat>, lens: seq<nat>)
    requires CodeOver(freqs, lens)
    ensures |lens| == |freqs|
  {
  }

  lemma {:induction false} SpreadIsCode(order: seq<nat>, freqs: seq<nat>, ds: seq<nat>)
    requires Enumerates(order, freqs) && |ds| == |order| && PrefixLengths(ds)
    requires forall i: nat :: i < |ds| ==> ds[i] > 0
    ensures CodeOver(freqs, Spread(order, ds, |freqs|))
  {
    hide CapSum, Kraft, Pow2, Spread;
    var r := Spread(order, ds, |freqs|);
    SpreadAt(order, ds, |freqs|);
    var m: nat :| Fits(ds, m);
    forall i: nat | i < |order| ensures 0 < r[order[i]] <= m {
      assert r[order[i]] == At(order, r)[i];
    }
    CapMasked(order, |order|, r, m);
    assert ds[..|order|] == ds && order[..|order|] == order;
    assert Masked(order, |order|, r) == r;
    forall s: nat | s < |r| ensures r[s] <= m {
      if s in order {
        var i: nat :| i < |order| && order[i] == s;
      }
    }
  }

  // --- Ascending lengths for descending weights ---

  predicate Descending(ws: seq<nat>) {
    forall i: nat, j: nat :: i < j < |ws| ==> ws[i] >= ws[j]
  }

  predicate Rising(ds: seq<nat>) {
    forall i: nat, j: nat :: i < j < |ds| ==> ds[i] <= ds[j]
  }

  /** Of all arrangements of the lengths the ascending one is the cheapest. */
  lemma {:induction false} AscendingCheapest(ws: seq<nat>, ds: seq<nat>, other: seq<nat>)
    requires |ws| == |ds| == |other| && Descending(ws) && Rising(ds) && multiset(ds) == multiset(other)
    ensures Dot(ws, ds) <= Dot(ws, other)
    decreases |ws|
  {
    hide Dot;
    if |ws| > 0 {
      var n := |ws| - 1;
      var moved := LastAlike(ws, ds, other);
      AscendingCheapest(ws[..n], ds[..n], moved[..n]);
      LastDot(ws, ds);
      LastDot(ws, moved);
    }
  }

  /** The other arrangement with the largest length at the end. */
  lemma {:induction false} LastAlike(ws: seq<nat>, ds: seq<nat>, other: seq<nat>) returns (moved: seq<nat>)
    requires |ws| == |ds| == |other| > 0 && Descending(ws) && Rising(ds) && multiset(ds) == multiset(other)
    ensures |moved| == |ds| && moved[|ds| - 1] == ds[|ds| - 1] && Dot(ws, moved) <= Dot(ws, other)
    ensures multiset(ds[..|ds| - 1]) == multiset(moved[..|ds| - 1])
  {
    hide Dot;
    var n := |ws| - 1;
    assert ds[n] in multiset(other);
    var k: nat :| k < |other| && other[k] == ds[n];
    LastLargest(ds, other, n);
    SwapCost(ws, other, n, k);
    moved := Swapped(other, n, k);
    SwappedItems(other, n, k);
    LastItem(ds, n);
    LastItem(moved, n);
  }

  lemma {:induction false} LastLargest(ds: seq<nat>, other: seq<nat>, n: nat)
    requires |ds| == |other| == n + 1 && Rising(ds) && multiset(ds) == multiset(other)
    ensures other[n] <= ds[n]
  {
    assert other[n] in multiset(ds);
  }

  lemma {:induction false} SwappedItems(s: seq<nat>, i: nat, j: nat)
    requires i < |s| && j < |s|
    ensures multiset(Swapped(s, i, j)) == multiset(s)
  {
    var e := s[i := s[j]];
    assert multiset(e) == multiset(s) - multiset{s[i]} + multiset{s[j]};
    assert multiset(e[j := s[i]]) == multiset(e) - multiset{e[j]} + multiset{s[i]};
  }

  lemma {:induction false} LastItem(s: seq<nat>, n: nat)
    requires |s| == n + 1
    ensures multiset(s) == multiset(s[..n]) + multiset{s[n]} && multiset(s[..n]) == multiset(s) - multiset{s[n]}
  {
    assert s == s[..n] + [s[n]];
  }

  lemma {:induction false} LastDot(ws: seq<nat>, ds: seq<nat>)
    requires |ws| == |ds| > 0
    ensures var n := |ws| - 1; Dot(ws, ds) == Dot(ws[..n], ds[..n]) + ws[n] * ds[n]
  {
  }

  // --- A distribution of lengths, written out ---

  function Times(v: nat, n: nat): (r: seq<nat>)
    ensures |r| == n && forall i: nat :: i < n ==> r[i] == v
  {
    seq(n, i => v)
  }

  /** The lengths up to `l` in ascending order. */
  function Expanded(bl: seq<nat>, l: nat): (r: seq<nat>)
    requires l < |bl|
    ensures forall i: nat :: i < |r| ==> 1 <= r[i] <= l
    decreases l
  {
    if l == 0 then [] else Expanded(bl, l - 1) + Times(l, bl[l])
  }

  lemma {:induction false} ExpandedRises(bl: seq<nat>, l: nat)
    requires l < |bl|
    ensures Rising(Expanded(bl, l))
    decreases l
  {
    if l > 0 {
      ExpandedRises(bl, l - 1);
    }
  }

  lemma {:induction false} TimesItems(v: nat, n: nat, x: nat)
    ensures multiset(Times(v, n))[x] == if x == v then n else 0
  {
    if n > 0 {
      TimesItems(v, n - 1, x);
      assert Times(v, n) == Times(v, n - 1) + [v];
    } else {
      assert Times(v, 0) == [];
    }
  }

  lemma {:induction false} ExpandedItems(bl: seq<nat>, l: nat, x: nat)
    requires l < |bl|
    ensures multiset(Expanded(bl, l))[x] == if 1 <= x <= l then bl[x] else 0
    decreases l
  {
    if l > 0 {
      ExpandedItems(bl, l - 1, x);
      TimesItems(l, bl[l], x);
    }
  }

  lemma {:induction false} CountedItems(ds: seq<nat>, l: nat, ml: nat)
    requires AllUpTo(ds, ml)
    ensures multiset(ds)[l] == CappedCount(ds, l, ml)
  {
    if |ds| > 0 {
      var n := |ds| - 1;
      CountedItems(ds[..n], l, ml);
      LastItem(ds, n);
    }
  }

  lemma {:induction false} SameItems(bl: seq<nat>, ds: seq<nat>, ml: nat)
    requires |bl| == ml + 1 && AllUpTo(ds, ml) && (forall i: nat :: i < |ds| ==> ds[i] > 0)
    requires forall l: nat :: l <= ml ==> bl[l] == CappedCount(ds, l, ml)
    ensures multiset(Expanded(bl, ml)) == multiset(ds)
  {
    hide Expanded, CappedCount;
    forall x: nat ensures multiset(Expanded(bl, ml))[x] == multiset(ds)[x] {
      ExpandedItems(bl, ml, x);
      CountedItems(ds, x, ml);
      if x == 0 || x > ml {
        assert x !in multiset(ds);
      }
    }
  }

  lemma {:induction false} AtItems(a: seq<nat>, b: seq<nat>, v: seq<nat>)
    requires Within(a, |v|) && Within(b, |v|) && multiset(a) == multiset(b)
    ensures multiset(At(a, v)) == multiset(At(b, v))
    decreases |a|
  {
    if |a| > 0 {
      var n := |a| - 1;
      var c, k := EndAlike(a, b);
      AtItems(a[..n], c[..|c| - 1], v);
      FrontAt(a, v);
      FrontAt(c, v);
      SwapAt(b, k, v);
    } else {
      assert |multiset(b)| == |b|;
    }
  }

  /** The second arrangement with two entries exchanged, so that it ends like the first. */
  lemma {:induction false} EndAlike(a: seq<nat>, b: seq<nat>) returns (c: seq<nat>, k: nat)
    requires |a| > 0 && multiset(a) == multiset(b)
    ensures k < |b| && c == Swapped(b, |b| - 1, k) && |c| == |b|
    ensures c[|c| - 1] == a[|a| - 1] && multiset(a[..|a| - 1]) == multiset(c[..|c| - 1])
  {
    hide Swapped;
    k := IndexIn(a, b);
    c := Swapped(b, |b| - 1, k);
    SwappedItems(b, |b| - 1, k);
    SwappedEnd(b, k);
    SameFront(a, c);
  }

  lemma {:induction false} IndexIn(a: seq<nat>, b: seq<nat>) returns (k: nat)
    requires |a| > 0 && multiset(a) == multiset(b)
    ensures k < |b| && b[k] == a[|a| - 1]
  {
    var x := a[|a| - 1];
    assert x in multiset(b);
    k :| k < |b| && b[k] == x;
  }

  lemma {:induction false} SwappedEnd(b: seq<nat>, k: nat)
    requires k < |b|
    ensures |Swapped(b, |b| - 1, k)| == |b| && Swapped(b, |b| - 1, k)[|b| - 1] == b[k]
  {
  }

  lemma {:induction false} SameFront(a: seq<nat>, c: seq<nat>)
    requires |a| > 0 && |c| > 0 && multiset(a) == multiset(c) && a[|a| - 1] == c[|c| - 1]
    ensures multiset(a[..|a| - 1]) == multiset(c[..|c| - 1])
  {
    LastItem(a, |a| - 1);
    LastItem(c, |c| - 1);
  }

  lemma {:induction false} FrontAt(a: seq<nat>, v: seq<nat>)
    requires |a| > 0 && Within(a, |v|)
    ensures multiset(At(a, v)) == multiset(At(a[..|a| - 1], v)) + multiset{v[a[|a| - 1]]}
  {
    var n := |a| - 1;
    assert At(a, v) == At(a[..n], v) + [v[a[n]]];
  }

  lemma {:induction false} SwapAt(b: seq<nat>, k: nat, v: seq<nat>)
    requires Within(b, |v|) && k < |b|
    ensures var c := Swapped(b, |b| - 1, k); Within(c, |v|) && multiset(At(c, v)) == multiset(At(b, v))
  {
    var c := Swapped(b, |b| - 1, k);
    assert At(c, v) == Swapped(At(b, v), |b| - 1, k);
    SwappedItems(At(b, v), |b| - 1, k);
  }

  lemma {:induction false} SameSymbols(a: seq<nat>, b: seq<nat>, freqs: seq<nat>)
    requires Enumerates(a, freqs) && Enumerates(b, freqs)
    ensures multiset(a) == multiset(b)
  {
    forall s: nat ensures multiset(a)[s] == multiset(b)[s] {
      OnceAtMost(a, s);
      OnceAtMost(b, s);
      assert s in a <==> s in b;
    }
  }

  lemma {:induction false} OnceAtMost(a: seq<nat>, s: nat)
    requires forall i: nat, j: nat :: i < j < |a| ==> a[i] != a[j]
    ensures multiset(a)[s] == if s in a then 1 else 0
  {
    if |a| > 0 {
      var n := |a| - 1;
      OnceAtMost(a[..n], s);
      LastItem(a, n);
    }
  }

  /** Handing out the lengths of a cheapest code by frequency gives a code that is no dearer. */
  lemma {:induction false} HandedOutCheapest(active: seq<nat>, order: seq<nat>, freqs: seq<nat>, lens: seq<nat>,
                                             ds: seq<nat>, bl: seq<nat>, ml: nat)
    requires Enumerates(active, freqs) && Enumerates(order, freqs) && |lens| == |freqs| && Descending(At(order, freqs))
    requires |bl| == ml + 1 && At(order, lens) == Expanded(bl, ml) && |ds| == |active|
    requires AllUpTo(ds, ml) && (forall i: nat :: i < |ds| ==> ds[i] > 0)
    requires forall l: nat :: l <= ml ==> bl[l] == CappedCount(ds, l, ml)
    ensures Dot(freqs, lens) <= Dot(freqs, Spread(active, ds, |freqs|))
  {
    hide Dot, Spread, Expanded, CappedCount;
    var r := Spread(active, ds, |freqs|);
    SpreadAt(active, ds, |freqs|);
    SameSymbols(active, order, freqs);
    AtItems(active, order, r);
    SameItems(bl, ds, ml);
    ExpandedRises(bl, ml);
    AscendingCheapest(At(order, freqs), At(order, lens), At(order, r));
    DotInOrder(order, freqs, lens);
    DotInOrder(order, freqs, r);
  }
}
