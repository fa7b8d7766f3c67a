/** The cost of code lengths under given weights: merging the two least weights never makes the best code longer. */
module CodeCost {
  import opened Powers

  /** The weighted sum of lengths. */
  function Dot(ws: seq<nat>, ds: seq<nat>): nat
    requires |ws| == |ds|
  {
    if |ws| == 0 then 0 else Dot(ws[..|ws| - 1], ds[..|ds| - 1]) + ws[|ws| - 1] * ds[|ds| - 1]
  }

  /** Kraft sum of lengths up to `m`, scaled by 2^m. */
  function Kraft(ds: seq<nat>, m: nat): nat {
    if |ds| == 0 then 0
    else Kraft(ds[..|ds| - 1], m) + if ds[|ds| - 1] <= m then Pow2(m - ds[|ds| - 1]) else 0
  }

  /** Lengths that a prefix code of depth `m` can have. */
  predicate Fits(ds: seq<nat>, m: nat) {
    AllUpTo(ds, m) && Kraft(ds, m) <= Pow2(m)
  }

  function Without(s: seq<nat>, i: nat): (r: seq<nat>)
    requires i < |s|
    ensures |r| == |s| - 1 && forall k: nat :: k < |r| ==> r[k] == if k < i then s[k] else s[k + 1]
  {
    s[..i] + s[i + 1..]
  }

  lemma {:induction false} WithoutLast(s: seq<nat>, i: nat)
    requires i < |s|
    ensures i < |s| - 1 ==> Without(s, i)[..|s| - 2] == Without(s[..|s| - 1], i)
    ensures i == |s| - 1 ==> Without(s, i) == s[..|s| - 1]
  {
  }

  lemma {:induction false} DotWithout(ws: seq<nat>, ds: seq<nat>, i: nat)
    requires |ws| == |ds| && i < |ws|
    ensures Dot(ws, ds) == ws[i] * ds[i] + Dot(Without(ws, i), Without(ds, i))
  {
    var n := |ws| - 1;
    WithoutLast(ws, i);
    WithoutLast(ds, i);
    if i < n {
      DotWithout(ws[..n], ds[..n], i);
      assert Without(ws, i)[n - 1] == ws[n] && Without(ds, i)[n - 1] == ds[n];
    }
  }

  lemma {:induction false} KraftWithout(ds: seq<nat>, i: nat, m: nat)
    requires i < |ds| && ds[i] <= m
    ensures Kraft(ds, m) == Pow2(m - ds[i]) + Kraft(Without(ds, i), m)
  {
    hide Pow2;
    var n := |ds| - 1;
    WithoutLast(ds, i);
    if i < n {
      KraftWithout(ds[..n], i, m);
      assert Without(ds, i)[n - 1] == ds[n];
    }
  }

  lemma {:induction false} DotAppend(ws: seq<nat>, ds: seq<nat>, w: nat, d: nat)
    requires |ws| == |ds|
    ensures Dot(ws + [w], ds + [d]) == Dot(ws, ds) + w * d
  {
    assert (ws + [w])[..|ws|] == ws && (ds + [d])[..|ds|] == ds;
  }

  lemma {:induction false} KraftAppend(ds: seq<nat>, d: nat, m: nat)
    requires d <= m
    ensures Kraft(ds + [d], m) == Kraft(ds, m) + Pow2(m - d)
  {
    hide Pow2;
    assert (ds + [d])[..|ds|] == ds;
  }

  // --- Exchanging two lengths ---

  function Swapped(ds: seq<nat>, i: nat, j: nat): seq<nat>
    requires i < |ds| && j < |ds|
  {
    ds[i := ds[j]][j := ds[i]]
  }

  lemma {:induction false} SwapKraft(ds: seq<nat>, i: nat, j: nat, m: nat)
    requires i < |ds| && j < |ds| && forall k: nat :: k < |ds| ==> ds[k] <= m
    ensures Kraft(Swapped(ds, i, j), m) == Kraft(ds, m)
  {
    hide Kraft, Pow2;
    var e := ds[i := ds[j]];
    KraftWithout(ds, i, m);
    KraftWithout(e, i, m);
    assert Without(e, i) == Without(ds, i);
    KraftWithout(e, j, m);
    KraftWithout(Swapped(ds, i, j), j, m);
    assert Without(Swapped(ds, i, j), j) == Without(e, j);
  }

  lemma {:induction false} DotSet(ws: seq<nat>, ds: seq<nat>, i: nat, d: nat)
    requires |ws| == |ds| && i < |ws|
    ensures Dot(ws, ds[i := d]) + ws[i] * ds[i] == Dot(ws, ds) + ws[i] * d
  {
    hide Dot;
    DotWithout(ws, ds, i);
    DotWithout(ws, ds[i := d], i);
    assert Without(ds[i := d], i) == Without(ds, i);
  }

  /** Giving the longer one of two lengths to the lighter weight costs nothing. */
  lemma {:induction false} SwapCost(ws: seq<nat>, ds: seq<nat>, i: nat, j: nat)
    requires |ws| == |ds| && i < |ws| && j < |ws| && ws[i] <= ws[j] && ds[i] <= ds[j]
    ensures Dot(ws, Swapped(ds, i, j)) <= Dot(ws, ds)
  {
    hide Dot;
    DotSet(ws, ds, i, ds[j]);
    DotSet(ws, ds[i := ds[j]], j, ds[i]);
    if i != j {
      Exchange(ws[i], ws[j], ds[i], ds[j]);
    }
  }

  lemma {:induction false} Exchange(a: nat, b: nat, x: nat, y: nat)
    requires a <= b && x <= y
    ensures a * y + b * x <= a * x + b * y
  {
    var d := b - a;
    assert b * x == a * x + d * x && b * y == a * y + d * y;
    MulMonotone(d, x, y);
  }

  // --- The least weights at the bottom ---

  predicate Least(ws: seq<nat>, i: nat) {
    i < |ws| && forall k: nat :: k < |ws| ==> ws[i] <= ws[k]
  }

  predicate Deepest(ds: seq<nat>, i: nat) {
    i < |ds| && forall k: nat :: k < |ds| ==> ds[k] <= ds[i]
  }

  lemma {:induction false} SomeDeepest(ds: seq<nat>) returns (p: nat)
    requires |ds| > 0
    ensures Deepest(ds, p)
  {
    p := 0;
    for k := 1 to |ds|
      invariant p < |ds| && forall j: nat :: j < k ==> ds[j] <= ds[p]
    {
      if ds[k] > ds[p] {
        p := k;
      }
    }
  }

  predicate AllUpTo(ds: seq<nat>, top: nat) {
    forall k: nat :: k < |ds| ==> ds[k] <= top
  }

  /** A least weight can be at the greatest depth. */
  lemma {:induction false} Lower(ws: seq<nat>, ds: seq<nat>, i: nat, top: nat, m: nat) returns (e: seq<nat>)
    requires |ws| == |ds| && Least(ws, i) && AllUpTo(ds, top) && top <= m
    ensures |e| == |ds| && Deepest(e, i) && AllUpTo(e, top)
    ensures Kraft(e, m) == Kraft(ds, m) && Dot(ws, e) <= Dot(ws, ds)
  {
    hide Kraft, Dot;
    var p := SomeDeepest(ds);
    SwapKraft(ds, i, p, m);
    SwapCost(ws, ds, i, p);
    e := Swapped(ds, i, p);
  }

  /** Lengths up to `y` contribute whole multiples of the share of length `y`. */
  lemma {:induction false} KraftMultiple(ds: seq<nat>, y: nat, m: nat) returns (c: nat)
    requires y <= m && forall k: nat :: k < |ds| ==> ds[k] <= y
    ensures Kraft(ds, m) == c * Pow2(m - y)
  {
    hide Pow2;
    c := 0;
    if |ds| > 0 {
      var n := |ds| - 1;
      var c' := KraftMultiple(ds[..n], y, m);
      Pow2Add(y - ds[n], m - y);
      c := c' + Pow2(y - ds[n]);
      Distribute(c', Pow2(y - ds[n]), Pow2(m - y));
    }
  }

  /** Where a code has room for a longer word, it has room for one as long as its longest. */
  lemma {:induction false} RoomAtDepth(ds: seq<nat>, y: nat, m: nat)
    requires y <= m && (forall k: nat :: k < |ds| ==> ds[k] <= y) && Kraft(ds, m) < Pow2(m)
    ensures Kraft(ds, m) + Pow2(m - y) <= Pow2(m)
  {
    hide Pow2, Kraft;
    var c := KraftMultiple(ds, y, m);
    var h := Pow2(m - y);
    Pow2Add(y, m - y);
    if c >= Pow2(y) {
      MulMonotone(h, Pow2(y), c);
    }
    MulMonotone(h, c + 1, Pow2(y));
    Distribute(c, 1, h);
  }

  /** One merge: any fitting lengths give fitting lengths for the merged weights, at a cost less by the new weight. */
  lemma {:induction false} MergeCost(ws: seq<nat>, i: nat, j: nat, ds: seq<nat>, m: nat) returns (e: seq<nat>)
    requires |ws| == |ds| >= 2 && Least(ws, i) && Least(Without(ws, i), j) && Fits(ds, m)
    ensures var rest := Without(ws, i); var w := ws[i] + rest[j];
            && |e| == |ws| - 1 && Fits(e, m)
            && Dot(Without(rest, j) + [w], e) + w <= Dot(ws, ds)
  {
    hide Kraft, Dot, Pow2;
    var rest := Without(ws, i);
    var d := Lower(ws, ds, i, m, m);
    DotWithout(ws, d, i);
    KraftWithout(d, i, m);
    var x, others := d[i], Without(d, i);
    var r := Lower(rest, others, j, x, m);
    var y, lightest := r[j], Without(rest, j);
    KraftWithout(r, j, m);
    RoomAtDepth(r, y, m);
    assert y >= 1;
    TwicePow(m - y);
    e := Without(r, j) + [y - 1];
    KraftAppend(Without(r, j), y - 1, m);
    DotWithout(rest, r, j);
    DotAppend(lightest, Without(r, j), ws[i] + rest[j], y - 1);
    MulMonotone(ws[i], y, x);
    OneLess(ws[i], rest[j], y);
  }

  lemma {:induction false} OneLess(a: nat, b: nat, y: nat)
    requires y >= 1
    ensures (a + b) * (y - 1) + (a + b) == a * y + b * y
  {
  }

  lemma {:induction false} TwicePow(k: nat)
    ensures Pow2(k + 1) == 2 * Pow2(k)
  {
  }
}
