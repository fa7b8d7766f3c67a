/** What the inverse of a rift map is built from: image intervals claimed one after the other, the first
    claim on a position being the one that counts. */
module RiftCover {
  import opened Rift

  const TOP := MAX64 + 1

  /** The positions from `lo` up to but not including `hi`. */
  datatype Span = Span(lo: int, hi: int)

  predicate In(s: Span, y: int) {
    s.lo <= y < s.hi
  }

  predicate ValidSpan(s: Span) {
    MIN64 <= s.lo < s.hi <= TOP
  }

  /** Sorted, disjoint, and with at least one free position between neighbours. */
  predicate ValidSpans(b: seq<Span>) {
    && (forall i :: 0 <= i < |b| ==> ValidSpan(b[i]))
    && (forall i, j :: 0 <= i < j < |b| ==> b[i].hi < b[j].lo)
  }

  predicate Covered(b: seq<Span>, y: int) {
    exists i :: 0 <= i < |b| && In(b[i], y)
  }

  /** The first interval that ends at or after `lo`. */
  function FirstTouched(b: seq<Span>, lo: int): (k: nat)
    ensures k <= |b| && (k < |b| ==> lo <= b[k].hi)
    ensures forall i :: 0 <= i < k ==> b[i].hi < lo
  {
    if |b| == 0 || lo <= b[0].hi then 0 else 1 + FirstTouched(b[1..], lo)
  }

  /** Past the last interval, from `k` on, that starts at or before `hi`. */
  function TouchedEnd(b: seq<Span>, k: nat, hi: int): (e: nat)
    requires k <= |b|
    ensures k <= e <= |b| && (e < |b| ==> hi < b[e].lo)
    ensures forall i :: k <= i < e ==> b[i].lo <= hi
    decreases |b| - k
  {
    if k == |b| || hi < b[k].lo then k else TouchedEnd(b, k + 1, hi)
  }

  function Min(a: int, b: int): int {
    if a <= b then a else b
  }

  function Max(a: int, b: int): int {
    if a >= b then a else b
  }

  /** `s` joined with the intervals it overlaps or touches. */
  function Joined(b: seq<Span>, s: Span): Span {
    var f := FirstTouched(b, s.lo);
    var e := TouchedEnd(b, f, s.hi);
    if f == e then s else Span(Min(s.lo, b[f].lo), Max(s.hi, b[e - 1].hi))
  }

  function Claim(b: seq<Span>, s: Span): seq<Span> {
    var f := FirstTouched(b, s.lo);
    var e := TouchedEnd(b, f, s.hi);
    b[..f] + [Joined(b, s)] + b[e..]
  }

  lemma {:induction false} JoinedBounds(b: seq<Span>, s: Span)
    requires ValidSpans(b) && ValidSpan(s)
    ensures var f := FirstTouched(b, s.lo);
            var e := TouchedEnd(b, f, s.hi);
            var j := Joined(b, s);
            && ValidSpan(j)
            && (forall i :: 0 <= i < f ==> b[i].hi < j.lo)
            && (forall i :: e <= i < |b| ==> j.hi < b[i].lo)
  {
    hide FirstTouched, TouchedEnd;
  }

  lemma {:induction false} ClaimValid(b: seq<Span>, s: Span)
    requires ValidSpans(b) && ValidSpan(s)
    ensures ValidSpans(Claim(b, s))
  {
    JoinedBounds(b, s);
    hide FirstTouched, TouchedEnd, Joined, ValidSpan;
    var f := FirstTouched(b, s.lo);
    var e := TouchedEnd(b, f, s.hi);
    Replaced(b, f, e, Joined(b, s));
  }

  lemma {:induction false} Replaced(b: seq<Span>, f: nat, e: nat, j: Span)
    requires ValidSpans(b) && f <= e <= |b| && ValidSpan(j)
    requires forall i :: 0 <= i < f ==> b[i].hi < j.lo
    requires forall i :: e <= i < |b| ==> j.hi < b[i].lo
    ensures ValidSpans(b[..f] + [j] + b[e..])
  {
    var r := b[..f] + [j] + b[e..];
    forall i, k | 0 <= i < k < |r| ensures r[i].hi < r[k].lo {
      if i < f && k > f {
        assert r[i] == b[i] && r[k] == b[k - f - 1 + e];
        assert ValidSpan(j);
      }
    }
  }

  lemma {:induction false} JoinedCovers(b: seq<Span>, s: Span, y: int)
    requires ValidSpans(b) && ValidSpan(s)
    ensures In(Joined(b, s), y) ==> In(s, y) || Covered(b, y)
    ensures In(s, y) ==> In(Joined(b, s), y)
  {
    var f := FirstTouched(b, s.lo);
    var e := TouchedEnd(b, f, s.hi);
    if f < e {
      assert In(b[f], y) || In(b[e - 1], y) ==> Covered(b, y);
    }
  }

  lemma {:induction false} ClaimKeeps(b: seq<Span>, s: Span, y: int)
    requires ValidSpans(b) && ValidSpan(s) && (Covered(b, y) || In(s, y))
    ensures Covered(Claim(b, s), y)
  {
    var f := FirstTouched(b, s.lo);
    var e := TouchedEnd(b, f, s.hi);
    hide FirstTouched, TouchedEnd, ValidSpan, In;
    var r := Claim(b, s);
    assert r[f] == Joined(b, s);
    if i :| 0 <= i < |b| && In(b[i], y) {
      if i < f {
        assert r[i] == b[i];
      } else if i < e {
        TouchedInside(b, s, i, y);
      } else {
        assert r[i - e + f + 1] == b[i];
      }
    } else {
      JoinedCovers(b, s, y);
    }
  }

  lemma {:induction false} TouchedInside(b: seq<Span>, s: Span, i: nat, y: int)
    requires ValidSpans(b) && FirstTouched(b, s.lo) <= i < TouchedEnd(b, FirstTouched(b, s.lo), s.hi) && In(b[i], y)
    ensures In(Joined(b, s), y)
  {
    hide FirstTouched, TouchedEnd;
    var f := FirstTouched(b, s.lo);
    var e := TouchedEnd(b, f, s.hi);
    assert f < i ==> b[f].hi < b[i].lo;
    assert i < e - 1 ==> b[i].hi < b[e - 1].lo;
    assert ValidSpan(b[f]) && ValidSpan(b[e - 1]);
  }

  lemma {:induction false} ClaimAddsOnly(b: seq<Span>, s: Span, y: int)
    requires ValidSpans(b) && ValidSpan(s) && Covered(Claim(b, s), y)
    ensures Covered(b, y) || In(s, y)
  {
    var f := FirstTouched(b, s.lo);
    var e := TouchedEnd(b, f, s.hi);
    hide FirstTouched, TouchedEnd, Joined, ValidSpan;
    var r := Claim(b, s);
    var i :| 0 <= i < |r| && In(r[i], y);
    if i < f {
      assert r[i] == b[i];
    } else if i > f {
      assert r[i] == b[i - f - 1 + e];
    } else {
      JoinedCovers(b, s, y);
    }
  }

  /** A claim adds exactly the positions of `s`. */
  lemma {:induction false} ClaimCovers(b: seq<Span>, s: Span, y: int)
    requires ValidSpans(b) && ValidSpan(s)
    ensures Covered(Claim(b, s), y) <==> Covered(b, y) || In(s, y)
  {
    hide Covered, Claim, In;
    if Covered(b, y) || In(s, y) {
      ClaimKeeps(b, s, y);
    }
    if Covered(Claim(b, s), y) {
      ClaimAddsOnly(b, s, y);
    }
  }

  // --- Where newly claimed runs begin ---

  /** The ends of the intervals `k` up to but not including `e`. */
  function Ends(b: seq<Span>, k: nat, e: nat): (r: seq<int>)
    requires k <= e <= |b|
    ensures |r| == e - k && forall i :: 0 <= i < |r| ==> r[i] == b[k + i].hi
  {
    seq(e - k, i requires 0 <= i < e - k => b[k + i].hi)
  }

  /** The first position of every run of positions that `s` newly claims. */
  function NewStarts(b: seq<Span>, s: Span): seq<int> {
    var f := FirstTouched(b, s.lo);
    var e := TouchedEnd(b, f, s.hi);
    if f == e then [s.lo]
    else
      (if s.lo < b[f].lo then [s.lo] else []) + Ends(b, f, e - 1)
      + if b[e - 1].hi < s.hi then [b[e - 1].hi] else []
  }

  predicate RunStart(b: seq<Span>, s: Span, g: int) {
    In(s, g) && !Covered(b, g) && (g == s.lo || Covered(b, g - 1))
  }

  lemma {:induction false} EndUncovered(b: seq<Span>, k: nat)
    requires ValidSpans(b) && k < |b|
    ensures !Covered(b, b[k].hi) && Covered(b, b[k].hi - 1)
  {
    assert In(b[k], b[k].hi - 1);
  }

  lemma {:induction false} StartCases(b: seq<Span>, s: Span, i: nat) returns (k: nat)
    requires ValidSpans(b) && ValidSpan(s) && i < |NewStarts(b, s)|
    ensures var f := FirstTouched(b, s.lo);
            var e := TouchedEnd(b, f, s.hi);
            var g := NewStarts(b, s)[i];
            || (g == s.lo && (f == e || s.lo < b[f].lo))
            || (f <= k < e && g == b[k].hi && (k == e - 1 ==> g < s.hi))
  {
    hide FirstTouched, TouchedEnd;
    var f := FirstTouched(b, s.lo);
    var e := TouchedEnd(b, f, s.hi);
    k := 0;
    if f < e {
      var lead := if s.lo < b[f].lo then 1 else 0;
      if i >= lead {
        k := f + (i - lead);
      }
    }
  }

  lemma {:induction false} StartIsNew(b: seq<Span>, s: Span, i: nat)
    requires ValidSpans(b) && ValidSpan(s) && i < |NewStarts(b, s)|
    ensures RunStart(b, s, NewStarts(b, s)[i])
  {
    hide FirstTouched, TouchedEnd, NewStarts;
    var f := FirstTouched(b, s.lo);
    var e := TouchedEnd(b, f, s.hi);
    var k := StartCases(b, s, i);
    if f <= k < e && NewStarts(b, s)[i] == b[k].hi {
      EndUncovered(b, k);
      assert k < e - 1 ==> b[k].hi < b[k + 1].lo <= s.hi;
      assert s.lo <= b[f].hi <= b[k].hi;
    }
  }

  lemma {:induction false} SpansAscend(b: seq<Span>, i: nat, j: nat)
    requires ValidSpans(b) && i <= j < |b|
    ensures ValidSpan(b[i]) && b[i].lo <= b[j].lo && (i < j ==> b[i].hi < b[j].lo)
  {
  }

  lemma {:induction false} StartOrder(b: seq<Span>, s: Span, i: nat, j: nat)
    requires ValidSpans(b) && ValidSpan(s) && i < j < |NewStarts(b, s)|
    ensures NewStarts(b, s)[i] < NewStarts(b, s)[j]
  {
    hide FirstTouched, TouchedEnd;
    var f := FirstTouched(b, s.lo);
    var e := TouchedEnd(b, f, s.hi);
    assert f < e;
    var lead := if s.lo < b[f].lo then 1 else 0;
    var k := f + (j - lead);
    assert NewStarts(b, s)[j] == b[k].hi;
    assert ValidSpan(b[k]);
    if i < lead {
      assert NewStarts(b, s)[i] == s.lo;
      SpansAscend(b, f, k);
    } else {
      assert NewStarts(b, s)[i] == b[f + (i - lead)].hi;
      SpansAscend(b, f + (i - lead), k);
    }
  }

  lemma {:induction false} StartsIncrease(b: seq<Span>, s: Span)
    requires ValidSpans(b) && ValidSpan(s)
    ensures forall i, j :: 0 <= i < j < |NewStarts(b, s)| ==> NewStarts(b, s)[i] < NewStarts(b, s)[j]
  {
    var f := FirstTouched(b, s.lo);
    var e := TouchedEnd(b, f, s.hi);
    hide FirstTouched, TouchedEnd, NewStarts, Ends;
    forall i, j | 0 <= i < j < |NewStarts(b, s)| ensures NewStarts(b, s)[i] < NewStarts(b, s)[j] {
      StartOrder(b, s, i, j);
    }
  }

  predicate FreeRun(b: seq<Span>, from: int, to: int) {
    forall z :: from <= z <= to ==> !Covered(b, z)
  }

  /** How many intervals end at or before `y`. */
  function EndedBefore(b: seq<Span>, y: int): (k: nat)
    ensures k <= |b| && (k > 0 ==> b[k - 1].hi <= y)
    ensures forall i :: k <= i < |b| ==> y < b[i].hi
  {
    if |b| == 0 || b[|b| - 1].hi <= y then |b| else EndedBefore(b[..|b| - 1], y)
  }

  lemma {:induction false} StartsAfter(b: seq<Span>, k: nat, y: int)
    requires k < |b| && !Covered(b, y) && y < b[k].hi
    ensures y < b[k].lo
  {
    if b[k].lo <= y {
      assert In(b[k], y);
    }
  }

  lemma {:induction false} StartAfter(b: seq<Span>, s: Span, k: nat) returns (i: nat)
    requires FirstTouched(b, s.lo) <= k < TouchedEnd(b, FirstTouched(b, s.lo), s.hi) && b[k].hi < s.hi
    ensures i < |NewStarts(b, s)| && NewStarts(b, s)[i] == b[k].hi
  {
    hide FirstTouched, TouchedEnd;
    var f := FirstTouched(b, s.lo);
    i := (if s.lo < b[f].lo then 1 else 0) + (k - f);
  }

  lemma {:induction false} StartAtFront(b: seq<Span>, s: Span) returns (i: nat)
    requires var f := FirstTouched(b, s.lo); f == TouchedEnd(b, f, s.hi) || s.lo < b[f].lo
    ensures i < |NewStarts(b, s)| && NewStarts(b, s)[i] == s.lo
  {
    i := 0;
  }

  /** Every newly claimed position belongs to a run with a start in the list. */
  lemma {:induction false} StartFound(b: seq<Span>, s: Span, y: int) returns (i: nat)
    requires ValidSpans(b) && ValidSpan(s) && In(s, y) && !Covered(b, y)
    ensures i < |NewStarts(b, s)| && NewStarts(b, s)[i] <= y && FreeRun(b, NewStarts(b, s)[i], y)
  {
    hide FirstTouched, TouchedEnd, EndedBefore, FreeRun, Covered, NewStarts;
    var f := FirstTouched(b, s.lo);
    var e := TouchedEnd(b, f, s.hi);
    var k := EndedBefore(b, y);
    if k < |b| {
      StartsAfter(b, k, y);
    }
    if f == e || y < b[f].lo {
      assert f < e ==> s.lo <= y < b[f].lo;
      i := StartAtFront(b, s);
      FreeBetween(b, f, s.lo, y);
    } else {
      EndsBefore(b, f, y);
      assert f < k <= e;
      i := StartAfter(b, s, k - 1);
      FreeBetween(b, k, b[k - 1].hi, y);
    }
  }

  lemma {:induction false} EndsBefore(b: seq<Span>, k: nat, y: int)
    requires k < |b| && !Covered(b, y) && b[k].lo <= y
    ensures b[k].hi <= y
  {
    if y < b[k].hi {
      assert In(b[k], y);
    }
  }

  /** Between the end of interval `k - 1` and the start of interval `k` nothing is covered. */
  lemma {:induction false} FreeBetween(b: seq<Span>, k: nat, from: int, to: int)
    requires ValidSpans(b) && k <= |b|
    requires forall i :: 0 <= i < k ==> b[i].hi <= from
    requires forall i :: k <= i < |b| ==> to < b[i].lo
    ensures FreeRun(b, from, to)
  {
  }

  // --- The entries serve every claimed position ---

  /** A claim on `span` by a segment with offset `delta`. */
  datatype Piece = Piece(span: Span, delta: I64)

  predicate Claimed(done: seq<Piece>, y: int) {
    exists i :: 0 <= i < |done| && In(done[i].span, y)
  }

  /** The offset of the first piece that claims `y`. */
  function FirstDelta(done: seq<Piece>, y: int): I64
    requires Claimed(done, y)
  {
    var front := done[..|done| - 1];
    if Claimed(front, y) then FirstDelta(front, y) else done[|done| - 1].delta
  }

  lemma {:induction false} ClaimedNext(done: seq<Piece>, p: Piece, y: int)
    ensures Claimed(done + [p], y) <==> Claimed(done, y) || In(p.span, y)
    ensures Claimed(done, y) ==> FirstDelta(done + [p], y) == FirstDelta(done, y)
    ensures !Claimed(done, y) && In(p.span, y) ==> FirstDelta(done + [p], y) == p.delta
  {
    var r := done + [p];
    assert r[..|r| - 1] == done;
    if i :| 0 <= i < |done| && In(done[i].span, y) {
      assert In(r[i].span, y);
    }
    if In(p.span, y) {
      assert In(r[|done|].span, y);
    }
  }

  predicate FullRun(b: seq<Span>, from: int, to: int) {
    forall z :: from <= z <= to ==> Covered(b, z)
  }

  /** Entry `i` is the one a lookup at `y` arrives at, and its run reaches `y`. */
  predicate Serves(out: Table, b: seq<Span>, i: nat, y: int) {
    && i < |out| && out[i].source <= y && FullRun(b, out[i].source, y)
    && forall j :: 0 <= j < |out| && j != i ==> out[j].source < out[i].source || y < out[j].source
  }

  ghost predicate ServedBy(out: Table, b: seq<Span>, y: int, delta: I64) {
    exists i: nat :: Serves(out, b, i, y) && out[i].target == Wrap(out[i].source - delta)
  }

  lemma {:induction false} Server(out: Table, b: seq<Span>, y: int, delta: I64) returns (i: nat)
    requires ServedBy(out, b, y, delta)
    ensures i < |out| && Serves(out, b, i, y) && out[i].target == Wrap(out[i].source - delta)
  {
    i :| Serves(out, b, i, y) && out[i].target == Wrap(out[i].source - delta);
  }

  ghost predicate Inverts(b: seq<Span>, out: Table, done: seq<Piece>) {
    && ValidSpans(b)
    && (forall y :: Covered(b, y) <==> Claimed(done, y))
    && (forall i :: 0 <= i < |out| ==> Covered(b, out[i].source))
    && (forall y :: Claimed(done, y) ==> ServedBy(out, b, y, FirstDelta(done, y)))
  }

  function NewEntries(b: seq<Span>, p: Piece): (r: Table)
    requires ValidSpans(b) && ValidSpan(p.span)
    ensures |r| == |NewStarts(b, p.span)|
    ensures forall i :: 0 <= i < |r| ==>
              r[i].source == NewStarts(b, p.span)[i] && r[i].target == Wrap(r[i].source - p.delta)
  {
    var starts := NewStarts(b, p.span);
    seq(|starts|, i requires 0 <= i < |starts| =>
      StartIsNew(b, p.span, i);
      Entry(starts[i], Wrap(starts[i] - p.delta)))
  }

  lemma {:induction false} CoveredEndpoints(b: seq<Span>, s: Span)
    requires ValidSpans(b) && ValidSpan(s)
    ensures forall y :: Covered(Claim(b, s), y) <==> Covered(b, y) || In(s, y)
  {
    forall y ensures Covered(Claim(b, s), y) <==> Covered(b, y) || In(s, y) {
      ClaimCovers(b, s, y);
    }
  }

  /** Positions served before stay served by the same entry. */
  lemma {:induction false} StillServed(b: seq<Span>, out: Table, p: Piece, i: nat, y: int)
    requires ValidSpans(b) && ValidSpan(p.span) && Serves(out, b, i, y)
    ensures Serves(out + NewEntries(b, p), Claim(b, p.span), i, y)
  {
    hide Covered, Claim, NewStarts, In;
    CoveredEndpoints(b, p.span);
    var r := out + NewEntries(b, p);
    forall j | |out| <= j < |r| ensures r[j].source < r[i].source || y < r[j].source {
      StartIsNew(b, p.span, j - |out|);
    }
  }

  /** A newly claimed position is served by the start of its run. */
  lemma {:induction false} NewlyServed(b: seq<Span>, out: Table, p: Piece, y: int)
    requires ValidSpans(b) && ValidSpan(p.span) && In(p.span, y) && !Covered(b, y)
    requires forall i :: 0 <= i < |out| ==> Covered(b, out[i].source)
    ensures ServedBy(out + NewEntries(b, p), Claim(b, p.span), y, p.delta)
  {
    hide Covered, Claim, NewStarts;
    CoveredEndpoints(b, p.span);
    var r := out + NewEntries(b, p);
    var k := StartFound(b, p.span, y);
    var i := |out| + k;
    StartIsNew(b, p.span, k);
    forall j | |out| <= j < |r| && j != i ensures r[j].source < r[i].source || y < r[j].source {
      StartIsNew(b, p.span, j - |out|);
      StartsIncrease(b, p.span);
    }
    assert Serves(r, Claim(b, p.span), i, y);
  }

  /** Claiming one more piece keeps the invariant: the entries invert every claim made so far. */
  lemma {:induction false} PieceClaimed(b: seq<Span>, out: Table, done: seq<Piece>, p: Piece)
    requires Inverts(b, out, done) && ValidSpan(p.span)
    ensures Inverts(Claim(b, p.span), out + NewEntries(b, p), done + [p])
  {
    hide Covered, Claim, NewStarts, Claimed, FirstDelta, Serves, In;
    ClaimValid(b, p.span);
    CoveredEndpoints(b, p.span);
    var b', r, done' := Claim(b, p.span), out + NewEntries(b, p), done + [p];
    forall i | 0 <= i < |r| ensures Covered(b', r[i].source) {
      if i >= |out| {
        StartIsNew(b, p.span, i - |out|);
      }
    }
    forall y ensures Covered(b', y) <==> Claimed(done', y) {
      ClaimedNext(done, p, y);
    }
    forall y | Claimed(done', y) ensures ServedBy(r, b', y, FirstDelta(done', y)) {
      ClaimedNext(done, p, y);
      if Claimed(done, y) {
        var i := Server(out, b, y, FirstDelta(done, y));
        KeptServed(b, out, p, i, y, FirstDelta(done, y));
      } else {
        NewlyServed(b, out, p, y);
      }
    }
  }

  lemma {:induction false} KeptServed(b: seq<Span>, out: Table, p: Piece, i: nat, y: int, delta: I64)
    requires ValidSpans(b) && ValidSpan(p.span) && Serves(out, b, i, y)
    requires out[i].target == Wrap(out[i].source - delta)
    ensures ServedBy(out + NewEntries(b, p), Claim(b, p.span), y, delta)
  {
    StillServed(b, out, p, i, y);
    assert (out + NewEntries(b, p))[i] == out[i];
  }
}
