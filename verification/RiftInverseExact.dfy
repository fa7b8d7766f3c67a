/** Exactly where the inverse of a moderate table is an inverse, whether or not a segment starts at 0. */
module RiftInverseExact {
  import opened Rift
  import opened RiftNormal
  import opened RiftCover
  import opened RiftReverse
  import opened RiftInverse

  /** Wherever the walk makes a claim, the inverse leads to a position that is sent there. */
  lemma {:induction false} ClaimedIsInverted(t: Table, m: nat, y: I64)
    requires Tame(t, m) && Claimed(AllPieces(t), y)
    ensures Strict(Inverse(t)) && Image(t, Image(Inverse(t), y)) == y
  {
    hide Offset, Inverse, FirstDelta, Claimed, AllPieces;
    InverseOffset(t, m, y);
    ClaimIsHit(t, y);
    WrapAdd(0 - FirstDelta(AllPieces(t), y), y);
  }

  // --- Positions without a claim ---

  /** `z` is claimed, and no other position from there up to `y`, going around. */
  ghost predicate NearestClaim(ps: seq<Piece>, z: I64, y: I64) {
    Claimed(ps, z) && forall w: I64 :: 0 < Distance(z, w) <= Distance(z, y) ==> !Claimed(ps, w)
  }

  lemma {:induction false} FindNearest(ps: seq<Piece>, w: I64, y: I64) returns (z: I64)
    requires Claimed(ps, w)
    ensures NearestClaim(ps, z, y)
    decreases Distance(w, y)
  {
    hide Claimed, Distance;
    if v: I64 :| 0 < Distance(w, v) <= Distance(w, y) && Claimed(ps, v) {
      DistanceSub(w, v, y);
      z := FindNearest(ps, v, y);
    } else {
      z := w;
    }
  }

  /** A lookup that passes no entry on the way down from `y` to `z` gives the same. */
  lemma {:induction false} LookupSame(r: Table, z: I64, y: I64)
    requires Sorted(r) && forall i :: 0 <= i < |r| ==> !(0 < Distance(z, r[i].source) <= Distance(z, y))
    ensures Offset(r, y) == Offset(r, z)
  {
    forall i | 0 <= i < |r| ensures z <= y ==> r[i].source <= z || r[i].source > y
      ensures z > y ==> y < r[i].source <= z {
      Passing(z, r[i].source, y);
    }
    if |r| > 0 {
      if z <= y {
        if r[0].source <= z {
          FindIs(r, y, Find(r, z));
        }
      } else {
        FindIs(r, z, |r| - 1);
      }
    }
  }

  lemma {:induction false} Passing(z: I64, s: I64, y: I64)
    requires !(0 < Distance(z, s) <= Distance(z, y))
    ensures z <= y ==> s <= z || s > y
    ensures z > y ==> y < s <= z
  {
  }

  /** Every entry of the inverse stands at a claimed position. */
  lemma {:induction false} EntriesAtClaims(t: Table, i: nat)
    requires Strict(t) && |t| >= 2 && i < |Inverse(t)|
    ensures Claimed(AllPieces(t), Inverse(t)[i].source)
  {
    hide Inverse, Finished, Claimed, AllPieces, Covered, ClaimAll, ServedBy;
    var ps := AllPieces(t);
    InverseIsFinished(t);
    ClaimAllInverts(ps);
    var c := ClaimAll(Cover([], []), ps);
    InvertsDistinct(c.spans, c.out, ps);
    FinishedEntries(c.out);
    var e := Inverse(t)[i];
    assert e in Finished(c.out);
    var k :| 0 <= k < |c.out| && c.out[k] == e;
    assert Covered(c.spans, e.source);
  }

  /** Without a claim the lookup arrives at the entry for the nearest claim below. */
  lemma {:induction false} UnclaimedOffset(t: Table, m: nat, z: I64, y: I64)
    requires Tame(t, m) && NearestClaim(AllPieces(t), z, y)
    ensures Strict(Inverse(t)) && Offset(Inverse(t), y) == Wrap(0 - FirstDelta(AllPieces(t), z))
  {
    hide Inverse, FirstDelta, Claimed, AllPieces, Offset, Distance;
    InverseOffset(t, m, z);
    forall i | 0 <= i < |Inverse(t)| ensures !(0 < Distance(z, Inverse(t)[i].source) <= Distance(z, y)) {
      EntriesAtClaims(t, i);
    }
    LookupSame(Inverse(t), z, y);
  }

  /** A position that no claim covers is reached only from the part of the start segment that is not walked. */
  lemma {:induction false} UnclaimedSource(t: Table, x: I64)
    requires Strict(t) && |t| >= 2 && !Claimed(AllPieces(t), Image(t, x))
    ensures Offset(t, x) == Delta(t[StartSegment(t)])
  {
    hide Claimed, AllPieces, Offset, Distance, Delta;
    if Walked(t, x) {
      HitIsClaimed(t, x);
    } else {
      StartInside(t);
      var s := StartSegment(t);
      UnwalkedOn(t[s].source, x, t[Next(t, s)].source);
      SegmentOffset(t, s, x);
    }
  }

  lemma {:induction false} UnwalkedOn(a: I64, x: I64, end: I64)
    requires Between(a, x, 0) && Between(a, 0, end)
    ensures Between(a, x, end)
  {
  }

  lemma {:induction false} BackAndForth(t: Table, x: I64, offset: I64)
    requires Strict(t) && |t| >= 2 && !Claimed(AllPieces(t), Image(t, x))
    ensures Image(t, Wrap(Image(t, x) + offset)) == Image(t, x) <==> offset == Wrap(0 - Delta(t[StartSegment(t)]))
  {
    hide Claimed, AllPieces, Offset, Delta, Distance;
    var y, d := Image(t, x), Delta(t[StartSegment(t)]);
    var v := Wrap(y + offset);
    UnclaimedSource(t, x);
    ThereAndBack(x, d, y, offset);
    if Image(t, v) == y {
      UnclaimedSource(t, v);
      SameSource(v, x, d);
    }
  }

  lemma {:induction false} SameSource(v: I64, x: I64, d: I64)
    requires Wrap(v + d) == Wrap(x + d)
    ensures v == x
  {
  }

  lemma {:induction false} ThereAndBack(x: I64, d: I64, y: I64, offset: I64)
    requires y == Wrap(x + d)
    ensures Wrap(y + offset) == x <==> offset == Wrap(0 - d)
  {
  }

  /** For every position `x` of every moderate table: the inverse leads from its image to a position with that image
      if and only if the walk claims the image (which it does for every walked `x`), or the nearest claim below the
      image comes from a segment with the offset of the start segment. */
  lemma {:induction false} InverseExactly(t: Table, m: nat, x: I64) returns (z: I64)
    requires Tame(t, m)
    ensures NearestClaim(AllPieces(t), z, Image(t, x)) && Strict(Inverse(t))
    ensures Walked(t, x) ==> Claimed(AllPieces(t), Image(t, x))
    ensures Image(t, Image(Inverse(t), Image(t, x))) == Image(t, x)
            <==> Claimed(AllPieces(t), Image(t, x))
                 || FirstDelta(AllPieces(t), z) == Delta(t[StartSegment(t)])
  {
    hide Inverse, FirstDelta, Claimed, AllPieces, Offset, Distance, Delta;
    var ps, y := AllPieces(t), Image(t, x);
    if Walked(t, x) {
      HitIsClaimed(t, x);
    }
    var w := SomeClaim(t, m);
    z := FindNearest(ps, w, y);
    UnclaimedOffset(t, m, z, y);
    if Claimed(ps, y) {
      ClaimedIsInverted(t, m, y);
    } else {
      BackAndForth(t, x, Offset(Inverse(t), y));
      SameNegation(FirstDelta(ps, z), Delta(t[StartSegment(t)]));
    }
  }

  lemma {:induction false} SameNegation(a: I64, b: I64)
    ensures Wrap(0 - a) == Wrap(0 - b) <==> a == b
  {
  }

  lemma {:induction false} SomeClaim(t: Table, m: nat) returns (w: I64)
    requires Tame(t, m)
    ensures Claimed(AllPieces(t), w)
  {
    hide AllPieces, Extent, Delta, Moderate;
    TamePieces(t, m);
    TameParts(t, m, 0);
    w := AllPieces(t)[0].span.lo;
    assert In(AllPieces(t)[0].span, w);
  }

  // --- Tables of any size ---

  /** Every position from `a` to `y` is claimed. */
  predicate Run(ps: seq<Piece>, a: int, y: int) {
    a <= y && forall v :: a <= v <= y ==> Claimed(ps, v)
  }

  lemma {:induction false} ServedIsInverted(t: Table, c: Cover, i: nat, y: I64)
    requires Strict(t) && |t| >= 2 && Claimed(AllPieces(t), y)
    requires c == ClaimAll(Cover([], []), AllPieces(t)) && DistinctSources(c.out)
    requires Serves(c.out, c.spans, i, y) && Kept(c.out[i])
    requires c.out[i].target == Wrap(c.out[i].source - FirstDelta(AllPieces(t), y))
    ensures Strict(Inverse(t)) && Image(t, Image(Inverse(t), y)) == y
  {
    hide Offset, Inverse, FirstDelta, Claimed, AllPieces, ClaimAll, Serves, Kept, Finished, Wrap, DistinctSources;
    var d: int := FirstDelta(AllPieces(t), y);
    InverseIsFinished(t);
    KeptLookup(c.spans, c.out, i, y, d);
    ClaimIsHit(t, y);
    WrapAdd(0 - d, y);
  }

  /** Without any bound on the numbers: a claimed position is inverted if its run of claims reaches neither the lowest
      position nor the one that its offset leads there from. */
  lemma {:induction false} RunIsInverted(t: Table, y: I64)
    requires Strict(t) && |t| >= 2 && Claimed(AllPieces(t), y)
    requires !Run(AllPieces(t), MIN64, y)
    requires !Run(AllPieces(t), Wrap(MIN64 + FirstDelta(AllPieces(t), y)), y)
    ensures Strict(Inverse(t)) && Image(t, Image(Inverse(t), y)) == y
  {
    hide Offset, Inverse, FirstDelta, Claimed, AllPieces, ClaimAll, Covered, Wrap;
    var ps := AllPieces(t);
    var d := FirstDelta(ps, y);
    ClaimAllInverts(ps);
    var c := ClaimAll(Cover([], []), ps);
    InvertsDistinct(c.spans, c.out, ps);
    var i := Server(c.out, c.spans, y, d);
    assert Run(ps, c.out[i].source, y) by { ServedRun(c, ps, i, y); }
    if c.out[i].target == MIN64 {
      ShiftedSource(c.out[i].source, d);
    }
    ServedIsInverted(t, c, i, y);
  }

  lemma {:induction false} ServedRun(c: Cover, ps: seq<Piece>, i: nat, y: int)
    requires Inverts(c.spans, c.out, ps) && Serves(c.out, c.spans, i, y)
    ensures Run(ps, c.out[i].source, y)
  {
    hide Claimed, Covered, ServedBy, FirstDelta;
  }

  lemma {:induction false} ShiftedSource(source: I64, d: I64)
    requires Wrap(source - d) == MIN64
    ensures source == Wrap(MIN64 + d)
  {
    WrapUnique(MIN64 + d, source);
  }

  /** The condition is needed: the entry for a segment that starts at the lowest position is dropped. Here that
      position is sent to 10 above it, and the inverse leads from there to itself. */
  lemma {:induction false} LowestSourceDropped(t: Table, ps: seq<Piece>)
    requires t == [Entry(MIN64, MIN64 + 10), Entry(0, 0)] && ps == AllPieces(t)
    ensures Strict(t) && Strict(Inverse(t)) && Image(t, MIN64) == MIN64 + 10
    ensures Image(Inverse(t), MIN64 + 10) == MIN64 + 10 && Image(t, MIN64 + 10) == MIN64 + 20
  {
    hide ClaimAll, AllPieces, Finished, Inverse, Offset;
    LowestPieces(t);
    LowestClaims(ps);
    InverseIsFinished(t);
    FindIs(t, MIN64, 0);
    FindIs(t, MIN64 + 10, 0);
    LowestLookup(ClaimAll(Cover([], []), ps).out);
    LowestImages(t);
  }

  lemma {:induction false} LowestImages(t: Table)
    requires t == [Entry(MIN64, MIN64 + 10), Entry(0, 0)]
    ensures Strict(t) && Image(t, MIN64) == MIN64 + 10 && Image(t, MIN64 + 10) == MIN64 + 20
  {
    FindIs(t, MIN64, 0);
    FindIs(t, MIN64 + 10, 0);
  }

  lemma {:induction false} LowestPieces(t: Table)
    requires t == [Entry(MIN64, MIN64 + 10), Entry(0, 0)]
    ensures AllPieces(t) == [Piece(Span(0, TOP), 0), Piece(Span(MIN64 + 10, 10), 10)]
  {
    hide Distance, StepLength, WalkSegment, Wrap;
    FirstPositiveIs(t, 2);
    LowestDeltas(t);
    UpperPiece();
    LowerPiece();
    LowestWalk(t);
  }

  lemma {:induction false} LowestDeltas(t: Table)
    requires t == [Entry(MIN64, MIN64 + 10), Entry(0, 0)]
    ensures Delta(t[0]) == 10 && Delta(t[1]) == 0
  {
  }

  lemma {:induction false} LowestWalk(t: Table)
    requires t == [Entry(MIN64, MIN64 + 10), Entry(0, 0)] && Delta(t[0]) == 10 && Delta(t[1]) == 0
    ensures WalkFrom(t, 1, 2, 0) == WalkSegment(0, MIN64, 0) + WalkSegment(MIN64, 0, 10)
  {
    hide WalkSegment, Delta;
    assert WalkFrom(t, 1, 0, 0) == [];
    assert WalkFrom(t, 0, 1, MIN64) == WalkSegment(MIN64, 0, 10) + [];
  }

  lemma {:induction false} UpperPiece()
    ensures WalkSegment(0, MIN64, 0) == [Piece(Span(0, TOP), 0)]
  {
    hide WalkSegment;
    assert Distance(0, MIN64) == TOP;
    SinglePiece(0, MIN64, 0);
  }

  lemma {:induction false} LowerPiece()
    ensures WalkSegment(MIN64, 0, 10) == [Piece(Span(MIN64 + 10, 10), 10)]
  {
    hide WalkSegment;
    assert Distance(MIN64, 0) == TOP;
    SinglePiece(MIN64, 0, 10);
  }

  lemma {:induction false} LowestClaims(ps: seq<Piece>)
    requires ps == [Piece(Span(0, TOP), 0), Piece(Span(MIN64 + 10, 10), 10)]
    ensures ClaimAll(Cover([], []), ps).out == [Entry(0, 0), Entry(MIN64 + 10, MIN64)]
  {
    hide ClaimPiece;
    var c0, c1 := Cover([], []), Cover([Span(0, TOP)], [Entry(0, 0)]);
    assert ps[..1] + [ps[1]] == ps && [] + [ps[0]] == ps[..1];
    FirstLowestClaim(ps[0]);
    SecondLowestClaim(ps[1]);
    ClaimAllOf([], ps[0], c0, c1);
    ClaimAllOf(ps[..1], ps[1], c1, ClaimPiece(c1, ps[1]));
  }

  lemma {:induction false} FirstLowestClaim(p: Piece)
    requires p == Piece(Span(0, TOP), 0)
    ensures ClaimPiece(Cover([], []), p) == Cover([Span(0, TOP)], [Entry(0, 0)])
  {
    assert NewStarts([], p.span) == [0];
    assert Claim([], p.span) == [p.span];
  }

  lemma {:induction false} SecondLowestClaim(p: Piece)
    requires p == Piece(Span(MIN64 + 10, 10), 10)
    ensures ClaimPiece(Cover([Span(0, TOP)], [Entry(0, 0)]), p).out == [Entry(0, 0), Entry(MIN64 + 10, MIN64)]
  {
    var b := [Span(0, TOP)];
    assert NewStarts(b, p.span) == [MIN64 + 10];
  }

  lemma {:induction false} LowestLookup(out: Table)
    requires out == [Entry(0, 0), Entry(MIN64 + 10, MIN64)]
    ensures Strict(Finished(out)) && Image(Finished(out), MIN64 + 10) == MIN64 + 10
  {
    hide Finished, Offset;
    FinishedEntries(out);
    var r := Finished(out);
    assert Entry(0, 0) in r by { assert out[0] in out; }
    LookupBelow(r, Entry(0, 0), MIN64 + 10);
  }
}
