/** The inverse table sends every position that is hit back to a position that is sent there. */
module RiftInverse {
  import opened Rift
  import opened RiftNormal
  import opened RiftCover
  import opened RiftReverse

  // --- From claims to the finished table ---

  predicate DistinctSources(t: Table) {
    forall i, j :: 0 <= i < j < |t| ==> t[i].source != t[j].source
  }

  lemma {:induction false} InvertsDistinct(b: seq<Span>, out: Table, done: seq<Piece>)
    requires Inverts(b, out, done)
    ensures DistinctSources(out)
  {
    hide Covered, Claimed, FirstDelta, FullRun;
    forall i, j | 0 <= i < j < |out| ensures out[i].source != out[j].source {
      var y := out[i].source;
      assert Covered(b, y);
      var k := Server(out, b, y, FirstDelta(done, y));
      assert k == i;
    }
  }

  lemma {:induction false} InsertStrict(t: Table, e: Entry)
    requires Strict(t) && forall i :: 0 <= i < |t| ==> t[i].source != e.source
    ensures Strict(InsertEntry(t, e)) && |InsertEntry(t, e)| == |t| + 1
    ensures |t| > 0 && t[|t| - 1].source > e.source ==> InsertEntry(t, e)[|t|] == t[|t| - 1]
    ensures |t| == 0 || t[|t| - 1].source < e.source ==> InsertEntry(t, e)[|t|] == e
  {
    if |t| > 0 && t[|t| - 1].source > e.source {
      InsertStrict(t[..|t| - 1], e);
    }
  }

  lemma {:induction false} SortStrict(t: Table)
    requires DistinctSources(t)
    ensures Strict(SortBySource(t)) && |SortBySource(t)| == |t|
  {
    if |t| > 0 {
      var front, e := t[..|t| - 1], t[|t| - 1];
      SortStrict(front);
      var s := SortBySource(front);
      forall i | 0 <= i < |s| ensures s[i].source != e.source {
        assert s[i] in multiset(front);
      }
      InsertStrict(s, e);
    }
  }

  lemma {:induction false} RetainedStrict(t: Table)
    requires Strict(t)
    ensures Strict(Retained(t))
    ensures |Retained(t)| > 0 ==> Retained(t)[|Retained(t)| - 1].source <= t[|t| - 1].source
  {
    if |t| > 0 {
      RetainedStrict(t[..|t| - 1]);
    }
  }

  lemma {:induction false} DedupStrict(t: Table)
    requires Strict(t)
    ensures DedupSources(t) == t
  {
    if |t| > 0 {
      DedupStrict(t[..|t| - 1]);
      assert t == t[..|t| - 1] + [t[|t| - 1]];
    }
  }

  function Finished(out: Table): Table {
    DedupSources(Retained(SortBySource(out)))
  }

  predicate Kept(e: Entry) {
    e.source != MIN64 && e.target != MIN64
  }

  lemma {:induction false} FinishedEntries(out: Table)
    requires DistinctSources(out)
    ensures Strict(Finished(out))
    ensures forall e: Entry :: e in Finished(out) <==> e in out && Kept(e)
  {
    SortStrict(out);
    RetainedStrict(SortBySource(out));
    DedupStrict(Retained(SortBySource(out)));
    forall e: Entry ensures e in Finished(out) <==> e in out && Kept(e) {
      assert e in multiset(out) <==> e in multiset(SortBySource(out));
    }
  }

  /** A lookup arrives at the entry with no other source between its own and the position. */
  lemma {:induction false} LookupAt(t: Table, e: Entry, y: I64)
    requires Strict(t) && e in t && e.source <= y
    requires forall e': Entry {:trigger e' in t} :: e' in t ==> e' == e || e'.source < e.source || y < e'.source
    ensures Offset(t, y) == Delta(e)
  {
    var i :| 0 <= i < |t| && t[i] == e;
    if i + 1 < |t| {
      assert t[i + 1] in t;
    }
    FindIs(t, y, i);
  }

  lemma {:induction false} LookupBelow(t: Table, e: Entry, y: I64)
    requires Strict(t) && e in t
    requires forall e': Entry {:trigger e' in t} :: e' in t ==> y < e'.source <= e.source
    ensures Offset(t, y) == Delta(e)
  {
    var i :| 0 <= i < |t| && t[i] == e;
    assert t[|t| - 1] in t && t[0] in t;
    AfterLast(t, y);
  }

  // --- With moderate numbers only the entry at the lowest position is dropped ---

  predicate ModerateSpan(s: Span, b: int) {
    (Within(b, s.lo) || s.lo == MIN64) && (Within(b, s.hi) || s.hi == TOP)
  }

  predicate ModerateSpans(spans: seq<Span>, b: int) {
    forall i :: 0 <= i < |spans| ==> ModerateSpan(spans[i], b)
  }

  predicate ModerateEntries(t: Table, b: int) {
    forall i :: 0 <= i < |t| ==> t[i].source == MIN64 || (Within(b, t[i].source) && t[i].target != MIN64)
  }

  lemma {:induction false} ClaimModerate(spans: seq<Span>, s: Span, b: int)
    requires ValidSpans(spans) && ModerateSpans(spans, b) && ModerateSpan(s, b)
    ensures ModerateSpans(Claim(spans, s), b)
  {
    hide FirstTouched, TouchedEnd;
    var f := FirstTouched(spans, s.lo);
    var e := TouchedEnd(spans, f, s.hi);
    assert ModerateSpan(Joined(spans, s), b);
  }

  lemma {:induction false} EntriesModerate(spans: seq<Span>, p: Piece, b: int, m: nat)
    requires ValidSpans(spans) && ModerateSpans(spans, b) && ValidSpan(p.span) && ModerateSpan(p.span, b)
    requires Within(2 * m, p.delta) && b + 2 * m <= MAX64
    ensures ModerateEntries(NewEntries(spans, p), b)
  {
    hide FirstTouched, TouchedEnd, NewStarts;
    var r := NewEntries(spans, p);
    forall i | 0 <= i < |r| ensures r[i].source == MIN64 || (Within(b, r[i].source) && r[i].target != MIN64) {
      var k := StartCases(spans, p.span, i);
      StartIsNew(spans, p.span, i);
    }
  }

  lemma {:induction false} AllModerate(ps: seq<Piece>, b: int, m: nat)
    requires forall i :: 0 <= i < |ps| ==> ValidSpan(ps[i].span)
    requires forall i :: 0 <= i < |ps| ==> ModerateSpan(ps[i].span, b) && Within(2 * m, ps[i].delta)
    requires b + 2 * m <= MAX64
    ensures var c := ClaimAll(Cover([], []), ps); ModerateSpans(c.spans, b) && ModerateEntries(c.out, b)
  {
    hide ValidSpans, ValidSpan, ModerateSpan, Claim, NewEntries;
    NothingClaimed();
    if |ps| > 0 {
      var front, p := ps[..|ps| - 1], ps[|ps| - 1];
      AllModerate(front, b, m);
      var c := ClaimAll(Cover([], []), front);
      ClaimModerate(c.spans, p.span, b);
      EntriesModerate(c.spans, p, b, m);
    }
  }

  /** The very first claim puts an entry at its lowest position. */
  lemma {:induction false} FirstEntry(ps: seq<Piece>)
    requires |ps| > 0 && forall i :: 0 <= i < |ps| ==> ValidSpan(ps[i].span)
    ensures var out := ClaimAll(Cover([], []), ps).out; |out| > 0 && out[0].source == ps[0].span.lo
  {
    hide ValidSpans, ValidSpan, Claim;
    NothingClaimed();
    var front := ps[..|ps| - 1];
    if |ps| > 1 {
      hide NewEntries;
      FirstEntry(front);
    } else {
      assert ClaimAll(Cover([], []), front) == Cover([], []);
      assert NewStarts([], ps[0].span) == [ps[0].span.lo];
    }
  }

  // --- The theorem ---

  lemma {:induction false} TamePieces(t: Table, m: nat)
    requires Tame(t, m)
    ensures var ps := AllPieces(t); var b := Extent(t) + m; var d := Delta(t[|t| - 1]);
            && |ps| > 0 && Within(b, ps[0].span.lo) && b + 2 * m <= MAX64
            && (forall i :: 0 <= i < |ps| ==> Moderate(ps[i], b, d) && Within(2 * m, ps[i].delta))
  {
    hide Delta, Moderate, AllPieces, WalkSegment, Extent;
    forall i | 0 <= i < |AllPieces(t)|
      ensures Moderate(AllPieces(t)[i], Extent(t) + m, Delta(t[|t| - 1])) && Within(2 * m, AllPieces(t)[i].delta) {
      TamePiece(t, m, i);
    }
    PiecesSplit(t);
    StartPieces(t, m);
    TameParts(t, m, 0);
  }

  /** Only the last segment reaches an end of the range. */
  lemma {:induction false} EndDelta(ps: seq<Piece>, b: int, d: I64, y: int)
    requires forall i :: 0 <= i < |ps| ==> Moderate(ps[i], b, d)
    requires b < MAX64 && (y == MAX64 || y == MIN64) && Claimed(ps, y)
    ensures FirstDelta(ps, y) == d
  {
    hide FirstDelta;
    var q := FirstClaim(ps, y);
    assert Moderate(ps[q], b, d);
  }

  lemma {:induction false} ServerDelta(e: Entry, delta: I64)
    requires e.target == Wrap(e.source - delta)
    ensures Delta(e) == Wrap(0 - delta)
  {
    WrapAdd(e.source - delta, 0 - e.source);
  }

  lemma {:induction false} SameTarget(source: I64, d1: I64, d2: I64)
    requires Wrap(source - d1) == Wrap(source - d2)
    ensures d1 == d2
  {
  }

  /** The top of the range is hit by the last segment. */
  lemma {:induction false} TopIsHit(t: Table, m: nat) returns (x: I64)
    requires Tame(t, m)
    ensures Image(t, x) == MAX64 && x == Wrap(MAX64 - Delta(t[|t| - 1]))
  {
    var last := |t| - 1;
    TameParts(t, m, last);
    TameParts(t, m, 0);
    var d := Delta(t[last]);
    x := Wrap(MAX64 - d);
    TopOnLast(t, m, x);
    SegmentOffset(t, last, x);
    WrapAdd(MAX64 - d, d);
  }

  lemma {:induction false} TopWalked(t: Table, m: nat, x: I64)
    requires Tame(t, m) && x == Wrap(MAX64 - Delta(t[|t| - 1])) && t[0].source <= 0
    ensures Walked(t, x)
  {
    var last, s := |t| - 1, StartSegment(t);
    TameParts(t, m, last);
    TameParts(t, m, s);
    BetweenMeans(t[s].source, x, 0);
    assert t[s].source <= 0 && Within(m, t[s].source);
    var least: int := m;
    assert x < -least || x > 0;
  }

  lemma {:induction false} TopOnLast(t: Table, m: nat, x: I64)
    requires Tame(t, m) && x == Wrap(MAX64 - Delta(t[|t| - 1]))
    ensures OnSegment(t, |t| - 1, x)
  {
    var last := |t| - 1;
    TameParts(t, m, last);
    TameParts(t, m, 0);
    BetweenMeans(t[last].source, x, t[0].source);
    assert Within(m, t[last].source) && Within(m, t[0].source);
    if Delta(t[last]) >= 0 {
      assert x == MAX64 - Delta(t[last]);
    } else {
      assert x == MAX64 - Delta(t[last]) - SPAN64;
    }
  }

  /** A position served by a kept entry. */
  lemma {:induction false} KeptLookup(b: seq<Span>, out: Table, i: nat, y: I64, delta: I64)
    requires DistinctSources(out) && Serves(out, b, i, y) && Kept(out[i])
    requires out[i].target == Wrap(out[i].source - delta)
    ensures Strict(Finished(out)) && Offset(Finished(out), y) == Wrap(0 - delta)
  {
    hide FullRun, Covered, Finished, Wrap;
    FinishedEntries(out);
    var e := out[i];
    assert e in out;
    forall e': Entry {:trigger e' in Finished(out)} | e' in Finished(out)
      ensures e' == e || e'.source < e.source || y < e'.source {
      var j :| 0 <= j < |out| && out[j] == e';
    }
    LookupAt(Finished(out), e, y);
    ServerDelta(e, delta);
  }

  /** A position served by the dropped entry belongs to the same segment as the top of the range, which
      is where a lookup below the first entry arrives. */
  lemma {:induction false} DroppedLookup(b: seq<Span>, out: Table, i: nat, top: nat, y: I64, delta: I64)
    requires DistinctSources(out) && Serves(out, b, i, y) && out[i].source == MIN64
    requires Serves(out, b, top, MAX64) && Kept(out[top]) && out[top].target == Wrap(out[top].source - delta)
    ensures Strict(Finished(out)) && Offset(Finished(out), y) == Wrap(0 - delta)
  {
    hide FullRun, Covered, Finished, Wrap;
    FinishedEntries(out);
    var e := out[top];
    assert e in out;
    forall e': Entry {:trigger e' in Finished(out)} | e' in Finished(out) ensures y < e'.source <= e.source {
      var j :| 0 <= j < |out| && out[j] == e';
      assert j != i;
    }
    LookupBelow(Finished(out), e, y);
    ServerDelta(e, delta);
  }

  lemma {:induction false} InverseIsFinished(t: Table)
    requires Strict(t) && |t| >= 2
    ensures Inverse(t) == Finished(ClaimAll(Cover([], []), AllPieces(t)).out)
  {
    assert t[1].source != t[0].source;
  }

  /** A claimed position is sent back by the offset of its first claim. */
  lemma {:induction false} InverseOffset(t: Table, m: nat, y: I64)
    requires Tame(t, m) && Claimed(AllPieces(t), y)
    ensures Strict(Inverse(t)) && Offset(Inverse(t), y) == Wrap(0 - FirstDelta(AllPieces(t), y))
  {
    hide Offset, Finished, FirstDelta, Claimed, AllPieces, Covered, Wrap, Delta, Inverse, ClaimAll, Moderate, FullRun;
    var ps := AllPieces(t);
    TamePieces(t, m);
    InverseIsFinished(t);
    ClaimAllInverts(ps);
    var c := ClaimAll(Cover([], []), ps);
    InvertsDistinct(c.spans, c.out, ps);
    var i := Server(c.out, c.spans, y, FirstDelta(ps, y));
    if Kept(c.out[i]) {
      KeptLookup(c.spans, c.out, i, y, FirstDelta(ps, y));
    } else {
      BottomOffset(t, m, c, i, y);
    }
  }

  lemma {:induction false} ModeratePieces(ps: seq<Piece>, b: int, d: I64)
    requires forall i :: 0 <= i < |ps| ==> Moderate(ps[i], b, d)
    ensures forall i :: 0 <= i < |ps| ==> ModerateSpan(ps[i].span, b)
  {
  }

  lemma {:induction false} TopKept(c: Cover, top: nat, b: int)
    requires Serves(c.out, c.spans, top, MAX64) && ModerateEntries(c.out, b) && b < MAX64
    requires |c.out| > 0 && Within(b, c.out[0].source)
    ensures Kept(c.out[top])
  {
    hide FullRun;
    assert c.out[top].source != MIN64;
  }

  lemma {:induction false} BottomOffset(t: Table, m: nat, c: Cover, i: nat, y: I64)
    requires Tame(t, m) && Claimed(AllPieces(t), y)
    requires c == ClaimAll(Cover([], []), AllPieces(t)) && Inverts(c.spans, c.out, AllPieces(t))
    requires Serves(c.out, c.spans, i, y) && !Kept(c.out[i]) && DistinctSources(c.out)
    requires c.out[i].target == Wrap(c.out[i].source - FirstDelta(AllPieces(t), y))
    ensures Strict(Finished(c.out))
    ensures Offset(Finished(c.out), y) == Wrap(0 - FirstDelta(AllPieces(t), y))
  {
    hide Offset, Finished, FirstDelta, Claimed, AllPieces, Covered, Wrap, Delta, ClaimAll, Serves, FullRun, Kept,
         Moderate, ModerateSpan, ModerateEntries, ServedBy, Strict;
    var ps, b, d := AllPieces(t), Extent(t) + m, Delta(t[|t| - 1]);
    TamePieces(t, m);
    ModeratePieces(ps, b, d);
    AllModerate(ps, b, m);
    FirstEntry(ps);
    BottomClaim(ps, c, i, y, b, d);
    BottomReached(t, m);
    var x := TopIsHit(t, m);
    TopWalked(t, m, x);
    HitIsClaimed(t, x);
    EndDelta(ps, b, d, MAX64);
    var top := Server(c.out, c.spans, MAX64, d);
    assert b < MAX64 by { TameParts(t, m, 0); }
    TopKept(c, top, b);
    DroppedLookup(c.spans, c.out, i, top, y, d);
  }

  /** The ends of the range are claimed only if the walk covers the whole last segment. */
  lemma {:induction false} BottomReached(t: Table, m: nat)
    requires Tame(t, m)
    ensures Claimed(AllPieces(t), MIN64) ==> t[0].source <= 0
  {
    hide AllPieces, Extent, Delta, Moderate;
    var ps := AllPieces(t);
    if q :| 0 <= q < |ps| && In(ps[q].span, MIN64) {
      TamePiece(t, m, q);
      TameParts(t, m, 0);
    }
  }

  /** The claim on the lowest position, which the dropped entry serves, is the last segment's. */
  lemma {:induction false} BottomClaim(ps: seq<Piece>, c: Cover, i: nat, y: I64, b: int, d: I64)
    requires Inverts(c.spans, c.out, ps) && ModerateEntries(c.out, b) && b < MAX64
    requires forall k :: 0 <= k < |ps| ==> Moderate(ps[k], b, d)
    requires Claimed(ps, y) && Serves(c.out, c.spans, i, y) && !Kept(c.out[i])
    requires c.out[i].target == Wrap(c.out[i].source - FirstDelta(ps, y))
    ensures c.out[i].source == MIN64 && FirstDelta(ps, y) == d && Claimed(ps, MIN64)
  {
    hide FirstDelta, Claimed, Covered, Wrap, Moderate;
    assert c.out[i].source == MIN64;
    assert Covered(c.spans, MIN64);
    EndDelta(ps, b, d, MIN64);
    var k := Server(c.out, c.spans, MIN64, d);
    assert k == i;
    SameTarget(MIN64, FirstDelta(ps, y), d);
  }

  /** The inverse map: for every position that some position is sent to, the inverse table leads to the
      position that the first claiming segment sends there. */
  lemma {:induction false} InverseSendsBack(t: Table, m: nat, x: I64)
    requires Tame(t, m) && Walked(t, x)
    ensures var y := Image(t, x);
            && Strict(Inverse(t)) && Claimed(AllPieces(t), y)
            && Image(Inverse(t), y) == Wrap(y - FirstDelta(AllPieces(t), y))
            && Image(t, Image(Inverse(t), y)) == y
  {
    hide Offset, Inverse, FirstDelta, Claimed, AllPieces;
    var y := Image(t, x);
    HitIsClaimed(t, x);
    InverseOffset(t, m, y);
    ClaimIsHit(t, y);
    WrapAdd(0 - FirstDelta(AllPieces(t), y), y);
  }

  // --- Where it is no inverse ---

  lemma {:induction false} OneEntryOffset(e: Entry, y: I64)
    ensures Sorted([e]) && Offset([e], y) == Delta(e)
  {
  }

  /** A table with one entry keeps its offset instead of negating it, so it is inverted only if the
      offset, doubled, is a full turn. */
  lemma {:induction false} SingleEntryInverse(t: Table)
    requires |t| == 1
    ensures Sorted(t) && Inverse(t) == [Entry(0, Delta(t[0]))] && Sorted(Inverse(t))
    ensures (forall y: I64 :: Image(t, Image(Inverse(t), y)) == y) <==> Delta(t[0]) == 0 || Delta(t[0]) == MIN64
  {
    hide Offset, Wrap;
    assert t == [t[0]] && Inverse(t) == [Entry(0, Delta(t[0]))] by { InverseOfOne(t); }
    forall y: I64 ensures Image(t, Image(Inverse(t), y)) == y <==> Delta(t[0]) == 0 || Delta(t[0]) == MIN64 {
      TwiceShifted(t[0], y);
    }
    assert Image(t, Image(Inverse(t), 0)) == 0 <==> Delta(t[0]) == 0 || Delta(t[0]) == MIN64;
  }

  lemma {:induction false} InverseOfOne(t: Table)
    requires |t| == 1
    ensures t == [t[0]] && Inverse(t) == [Entry(0, Delta(t[0]))]
  {
  }

  lemma {:induction false} TwiceShifted(e: Entry, y: I64)
    ensures var r := [Entry(0, Delta(e))];
            Image([e], Image(r, y)) == y <==> Delta(e) == 0 || Delta(e) == MIN64
  {
    hide Offset;
    var d: int := Delta(e);
    assert Delta(Entry(0, d)) == d;
    OneEntryOffset(Entry(0, d), y);
    OneEntryOffset(e, Image([Entry(0, d)], y));
    WrapAdd(y + d, d);
    DoubleTurn(y, d);
  }

  lemma {:induction false} DoubleTurn(y: I64, d: int)
    requires MIN64 <= d <= MAX64
    ensures Wrap(y + 2 * d) == y <==> d == 0 || d == MIN64
  {
    assert Wrap(y + 2 * d) == y <==> (2 * d) % SPAN64 == 0 by { ShiftedBack(y, 2 * d); }
  }

  lemma {:induction false} ShiftedBack(y: I64, k: int)
    ensures Wrap(y + k) == y <==> k % SPAN64 == 0
  {
    if k % SPAN64 == 0 {
      WrapUnique(y + k, y);
    }
  }

  /** Without a segment that starts at 0 the part of a segment below 0 is never walked: here -10 is
      sent to 85, but the inverse leads from 85 to -5. */
  lemma {:induction false} PartBelowZeroMissed(t: Table, ps: seq<Piece>)
    requires t == [Entry(-10, 85), Entry(10, 100)] && ps == AllPieces(t)
    ensures Strict(t) && Strict(Inverse(t)) && Image(t, -10) == 85 && Image(Inverse(t), 85) == -5 && Image(t, -5) == 90
  {
    hide ClaimAll, AllPieces, Finished, Inverse, Offset;
    MissedPieces(t);
    MissedClaims(ps);
    InverseIsFinished(t);
    MissedImages(t);
    var out := ClaimAll(Cover([], []), ps).out;
    MissedLookup(out);
  }

  lemma {:induction false} MissedImages(t: Table)
    requires t == [Entry(-10, 85), Entry(10, 100)]
    ensures Strict(t) && Image(t, -10) == 85 && Image(t, -5) == 90
  {
    FindIs(t, -10, 0);
    FindIs(t, -5, 0);
  }

  lemma {:induction false} MissedLookup(out: Table)
    requires out == [Entry(95, 0), Entry(105, 15), Entry(MIN64, Wrap(MIN64 - 90))]
    ensures Strict(Finished(out)) && Image(Finished(out), 85) == -5
  {
    hide Finished, Offset;
    FinishedEntries(out);
    var r := Finished(out);
    assert Entry(105, 15) in r by { assert out[1] in out; }
    LookupBelow(r, Entry(105, 15), 85);
  }

  lemma {:induction false} MissedPieces(t: Table)
    requires t == [Entry(-10, 85), Entry(10, 100)]
    ensures AllPieces(t) == [Piece(Span(95, 105), 95), Piece(Span(100, TOP), 90), Piece(Span(MIN64, 80), 90)]
  {
    FirstPositiveIs(t, 1);
    var a, b := Delta(t[0]), Delta(t[1]);
    assert a == 95 && b == 90;
    SinglePiece(0, 10, a);
    TopStep(10, -10, b, 100);
    var next := Wrap(10 + (TOP - 100));
    SinglePiece(next, -10, b);
    assert WalkSegment(10, -10, b) == [Piece(Span(100, TOP), b)] + WalkSegment(next, -10, b);
    assert WalkFrom(t, 0, 0, -10) == [];
    assert WalkFrom(t, 1, 1, 10) == WalkSegment(10, -10, b) + [];
    assert WalkFrom(t, 0, 2, 0) == WalkSegment(0, 10, a) + WalkFrom(t, 1, 1, 10);
  }

  lemma {:induction false} MissedClaims(ps: seq<Piece>)
    requires ps == [Piece(Span(95, 105), 95), Piece(Span(100, TOP), 90), Piece(Span(MIN64, 80), 90)]
    ensures var out := ClaimAll(Cover([], []), ps).out;
            DistinctSources(out) && out == [Entry(95, 0), Entry(105, 15), Entry(MIN64, Wrap(MIN64 - 90))]
  {
    hide ClaimPiece;
    var c0, c1 := Cover([], []), Cover([Span(95, 105)], [Entry(95, 0)]);
    var c2 := Cover([Span(95, TOP)], [Entry(95, 0), Entry(105, 15)]);
    FirstMissedClaim(ps[0]);
    SecondMissedClaim(ps[1]);
    ThirdMissedClaim(ps[2]);
    assert ps[..2] + [ps[2]] == ps && ps[..1] + [ps[1]] == ps[..2] && [] + [ps[0]] == ps[..1];
    ClaimAllOf([], ps[0], c0, c1);
    ClaimAllOf(ps[..1], ps[1], c1, c2);
    ClaimAllOf(ps[..2], ps[2], c2, ClaimPiece(c2, ps[2]));
  }

  lemma {:induction false} ClaimAllOf(front: seq<Piece>, p: Piece, c: Cover, c': Cover)
    requires (forall i :: 0 <= i < |front| ==> ValidSpan(front[i].span)) && ValidSpan(p.span)
    requires ClaimAll(Cover([], []), front) == c && ValidSpans(c.spans) && ClaimPiece(c, p) == c'
    ensures (forall i :: 0 <= i < |front + [p]| ==> ValidSpan((front + [p])[i].span))
    ensures ClaimAll(Cover([], []), front + [p]) == c'
  {
    hide ClaimPiece;
    assert (front + [p])[..|front|] == front;
  }

  lemma {:induction false} FirstMissedClaim(p: Piece)
    requires p == Piece(Span(95, 105), 95)
    ensures ClaimPiece(Cover([], []), p) == Cover([Span(95, 105)], [Entry(95, 0)])
  {
    assert NewStarts([], p.span) == [95];
    assert Claim([], p.span) == [p.span];
  }

  lemma {:induction false} SecondMissedClaim(p: Piece)
    requires p == Piece(Span(100, TOP), 90)
    ensures ClaimPiece(Cover([Span(95, 105)], [Entry(95, 0)]), p)
         == Cover([Span(95, TOP)], [Entry(95, 0), Entry(105, 15)])
  {
    var b := [Span(95, 105)];
    assert TouchedEnd(b, 1, TOP) == 1 && TouchedEnd(b, 0, TOP) == 1;
    assert NewStarts(b, p.span) == [105];
    assert Claim(b, p.span) == [Span(95, TOP)];
  }

  lemma {:induction false} ThirdMissedClaim(p: Piece)
    requires p == Piece(Span(MIN64, 80), 90)
    ensures ClaimPiece(Cover([Span(95, TOP)], [Entry(95, 0), Entry(105, 15)]), p).out
         == [Entry(95, 0), Entry(105, 15), Entry(MIN64, Wrap(MIN64 - 90))]
  {
    var b := [Span(95, TOP)];
    assert NewStarts(b, p.span) == [MIN64];
  }
}
