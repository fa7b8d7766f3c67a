/** The inverse of a rift map: its segments are walked in order from position 0 around the whole range,
    each claiming its image. */
module RiftReverse {
  import opened Rift
  import opened RiftNormal
  import opened RiftCover

  // --- The walk ---

  /** How much of the segment is claimed next: up to its end, but not across the top of the range. */
  function StepLength(cursor: I64, end: I64, delta: I64): (n: nat)
    requires cursor != end
    ensures 0 < n <= Distance(cursor, end) && Wrap(delta + cursor) + n <= TOP
  {
    var img, d := Wrap(delta + cursor), Distance(cursor, end);
    if img != MIN64 && TOP - img < d then TOP - img else d
  }

  /** The claims of the positions from `cursor` around to `end`, which share one offset. */
  function WalkSegment(cursor: I64, end: I64, delta: I64): (ps: seq<Piece>)
    ensures forall i :: 0 <= i < |ps| ==> ValidSpan(ps[i].span) && ps[i].delta == delta
    decreases Distance(cursor, end)
  {
    if cursor == end then []
    else
      var n, img := StepLength(cursor, end, delta), Wrap(delta + cursor);
      StepCloser(cursor, end, n);
      [Piece(Span(img, img + n), delta)] + WalkSegment(Wrap(cursor + n), end, delta)
  }

  lemma {:induction false} StepCloser(cursor: I64, end: I64, n: nat)
    requires 0 < n <= Distance(cursor, end)
    ensures Distance(Wrap(cursor + n), end) == Distance(cursor, end) - n
  {
  }

  function Next(t: Table, i: nat): (j: nat)
    requires i < |t|
    ensures j < |t|
  {
    if i + 1 < |t| then i + 1 else 0
  }

  /** The claims of `k` segments, from segment `i` and position `cursor` on. */
  function WalkFrom(t: Table, i: nat, k: nat, cursor: I64): (ps: seq<Piece>)
    requires i < |t|
    ensures forall j :: 0 <= j < |ps| ==> ValidSpan(ps[j].span)
    decreases k
  {
    if k == 0 then []
    else
      var end := t[Next(t, i)].source;
      WalkSegment(cursor, end, Delta(t[i])) + WalkFrom(t, Next(t, i), k - 1, end)
  }

  /** The first positive source, or the number of entries. */
  function FirstPositive(t: Table): (i: nat)
    ensures i <= |t| && (i < |t| ==> t[i].source > 0)
    ensures forall j :: 0 <= j < i ==> t[j].source <= 0
  {
    if |t| == 0 || t[0].source > 0 then 0 else 1 + FirstPositive(t[1..])
  }

  /** The segment that contains position 0. */
  function StartSegment(t: Table): (i: nat)
    requires |t| > 0
    ensures i < |t|
  {
    if FirstPositive(t) == 0 then |t| - 1 else FirstPositive(t) - 1
  }

  function AllPieces(t: Table): (ps: seq<Piece>)
    requires |t| > 0
    ensures forall j :: 0 <= j < |ps| ==> ValidSpan(ps[j].span)
  {
    WalkFrom(t, StartSegment(t), |t|, 0)
  }

  // --- All claims, one after the other ---

  datatype Cover = Cover(spans: seq<Span>, out: Table)

  function ClaimPiece(c: Cover, p: Piece): (c': Cover)
    requires ValidSpans(c.spans) && ValidSpan(p.span)
    ensures ValidSpans(c'.spans)
  {
    ClaimValid(c.spans, p.span);
    Cover(Claim(c.spans, p.span), c.out + NewEntries(c.spans, p))
  }

  function ClaimAll(c: Cover, ps: seq<Piece>): (c': Cover)
    requires ValidSpans(c.spans) && forall i :: 0 <= i < |ps| ==> ValidSpan(ps[i].span)
    ensures ValidSpans(c'.spans)
  {
    if |ps| == 0 then c
    else ClaimPiece(ClaimAll(c, ps[..|ps| - 1]), ps[|ps| - 1])
  }

  /** Entries at the lowest position, or sent there, are dropped. */
  function Retained(t: Table): (r: Table)
    ensures forall i :: 0 <= i < |r| ==> r[i] in t && r[i].source != MIN64 && r[i].target != MIN64
    ensures forall e :: e in t && e.source != MIN64 && e.target != MIN64 ==> e in r
  {
    if |t| == 0 then []
    else
      var e := t[|t| - 1];
      Retained(t[..|t| - 1]) + if e.source != MIN64 && e.target != MIN64 then [e] else []
  }

  /** Of entries with the same source the last one stays. */
  function DedupSources(t: Table): Table {
    if |t| == 0 then []
    else
      var kept, e := DedupSources(t[..|t| - 1]), t[|t| - 1];
      if |kept| > 0 && kept[|kept| - 1].source == e.source then kept[..|kept| - 1] + [e] else kept + [e]
  }

  predicate OneSource(t: Table) {
    forall i :: 0 <= i < |t| ==> t[i].source == t[0].source
  }

  function Inverse(t: Table): Table {
    if |t| == 0 then []
    else if OneSource(t) then [Entry(0, Delta(t[0]))]
    else DedupSources(Retained(SortBySource(ClaimAll(Cover([], []), AllPieces(t)).out)))
  }

  // --- Claims against positions ---

  lemma {:induction false} ClaimedJoin(a: seq<Piece>, b: seq<Piece>, y: int)
    ensures Claimed(a + b, y) <==> Claimed(a, y) || Claimed(b, y)
  {
    var r := a + b;
    if i :| 0 <= i < |a| && In(a[i].span, y) {
      assert In(r[i].span, y);
    }
    if i :| 0 <= i < |b| && In(b[i].span, y) {
      assert In(r[|a| + i].span, y);
    }
  }

  /** `x` lies between `cursor` and `end`, going around. */
  predicate Between(cursor: I64, x: I64, end: I64) {
    Distance(cursor, x) < Distance(cursor, end)
  }

  lemma {:induction false} StepImage(cursor: I64, x: I64, delta: I64, n: nat)
    requires Wrap(delta + cursor) + n <= TOP
    ensures Distance(cursor, x) < n ==> Wrap(x + delta) == Wrap(delta + cursor) + Distance(cursor, x)
    ensures Distance(cursor, x) >= n ==> Distance(Wrap(cursor + n), x) == Distance(cursor, x) - n
  {
    StepPast(cursor, x, n);
  }

  lemma {:induction false} StepPast(cursor: I64, x: I64, n: nat)
    ensures Distance(cursor, x) >= n ==> Distance(Wrap(cursor + n), x) == Distance(cursor, x) - n
  {
  }

  lemma {:induction false} StepSource(cursor: I64, y: int, delta: I64, n: nat)
    requires n < SPAN64 && Wrap(delta + cursor) <= y < Wrap(delta + cursor) + n
    ensures Distance(cursor, Wrap(y - delta)) == y - Wrap(delta + cursor)
  {
  }

  lemma {:induction false} SegmentClaims(cursor: I64, end: I64, delta: I64, x: I64)
    requires Between(cursor, x, end)
    ensures Claimed(WalkSegment(cursor, end, delta), Wrap(x + delta))
    decreases Distance(cursor, end)
  {
    hide Wrap, Distance;
    assert cursor != end by { NotEmpty(cursor, x, end); }
    var n, img := StepLength(cursor, end, delta), Wrap(delta + cursor);
    var cursor' := Wrap(cursor + n);
    StepCloser(cursor, end, n);
    StepImage(cursor, x, delta, n);
    var first, rest := [Piece(Span(img, img + n), delta)], WalkSegment(cursor', end, delta);
    ClaimedJoin(first, rest, Wrap(x + delta));
    if Distance(cursor, x) < n {
      assert In(first[0].span, Wrap(x + delta));
    } else {
      SegmentClaims(cursor', end, delta, x);
    }
  }

  lemma {:induction false} NotEmpty(cursor: I64, x: I64, end: I64)
    requires Between(cursor, x, end)
    ensures cursor != end
  {
  }

  lemma {:induction false} SegmentSound(cursor: I64, end: I64, delta: I64, i: nat, y: int)
    requires i < |WalkSegment(cursor, end, delta)| && In(WalkSegment(cursor, end, delta)[i].span, y)
    ensures Between(cursor, Wrap(y - delta), end)
    decreases Distance(cursor, end)
  {
    hide Wrap, Distance;
    var n, img := StepLength(cursor, end, delta), Wrap(delta + cursor);
    var cursor' := Wrap(cursor + n);
    StepCloser(cursor, end, n);
    assert n < SPAN64 by { DistanceBound(cursor, end); }
    if i == 0 {
      StepSource(cursor, y, delta, n);
    } else {
      SegmentSound(cursor', end, delta, i - 1, y);
      FromLater(cursor, Wrap(y - delta), end, n);
    }
  }

  lemma {:induction false} DistanceBound(a: I64, b: I64)
    ensures Distance(a, b) < SPAN64
  {
  }

  lemma {:induction false} Residue(v: int, r: int)
    requires (v - r) % SPAN64 == 0 && 0 <= r < SPAN64
    ensures v % SPAN64 == r
  {
  }

  lemma {:induction false} DistanceAdd(a: I64, n: nat, x: I64)
    requires n + Distance(Wrap(a + n), x) < SPAN64
    ensures Distance(a, x) == n + Distance(Wrap(a + n), x)
  {
    var w := Wrap(a + n);
    assert (a + n - w) % SPAN64 == 0;
    assert (x - w - Distance(w, x)) % SPAN64 == 0;
    assert (x - a - (n + Distance(w, x))) % SPAN64 == 0;
    Residue(x - a, n + Distance(w, x));
  }

  lemma {:induction false} FromLater(cursor: I64, x: I64, end: I64, n: nat)
    requires 0 < n <= Distance(cursor, end) && Between(Wrap(cursor + n), x, end)
    ensures Between(cursor, x, end)
  {
    hide Wrap, Distance;
    DistanceBound(cursor, end);
    StepCloser(cursor, end, n);
    DistanceAdd(cursor, n, x);
  }

  // --- The segments of a table, going around ---

  predicate OnSegment(t: Table, i: nat, x: I64)
    requires i < |t|
  {
    Between(t[i].source, x, t[Next(t, i)].source)
  }

  lemma {:induction false} BetweenMeans(a: I64, x: I64, b: I64)
    ensures a < b ==> (Between(a, x, b) <==> a <= x < b)
    ensures a > b ==> (Between(a, x, b) <==> a <= x || x < b)
  {
  }

  /** A segment is where its offset holds. */
  lemma {:induction false} SegmentOffset(t: Table, i: nat, x: I64)
    requires Strict(t) && |t| >= 2 && i < |t| && OnSegment(t, i, x)
    ensures Offset(t, x) == Delta(t[i])
  {
    BetweenMeans(t[i].source, x, t[Next(t, i)].source);
    if i + 1 < |t| || t[i].source <= x {
      FindIs(t, x, i);
    }
  }

  lemma {:induction false} SegmentOf(t: Table, x: I64) returns (i: nat)
    requires Strict(t) && |t| >= 2
    ensures i < |t| && OnSegment(t, i, x)
  {
    i := if t[0].source <= x then Find(t, x) else |t| - 1;
    BetweenMeans(t[i].source, x, t[Next(t, i)].source);
  }

  /** The `j`-th segment of the walk that starts at segment `i`. */
  function Around(t: Table, i: nat, j: nat): (r: nat)
    requires i < |t| && j <= |t|
    ensures r < |t|
  {
    if i + j < |t| then i + j else i + j - |t|
  }

  lemma {:induction false} WalkClaims(t: Table, i: nat, k: nat, j: nat, x: I64)
    requires i < |t| && j < k <= |t| && OnSegment(t, Around(t, i, j), x)
    ensures Claimed(WalkFrom(t, i, k, t[i].source), Wrap(x + Delta(t[Around(t, i, j)])))
    decreases k
  {
    hide Wrap, Distance, Delta, Claimed, WalkSegment;
    var end, y := t[Next(t, i)].source, Wrap(x + Delta(t[Around(t, i, j)]));
    ClaimedJoin(WalkSegment(t[i].source, end, Delta(t[i])), WalkFrom(t, Next(t, i), k - 1, end), y);
    if j == 0 {
      SegmentClaims(t[i].source, end, Delta(t[i]), x);
    } else {
      assert Around(t, Next(t, i), j - 1) == Around(t, i, j);
      WalkClaims(t, Next(t, i), k - 1, j - 1, x);
    }
  }

  lemma {:induction false} WalkSound(t: Table, i: nat, k: nat, q: nat, y: int) returns (s: nat)
    requires i < |t| && q < |WalkFrom(t, i, k, t[i].source)| && In(WalkFrom(t, i, k, t[i].source)[q].span, y)
    ensures s < |t| && WalkFrom(t, i, k, t[i].source)[q].delta == Delta(t[s])
    ensures OnSegment(t, s, Wrap(y - Delta(t[s])))
    decreases k
  {
    hide Wrap, Distance, Delta, WalkSegment;
    var end := t[Next(t, i)].source;
    var first := WalkSegment(t[i].source, end, Delta(t[i]));
    if q < |first| {
      s := i;
      SegmentSound(t[i].source, end, Delta(t[i]), q, y);
    } else {
      s := WalkSound(t, Next(t, i), k - 1, q - |first|, y);
    }
  }

  lemma {:induction false} FirstPositiveIs(t: Table, k: nat)
    requires k <= |t| && (k < |t| ==> t[k].source > 0) && forall j :: 0 <= j < k ==> t[j].source <= 0
    ensures FirstPositive(t) == k
  {
    if k > 0 {
      FirstPositiveIs(t[1..], k - 1);
    }
  }

  /** The walk starts at a segment that begins at 0. */
  lemma {:induction false} StartsAtZero(t: Table)
    requires Strict(t) && HasSource(t, 0)
    ensures t[StartSegment(t)].source == 0
  {
    var i :| 0 <= i < |t| && t[i].source == 0;
    FirstPositiveIs(t, i + 1);
  }

  /** Position 0 lies on the segment where the walk starts. */
  lemma {:induction false} StartInside(t: Table)
    requires Strict(t) && |t| >= 2
    ensures OnSegment(t, StartSegment(t), 0)
  {
    var s := StartSegment(t);
    BetweenMeans(t[s].source, 0, t[Next(t, s)].source);
  }

  /** The walk goes once around, from 0 to the source of the segment it started in; the part of that segment before 0 is
      left out. */
  predicate Walked(t: Table, x: I64)
    requires |t| > 0
  {
    !Between(t[StartSegment(t)].source, x, 0)
  }

  lemma {:induction false} AllWalked(t: Table, x: I64)
    requires Strict(t) && HasSource(t, 0)
    ensures |t| > 0 && Walked(t, x)
  {
    StartsAtZero(t);
  }

  lemma {:induction false} PiecesSplit(t: Table)
    requires |t| > 0
    ensures var s := StartSegment(t); var end := t[Next(t, s)].source;
            AllPieces(t) == WalkSegment(0, end, Delta(t[s])) + WalkFrom(t, Next(t, s), |t| - 1, end)
  {
  }

  lemma {:induction false} DistanceSub(a: I64, b: I64, x: I64)
    requires Distance(a, b) <= Distance(a, x)
    ensures Distance(b, x) == Distance(a, x) - Distance(a, b)
  {
  }

  lemma {:induction false} LaterPart(a: I64, x: I64, end: I64)
    requires Between(a, 0, end)
    ensures Between(0, x, end) ==> Between(a, x, end)
    ensures Between(a, x, end) && !Between(a, x, 0) ==> Between(0, x, end)
  {
    hide Distance;
    DistanceSub(a, 0, end);
    if Distance(a, 0) <= Distance(a, x) {
      DistanceSub(a, 0, x);
    }
  }

  /** Every position that a walked position is sent to is claimed. */
  lemma {:induction false} HitIsClaimed(t: Table, x: I64)
    requires Strict(t) && |t| >= 2 && Walked(t, x)
    ensures Claimed(AllPieces(t), Image(t, x))
  {
    hide Wrap, Distance, Delta, Claimed, WalkFrom, WalkSegment, Offset, Find, FirstPositive, Between;
    var s := StartSegment(t);
    var next := Next(t, s);
    StartInside(t);
    PiecesSplit(t);
    var i := SegmentOf(t, x);
    SegmentOffset(t, i, x);
    ClaimedJoin(WalkSegment(0, t[next].source, Delta(t[s])), WalkFrom(t, next, |t| - 1, t[next].source), Image(t, x));
    if i == s {
      LaterPart(t[s].source, x, t[next].source);
      SegmentClaims(0, t[next].source, Delta(t[s]), x);
    } else {
      var j := if i >= next then i - next else i - next + |t|;
      assert Around(t, next, j) == i;
      WalkClaims(t, next, |t| - 1, j, x);
    }
  }

  /** The first claim on a position comes from a source that is sent there. */
  lemma {:induction false} FirstClaim(ps: seq<Piece>, y: int) returns (q: nat)
    requires Claimed(ps, y)
    ensures q < |ps| && In(ps[q].span, y) && FirstDelta(ps, y) == ps[q].delta
    ensures !Claimed(ps[..q], y)
  {
    var n := |ps| - 1;
    var front := ps[..n];
    if Claimed(front, y) {
      q := FirstClaim(front, y);
      assert front[..q] == ps[..q];
    } else {
      q := n;
      assert ps == front + [ps[n]];
      ClaimedNext(front, ps[n], y);
    }
  }

  /** Every claim is sound, also where the walk is not complete. */
  lemma {:induction false} ClaimIsHit(t: Table, y: I64)
    requires Strict(t) && |t| >= 2 && Claimed(AllPieces(t), y)
    ensures Image(t, Wrap(y - FirstDelta(AllPieces(t), y))) == y
  {
    hide Distance, Delta, Claimed, WalkFrom, WalkSegment, Offset, Find, FirstDelta, FirstPositive, Between, AllPieces;
    var q := FirstClaim(AllPieces(t), y);
    var i := PieceSound(t, q, y);
    var x := Wrap(y - Delta(t[i]));
    SegmentOffset(t, i, x);
    WrapAdd(y - Delta(t[i]), Delta(t[i]));
  }

  lemma {:induction false} PieceSound(t: Table, q: nat, y: int) returns (i: nat)
    requires Strict(t) && |t| >= 2 && q < |AllPieces(t)| && In(AllPieces(t)[q].span, y)
    ensures i < |t| && AllPieces(t)[q].delta == Delta(t[i])
    ensures OnSegment(t, i, Wrap(y - Delta(t[i])))
  {
    hide Distance, Delta, WalkFrom, WalkSegment, FirstPositive, Between, Wrap;
    var s := StartSegment(t);
    var next := Next(t, s);
    StartInside(t);
    PiecesSplit(t);
    var first := WalkSegment(0, t[next].source, Delta(t[s]));
    if q < |first| {
      i := s;
      SegmentSound(0, t[next].source, Delta(t[s]), q, y);
      LaterPart(t[s].source, Wrap(y - Delta(t[s])), t[next].source);
    } else {
      i := WalkSound(t, next, |t| - 1, q - |first|, y);
    }
  }

  lemma {:induction false} ClaimPieceIs(c: Cover, p: Piece)
    requires ValidSpans(c.spans) && ValidSpan(p.span)
    ensures ClaimPiece(c, p) == Cover(Claim(c.spans, p.span), c.out + NewEntries(c.spans, p))
  {
  }

  lemma {:induction false} ClaimAllInverts(ps: seq<Piece>)
    requires forall i :: 0 <= i < |ps| ==> ValidSpan(ps[i].span)
    ensures var c := ClaimAll(Cover([], []), ps); Inverts(c.spans, c.out, ps)
  {
    hide Inverts, Claim, NewEntries, ValidSpans, ValidSpan, ClaimPiece;
    NothingClaimed();
    if |ps| > 0 {
      var front := ps[..|ps| - 1];
      ClaimAllInverts(front);
      var c := ClaimAll(Cover([], []), front);
      PieceClaimed(c.spans, c.out, front, ps[|ps| - 1]);
      ClaimPieceIs(c, ps[|ps| - 1]);
      assert front + [ps[|ps| - 1]] == ps;
    }
  }

  lemma {:induction false} NothingClaimed()
    ensures ValidSpans([]) && Inverts([], [], [])
  {
  }

  // --- Tables with moderate numbers ---

  predicate Within(b: int, v: int) {
    -b <= v <= b
  }

  /** Sources and targets within `m` of 0, so that only the last segment's image crosses the top. */
  predicate Tame(t: Table, m: nat) {
    && Strict(t) && |t| >= 2
    && (forall i :: 0 <= i < |t| ==> Within(m, t[i].source) && Within(m, t[i].target))
    && Extent(t) + 3 * m <= MAX64
  }

  /** From the lowest source or 0 to the highest source or 0. */
  function Extent(t: Table): int
    requires |t| > 0
  {
    var low: int, high: int := t[0].source, t[|t| - 1].source;
    (if high > 0 then high else 0) - (if low < 0 then low else 0)
  }

  /** `p` stays within `b`, except at the ends of the range, which only `delta` reaches. */
  predicate Moderate(p: Piece, b: int, delta: I64) {
    && (Within(b, p.span.lo) || (p.span.lo == MIN64 && p.delta == delta))
    && (Within(b, p.span.hi) || (p.span.hi == TOP && p.delta == delta))
  }

  lemma {:induction false} TameParts(t: Table, m: nat, i: nat)
    requires Tame(t, m) && i < |t|
    ensures Delta(t[i]) == t[i].target - t[i].source && Within(2 * m, Delta(t[i]))
    ensures Wrap(Delta(t[i]) + t[i].source) == t[i].target && Within(m, t[i].target)
    ensures 0 < t[|t| - 1].source - t[0].source <= Extent(t) && Extent(t) + 3 * m <= MAX64
    ensures -Extent(t) <= t[i].source <= Extent(t)
    ensures i + 1 < |t| ==> 0 < t[i + 1].source - t[i].source <= Extent(t)
  {
  }

  lemma {:induction false} SinglePiece(cursor: I64, end: I64, delta: I64)
    requires cursor != end && StepLength(cursor, end, delta) == Distance(cursor, end)
    ensures var img := Wrap(delta + cursor);
            WalkSegment(cursor, end, delta) == [Piece(Span(img, img + Distance(cursor, end)), delta)]
  {
    var n := Distance(cursor, end);
    assert Wrap(cursor + n) == end;
    assert WalkSegment(end, end, delta) == [];
  }

  lemma {:induction false} InnerPieces(t: Table, m: nat, i: nat)
    requires Tame(t, m) && i + 1 < |t|
    ensures var ps := WalkSegment(t[i].source, t[i + 1].source, Delta(t[i]));
            |ps| == 1 && Moderate(ps[0], Extent(t) + m, Delta(t[|t| - 1]))
  {
    TameParts(t, m, i);
    SinglePiece(t[i].source, t[i + 1].source, Delta(t[i]));
  }

  lemma {:induction false} TopStep(cursor: I64, end: I64, delta: I64, img: I64)
    requires cursor != end && img == Wrap(delta + cursor) && MIN64 < img && TOP - img < Distance(cursor, end)
    ensures StepLength(cursor, end, delta) == TOP - img
    ensures Wrap(cursor + (TOP - img)) != end
    ensures Wrap(delta + Wrap(cursor + (TOP - img))) == MIN64
    ensures Distance(Wrap(cursor + (TOP - img)), end) == Distance(cursor, end) - (TOP - img)
  {
  }

  /** The last segment claims the top of the range, and then goes on from the bottom. */
  lemma {:induction false} OuterPieces(t: Table, m: nat)
    requires Tame(t, m)
    ensures var last := |t| - 1;
            var ps := WalkSegment(t[last].source, t[0].source, Delta(t[last]));
            && |ps| == 2 && ps[0].span.hi == TOP && ps[1].span.lo == MIN64
            && Moderate(ps[0], Extent(t) + m, Delta(t[last])) && Moderate(ps[1], Extent(t) + m, Delta(t[last]))
  {
    var last := |t| - 1;
    TameParts(t, m, last);
    var cursor, end, delta, img := t[last].source, t[0].source, Delta(t[last]), t[last].target;
    var d := Distance(cursor, end);
    assert d == SPAN64 - (t[last].source - t[0].source);
    TopStep(cursor, end, delta, img);
    var cursor' := Wrap(cursor + (TOP - img));
    SinglePiece(cursor', end, delta);
    assert WalkSegment(cursor, end, delta)
        == [Piece(Span(img, TOP), delta)] + WalkSegment(cursor', end, delta);
  }

  lemma {:induction false} WalkModerate(t: Table, m: nat, i: nat, k: nat, q: nat)
    requires Tame(t, m) && i < |t| && q < |WalkFrom(t, i, k, t[i].source)|
    ensures Moderate(WalkFrom(t, i, k, t[i].source)[q], Extent(t) + m, Delta(t[|t| - 1]))
    ensures Within(2 * m, WalkFrom(t, i, k, t[i].source)[q].delta)
    decreases k
  {
    hide Delta, Moderate, Tame;
    assert |t| >= 2 by { TameParts(t, m, i); }
    hide WalkSegment, Extent, Distance;
    var end := t[Next(t, i)].source;
    var first := WalkSegment(t[i].source, end, Delta(t[i]));
    TameParts(t, m, i);
    if q >= |first| {
      WalkModerate(t, m, Next(t, i), k - 1, q - |first|);
    } else if i + 1 < |t| {
      InnerPieces(t, m, i);
    } else {
      OuterPieces(t, m);
    }
  }

  predicate Inside(p: Piece, b: int) {
    Within(b, p.span.lo) && Within(b, p.span.hi)
  }

  /** The first segment, walked from 0: one piece if it ends above 0. */
  lemma {:induction false} StartUp(t: Table, m: nat, s: nat, end: I64)
    requires Tame(t, m) && s < |t| && end == t[Next(t, s)].source && end > 0 && (s + 1 == |t| || t[s].source <= 0)
    ensures var ps := WalkSegment(0, end, Delta(t[s])); |ps| == 1 && Inside(ps[0], Extent(t) + m)
  {
    TameParts(t, m, s);
    TameParts(t, m, Next(t, s));
    var d: int := Delta(t[s]);
    assert Distance(0, end) == end && Wrap(d + 0) == d;
    SinglePiece(0, end, d);
  }

  lemma {:induction false} OverTop(end: I64, delta: I64)
    requires end < 0 && delta > MIN64 && (delta as int) + end > MIN64
    ensures Wrap(delta + 0) == delta && TOP - delta < Distance(0, end) == SPAN64 + end
  {
  }

  lemma {:induction false} OneSegmentPiece(cursor: I64, end: I64, delta: I64)
    requires cursor != end && Wrap(delta + cursor) == MIN64
    ensures WalkSegment(cursor, end, delta) == [Piece(Span(MIN64, MIN64 + Distance(cursor, end)), delta)]
  {
    SinglePiece(cursor, end, delta);
  }

  /** Without a positive source it goes on over the top, like any last segment. */
  lemma {:induction false} StartOver(t: Table, m: nat)
    requires Tame(t, m) && t[|t| - 1].source <= 0
    ensures var d := Delta(t[|t| - 1]); var ps := WalkSegment(0, t[0].source, d);
            && |ps| == 2 && Within(Extent(t) + m, ps[0].span.lo)
            && Moderate(ps[0], Extent(t) + m, d) && Moderate(ps[1], Extent(t) + m, d)
  {
    var last := |t| - 1;
    TameParts(t, m, last);
    TameParts(t, m, 0);
    var end, delta := t[0].source, Delta(t[last]);
    hide Wrap, Distance, StepLength;
    OverTop(end, delta);
    var cursor' := Wrap(0 + (TOP - delta));
    TopStep(0, end, delta, delta);
    OneSegmentPiece(cursor', end, delta);
    assert WalkSegment(0, end, delta) == [Piece(Span(delta, TOP), delta)] + WalkSegment(cursor', end, delta);
  }

  /** Segments before the last one stay away from the ends of the range. */
  lemma {:induction false} InnerWalk(t: Table, m: nat, i: nat, k: nat, q: nat)
    requires Tame(t, m) && i + k < |t| && q < |WalkFrom(t, i, k, t[i].source)|
    ensures Inside(WalkFrom(t, i, k, t[i].source)[q], Extent(t) + m)
    decreases k
  {
    hide Delta, Inside, Tame;
    var end := t[Next(t, i)].source;
    var first := WalkSegment(t[i].source, end, Delta(t[i]));
    InnerInside(t, m, i);
    if q >= |first| {
      InnerWalk(t, m, i + 1, k - 1, q - |first|);
    }
  }

  lemma {:induction false} InnerInside(t: Table, m: nat, i: nat)
    requires Tame(t, m) && i + 1 < |t|
    ensures var ps := WalkSegment(t[i].source, t[i + 1].source, Delta(t[i])); |ps| == 1 && Inside(ps[0], Extent(t) + m)
  {
    TameParts(t, m, i);
    SinglePiece(t[i].source, t[i + 1].source, Delta(t[i]));
  }

  /** What the pieces of a tame table look like. */
  lemma {:induction false} TamePiece(t: Table, m: nat, q: nat)
    requires Tame(t, m) && q < |AllPieces(t)|
    ensures Moderate(AllPieces(t)[q], Extent(t) + m, Delta(t[|t| - 1])) && Within(2 * m, AllPieces(t)[q].delta)
    ensures t[0].source > 0 ==> Inside(AllPieces(t)[q], Extent(t) + m)
  {
    hide Delta, Moderate, Inside, Tame, WalkFrom, WalkSegment, FirstPositive, Extent;
    var s := StartSegment(t);
    TameParts(t, m, s);
    StrictTable(t, m);
    var next := Next(t, s);
    PiecesSplit(t);
    StartPieces(t, m);
    var n := |WalkSegment(0, t[next].source, Delta(t[s]))|;
    if q >= n {
      WalkModerate(t, m, next, |t| - 1, q - n);
      if t[0].source > 0 {
        InnerWalk(t, m, next, |t| - 1, q - n);
      }
    }
  }

  lemma {:induction false} StrictTable(t: Table, m: nat)
    requires Tame(t, m)
    ensures Strict(t) && |t| >= 2 && (t[0].source > 0 ==> StartSegment(t) == |t| - 1)
  {
  }

  lemma {:induction false} StartPieces(t: Table, m: nat)
    requires Tame(t, m)
    ensures var s := StartSegment(t); var b, d := Extent(t) + m, Delta(t[|t| - 1]);
            var ps := WalkSegment(0, t[Next(t, s)].source, Delta(t[s]));
            && |ps| > 0 && Within(b, ps[0].span.lo)
            && forall q :: 0 <= q < |ps| ==>
                 Moderate(ps[q], b, d) && ps[q].delta == Delta(t[s]) && (t[0].source > 0 ==> Inside(ps[q], b))
  {
    hide Delta, WalkSegment, Extent;
    var s := StartSegment(t);
    var end := t[Next(t, s)].source;
    if end > 0 {
      StartUp(t, m, s, end);
    } else {
      StartOver(t, m);
    }
  }
}
