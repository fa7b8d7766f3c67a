/** The inverse as it is computed: a working buffer of claimed image intervals in two parallel arrays. */
module RiftReverseRun {
  import opened Rift
  import opened RiftCover
  import opened RiftReverse

  /** An interval that reaches the top of the range has the lowest number as its end. */
  function EndOf(e: I64): int {
    if e == MIN64 then TOP else e
  }

  function SpansOf(starts: seq<I64>, ends: seq<I64>): (r: seq<Span>)
    requires |starts| == |ends|
    ensures |r| == |starts| && forall k :: 0 <= k < |r| ==> r[k] == Span(starts[k], EndOf(ends[k]))
  {
    seq(|starts|, k requires 0 <= k < |starts| => Span(starts[k], EndOf(ends[k])))
  }

  function Spliced<T>(s: seq<T>, from: nat, to: nat, v: T): (r: seq<T>)
    requires from <= to <= |s|
    ensures |r| == |s| + 1 + from - to
  {
    s[..from] + [v] + s[to..]
  }

  lemma {:induction false} SpansSpliced(starts: seq<I64>, ends: seq<I64>, from: nat, to: nat, a: I64, b: I64)
    requires |starts| == |ends| && from <= to <= |starts|
    ensures SpansOf(Spliced(starts, from, to, a), Spliced(ends, from, to, b))
         == Spliced(SpansOf(starts, ends), from, to, Span(a, EndOf(b)))
  {
  }

  lemma {:induction false} SpliceIs<T>(before: seq<T>, after: seq<T>, from: nat, to: nat, v: T)
    requires from <= to <= |before| && |after| == |before| + 1 + from - to
    requires (forall k :: 0 <= k < from ==> after[k] == before[k]) && after[from] == v
    requires forall k :: to <= k < |before| ==> after[k - to + from + 1] == before[k]
    ensures after == Spliced(before, from, to, v)
  {
    forall k | from < k < |after| ensures after[k] == before[k - from - 1 + to] {
      var j := k - from - 1 + to;
      assert j - to + from + 1 == k;
    }
  }

  class IntervalBuffer {
    const starts: array<I64>
    const ends: array<I64>
    var count: nat

    ghost predicate Valid()
      reads this, starts, ends
    {
      starts != ends && starts.Length == ends.Length && count <= starts.Length
    }

    ghost function Spans(): (s: seq<Span>)
      requires Valid()
      reads this, starts, ends
      ensures |s| == count
    {
      SpansOf(starts[..count], ends[..count])
    }

    constructor (capacity: nat)
      ensures Valid() && Spans() == [] && starts.Length == capacity && fresh(starts) && fresh(ends)
    {
      starts := new I64[capacity](_ => 0);
      ends := new I64[capacity](_ => 0);
      count := 0;
    }

    /** Move the tail from `overlapEnd` on so that it follows slot `insertAt`. */
    static method MoveTail(a: array<I64>, insertAt: nat, overlapEnd: nat, count: nat)
      requires insertAt <= overlapEnd <= count <= a.Length
      requires insertAt == overlapEnd ==> count < a.Length
      modifies a
      ensures forall k :: 0 <= k < insertAt ==> a[k] == old(a[k])
      ensures forall k :: overlapEnd <= k < count ==> a[k - overlapEnd + insertAt + 1] == old(a[k])
    {
      if insertAt == overlapEnd {
        OpenSlot(a, insertAt, count);
      } else if insertAt + 1 != overlapEnd && overlapEnd < count {
        var gap := overlapEnd - insertAt - 1;
        var j := overlapEnd;
        while j < count
          invariant overlapEnd <= j <= count
          invariant forall k :: 0 <= k < insertAt ==> a[k] == old(a[k])
          invariant forall k :: j <= k < count ==> a[k] == old(a[k])
          invariant forall k :: overlapEnd <= k < j ==> a[k - overlapEnd + insertAt + 1] == old(a[k])
        {
          a[j - gap] := a[j];
          j := j + 1;
        }
      }
    }

    static method OpenSlot(a: array<I64>, at: nat, count: nat)
      requires at <= count < a.Length
      modifies a
      ensures forall k :: 0 <= k < at ==> a[k] == old(a[k])
      ensures forall k :: at <= k < count ==> a[k + 1] == old(a[k])
    {
      var j := count;
      while j > at
        invariant at <= j <= count
        invariant forall k :: 0 <= k < j ==> a[k] == old(a[k])
        invariant forall k :: j <= k < count ==> a[k + 1] == old(a[k])
      {
        a[j] := a[j - 1];
        j := j - 1;
      }
    }

    /** One value in the place of the slots `insertAt` up to `overlapEnd`. */
    static method SpliceArray(a: array<I64>, insertAt: nat, overlapEnd: nat, count: nat, v: I64)
      requires insertAt <= overlapEnd <= count <= a.Length
      requires insertAt == overlapEnd ==> count < a.Length
      modifies a
      ensures a[..count + 1 + insertAt - overlapEnd] == Spliced(old(a[..count]), insertAt, overlapEnd, v)
    {
      ghost var before := a[..count];
      MoveTail(a, insertAt, overlapEnd, count);
      a[insertAt] := v;
      SpliceIs(before, a[..count + 1 + insertAt - overlapEnd], insertAt, overlapEnd, v);
    }

    /** Put one interval in the place of the intervals `insertAt` up to `overlapEnd`. */
    method Replace(insertAt: nat, overlapEnd: nat, newStart: I64, newEnd: I64)
      requires Valid() && insertAt <= overlapEnd <= count
      requires insertAt == overlapEnd ==> count < starts.Length
      modifies this, starts, ends
      ensures Valid() && Spans() == Spliced(old(Spans()), insertAt, overlapEnd, Span(newStart, EndOf(newEnd)))
    {
      hide Spliced;
      SpansSpliced(starts[..count], ends[..count], insertAt, overlapEnd, newStart, newEnd);
      SpliceArray(starts, insertAt, overlapEnd, count, newStart);
      SpliceArray(ends, insertAt, overlapEnd, count, newEnd);
      count := count + 1 + insertAt - overlapEnd;
    }

    method FirstOverlap(imageStart: I64) returns (k: nat)
      requires Valid()
      ensures k == FirstTouched(Spans(), imageStart)
    {
      k := 0;
      while k < count && imageStart > ends[k] && ends[k] != MIN64
        invariant k <= count && forall i :: 0 <= i < k ==> Spans()[i].hi < imageStart
      {
        k := k + 1;
      }
      FirstTouchedIs(Spans(), imageStart, k);
    }

    method OverlapEnd(first: nat, imageEnd: I64) returns (e: nat)
      requires Valid() && first <= count
      ensures e == TouchedEnd(Spans(), first, EndOf(imageEnd))
    {
      e := first;
      while e < count && (imageEnd == MIN64 || imageEnd >= starts[e])
        invariant first <= e <= count && forall i :: first <= i < e ==> Spans()[i].lo <= EndOf(imageEnd)
      {
        e := e + 1;
      }
      TouchedEndIs(Spans(), first, EndOf(imageEnd), e);
    }

    /** One entry at the end of every interval but the last one that the image touches. */
    method EmitInterior(out: Table, f: nat, e: nat, delta: I64) returns (r: Table)
      requires Valid() && ValidSpans(Spans()) && f <= e < count
      ensures r == out + EntriesFor(Ends(Spans(), f, e), delta)
    {
      hide Ends, EntriesFor, Wrap, ValidSpans;
      r := out;
      for idx := f to e
        invariant r == out + EntriesFor(Ends(Spans(), f, idx), delta)
      {
        NextEnd(Spans(), f, idx, delta);
        r := r + [Entry(ends[idx], Wrap(ends[idx] - delta))];
      }
    }

    /** One entry for every run of positions that the image newly claims. */
    method EmitStarts(out: Table, f: nat, e: nat, imageStart: I64, imageEnd: I64, cursor: I64, delta: I64)
      returns (r: Table)
      requires Valid() && ValidSpans(Spans()) && ValidSpan(Span(imageStart, EndOf(imageEnd)))
      requires f == FirstTouched(Spans(), imageStart) && e == TouchedEnd(Spans(), f, EndOf(imageEnd))
      requires cursor == Wrap(imageStart - delta)
      ensures r == out + NewEntries(Spans(), Piece(Span(imageStart, EndOf(imageEnd)), delta))
    {
      hide FirstTouched, TouchedEnd, Wrap, NewEntries, NewStarts, EntriesFor, Ends, ValidSpans, ValidSpan, Spans,
           FrontStart, BackStart;
      ghost var b, image := Spans(), Span(imageStart, EndOf(imageEnd));
      NewEntriesFor(b, Piece(image, delta));
      StartsSplit(b, image);
      OneEntry(imageStart, delta);
      if f == e {
        return out + [Entry(imageStart, cursor)];
      }
      r := EmitFront(out, f, imageStart, image.hi, cursor, delta);
      r := EmitInterior(r, f, e - 1, delta);
      r := EmitBack(r, e, imageStart, imageEnd, delta);
      EntriesJoin(FrontStart(b, image), Ends(b, f, e - 1), BackStart(b, image), delta);
    }

    method EmitFront(out: Table, f: nat, imageStart: I64, ghost hi: int, cursor: I64, delta: I64) returns (r: Table)
      requires Valid() && f < count && f == FirstTouched(Spans(), imageStart) && cursor == Wrap(imageStart - delta)
      ensures r == out + EntriesFor(FrontStart(Spans(), Span(imageStart, hi)), delta)
    {
      hide FirstTouched, Wrap;
      OneEntry(imageStart, delta);
      r := out + if imageStart < starts[f] then [Entry(imageStart, cursor)] else [];
    }

    /** The entry for what the image claims behind the last interval that it touches. */
    method EmitBack(out: Table, e: nat, ghost lo: int, imageEnd: I64, delta: I64) returns (r: Table)
      requires Valid() && 0 < e <= count && e == TouchedEnd(Spans(), FirstTouched(Spans(), lo), EndOf(imageEnd))
      ensures r == out + EntriesFor(BackStart(Spans(), Span(lo, EndOf(imageEnd))), delta)
    {
      hide FirstTouched, TouchedEnd, Wrap;
      var last := ends[e - 1];
      OneEntry(last, delta);
      r := out + if last != MIN64 && (imageEnd == MIN64 || last < imageEnd) then [Entry(last, Wrap(last - delta))]
                 else [];
    }

    /** Claim the image from `imageStart` to `imageEnd`, whose first position comes from `cursor`. */
    method ClaimImage(out: Table, imageStart: I64, imageEnd: I64, cursor: I64, delta: I64) returns (r: Table)
      requires Valid() && ValidSpans(Spans()) && ValidSpan(Span(imageStart, EndOf(imageEnd)))
      requires cursor == Wrap(imageStart - delta) && count < starts.Length
      modifies this, starts, ends
      ensures Valid() && count <= old(count) + 1
      ensures Cover(Spans(), r)
           == ClaimPiece(Cover(old(Spans()), out), Piece(Span(imageStart, EndOf(imageEnd)), delta))
    {
      hide FirstTouched, TouchedEnd, NewEntries, ValidSpans;
      var first := FirstOverlap(imageStart);
      var end := OverlapEnd(first, imageEnd);
      r := EmitStarts(out, first, end, imageStart, imageEnd, cursor, delta);
      if first == end {
        Replace(first, end, imageStart, imageEnd);
      } else {
        var mergedStart := if imageStart < starts[first] then imageStart else starts[first];
        var last := ends[end - 1];
        var newEnd := if last != MIN64 && (imageEnd == MIN64 || last < imageEnd) then imageEnd else last;
        Replace(first, end, mergedStart, newEnd);
      }
    }
  }

  function FrontStart(b: seq<Span>, s: Span): seq<int> {
    var f := FirstTouched(b, s.lo);
    if f < |b| && s.lo < b[f].lo then [s.lo] else []
  }

  function BackStart(b: seq<Span>, s: Span): seq<int> {
    var e := TouchedEnd(b, FirstTouched(b, s.lo), s.hi);
    if 0 < e && b[e - 1].hi < s.hi then [b[e - 1].hi] else []
  }

  lemma {:induction false} StartsSplit(b: seq<Span>, s: Span)
    requires ValidSpans(b) && ValidSpan(s)
    ensures var f := FirstTouched(b, s.lo);
            var e := TouchedEnd(b, f, s.hi);
            NewStarts(b, s) == if f == e then [s.lo] else FrontStart(b, s) + Ends(b, f, e - 1) + BackStart(b, s)
  {
    hide FirstTouched, TouchedEnd;
  }

  /** The entries that send each of the positions `gs` back by `delta`. */
  function EntriesFor(gs: seq<int>, delta: I64): (r: Table)
    ensures |r| == |gs| && forall i :: 0 <= i < |r| ==> r[i] == Entry(Wrap(gs[i]), Wrap(gs[i] - delta))
  {
    seq(|gs|, i requires 0 <= i < |gs| => Entry(Wrap(gs[i]), Wrap(gs[i] - delta)))
  }

  lemma {:induction false} NextEnd(b: seq<Span>, f: nat, k: nat, delta: I64)
    requires ValidSpans(b) && f <= k && k + 1 < |b|
    ensures MIN64 < b[k].hi <= MAX64
    ensures EntriesFor(Ends(b, f, k + 1), delta)
         == EntriesFor(Ends(b, f, k), delta) + [Entry(b[k].hi, Wrap(b[k].hi - delta))]
  {
    assert b[k].hi < b[k + 1].lo && ValidSpan(b[k]) && ValidSpan(b[k + 1]);
    assert Ends(b, f, k + 1) == Ends(b, f, k) + [b[k].hi];
  }

  lemma {:induction false} OneEntry(g: I64, delta: I64)
    ensures EntriesFor([g], delta) == [Entry(g, Wrap(g - delta))] && EntriesFor([], delta) == []
  {
  }

  lemma {:induction false} EntriesJoin(a: seq<int>, b: seq<int>, c: seq<int>, delta: I64)
    ensures EntriesFor(a + b + c, delta) == EntriesFor(a, delta) + EntriesFor(b, delta) + EntriesFor(c, delta)
  {
  }

  lemma {:induction false} NewEntriesFor(b: seq<Span>, p: Piece)
    requires ValidSpans(b) && ValidSpan(p.span)
    ensures NewEntries(b, p) == EntriesFor(NewStarts(b, p.span), p.delta)
  {
    hide NewStarts;
  }

  lemma {:induction false} FirstTouchedIs(b: seq<Span>, lo: int, k: nat)
    requires k <= |b| && (k < |b| ==> lo <= b[k].hi) && forall i :: 0 <= i < k ==> b[i].hi < lo
    ensures FirstTouched(b, lo) == k
  {
    var f := FirstTouched(b, lo);
    assert !(f < k) && !(k < f);
  }

  lemma {:induction false} TouchedEndIs(b: seq<Span>, f: nat, hi: int, e: nat)
    requires f <= e <= |b| && (e < |b| ==> hi < b[e].lo) && forall i :: f <= i < e ==> b[i].lo <= hi
    ensures TouchedEnd(b, f, hi) == e
  {
    var t := TouchedEnd(b, f, hi);
    assert !(t < e) && !(e < t);
  }

  // --- The walk ---

  lemma {:induction false} WalkSegmentStep(cursor: I64, end: I64, delta: I64)
    requires cursor != end
    ensures var n, img := StepLength(cursor, end, delta), Wrap(delta + cursor);
            && WalkSegment(cursor, end, delta)
            == [Piece(Span(img, img + n), delta)] + WalkSegment(Wrap(cursor + n), end, delta)
            && ValidSpan(Span(img, img + n)) && EndOf(Wrap(img + n)) == img + n && cursor == Wrap(img - delta)
            && Distance(Wrap(cursor + n), end) < Distance(cursor, end)
  {
    hide Wrap, Distance;
    var n := StepLength(cursor, end, delta);
    StepCloser(cursor, end, n);
    WrapAdd(delta + cursor, 0 - delta);
    WrapTop(Wrap(delta + cursor) + n);
  }

  lemma {:induction false} WrapTop(x: int)
    requires MIN64 < x <= TOP
    ensures EndOf(Wrap(x)) == x
  {
  }

  /** A segment claims at most two pieces: up to the top of the range, and on from the bottom. */
  lemma {:induction false} AtMostTwo(cursor: I64, end: I64, delta: I64)
    ensures |WalkSegment(cursor, end, delta)| <= 2
    ensures Wrap(delta + cursor) == MIN64 ==> |WalkSegment(cursor, end, delta)| <= 1
  {
    hide Wrap, Distance;
    if cursor != end {
      var n, img := StepLength(cursor, end, delta), Wrap(delta + cursor);
      if n == Distance(cursor, end) {
        SinglePiece(cursor, end, delta);
      } else {
        TopStep(cursor, end, delta, img);
        var next := Wrap(cursor + n);
        SinglePiece(next, end, delta);
        WalkSegmentStep(cursor, end, delta);
      }
    }
  }

  lemma {:induction false} AtMostTwice(t: Table, i: nat, k: nat, cursor: I64)
    requires i < |t|
    ensures |WalkFrom(t, i, k, cursor)| <= 2 * k
    decreases k
  {
    if k > 0 {
      AtMostTwo(cursor, t[Next(t, i)].source, Delta(t[i]));
      AtMostTwice(t, Next(t, i), k - 1, t[Next(t, i)].source);
    }
  }

  lemma {:induction false} ClaimAllNext(ps: seq<Piece>, p: Piece)
    requires (forall i :: 0 <= i < |ps| ==> ValidSpan(ps[i].span)) && ValidSpan(p.span)
    ensures ClaimAll(Cover([], []), ps + [p]) == ClaimPiece(ClaimAll(Cover([], []), ps), p)
  {
    assert (ps + [p])[..|ps|] == ps;
  }

  predicate ValidPieces(ps: seq<Piece>) {
    forall i :: 0 <= i < |ps| ==> ValidSpan(ps[i].span)
  }

  /** `buf` and `out` hold the result of the claims `done`. */
  ghost predicate Holds(buf: IntervalBuffer, out: Table, done: seq<Piece>)
    reads buf, buf.starts, buf.ends
  {
    && buf.Valid() && buf.count <= |done| && ValidPieces(done)
    && Cover(buf.Spans(), out) == ClaimAll(Cover([], []), done)
  }

  /** One claim: the part of the segment from `cursor` on that does not cross the top of the range. */
  method ClaimStep(buf: IntervalBuffer, out: Table, cursor: I64, end: I64, delta: I64, ghost done: seq<Piece>)
    returns (r: Table, cursor': I64)
    requires Holds(buf, out, done) && cursor != end && |done| < buf.starts.Length
    modifies buf, buf.starts, buf.ends
    ensures var n, img := StepLength(cursor, end, delta), Wrap(delta + cursor);
            Holds(buf, r, done + [Piece(Span(img, img + n), delta)]) && cursor' == Wrap(cursor + n)
  {
    hide ClaimAll, ClaimPiece, ValidSpans, ValidSpan, IntervalBuffer.Spans, Wrap, Distance;
    WalkSegmentStep(cursor, end, delta);
    var imageStart := Wrap(delta + cursor);
    var span := Distance(cursor, end);
    if imageStart != MIN64 && Distance(imageStart, MIN64) < span {
      span := Distance(imageStart, MIN64);
    }
    assert span == StepLength(cursor, end, delta) by { ToTop(imageStart); }
    NothingClaimed();
    ClaimAllNext(done, Piece(Span(imageStart, imageStart + span), delta));
    r := buf.ClaimImage(out, imageStart, Wrap(imageStart + span), cursor, delta);
    cursor' := Wrap(cursor + span);
  }

  lemma {:induction false} ToTop(img: I64)
    ensures img != MIN64 ==> Distance(img, MIN64) == TOP - img
  {
  }

  method ClaimSegment(buf: IntervalBuffer, out: Table, start: I64, end: I64, delta: I64, ghost done: seq<Piece>)
    returns (r: Table)
    requires Holds(buf, out, done) && |done| + |WalkSegment(start, end, delta)| <= buf.starts.Length
    modifies buf, buf.starts, buf.ends
    ensures Holds(buf, r, done + WalkSegment(start, end, delta))
  {
    hide Holds, Wrap, Distance, StepLength;
    r := out;
    var cursor := start;
    ghost var claimed := done;
    while cursor != end
      invariant Holds(buf, r, claimed)
      invariant claimed + WalkSegment(cursor, end, delta) == done + WalkSegment(start, end, delta)
      decreases Distance(cursor, end)
    {
      WalkSegmentStep(cursor, end, delta);
      ghost var n, img := StepLength(cursor, end, delta), Wrap(delta + cursor);
      r, cursor := ClaimStep(buf, r, cursor, end, delta, claimed);
      claimed := claimed + [Piece(Span(img, img + n), delta)];
    }
    assert claimed + [] == claimed;
  }

  method FindStart(t: Table) returns (stop: nat)
    requires |t| > 0
    ensures stop == StartSegment(t) && stop < |t|
  {
    var first := 0;
    while first < |t| && t[first].source <= 0
      invariant first <= |t| && forall j :: 0 <= j < first ==> t[j].source <= 0
    {
      first := first + 1;
    }
    FirstPositiveIs(t, first);
    stop := if first == 0 then |t| - 1 else first - 1;
  }

  method HasOneSource(t: Table) returns (same: bool)
    requires |t| > 0
    ensures same == OneSource(t)
  {
    for i := 1 to |t|
      invariant forall k :: 0 <= k < i ==> t[k].source == t[0].source
    {
      if t[i].source != t[0].source {
        return false;
      }
    }
    same := true;
  }

  /** The segments in order, from the one that contains 0 around to it again. */
  method ClaimSegments(t: Table) returns (out: Table)
    requires |t| > 0
    ensures out == ClaimAll(Cover([], []), AllPieces(t)).out
  {
    hide Holds, WalkSegment, WalkFrom, Delta, StartSegment, ValidSpan, Around, AllPieces;
    var buf := new IntervalBuffer(2 * |t|);
    out := [];
    var stop := FindStart(t);
    var active, cursor, boundary := stop, 0, Next(t, stop);
    ghost var k, done := |t|, [];
    ghost var all := AllPieces(t);
    AtMostTwice(t, stop, |t|, 0);
    HoldsNothing(buf);
    assert all == WalkFrom(t, stop, |t|, 0) && active == Around(t, stop, 0) by { WalkStart(t, stop); }
    assert done + WalkFrom(t, active, k, cursor) == all;
    while true
      invariant active < |t| && 1 <= k <= |t| && active == Around(t, stop, |t| - k) && boundary == Next(t, active)
      invariant done + WalkFrom(t, active, k, cursor) == all && Holds(buf, out, done)
      invariant |all| <= buf.starts.Length
      invariant fresh(buf) && fresh(buf.starts) && fresh(buf.ends)
      decreases k
    {
      AroundNext(t, stop, k);
      out, done := ClaimNext(t, active, boundary, cursor, buf, out, k, done, all);
      cursor, active := t[boundary].source, boundary;
      k := k - 1;
      if boundary == stop {
        break;
      }
      boundary := Next(t, boundary);
    }
    WalkFromEnd(t, active, cursor);
    assert done + [] == done;
    HoldsAll(buf, out, done);
  }

  lemma {:induction false} WalkStart(t: Table, stop: nat)
    requires |t| > 0 && stop == StartSegment(t)
    ensures AllPieces(t) == WalkFrom(t, stop, |t|, 0) && stop == Around(t, stop, 0)
  {
  }

  lemma {:induction false} AroundNext(t: Table, stop: nat, k: nat)
    requires stop < |t| && 1 <= k <= |t|
    ensures var next := Next(t, Around(t, stop, |t| - k));
            (next == stop <==> k == 1) && (k > 1 ==> next == Around(t, stop, |t| - (k - 1)))
  {
  }

  method ClaimNext(t: Table, active: nat, boundary: nat, cursor: I64, buf: IntervalBuffer, out: Table,
                   ghost k: nat, ghost done: seq<Piece>, ghost all: seq<Piece>)
    returns (r: Table, ghost done': seq<Piece>)
    requires active < |t| && boundary == Next(t, active) && k > 0 && Holds(buf, out, done)
    requires done + WalkFrom(t, active, k, cursor) == all && |all| <= buf.starts.Length
    modifies buf, buf.starts, buf.ends
    ensures Holds(buf, r, done') && done' + WalkFrom(t, boundary, k - 1, t[boundary].source) == all
  {
    hide Holds, WalkSegment, WalkFrom, Delta, ValidSpan;
    WalkFromStep(t, active, k, cursor);
    r := ClaimSegment(buf, out, cursor, t[boundary].source, Delta(t[active]), done);
    done' := done + WalkSegment(cursor, t[boundary].source, Delta(t[active]));
  }

  lemma {:induction false} WalkFromStep(t: Table, i: nat, k: nat, cursor: I64)
    requires i < |t| && k > 0
    ensures var end := t[Next(t, i)].source;
            WalkFrom(t, i, k, cursor)
            == WalkSegment(cursor, end, Delta(t[i])) + WalkFrom(t, Next(t, i), k - 1, end)
  {
  }

  lemma {:induction false} WalkFromEnd(t: Table, i: nat, cursor: I64)
    requires i < |t|
    ensures WalkFrom(t, i, 0, cursor) == []
  {
  }

  lemma {:induction false} HoldsNothing(buf: IntervalBuffer)
    requires buf.Valid() && buf.Spans() == []
    ensures Holds(buf, [], [])
  {
  }

  lemma {:induction false} HoldsAll(buf: IntervalBuffer, out: Table, done: seq<Piece>)
    requires Holds(buf, out, done)
    ensures ValidPieces(done) && out == ClaimAll(Cover([], []), done).out
  {
  }

  method Retain(t: Table) returns (r: Table)
    ensures r == Retained(t)
  {
    r := [];
    for i := 0 to |t|
      invariant r == Retained(t[..i])
    {
      assert t[..i + 1][..i] == t[..i];
      if t[i].source != MIN64 && t[i].target != MIN64 {
        r := r + [t[i]];
      }
    }
    assert t[..|t|] == t;
  }

  method DedupSameSource(t: Table) returns (r: Table)
    ensures r == DedupSources(t)
  {
    r := [];
    for i := 0 to |t|
      invariant r == DedupSources(t[..i])
    {
      assert t[..i + 1][..i] == t[..i];
      if |r| > 0 && r[|r| - 1].source == t[i].source {
        r := r[|r| - 1 := t[i]];
      } else {
        r := r + [t[i]];
      }
    }
    assert t[..|t|] == t;
  }

  method Reverse(t: Table) returns (r: Table)
    ensures r == Inverse(t)
  {
    hide OneSource, ClaimAll, AllPieces;
    if |t| == 0 {
      return [];
    }
    var same := HasOneSource(t);
    if same {
      return [Entry(0, Delta(t[0]))];
    }
    var out := ClaimSegments(t);
    r := Retain(SortBySource(out));
    r := DedupSameSource(r);
  }

  lemma {:induction false} ClaimGrows(b: seq<Span>, s: Span)
    ensures |Claim(b, s)| <= |b| + 1
  {
  }

  lemma {:induction false} CoverSize(ps: seq<Piece>)
    requires ValidPieces(ps)
    ensures |ClaimAll(Cover([], []), ps).spans| <= |ps|
  {
    hide ValidSpans, ValidSpan, Claim, NewEntries;
    NothingClaimed();
    if |ps| > 0 {
      CoverSize(ps[..|ps| - 1]);
      ClaimGrows(ClaimAll(Cover([], []), ps[..|ps| - 1]).spans, ps[|ps| - 1].span);
    }
  }

  /** After any number of claims the intervals are sorted, disjoint and not touching, and twice the
      number of entries is room enough for them. */
  lemma {:induction false} BufferSuffices(t: Table, k: nat)
    requires |t| > 0 && k <= |AllPieces(t)|
    ensures ValidPieces(AllPieces(t)[..k])
    ensures var spans := ClaimAll(Cover([], []), AllPieces(t)[..k]).spans;
            ValidSpans(spans) && |spans| <= 2 * |t|
  {
    hide WalkFrom, ClaimAll;
    AtMostTwice(t, StartSegment(t), |t|, 0);
    CoverSize(AllPieces(t)[..k]);
  }
}
