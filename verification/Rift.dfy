/** Rift tables: piecewise offset maps on 64-bit positions, their composition, sum and normal form.
    All arithmetic wraps at 64 bits. */
module Rift {

  const MIN64 := -0x8000_0000_0000_0000
  const MAX64 := 0x7FFF_FFFF_FFFF_FFFF
  const SPAN64 := 0x1_0000_0000_0000_0000

  type I64 = x: int | MIN64 <= x <= MAX64 witness 0

  function Wrap(x: int): (r: I64)
    ensures (x - r) % SPAN64 == 0
    ensures MIN64 <= x <= MAX64 ==> r == x
  {
    (x - MIN64) % SPAN64 + MIN64
  }

  lemma {:induction false} WrapUnique(x: int, r: I64)
    requires (x - r) % SPAN64 == 0
    ensures Wrap(x) == r
  {
  }

  lemma {:induction false} WrapAdd(x: int, y: int)
    ensures Wrap(Wrap(x) + y) == Wrap(x + y)
  {
  }

  /** How far `to` lies ahead of `from`, going around at the end. */
  function Distance(from: I64, to: I64): nat {
    (to - from) % SPAN64
  }

  datatype Entry = Entry(source: I64, target: I64)

  type Table = seq<Entry>

  function Delta(e: Entry): I64 {
    Wrap(e.target - e.source)
  }

  predicate Sorted(t: Table) {
    forall i, j :: 0 <= i < j < |t| ==> t[i].source <= t[j].source
  }

  /** The rightmost entry whose source is at most `pos`. */
  function Find(t: Table, pos: I64): (i: nat)
    requires |t| > 0 && t[0].source <= pos
    ensures i < |t| && t[i].source <= pos
    ensures i + 1 < |t| ==> pos < t[i + 1].source
  {
    if t[|t| - 1].source <= pos then |t| - 1 else Find(t[..|t| - 1], pos)
  }

  datatype Segment = Segment(delta: I64, last: I64)

  /** The offset at `pos` and the last position of its segment. Positions below the first entry belong
      to the last one. */
  function GetRift(t: Table, pos: I64): (s: Segment)
    requires Sorted(t)
    ensures s.last >= pos
  {
    if |t| == 0 then Segment(0, MAX64)
    else if pos < t[0].source then Segment(Delta(t[|t| - 1]), t[0].source - 1)
    else
      var i := Find(t, pos);
      Segment(Delta(t[i]), if i + 1 < |t| then t[i + 1].source - 1 else MAX64)
  }

  function Offset(t: Table, pos: I64): I64
    requires Sorted(t)
  {
    GetRift(t, pos).delta
  }

  function Image(t: Table, pos: I64): I64
    requires Sorted(t)
  {
    Wrap(pos + Offset(t, pos))
  }

  lemma {:induction false} FindIs(t: Table, pos: I64, i: nat)
    requires Sorted(t) && i < |t| && t[i].source <= pos && (i + 1 < |t| ==> pos < t[i + 1].source)
    ensures t[0].source <= pos && Find(t, pos) == i
  {
    if i < |t| - 1 {
      FindIs(t[..|t| - 1], pos, i);
    }
  }

  /** From the source of an entry on, up to the next one, positions keep their distance to its target. */
  lemma {:induction false} ImageFromEntry(t: Table, k: nat, pos: I64)
    requires Sorted(t) && k < |t| && t[k].source <= pos && (k + 1 < |t| ==> pos < t[k + 1].source)
    ensures Image(t, pos) == Wrap(t[k].target + (pos - t[k].source))
    ensures pos == t[k].source ==> Image(t, pos) == t[k].target
  {
    hide Wrap;
    FindIs(t, pos, k);
    WrapAdd(t[k].target - t[k].source, pos);
  }

  /** Below the first entry the offset of the last one holds; an empty table moves nothing. */
  lemma {:induction false} ImageBelow(t: Table, pos: I64)
    requires Sorted(t) && (|t| > 0 ==> pos < t[0].source)
    ensures Image(t, pos) == if |t| == 0 then pos else Wrap(t[|t| - 1].target + (pos - t[|t| - 1].source))
  {
    if |t| > 0 {
      LastOffset(t[|t| - 1], pos);
    }
  }

  lemma {:induction false} LastOffset(e: Entry, pos: I64)
    ensures Wrap(pos + Delta(e)) == Wrap(e.target + (pos - e.source))
  {
    hide Wrap;
    WrapAdd(e.target - e.source, pos);
  }

  /** One offset holds from `pos` to the end of its segment. */
  lemma {:induction false} SegmentConstant(t: Table, pos: I64, y: I64)
    requires Sorted(t) && pos <= y <= GetRift(t, pos).last
    ensures Offset(t, y) == Offset(t, pos)
  {
    if |t| > 0 && t[0].source <= pos {
      FindIs(t, y, Find(t, pos));
    }
  }

  // --- Building a table from left to right ---

  /** `out` starts at the lowest position and sends every position up to `end` where `f` sends it. */
  ghost predicate Agrees(out: Table, f: I64 -> I64, end: int) {
    && Sorted(out) && (|out| == 0 <==> end < MIN64)
    && (|out| > 0 ==> out[0].source == MIN64 && out[|out| - 1].source <= end)
    && forall x: I64 :: x <= end ==> Image(out, x) == f(x)
  }

  /** One more entry fixes the map from its source on. */
  lemma {:induction false} Extend(out: Table, e: Entry, x: I64)
    requires Sorted(out) && (|out| > 0 ==> out[|out| - 1].source < e.source)
    requires if |out| > 0 then out[0].source == MIN64 else e.source == MIN64
    ensures Sorted(out + [e]) && (out + [e])[0].source == MIN64
    ensures Offset(out + [e], x) == if x < e.source then Offset(out, x) else Delta(e)
  {
    var r := out + [e];
    if x < e.source {
      assert r[..|out|] == out;
    }
  }

  lemma {:induction false} AgreesNext(out: Table, f: I64 -> I64, e: Entry, end: I64)
    requires Agrees(out, f, e.source - 1) && e.source <= end
    requires forall x: I64 :: e.source <= x <= end ==> f(x) == Wrap(e.target + (x - e.source))
    ensures Agrees(out + [e], f, end)
  {
    hide GetRift, Offset, Wrap;
    var r := out + [e];
    Extend(out, e, MIN64);
    forall x: I64 | x <= end ensures Image(r, x) == f(x) {
      Extend(out, e, x);
      if x >= e.source {
        WrapAdd(e.target - e.source, x);
      }
    }
  }

  // --- Composition ---

  /** Inside one segment of the outer map, a run of positions keeps its distance. */
  lemma {:induction false} StaysBelow(img: I64, last: I64, k: nat)
    requires img <= last && k <= Distance(img, last)
    ensures img + k <= last && Wrap(img + k) == img + k
  {
  }

  lemma {:induction false} RunImage(b: Table, img: I64, k: nat)
    requires Sorted(b) && k <= Distance(img, GetRift(b, img).last)
    ensures Image(b, Wrap(img + k)) == Wrap(Wrap(Offset(b, img) + img) + k)
  {
    hide GetRift, Wrap;
    StaysBelow(img, GetRift(b, img).last, k);
    SegmentConstant(b, img, img + k);
    WrapAdd(Offset(b, img) + img, k);
  }

  /** Emit the pieces of a segment from `start` to `end`, whose image begins at `img0`: one entry, and
      another one wherever the image reaches the end of a segment of `b`. */
  method ComposeSegment(out: Table, b: Table, start: I64, end: I64, img0: I64, ghost f: I64 -> I64)
    returns (r: Table)
    requires Sorted(b) && start <= end && Agrees(out, f, start - 1)
    requires forall x: I64 :: start <= x <= end ==> f(x) == Image(b, Wrap(img0 + (x - start)))
    ensures Agrees(r, f, end)
  {
    hide Image, GetRift, Wrap, Agrees;
    r := out;
    var pos, img := start, img0;
    var seg := GetRift(b, img);
    ghost var done := PieceEnd(pos, end, img, seg);
    r := r + [Entry(pos, Wrap(seg.delta + img))];
    ComposePiece(out, b, pos, end, img, f, start, img0);
    while Distance(img, seg.last) < Distance(pos, end)
      invariant start <= pos <= end && img == Wrap(img0 + (pos - start)) && seg == GetRift(b, img)
      invariant done == PieceEnd(pos, end, img, seg) && Agrees(r, f, done)
      decreases end - pos
    {
      NextPiece(pos, end, img, seg, start, img0);
      pos := Wrap(pos + 1 + Distance(img, seg.last));
      img := Wrap(seg.last + 1);
      seg := GetRift(b, img);
      done := PieceEnd(pos, end, img, seg);
      ComposePiece(r, b, pos, end, img, f, start, img0);
      r := r + [Entry(pos, Wrap(seg.delta + img))];
    }
  }

  /** The last position of the piece at `pos`: where the segment of `b` or the segment itself ends. */
  function PieceEnd(pos: I64, end: I64, img: I64, seg: Segment): (r: I64)
    requires pos <= end
    ensures pos <= r <= end
  {
    if Distance(img, seg.last) < Distance(pos, end) then pos + Distance(img, seg.last) else end
  }

  lemma {:induction false} PieceWithin(pos: I64, end: I64, img: I64, seg: Segment, x: I64)
    requires pos <= end && pos <= x <= PieceEnd(pos, end, img, seg)
    ensures x - pos <= Distance(img, seg.last)
  {
  }

  lemma {:induction false} NextPiece(pos: I64, end: I64, img: I64, seg: Segment, start: I64, img0: I64)
    requires start <= pos <= end && img == Wrap(img0 + (pos - start)) && seg.last >= img
    requires Distance(img, seg.last) < Distance(pos, end)
    ensures var next := Wrap(pos + 1 + Distance(img, seg.last));
            && next == PieceEnd(pos, end, img, seg) + 1 <= end
            && Wrap(seg.last + 1) == Wrap(img0 + (next - start))
  {
    WrapAdd(img0 + (pos - start), 1 + Distance(img, seg.last));
  }

  lemma {:induction false} ComposePiece(out: Table, b: Table, pos: I64, end: I64, img: I64, f: I64 -> I64,
                                        start: I64, img0: I64)
    requires Sorted(b) && start <= pos <= end && img == Wrap(img0 + (pos - start)) && Agrees(out, f, pos - 1)
    requires forall x: I64 :: start <= x <= end ==> f(x) == Image(b, Wrap(img0 + (x - start)))
    ensures var seg := GetRift(b, img);
            Agrees(out + [Entry(pos, Wrap(seg.delta + img))], f, PieceEnd(pos, end, img, seg))
  {
    hide Agrees, Image, Wrap, Distance, PieceEnd;
    var seg := GetRift(b, img);
    var e := Entry(pos, Wrap(seg.delta + img));
    forall x: I64 | pos <= x <= PieceEnd(pos, end, img, seg) ensures f(x) == Wrap(e.target + (x - pos)) {
      PieceWithin(pos, end, img, seg, x);
      WrapAdd(img0 + (pos - start), x - pos);
      RunImage(b, img, x - pos);
    }
    AgreesNext(out, f, e, PieceEnd(pos, end, img, seg));
  }

  /** Stable sort by source. */
  function InsertEntry(t: Table, e: Entry): (r: Table)
    ensures multiset(r) == multiset(t) + multiset{e}
  {
    if |t| == 0 || t[|t| - 1].source <= e.source then t + [e]
    else
      assert t == t[..|t| - 1] + [t[|t| - 1]];
      InsertEntry(t[..|t| - 1], e) + [t[|t| - 1]]
  }

  function SortBySource(t: Table): (r: Table)
    ensures multiset(r) == multiset(t)
  {
    if |t| == 0 then []
    else
      assert t == t[..|t| - 1] + [t[|t| - 1]];
      InsertEntry(SortBySource(t[..|t| - 1]), t[|t| - 1])
  }

  lemma {:induction false} InsertSorted(t: Table, e: Entry)
    requires Sorted(t)
    ensures Sorted(InsertEntry(t, e)) && |InsertEntry(t, e)| == |t| + 1
    ensures |t| > 0 && t[|t| - 1].source > e.source ==> InsertEntry(t, e)[|t|] == t[|t| - 1]
    ensures |t| == 0 || t[|t| - 1].source <= e.source ==> InsertEntry(t, e)[|t|] == e
  {
    if |t| > 0 && t[|t| - 1].source > e.source {
      InsertSorted(t[..|t| - 1], e);
    }
  }

  lemma {:induction false} SortSorts(t: Table)
    ensures Sorted(SortBySource(t)) && |SortBySource(t)| == |t|
  {
    if |t| > 0 {
      SortSorts(t[..|t| - 1]);
      InsertSorted(SortBySource(t[..|t| - 1]), t[|t| - 1]);
    }
  }

  lemma {:induction false} InsertLargest(t: Table, e: Entry)
    requires |t| == 0 || t[|t| - 1].source <= e.source
    ensures InsertEntry(t, e) == t + [e]
  {
  }

  lemma {:induction false} SortKeepsSorted(t: Table)
    requires Sorted(t)
    ensures SortBySource(t) == t
  {
    hide InsertEntry;
    if |t| > 0 {
      SortKeepsSorted(t[..|t| - 1]);
      InsertLargest(t[..|t| - 1], t[|t| - 1]);
    }
  }

  lemma {:induction false} SegmentImage(a: Table, i: nat, x: I64)
    requires Sorted(a) && i < |a| && a[i].source <= x && (i + 1 < |a| ==> x < a[i + 1].source)
    ensures Image(a, x) == Wrap(a[i].target + (x - a[i].source))
  {
    FindIs(a, x, i);
    WrapAdd(a[i].target - a[i].source, x);
  }

  lemma {:induction false} WrapRegionImage(a: Table, x: I64)
    requires Sorted(a) && |a| > 0 && x < a[0].source
    ensures Image(a, x) == Wrap(Wrap(Delta(a[|a| - 1]) + MIN64) + (x - MIN64))
  {
    WrapAdd(Delta(a[|a| - 1]) + MIN64, x - MIN64);
  }

  lemma {:induction false} NothingYet(f: I64 -> I64)
    ensures Agrees([], f, MIN64 - 1)
  {
  }

  /** The product of two maps: first `a`, then `b`. */
  method Multiply(a: Table, b: Table) returns (r: Table)
    requires Sorted(a) && Sorted(b)
    ensures Sorted(r) && forall x: I64 :: Image(r, x) == Image(b, Image(a, x))
  {
    hide Image, GetRift, Wrap, Delta, Agrees;
    if |a| == 0 {
      EmptyIsIdentity();
      return b;
    }
    if |b| == 0 {
      EmptyIsIdentity();
      return a;
    }
    ghost var f: I64 -> I64 := x => Image(b, Image(a, x));
    var out := ComposeWrapRegion(a, b, f);
    var i := 0;
    while i < |a|
      invariant i <= |a| && Agrees(out, f, if i < |a| then a[i].source - 1 else MAX64)
    {
      if i + 1 == |a| || a[i + 1].source != a[i].source {
        var end := if i + 1 < |a| then a[i + 1].source - 1 else MAX64;
        forall x: I64 | a[i].source <= x <= end
          ensures f(x) == Image(b, Wrap(a[i].target + (x - a[i].source))) {
          SegmentImage(a, i, x);
        }
        out := ComposeSegment(out, b, a[i].source, end, a[i].target, f);
      }
      i := i + 1;
    }
    AgreesEverywhere(out, f);
    SortKeepsSorted(out);
    r := SortBySource(out);
  }

  /** The region below the first source belongs to the last segment and is emitted first. */
  method ComposeWrapRegion(a: Table, b: Table, ghost f: I64 -> I64) returns (out: Table)
    requires Sorted(a) && Sorted(b) && |a| > 0 && forall x: I64 :: f(x) == Image(b, Image(a, x))
    ensures Agrees(out, f, a[0].source - 1)
  {
    hide Image, GetRift, Wrap, Delta, Agrees;
    out := [];
    NothingYet(f);
    if MIN64 < a[0].source {
      var img := Wrap(Delta(a[|a| - 1]) + MIN64);
      forall x: I64 | MIN64 <= x <= a[0].source - 1 ensures f(x) == Image(b, Wrap(img + (x - MIN64))) {
        WrapRegionImage(a, x);
      }
      out := ComposeSegment(out, b, MIN64, a[0].source - 1, img, f);
    }
  }

  lemma {:induction false} EmptyIsIdentity()
    ensures Sorted([]) && forall x: I64 :: Image([], x) == x
  {
  }

  lemma {:induction false} AgreesEverywhere(out: Table, f: I64 -> I64)
    requires Agrees(out, f, MAX64)
    ensures Sorted(out) && forall x: I64 :: Image(out, x) == f(x)
  {
  }
}
