/** The rift table as the patch codec uses it: sorted, ended by an entry for the reference size, and looked up by
    position for the offset and the next breakpoint. */
module OffsetTable {
  import opened Rift
  import opened CopyWindow
  import opened CanonicalCode

  // --- Offsets by position ---

  /** One more segment in front, from position 0, with the last offset. */
  function OffsetEntries(t: Table): (r: Table)
    ensures |r| > 0 && r[0].source == 0
  {
    if |t| == 0 then [Entry(0, 0)] else [Entry(0, Delta(t[|t| - 1]))] + t
  }

  /** The table of a patch for a reference of `n` bytes. */
  function PatchTable(t: Table, n: I64): (r: Table)
    ensures |r| > 0 && r[0].source == 0
  {
    OffsetEntries(SortBySource(t + [Entry(n, 0)]))
  }

  function OffsetAt(t: Table, pos: I64): I64
    requires |t| > 0 && t[0].source <= pos
  {
    Delta(t[Find(t, pos)])
  }

  /** The first position after the segment of `pos`. */
  function NextBreak(t: Table, pos: I64): (b: I64)
    requires |t| > 0 && t[0].source <= pos
    ensures b >= pos && (b == pos ==> b == MAX64)
  {
    var i := Find(t, pos);
    if i + 1 < |t| then t[i + 1].source else MAX64
  }

  /** Up to the next breakpoint the offset stays the same, whatever the order of the entries. */
  lemma {:induction false} SegmentOffset(t: Table, pos: I64, y: I64)
    requires |t| > 0 && t[0].source <= pos <= y && (y < NextBreak(t, pos) || y == pos)
    requires Sorted(t)
    ensures OffsetAt(t, y) == OffsetAt(t, pos)
  {
    FindIs(t, y, Find(t, pos));
  }

  /** On positions from 0 on, a table without negative sources has the offsets of the plain rift lookup. */
  lemma {:induction false} OffsetsAgree(t: Table, pos: I64)
    requires Sorted(t) && |t| > 0 && t[0].source >= 0 && pos >= 0
    ensures OffsetAt(OffsetEntries(t), pos) == Offset(t, pos)
  {
    var r := OffsetEntries(t);
    if pos < t[0].source {
      FindIs(r, pos, 0);
    } else {
      FindIs(r, pos, Find(t, pos) + 1);
    }
  }

  lemma {:induction false} PatchTableSorted(t: Table, n: I64)
    requires n >= 0 && forall e :: e in t ==> e.source >= 0
    ensures Sorted(PatchTable(t, n))
  {
    var all := t + [Entry(n, 0)];
    var s := SortBySource(all);
    SortSorts(all);
    forall e | e in s ensures e.source >= 0 {
      assert e in multiset(s);
      assert e in all;
    }
  }

  // --- Copies that follow the map ---

  /** How far back a copy from the mapped position goes. */
  function MappedDistance(t: Table, pos: I64): I64
    requires |t| > 0 && t[0].source <= pos
  {
    var offset: int := OffsetAt(t, pos);
    Wrap(-offset)
  }

  /** Copy `n` elements from their mapped positions, changing the offset at every breakpoint on the way; fails if
      a piece starts outside. */
  function MappedCopy<T>(t: Table, v: seq<T>, n: nat): (r: Option<seq<T>>)
    requires |t| > 0 && t[0].source == 0 && |v| + n < SPAN64 / 2
    ensures r.Some? ==> |r.value| == |v| + n && v <= r.value
    decreases n
  {
    if n == 0 then Some(v)
    else
      var piece := PieceLength(t, |v|, n);
      var src := SourceOf(|v|, MappedDistance(t, |v|));
      if src < |v| then MappedCopy(t, CopiedFrom(v, src, piece), n - piece) else None
  }

  function PieceLength(t: Table, pos: nat, n: nat): (m: nat)
    requires |t| > 0 && t[0].source == 0 && 0 < n && pos + n < SPAN64 / 2
    ensures 1 <= m <= n
  {
    var avail := NextBreak(t, pos) - pos;
    if avail < 1 then 1 else if avail < n then avail else n
  }

  /** Inside one segment it is one plain copy. */
  lemma {:induction false} OnePiece<T>(t: Table, v: seq<T>, n: nat)
    requires |t| > 0 && t[0].source == 0 && 0 < n && |v| + n < SPAN64 / 2 && |v| + n <= NextBreak(t, |v|)
    requires SourceOf(|v|, MappedDistance(t, |v|)) < |v|
    ensures MappedCopy(t, v, n) == Some(CopiedFrom(v, SourceOf(|v|, MappedDistance(t, |v|)), n))
  {
    assert PieceLength(t, |v|, n) == n;
  }

  /** Each position of a mapped copy holds what is at the mapped position, segment by segment. */
  lemma {:induction false} MappedAt<T>(t: Table, v: seq<T>, n: nat, k: nat)
    requires |t| > 0 && t[0].source == 0 && |v| + n < SPAN64 / 2 && k < n && Sorted(t)
    requires MappedCopy(t, v, n).Some?
    ensures var r, p := MappedCopy(t, v, n).value, |v| + k;
            var s := SourceOf(p, MappedDistance(t, p));
            s < p && r[p] == r[s]
    decreases n
  {
    hide CopiedFrom, Find, NextBreak, MappedDistance;
    var piece := PieceLength(t, |v|, n);
    var src := SourceOf(|v|, MappedDistance(t, |v|));
    var w := CopiedFrom(v, src, piece);
    if k < piece {
      CopiedAt(v, src, piece, k);
      PieceOffset(t, |v|, n, |v| + k);
      SourceMoves(|v|, k, MappedDistance(t, |v|));
      assert w <= MappedCopy(t, v, n).value;
    } else {
      MappedAt(t, w, n - piece, k - piece);
    }
  }

  lemma {:induction false} PieceOffset(t: Table, pos: nat, n: nat, y: nat)
    requires |t| > 0 && t[0].source == 0 && 0 < n && pos + n < SPAN64 / 2 && Sorted(t)
    requires pos <= y < pos + PieceLength(t, pos, n)
    ensures MappedDistance(t, y) == MappedDistance(t, pos)
  {
    SegmentOffset(t, pos, y);
  }

  lemma {:induction false} SourceMoves(pos: nat, k: nat, distance: I64)
    requires SourceOf(pos, distance) < pos && pos + k < SPAN64 / 2
    ensures SourceOf(pos + k, distance) == SourceOf(pos, distance) + k
  {
  }
}
