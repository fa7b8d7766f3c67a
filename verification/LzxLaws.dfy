/** What the steps of a patch do to the window, in terms of bytes, distances and table entries. */
module LzxLaws {
  import opened Rift
  import opened CanonicalCode
  import opened MatchCoding
  import opened CopyWindow
  import opened OffsetTable
  import opened LzxParse

  // --- Distances in numbers ---

  /** What the table adds at a position: the shift of the last entry at or before it. */
  predicate Shift(t: Table, pos: int, shift: int) {
    exists k: nat :: k < |t| && Holds(t, k, pos) && shift == t[k].target - t[k].source
  }

  predicate Holds(t: Table, k: nat, pos: int)
    requires k < |t|
  {
    t[k].source <= pos && (k + 1 < |t| ==> pos < t[k + 1].source)
  }

  lemma {:induction false} OffsetIsShift(t: Table, pos: I64, shift: int)
    requires Sorted(t) && |t| > 0 && t[0].source <= pos && Shift(t, pos, shift)
    ensures OffsetAt(t, pos) == Wrap(shift)
  {
    hide Find;
    var k: nat :| k < |t| && Holds(t, k, pos) && shift == t[k].target - t[k].source;
    FindIs(t, pos, k);
  }

  /** A copy that succeeds goes back by at least 1 and at most to the start of the window. */
  lemma {:induction false} Back(n: nat, d: I64)
    requires n < SPAN64 / 2
    ensures SourceOf(n, d) < n <==> 1 <= d <= n
    ensures 1 <= d <= n ==> SourceOf(n, d) == n - d
  {
  }

  /** How far back a copy goes: as the offset itself says, as a recent distance, or against the place that the table
      maps the position to. */
  lemma {:induction false} DistanceInNumbers(t: Table, pos: I64, l: Recent, raw: nat, shift: int)
    requires Sorted(t) && |t| > 0 && t[0].source <= pos && raw < 0x1_0000_0000
    requires Shift(t, pos, shift) && -SPAN64 / 4 < shift < SPAN64 / 4
    ensures raw >= 0x54004 ==> DistanceOf(t, pos, l, raw) == raw - 0x54003
    ensures 0x54001 <= raw <= 0x54003 ==> DistanceOf(t, pos, l, raw) == RecentList(l)[raw - 0x54001]
    ensures raw == 0x54000 ==> DistanceOf(t, pos, l, raw) == -shift
    ensures raw < 0x54000 ==> DistanceOf(t, pos, l, raw) == raw - 0x2A000 - shift
  {
    OffsetIsShift(t, pos, shift);
  }

  // --- The bytes of a step ---

  /** A literal appends its byte without an origin. A copy succeeds exactly if its distance stays inside the window,
      and every new cell equals the one that far before it. */
  lemma {:induction false} StepCells(t: Table, s: Played, step: Step)
    requires |t| > 0 && t[0].source == 0 && 0 < LengthOf(step) && |s.cells| + LengthOf(step) < SPAN64 / 2
    requires step.Copy? ==> step.raw != SOURCE_COPY
    ensures step.Literal? ==> PlayOne(t, s, step) == Some(Played(s.cells + [Cell(step.byte, -1)], s.recent))
    ensures step.Copy? ==>
              var n, d := |s.cells|, DistanceOf(t, |s.cells|, s.recent, step.raw);
              && (PlayOne(t, s, step).Some? <==> 1 <= d <= n)
              && (1 <= d <= n ==>
                    var r := PlayOne(t, s, step).value;
                    && |r.cells| == n + step.length && s.cells <= r.cells && r.recent == Touch(s.recent, d)
                    && forall i: nat :: n <= i < n + step.length ==> r.cells[i] == r.cells[i - d])
  {
    hide CopiedFrom, DistanceOf, SourceOf;
    if step.Copy? {
      var n, d := |s.cells|, DistanceOf(t, |s.cells|, s.recent, step.raw);
      Back(n, d);
      if 1 <= d <= n {
        var r := CopiedFrom(s.cells, n - d, step.length);
        forall i: nat | n <= i < n + step.length ensures r[i] == r[i - d] {
          CopiedAt(s.cells, n - d, step.length, i - n);
        }
      }
    }
  }

  /** A copy along the map: every new cell equals the one at its own mapped position. */
  lemma {:induction false} MappedCells(t: Table, s: Played, length: nat, i: nat, shift: int)
    requires Sorted(t) && |t| > 0 && t[0].source == 0 && 0 < length && |s.cells| + length < SPAN64 / 2
    requires PlayOne(t, s, Copy(SOURCE_COPY, length)).Some? && |s.cells| <= i < |s.cells| + length
    requires Shift(t, i, shift) && -SPAN64 / 4 < shift < SPAN64 / 4
    ensures var r := PlayOne(t, s, Copy(SOURCE_COPY, length)).value;
            0 <= i + shift < i && r.cells[i] == r.cells[i + shift]
  {
    hide MappedCopy, DistanceOf, Touch;
    MappedAt(t, s.cells, length, i - |s.cells|);
    OffsetIsShift(t, i, shift);
    Back(i, MappedDistance(t, i));
  }

  /** Without any map a copy along it takes the byte of the reference that has the same place as the new byte has in the
      output: everywhere the shift is the length of the reference. */
  lemma {:induction false} NoMapShift(n: I64, pos: I64)
    requires 0 < n < SPAN64 / 4 && pos >= 0
    ensures Sorted(PatchTable([], n)) && Shift(PatchTable([], n), pos, -n)
  {
    var t := PatchTable([], n);
    OneEntry(Entry(n, 0));
    assert [] + [Entry(n, 0)] == [Entry(n, 0)];
    assert t == [Entry(0, Delta(Entry(n, 0))), Entry(n, 0)];
    if pos < n {
      assert Holds(t, 0, pos);
    } else {
      assert Holds(t, 1, pos);
    }
  }

  lemma {:induction false} OneEntry(e: Entry)
    ensures SortBySource([e]) == [e]
  {
  }

  // --- Segments ---

  /** With ascending bounds the segment at a position is the last one that starts at or before it. */
  lemma {:induction false} SegmentAt(bounds: seq<nat>, pos: nat, s: nat)
    requires s < |bounds| && (forall i: nat, j: nat :: i < j < |bounds| ==> bounds[i] < bounds[j])
    requires (s > 0 ==> bounds[s] <= pos) && (s + 1 < |bounds| ==> pos < bounds[s + 1])
    ensures SegmentFrom(bounds, 0, pos) == s
  {
    SegmentReached(bounds, 0, pos, s);
  }

  lemma {:induction false} SegmentReached(bounds: seq<nat>, seg: nat, pos: nat, s: nat)
    requires seg <= s < |bounds| && (forall i: nat, j: nat :: i < j < |bounds| ==> bounds[i] < bounds[j])
    requires (s > 0 ==> bounds[s] <= pos) && (s + 1 < |bounds| ==> pos < bounds[s + 1])
    ensures SegmentFrom(bounds, seg, pos) == s
    decreases s - seg
  {
    if seg < s {
      assert bounds[seg + 1] <= bounds[s];
      SegmentReached(bounds, seg + 1, pos, s);
    }
  }
}
