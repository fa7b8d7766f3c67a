/** The parse of the patch encoder: literals and verified matches, one position of lookahead, recent distances kept
    as the decoder keeps them. */
module LzxParsing {
  import opened RangeCoding
  import opened Rift
  import opened MatchCoding
  import opened CopyWindow
  import opened OffsetTable
  import opened LzxParse
  import opened LzxDecoding
  import opened LzxFinder

  predicate StepWritable(s: Step) {
    s.Copy? ==> Writable(s.raw, s.length)
  }

  predicate AllWritable(steps: seq<Step>) {
    forall i :: 0 <= i < |steps| ==> StepWritable(steps[i])
  }

  /** The steps so far give the data up to `pos` and leave the decoder with these recent distances. */
  ghost predicate Reached(t: Table, reference: seq<Byte>, data: seq<Byte>, steps: seq<Step>, pos: nat, recent: Recent) {
    && |data| < SPAN64 / 2 && reference <= data && pos <= |data| && AllWritable(steps)
    && exists s :: PlayedSoFar(t, reference, steps, s) && |s.cells| == pos && s.recent == recent
                   && BytesOf(s.cells) == data[..pos]
  }

  lemma {:induction false} ReachedStart(t: Table, reference: seq<Byte>, data: seq<Byte>)
    requires |t| > 0 && t[0].source == 0 && |data| < SPAN64 / 2 && reference <= data
    ensures Reached(t, reference, data, [], |reference|, NO_RECENT)
  {
    hide ReferenceCells;
    TakenNone(t, reference);
  }

  lemma {:induction false} ReachedLiteral(t: Table, reference: seq<Byte>, data: seq<Byte>, steps: seq<Step>, pos: nat,
                                          recent: Recent)
    requires Reached(t, reference, data, steps, pos, recent) && pos < |data|
    ensures Reached(t, reference, data, steps + [Literal(data[pos])], pos + 1, recent)
  {
    hide PlayedSoFar;
    var s :| PlayedSoFar(t, reference, steps, s) && |s.cells| == pos && s.recent == recent
             && BytesOf(s.cells) == data[..pos];
    TableThere(t, reference, steps, s);
    var next := Played(s.cells + [Cell(data[pos], -1)], recent);
    TakenOne(t, reference, steps, s, Literal(data[pos]), next);
    assert BytesOf(next.cells) == data[..pos + 1];
  }

  lemma {:induction false} ReachedMatch(t: Table, reference: seq<Byte>, data: seq<Byte>, steps: seq<Step>, pos: nat,
                                        recent: Recent, m: Match)
    requires Reached(t, reference, data, steps, pos, recent)
    requires |t| > 0 && t[0].source == 0 && Verified(t, data, pos, recent, m)
    ensures pos + m.length <= |data| && m.length > 0 && m.distance <= pos
    ensures Reached(t, reference, data, steps + [Copy(m.raw, m.length)], pos + m.length, Touch(recent, m.distance))
  {
    hide PlayedSoFar, PlayOne, BytesOf, Touch, Resolves, FitsTable, NextBreak;
    var s :| PlayedSoFar(t, reference, steps, s) && |s.cells| == pos && s.recent == recent
             && BytesOf(s.cells) == data[..pos];
    VerifiedPlays(t, data, s, m);
    var step := Copy(m.raw, m.length);
    var next := PlayOne(t, s, step).value;
    TakenOne(t, reference, steps, s, step, next);
    assert StepWritable(step);
  }

  lemma {:induction false} TableThere(t: Table, reference: seq<Byte>, steps: seq<Step>, s: Played)
    requires PlayedSoFar(t, reference, steps, s)
    ensures |t| > 0 && t[0].source == 0
  {
  }

  lemma {:induction false} ReachedEnd(t: Table, reference: seq<Byte>, data: seq<Byte>, steps: seq<Step>, recent: Recent)
    requires Reached(t, reference, data, steps, |data|, recent)
    ensures AllWritable(steps) && LeadsTo(t, Start(reference), steps, data)
  {
    hide Play;
    var s :| PlayedSoFar(t, reference, steps, s) && |s.cells| == |data| && s.recent == recent
             && BytesOf(s.cells) == data[..|data|];
    assert data[..|data|] == data;
  }

  lemma {:induction false} BelowMore(f: Finder, a: nat, b: nat)
    requires f.Below(a) && a <= b
    ensures f.Below(b)
  {
  }

  /** Index the positions that a match covers. */
  method InsertCovered(f: Finder, from: nat, to: nat)
    requires f.Below(from) && from <= to <= |f.combined|
    modifies f.table, f.chain
    ensures f.Below(to)
  {
    hide Finder.Below;
    for p := from to to
      invariant f.Below(p)
    {
      if p + 2 < |f.combined| {
        f.Insert(p);
      } else {
        BelowMore(f, p, p + 1);
      }
    }
  }

  /** A match is taken if the one a byte later is not longer; else a literal goes out. */
  method FindParse(reference: seq<Byte>, target: seq<Byte>, t: Table) returns (steps: seq<Step>)
    requires |t| > 0 && t[0].source == 0 && |reference| + |target| <= MAX_COMBINED
    ensures AllWritable(steps) && LeadsTo(t, Start(reference), steps, reference + target)
  {
    hide Finder.Below, Reached, Verified, LeadsTo, AllWritable, Touch;
    ghost var data := reference + target;
    var f := new Finder(reference, target);
    steps := [];
    var pos, recent := |reference|, NO_RECENT;
    ReachedStart(t, reference, data);
    while pos < |reference| + |target|
      invariant |reference| <= pos <= |reference| + |target| && fresh(f.table) && fresh(f.chain)
      invariant f.Below(pos) && Reached(t, reference, data, steps, pos, recent)
      decreases |reference| + |target| - pos
    {
      var m := f.BestMatch(t, pos, recent);
      InsertCovered(f, pos, pos + 1);
      var take := false;
      if m.length >= 2 {
        var later := f.BestMatch(t, pos + 1, recent);
        take := later.length <= m.length;
      }
      if take {
        ReachedMatch(t, reference, data, steps, pos, recent, m);
        InsertCovered(f, pos + 1, pos + m.length);
        steps := steps + [Copy(m.raw, m.length)];
        recent, pos := Touch(recent, m.distance), pos + m.length;
      } else {
        ReachedLiteral(t, reference, data, steps, pos, recent);
        steps, pos := steps + [Literal(f.combined[pos])], pos + 1;
      }
    }
    ReachedEnd(t, reference, data, steps, recent);
  }
}
