/** The decoding loop of the patch codec: bytes and copies are read and carried out until the target is full. */
module LzxDecoding {
  import opened BitStrings
  import opened RangeCoding
  import opened Rift
  import opened CanonicalCode
  import opened BitReading
  import opened MatchCoding
  import opened MatchCodec
  import opened CopyWindow
  import opened OffsetTable
  import opened LzxParse

  function FramingOf(tables: seq<SegmentTables>, bounds: seq<nat>): (f: Framing)
    ensures |f.codes| == |tables| && forall i :: 0 <= i < |tables| ==> f.codes[i] == CodesOf(tables[i])
    ensures f.bounds == bounds
  {
    Framing(seq(|tables|, i requires 0 <= i < |tables| => CodesOf(tables[i])), bounds)
  }

  ghost predicate AllUsable(tables: seq<SegmentTables>) {
    forall i :: 0 <= i < |tables| ==> UsableTables(tables[i])
  }

  /** Played from here, the steps end in `target`. */
  predicate LeadsTo(t: Table, s: Played, steps: seq<Step>, target: seq<Byte>) {
    && |t| > 0 && t[0].source == 0 && NonEmpty(steps) && |s.cells| + TotalLength(steps) < SPAN64 / 2
    && match Play(t, s, steps)
       case None => false
       case Some(p) => BytesOf(p.cells) == target
  }

  lemma {:induction false} LeadsToStep(t: Table, s: Played, steps: seq<Step>, target: seq<Byte>)
    requires LeadsTo(t, s, steps, target) && |steps| > 0
    ensures |t| > 0 && t[0].source == 0
    ensures |s.cells| + LengthOf(steps[0]) <= |target| < SPAN64 / 2 && 0 < LengthOf(steps[0])
    ensures var one := PlayOne(t, s, steps[0]); one.Some? && LeadsTo(t, one.value, steps[1..], target)
  {
    hide PlayOne, LengthOf;
  }

  lemma {:induction false} LeadsToEnd(t: Table, s: Played, steps: seq<Step>, target: seq<Byte>)
    requires LeadsTo(t, s, steps, target)
    ensures |s.cells| <= |target|
    ensures |s.cells| == |target| <==> steps == []
    ensures steps == [] ==> BytesOf(s.cells) == target
  {
    hide BytesOf, LengthOf;
    if |steps| > 0 {
      LeadsToStep(t, s, steps, target);
    }
  }

  /** The segment for `pos`, found by moving on while the next one has begun. */
  method NextSegment(bounds: seq<nat>, from: nat, pos: nat) returns (seg: nat)
    requires from < |bounds|
    ensures seg == SegmentFrom(bounds, from, pos)
  {
    seg := from;
    while seg + 1 < |bounds| && bounds[seg + 1] <= pos
      invariant seg < |bounds| && SegmentFrom(bounds, seg, pos) == SegmentFrom(bounds, from, pos)
      decreases |bounds| - seg
    {
      seg := seg + 1;
    }
  }

  /** A copy from the mapped position, taken up anew at every breakpoint inside it. */
  method CopyMapped(t: Table, w: Window, pos: nat, len: nat) returns (ok: bool)
    requires |t| > 0 && t[0].source == 0 && w.Valid() && pos == |w.reference| + |w.output|
    requires pos + len < SPAN64 / 2
    modifies w`output, w`copySrc
    ensures w.Valid()
    ensures ok <==> MappedCopy(t, old(w.Cells()), len).Some?
    ensures ok ==> w.Cells() == MappedCopy(t, old(w.Cells()), len).value
  {
    hide Window.Valid, Window.Cells, CopiedFrom, MappedDistance;
    w.InStep();
    ghost var all := MappedCopy(t, w.Cells(), len);
    var remaining, p := len, pos;
    while remaining > 0
      invariant w.Valid() && |w.output| == |w.copySrc|
      invariant p + remaining == pos + len && p == |w.reference| + |w.output|
      invariant MappedCopy(t, w.Cells(), remaining) == all
    {
      var chunk := PieceLength(t, p, remaining);
      var one := w.CopyOne(p, MappedDistance(t, p), chunk);
      if !one {
        return false;
      }
      w.InStep();
      p, remaining := p + chunk, remaining - chunk;
    }
    ok := true;
  }

  /** Carry out one step. */
  method Apply(t: Table, w: Window, recent: Recent, step: Step) returns (ok: bool, next: Recent)
    requires |t| > 0 && t[0].source == 0 && w.Valid() && |w.output| == |w.copySrc|
    requires 0 < LengthOf(step) && |w.reference| + |w.output| + LengthOf(step) < SPAN64 / 2
    modifies w`output, w`copySrc
    ensures w.Valid() && |w.output| == |w.copySrc|
    ensures ok <==> PlayOne(t, Played(old(w.Cells()), recent), step).Some?
    ensures ok ==> PlayOne(t, Played(old(w.Cells()), recent), step).value == Played(w.Cells(), next)
  {
    hide Window.Valid, Window.Cells, CopiedFrom, MappedDistance, MappedCopy, SourceOf, Touch;
    ok, next := true, recent;
    match step
    case Literal(b) =>
      w.PushByte(b);
      w.InStep();
    case Copy(raw, n) =>
      var pos := |w.reference| + |w.output|;
      var distance := DistanceOf(t, pos, recent, raw);
      next := Touch(recent, distance);
      if raw == SOURCE_COPY {
        ok := CopyMapped(t, w, pos, n);
      } else {
        ok := w.CopyOne(pos, distance, n);
      }
      w.InStep();
  }

  /** What has been decoded is what the steps taken so far play to. */
  predicate PlayedSoFar(t: Table, reference: seq<Byte>, taken: seq<Step>, s: Played) {
    && |t| > 0 && t[0].source == 0 && NonEmpty(taken) && |reference| + TotalLength(taken) < SPAN64 / 2
    && Play(t, Start(reference), taken) == Some(s)
  }

  lemma {:induction false} TakenOne(t: Table, reference: seq<Byte>, taken: seq<Step>, s: Played, step: Step, p: Played)
    requires PlayedSoFar(t, reference, taken, s) && LengthOf(step) > 0
    requires |s.cells| + LengthOf(step) < SPAN64 / 2 && PlayOne(t, s, step) == Some(p)
    ensures PlayedSoFar(t, reference, taken + [step], p)
  {
    hide PlayOne, LengthOf;
    PlayNext(t, Start(reference), taken, s, step);
  }

  lemma {:induction false} TakenNone(t: Table, reference: seq<Byte>)
    requires |t| > 0 && t[0].source == 0 && |reference| < SPAN64 / 2
    ensures PlayedSoFar(t, reference, [], Start(reference))
  {
  }

  /** The steps of `plan` are still to come, and lead to `whole`. */
  ghost predicate OnPlan(t: Table, f: Framing, seg: nat, s: Played, plan: seq<Step>, rest: seq<Bit>, tail: seq<Bit>,
                         whole: seq<Byte>) {
    Ahead(f, seg, plan, |s.cells|, rest, tail) && LeadsTo(t, s, plan, whole)
  }

  lemma {:induction false} PlanStep(t: Table, f: Framing, seg: nat, s: Played, plan: seq<Step>, rest: seq<Bit>,
                                    tail: seq<Bit>, whole: seq<Byte>)
    requires OnPlan(t, f, seg, s, plan, rest, tail, whole) && |s.cells| < |whole|
    ensures |plan| > 0 && ValidFraming(f) && seg < |f.bounds|
    ensures var g := SegmentFrom(f.bounds, seg, |s.cells|);
            var taken := TakeCopy(f.codes[g], rest);
            && FullCodes(f.codes[g]) && taken.Taken? && Announces(taken, plan[0]) && |tail| <= |taken.rest| < |rest|
            && |t| > 0 && t[0].source == 0
            && 0 < LengthOf(plan[0]) && |s.cells| + LengthOf(plan[0]) <= |whole| < SPAN64 / 2
            && var one := PlayOne(t, s, plan[0]);
               one.Some? && OnPlan(t, f, g, one.value, plan[1..], taken.rest, tail, whole)
  {
    hide PlayOne, LengthOf, TakeCopy, SegmentFrom, Ahead, LeadsTo;
    LeadsToEnd(t, s, plan, whole);
    LeadsToStep(t, s, plan, whole);
    SegmentsThere(f, seg, plan, |s.cells|, rest, tail);
    AheadStep(f, seg, plan, |s.cells|, rest, tail);
  }

  lemma {:induction false} SegmentsThere(f: Framing, seg: nat, steps: seq<Step>, pos: nat, rest: seq<Bit>,
                                         tail: seq<Bit>)
    requires Ahead(f, seg, steps, pos, rest, tail)
    ensures ValidFraming(f) && seg < |f.bounds|
  {
  }

  /** The loop over the stream. When it succeeds the window holds what some list of steps plays to; when the stream
      starts with the bits of a plan for the target, it yields that target. */
  method DecodeSteps(t: Table, tables: seq<SegmentTables>, bounds: seq<nat>, r: BitReader, w: Window, size: nat,
                     ghost plan: seq<Step>, ghost tail: seq<Bit>, ghost whole: seq<Byte>)
    returns (ok: bool, ghost taken: seq<Step>)
    requires |t| > 0 && t[0].source == 0 && AllUsable(tables) && |tables| == |bounds| > 0
    requires r.Valid() && w.Valid() && w.output == [] && w.copySrc == []
    requires |w.reference| + size < SPAN64 / 2
    modifies r, w`output, w`copySrc
    ensures r.Valid() && w.Valid() && |w.output| == |w.copySrc|
    ensures ok ==> |w.output| == size && exists last :: PlayedSoFar(t, w.reference, taken, Played(w.Cells(), last))
    ensures OnPlan(t, FramingOf(tables, bounds), 0, Start(w.reference), plan, old(r.Rest()), tail, whole)
            && r.padding <= |tail| && |whole| == |w.reference| + size ==>
              ok && BytesOf(w.Cells()) == whole
  {
    hide Window.Valid, Window.Cells, BitReader.Valid, BitReader.Rest, OnPlan, UsableTables, FullCodes, PlayOne,
         Announces, PlayedSoFar, BytesOf, ReferenceCells, TakeCopy;
    ghost var f := FramingOf(tables, bounds);
    ghost var good := OnPlan(t, f, 0, Start(w.reference), plan, r.Rest(), tail, whole) && r.padding <= |tail|
                      && |whole| == |w.reference| + size;
    ghost var left := plan;
    taken := [];
    var seg, recent, pos, end := 0, NO_RECENT, |w.reference|, |w.reference| + size;
    FreshWindow(w);
    TakenNone(t, w.reference);
    while pos < end
      invariant r.Valid() && w.Valid() && |w.output| == |w.copySrc| && seg < |bounds|
      invariant pos == |w.reference| + |w.output| && pos <= end
      invariant PlayedSoFar(t, w.reference, taken, Played(w.Cells(), recent))
      invariant good ==> OnPlan(t, f, seg, Played(w.Cells(), recent), left, r.Rest(), tail, whole)
    {
      ghost var s, rest := Played(w.Cells(), recent), r.Rest();
      if good {
        PlanStep(t, f, seg, s, left, rest, tail, whole);
      }
      var remaining := r.RemainingBits();
      if remaining == 0 {
        ok := false;
        return;
      }
      seg := NextSegment(bounds, seg, pos);
      var sym := ReadCopy(tables[seg], r);
      if sym.None? {
        ok := false;
        return;
      }
      var step := Cut(StepOf(sym.value), end - pos);
      if good {
        AnnouncedStep(TakeCopy(f.codes[seg], rest), left[0], end - pos);
      }
      var done, next := Apply(t, w, recent, step);
      if !done {
        ok := false;
        return;
      }
      TakenOne(t, w.reference, taken, s, step, Played(w.Cells(), next));
      if good {
        left := left[1..];
      }
      taken, recent, pos := taken + [step], next, pos + LengthOf(step);
    }
    ok := true;
    if good {
      PlanEnd(t, f, seg, Played(w.Cells(), recent), left, r.Rest(), tail, whole);
    }
  }

  /** A copy that would run past the target is shortened. */
  function Cut(s: Step, room: nat): Step
    requires room > 0
  {
    match s
    case Literal(_) => s
    case Copy(raw, n) => Copy(raw, if n < room then n else room)
  }

  lemma {:induction false} FreshWindow(w: Window)
    requires w.Valid() && w.output == [] && w.copySrc == []
    ensures w.Cells() == ReferenceCells(w.reference)
  {
  }

  lemma {:induction false} AnnouncedStep(t: Taken, step: Step, room: nat)
    requires Announces(t, step) && 0 < LengthOf(step) <= room
    ensures (t.length == 1 ==> t.raw < 0x100) && Cut(StepOf(Symbol(t.raw, t.length)), room) == step
  {
  }

  lemma {:induction false} PlanEnd(t: Table, f: Framing, seg: nat, s: Played, plan: seq<Step>, rest: seq<Bit>,
                                   tail: seq<Bit>, whole: seq<Byte>)
    requires OnPlan(t, f, seg, s, plan, rest, tail, whole) && |s.cells| == |whole|
    ensures BytesOf(s.cells) == whole
  {
    LeadsToEnd(t, s, plan, whole);
  }
}
