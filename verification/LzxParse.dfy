/** What a sequence of bytes and copies means, and how it is laid out as bits under switching code tables. */
module LzxParse {
  import opened BitStrings
  import opened RangeCoding
  import opened Rift
  import opened CanonicalCode
  import opened LeftCode
  import opened MatchCoding
  import opened CopyWindow
  import opened OffsetTable

  // --- Recent distances ---

  datatype Recent = Recent(first: I64, second: I64, third: I64)

  const NO_RECENT := Recent(0, 0, 0)

  function Touch(l: Recent, d: I64): Recent {
    if l.first == d then l else Recent(d, l.first, if l.second != d then l.second else l.third)
  }

  function RecentList(l: Recent): seq<I64> {
    [l.first, l.second, l.third]
  }

  /** `s` without the first `d` in it. */
  function Without(s: seq<I64>, d: I64): (r: seq<I64>)
    ensures |r| + 1 >= |s|
  {
    if |s| == 0 then [] else if s[0] == d then s[1..] else [s[0]] + Without(s[1..], d)
  }

  /** A used distance moves to the front; the others keep their order and the list its length. */
  lemma {:induction false} TouchMovesToFront(l: Recent, d: I64)
    ensures RecentList(Touch(l, d)) == ([d] + Without(RecentList(l), d))[..3]
  {
    var s := RecentList(l);
    assert s[1..] == [l.second, l.third] && s[1..][1..] == [l.third] && s[1..][1..][1..] == [];
    assert Without([l.third], d) == if l.third == d then [] else [l.third];
    assert Without(s[1..], d) == if l.second == d then [l.third] else [l.second] + Without([l.third], d);
  }

  // --- What the steps do ---

  /** A byte of the patch itself, or a copy from the window. */
  datatype Step = Literal(byte: Byte) | Copy(raw: nat, length: nat)

  function LengthOf(s: Step): nat {
    match s
    case Literal(_) => 1
    case Copy(_, n) => n
  }

  /** How far back a copy goes. */
  function DistanceOf(t: Table, pos: I64, l: Recent, raw: nat): I64
    requires |t| > 0 && t[0].source <= pos
  {
    if raw == SOURCE_COPY then MappedDistance(t, pos)
    else if raw < SOURCE_COPY then Wrap(raw - OFFSET_BIAS - OffsetAt(t, pos))
    else if raw == LRU_BASE then l.first
    else if raw == LRU_BASE + 1 then l.second
    else if raw == LRU_BASE + 2 then l.third
    else Wrap(raw - RAW_BASE)
  }

  /** The window so far, and the recent distances. */
  datatype Played = Played(cells: seq<Cell>, recent: Recent)

  function Start(reference: seq<Byte>): Played {
    Played(ReferenceCells(reference), NO_RECENT)
  }

  function PlayOne(t: Table, s: Played, step: Step): (r: Option<Played>)
    requires |t| > 0 && t[0].source == 0 && 0 < LengthOf(step) && |s.cells| + LengthOf(step) < SPAN64 / 2
    ensures r.Some? ==> |r.value.cells| == |s.cells| + LengthOf(step) && s.cells <= r.value.cells
  {
    match step
    case Literal(b) => Some(Played(s.cells + [Cell(b, -1)], s.recent))
    case Copy(raw, n) =>
      var d := DistanceOf(t, |s.cells|, s.recent, raw);
      if raw == SOURCE_COPY then
        var copied := MappedCopy(t, s.cells, n);
        if copied.None? then None else Some(Played(copied.value, Touch(s.recent, d)))
      else
        var src := SourceOf(|s.cells|, d);
        if src < |s.cells| then Some(Played(CopiedFrom(s.cells, src, n), Touch(s.recent, d))) else None
  }

  function TotalLength(steps: seq<Step>): nat {
    if |steps| > 0 then LengthOf(steps[0]) + TotalLength(steps[1..]) else 0
  }

  predicate NonEmpty(steps: seq<Step>) {
    forall i :: 0 <= i < |steps| ==> LengthOf(steps[i]) > 0
  }

  function Play(t: Table, s: Played, steps: seq<Step>): (r: Option<Played>)
    requires |t| > 0 && t[0].source == 0 && NonEmpty(steps) && |s.cells| + TotalLength(steps) < SPAN64 / 2
    ensures r.Some? ==> |r.value.cells| == |s.cells| + TotalLength(steps) && s.cells <= r.value.cells
    decreases |steps|
  {
    if |steps| > 0 then
      var one := PlayOne(t, s, steps[0]);
      if one.None? then None else Play(t, one.value, steps[1..])
    else Some(s)
  }

  lemma {:induction false} TotalOfConcat(a: seq<Step>, b: seq<Step>)
    ensures TotalLength(a + b) == TotalLength(a) + TotalLength(b)
  {
    if |a| == 0 {
      assert a + b == b;
    } else {
      assert (a + b)[1..] == a[1..] + b;
      TotalOfConcat(a[1..], b);
    }
  }

  lemma {:induction false} PlayConcat(t: Table, s: Played, a: seq<Step>, b: seq<Step>)
    requires |t| > 0 && t[0].source == 0 && NonEmpty(a) && NonEmpty(b)
    requires |s.cells| + TotalLength(a) + TotalLength(b) < SPAN64 / 2
    ensures TotalLength(a + b) == TotalLength(a) + TotalLength(b)
    ensures Play(t, s, a + b) == (var p := Play(t, s, a); if p.None? then None else Play(t, p.value, b))
    decreases |a|
  {
    hide PlayOne;
    TotalOfConcat(a, b);
    if |a| == 0 {
      assert a + b == b;
    } else {
      assert (a + b)[1..] == a[1..] + b;
      var one := PlayOne(t, s, a[0]);
      if one.Some? {
        PlayConcat(t, one.value, a[1..], b);
      }
    }
  }

  lemma {:induction false} PlayNext(t: Table, s: Played, a: seq<Step>, p: Played, step: Step)
    requires |t| > 0 && t[0].source == 0 && NonEmpty(a) && LengthOf(step) > 0
    requires |s.cells| + TotalLength(a) + LengthOf(step) < SPAN64 / 2 && Play(t, s, a) == Some(p)
    ensures NonEmpty(a + [step]) && TotalLength(a + [step]) == TotalLength(a) + LengthOf(step)
    ensures Play(t, s, a + [step]) == PlayOne(t, p, step)
  {
    hide PlayOne;
    assert [step][1..] == [];
    PlayConcat(t, s, a, [step]);
  }

  // --- Segments ---

  /** The codes of each segment and the positions from which they hold. */
  datatype Framing = Framing(codes: seq<Codes>, bounds: seq<nat>)

  predicate ValidFraming(f: Framing) {
    |f.codes| == |f.bounds| > 0
  }

  /** The segment at `pos`, coming from segment `seg`. */
  function SegmentFrom(bounds: seq<nat>, seg: nat, pos: nat): (r: nat)
    requires seg < |bounds|
    ensures seg <= r < |bounds|
    decreases |bounds| - seg
  {
    if seg + 1 < |bounds| && bounds[seg + 1] <= pos then SegmentFrom(bounds, seg + 1, pos) else seg
  }

  // --- Bits ---

  predicate StepFits(c: Codes, step: Step) {
    && FullCodes(c)
    && match step
       case Literal(b) => c.main[b] > 0
       case Copy(raw, n) => Writable(raw, n) && CopyCovered(c, raw, n)
  }

  function StepBits(c: Codes, step: Step): (bs: seq<Bit>)
    requires StepFits(c, step)
  {
    match step
    case Literal(b) => LeftBits(c.main, b)
    case Copy(raw, n) => CopyBits(c, raw, n)
  }

  /** Every step can be written with the codes of its segment. */
  predicate StepsFit(f: Framing, seg: nat, steps: seq<Step>, pos: nat)
    requires ValidFraming(f) && seg < |f.codes|
    decreases |steps|
  {
    |steps| > 0 ==>
      var s := SegmentFrom(f.bounds, seg, pos);
      StepFits(f.codes[s], steps[0]) && StepsFit(f, s, steps[1..], pos + LengthOf(steps[0]))
  }

  function StepsBits(f: Framing, seg: nat, steps: seq<Step>, pos: nat): seq<Bit>
    requires ValidFraming(f) && seg < |f.codes| && StepsFit(f, seg, steps, pos)
    decreases |steps|
  {
    if |steps| > 0 then
      var s := SegmentFrom(f.bounds, seg, pos);
      StepBits(f.codes[s], steps[0]) + StepsBits(f, s, steps[1..], pos + LengthOf(steps[0]))
    else []
  }

  /** The steps are what comes next in the stream, before `tail`. */
  predicate Ahead(f: Framing, seg: nat, steps: seq<Step>, pos: nat, rest: seq<Bit>, tail: seq<Bit>) {
    ValidFraming(f) && seg < |f.codes| && StepsFit(f, seg, steps, pos) && rest == StepsBits(f, seg, steps, pos) + tail
  }

  /** A symbol of length 1 is a byte; copies are longer. */
  function StepOf(sym: Symbol): Step
    requires sym.length == 1 ==> sym.raw < 0x100
  {
    if sym.length == 1 && sym.raw < 0x100 then Literal(sym.raw) else Copy(sym.raw, sym.length)
  }

  predicate Announces(t: Taken, step: Step) {
    t.Taken? && (t.length == 1 ==> t.raw < 0x100) && StepOf(Symbol(t.raw, t.length)) == step
  }

  lemma {:induction false} StepReadBack(c: Codes, step: Step, tail: seq<Bit>)
    requires StepFits(c, step)
    ensures |StepBits(c, step)| > 0
    ensures var t := TakeCopy(c, StepBits(c, step) + tail); Announces(t, step) && t.rest == tail
  {
    hide TakeCopy, LeftBits, FullCodes, FitsTable, CodeOffset, LengthSlot;
    match step
    case Literal(b) =>
      MainPart(c);
      ByteReadBack(c, b, tail);
    case Copy(raw, n) =>
      CopyReadBack(c, raw, n, tail);
  }

  lemma {:induction false} MainPart(c: Codes)
    requires FullCodes(c)
    ensures |c.main| == MAIN_SYMBOLS
  {
  }

  /** Reading one step leaves the next ones ahead. */
  lemma {:induction false} AheadStep(f: Framing, seg: nat, steps: seq<Step>, pos: nat, rest: seq<Bit>, tail: seq<Bit>)
    requires Ahead(f, seg, steps, pos, rest, tail) && |steps| > 0
    ensures var s := SegmentFrom(f.bounds, seg, pos);
            var taken := TakeCopy(f.codes[s], rest);
            && FullCodes(f.codes[s]) && Announces(taken, steps[0]) && |tail| <= |taken.rest| < |rest|
            && Ahead(f, s, steps[1..], pos + LengthOf(steps[0]), taken.rest, tail)
  {
    hide TakeCopy, StepBits, StepFits, SegmentFrom, LengthOf, Announces;
    var s := SegmentFrom(f.bounds, seg, pos);
    var more := StepsBits(f, s, steps[1..], pos + LengthOf(steps[0])) + tail;
    StepReadBack(f.codes[s], steps[0], more);
    assert rest == StepBits(f.codes[s], steps[0]) + more;
    FitsFull(f.codes[s], steps[0]);
  }

  lemma {:induction false} FitsFull(c: Codes, step: Step)
    requires StepFits(c, step)
    ensures FullCodes(c)
  {
  }
}
