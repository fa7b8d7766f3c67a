/** The patch encoder: a parse, the segments it is cut into, their codes, and the stream. Whatever it returns is a
    patch that makes the target of the reference. */
module LzxEncoder {
  import opened BitStrings
  import opened LsbBits
  import opened RangeCoding
  import opened Rift
  import opened LeftCode
  import opened BitWriting
  import opened MatchCoding
  import opened MatchCodec
  import opened FrequencyCodes
  import opened CopyWindow
  import opened OffsetTable
  import opened LzxParse
  import opened LzxDecoding
  import opened CompositeFraming
  import opened RiftCoding
  import opened LzxDecoder
  import opened LzxFinder
  import opened LzxParsing
  import opened LzxFrequencies

  const SEGMENT_SIZE := 0x4_0000
  const MAX_SPLITS := 8

  // --- Where segments begin ---

  function Position(n: nat, steps: seq<Step>, k: nat): nat
    requires k <= |steps|
  {
    n + TotalLength(steps[..k])
  }

  /** Segment `j` holds the steps from `splits[j]` to `splits[j + 1]` and starts at position `bounds[j]`. */
  predicate Splits(steps: seq<Step>, n: nat, bounds: seq<nat>, splits: seq<nat>) {
    && |splits| == |bounds| + 1 && |bounds| > 0 && splits[0] == 0 && splits[|bounds|] == |steps|
    && (forall i, j :: 0 <= i < j < |splits| ==> splits[i] <= splits[j])
    && forall j :: 0 <= j < |bounds| ==> splits[j] <= |steps| && bounds[j] == Position(n, steps, splits[j])
  }

  lemma {:induction false} TotalNext(steps: seq<Step>, k: nat)
    requires k < |steps|
    ensures TotalLength(steps[..k + 1]) == TotalLength(steps[..k]) + LengthOf(steps[k])
  {
    hide LengthOf;
    assert steps[..k + 1] == steps[..k] + [steps[k]] && [steps[k]][1..] == [];
    TotalOfConcat(steps[..k], [steps[k]]);
  }

  /** Positions grow with the steps, as every step has a length. */
  lemma {:induction false} PositionsAscend(n: nat, steps: seq<Step>, a: nat, b: nat)
    requires NonEmpty(steps) && a < b <= |steps|
    ensures Position(n, steps, a) < Position(n, steps, b)
  {
    hide LengthOf, TotalLength;
    TotalNext(steps, b - 1);
    assert LengthOf(steps[b - 1]) > 0;
    if a < b - 1 {
      PositionsAscend(n, steps, a, b - 1);
    }
  }

  /** The decoder, which compares positions, changes segment at the same step as the encoder, which counts steps. */
  lemma {:induction false} SameSegment(steps: seq<Step>, n: nat, bounds: seq<nat>, splits: seq<nat>, seg: nat, k: nat)
    requires NonEmpty(steps) && Splits(steps, n, bounds, splits) && seg < |bounds| && k <= |steps|
    ensures SegmentFrom(bounds, seg, Position(n, steps, k)) == SegmentFrom(splits[..|bounds|], seg, k)
    decreases |bounds| - seg
  {
    hide LengthOf, TotalLength, Position;
    if seg + 1 < |bounds| {
      var s := splits[seg + 1];
      assert bounds[seg + 1] == Position(n, steps, s);
      if s <= k {
        if s < k {
          PositionsAscend(n, steps, s, k);
        }
        SameSegment(steps, n, bounds, splits, seg + 1, k);
      } else {
        PositionsAscend(n, steps, k, s);
      }
    }
  }

  lemma {:induction false} SegmentHolds(steps: seq<Step>, n: nat, bounds: seq<nat>, splits: seq<nat>, seg: nat, k: nat)
    requires Splits(steps, n, bounds, splits) && seg < |bounds| && splits[seg] <= k < |steps|
    ensures var j := SegmentFrom(splits[..|bounds|], seg, k); splits[j] <= k < splits[j + 1]
    decreases |bounds| - seg
  {
    hide Position;
    if seg + 1 < |bounds| && splits[seg + 1] <= k {
      SegmentHolds(steps, n, bounds, splits, seg + 1, k);
    }
  }

  /** The codes of each segment can write its steps. */
  predicate CodesServe(codes: seq<Codes>, splits: seq<nat>, steps: seq<Step>) {
    |splits| == |codes| + 1
    && forall j, k :: 0 <= j < |codes| && splits[j] <= k < splits[j + 1] && k < |steps| ==> StepFits(codes[j], steps[k])
  }

  lemma {:induction false} ServedStepsFit(f: Framing, splits: seq<nat>, steps: seq<Step>, n: nat, seg: nat, k: nat)
    requires NonEmpty(steps) && Splits(steps, n, f.bounds, splits) && ValidFraming(f)
             && CodesServe(f.codes, splits, steps)
    requires seg < |f.codes| && k <= |steps| && splits[seg] <= k
    ensures StepsFit(f, seg, steps[k..], Position(n, steps, k))
    decreases |steps| - k
  {
    hide LengthOf, TotalLength, StepFits, Splits, SegmentFrom;
    if k < |steps| {
      SameSegment(steps, n, f.bounds, splits, seg, k);
      SegmentHolds(steps, n, f.bounds, splits, seg, k);
      var j := SegmentFrom(f.bounds, seg, Position(n, steps, k));
      TotalNext(steps, k);
      ServedStepsFit(f, splits, steps, n, j, k + 1);
      assert steps[k..][1..] == steps[k + 1..] && steps[k..][0] == steps[k];
    }
  }

  // --- Writing the steps ---

  method WriteStep(t: SegmentTables, w: BitWriter, s: Step)
    requires w.Valid() && UsableTables(t) && StepFits(CodesOf(t), s)
    modifies w
    ensures w.Valid() && w.Content() == old(w.Content()) + StepBits(CodesOf(t), s)
  {
    hide BitWriter.Valid, BitWriter.Content, Usable, LeftComplete, LeftBits, FitsTable, CopyCovered;
    match s
    case Literal(b) =>
      WriteCode(t.main, w, b);
    case Copy(raw, n) =>
      RawIsWord(raw);
      var ok := EncodeCopy(t, w, raw, n);
  }

  lemma {:induction false} RawIsWord(raw: nat)
    ensures FitsTable(raw) ==> raw < 0x1_0000_0000
  {
    FitsExactly(raw);
  }

  /** Each step with the codes of the segment it lies in, counted in steps. */
  method WriteSteps(w: BitWriter, tables: seq<SegmentTables>, starts: seq<nat>, steps: seq<Step>, ghost f: Framing,
                    ghost n: nat)
    requires w.Valid() && |tables| == |starts| > 0 && AllUsable(tables) && f == FramingOf(tables, f.bounds)
    requires ValidFraming(f) && StepsFit(f, 0, steps, n)
    requires forall k, seg :: 0 <= k <= |steps| && 0 <= seg < |starts| ==>
               SegmentFrom(f.bounds, seg, Position(n, steps, k)) == SegmentFrom(starts, seg, k)
    modifies w
    ensures w.Valid() && w.Content() == old(w.Content()) + StepsBits(f, 0, steps, n)
  {
    hide BitWriter.Valid, BitWriter.Content, UsableTables, StepFits, StepBits, CodesOf, SegmentFrom, LengthOf,
         TotalLength;
    ghost var goal := w.Content() + StepsBits(f, 0, steps, n);
    var seg := 0;
    assert steps[0..] == steps;
    StartPosition(n, steps);
    for k := 0 to |steps|
      invariant w.Valid() && seg < |starts|
      invariant StepsFit(f, seg, steps[k..], Position(n, steps, k))
      invariant w.Content() + StepsBits(f, seg, steps[k..], Position(n, steps, k)) == goal
    {
      ghost var before, was := w.Content(), seg;
      assert steps[k..][1..] == steps[k + 1..] && steps[k..][0] == steps[k];
      TotalNext(steps, k);
      seg := NextSegment(starts, seg, k);
      WriteStep(tables[seg], w, steps[k]);
      ghost var more := StepsBits(f, seg, steps[k + 1..], Position(n, steps, k + 1));
      assert before + StepBits(f.codes[seg], steps[k]) + more == before + (StepBits(f.codes[seg], steps[k]) + more);
    }
    assert w.Content() + [] == goal;
  }

  lemma {:induction false} StartPosition(n: nat, steps: seq<Step>)
    ensures Position(n, steps, 0) == n
  {
  }

  // --- Whole patches ---

  /** What a finished patch needs besides its bits: the steps lead to the target under the caller's map. */
  predicate Solves(steps: seq<Step>, reference: seq<Byte>, caller: Table, target: seq<Byte>) {
    && |reference| < SPAN64 / 2 && AllWritable(steps)
    && LeadsTo(PatchTable(caller, |reference|), Start(reference), steps, reference + target)
  }

  lemma {:induction false} FinishedPatch(form: Form, rc: RiftChoice, steps: seq<Step>, reference: seq<Byte>,
                                         caller: Table,
                                         target: seq<Byte>, data: seq<Byte>)
    requires Solves(steps, reference, caller, target) && FormFits(form)
    requires var f := FramingFor(form);
             && ValidFraming(f) && StepsFit(f, 0, steps, |reference|)
             && AllBits(data) == Sealed(Zeros(3) + [0] + FormBits(form) + StepsBits(f, 0, steps, |reference|))
    ensures Encodes(data, reference, caller, target)
  {
    hide LeadsTo, PatchTable, StepsFit, StepsBits, FormBits, FormFits, FramingFor, AllBits, Sealed;
    var p := Patch([], rc, form, steps);
    assert SortBySource([]) + caller == caller;
    assert Describes(p, reference, caller, target);
    var f, s := FormBits(form), StepsBits(FramingFor(form), 0, steps, |reference|);
    assert Zeros(3) + [0] + f + s == Zeros(3) + ([0] + (f + s));
  }

  lemma {:induction false} SolvedSteps(steps: seq<Step>, reference: seq<Byte>, caller: Table, target: seq<Byte>)
    requires Solves(steps, reference, caller, target)
    ensures NonEmpty(steps) && AllWritable(steps)
  {
  }

  /** The patch with its own codes, for any cut into segments. */
  method BuildComposite(reference: seq<Byte>, ghost target: seq<Byte>, ghost caller: Table, steps: seq<Step>,
                        tables: seq<SegmentTables>, bounds: seq<nat>, splits: seq<nat>)
    returns (data: seq<Byte>)
    requires Solves(steps, reference, caller, target)
    requires 0 < |tables| == |bounds| <= MAX_SEGMENTS && AllUsable(tables) && ValidBounds(bounds)
    requires forall j :: 0 <= j < |tables| ==> FullCodes(CodesOf(tables[j]))
    requires Splits(steps, |reference|, bounds, splits) && CodesServe(FramingOf(tables, bounds).codes, splits, steps)
    ensures Encodes(data, reference, caller, target)
  {
    hide BitWriter.Valid, BitWriter.Content, UsableTables, CodesOf, FullCodes, Splits, CodesServe, StepsFit,
         StepsBits, Solves, Position, HeaderFits, HeaderBits, ValidBounds, SegmentFrom, AllBits;
    ghost var f := FramingOf(tables, bounds);
    ghost var n := |reference|;
    SolvedSteps(steps, reference, caller, target);
    FirstFit(f, splits, steps, n);
    var w := new BitWriter();
    ghost var rc := WriteRift(w, []);
    w.WriteBits(0, 1);
    FlagBit();
    ghost var ch := WriteComposite(w, tables, bounds);
    ghost var head := w.Content();
    assert head == Zeros(3) + [0] + ([0] + HeaderBits(f, ch));
    SplitsShape(steps, n, bounds, splits);
    forall k: nat, seg: nat | k <= |steps| && seg < |bounds|
      ensures SegmentFrom(bounds, seg, Position(n, steps, k)) == SegmentFrom(splits[..|bounds|], seg, k) {
      SameSegment(steps, n, bounds, splits, seg, k);
    }
    WriteSteps(w, tables, splits[..|bounds|], steps, f, n);
    StartsPlain(w.Content(), head);
    data := w.Finish();
    FinishedPatch(Composite(f, ch), rc, steps, reference, caller, target, data);
  }

  lemma {:induction false} FirstFit(f: Framing, splits: seq<nat>, steps: seq<Step>, n: nat)
    requires NonEmpty(steps) && Splits(steps, n, f.bounds, splits) && ValidFraming(f)
             && CodesServe(f.codes, splits, steps)
    ensures StepsFit(f, 0, steps, n)
  {
    hide StepsFit, TotalLength, CodesServe;
    ServedStepsFit(f, splits, steps, n, 0, 0);
    StartPosition(n, steps);
    assert steps[0..] == steps;
  }

  lemma {:induction false} SplitsShape(steps: seq<Step>, n: nat, bounds: seq<nat>, splits: seq<nat>)
    requires Splits(steps, n, bounds, splits)
    ensures |splits| == |bounds| + 1 && |bounds| > 0
  {
  }

  lemma {:induction false} StartsPlain(content: seq<Bit>, head: seq<Bit>)
    requires head <= content && |head| >= 3 && head[..3] == Zeros(3)
    ensures Zeros(3) <= content
  {
  }

  // --- The simple form ---

  lemma {:induction false} FlatPositive(count: nat)
    requires 2 <= count <= 0x1_0000
    ensures forall i :: 0 <= i < count ==> FlatLengths(count)[i] > 0
  {
    if count > 2 {
      FlatBits(count);
    }
  }

  lemma {:induction false} FlatServes(s: Step)
    requires StepWritable(s)
    ensures StepFits(FlatCodes(), s)
  {
    hide LeftComplete, FlatLengths, CodeOffset, FitsTable;
    FlatFull();
    FlatPositive(MAIN_SYMBOLS);
    FlatPositive(LENGTH_SYMBOLS);
    FlatPositive(ALIGNED_SYMBOLS);
    if s.Copy? {
      MainSymbolFits(s.raw, s.length);
      LowSymbolFits(s.raw);
    }
  }

  lemma {:induction false} FlatStepsFit(steps: seq<Step>, pos: nat)
    requires AllWritable(steps)
    ensures StepsFit(FramingFor(Simple), 0, steps, pos)
    decreases |steps|
  {
    hide FlatCodes, StepFits;
    if |steps| > 0 {
      assert StepWritable(steps[0]);
      FlatServes(steps[0]);
      FlatStepsFit(steps[1..], pos + LengthOf(steps[0]));
    }
  }

  method BuildSimple(reference: seq<Byte>, ghost target: seq<Byte>, ghost caller: Table, steps: seq<Step>)
    returns (data: seq<Byte>)
    requires Solves(steps, reference, caller, target)
    ensures Encodes(data, reference, caller, target)
  {
    hide BitWriter.Valid, BitWriter.Content, UsableTables, CodesOf, FullCodes, StepsFit, StepsBits, Solves, FlatCodes,
         AllWritable, AllBits, Position;
    ghost var f := FramingFor(Simple);
    SolvedSteps(steps, reference, caller, target);
    FlatStepsFit(steps, |reference|);
    var w := new BitWriter();
    ghost var rc := WriteRift(w, []);
    w.WriteBits(1, 1);
    FlagBit();
    ghost var head := w.Content();
    assert head == Zeros(3) + [0] + [1];
    var flat := FlatTables();
    OneSegment(flat);
    WriteSteps(w, [flat], [0], steps, f, |reference|);
    StartsPlain(w.Content(), head);
    data := w.Finish();
    FinishedPatch(Simple, rc, steps, reference, caller, target, data);
  }

  // --- Compression ---

  /** A new segment begins once the current one has given enough output, up to seven times. */
  method CutSegments(steps: seq<Step>, n: nat) returns (bounds: seq<nat>, splits: seq<nat>)
    ensures Splits(steps, n, bounds, splits) && |bounds| <= MAX_SPLITS
  {
    hide TotalLength, LengthOf;
    bounds, splits := [n], [0];
    var cumulative: nat, output: nat := 0, 0;
    StartPosition(n, steps);
    for k := 0 to |steps|
      invariant 0 < |bounds| == |splits| <= MAX_SPLITS && splits[0] == 0 && n + cumulative == Position(n, steps, k)
      invariant forall i, j :: 0 <= i < j < |splits| ==> splits[i] <= splits[j]
      invariant forall j :: 0 <= j < |splits| ==> splits[j] <= k && bounds[j] == Position(n, steps, splits[j])
    {
      TotalNext(steps, k);
      cumulative, output := cumulative + LengthOf(steps[k]), output + LengthOf(steps[k]);
      if output >= SEGMENT_SIZE && |splits| < MAX_SPLITS {
        bounds, splits, output := bounds + [n + cumulative], splits + [k + 1], 0;
      }
    }
    splits := splits + [|steps|];
  }

  /** Tables for each segment from the steps in it. */
  method SegmentTablesFor(steps: seq<Step>, n: nat, bounds: seq<nat>, splits: seq<nat>, whole: bool)
    returns (tables: seq<SegmentTables>)
    requires AllWritable(steps) && Splits(steps, n, bounds, splits)
    ensures |tables| == |bounds| && AllUsable(tables) && CodesServe(FramingOf(tables, bounds).codes, splits, steps)
    ensures forall j :: 0 <= j < |tables| ==> FullCodes(CodesOf(tables[j]))
  {
    hide Position, UsableTables, FullCodes, StepFits, CodesOf, StepWritable;
    tables := [];
    for j := 0 to |bounds|
      invariant |tables| == j && AllUsable(tables)
      invariant forall i :: 0 <= i < j ==> FullCodes(CodesOf(tables[i]))
      invariant forall i, k :: 0 <= i < j && splits[i] <= k < splits[i + 1] && k < |steps| ==>
                  StepFits(CodesOf(tables[i]), steps[k])
    {
      var part := steps[splits[j]..splits[j + 1]];
      var t := TablesForSteps(part, whole);
      forall k | splits[j] <= k < splits[j + 1] && k < |steps| ensures StepFits(CodesOf(t), steps[k]) {
        assert part[k - splits[j]] == steps[k];
      }
      tables := tables + [t];
    }
  }

  lemma {:induction false} BoundsSmall(steps: seq<Step>, reference: seq<Byte>, caller: Table, target: seq<Byte>,
                                       bounds: seq<nat>, splits: seq<nat>)
    requires Solves(steps, reference, caller, target) && Splits(steps, |reference|, bounds, splits)
    ensures ValidBounds(bounds)
  {
    hide Play, PatchTable, TotalLength;
    assert steps[..|steps|] == steps;
    forall j | 0 <= j < |bounds| ensures bounds[j] < SPAN64 / 2 {
      if splits[j] < |steps| {
        PositionsAscend(|reference|, steps, splits[j], |steps|);
      }
    }
  }

  lemma {:induction false} OneSplit(steps: seq<Step>, n: nat)
    ensures Splits(steps, n, [n], [0, |steps|])
  {
  }

  /** Whatever the reference, the target and the map are, the result is a patch for the target. Large targets are
      cut into segments; for the others the shorter of the simple and the composite form is taken. */
  method Compress(reference: seq<Byte>, target: seq<Byte>, caller: Table) returns (data: seq<Byte>)
    requires |reference| + |target| <= MAX_COMBINED
    ensures Encodes(data, reference, caller, target)
  {
    hide Solves, Splits, ValidBounds, AllUsable, CodesServe, FullCodes, PatchTable, Encodes, AllWritable, LeadsTo,
         CodesOf;
    var n := |reference|;
    var t := PatchTable(caller, n);
    var steps := FindParse(reference, target, t);
    ParseSolves(steps, reference, caller, target);
    var bounds, splits := [n], [0, |steps|];
    OneSplit(steps, n);
    var large := |target| > 2 * SEGMENT_SIZE;
    if large {
      bounds, splits := CutSegments(steps, n);
    }
    BoundsSmall(steps, reference, caller, target, bounds, splits);
    SplitsShape(steps, n, bounds, splits);
    var tables := SegmentTablesFor(steps, n, bounds, splits, !large);
    data := BuildComposite(reference, target, caller, steps, tables, bounds, splits);
    if !large {
      var simple := BuildSimple(reference, target, caller, steps);
      if |simple| <= |data| {
        data := simple;
      }
    }
  }

  lemma {:induction false} ParseSolves(steps: seq<Step>, reference: seq<Byte>, caller: Table, target: seq<Byte>)
    requires |reference| < SPAN64 / 2 && AllWritable(steps)
    requires LeadsTo(PatchTable(caller, |reference|), Start(reference), steps, reference + target)
    ensures Solves(steps, reference, caller, target)
  {
  }

  /** Compressing and decompressing with the same reference and map gives the target back. */
  method RoundTrip(reference: seq<Byte>, target: seq<Byte>, caller: Table) returns (d: Decoded)
    requires |reference| + |target| <= MAX_COMBINED
    ensures d.Decoded? && d.output == target
  {
    hide Encodes, Explained, Faithful;
    var data := Compress(reference, target, caller);
    d := Decompress(reference, data, |target|, caller, target);
  }
}
