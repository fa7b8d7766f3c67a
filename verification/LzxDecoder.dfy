/** A whole patch: what it contains, and the decoder that turns it back into the target. */
module LzxDecoder {
  import opened BitStrings
  import opened LsbBits
  import opened RangeCoding
  import opened Rift
  import opened CanonicalCode
  import opened LeftCode
  import opened BitReading
  import opened BitWriting
  import opened MatchCoding
  import opened MatchCodec
  import opened FrequencyCodes
  import opened CopyWindow
  import opened OffsetTable
  import opened LzxParse
  import opened LzxDecoding
  import opened CompositeFraming
  import opened RiftCoding

  // --- The contents of a patch ---

  /** Fixed codes, or a header with codes for every segment. */
  datatype Form = Simple | Composite(framing: Framing, choice: HeaderChoice)

  function FlatCodes(): Codes {
    Codes(FlatLengths(MAIN_SYMBOLS), FlatLengths(LENGTH_SYMBOLS), FlatLengths(ALIGNED_SYMBOLS))
  }

  lemma {:induction false} FlatFull()
    ensures FullCodes(FlatCodes())
  {
    hide LeftComplete, FlatLengths;
    FlatComplete(MAIN_SYMBOLS);
    FlatComplete(LENGTH_SYMBOLS);
    FlatComplete(ALIGNED_SYMBOLS);
  }

  const NO_BOUND := 0xFFFF_FFFF_FFFF_FFFF

  function FramingFor(form: Form): Framing {
    match form
    case Simple => Framing([FlatCodes()], [NO_BOUND])
    case Composite(f, _) => f
  }

  ghost predicate FormFits(form: Form) {
    form.Composite? ==> HeaderFits(form.framing, form.choice)
  }

  ghost function FormBits(form: Form): seq<Bit>
    requires FormFits(form)
  {
    match form
    case Simple => [1]
    case Composite(f, ch) => [0] + HeaderBits(f, ch)
  }

  datatype Patch = Patch(rift: Table, riftChoice: RiftChoice, form: Form, steps: seq<Step>)

  /** The patch can be written, and its steps turn the reference into the target under the joint map. */
  ghost predicate Describes(p: Patch, reference: seq<Byte>, caller: Table, target: seq<Byte>) {
    && |p.rift| < SPAN64 / 2 && (|p.rift| > 0 ==> CodesFit(p.riftChoice)) && FormFits(p.form)
    && var f := FramingFor(p.form);
       && ValidFraming(f) && StepsFit(f, 0, p.steps, |reference|)
       && |reference| < SPAN64 / 2
       && LeadsTo(PatchTable(SortBySource(p.rift) + caller, |reference|), Start(reference), p.steps, reference + target)
  }

  ghost function PatchBits(p: Patch, reference: seq<Byte>, caller: Table, target: seq<Byte>): seq<Bit>
    requires Describes(p, reference, caller, target)
  {
    RiftBits(p.riftChoice, p.rift) + (FormBits(p.form) + StepsBits(FramingFor(p.form), 0, p.steps, |reference|))
  }

  /** The bytes are a patch that makes `target` of `reference`. */
  ghost predicate Encodes(patch: seq<Byte>, reference: seq<Byte>, caller: Table, target: seq<Byte>) {
    exists p :: Describes(p, reference, caller, target)
                && AllBits(patch) == Sealed(Zeros(3) + PatchBits(p, reference, caller, target))
  }

  // --- Decoding ---

  datatype Decoded = Failed | Decoded(output: seq<Byte>, copySrc: seq<int>)

  /** The window after decoding is what some steps play to, under some map from the patch joined with the caller's. */
  ghost predicate Explained(reference: seq<Byte>, caller: Table, cells: seq<Cell>) {
    |reference| < SPAN64 / 2
    && exists rift, steps, last ::
         PlayedSoFar(PatchTable(rift + caller, |reference|), reference, steps, Played(cells, last))
  }

  method FlatTables() returns (t: SegmentTables)
    ensures UsableTables(t) && CodesOf(t) == FlatCodes()
  {
    hide Usable, FlatLengths;
    FlatFull();
    ValidFlat();
    var main := TableFor(FlatLengths(MAIN_SYMBOLS));
    var lengths := TableFor(FlatLengths(LENGTH_SYMBOLS));
    var aligned := TableFor(FlatLengths(ALIGNED_SYMBOLS));
    t := SegmentTables(main.value, lengths.value, aligned.value);
  }

  lemma {:induction false} ValidFlat()
    ensures ValidLefts(FlatLengths(MAIN_SYMBOLS)) && ValidLefts(FlatLengths(LENGTH_SYMBOLS))
    ensures ValidLefts(FlatLengths(ALIGNED_SYMBOLS))
  {
    hide FlatLengths, LeftKraft;
    FlatComplete(MAIN_SYMBOLS);
    FlatComplete(LENGTH_SYMBOLS);
    FlatComplete(ALIGNED_SYMBOLS);
  }

  /** The codes of the patch and the positions where they change. */
  method ReadForm(r: BitReader, ghost form: Form, ghost tail: seq<Bit>)
    returns (result: Option<(seq<SegmentTables>, seq<nat>)>)
    requires r.Valid()
    modifies r
    ensures r.Valid()
    ensures result.Some? ==> 0 < |result.value.0| == |result.value.1| && AllUsable(result.value.0)
    ensures FormFits(form) && old(r.Rest()) == FormBits(form) + tail && r.padding <= |tail| ==>
              result.Some? && FramingOf(result.value.0, result.value.1) == FramingFor(form) && r.Rest() == tail
  {
    hide BitReader.Valid, BitReader.Rest, UsableTables, HeaderFits, HeaderBits, TakeField, FlatCodes, FramingOf,
         CodesOf;
    ghost var good := FormFits(form) && r.Rest() == FormBits(form) + tail && r.padding <= |tail|;
    ghost var f, ch, after := Framing([], []), HeaderChoice([], []), tail;
    if good {
      if form.Composite? {
        f, ch := form.framing, form.choice;
        after := HeaderBits(f, ch) + tail;
        FlagAhead(0, after);
        assert r.Rest() == [0] + after;
      } else {
        FlagAhead(1, tail);
      }
    }
    var simple := r.ReadBits(1);
    if simple.None? {
      return None;
    }
    if simple.value != 0 {
      var flat := FlatTables();
      OneSegment(flat);
      result := Some(([flat], [NO_BOUND]));
    } else {
      result := ReadComposite(r, f, ch, tail);
    }
  }

  lemma {:induction false} OneSegment(t: SegmentTables)
    ensures FramingOf([t], [NO_BOUND]) == Framing([CodesOf(t)], [NO_BOUND])
  {
    assert FramingOf([t], [NO_BOUND]).codes == [CodesOf(t)];
  }

  lemma {:induction false} PatchParts(p: Patch, reference: seq<Byte>, caller: Table, target: seq<Byte>, data: seq<Byte>)
    returns (rest: seq<Bit>, afterRift: seq<Bit>, afterForm: seq<Bit>, tail: seq<Bit>)
    requires Describes(p, reference, caller, target)
    requires AllBits(data) == Sealed(Zeros(3) + PatchBits(p, reference, caller, target))
    ensures Openable(data) && rest == AllBits(data)[3..] && |tail| == data[0] % 8
    ensures rest == RiftBits(p.riftChoice, p.rift) + afterRift && afterRift == FormBits(p.form) + afterForm
    ensures |tail| <= |afterForm| <= |afterRift|
    ensures OnPlan(PatchTable(SortBySource(p.rift) + caller, |reference|), FramingFor(p.form), 0, Start(reference),
                   p.steps, afterForm, tail, reference + target)
  {
    hide AllBits, Sealed, RiftBits, FormBits, StepsBits, StepsFit, LeadsTo, PatchTable, FormFits, CodesFit, FramingFor;
    var bits := PatchBits(p, reference, caller, target);
    var content := Zeros(3) + bits;
    SealedOpens(data, content);
    tail := Zeros(Padding(|content|));
    assert content[3..] == bits;
    var steps := StepsBits(FramingFor(p.form), 0, p.steps, |reference|);
    afterForm := steps + tail;
    afterRift := FormBits(p.form) + afterForm;
    rest := AllBits(data)[3..];
    assert rest == RiftBits(p.riftChoice, p.rift) + (FormBits(p.form) + steps) + tail;
  }

  /** The target of `target.size` bytes; `target` is any target the patch may stand for. Success always comes with a
      right origin for every byte. */
  method Decompress(reference: seq<Byte>, patch: seq<Byte>, size: nat, caller: Table, ghost target: seq<Byte>)
    returns (d: Decoded)
    requires |reference| + size < SPAN64 / 2
    ensures d.Decoded? ==>
              && |d.output| == |d.copySrc| == size && Faithful(reference, CellsOf(d.output, d.copySrc))
              && (|patch| > 0 ==>
                    Explained(reference, caller, ReferenceCells(reference) + CellsOf(d.output, d.copySrc)))
    ensures Encodes(patch, reference, caller, target) && |target| == size ==> d.Decoded? && d.output == target
  {
    hide BitReader.Valid, BitReader.Rest, Describes, PatchBits, AllBits, OnPlan, UsableTables, PlayedSoFar, BytesOf,
         ReferenceCells, CellsOf, Faithful, PatchTable, RiftBits, FormBits, FormFits, CodesFit, SortBySource;
    if |patch| == 0 {
      d := if size == 0 then Decoded([], []) else Failed;
      PatchNotEmpty(patch, reference, caller, target);
      NothingFaithful(reference);
      return;
    }
    ghost var good := Encodes(patch, reference, caller, target) && |target| == size;
    ghost var p := Patch([], RiftChoice([], []), Simple, []);
    ghost var afterRift: seq<Bit>, afterForm: seq<Bit>, tail: seq<Bit> := [], [], [];
    if good {
      p :| Describes(p, reference, caller, target)
           && AllBits(patch) == Sealed(Zeros(3) + PatchBits(p, reference, caller, target));
      ghost var rest;
      rest, afterRift, afterForm, tail := PatchParts(p, reference, caller, target, patch);
      DescribedParts(p, reference, caller, target);
    }
    if 8 * |patch| < 3 + patch[0] % 8 {
      return Failed;
    }
    var r := new BitReader(patch);
    var rift := ReadRift(r, p.riftChoice, p.rift, afterRift);
    if rift.None? {
      return Failed;
    }
    var t := PatchTable(rift.value + caller, |reference|);
    var form := ReadForm(r, p.form, afterForm);
    if form.None? {
      return Failed;
    }
    var w := new Window(reference);
    ghost var taken;
    var ok;
    ok, taken := DecodeSteps(t, form.value.0, form.value.1, r, w, size, p.steps, tail, reference + target);
    if !ok {
      return Failed;
    }
    d := Decoded(w.output, w.copySrc);
    WindowDone(w);
    ghost var last :| PlayedSoFar(t, reference, taken, Played(w.Cells(), last));
    if good {
      SameOutput(reference, w, target);
    }
  }

  lemma {:induction false} PatchNotEmpty(patch: seq<Byte>, reference: seq<Byte>, caller: Table, target: seq<Byte>)
    ensures Encodes(patch, reference, caller, target) ==> |patch| > 0
  {
    hide Describes, PatchBits, AllBits;
    if Encodes(patch, reference, caller, target) {
      var p :| Describes(p, reference, caller, target)
               && AllBits(patch) == Sealed(Zeros(3) + PatchBits(p, reference, caller, target));
      SealedOpens(patch, Zeros(3) + PatchBits(p, reference, caller, target));
    }
  }

  lemma {:induction false} NothingFaithful(reference: seq<Byte>)
    ensures CellsOf([], []) == [] && Faithful(reference, CellsOf([], []))
  {
  }

  lemma {:induction false} DescribedParts(p: Patch, reference: seq<Byte>, caller: Table, target: seq<Byte>)
    requires Describes(p, reference, caller, target)
    ensures |p.rift| < SPAN64 / 2 && (|p.rift| > 0 ==> CodesFit(p.riftChoice)) && FormFits(p.form)
  {
  }

  lemma {:induction false} WindowDone(w: Window)
    requires w.Valid() && |w.output| == |w.copySrc|
    ensures Faithful(w.reference, CellsOf(w.output, w.copySrc))
    ensures w.Cells() == ReferenceCells(w.reference) + CellsOf(w.output, w.copySrc)
  {
  }

  lemma {:induction false} SameOutput(reference: seq<Byte>, w: Window, target: seq<Byte>)
    requires w.reference == reference && |w.output| == |w.copySrc| == |target|
    requires BytesOf(w.Cells()) == reference + target
    ensures w.output == target
  {
    forall i | 0 <= i < |target| ensures w.output[i] == target[i] {
      assert BytesOf(w.Cells())[|reference| + i] == w.output[i];
    }
  }
}
