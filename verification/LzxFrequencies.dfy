/** The frequency pass of the patch encoder: it counts exactly the symbols that the steps are written with, so every
    one of them gets a code. */
module LzxFrequencies {
  import opened CanonicalCode
  import opened LeftCode
  import opened MatchCoding
  import opened MatchCodec
  import opened FrequencyCodes
  import opened LzxParse
  import opened LzxParsing
  import CtzTable

  // --- The symbols of each code, in the order they are written ---

  function MainOf(s: Step): nat {
    match s
    case Literal(b) => b
    case Copy(raw, n) => MainSymbol(raw, n)
  }

  function LengthsOf(s: Step): seq<nat> {
    if s.Copy? && s.length >= 9 then [LengthSymbol(s.length)] else []
  }

  function AlignedOf(s: Step): seq<nat> {
    if s.Copy? && CodeOffset(s.raw).low.Some? then [CodeOffset(s.raw).low.value] else []
  }

  function MainWritten(steps: seq<Step>): seq<nat> {
    if |steps| > 0 then MainWritten(steps[..|steps| - 1]) + [MainOf(steps[|steps| - 1])] else []
  }

  function LengthsWritten(steps: seq<Step>): seq<nat> {
    if |steps| > 0 then LengthsWritten(steps[..|steps| - 1]) + LengthsOf(steps[|steps| - 1]) else []
  }

  function AlignedWritten(steps: seq<Step>): seq<nat> {
    if |steps| > 0 then AlignedWritten(steps[..|steps| - 1]) + AlignedOf(steps[|steps| - 1]) else []
  }

  predicate Counts(freqs: seq<nat>, symbols: seq<nat>) {
    forall s :: 0 <= s < |freqs| ==> freqs[s] == multiset(symbols)[s]
  }

  lemma {:induction false} CountsOne(freqs: seq<nat>, symbols: seq<nat>, s: nat)
    requires Counts(freqs, symbols) && s < |freqs|
    ensures Counts(freqs[s := freqs[s] + 1], symbols + [s])
  {
  }

  lemma {:induction false} CountsNone(n: nat)
    ensures Counts(Repeat(0, n), [])
  {
  }

  datatype Freqs = Freqs(main: seq<nat>, lengths: seq<nat>, aligned: seq<nat>)

  predicate SizedFreqs(f: Freqs) {
    |f.main| == MAIN_SYMBOLS && |f.lengths| == LENGTH_SYMBOLS && |f.aligned| == ALIGNED_SYMBOLS
  }

  predicate CountsSteps(f: Freqs, steps: seq<Step>) {
    && SizedFreqs(f) && Counts(f.main, MainWritten(steps)) && Counts(f.lengths, LengthsWritten(steps))
    && Counts(f.aligned, AlignedWritten(steps))
  }

  lemma {:induction false} WrittenNext(steps: seq<Step>, k: nat)
    requires k < |steps|
    ensures MainWritten(steps[..k + 1]) == MainWritten(steps[..k]) + [MainOf(steps[k])]
    ensures LengthsWritten(steps[..k + 1]) == LengthsWritten(steps[..k]) + LengthsOf(steps[k])
    ensures AlignedWritten(steps[..k + 1]) == AlignedWritten(steps[..k]) + AlignedOf(steps[k])
  {
    hide MainOf, LengthsOf, AlignedOf;
    assert steps[..k + 1][..k] == steps[..k];
  }

  /** One step: a main symbol, and what its length and offset need. */
  method CountStep(f: Freqs, s: Step, ghost main: seq<nat>, ghost lengths: seq<nat>, ghost aligned: seq<nat>)
    returns (r: Freqs)
    requires SizedFreqs(f) && Counts(f.main, main) && Counts(f.lengths, lengths) && Counts(f.aligned, aligned)
    requires StepWritable(s)
    ensures SizedFreqs(r) && Counts(r.main, main + [MainOf(s)]) && Counts(r.lengths, lengths + LengthsOf(s))
    ensures Counts(r.aligned, aligned + AlignedOf(s))
  {
    hide Counts, CodeOffset, FitsTable;
    match s
    case Literal(b) =>
      CountsOne(f.main, main, b);
      assert lengths + [] == lengths && aligned + [] == aligned;
      r := f.(main := f.main[b := f.main[b] + 1]);
    case Copy(raw, n) =>
      r := CountCopy(f, raw, n, main, lengths, aligned);
  }

  method CountCopy(f: Freqs, raw: nat, n: nat, ghost main: seq<nat>, ghost lengths: seq<nat>, ghost aligned: seq<nat>)
    returns (r: Freqs)
    requires SizedFreqs(f) && Counts(f.main, main) && Counts(f.lengths, lengths) && Counts(f.aligned, aligned)
    requires Writable(raw, n)
    ensures SizedFreqs(r) && Counts(r.main, main + [MainSymbol(raw, n)])
    ensures Counts(r.lengths, lengths + LengthsOf(Copy(raw, n)))
    ensures Counts(r.aligned, aligned + AlignedOf(Copy(raw, n)))
  {
    hide Counts, CodeOffset, FitsTable;
    MainSymbolFits(raw, n);
    LowSymbolFits(raw);
    FitsExactly(raw);
    r := f;
    var info := ComputeSymbolInfo(raw);
    var slot := if n - 1 <= 7 then n - 1 else 0;
    var symbol := 0x100 + 8 * info.slot + slot;
    if symbol < MAIN_SYMBOLS {
      CountsOne(f.main, main, symbol);
      r := r.(main := f.main[symbol := f.main[symbol] + 1]);
    }
    assert lengths + [] == lengths && aligned + [] == aligned;
    if slot == 0 {
      var rest := n - 8;
      var length := if rest <= 255 then rest else 0;
      if length < LENGTH_SYMBOLS {
        CountsOne(f.lengths, lengths, length);
        r := r.(lengths := f.lengths[length := f.lengths[length] + 1]);
      }
    }
    if info.aligned {
      LowOfRaw(raw);
      var low := (raw - RAW_BASE) % 16;
      CountsOne(f.aligned, aligned, low);
      r := r.(aligned := f.aligned[low := f.aligned[low] + 1]);
    }
  }

  lemma {:induction false} LowOfRaw(raw: nat)
    requires CodeOffset(raw).low.Some?
    ensures raw >= RAW_BASE && CodeOffset(raw).low == Some((raw - RAW_BASE) % 16)
  {
    hide AdjOf, BandFirst;
    if raw < SOURCE_COPY {
      SignedPlain(raw);
    }
  }

  method CountSteps(steps: seq<Step>) returns (f: Freqs)
    requires AllWritable(steps)
    ensures CountsSteps(f, steps)
  {
    hide Counts, MainOf, LengthsOf, AlignedOf;
    f := Freqs(Repeat(0, MAIN_SYMBOLS), Repeat(0, LENGTH_SYMBOLS), Repeat(0, ALIGNED_SYMBOLS));
    CountsNone(MAIN_SYMBOLS);
    CountsNone(LENGTH_SYMBOLS);
    CountsNone(ALIGNED_SYMBOLS);
    assert steps[..0] == [];
    for k := 0 to |steps|
      invariant CountsSteps(f, steps[..k])
    {
      WrittenNext(steps, k);
      f := CountStep(f, steps[k], MainWritten(steps[..k]), LengthsWritten(steps[..k]), AlignedWritten(steps[..k]));
    }
    assert steps[..|steps|] == steps;
  }

  // --- At least one symbol of each kind ---

  predicate ToppedUp(freqs: seq<nat>, r: seq<nat>) {
    && |r| == |freqs| && (forall s :: 0 <= s < |r| ==> r[s] >= freqs[s])
    && exists s :: 0 <= s < |r| && r[s] > 0
  }

  method CountNonzero(freqs: seq<nat>) returns (n: nat)
    ensures n == 0 ==> forall s :: 0 <= s < |freqs| ==> freqs[s] == 0
    ensures n > 0 ==> exists s :: 0 <= s < |freqs| && freqs[s] > 0
  {
    n := 0;
    for s := 0 to |freqs|
      invariant n == 0 ==> forall k :: 0 <= k < s ==> freqs[k] == 0
      invariant n > 0 ==> exists k :: 0 <= k < |freqs| && freqs[k] > 0
    {
      if freqs[s] > 0 {
        n := n + 1;
      }
    }
  }

  /** For one segment: with no symbol at all, every symbol is given one; with one, the first symbol too. */
  method TopUpWhole(freqs: seq<nat>) returns (r: seq<nat>)
    requires |freqs| > 0
    ensures ToppedUp(freqs, r)
  {
    var nonzero := CountNonzero(freqs);
    r := freqs;
    if nonzero < 2 {
      for i := 0 to |freqs|
        invariant |r| == |freqs| && forall s :: 0 <= s < |r| ==> r[s] >= freqs[s]
        invariant i > 0 ==> r[0] > 0
      {
        if r[i] == 0 && nonzero + (if i > 0 then 1 else 0) >= 2 {
          break;
        }
        if r[i] == 0 {
          r := r[i := 1];
        }
      }
    }
    assert nonzero == 0 || exists s :: 0 <= s < |r| && freqs[s] > 0;
  }

  /** For each of several segments: the first two symbols. */
  method TopUpSegment(freqs: seq<nat>) returns (r: seq<nat>)
    requires |freqs| > 0
    ensures ToppedUp(freqs, r)
  {
    var nonzero := CountNonzero(freqs);
    r := freqs;
    if nonzero < 2 {
      for i := 0 to |freqs|
        invariant |r| == |freqs| && forall s :: 0 <= s < |r| ==> r[s] >= freqs[s]
        invariant i > 0 ==> r[0] > 0
      {
        if r[i] == 0 && i < 2 {
          r := r[i := 1];
        }
      }
    }
    assert nonzero == 0 || exists s :: 0 <= s < |r| && freqs[s] > 0;
  }

  // --- Tables for a list of steps ---

  predicate HasCodes(lens: seq<nat>, symbols: seq<nat>) {
    forall s :: s in symbols && s < |lens| ==> lens[s] > 0
  }

  method TableOfCounts(freqs: seq<nat>, whole: bool, ghost symbols: seq<nat>) returns (t: CtzTable.HuffmanTable)
    requires 2 <= |freqs| <= 0x8000 && Counts(freqs, symbols)
    ensures Usable(t) && |t.lengths| == |freqs| && LeftComplete(t.lengths) && HasCodes(t.lengths, symbols)
  {
    hide Usable, LeftComplete;
    var r;
    if whole {
      r := TopUpWhole(freqs);
    } else {
      r := TopUpSegment(freqs);
    }
    t := FrequencyTable(r);
    forall s | s in symbols && s < |t.lengths| ensures t.lengths[s] > 0 {
      assert multiset(symbols)[s] > 0;
    }
  }

  method TablesForSteps(steps: seq<Step>, whole: bool) returns (t: SegmentTables)
    requires AllWritable(steps)
    ensures UsableTables(t) && FullCodes(CodesOf(t))
    ensures forall k :: 0 <= k < |steps| ==> StepFits(CodesOf(t), steps[k])
  {
    hide Usable, LeftComplete, Counts, HasCodes, MainOf, LengthsOf, AlignedOf, StepFits;
    var f := CountSteps(steps);
    var main := TableOfCounts(f.main, whole, MainWritten(steps));
    var lengths := TableOfCounts(f.lengths, whole, LengthsWritten(steps));
    var aligned := TableOfCounts(f.aligned, whole, AlignedWritten(steps));
    t := SegmentTables(main, lengths, aligned);
    CodesFitSteps(CodesOf(t), steps);
  }

  lemma {:induction false} StepIsWritten(steps: seq<Step>, k: nat)
    requires k < |steps|
    ensures MainOf(steps[k]) in MainWritten(steps)
    ensures forall s :: s in LengthsOf(steps[k]) ==> s in LengthsWritten(steps)
    ensures forall s :: s in AlignedOf(steps[k]) ==> s in AlignedWritten(steps)
  {
    hide MainOf, LengthsOf, AlignedOf;
    if k < |steps| - 1 {
      StepIsWritten(steps[..|steps| - 1], k);
    }
  }

  lemma {:induction false} CodesFitSteps(c: Codes, steps: seq<Step>)
    requires FullCodes(c) && AllWritable(steps) && HasCodes(c.main, MainWritten(steps))
    requires HasCodes(c.lengths, LengthsWritten(steps)) && HasCodes(c.aligned, AlignedWritten(steps))
    ensures forall k :: 0 <= k < |steps| ==> StepFits(c, steps[k])
  {
    hide LeftComplete, CodeOffset, FitsTable, MainWritten, LengthsWritten, AlignedWritten;
    forall k | 0 <= k < |steps| ensures StepFits(c, steps[k]) {
      StepIsWritten(steps, k);
      OneStepFits(c, steps[k]);
    }
  }

  lemma {:induction false} OneStepFits(c: Codes, s: Step)
    requires FullCodes(c) && StepWritable(s)
    requires MainOf(s) < |c.main| ==> c.main[MainOf(s)] > 0
    requires forall l :: l in LengthsOf(s) && l < |c.lengths| ==> c.lengths[l] > 0
    requires forall l :: l in AlignedOf(s) && l < |c.aligned| ==> c.aligned[l] > 0
    ensures StepFits(c, s)
  {
    hide LeftComplete, CodeOffset, FitsTable;
    if s.Copy? {
      MainSymbolFits(s.raw, s.length);
      LowSymbolFits(s.raw);
      if s.length >= 9 {
        assert LengthSymbol(s.length) in LengthsOf(s);
      }
      if CodeOffset(s.raw).low.Some? {
        assert CodeOffset(s.raw).low.value in AlignedOf(s);
      }
    }
  }
}
