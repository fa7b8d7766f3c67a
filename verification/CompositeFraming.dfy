/** The header of a patch with its own code tables: how many segments, where each starts, the pre-tree, and the code
    lengths of every segment. */
module CompositeFraming {
  import opened Powers
  import opened BitStrings
  import opened LsbBits
  import opened Rift
  import opened CanonicalCode
  import opened LeftCode
  import opened BitReading
  import opened BitWriting
  import opened CtzTable
  import opened MatchCoding
  import opened MatchCodec
  import opened FrequencyCodes
  import opened LengthCoding
  import opened LzxParse
  import opened LzxDecoding

  const MAX_SEGMENTS := 1024

  function AllLengths(c: Codes): seq<nat> {
    c.main + c.lengths + c.aligned
  }

  // --- Boundaries, as differences ---

  function BoundsBits(bounds: seq<nat>, prev: nat): seq<Bit> {
    if |bounds| > 0 then
      var delta: int := bounds[0];
      I64Bits((delta - prev) % SPAN64) + BoundsBits(bounds[1..], bounds[0])
    else []
  }

  predicate ValidBounds(bounds: seq<nat>) {
    forall i :: 0 <= i < |bounds| ==> bounds[i] < SPAN64 / 2
  }

  method WriteBounds(w: BitWriter, bounds: seq<nat>)
    requires w.Valid() && ValidBounds(bounds)
    modifies w
    ensures w.Valid() && w.Content() == old(w.Content()) + BoundsBits(bounds, 0)
  {
    hide BitWriter.Valid, BitWriter.Content, I64Bits;
    ghost var goal := w.Content() + BoundsBits(bounds, 0);
    var prev: nat := 0;
    assert bounds[0..] == bounds;
    for k := 0 to |bounds|
      invariant w.Valid() && w.Content() + BoundsBits(bounds[k..], prev) == goal
    {
      ghost var before := w.Content();
      var b: int := bounds[k];
      assert bounds[k..][1..] == bounds[k + 1..];
      w.WriteI64((b - prev) % SPAN64);
      assert w.Content() + BoundsBits(bounds[k + 1..], bounds[k]) == before + BoundsBits(bounds[k..], prev);
      prev := bounds[k];
    }
    assert w.Content() + [] == goal;
  }

  lemma {:induction false} DeltaOfBounds(b: nat, prev: nat)
    requires b < SPAN64 / 2 && prev < SPAN64 / 2
    ensures var d: int := b; prev + Wrap((d - prev) % SPAN64) == b
  {
    var d: int := b;
    WrapUnique((d - prev) % SPAN64, d - prev);
  }

  lemma {:induction false} BoundsAhead(bounds: seq<nat>, prev: nat, tail: seq<Bit>)
    requires |bounds| > 0
    ensures var d: int := bounds[0];
            TakeI64(BoundsBits(bounds, prev) + tail)
            == Field((d - prev) % SPAN64, BoundsBits(bounds[1..], bounds[0]) + tail)
  {
    hide TakeI64, I64Bits;
    var d: int := bounds[0];
    var more := BoundsBits(bounds[1..], bounds[0]) + tail;
    I64ReadBack((d - prev) % SPAN64, more);
    assert BoundsBits(bounds, prev) + tail == I64Bits((d - prev) % SPAN64) + more;
  }

  /** Differences are added up; a sum beyond 64 bits is refused. */
  method ReadBounds(n: nat, r: BitReader, ghost bounds: seq<nat>, ghost tail: seq<Bit>)
    returns (result: Option<seq<nat>>)
    requires r.Valid()
    modifies r
    ensures r.Valid() && (result.Some? ==> |result.value| == n)
    ensures |bounds| == n && ValidBounds(bounds) && old(r.Rest()) == BoundsBits(bounds, 0) + tail
            && r.padding <= |tail| ==>
              result == Some(bounds) && r.Rest() == tail
  {
    hide BitReader.Valid, BitReader.Rest, I64Bits, TakeI64, BoundsBits, Wrap;
    ghost var good := |bounds| == n && ValidBounds(bounds) && r.Rest() == BoundsBits(bounds, 0) + tail
                      && r.padding <= |tail|;
    var got: seq<nat> := [];
    var acc: I64 := 0;
    assert bounds[0..] == bounds;
    for k := 0 to n
      invariant r.Valid() && |got| == k
      invariant good ==> |bounds| == n && acc == (if k == 0 then 0 else bounds[k - 1]) && got == bounds[..k]
      invariant good ==> r.Rest() == BoundsBits(bounds[k..], if k == 0 then 0 else bounds[k - 1]) + tail
    {
      if good {
        BoundsAhead(bounds[k..], acc, tail);
        assert bounds[k..][1..] == bounds[k + 1..];
        DeltaOfBounds(bounds[k], acc);
      }
      var delta := r.ReadI64();
      if delta.None? {
        return None;
      }
      var change: int := Wrap(delta.value);
      var sum := acc + change;
      if sum < MIN64 || sum > MAX64 {
        return None;
      }
      acc := sum;
      got := got + [sum % SPAN64];
    }
    if good {
      NoBounds(bounds[n..], n, bounds);
    }
    result := Some(got);
  }

  lemma {:induction false} NoBounds(rest: seq<nat>, n: nat, bounds: seq<nat>)
    requires n == |bounds| && rest == bounds[n..]
    ensures bounds[..n] == bounds && forall prev: nat :: BoundsBits(rest, prev) == []
  {
  }

  // --- The pre-tree: 4 bits for each length ---

  function NibbleBits(pre: seq<nat>): seq<Bit> {
    if |pre| > 0 then ToLsb(pre[0], 4) + NibbleBits(pre[1..]) else []
  }

  predicate FitNibbles(pre: seq<nat>) {
    |pre| == PRETREE_SYMBOLS && forall i :: 0 <= i < |pre| ==> pre[i] <= 15
  }

  method WriteNibbles(w: BitWriter, pre: seq<nat>)
    requires w.Valid()
    modifies w
    ensures w.Valid() && w.Content() == old(w.Content()) + NibbleBits(pre)
  {
    hide BitWriter.Valid, BitWriter.Content, ToLsb;
    ghost var goal := w.Content() + NibbleBits(pre);
    assert pre[0..] == pre;
    for k := 0 to |pre|
      invariant w.Valid() && w.Content() + NibbleBits(pre[k..]) == goal
    {
      ghost var before := w.Content();
      assert pre[k..][1..] == pre[k + 1..];
      w.WriteBits(pre[k], 4);
      assert w.Content() + NibbleBits(pre[k + 1..]) == before + NibbleBits(pre[k..]);
    }
    assert w.Content() + [] == goal;
  }

  lemma {:induction false} NibblesAhead(pre: seq<nat>, tail: seq<Bit>)
    requires |pre| > 0 && pre[0] <= 15
    ensures TakeField(NibbleBits(pre) + tail, 4) == Field(pre[0], NibbleBits(pre[1..]) + tail)
  {
    hide TakeField, ToLsb;
    var more := NibbleBits(pre[1..]) + tail;
    FieldReadBack(pre[0], 4, more) by { assert Pow2(4) == 16; }
    assert NibbleBits(pre) + tail == ToLsb(pre[0], 4) + more;
  }

  lemma {:induction false} NibbleBound(rest: seq<Bit>)
    ensures TakeField(rest, 4).Field? ==> TakeField(rest, 4).val <= 15
  {
    hide FromLsb;
    if |rest| >= 4 {
      FromLsbBound(rest[..4]);
      assert Pow2(4) == 16;
    }
  }

  method ReadNibbles(n: nat, r: BitReader, ghost pre: seq<nat>, ghost tail: seq<Bit>) returns (result: Option<seq<nat>>)
    requires r.Valid()
    modifies r
    ensures r.Valid() && (result.Some? ==> |result.value| == n && forall i :: 0 <= i < n ==> result.value[i] <= 15)
    ensures |pre| == n && (forall i :: 0 <= i < n ==> pre[i] <= 15) && old(r.Rest()) == NibbleBits(pre) + tail ==>
              result == Some(pre) && r.Rest() == tail
  {
    hide BitReader.Valid, BitReader.Rest, TakeField, NibbleBits;
    ghost var good := |pre| == n && (forall i :: 0 <= i < n ==> pre[i] <= 15) && r.Rest() == NibbleBits(pre) + tail;
    var got: seq<nat> := [];
    assert pre[0..] == pre;
    for k := 0 to n
      invariant r.Valid() && |got| == k && forall i :: 0 <= i < k ==> got[i] <= 15
      invariant good ==> |pre| == n && got == pre[..k] && r.Rest() == NibbleBits(pre[k..]) + tail
    {
      if good {
        NibblesAhead(pre[k..], tail);
        assert pre[k..][1..] == pre[k + 1..];
      }
      NibbleBound(r.Rest());
      var v := r.ReadBits(4);
      if v.None? {
        return None;
      }
      got := got + [v.value];
    }
    if good {
      NoNibbles(pre[n..], n, pre);
    }
    result := Some(got);
  }

  lemma {:induction false} NoNibbles(rest: seq<nat>, n: nat, pre: seq<nat>)
    requires n == |pre| && rest == pre[n..]
    ensures pre[..n] == pre && NibbleBits(rest) == []
  {
  }

  // --- The lengths of all segments ---

  function NoneBefore(): (r: seq<nat>)
    ensures FitLengths(r)
  {
    Repeat(0, TOTAL_LENGTHS)
  }

  /** Coded one after the other, each against the one before, the symbols give the lengths of all segments. */
  predicate SegmentsCoded(pre: seq<nat>, codes: seq<Codes>, prev: seq<nat>, symss: seq<seq<LengthSym>>)
    requires |prev| == TOTAL_LENGTHS
    decreases |codes|
  {
    && |symss| == |codes|
    && (|codes| > 0 ==>
          && FullCodes(codes[0]) && FitLengths(AllLengths(codes[0]))
          && SymsFit(pre, symss[0]) && ExtendAll([], symss[0], prev) == Some(AllLengths(codes[0]))
          && SegmentsCoded(pre, codes[1..], AllLengths(codes[0]), symss[1..]))
  }

  function SegmentsBits(pre: seq<nat>, symss: seq<seq<LengthSym>>): seq<Bit>
    requires forall k :: 0 <= k < |symss| ==> SymsFit(pre, symss[k])
  {
    if |symss| > 0 then SymsBits(pre, symss[0]) + SegmentsBits(pre, symss[1..]) else []
  }

  lemma {:induction false} CodedFit(pre: seq<nat>, codes: seq<Codes>, prev: seq<nat>, symss: seq<seq<LengthSym>>)
    requires |prev| == TOTAL_LENGTHS && SegmentsCoded(pre, codes, prev, symss)
    ensures forall k :: 0 <= k < |symss| ==> SymsFit(pre, symss[k])
    decreases |codes|
  {
    hide FullCodes, ExtendAll, SymsFit;
    if |codes| > 0 {
      CodedFit(pre, codes[1..], AllLengths(codes[0]), symss[1..]);
      forall k | 0 <= k < |symss| ensures SymsFit(pre, symss[k]) {
        assert k > 0 ==> symss[k] == symss[1..][k - 1];
      }
    }
  }

  method WriteSegments(pre: HuffmanTable, w: BitWriter, symss: seq<seq<LengthSym>>)
    requires w.Valid() && Usable(pre) && forall k :: 0 <= k < |symss| ==> SymsFit(pre.lengths, symss[k])
    modifies w
    ensures w.Valid() && w.Content() == old(w.Content()) + SegmentsBits(pre.lengths, symss)
  {
    hide BitWriter.Valid, BitWriter.Content, Usable, SymsBits, SymsFit;
    ghost var goal := w.Content() + SegmentsBits(pre.lengths, symss);
    assert symss[0..] == symss;
    for k := 0 to |symss|
      invariant w.Valid() && w.Content() + SegmentsBits(pre.lengths, symss[k..]) == goal
    {
      ghost var before := w.Content();
      assert symss[k..][1..] == symss[k + 1..];
      WriteSyms(pre, w, symss[k]);
      assert w.Content() + SegmentsBits(pre.lengths, symss[k + 1..]) == before + SegmentsBits(pre.lengths, symss[k..]);
    }
    assert w.Content() + [] == goal;
  }

  /** Tables from the joint list of lengths. */
  method TablesFor(all: seq<nat>) returns (t: SegmentTables)
    requires FitLengths(all)
    ensures UsableTables(t) && AllLengths(CodesOf(t)) == all
    ensures |t.main.lengths| == MAIN_SYMBOLS && |t.lengths.lengths| == LENGTH_SYMBOLS
  {
    hide Usable;
    var main := TableFor(all[..MAIN_SYMBOLS]);
    var lengths := TableFor(all[MAIN_SYMBOLS..MAIN_SYMBOLS + LENGTH_SYMBOLS]);
    var aligned := TableFor(all[MAIN_SYMBOLS + LENGTH_SYMBOLS..]);
    t := SegmentTables(main.value, lengths.value, aligned.value);
  }

  lemma {:induction false} SamePartition(c: Codes, d: Codes)
    requires AllLengths(c) == AllLengths(d) && |c.main| == |d.main| && |c.lengths| == |d.lengths|
    ensures c == d
  {
    var a, b := AllLengths(c), AllLengths(d);
    var m, n := |c.main|, |c.main| + |c.lengths|;
    assert c.main == a[..m] && d.main == b[..m];
    assert c.lengths == a[m..n] && d.lengths == b[m..n];
    assert c.aligned == a[n..] && d.aligned == b[n..];
  }

  ghost predicate SegmentsAhead(pre: seq<nat>, codes: seq<Codes>, prev: seq<nat>, symss: seq<seq<LengthSym>>,
                                rest: seq<Bit>, tail: seq<Bit>) {
    && |prev| == TOTAL_LENGTHS && LeftComplete(pre) && SegmentsCoded(pre, codes, prev, symss)
    && (forall k :: 0 <= k < |symss| ==> SymsFit(pre, symss[k]))
    && rest == SegmentsBits(pre, symss) + tail
  }

  lemma {:induction false} SegmentsAheadStep(pre: seq<nat>, codes: seq<Codes>, prev: seq<nat>,
                                             symss: seq<seq<LengthSym>>, rest: seq<Bit>, tail: seq<Bit>)
    returns (more: seq<Bit>)
    requires SegmentsAhead(pre, codes, prev, symss, rest, tail) && |codes| > 0
    ensures |symss| > 0 && FullCodes(codes[0]) && FitLengths(AllLengths(codes[0])) && |tail| <= |more|
    ensures SymsAhead(pre, [], symss[0], prev, AllLengths(codes[0]), rest, more)
    ensures SegmentsAhead(pre, codes[1..], AllLengths(codes[0]), symss[1..], more, tail)
  {
    hide LeftComplete, SymsBits, SymsFit, ExtendAll, FullCodes;
    more := SegmentsBits(pre, symss[1..]) + tail;
    assert rest == SymsBits(pre, symss[0]) + more;
  }

  method ReadSegments(n: nat, pre: HuffmanTable, r: BitReader, ghost codes: seq<Codes>,
                      ghost symss: seq<seq<LengthSym>>,
                      ghost tail: seq<Bit>)
    returns (result: Option<seq<SegmentTables>>)
    requires r.Valid() && Usable(pre)
    modifies r
    ensures r.Valid() && (result.Some? ==> |result.value| == n && AllUsable(result.value))
    ensures |codes| == n && SegmentsAhead(pre.lengths, codes, NoneBefore(), symss, old(r.Rest()), tail)
            && r.padding <= |tail| ==>
              result.Some? && r.Rest() == tail
              && forall k :: 0 <= k < n ==> CodesOf(result.value[k]) == codes[k]
  {
    hide BitReader.Valid, BitReader.Rest, Usable, UsableTables, SegmentsAhead, SymsAhead, FullCodes, CodesOf,
         AllLengths;
    ghost var good := |codes| == n && SegmentsAhead(pre.lengths, codes, NoneBefore(), symss, r.Rest(), tail)
                      && r.padding <= |tail|;
    var prev := NoneBefore();
    var tables: seq<SegmentTables> := [];
    assert codes[0..] == codes && symss[0..] == symss;
    ghost var left := symss;
    for k := 0 to n
      invariant r.Valid() && |tables| == k && AllUsable(tables) && |prev| == TOTAL_LENGTHS
      invariant good ==> |codes| == n && forall j :: 0 <= j < k ==> CodesOf(tables[j]) == codes[j]
      invariant good ==> SegmentsAhead(pre.lengths, codes[k..], prev, left, r.Rest(), tail)
    {
      ghost var more: seq<Bit>, syms: seq<LengthSym>, goal: seq<nat> := [], [], [];
      if good {
        more := SegmentsAheadStep(pre.lengths, codes[k..], prev, left, r.Rest(), tail);
        syms, goal := left[0], AllLengths(codes[k]);
        assert codes[k..][1..] == codes[k + 1..];
        left := left[1..];
      }
      var all := ReadLengths(pre, prev, r, syms, goal, more);
      if all.None? {
        return None;
      }
      var t := TablesFor(all.value);
      if good {
        SegmentSizes(codes[k]);
        SamePartition(CodesOf(t), codes[k]) by { TableSizes(t); }
      }
      tables, prev := tables + [t], all.value;
    }
    if good {
      SegmentsAheadEnd(pre.lengths, prev, left, r.Rest(), tail);
    }
    result := Some(tables);
  }

  lemma {:induction false} SegmentSizes(c: Codes)
    requires FullCodes(c)
    ensures |c.main| == MAIN_SYMBOLS && |c.lengths| == LENGTH_SYMBOLS
  {
  }

  lemma {:induction false} TableSizes(t: SegmentTables)
    ensures CodesOf(t).main == t.main.lengths && CodesOf(t).lengths == t.lengths.lengths
  {
  }

  lemma {:induction false} SegmentsAheadEnd(pre: seq<nat>, prev: seq<nat>, symss: seq<seq<LengthSym>>, rest: seq<Bit>,
                                            tail: seq<Bit>)
    requires SegmentsAhead(pre, [], prev, symss, rest, tail)
    ensures rest == tail
  {
  }

  // --- The whole header ---

  /** What the writer chose besides the code lengths: the pre-tree and the symbols of each segment. */
  datatype HeaderChoice = HeaderChoice(pre: seq<nat>, symss: seq<seq<LengthSym>>)

  ghost predicate HeaderFits(f: Framing, ch: HeaderChoice) {
    && 0 < |f.codes| == |f.bounds| <= MAX_SEGMENTS && ValidBounds(f.bounds)
    && FitNibbles(ch.pre) && LeftComplete(ch.pre) && SegmentsCoded(ch.pre, f.codes, NoneBefore(), ch.symss)
  }

  ghost function HeaderBits(f: Framing, ch: HeaderChoice): seq<Bit>
    requires HeaderFits(f, ch)
  {
    CodedFit(ch.pre, f.codes, NoneBefore(), ch.symss);
    I64Bits(|f.codes|) + (BoundsBits(f.bounds, 0) + (NibbleBits(ch.pre) + SegmentsBits(ch.pre, ch.symss)))
  }

  /** Reading undoes writing; anything else yields tables that can be used, or an error. */
  method ReadComposite(r: BitReader, ghost f: Framing, ghost ch: HeaderChoice, ghost tail: seq<Bit>)
    returns (result: Option<(seq<SegmentTables>, seq<nat>)>)
    requires r.Valid()
    modifies r
    ensures r.Valid()
    ensures result.Some? ==> 0 < |result.value.0| == |result.value.1| <= MAX_SEGMENTS && AllUsable(result.value.0)
    ensures HeaderFits(f, ch) && old(r.Rest()) == HeaderBits(f, ch) + tail && r.padding <= |tail| ==>
              result.Some? && FramingOf(result.value.0, result.value.1) == f && r.Rest() == tail
  {
    hide BitReader.Valid, BitReader.Rest, Usable, UsableTables, SegmentsAhead, CodesOf, LeftComplete, FitNibbles,
         I64Bits, TakeI64, BoundsBits, NibbleBits, SegmentsBits, ValidBounds, FramingOf;
    ghost var good := HeaderFits(f, ch) && r.Rest() == HeaderBits(f, ch) + tail && r.padding <= |tail|;
    ghost var after1: seq<Bit>, after2: seq<Bit>, after3: seq<Bit> := [], [], [];
    if good {
      after1, after2, after3 := HeaderParts(f, ch, r.Rest(), tail);
    }
    var n := r.ReadI64();
    if n.None? || n.value == 0 || n.value > MAX_SEGMENTS {
      return None;
    }
    var bounds := ReadBounds(n.value, r, f.bounds, after2);
    if bounds.None? {
      return None;
    }
    var pre := ReadNibbles(PRETREE_SYMBOLS, r, ch.pre, after3);
    if pre.None? {
      return None;
    }
    var pretree := TableFor(pre.value);
    if pretree.None? {
      return None;
    }
    var tables := ReadSegments(n.value, pretree.value, r, f.codes, ch.symss, tail);
    if tables.None? {
      return None;
    }
    if good {
      SameFraming(f, tables.value, bounds.value);
    }
    result := Some((tables.value, bounds.value));
  }

  lemma {:induction false} SameFraming(f: Framing, tables: seq<SegmentTables>, bounds: seq<nat>)
    requires |tables| == |f.codes| && bounds == f.bounds
    requires forall k :: 0 <= k < |tables| ==> CodesOf(tables[k]) == f.codes[k]
    ensures FramingOf(tables, bounds) == f
  {
    assert FramingOf(tables, bounds).codes == f.codes;
  }

  lemma {:induction false} HeaderParts(f: Framing, ch: HeaderChoice, rest: seq<Bit>, tail: seq<Bit>)
    returns (after1: seq<Bit>, after2: seq<Bit>, after3: seq<Bit>)
    requires HeaderFits(f, ch) && rest == HeaderBits(f, ch) + tail
    ensures |tail| <= |after3| <= |after2| <= |after1|
    ensures TakeI64(rest) == Field(|f.codes|, after1) && 0 < |f.codes| <= MAX_SEGMENTS
    ensures |f.bounds| == |f.codes| && ValidBounds(f.bounds) && after1 == BoundsBits(f.bounds, 0) + after2
    ensures |ch.pre| == PRETREE_SYMBOLS && (forall i :: 0 <= i < |ch.pre| ==> ch.pre[i] <= 15) && ValidLefts(ch.pre)
    ensures after2 == NibbleBits(ch.pre) + after3
    ensures SegmentsAhead(ch.pre, f.codes, NoneBefore(), ch.symss, after3, tail)
  {
    hide LeftKraft, I64Bits, TakeI64, BoundsBits, NibbleBits, SegmentsBits, ValidBounds, SymsFit, SegmentsCoded;
    CodedFit(ch.pre, f.codes, NoneBefore(), ch.symss);
    after3 := SegmentsBits(ch.pre, ch.symss) + tail;
    after2 := NibbleBits(ch.pre) + after3;
    after1 := BoundsBits(f.bounds, 0) + after2;
    I64ReadBack(|f.codes|, after1);
    assert rest == I64Bits(|f.codes|) + after1;
  }

  // --- Choosing the header ---

  lemma {:induction false} FullFits(c: Codes)
    requires FullCodes(c)
    ensures FitLengths(AllLengths(c))
  {
    hide LeftKraft;
  }

  function Before(codes: seq<Codes>, k: nat): seq<nat>
    requires k <= |codes|
  {
    if k == 0 then NoneBefore() else AllLengths(codes[k - 1])
  }

  predicate Chosen(codes: seq<Codes>, symss: seq<seq<LengthSym>>) {
    && |symss| <= |codes|
    && forall k :: 0 <= k < |symss| ==>
         && |Before(codes, k)| == TOTAL_LENGTHS && ValidSyms(symss[k])
         && ExtendAll([], symss[k], Before(codes, k)) == Some(AllLengths(codes[k]))
  }

  lemma {:induction false} ChosenCoded(pre: seq<nat>, codes: seq<Codes>, symss: seq<seq<LengthSym>>, k: nat)
    requires Chosen(codes, symss) && |symss| == |codes| && k <= |codes|
    requires forall j :: 0 <= j < |codes| ==> FullCodes(codes[j]) && SymsFit(pre, symss[j])
    ensures |Before(codes, k)| == TOTAL_LENGTHS && SegmentsCoded(pre, codes[k..], Before(codes, k), symss[k..])
    decreases |codes| - k
  {
    hide LeftComplete, ExtendAll, SymsFit, ValidSyms;
    if k > 0 {
      FullFits(codes[k - 1]);
    }
    if k < |codes| {
      FullFits(codes[k]);
      ChosenCoded(pre, codes, symss, k + 1);
      assert codes[k..][1..] == codes[k + 1..] && symss[k..][1..] == symss[k + 1..];
    }
  }

  /** How often `s` occurs. */
  function Occurrences(syms: seq<LengthSym>, s: nat): nat {
    if |syms| > 0 then Occurrences(syms[..|syms| - 1], s) + (if syms[|syms| - 1].sym == s then 1 else 0) else 0
  }

  method CountSyms(freqs: seq<nat>, syms: seq<LengthSym>) returns (r: seq<nat>)
    requires |freqs| == PRETREE_SYMBOLS && ValidSyms(syms)
    ensures |r| == |freqs| && forall s :: 0 <= s < |r| ==> r[s] == freqs[s] + Occurrences(syms, s)
  {
    r := freqs;
    assert syms[..0] == [];
    for k := 0 to |syms|
      invariant |r| == |freqs| && forall s :: 0 <= s < |r| ==> r[s] == freqs[s] + Occurrences(syms[..k], s)
    {
      assert ValidSym(syms[k]) && syms[..k + 1][..k] == syms[..k];
      r := r[syms[k].sym := r[syms[k].sym] + 1];
    }
    assert syms[..|syms|] == syms;
  }

  lemma {:induction false} Occurs(syms: seq<LengthSym>, k: nat)
    requires k < |syms|
    ensures Occurrences(syms, syms[k].sym) > 0
  {
    if k < |syms| - 1 {
      Occurs(syms[..|syms| - 1], k);
    }
  }

  predicate HasCount(freqs: seq<nat>, l: LengthSym) {
    l.sym < |freqs| && freqs[l.sym] > 0
  }

  /** Each symbol chosen so far has been counted. */
  predicate Counted(freqs: seq<nat>, symss: seq<seq<LengthSym>>) {
    && |freqs| == PRETREE_SYMBOLS
    && forall k, i :: 0 <= k < |symss| && 0 <= i < |symss[k]| ==>
         HasCount(freqs, symss[k][i])
  }

  method ChooseAll(segments: seq<SegmentTables>, ghost codes: seq<Codes>)
    returns (symss: seq<seq<LengthSym>>, freqs: seq<nat>)
    requires |codes| == |segments| > 0
    requires forall k :: 0 <= k < |codes| ==> codes[k] == CodesOf(segments[k]) && FullCodes(codes[k])
    ensures |symss| == |codes| && Chosen(codes, symss) && Counted(freqs, symss) && |symss[0]| > 0
  {
    hide LeftComplete, ExtendAll, CodesOf, AllLengths, Occurrences;
    symss := [];
    freqs := Repeat(0, PRETREE_SYMBOLS);
    var prev := NoneBefore();
    for k := 0 to |segments|
      invariant |symss| == k && Chosen(codes, symss) && Counted(freqs, symss) && (k > 0 ==> |symss[0]| > 0)
      invariant prev == Before(codes, k) && FitLengths(prev)
    {
      FullFits(codes[k]);
      var all := AllLengths(CodesOf(segments[k]));
      var syms := ChooseSyms(all, prev);
      var r := CountSyms(freqs, syms);
      CountedNext(freqs, symss, syms, r);
      freqs, symss, prev := r, symss + [syms], all;
    }
  }

  lemma {:induction false} CountedNext(freqs: seq<nat>, symss: seq<seq<LengthSym>>, syms: seq<LengthSym>, r: seq<nat>)
    requires Counted(freqs, symss) && ValidSyms(syms)
    requires |r| == |freqs| && forall s :: 0 <= s < |r| ==> r[s] == freqs[s] + Occurrences(syms, s)
    ensures Counted(r, symss + [syms])
  {
    var all := symss + [syms];
    forall k, i | 0 <= k < |all| && 0 <= i < |all[k]| ensures HasCount(r, all[k][i]) {
      if k == |symss| {
        Occurs(syms, i);
        assert ValidSym(syms[i]);
      } else {
        assert HasCount(freqs, symss[k][i]);
      }
    }
  }

  /** Writes the header of any list of complete tables. */
  method WriteComposite(w: BitWriter, segments: seq<SegmentTables>, bounds: seq<nat>) returns (ghost ch: HeaderChoice)
    requires w.Valid() && 0 < |segments| == |bounds| <= MAX_SEGMENTS && ValidBounds(bounds)
    requires forall k :: 0 <= k < |segments| ==> FullCodes(CodesOf(segments[k]))
    modifies w
    ensures HeaderFits(FramingOf(segments, bounds), ch)
    ensures w.Valid() && w.Content() == old(w.Content()) + HeaderBits(FramingOf(segments, bounds), ch)
  {
    hide BitWriter.Valid, BitWriter.Content, I64Bits, BoundsBits, NibbleBits, SegmentsBits, ValidBounds, LeftComplete,
         Usable, CodesOf, FullCodes, Chosen, SymsFit;
    ghost var f := FramingOf(segments, bounds);
    ghost var before := w.Content();
    w.WriteI64(|segments|);
    WriteBounds(w, bounds);
    var symss, freqs := ChooseAll(segments, f.codes);
    assert HasCount(freqs, symss[0][0]);
    var pretree := FrequencyTable(freqs);
    ch := HeaderChoice(pretree.lengths, symss);
    CountedFit(freqs, symss, pretree.lengths, f.codes);
    ChosenCoded(pretree.lengths, f.codes, symss, 0);
    assert f.codes[0..] == f.codes && symss[0..] == symss;
    WriteNibbles(w, pretree.lengths);
    WriteSegments(pretree, w, symss);
    ghost var bounding := BoundsBits(bounds, 0);
    JoinParts(before, I64Bits(|segments|), bounding, NibbleBits(pretree.lengths), SegmentsBits(pretree.lengths, symss));
  }

  lemma {:induction false} JoinParts(before: seq<Bit>, a: seq<Bit>, b: seq<Bit>, c: seq<Bit>, d: seq<Bit>)
    ensures before + a + b + c + d == before + (a + (b + (c + d)))
  {
  }

  lemma {:induction false} CountedFit(freqs: seq<nat>, symss: seq<seq<LengthSym>>, pre: seq<nat>, codes: seq<Codes>)
    requires Counted(freqs, symss) && |pre| == |freqs| && Chosen(codes, symss)
    requires forall s :: 0 <= s < |freqs| && freqs[s] > 0 ==> pre[s] > 0
    ensures forall k :: 0 <= k < |symss| ==> SymsFit(pre, symss[k])
  {
    hide ExtendAll, AllLengths, Before;
    forall k | 0 <= k < |symss| ensures SymsFit(pre, symss[k]) {
      assert ValidSyms(symss[k]);
      forall i | 0 <= i < |symss[k]| ensures SymFits(pre, symss[k][i]) {
        assert ValidSym(symss[k][i]) && HasCount(freqs, symss[k][i]);
      }
    }
  }
}
