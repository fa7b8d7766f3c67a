/** Rift tables in the patch stream: a flag, two number codes, a count, and the entries as differences. */
module RiftCoding {
  import opened Powers
  import opened BitStrings
  import opened LsbBits
  import opened Rift
  import opened CanonicalCode
  import opened LeftCode
  import opened BitReading
  import opened BitWriting
  import opened CtzTable
  import opened MatchCodec
  import opened FrequencyCodes
  import opened CompositeFraming
  import opened IntCoding
  import HuffmanBuild

  // --- The header of a number code ---

  /** Lengths that fit the header: one nibble each, holding the length less 1. */
  predicate HeaderLengths(lens: seq<nat>) {
    |lens| == INT_SYMBOLS && forall i :: 0 <= i < |lens| ==> 1 <= lens[i] <= 16
  }

  function Lowered(lens: seq<nat>): (r: seq<nat>)
    requires forall i :: 0 <= i < |lens| ==> lens[i] >= 1
    ensures |r| == |lens| && forall i :: 0 <= i < |r| ==> r[i] == lens[i] - 1
  {
    seq(|lens|, i requires 0 <= i < |lens| => lens[i] - 1)
  }

  /** Both signs in full, and no default lengths. */
  function IntHeaderBits(lens: seq<nat>): seq<Bit>
    requires HeaderLengths(lens)
  {
    ToLsb(INT_HALF, 8) + (ToLsb(INT_HALF, 8) + (ToLsb(0, 8)
    + (NibbleBits(Lowered(lens[..INT_HALF])) + (NibbleBits(Lowered(lens[INT_HALF..])) + ToLsb(0, 4)))))
  }

  method WriteIntHeader(w: BitWriter, lens: seq<nat>)
    requires w.Valid() && HeaderLengths(lens)
    modifies w
    ensures w.Valid() && w.Content() == old(w.Content()) + IntHeaderBits(lens)
  {
    hide BitWriter.Valid, BitWriter.Content, ToLsb, NibbleBits;
    ghost var before := w.Content();
    w.WriteBits(INT_HALF, 8);
    w.WriteBits(INT_HALF, 8);
    w.WriteBits(0, 8);
    WriteNibbles(w, Lowered(lens[..INT_HALF]));
    WriteNibbles(w, Lowered(lens[INT_HALF..]));
    w.WriteBits(0, 4);
    var half := ToLsb(INT_HALF, 8);
    JoinSix(before, half, half, ToLsb(0, 8), NibbleBits(Lowered(lens[..INT_HALF])),
            NibbleBits(Lowered(lens[INT_HALF..])), ToLsb(0, 4));
  }

  lemma {:induction false} JoinSix(p: seq<Bit>, a: seq<Bit>, b: seq<Bit>, c: seq<Bit>, d: seq<Bit>, e: seq<Bit>,
                                   f: seq<Bit>)
    ensures p + a + b + c + d + e + f == p + (a + (b + (c + (d + (e + f)))))
  {
    JoinParts(p + a, b, c, d, e + f);
    assert p + a + b + c + d + e + f == p + a + b + c + d + (e + f);
  }

  predicate SmallLengths(lens: seq<nat>) {
    |lens| == INT_SYMBOLS && forall i :: 0 <= i < |lens| ==> lens[i] <= 16
  }

  /** Lengths that are not listed: runs of one length, each run one bit shorter than the one before. */
  method FillDefaults(lens: seq<nat>, from: nat, to: nat, first: nat, count: nat, reset: nat) returns (r: seq<nat>)
    requires SmallLengths(lens) && from <= to <= INT_SYMBOLS && first <= 16
    ensures SmallLengths(r) && forall i :: 0 <= i < |r| && !(from <= i < to) ==> r[i] == lens[i]
  {
    r := lens;
    var len, remaining := first, count;
    for i := from to to
      invariant SmallLengths(r) && len <= 16
      invariant forall j :: 0 <= j < |r| && !(from <= j < i) ==> r[j] == lens[j]
    {
      if remaining == 0 {
        len := if len > 0 then len - 1 else 0;
        remaining := if reset > i then reset - i else 0;
      }
      r := r[i := len];
      remaining := if remaining > 0 then remaining - 1 else 0;
    }
  }

  function Raise(nibbles: seq<nat>): (r: seq<nat>)
    ensures |r| == |nibbles| && forall i :: 0 <= i < |r| ==> r[i] == nibbles[i] + 1
  {
    seq(|nibbles|, i requires 0 <= i < |nibbles| => nibbles[i] + 1)
  }

  lemma {:induction false} ThreeBytes(lens: seq<nat>, rest: seq<Bit>, tail: seq<Bit>)
    returns (a: seq<Bit>, b: seq<Bit>, c: seq<Bit>, d: seq<Bit>, e: seq<Bit>)
    requires HeaderLengths(lens) && rest == IntHeaderBits(lens) + tail
    ensures TakeField(rest, 8) == Field(INT_HALF, a) && TakeField(a, 8) == Field(INT_HALF, b)
    ensures TakeField(b, 8) == Field(0, c) && c == NibbleBits(Lowered(lens[..INT_HALF])) + d
    ensures d == NibbleBits(Lowered(lens[INT_HALF..])) + e && TakeField(e, 4) == Field(0, tail)
  {
    hide TakeField, ToLsb, NibbleBits, Pow2;
    PowerTable();
    e := ToLsb(0, 4) + tail;
    d := NibbleBits(Lowered(lens[INT_HALF..])) + e;
    c := NibbleBits(Lowered(lens[..INT_HALF])) + d;
    b := ToLsb(0, 8) + c;
    a := ToLsb(INT_HALF, 8) + b;
    FieldReadBack(INT_HALF, 8, a);
    FieldReadBack(INT_HALF, 8, b);
    FieldReadBack(0, 8, c);
    FieldReadBack(0, 4, tail);
    assert rest == ToLsb(INT_HALF, 8) + a;
  }

  lemma {:induction false} LoweredRaised(lens: seq<nat>)
    requires HeaderLengths(lens)
    ensures Raise(Lowered(lens[..INT_HALF])) + Raise(Lowered(lens[INT_HALF..])) == lens
    ensures forall i :: 0 <= i < INT_HALF ==> Lowered(lens[..INT_HALF])[i] <= 15
    ensures forall i :: 0 <= i < INT_HALF ==> Lowered(lens[INT_HALF..])[i] <= 15
  {
  }

  /** The code read from its header; what the writer wrote comes back. */
  method ReadIntHeader(r: BitReader, ghost lens: seq<nat>, ghost tail: seq<Bit>) returns (t: Option<HuffmanTable>)
    requires r.Valid()
    modifies r
    ensures r.Valid() && (t.Some? ==> Usable(t.value) && |t.value.lengths| == INT_SYMBOLS)
    ensures HeaderLengths(lens) && old(r.Rest()) == IntHeaderBits(lens) + tail ==>
              t.Some? && t.value.lengths == lens && r.Rest() == tail
  {
    hide BitReader.Valid, BitReader.Rest, TakeField, NibbleBits, Usable, IntHeaderBits;
    ghost var good := HeaderLengths(lens) && r.Rest() == IntHeaderBits(lens) + tail;
    ghost var d: seq<Bit>, e: seq<Bit>, low: seq<nat>, high: seq<nat> := [], [], [], [];
    if good {
      ghost var a, b, c;
      a, b, c, d, e := ThreeBytes(lens, r.Rest(), tail);
      low, high := Lowered(lens[..INT_HALF]), Lowered(lens[INT_HALF..]);
      LoweredRaised(lens);
    }
    var pos := r.ReadBits(8);
    if pos.None? {
      return None;
    }
    var neg := r.ReadBits(8);
    if neg.None? {
      return None;
    }
    var def := r.ReadBits(8);
    if def.None? || pos.value > INT_HALF || neg.value > INT_HALF || def.value > INT_SYMBOLS - pos.value - neg.value {
      return None;
    }
    var first := ReadNibbles(pos.value, r, low, d);
    if first.None? {
      return None;
    }
    var second := ReadNibbles(neg.value, r, high, e);
    if second.None? {
      return None;
    }
    NibbleBound(r.Rest());
    var last := r.ReadBits(4);
    if last.None? {
      return None;
    }
    var all := AssembleLengths(first.value, second.value, last.value + 1, def.value);
    t := TableFor(all);
    if good {
      assert all == lens;
    }
  }

  method AssembleLengths(first: seq<nat>, second: seq<nat>, len: nat, count: nat) returns (all: seq<nat>)
    requires |first| <= INT_HALF && |second| <= INT_HALF && len <= 16
    requires (forall i :: 0 <= i < |first| ==> first[i] <= 15) && (forall i :: 0 <= i < |second| ==> second[i] <= 15)
    ensures SmallLengths(all) && ValidLefts(all)
    ensures |first| == |second| == INT_HALF ==> all == Raise(first) + Raise(second)
  {
    var listed := Raise(first) + Repeat(0, INT_HALF - |first|) + Raise(second) + Repeat(0, INT_HALF - |second|);
    all := FillDefaults(listed, |first|, INT_HALF, len, count, INT_SYMBOLS - |first| - |second|);
    var used := INT_HALF - |first|;
    var left := if count > used then count - used else 0;
    all := FillDefaults(all, INT_HALF + |second|, INT_SYMBOLS, len, left, INT_SYMBOLS);
    if |first| == |second| == INT_HALF {
      assert listed == Raise(first) + Raise(second);
    }
  }

  // --- The entries ---

  /** The two codes that the writer chose. */
  datatype RiftChoice = RiftChoice(src: seq<nat>, dst: seq<nat>)

  predicate CodesFit(ch: RiftChoice) {
    && IntLengths(ch.src) && IntLengths(ch.dst) && HeaderLengths(ch.src) && HeaderLengths(ch.dst)
  }

  /** How far a value moved, around the end if need be. */
  function Step64(to: I64, from: I64): I64 {
    var t: int := to;
    Wrap(t - from)
  }

  /** Each entry as the change of its source and the change of its offset. */
  function EntriesBits(ch: RiftChoice, t: Table, src: I64, dst: I64): seq<Bit>
    requires CodesFit(ch)
  {
    if |t| > 0 then
      NumberBits(ch.src, Step64(t[0].source, src)) + (NumberBits(ch.dst, Step64(Delta(t[0]), dst))
      + EntriesBits(ch, t[1..], t[0].source, Delta(t[0])))
    else []
  }

  function RiftBits(ch: RiftChoice, t: Table): seq<Bit>
    requires (|t| > 0 ==> CodesFit(ch)) && |t| < SPAN64
  {
    if |t| == 0 then [0]
    else [1] + (IntHeaderBits(ch.src) + (IntHeaderBits(ch.dst) + (I64Bits(|t|) + EntriesBits(ch, t, 0, 0))))
  }

  /** At least one bit for each of the two numbers. */
  lemma {:induction false} EntriesLong(ch: RiftChoice, t: Table, src: I64, dst: I64)
    requires CodesFit(ch)
    ensures |EntriesBits(ch, t, src, dst)| >= |t|
  {
    hide NumberBits, CodesFit, IntLengths, HeaderLengths, TakeNumber, Wrap;
    if |t| > 0 {
      assert CodesFit(ch) ==> IntLengths(ch.src) && IntLengths(ch.dst) by { FitsBoth(ch); }
      NumberReadBack(ch.src, Step64(t[0].source, src), []);
      EntriesLong(ch, t[1..], t[0].source, Delta(t[0]));
    }
  }

  lemma {:induction false} FitsBoth(ch: RiftChoice)
    requires CodesFit(ch)
    ensures IntLengths(ch.src) && IntLengths(ch.dst) && HeaderLengths(ch.src) && HeaderLengths(ch.dst)
    ensures LeftComplete(ch.src) && LeftComplete(ch.dst) && |ch.src| == |ch.dst| == INT_SYMBOLS
  {
  }

  lemma {:induction false} StepBack(to: I64, from: I64)
    ensures Wrap(from + Step64(to, from)) == to
  {
    var t: int := to;
    WrapUnique(from + Step64(to, from), to);
  }

  lemma {:induction false} TargetBack(e: Entry)
    ensures Wrap(Delta(e) + e.source) == e.target
  {
    WrapUnique(Delta(e) + e.source, e.target);
  }

  /** The two numbers of the first entry come next. */
  lemma {:induction false} EntryAhead(ch: RiftChoice, t: Table, src: I64, dst: I64, rest: seq<Bit>, tail: seq<Bit>)
    returns (mid: seq<Bit>, more: seq<Bit>)
    requires CodesFit(ch) && |t| > 0 && rest == EntriesBits(ch, t, src, dst) + tail
    ensures TakeNumber(ch.src, rest) == Number(Step64(t[0].source, src), mid)
    ensures TakeNumber(ch.dst, mid) == Number(Step64(Delta(t[0]), dst), more)
    ensures |tail| <= |more| <= |mid| && more == EntriesBits(ch, t[1..], t[0].source, Delta(t[0])) + tail
  {
    hide NumberBits, CodesFit, IntLengths, HeaderLengths, TakeNumber, Wrap;
    FitsBoth(ch);
    var a, b := Step64(t[0].source, src), Step64(Delta(t[0]), dst);
    more := EntriesBits(ch, t[1..], t[0].source, Delta(t[0])) + tail;
    mid := NumberBits(ch.dst, b) + more;
    NumberReadBack(ch.src, a, mid);
    NumberReadBack(ch.dst, b, more);
    assert rest == NumberBits(ch.src, a) + mid;
  }

  method WriteEntries(w: BitWriter, src: HuffmanTable, dst: HuffmanTable, t: Table, ghost ch: RiftChoice)
    requires w.Valid() && Usable(src) && Usable(dst) && ch == RiftChoice(src.lengths, dst.lengths) && CodesFit(ch)
    modifies w
    ensures w.Valid() && w.Content() == old(w.Content()) + EntriesBits(ch, t, 0, 0)
  {
    hide BitWriter.Valid, BitWriter.Content, Usable, NumberBits, CodesFit, IntLengths, HeaderLengths, Wrap;
    FitsBoth(ch);
    ghost var goal := w.Content() + EntriesBits(ch, t, 0, 0);
    assert t[0..] == t;
    var srcAcc: I64, dstAcc: I64 := 0, 0;
    for k := 0 to |t|
      invariant w.Valid() && w.Content() + EntriesBits(ch, t[k..], srcAcc, dstAcc) == goal
    {
      ghost var before := w.Content();
      assert t[k..][1..] == t[k + 1..] && t[k..][0] == t[k];
      var a, b := Step64(t[k].source, srcAcc), Step64(Delta(t[k]), dstAcc);
      WriteNumber(src, w, a);
      WriteNumber(dst, w, b);
      JoinThree(before, NumberBits(ch.src, a), NumberBits(ch.dst, b),
                EntriesBits(ch, t[k + 1..], t[k].source, Delta(t[k])));
      srcAcc, dstAcc := t[k].source, Delta(t[k]);
    }
    assert w.Content() + [] == goal;
  }

  lemma {:induction false} JoinThree(p: seq<Bit>, a: seq<Bit>, b: seq<Bit>, c: seq<Bit>)
    ensures p + a + b + c == p + (a + (b + c))
  {
  }

  /** Counts start at 1, so that every number has a code. */
  method CountNumbers(values: seq<I64>) returns (freqs: seq<nat>)
    ensures |freqs| == INT_SYMBOLS && forall s :: 0 <= s < |freqs| ==> freqs[s] >= 1
  {
    hide ValueCode;
    freqs := Repeat(1, INT_SYMBOLS);
    for k := 0 to |values|
      invariant |freqs| == INT_SYMBOLS && forall s :: 0 <= s < |freqs| ==> freqs[s] >= 1
    {
      ValueCodeFits(values[k]);
      var c := ValueToSymbol(values[k]);
      freqs := freqs[c.sym := freqs[c.sym] + 1];
    }
  }

  method CodeForValues(values: seq<I64>) returns (t: HuffmanTable)
    ensures Usable(t) && IntLengths(t.lengths) && HeaderLengths(t.lengths)
  {
    hide Usable, LeftComplete;
    var freqs := CountNumbers(values);
    assert freqs[0] > 0;
    t := FrequencyTable(freqs);
  }

  /** The changes from entry to entry. */
  method Steps(t: Table) returns (srcs: seq<I64>, dsts: seq<I64>)
    ensures |srcs| == |dsts| == |t|
  {
    srcs, dsts := [], [];
    var srcAcc: I64, dstAcc: I64 := 0, 0;
    for k := 0 to |t|
      invariant |srcs| == |dsts| == k
    {
      srcs, dsts := srcs + [Step64(t[k].source, srcAcc)], dsts + [Step64(Delta(t[k]), dstAcc)];
      srcAcc, dstAcc := t[k].source, Delta(t[k]);
    }
  }

  method WriteRift(w: BitWriter, t: Table) returns (ghost ch: RiftChoice)
    requires w.Valid() && |t| < SPAN64 / 2
    modifies w
    ensures |t| > 0 ==> CodesFit(ch)
    ensures w.Valid() && w.Content() == old(w.Content()) + RiftBits(ch, t)
  {
    hide BitWriter.Valid, BitWriter.Content, Usable, CodesFit, IntLengths, HeaderLengths, I64Bits, EntriesBits,
         IntHeaderBits;
    ch := RiftChoice([], []);
    if |t| == 0 {
      w.WriteBits(0, 1);
      FlagBit();
      return;
    }
    ghost var before := w.Content();
    w.WriteBits(1, 1);
    FlagBit();
    var srcs, dsts := Steps(t);
    var src := CodeForValues(srcs);
    var dst := CodeForValues(dsts);
    ch := RiftChoice(src.lengths, dst.lengths);
    BothFit(ch);
    WriteIntHeader(w, src.lengths);
    WriteIntHeader(w, dst.lengths);
    w.WriteI64(|t|);
    WriteEntries(w, src, dst, t, ch);
    JoinParts(before + [1], IntHeaderBits(ch.src), IntHeaderBits(ch.dst), I64Bits(|t|), EntriesBits(ch, t, 0, 0));
    assert w.Content() == before + RiftBits(ch, t);
  }

  lemma {:induction false} FlagBit()
    ensures ToLsb(0, 1) == [0] && ToLsb(1, 1) == [1]
  {
    assert ToLsb(0, 0) == [];
  }

  lemma {:induction false} BothFit(ch: RiftChoice)
    requires IntLengths(ch.src) && IntLengths(ch.dst) && HeaderLengths(ch.src) && HeaderLengths(ch.dst)
    ensures CodesFit(ch)
  {
  }

  lemma {:induction false} FlagAhead(b: Bit, more: seq<Bit>)
    ensures TakeField([b] + more, 1) == Field(b, more)
  {
    assert ([b] + more)[..1] == [b] && ([b] + more)[1..] == more;
    HuffmanBuild.OneBit(b);
  }

  lemma {:induction false} RiftParts(ch: RiftChoice, t: Table, rest: seq<Bit>, tail: seq<Bit>, padding: nat)
    returns (a: seq<Bit>, b: seq<Bit>, c: seq<Bit>, d: seq<Bit>)
    requires 0 < |t| < SPAN64 / 2 && CodesFit(ch) && rest == RiftBits(ch, t) + tail && padding <= |tail|
    ensures HeaderLengths(ch.src) && HeaderLengths(ch.dst) && LeftComplete(ch.src) && LeftComplete(ch.dst)
    ensures TakeField(rest, 1) == Field(1, a) && a == IntHeaderBits(ch.src) + b && b == IntHeaderBits(ch.dst) + c
    ensures TakeI64(c) == Field(|t|, d) && padding <= |d| && d == EntriesBits(ch, t, 0, 0) + tail
    ensures |t| <= Remaining(d, padding)
  {
    hide TakeField, TakeI64, I64Bits, EntriesBits, IntHeaderBits, CodesFit, HeaderLengths, LeftComplete;
    FitsBoth(ch);
    d := EntriesBits(ch, t, 0, 0) + tail;
    c := I64Bits(|t|) + d;
    b := IntHeaderBits(ch.dst) + c;
    a := IntHeaderBits(ch.src) + b;
    assert rest == [1] + a;
    FlagAhead(1, a);
    I64ReadBack(|t|, d);
    EntriesLong(ch, t, 0, 0);
  }

  /** The entries, added up; every sum wraps. */
  method ReadEntries(n: nat, src: HuffmanTable, dst: HuffmanTable, r: BitReader, ghost ch: RiftChoice, ghost t: Table,
                     ghost tail: seq<Bit>)
    returns (result: Option<Table>)
    requires r.Valid() && Usable(src) && Usable(dst) && |src.lengths| == |dst.lengths| == INT_SYMBOLS
    modifies r
    ensures r.Valid()
    ensures CodesFit(ch) && ch == RiftChoice(src.lengths, dst.lengths) && |t| == n && r.padding <= |tail|
            && old(r.Rest()) == EntriesBits(ch, t, 0, 0) + tail ==>
              result == Some(t) && r.Rest() == tail
  {
    hide BitReader.Valid, BitReader.Rest, Usable, CodesFit, TakeNumber, EntriesBits, Wrap;
    ghost var good := CodesFit(ch) && ch == RiftChoice(src.lengths, dst.lengths) && |t| == n && r.padding <= |tail|
                      && r.Rest() == EntriesBits(ch, t, 0, 0) + tail;
    var got: Table := [];
    var srcAcc: I64, dstAcc: I64 := 0, 0;
    assert t[0..] == t;
    for k := 0 to n
      invariant r.Valid() && (good ==> |t| == n && got == t[..k])
      invariant good ==> r.Rest() == EntriesBits(ch, t[k..], srcAcc, dstAcc) + tail
    {
      if good {
        FitsBoth(ch);
        ghost var mid, more := EntryAhead(ch, t[k..], srcAcc, dstAcc, r.Rest(), tail);
        assert t[k..][1..] == t[k + 1..];
        StepBack(t[k].source, srcAcc);
        StepBack(Delta(t[k]), dstAcc);
        TargetBack(t[k]);
      }
      var a := ReadNumber(src, r);
      if a.None? {
        return None;
      }
      srcAcc := Wrap(srcAcc + a.value);
      var b := ReadNumber(dst, r);
      if b.None? {
        return None;
      }
      dstAcc := Wrap(dstAcc + b.value);
      got := got + [Entry(srcAcc, Wrap(dstAcc + srcAcc))];
    }
    if good {
      NoEntries(ch, t, n, srcAcc, dstAcc);
    }
    result := Some(got);
  }

  lemma {:induction false} NoEntries(ch: RiftChoice, t: Table, n: nat, src: I64, dst: I64)
    requires CodesFit(ch) && n == |t|
    ensures t[..n] == t && EntriesBits(ch, t[n..], src, dst) == []
  {
  }

  /** A table comes back as it was written, in order of its sources; a count above the bits that are left is refused. */
  method ReadRift(r: BitReader, ghost ch: RiftChoice, ghost t: Table, ghost tail: seq<Bit>)
    returns (result: Option<Table>)
    requires r.Valid()
    modifies r
    ensures r.Valid()
    ensures |t| < SPAN64 / 2 && (|t| > 0 ==> CodesFit(ch)) && r.padding <= |tail|
            && old(r.Rest()) == RiftBits(ch, t) + tail ==>
              result == Some(SortBySource(t)) && r.Rest() == tail
  {
    hide BitReader.Valid, BitReader.Rest, Usable, CodesFit, TakeField, TakeI64, EntriesBits, IntHeaderBits,
         HeaderLengths, I64Bits, LeftComplete;
    ghost var good := |t| < SPAN64 / 2 && (|t| > 0 ==> CodesFit(ch)) && r.padding <= |tail|
                      && r.Rest() == RiftBits(ch, t) + tail;
    ghost var b: seq<Bit>, c: seq<Bit>, d: seq<Bit> := [], [], [];
    if good {
      FlagAhead(0, tail);
      if |t| > 0 {
        ghost var a;
        a, b, c, d := RiftParts(ch, t, r.Rest(), tail, r.padding);
      }
    }
    var flag := r.ReadBits(1);
    if flag.None? {
      return None;
    }
    if flag.value == 0 {
      return Some([]);
    }
    var src := ReadIntHeader(r, ch.src, b);
    if src.None? {
      return None;
    }
    var dst := ReadIntHeader(r, ch.dst, c);
    if dst.None? {
      return None;
    }
    var count := r.ReadI64();
    if count.None? {
      return None;
    }
    var remaining := r.RemainingBits();
    if count.value >= SPAN64 / 2 || count.value > remaining {
      return None;
    }
    var entries := ReadEntries(count.value, src.value, dst.value, r, ch, t, tail);
    if entries.None? {
      return None;
    }
    result := Some(SortBySource(entries.value));
  }
}
