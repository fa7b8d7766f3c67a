/** The code lengths of a segment, coded against those of the segment before: single lengths, small differences, and
    runs that repeat the last length or follow the old ones. */
module LengthCoding {
  import opened Powers
  import opened BitStrings
  import opened LsbBits
  import opened CanonicalCode
  import opened LeftCode
  import opened BitReading
  import opened BitWriting
  import opened CtzTable
  import opened MatchCoding
  import opened MatchCodec
  import opened FrequencyCodes

  const TOTAL_LENGTHS := MAIN_SYMBOLS + LENGTH_SYMBOLS + ALIGNED_SYMBOLS
  const PRETREE_SYMBOLS := 39
  const MAX_CODE_LEN := 16

  /** A symbol of the pre-tree and the verbatim bits after it. */
  datatype LengthSym = LengthSym(sym: nat, extra: nat, width: nat)

  predicate ValidSym(l: LengthSym) {
    && l.sym < PRETREE_SYMBOLS && l.extra < Pow2(l.width)
    && l.width == if l.sym >= 23 && (l.sym - 23) % 8 >= 3 then (l.sym - 23) % 8 - 1 else 0
  }

  /** How many lengths a run gives. */
  function RunCount(l: LengthSym): (n: nat)
    requires l.sym >= 23
    ensures n > 0
  {
    var slot := (l.sym - 23) % 8;
    if slot < 3 then slot + 1 else Pow2(slot - 1) + l.extra
  }

  function Changed(was: nat, d: nat): nat
    requires d < 6
  {
    if d < 3 then (was + d + 1) % 0x100 else (was - (d - 2)) % 0x100
  }

  /** The lengths after one more symbol, or nothing if a run has no start or goes past the end. */
  function Extend(done: seq<nat>, l: LengthSym, prev: seq<nat>): (r: Option<seq<nat>>)
    requires |prev| == TOTAL_LENGTHS
    ensures r.Some? ==> |done| < |r.value| <= TOTAL_LENGTHS && done <= r.value
  {
    var i := |done|;
    if i >= TOTAL_LENGTHS then None
    else if l.sym <= 16 then Some(done + [l.sym])
    else if l.sym < 23 then Some(done + [Changed(prev[i], l.sym - 17)])
    else
      var n := RunCount(l);
      if i + n > TOTAL_LENGTHS then None
      else if l.sym - 23 < 8 then (if i == 0 then None else Some(done + Repeat(done[i - 1], n)))
      else Some(done + prev[i..i + n])
  }

  function ExtendAll(done: seq<nat>, syms: seq<LengthSym>, prev: seq<nat>): (r: Option<seq<nat>>)
    requires |prev| == TOTAL_LENGTHS
    decreases |syms|
  {
    if |syms| > 0 then
      var one := Extend(done, syms[0], prev);
      if one.None? then None else ExtendAll(one.value, syms[1..], prev)
    else Some(done)
  }

  lemma {:induction false} ExtendAllGrows(done: seq<nat>, syms: seq<LengthSym>, prev: seq<nat>)
    requires |prev| == TOTAL_LENGTHS && ExtendAll(done, syms, prev).Some?
    ensures var all := ExtendAll(done, syms, prev).value;
            |done| <= |all| && (|syms| > 0 ==> |done| < |all| <= TOTAL_LENGTHS) && (syms == [] ==> all == done)
    decreases |syms|
  {
    hide Extend;
    if |syms| > 0 {
      var one := Extend(done, syms[0], prev);
      ExtendAllGrows(one.value, syms[1..], prev);
    }
  }

  lemma {:induction false} ExtendAllNext(done: seq<nat>, syms: seq<LengthSym>, prev: seq<nat>, l: LengthSym)
    requires |prev| == TOTAL_LENGTHS && ExtendAll(done, syms, prev).Some?
    ensures ExtendAll(done, syms + [l], prev) == Extend(ExtendAll(done, syms, prev).value, l, prev)
    decreases |syms|
  {
    hide Extend;
    if |syms| == 0 {
      assert ([] + [l])[1..] == [];
      assert syms + [l] == [l];
    } else {
      var one := Extend(done, syms[0], prev);
      assert (syms + [l])[1..] == syms[1..] + [l];
      ExtendAllNext(one.value, syms[1..], prev, l);
    }
  }

  // --- Choosing symbols ---

  method CodeRun(count: nat, follow: bool) returns (l: LengthSym)
    requires 4 <= count <= 127
    ensures ValidSym(l) && l.sym >= 23 && RunCount(l) == count && (l.sym - 23 < 8 <==> !follow)
  {
    SmallPowers();
    var base := if follow then 31 else 23;
    l := if count <= 7 then LengthSym(base + 3, count - 4, 2)
         else if count <= 15 then LengthSym(base + 4, count - 8, 3)
         else if count <= 31 then LengthSym(base + 5, count - 16, 4)
         else if count <= 63 then LengthSym(base + 6, count - 32, 5)
         else LengthSym(base + 7, count - 64, 6);
  }

  lemma {:induction false} SmallPowers()
    ensures Pow2(0) == 1 && Pow2(2) == 4 && Pow2(3) == 8 && Pow2(4) == 16 && Pow2(5) == 32 && Pow2(6) == 64
  {
  }

  predicate FitLengths(lens: seq<nat>) {
    |lens| == TOTAL_LENGTHS && forall i :: 0 <= i < |lens| ==> lens[i] <= MAX_CODE_LEN
  }

  /** How many lengths from `i` on are as before, at most 127 and never the last one. */
  method FollowRun(lens: seq<nat>, prev: seq<nat>, i: nat) returns (run: nat)
    requires |lens| == |prev| == TOTAL_LENGTHS && i < |lens|
    ensures run <= 127 && i + run < |lens| && lens[i..i + run] == prev[i..i + run]
  {
    run := 0;
    while i + run < |lens| - 1 && lens[i + run] == prev[i + run] && run < 127
      invariant run <= 127 && i + run < |lens| && forall j :: i <= j < i + run ==> lens[j] == prev[j]
    {
      run := run + 1;
    }
  }

  method RepeatRun(lens: seq<nat>, i: nat) returns (run: nat)
    requires |lens| == TOTAL_LENGTHS && 0 < i < |lens|
    ensures run <= 127 && i + run < |lens| && lens[i..i + run] == Repeat(lens[i - 1], run)
  {
    run := 0;
    while i + run < |lens| - 1 && lens[i + run] == lens[i - 1] && run < 127
      invariant run <= 127 && i + run < |lens| && forall j :: i <= j < i + run ==> lens[j] == lens[i - 1]
    {
      run := run + 1;
    }
  }

  /** The next symbol: a run if at least four lengths follow one, else a small difference, else the length itself.
      No run reaches the last length. */
  method NextSym(lens: seq<nat>, prev: seq<nat>, i: nat) returns (l: LengthSym)
    requires FitLengths(lens) && FitLengths(prev) && i < |lens|
    ensures ValidSym(l)
    ensures var r := Extend(lens[..i], l, prev); r.Some? && r.value <= lens && (l.sym >= 23 ==> |r.value| < |lens|)
  {
    hide ValidSym, RunCount;
    if i + 3 < |lens| {
      var run := FollowRun(lens, prev, i);
      if run >= 4 {
        l := CodeRun(run, true);
        assert lens[..i] + lens[i..i + run] == lens[..i + run];
        return;
      }
    }
    if i > 0 {
      var run := RepeatRun(lens, i);
      if run >= 4 {
        l := CodeRun(run, false);
        assert lens[..i] + lens[i..i + run] == lens[..i + run];
        return;
      }
    }
    l := SingleSym(lens, prev, i);
  }

  method SingleSym(lens: seq<nat>, prev: seq<nat>, i: nat) returns (l: LengthSym)
    requires FitLengths(lens) && FitLengths(prev) && i < |lens|
    ensures ValidSym(l) && l.sym < 23 && Extend(lens[..i], l, prev) == Some(lens[..i + 1])
  {
    var was: int := prev[i];
    var diff := lens[i] - was;
    var sym := if 1 <= diff <= 3 then 16 + diff else if -3 <= diff <= -1 then 19 - diff else lens[i];
    l := LengthSym(sym, 0, 0);
    assert lens[..i + 1] == lens[..i] + [lens[i]];
    if 1 <= diff <= 3 {
      assert Changed(prev[i], sym - 17) == lens[i];
    } else if -3 <= diff <= -1 {
      assert Changed(prev[i], sym - 17) == lens[i];
    }
  }

  predicate ValidSyms(syms: seq<LengthSym>) {
    forall k :: 0 <= k < |syms| ==> ValidSym(syms[k])
  }

  /** The chosen symbols give the lengths back. */
  method ChooseSyms(lens: seq<nat>, prev: seq<nat>) returns (syms: seq<LengthSym>)
    requires FitLengths(lens) && FitLengths(prev)
    ensures ValidSyms(syms) && |syms| > 0 && ExtendAll([], syms, prev) == Some(lens)
  {
    hide Extend, ValidSym;
    syms := [];
    var i := 0;
    assert lens[..0] == [];
    while i < |lens|
      invariant i <= |lens| && ValidSyms(syms) && ExtendAll([], syms, prev) == Some(lens[..i])
      invariant i > 0 ==> |syms| > 0
    {
      var l := NextSym(lens, prev, i);
      ExtendAllNext([], syms, prev, l);
      syms := syms + [l];
      var longer := Extend(lens[..i], l, prev).value;
      assert longer == lens[..|longer|];
      i := |longer|;
    }
    assert lens[..i] == lens;
  }

  // --- Bits ---

  predicate SymFits(pre: seq<nat>, l: LengthSym) {
    ValidSym(l) && l.sym < |pre| && pre[l.sym] > 0
  }

  predicate SymsFit(pre: seq<nat>, syms: seq<LengthSym>) {
    forall k :: 0 <= k < |syms| ==> SymFits(pre, syms[k])
  }

  function SymBits(pre: seq<nat>, l: LengthSym): seq<Bit>
    requires l.sym < |pre|
  {
    LeftBits(pre, l.sym) + ToLsb(l.extra, l.width)
  }

  function SymsBits(pre: seq<nat>, syms: seq<LengthSym>): seq<Bit>
    requires SymsFit(pre, syms)
  {
    if |syms| > 0 then SymBits(pre, syms[0]) + SymsBits(pre, syms[1..]) else []
  }

  lemma {:induction false} SymsBitsNext(pre: seq<nat>, syms: seq<LengthSym>, l: LengthSym)
    requires SymFits(pre, l) && SymsFit(pre, syms)
    ensures SymsBits(pre, syms + [l]) == SymsBits(pre, syms) + SymBits(pre, l)
  {
    hide SymBits;
    if |syms| == 0 {
      assert syms + [l] == [l] && [l][1..] == [];
    } else {
      assert (syms + [l])[1..] == syms[1..] + [l];
      SymsBitsNext(pre, syms[1..], l);
    }
  }

  method WriteSyms(pre: HuffmanTable, w: BitWriter, syms: seq<LengthSym>)
    requires w.Valid() && Usable(pre) && SymsFit(pre.lengths, syms)
    modifies w
    ensures w.Valid() && w.Content() == old(w.Content()) + SymsBits(pre.lengths, syms)
  {
    hide BitWriter.Valid, BitWriter.Content, Usable, LeftBits, ToLsb, Pow2;
    ghost var before := w.Content();
    assert syms[..0] == [];
    for k := 0 to |syms|
      invariant w.Valid() && w.Content() == before + SymsBits(pre.lengths, syms[..k])
    {
      assert SymFits(pre.lengths, syms[k]);
      SymsBitsNext(pre.lengths, syms[..k], syms[k]);
      assert syms[..k + 1] == syms[..k] + [syms[k]];
      WriteCode(pre, w, syms[k].sym);
      w.WriteBits(syms[k].extra, syms[k].width);
    }
    assert syms[..|syms|] == syms;
  }

  // --- Reading ---

  /** Given `done`, the symbols still to come complete the lengths to `lens`. */
  ghost predicate SymsAhead(pre: seq<nat>, done: seq<nat>, syms: seq<LengthSym>, prev: seq<nat>, lens: seq<nat>,
                            rest: seq<Bit>, tail: seq<Bit>) {
    && |prev| == TOTAL_LENGTHS && |lens| == TOTAL_LENGTHS && LeftComplete(pre) && SymsFit(pre, syms)
    && ExtendAll(done, syms, prev) == Some(lens) && rest == SymsBits(pre, syms) + tail
  }

  lemma {:induction false} SymsAheadStep(pre: seq<nat>, done: seq<nat>, syms: seq<LengthSym>, prev: seq<nat>,
                                         lens: seq<nat>, rest: seq<Bit>, tail: seq<Bit>)
    requires SymsAhead(pre, done, syms, prev, lens, rest, tail) && |done| < TOTAL_LENGTHS
    ensures |syms| > 0 && ValidSym(syms[0]) && LeftComplete(pre)
    ensures var f := TakeSymbol(pre, rest);
            && f.Field? && f.val == syms[0].sym && |tail| <= |f.rest|
            && var g := TakeField(f.rest, syms[0].width);
               && g.Field? && g.val == syms[0].extra && |tail| <= |g.rest|
               && var one := Extend(done, syms[0], prev);
                  one.Some? && SymsAhead(pre, one.value, syms[1..], prev, lens, g.rest, tail)
  {
    hide Extend, TakeField, TakeSymbol, LeftComplete, LeftBits, ToLsb;
    ExtendAllGrows(done, syms, prev);
    var l := syms[0];
    assert SymFits(pre, l);
    var more := SymsBits(pre, syms[1..]) + tail;
    SymbolReadBack(pre, l.sym, ToLsb(l.extra, l.width) + more);
    FieldReadBack(l.extra, l.width, more);
    assert rest == LeftBits(pre, l.sym) + (ToLsb(l.extra, l.width) + more);
  }

  /** One symbol with its bits, as `Extend` takes it. */
  method ReadSym(pre: HuffmanTable, r: BitReader) returns (l: Option<LengthSym>)
    requires r.Valid() && Usable(pre)
    modifies r
    ensures r.Valid()
    ensures LeftComplete(pre.lengths) ==>
              forall sym: LengthSym :: ValidSym(sym) ==>
                var f := TakeSymbol(pre.lengths, old(r.Rest()));
                f.Field? && f.val == sym.sym ==>
                  var g := TakeField(f.rest, sym.width);
                  g.Field? && g.val == sym.extra && r.padding <= |g.rest| ==> l == Some(sym) && r.Rest() == g.rest
  {
    hide BitReader.Valid, BitReader.Rest, Usable, TakeSymbol, LeftComplete, FromLsb, Pow2;
    var s := ReadCode(pre, r);
    if s.None? {
      return None;
    }
    var width := if s.value >= 23 && (s.value - 23) % 8 >= 3 then (s.value - 23) % 8 - 1 else 0;
    var extra := r.ReadBits(width);
    l := if extra.None? then None else Some(LengthSym(s.value, extra.value, width));
  }

  /** The lengths of a segment; those of more than 16 bits are refused. */
  method ReadLengths(pre: HuffmanTable, prev: seq<nat>, r: BitReader, ghost syms: seq<LengthSym>, ghost lens: seq<nat>,
                     ghost tail: seq<Bit>)
    returns (result: Option<seq<nat>>)
    requires r.Valid() && Usable(pre) && |prev| == TOTAL_LENGTHS
    modifies r
    ensures r.Valid() && (result.Some? ==> FitLengths(result.value))
    ensures SymsAhead(pre.lengths, [], syms, prev, lens, old(r.Rest()), tail) && r.padding <= |tail|
            && FitLengths(lens) ==>
              result == Some(lens) && r.Rest() == tail
  {
    hide BitReader.Valid, BitReader.Rest, Usable, LeftComplete, Extend, SymsAhead, TakeField, TakeSymbol;
    ghost var good := SymsAhead(pre.lengths, [], syms, prev, lens, r.Rest(), tail) && r.padding <= |tail|
                      && FitLengths(lens);
    ghost var left := syms;
    var done: seq<nat> := [];
    while |done| < TOTAL_LENGTHS
      invariant r.Valid() && |done| <= TOTAL_LENGTHS
      invariant good ==> SymsAhead(pre.lengths, done, left, prev, lens, r.Rest(), tail)
      decreases TOTAL_LENGTHS - |done|
    {
      if good {
        SymsAheadStep(pre.lengths, done, left, prev, lens, r.Rest(), tail);
      }
      var l := ReadSym(pre, r);
      if l.None? {
        return None;
      }
      var one := Extend(done, l.value, prev);
      if one.None? {
        return None;
      }
      done := one.value;
      if good {
        left := left[1..];
      }
    }
    if good {
      SymsAheadEnd(pre.lengths, done, left, prev, lens, r.Rest(), tail);
    }
    for i := 0 to |done|
      invariant forall j :: 0 <= j < i ==> done[j] <= MAX_CODE_LEN
      invariant good ==> done == lens && r.Rest() == tail
    {
      if done[i] > MAX_CODE_LEN {
        return None;
      }
    }
    result := Some(done);
  }

  lemma {:induction false} SymsAheadEnd(pre: seq<nat>, done: seq<nat>, syms: seq<LengthSym>, prev: seq<nat>,
                                        lens: seq<nat>, rest: seq<Bit>, tail: seq<Bit>)
    requires SymsAhead(pre, done, syms, prev, lens, rest, tail) && |done| == TOTAL_LENGTHS
    ensures done == lens && rest == tail
  {
    hide Extend;
    ExtendAllGrows(done, syms, prev);
  }
}
