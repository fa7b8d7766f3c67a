/** Building the tables of a left-leaning code from its lengths, and coding symbols with them. */
module HuffmanBuild {
  import opened Powers
  import opened BitStrings
  import opened LsbBits
  import opened CanonicalCode
  import opened LeftCode
  import opened BitReading
  import opened BitWriting
  import opened CtzTable

  // --- Codes ---

  function MaxLen(lens: seq<nat>): (m: nat)
    ensures forall s :: 0 <= s < |lens| ==> lens[s] <= m
    ensures m > 0 ==> exists s :: 0 <= s < |lens| && lens[s] == m
  {
    if |lens| == 0 then 0
    else
      var m, last := MaxLen(lens[..|lens| - 1]), lens[|lens| - 1];
      if last >= m then last
      else
        assert forall s :: 0 <= s < |lens| - 1 ==> lens[s] == lens[..|lens| - 1][s];
        m
  }

  lemma {:induction false} NoneLonger(lens: seq<nat>, l: nat)
    requires forall s :: 0 <= s < |lens| ==> lens[s] < l
    ensures Count(lens, l) == 0
  {
    if |lens| > 0 {
      NoneLonger(lens[..|lens| - 1], l);
    }
  }

  lemma {:induction false} BaseBeyond(lens: seq<nat>, l: nat)
    requires forall s :: 0 <= s < |lens| ==> lens[s] <= l
    ensures Base(lens, l) == 0
    decreases MAX_LEFT_LEN - l
  {
    if l < MAX_LEFT_LEN {
      BaseBeyond(lens, l + 1);
      NoneLonger(lens, l + 1);
    }
  }

  method CountLengths(lens: seq<nat>) returns (count: seq<nat>)
    requires ValidLefts(lens)
    ensures |count| == 17 && forall l :: 1 <= l <= 16 ==> count[l] == Count(lens, l)
  {
    count := seq(17, i => 0);
    for i := 0 to |lens|
      invariant |count| == 17 && forall l :: 0 <= l <= 16 ==> count[l] == Count(lens[..i], l)
    {
      assert lens[..i + 1][..i] == lens[..i];
      count := count[lens[i] := count[lens[i]] + 1];
    }
    assert lens[..|lens|] == lens;
    count := count[0 := 0];
  }

  /** The first codes of all lengths, from the greatest length down. */
  method BaseCodes(lens: seq<nat>, max: nat) returns (base: seq<nat>)
    requires ValidLefts(lens) && max <= 16 && forall s :: 0 <= s < |lens| ==> lens[s] <= max
    ensures |base| == 17 && forall l :: 1 <= l <= max ==> base[l] == Base(lens, l)
  {
    hide Count;
    var count := CountLengths(lens);
    base := seq(17, i => 0);
    BaseBeyond(lens, max);
    var acc: nat, l: nat := 0, max;
    while l > 0
      invariant l <= max && acc == Base(lens, l) && |base| == 17
      invariant forall k :: l < k <= max ==> base[k] == Base(lens, k)
    {
      BaseStep(lens, l - 1);
      base := base[l := acc];
      acc := (acc + count[l]) / 2;
      l := l - 1;
    }
  }

  method ReverseBits(code: nat, len: nat) returns (r: nat)
    ensures r == FromLsb(ToBits(code, len))
  {
    hide ToBits, FromLsb, Shr;
    r := 0;
    var c := code;
    assert r == FromLsb(ToBits(code, 0)) && c == Shr(code, 0) by { NoShift(code); }
    for i := 0 to len
      invariant c == Shr(code, i) && r == FromLsb(ToBits(code, i))
    {
      OneMoreBit(code, i);
      r := 2 * r + c % 2;
      c := c / 2;
    }
  }

  lemma {:induction false} NoShift(v: nat)
    ensures Shr(v, 0) == v && FromLsb(ToBits(v, 0)) == 0
  {
  }

  lemma {:induction false} OneMoreBit(v: nat, i: nat)
    ensures Shr(v, i + 1) == Shr(v, i) / 2
    ensures FromLsb(ToBits(v, i + 1)) == Shr(v, i) % 2 + 2 * FromLsb(ToBits(v, i))
  {
    hide Shr;
    ShrStep(v, i);
    ToBitsConcat(v, 1, i);
    var bit := Shr(v, i);
    assert ToBits(bit, 1) == [bit % 2] by { assert ToBits(bit / 2, 0) == []; }
    assert ToBits(v, 1 + i) == [bit % 2] + ToBits(v, i);
  }

  function CodesFor(lens: seq<nat>): (r: seq<nat>)
    ensures |r| == |lens| && forall s :: 0 <= s < |r| ==> r[s] == FromLsb(LeftBits(lens, s))
  {
    seq(|lens|, s requires 0 <= s < |lens| => FromLsb(LeftBits(lens, s)))
  }

  method AssignCodes(lens: seq<nat>, base: seq<nat>) returns (codes: seq<nat>)
    requires ValidLefts(lens) && |base| == 17
    requires forall s :: 0 <= s < |lens| && lens[s] > 0 ==> base[lens[s]] == Base(lens, lens[s])
    ensures codes == CodesFor(lens)
  {
    hide Count, Base, FromLsb, ToBits;
    codes := [];
    var next := base;
    for s := 0 to |lens|
      invariant |next| == 17 && |codes| == s
      invariant forall k :: s <= k < |lens| && lens[k] > 0 ==>
                  next[lens[k]] == Base(lens, lens[k]) + Count(lens[..s], lens[k])
      invariant forall k :: 0 <= k < s ==> codes[k] == FromLsb(LeftBits(lens, k))
    {
      CountNext(lens, s);
      if lens[s] == 0 {
        EmptyCode(lens, s);
        codes := codes + [0];
      } else {
        var canonical := next[lens[s]];
        next := next[lens[s] := canonical + 1];
        var reversed := ReverseBits(canonical, lens[s]);
        codes := codes + [reversed];
      }
    }
  }

  lemma {:induction false} CountNext(lens: seq<nat>, s: nat)
    requires s < |lens|
    ensures forall l :: Count(lens[..s + 1], l) == Count(lens[..s], l) + if lens[s] == l then 1 else 0
    ensures Count(lens[..0], lens[s]) == 0
  {
    assert lens[..s + 1][..s] == lens[..s];
  }

  lemma {:induction false} EmptyCode(lens: seq<nat>, s: nat)
    requires s < |lens| && lens[s] == 0
    ensures FromLsb(LeftBits(lens, s)) == 0
  {
  }

  // --- Slots ---

  /** The slot of a code: its trailing zeros as stored are the leading zeros of its bits. */
  lemma {:induction false} CodeSlot(lens: seq<nat>, s: nat)
    requires ValidLefts(lens) && s < |lens|
    ensures var bits := LeftBits(lens, s); var code := FromLsb(bits);
            && (code == 0 <==> bits == Zeros(lens[s]))
            && (code != 0 ==>
                  var z := TrailingZeros(code, 31);
                  z < lens[s] && InSlot(lens, s, z) && Shr(code, z + 1) == FromLsb(bits[z + 1..])
                  && Shr(code, z + 1) < Pow2(lens[s] - z - 1))
  {
    hide LeftBits, FromLsb, ToBits, LeadingZeros, TrailingZeros, Shr, Pow2;
    var bits := LeftBits(lens, s);
    ZeroCode(bits);
    if FromLsb(bits) != 0 {
      var i :| 0 <= i < |bits| && bits[i] == 1;
      TrailingIsLeading(bits, 31);
      LeadingOfPrefix(bits, bits, 31);
      var z := LeadingZeros(bits, 31);
      assert z < lens[s] <= 16;
      ShrOfLsb(bits, z + 1);
      FromLsbBound(bits[z + 1..]);
    }
  }

  lemma {:induction false} ZeroCode(bits: seq<Bit>)
    ensures FromLsb(bits) == 0 <==> bits == Zeros(|bits|)
    ensures FromLsb(bits) != 0 ==> exists i :: 0 <= i < |bits| && bits[i] == 1
  {
    if |bits| > 0 {
      ZeroCode(bits[1..]);
      assert bits == [bits[0]] + bits[1..];
      assert Zeros(|bits|)[1..] == Zeros(|bits| - 1);
      if FromLsb(bits) != 0 && bits[0] == 0 {
        var i :| 0 <= i < |bits[1..]| && bits[1..][i] == 1;
        assert bits[i + 1] == 1;
      }
    }
  }

  /** What `Widths` says of the first `k` symbols. */
  ghost predicate WidthsOf(lens: seq<nat>, k: nat, widths: seq<nat>, top: nat) {
    && |widths| == 32 && top <= 15 && k <= |lens|
    && (forall z :: 0 <= z < 32 ==> widths[z] == 0 || z + 1 + widths[z] <= MAX_LEFT_LEN)
    && (forall s: nat, z: nat :: s < k && InSlot(lens, s, z) ==> z <= top && lens[s] <= z + 1 + widths[z])
    && (top > 0 ==> exists s: nat :: InSlot(lens, s, top))
  }

  lemma {:induction false} SlotUnique(lens: seq<nat>, s: nat, y: nat, z: nat)
    requires InSlot(lens, s, y) && InSlot(lens, s, z)
    ensures y == z
  {
  }

  lemma {:induction false} ZerosInNoSlot(lens: seq<nat>, s: nat, z: nat)
    requires InSlot(lens, s, z)
    ensures FromLsb(LeftBits(lens, s)) != 0
  {
    hide LeftBits;
    ZeroCode(LeftBits(lens, s));
  }

  method ComputeWidths(lens: seq<nat>, codes: seq<nat>) returns (widths: seq<nat>, top: nat)
    requires ValidLefts(lens) && codes == CodesFor(lens)
    ensures Widths(lens, widths, top)
  {
    hide InSlot, LeftBits, FromLsb, TrailingZeros, Shr;
    widths, top := seq(32, i => 0), 0;
    for s := 0 to |lens|
      invariant WidthsOf(lens, s, widths, top)
    {
      CodeSlot(lens, s);
      if codes[s] == 0 {
        forall z: nat | InSlot(lens, s, z) ensures false {
          ZerosInNoSlot(lens, s, z);
        }
      } else {
        var z := TrailingZeros(codes[s], 31);
        forall y: nat | InSlot(lens, s, y) ensures y == z {
          SlotUnique(lens, s, y, z);
        }
        var extra := lens[s] - z - 1;
        if extra > widths[z] {
          widths := widths[z := extra];
        }
        if z > top {
          top := z;
        }
      }
    }
    WidthsOfAll(lens, widths, top);
  }

  lemma {:induction false} WidthsOfAll(lens: seq<nat>, widths: seq<nat>, top: nat)
    requires WidthsOf(lens, |lens|, widths, top)
    ensures Widths(lens, widths, top)
  {
    hide LeftBits, LeadingZeros;
  }

  method BuildSlots(widths: seq<nat>, top: nat) returns (slots: seq<Slot>, total: nat)
    requires |widths| == 32 && top < 32
    ensures SlotsFor(slots, widths, top) && total == SlotStart(widths, top + 1)
  {
    hide Pow2, SlotStart;
    slots, total := [], 0;
    assert SlotStart(widths, 0) == 0 by { SlotStartStep(widths, 0); }
    for z := 0 to top + 1
      invariant |slots| == z && total == SlotStart(widths, z)
      invariant forall y :: 0 <= y < z ==> slots[y] == Slot(Pow2(widths[y]) - 1, SlotStart(widths, y))
    {
      var mask := if widths[z] == 0 then 0 else Pow2(widths[z]) - 1;
      SlotStartStep(widths, z);
      slots := slots + [Slot(mask, total)];
      total := total + (mask + 1);
    }
    for z := top + 1 to 32
      invariant |slots| == z
      invariant forall y :: 0 <= y <= top ==> slots[y] == Slot(Pow2(widths[y]) - 1, SlotStart(widths, y))
      invariant forall y :: top < y < z ==> slots[y] == Slot(0, total)
    {
      slots := slots + [Slot(0, total)];
    }
  }

  lemma {:induction false} SlotStartStep(widths: seq<nat>, z: nat)
    requires z < |widths|
    ensures SlotStart(widths, z + 1) == SlotStart(widths, z) + Pow2(widths[z])
    ensures SlotStart(widths, 0) == 0 && Pow2(0) == 1
  {
  }

  // --- Cells ---

  /** Cells `start` to `start + 2^m`: those whose number ends in the bits `x` become `cell`. */
  ghost predicate Painted(before: seq<Cell>, after: seq<Cell>, start: nat, m: nat, extra: nat, x: nat, cell: Cell) {
    && |after| == |before| && start + Pow2(m) <= |before|
    && (forall t :: 0 <= t < Pow2(m) ==>
          after[start + t] == if LowBits(t, extra) == x then cell else before[start + t])
    && (forall i :: 0 <= i < |before| && !(start <= i < start + Pow2(m)) ==> after[i] == before[i])
  }

  /** The first `f` cells of a stride painted. */
  ghost predicate PartlyPainted(before: seq<Cell>, after: seq<Cell>, start: nat, m: nat, extra: nat, x: nat,
                                cell: Cell, f: nat)
  {
    && |after| == |before| && start + Pow2(m) <= |before|
    && (forall t :: 0 <= t < Pow2(m) ==>
          after[start + t] == if LowBits(t, extra) == x && Shr(t, extra) < f then cell else before[start + t])
    && (forall i :: 0 <= i < |before| && !(start <= i < start + Pow2(m)) ==> after[i] == before[i])
  }

  lemma {:induction false} StrideCell(x: nat, f: nat, extra: nat, m: nat)
    requires x < Pow2(extra) && extra <= m && f < Pow2(m - extra)
    ensures var t := x + f * Pow2(extra);
            t < Pow2(m) && LowBits(t, extra) == x && Shr(t, extra) == f
    ensures forall u: nat :: LowBits(u, extra) == x && Shr(u, extra) == f ==> u == x + f * Pow2(extra)
  {
    hide LowBits, Shr, Shl, Pow2;
    ShlIsMul(f, extra);
    ShlFits(f, m - extra, extra);
    ShrJoin(f, x, extra);
    LowBitsOfJoin(f, x, extra);
    forall u: nat | LowBits(u, extra) == x && Shr(u, extra) == f ensures u == x + f * Pow2(extra) {
      ShrSplit(u, extra);
    }
  }

  lemma {:induction false} LowBitsOfJoin(hi: nat, lo: nat, n: nat)
    requires lo < Pow2(n)
    ensures LowBits(Shl(hi, n) + lo, n) == lo
  {
    LowBitsIsMod(Shl(hi, n) + lo, n);
    ShlIsMul(hi, n);
    DivUnique(Shl(hi, n) + lo, Pow2(n), hi, lo);
  }

  lemma {:induction false} PaintOne(before: seq<Cell>, after: seq<Cell>, start: nat, m: nat, extra: nat, x: nat,
                                    cell: Cell, f: nat)
    requires PartlyPainted(before, after, start, m, extra, x, cell, f)
    requires x < Pow2(extra) && extra <= m && f < Pow2(m - extra)
    ensures var t := x + f * Pow2(extra);
            start + t < |after| && PartlyPainted(before, after[start + t := cell], start, m, extra, x, cell, f + 1)
  {
    hide LowBits, Shr, Pow2;
    StrideCell(x, f, extra, m);
    var t := x + f * Pow2(extra);
    var r := after[start + t := cell];
    forall u | 0 <= u < Pow2(m)
      ensures r[start + u] == if LowBits(u, extra) == x && Shr(u, extra) < f + 1 then cell else before[start + u] {
      if u != t {
        assert !(LowBits(u, extra) == x && Shr(u, extra) == f);
      }
    }
  }

  method PaintCells(before: seq<Cell>, start: nat, m: nat, extra: nat, x: nat, cell: Cell) returns (r: seq<Cell>)
    requires start + Pow2(m) <= |before| && extra <= m && x < Pow2(extra)
    ensures Painted(before, r, start, m, extra, x, cell)
  {
    hide LowBits, Shr, PartlyPainted, Pow2;
    var fill, stride := Pow2(m - extra), Pow2(extra);
    r := before;
    NothingPainted(before, start, m, extra, x, cell);
    for f := 0 to fill
      invariant |r| == |before| && PartlyPainted(before, r, start, m, extra, x, cell, f)
    {
      PaintOne(before, r, start, m, extra, x, cell, f);
      r := r[start + x + f * stride := cell];
    }
    AllPainted(before, r, start, m, extra, x, cell);
  }

  lemma {:induction false} NothingPainted(before: seq<Cell>, start: nat, m: nat, extra: nat, x: nat, cell: Cell)
    requires start + Pow2(m) <= |before|
    ensures PartlyPainted(before, before, start, m, extra, x, cell, 0)
  {
  }

  lemma {:induction false} AllPainted(before: seq<Cell>, after: seq<Cell>, start: nat, m: nat, extra: nat, x: nat,
                                      cell: Cell)
    requires extra <= m && PartlyPainted(before, after, start, m, extra, x, cell, Pow2(m - extra))
    ensures Painted(before, after, start, m, extra, x, cell)
  {
    hide LowBits, Shr;
    forall t | 0 <= t < Pow2(m) ensures Shr(t, extra) < Pow2(m - extra) {
      ShrFits(t, m - extra, extra);
    }
  }

  /** Painting the cells of symbol `k` keeps every owned cell with an owner. */
  lemma {:induction false} FilledNext(lens: seq<nat>, k: nat, widths: seq<nat>, top: nat, before: seq<Cell>,
                                      after: seq<Cell>, zk: nat)
    requires ValidLefts(lens) && Widths(lens, widths, top) && Filled(lens, k, widths, top, before)
    requires k < |lens| && InSlot(lens, k, zk)
    requires Painted(before, after, SlotStart(widths, zk), widths[zk], lens[k] - zk - 1,
                     FromLsb(LeftBits(lens, k)[zk + 1..]), Cell(k, lens[k]))
    ensures Filled(lens, k + 1, widths, top, after)
  {
    hide LeftBits, FromLsb, LowBits, LeadingZeros, SlotStart, Pow2, InSlot, Owns, Widths;
    assert |widths| == 32 && top < 32 && zk <= top && lens[k] <= zk + 1 + widths[zk] && zk < lens[k] by {
      WidthOf(lens, widths, top, k, zk);
    }
    forall s, z, t | 0 <= s < k + 1 && 0 <= z <= top && 0 <= t < Pow2(widths[z]) && Owns(lens, s, z, t, widths[z])
      ensures SlotStart(widths, z) + t < |after|
      ensures CellIs(lens, k + 1, after[SlotStart(widths, z) + t], z, t, widths[z])
    {
      CellKept(lens, k, widths, top, before, after, zk, s, z, t);
    }
  }

  lemma {:induction false} WidthOf(lens: seq<nat>, widths: seq<nat>, top: nat, k: nat, z: nat)
    requires Widths(lens, widths, top) && InSlot(lens, k, z)
    ensures |widths| == 32 && top < 32 && z <= top && lens[k] <= z + 1 + widths[z] && z < lens[k]
  {
  }

  lemma {:induction false} OwnerSlot(lens: seq<nat>, s: nat, z: nat, t: nat, m: nat)
    requires Owns(lens, s, z, t, m)
    ensures InSlot(lens, s, z)
  {
  }

  lemma {:induction false} CellKept(lens: seq<nat>, k: nat, widths: seq<nat>, top: nat, before: seq<Cell>,
                                    after: seq<Cell>, zk: nat, s: nat, z: nat, t: nat)
    requires ValidLefts(lens) && Filled(lens, k, widths, top, before)
    requires k < |lens| && InSlot(lens, k, zk) && zk <= top && lens[k] <= zk + 1 + widths[zk] && zk < lens[k]
    requires Painted(before, after, SlotStart(widths, zk), widths[zk], lens[k] - zk - 1,
                     FromLsb(LeftBits(lens, k)[zk + 1..]), Cell(k, lens[k]))
    requires s < k + 1 && z <= top && t < Pow2(widths[z]) && Owns(lens, s, z, t, widths[z])
    ensures SlotStart(widths, z) + t < |after|
    ensures CellIs(lens, k + 1, after[SlotStart(widths, z) + t], z, t, widths[z])
  {
    hide LeftBits, FromLsb, LowBits, LeadingZeros, SlotStart, Pow2, InSlot, Owns;
    var m := widths[z];
    if z == zk {
      OwnedCells(lens, k, zk, t, m);
      if s == k {
        assert LowBits(t, lens[k] - zk - 1) == FromLsb(LeftBits(lens, k)[zk + 1..]);
      }
    } else {
      if s == k {
        OwnerSlot(lens, s, z, t, m);
        SlotUnique(lens, k, z, zk);
      }
      if z < zk {
        SlotStartMonotone(widths, z, zk);
      } else {
        SlotStartMonotone(widths, zk, z);
      }
    }
  }

  predicate ShortCell(c: Cell, n: nat) {
    c.len <= MAX_LEFT_LEN && (c.len > 0 ==> c.symbol < n)
  }

  /** Whatever the lengths, a lookup gives one of `n` symbols and takes at most 16 bits. */
  predicate ShortCells(entries: seq<Cell>, n: nat) {
    forall i :: 0 <= i < |entries| ==> ShortCell(entries[i], n)
  }

  method FillEntries(lens: seq<nat>, codes: seq<nat>, slots: seq<Slot>, total: nat, ghost widths: seq<nat>,
                     ghost top: nat)
    returns (entries: seq<Cell>)
    requires ValidLefts(lens) && codes == CodesFor(lens) && Widths(lens, widths, top)
    requires SlotsFor(slots, widths, top) && total == SlotStart(widths, top + 1)
    ensures Filled(lens, |lens|, widths, top, entries) && |entries| == total + 1 && ShortCells(entries, |lens|)
  {
    hide InSlot, LeftBits, FromLsb, TrailingZeros, Shr, SlotStart, Filled, Widths, Painted, Pow2;
    entries := seq(total + 1, i => Cell(0, 0));
    NothingFilled(lens, widths, top, entries);
    for s := 0 to |lens|
      invariant |entries| == total + 1 && Filled(lens, s, widths, top, entries) && ShortCells(entries, |lens|)
    {
      CodeSlot(lens, s);
      if codes[s] == 0 {
        ZeroCodeFilled(lens, s, widths, top, entries);
      } else {
        ghost var before := entries;
        var z := TrailingZeros(codes[s], 31);
        WidthOf(lens, widths, top, s, z);
        SlotEndInside(widths, z, top);
        var extra := lens[s] - z - 1;
        var shifted := Shr(codes[s], z + 1);
        var m := MaskWidth(slots[z].mask, widths[z]);
        Narrower(shifted, extra, m);
        entries := PaintCells(entries, slots[z].offset, m, extra, shifted % (slots[z].mask + 1), Cell(s, lens[s]));
        FilledNext(lens, s, widths, top, before, entries, z);
        PaintedShort(before, entries, slots[z].offset, m, extra, shifted, Cell(s, lens[s]), |lens|);
      }
    }
  }

  lemma {:induction false} PaintedShort(before: seq<Cell>, after: seq<Cell>, start: nat, m: nat, extra: nat, x: nat,
                                         cell: Cell, n: nat)
    requires Painted(before, after, start, m, extra, x, cell) && ShortCells(before, n) && ShortCell(cell, n)
    ensures |after| == |before| && ShortCells(after, n)
  {
    hide LowBits, Pow2, ShortCell;
    forall i | 0 <= i < |after| ensures ShortCell(after[i], n) {
      if start <= i < start + Pow2(m) {
        assert after[start + (i - start)]
            == if LowBits(i - start, extra) == x then cell else before[start + (i - start)];
      }
    }
  }

  /** The number of bits in a mask. */
  method MaskWidth(mask: nat, ghost width: nat) returns (m: nat)
    requires mask == Pow2(width) - 1
    ensures m == width
  {
    m := Log2(mask + 1);
    Log2OfPow2(width);
  }

  lemma {:induction false} Narrower(x: nat, extra: nat, m: nat)
    requires x < Pow2(extra) && extra <= m
    ensures x % Pow2(m) == x
  {
    Pow2Monotone(extra, m);
    DivUnique(x, Pow2(m), 0, x);
  }

  lemma {:induction false} SlotEndInside(widths: seq<nat>, z: nat, top: nat)
    requires z <= top < |widths|
    ensures SlotStart(widths, z) + Pow2(widths[z]) <= SlotStart(widths, top + 1)
  {
    SlotStartMonotone(widths, z, top + 1);
  }

  lemma {:induction false} NothingFilled(lens: seq<nat>, widths: seq<nat>, top: nat, entries: seq<Cell>)
    requires |widths| == 32 && top < 32 && |entries| == SlotStart(widths, top + 1) + 1
    ensures Filled(lens, 0, widths, top, entries)
  {
  }

  /** The code of zeros owns no cell of a slot. */
  lemma {:induction false} ZeroCodeFilled(lens: seq<nat>, k: nat, widths: seq<nat>, top: nat, entries: seq<Cell>)
    requires k < |lens| && FromLsb(LeftBits(lens, k)) == 0 && Filled(lens, k, widths, top, entries)
    ensures Filled(lens, k + 1, widths, top, entries)
  {
    hide LeftBits, FromLsb, LeadingZeros, SlotStart, Pow2, InSlot, Owns;
    forall s, z, t | 0 <= s < k + 1 && 0 <= z <= top && 0 <= t < Pow2(widths[z]) && Owns(lens, s, z, t, widths[z])
      ensures SlotStart(widths, z) + t < |entries|
      ensures CellIs(lens, k + 1, entries[SlotStart(widths, z) + t], z, t, widths[z])
    {
      if s == k {
        OwnerSlot(lens, s, z, t, widths[z]);
        ZerosInNoSlot(lens, s, z);
      }
    }
  }

  /** The first symbol whose stored code is 0. */
  method ZeroSymbol(lens: seq<nat>, codes: seq<nat>) returns (c: Cell)
    requires ValidLefts(lens) && codes == CodesFor(lens)
    ensures forall s :: 0 <= s < |lens| && lens[s] > 0 && LeftBits(lens, s) == Zeros(lens[s]) ==>
              && c.symbol < |lens| && lens[c.symbol] > 0 && c.len == lens[c.symbol]
              && LeftBits(lens, c.symbol) == Zeros(c.len)
    ensures ShortCell(c, |lens|)
  {
    hide LeftBits, FromLsb;
    for s := 0 to |lens|
      invariant forall k :: 0 <= k < s ==> lens[k] == 0 || LeftBits(lens, k) != Zeros(lens[k])
    {
      ZeroCode(LeftBits(lens, s));
      if lens[s] > 0 && codes[s] == 0 {
        return Cell(s, lens[s]);
      }
    }
    c := Cell(0, 0);
  }

  /** Tables for any lengths up to 16; for a complete code they decode it. */
  method FromLengths(lens: seq<nat>) returns (r: Option<HuffmanTable>, ghost widths: seq<nat>, ghost top: nat)
    ensures r.None? <==> !ValidLefts(lens)
    ensures r.Some? ==> r.value.lengths == lens && r.value.codes == CodesFor(lens)
    ensures r.Some? ==> |r.value.slots| == 32 && ShortCells(r.value.entries, |lens|)
    ensures r.Some? && LeftComplete(lens) ==> Built(lens, r.value.slots, r.value.entries, widths, top)
  {
    hide InSlot, LeftBits, FromLsb, Filled, Widths, LeftKraft, SlotsFor, Base;
    var max := MaxLen(lens);
    widths, top := [], 0;
    if max > 16 {
      return None, widths, top;
    }
    if max == 0 {
      NoCodes(lens);
      return Some(HuffmanTable(seq(32, i => Slot(0, 0)), [], lens, seq(|lens|, i => 0))), widths, top;
    }
    var base := BaseCodes(lens, max);
    var codes := AssignCodes(lens, base);
    var w, t := ComputeWidths(lens, codes);
    WidthsShape(lens, w, t);
    SlotsShape(w, t);
    var slots, total := BuildSlots(w, t);
    widths, top := w, t;
    var entries := FillEntries(lens, codes, slots, total, w, t);
    var zero := ZeroSymbol(lens, codes);
    ZeroCellFree(lens, w, t, entries, zero);
    entries := entries[total := zero];
    r := Some(HuffmanTable(slots, entries, lens, codes));
  }

  lemma {:induction false} WidthsShape(lens: seq<nat>, widths: seq<nat>, top: nat)
    requires Widths(lens, widths, top)
    ensures |widths| == 32 && top < 32
  {
  }

  lemma {:induction false} SlotsShape(widths: seq<nat>, top: nat)
    ensures forall slots :: SlotsFor(slots, widths, top) ==> |slots| == 32
  {
  }

  lemma {:induction false} NoCodes(lens: seq<nat>)
    requires forall s :: 0 <= s < |lens| ==> lens[s] == 0
    ensures !LeftComplete(lens) && CodesFor(lens) == seq(|lens|, i => 0)
  {
    NoKraft(lens);
    forall s | 0 <= s < |lens| ensures FromLsb(LeftBits(lens, s)) == 0 {
      EmptyCode(lens, s);
    }
  }

  lemma {:induction false} NoKraft(lens: seq<nat>)
    requires forall s :: 0 <= s < |lens| ==> lens[s] == 0
    ensures LeftKraft(lens) == 0
  {
    if |lens| > 0 {
      NoKraft(lens[..|lens| - 1]);
    }
  }

  /** The last cell belongs to no slot. */
  lemma {:induction false} ZeroCellFree(lens: seq<nat>, widths: seq<nat>, top: nat, entries: seq<Cell>, zero: Cell)
    requires Filled(lens, |lens|, widths, top, entries)
    ensures Filled(lens, |lens|, widths, top, entries[|entries| - 1 := zero])
  {
    hide SlotStart, Pow2, Owns;
    forall z | 0 <= z <= top ensures SlotStart(widths, z) + Pow2(widths[z]) <= SlotStart(widths, top + 1) {
      SlotEndInside(widths, z, top);
    }
  }

  // --- Coding symbols ---

  method WriteSymbol(t: HuffmanTable, w: BitWriter, s: nat)
    requires w.Valid() && ValidLefts(t.lengths) && t.codes == CodesFor(t.lengths) && s < |t.lengths|
    modifies w
    ensures w.Valid() && w.Content() == old(w.Content()) + LeftBits(t.lengths, s)
  {
    hide LeftBits, FromLsb, ToLsb, BitWriter.Valid, BitWriter.Content;
    ToFromLsb(LeftBits(t.lengths, s));
    w.WriteBits(t.codes[s], t.lengths[s]);
  }

  lemma {:induction false} TrailingOfWindow(w: seq<Bit>, cap: nat)
    requires cap <= |w|
    ensures TrailingZeros(FromLsb(w), cap) == LeadingZeros(w, cap)
    decreases cap
  {
    if cap > 0 {
      assert FromLsb(w) / 2 == FromLsb(w[1..]) && FromLsb(w) % 2 == w[0];
      TrailingOfWindow(w[1..], cap - 1);
    }
  }

  /** The accumulator with its top bit set, as the lookup uses it. */
  function WithSentinel(accum: nat): nat {
    if accum < 0x8000_0000 then accum + 0x8000_0000 else accum
  }

  function CellIndex(slots: seq<Slot>, accum: nat): nat
    requires |slots| == 32
  {
    var z := TrailingZeros(accum, 31);
    var shifted := if z >= 31 then 0 else Shr(WithSentinel(accum), z + 1);
    shifted % (slots[z].mask + 1) + slots[z].offset
  }

  lemma {:induction false} SentinelWord(w: seq<Bit>)
    requires |w| == 32
    ensures WithSentinel(FromLsb(w)) == FromLsb(w[..31] + [1])
  {
    hide Shl;
    var low := w[..31];
    FromLsbConcat(low, [w[31]]);
    FromLsbConcat(low, [1]);
    assert w == low + [w[31]];
    FromLsbBound(low);
    Pow2Add(16, 15);
    PowerTable();
    ShlIsMul(FromLsb([w[31]]), 31);
    ShlIsMul(FromLsb([1]), 31);
    assert FromLsb([w[31]]) == w[31] && FromLsb([1]) == 1 by { OneBit(w[31]); OneBit(1); }
  }

  lemma {:induction false} OneBit(b: Bit)
    ensures FromLsb([b]) == b
  {
    assert [b][1..] == [];
  }

  /** The index computed from the accumulator is the cell of the window it holds. */
  lemma {:induction false} IndexIsCell(lens: seq<nat>, slots: seq<Slot>, widths: seq<nat>, top: nat, w: seq<Bit>)
    requires Widths(lens, widths, top) && SlotsFor(slots, widths, top) && |w| == 32
    ensures CellIndex(slots, FromLsb(w)) == CellFor(widths, top, w)
  {
    hide FromLsb, LeadingZeros, TrailingZeros, Shr, SlotStart, InSlot, LowBits;
    TrailingOfWindow(w, 31);
    SentinelWord(w);
    var z := LeadingZeros(w, 31);
    if z <= top && z < 31 {
      var m, full := widths[z], w[..31] + [1];
      ShrOfLsb(full, z + 1);
      LowOfLsb(full[z + 1..], m);
      LowBitsIsMod(FromLsb(full[z + 1..]), m);
      assert full[z + 1..][..m] == w[z + 1..z + 1 + m];
    }
  }

  method ReadSymbol(t: HuffmanTable, r: BitReader, ghost widths: seq<nat>, ghost top: nat) returns (sym: Option<nat>)
    requires r.Valid() && |t.slots| == 32 && ShortCells(t.entries, |t.lengths|)
    requires LeftComplete(t.lengths) ==> Built(t.lengths, t.slots, t.entries, widths, top)
    modifies r
    ensures r.Valid() && (sym.Some? ==> sym.value < |t.lengths|)
    ensures LeftComplete(t.lengths) ==>
              forall s: nat ::
                LeftDecodes(t.lengths, old(r.Rest()), s) && r.padding + t.lengths[s] <= |old(r.Rest())| ==>
                sym == Some(s) && r.Rest() == old(r.Rest())[t.lengths[s]..]
  {
    hide FromLsb, LeftComplete, Built, LeftDecodes, BitReader.Valid, BitReader.Rest, CellIndex, Shr, TrailingZeros;
    ghost var rest := r.Rest();
    if |t.entries| == 0 {
      EmptyUndecodable(t, widths, top);
      return None;
    }
    var remaining := r.RemainingBits();
    var ok := r.EnsureBits(if remaining < 16 then remaining else 16);
    r.BitsInRest();
    var n := if r.bits < 32 then r.bits else 32;
    var accum := r.PeekBits(n);
    ghost var w := rest[..n] + Zeros(32 - n);
    FromLsbPadded(rest[..n], 32 - n);
    SymbolAt(t, widths, top, rest, w, n, r.padding);
    var i := CellIndex(t.slots, accum);
    if i >= |t.entries| {
      return None;
    }
    var c := t.entries[i];
    if c.len == 0 {
      return None;
    }
    r.Consume(c.len);
    sym := Some(c.symbol);
  }

  /** A table without entries belongs to no complete code. */
  lemma {:induction false} EmptyUndecodable(t: HuffmanTable, widths: seq<nat>, top: nat)
    requires |t.entries| == 0
    requires LeftComplete(t.lengths) ==> Built(t.lengths, t.slots, t.entries, widths, top)
    ensures !LeftComplete(t.lengths)
  {
  }

  lemma {:induction false} SymbolAt(t: HuffmanTable, widths: seq<nat>, top: nat, rest: seq<Bit>, w: seq<Bit>, n: nat,
                                    padding: nat)
    requires |t.slots| == 32 && n <= |rest| && n <= 32 && w == rest[..n] + Zeros(32 - n)
    requires n >= 16 || n >= Remaining(rest, padding)
    requires LeftComplete(t.lengths) ==> Built(t.lengths, t.slots, t.entries, widths, top)
    ensures LeftComplete(t.lengths) ==>
              forall s: nat :: LeftDecodes(t.lengths, rest, s) && padding + t.lengths[s] <= |rest| ==>
                var i := CellIndex(t.slots, FromLsb(w));
                i < |t.entries| && t.entries[i] == Cell(s, t.lengths[s]) && 0 < t.lengths[s] <= n && t.lengths[s] <= 16
  {
    if LeftComplete(t.lengths) {
      forall s: nat | LeftDecodes(t.lengths, rest, s) && padding + t.lengths[s] <= |rest|
        ensures var i := CellIndex(t.slots, FromLsb(w));
                i < |t.entries| && t.entries[i] == Cell(s, t.lengths[s]) && 0 < t.lengths[s] <= n && t.lengths[s] <= 16
      {
        OneSymbolAt(t, widths, top, rest, w, n, padding, s);
      }
    }
  }

  lemma {:induction false} OneSymbolAt(t: HuffmanTable, widths: seq<nat>, top: nat, rest: seq<Bit>, w: seq<Bit>,
                                       n: nat, padding: nat, s: nat)
    requires |t.slots| == 32 && n <= |rest| && n <= 32 && w == rest[..n] + Zeros(32 - n)
    requires n >= 16 || n >= Remaining(rest, padding)
    requires LeftComplete(t.lengths) && Built(t.lengths, t.slots, t.entries, widths, top)
    requires LeftDecodes(t.lengths, rest, s) && padding + t.lengths[s] <= |rest|
    ensures var i := CellIndex(t.slots, FromLsb(w));
            i < |t.entries| && t.entries[i] == Cell(s, t.lengths[s]) && 0 < t.lengths[s] <= n && t.lengths[s] <= 16
  {
    hide LeftBits, FromLsb, LeftKraft, Filled, SlotsFor, Widths, CellIndex, CellFor;
    assert LeftBits(t.lengths, s) == rest[..t.lengths[s]] == w[..t.lengths[s]];
    CellIsDecoding(t.lengths, t.slots, t.entries, widths, top, w, s);
    IndexIsCell(t.lengths, t.slots, widths, top, w);
  }
}
