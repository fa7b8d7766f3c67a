/** The decode table of the patch codec, indexed by the number of trailing zeros of the accumulator: a slot
    for each count of zeros, and in it one cell for every pattern of the bits after the first 1. */
module CtzTable {
  import opened Powers
  import opened BitStrings
  import opened LsbBits
  import opened LeftCode
  import opened BitReading

  /** `mask` is a power of two less 1. */
  datatype Slot = Slot(mask: nat, offset: nat)

  datatype Cell = Cell(symbol: nat, len: nat)

  datatype HuffmanTable = HuffmanTable(slots: seq<Slot>, entries: seq<Cell>, lengths: seq<nat>, codes: seq<nat>)

  // --- Which cells belong to a symbol ---

  /** The bits that lead to cell `t` of the slot for `z` zeros, which is `m` bits wide. */
  function CellBits(z: nat, t: nat, m: nat): (bs: seq<Bit>)
    ensures |bs| == z + 1 + m
  {
    Zeros(z) + [1] + ToLsb(t, m)
  }

  /** The code of `s` starts with `z` zeros and a 1. */
  predicate InSlot(lens: seq<nat>, s: nat, z: nat) {
    s < |lens| && z < lens[s] && LeadingZeros(LeftBits(lens, s), 31) == z && LeftBits(lens, s)[z] == 1
  }

  predicate Owns(lens: seq<nat>, s: nat, z: nat, t: nat, m: nat) {
    InSlot(lens, s, z) && lens[s] <= z + 1 + m && LeftBits(lens, s) <= CellBits(z, t, m)
  }

  /** Slot widths: wide enough for every code in the slot; `top` is the last slot in use. */
  ghost predicate Widths(lens: seq<nat>, widths: seq<nat>, top: nat) {
    && |widths| == 32 && top <= 15
    && (forall z :: 0 <= z < 32 ==> widths[z] == 0 || z + 1 + widths[z] <= MAX_LEFT_LEN)
    && (forall s: nat, z: nat :: InSlot(lens, s, z) ==> z <= top && lens[s] <= z + 1 + widths[z])
    && (top > 0 ==> exists s: nat :: InSlot(lens, s, top))
  }

  /** Where the cells of slot `z` start. */
  function SlotStart(widths: seq<nat>, z: nat): nat
    requires z <= |widths|
  {
    if z == 0 then 0 else SlotStart(widths, z - 1) + Pow2(widths[z - 1])
  }

  lemma {:induction false} SlotStartMonotone(widths: seq<nat>, y: nat, z: nat)
    requires y < z <= |widths|
    ensures SlotStart(widths, y) + Pow2(widths[y]) <= SlotStart(widths, z)
  {
    if y < z - 1 {
      SlotStartMonotone(widths, y, z - 1);
    }
  }

  predicate CellIs(lens: seq<nat>, k: nat, c: Cell, z: nat, t: nat, m: nat) {
    c.symbol < k && Owns(lens, c.symbol, z, t, m) && c.len == lens[c.symbol]
  }

  /** Every cell owned by one of the first `k` symbols holds an owner. */
  ghost predicate Filled(lens: seq<nat>, k: nat, widths: seq<nat>, top: nat, entries: seq<Cell>) {
    && |widths| == 32 && top < 32 && |entries| == SlotStart(widths, top + 1) + 1
    && forall s, z, t :: 0 <= s < k && 0 <= z <= top && 0 <= t < Pow2(widths[z]) && Owns(lens, s, z, t, widths[z]) ==>
         && SlotStart(widths, z) + t < |entries|
         && CellIs(lens, k, entries[SlotStart(widths, z) + t], z, t, widths[z])
  }

  // --- Cells of one symbol ---

  /** The bits after the first 1 fix the low bits of the cell number. */
  lemma {:induction false} OwnedCells(lens: seq<nat>, s: nat, z: nat, t: nat, m: nat)
    requires InSlot(lens, s, z) && lens[s] <= z + 1 + m && t < Pow2(m)
    ensures var extra := lens[s] - z - 1;
            Owns(lens, s, z, t, m) <==> LowBits(t, extra) == FromLsb(LeftBits(lens, s)[z + 1..])
  {
    hide LeftBits, FromLsb, ToLsb, LowBits, LeadingZeros;
    var extra, bits := lens[s] - z - 1, LeftBits(lens, s);
    var x := bits[z + 1..];
    assert bits == Zeros(z) + [1] + x by { LeadingPart(bits, z); }
    FromToLsb(t, m);
    LowOfLsb(ToLsb(t, m), extra);
    LowBitsFit(t, m);
    ToFromLsb(x);
    ToLsbSplit(t, extra, m - extra);
    if LowBits(t, extra) == FromLsb(x) {
      assert ToLsb(t, m)[..extra] == x;
    }
    if bits <= CellBits(z, t, m) {
      assert CellBits(z, t, m)[z + 1..lens[s]] == ToLsb(t, m)[..extra];
      assert bits == CellBits(z, t, m)[..lens[s]];
      assert x == CellBits(z, t, m)[z + 1..lens[s]];
    }
  }

  lemma {:induction false} LeadingPart(bits: seq<Bit>, z: nat)
    requires z < |bits| && LeadingZeros(bits, 31) == z && bits[z] == 1
    ensures bits == Zeros(z) + [1] + bits[z + 1..]
  {
    hide LeadingZeros;
  }

  // --- What a finished table gives ---

  /** The slots as built: widths as masks, and empty slots after the last used one. */
  predicate SlotsFor(slots: seq<Slot>, widths: seq<nat>, top: nat) {
    && |slots| == 32 && |widths| == 32 && top < 32
    && forall z :: 0 <= z < 32 ==>
         slots[z] == if z <= top then Slot(Pow2(widths[z]) - 1, SlotStart(widths, z))
                     else Slot(0, SlotStart(widths, top + 1))
  }

  /** The table is finished: owned cells are filled, and the extra cell is for the code of zeros. */
  ghost predicate Built(lens: seq<nat>, slots: seq<Slot>, entries: seq<Cell>, widths: seq<nat>, top: nat) {
    && Widths(lens, widths, top) && SlotsFor(slots, widths, top)
    && Filled(lens, |lens|, widths, top, entries)
    && forall s :: 0 <= s < |lens| && lens[s] > 0 && LeftBits(lens, s) == Zeros(lens[s]) ==>
         var c := entries[|entries| - 1];
         c.symbol < |lens| && lens[c.symbol] > 0 && c.len == lens[c.symbol] && LeftBits(lens, c.symbol) == Zeros(c.len)
  }

  /** The cell for a window of 32 bits. */
  function CellFor(widths: seq<nat>, top: nat, w: seq<Bit>): (i: nat)
    requires |w| == 32 && |widths| == 32 && top < 32
    requires forall z :: 0 <= z < 32 ==> widths[z] == 0 || z + 1 + widths[z] <= MAX_LEFT_LEN
  {
    var z := LeadingZeros(w, 31);
    if z <= top && z < 31 then SlotStart(widths, z) + FromLsb(w[z + 1..z + 1 + widths[z]])
    else SlotStart(widths, top + 1)
  }

  /** A code that starts a window with `z` zeros and a 1 in front is either all zeros or in slot `z`. */
  lemma {:induction false} CodeInSlot(lens: seq<nat>, w: seq<Bit>, s: nat, z: nat)
    requires LeftDecodes(lens, w, s) && |w| == 32 && z == LeadingZeros(w, 31)
    ensures lens[s] <= z ==> LeftBits(lens, s) == Zeros(lens[s])
    ensures z < lens[s] && z < 31 ==> InSlot(lens, s, z)
  {
    var bits := LeftBits(lens, s);
    assert bits == w[..lens[s]];
    hide LeftBits;
    if z < lens[s] && z < 31 {
      assert bits[z] == w[z] == 1;
      LeadingOfPrefix(bits, w, 31);
    }
  }

  /** The table agrees with prefix decoding: for a complete code the cell of a window holds the one
      symbol whose code starts it, and the length of that code. */
  lemma {:induction false} CellIsDecoding(lens: seq<nat>, slots: seq<Slot>, entries: seq<Cell>, widths: seq<nat>,
                                          top: nat, w: seq<Bit>, s: nat)
    requires LeftComplete(lens) && Built(lens, slots, entries, widths, top)
    requires |w| == 32 && LeftDecodes(lens, w, s)
    ensures CellFor(widths, top, w) < |entries|
    ensures entries[CellFor(widths, top, w)] == Cell(s, lens[s])
  {
    hide LeftBits, LeftComplete, Filled, LeadingZeros, SlotsFor;
    var z := LeadingZeros(w, 31);
    CodeInSlot(lens, w, s, z);
    if lens[s] <= z || z == 31 {
      ZeroCell(lens, slots, entries, widths, top, w, s);
    } else {
      SlotCell(lens, entries, widths, top, w, s, z);
    }
  }

  lemma {:induction false} SlotCell(lens: seq<nat>, entries: seq<Cell>, widths: seq<nat>, top: nat, w: seq<Bit>,
                                    s: nat, z: nat)
    requires LeftComplete(lens) && Widths(lens, widths, top) && Filled(lens, |lens|, widths, top, entries)
    requires |w| == 32 && LeftDecodes(lens, w, s) && z == LeadingZeros(w, 31) < 31 && InSlot(lens, s, z)
    ensures CellFor(widths, top, w) < |entries|
    ensures entries[CellFor(widths, top, w)] == Cell(s, lens[s])
  {
    hide LeftBits, LeftComplete, LeadingZeros, SlotStart;
    var m := widths[z];
    var t := FromLsb(w[z + 1..z + 1 + m]);
    assert z < 32 && z + 1 + m <= 32;
    FromLsbBound(w[z + 1..z + 1 + m]);
    ToFromLsb(w[z + 1..z + 1 + m]);
    assert w[..z + 1 + m] == CellBits(z, t, m);
    assert LeftBits(lens, s) <= CellBits(z, t, m);
    assert Owns(lens, s, z, t, m);
    var c := entries[SlotStart(widths, z) + t];
    assert CellIs(lens, |lens|, c, z, t, m);
    assert LeftBits(lens, c.symbol) <= w;
    LeftUnique(lens, w, s, c.symbol);
  }

  lemma {:induction false} ZeroCell(lens: seq<nat>, slots: seq<Slot>, entries: seq<Cell>, widths: seq<nat>,
                                    top: nat, w: seq<Bit>, s: nat)
    requires LeftComplete(lens) && Built(lens, slots, entries, widths, top)
    requires |w| == 32 && LeftDecodes(lens, w, s)
    requires var z := LeadingZeros(w, 31); lens[s] <= z || z == 31
    ensures CellFor(widths, top, w) < |entries|
    ensures entries[CellFor(widths, top, w)] == Cell(s, lens[s])
  {
    hide LeftBits, LeadingZeros, SlotStart;
    var z := LeadingZeros(w, 31);
    assert lens[s] <= MAX_LEFT_LEN;
    assert LeftBits(lens, s) == w[..lens[s]] == Zeros(lens[s]);
    SlotsBeforeZeros(lens, widths, top, s);
    assert |entries| == SlotStart(widths, top + 1) + 1;
    var c := entries[|entries| - 1];
    assert c.len <= MAX_LEFT_LEN;
    SameZeros(lens, w, s, c.symbol);
  }

  lemma {:induction false} SameZeros(lens: seq<nat>, w: seq<Bit>, s: nat, t: nat)
    requires LeftComplete(lens) && s < |lens| && t < |lens| && lens[s] > 0 && lens[t] > 0
    requires LeftBits(lens, s) == Zeros(lens[s]) && LeftBits(lens, t) == Zeros(lens[t])
    ensures s == t
  {
    hide LeftBits, LeftKraft;
    var z := Zeros(MAX_LEFT_LEN);
    assert Zeros(lens[s]) <= z && Zeros(lens[t]) <= z;
    LeftUnique(lens, z, s, t);
  }

  /** Every used slot lies before the length of the code of zeros. */
  lemma {:induction false} SlotsBeforeZeros(lens: seq<nat>, widths: seq<nat>, top: nat, s: nat)
    requires LeftComplete(lens) && s < |lens| && lens[s] > 0 && LeftBits(lens, s) == Zeros(lens[s])
    requires Widths(lens, widths, top)
    ensures top < lens[s]
  {
    if top >= lens[s] {
      var r: nat :| InSlot(lens, r, top);
      var w := LeftBits(lens, r) + Zeros(MAX_LEFT_LEN);
      assert LeftBits(lens, r)[..top] == Zeros(top) by { LeadingPart(LeftBits(lens, r), top); }
      assert LeftBits(lens, r)[top] == 1;
      hide LeftBits, LeftKraft, LeadingZeros;
      assert w[..lens[s]] == Zeros(lens[s]);
      LeftUnique(lens, w, s, r);
    }
  }
}
