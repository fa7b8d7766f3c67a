/** Offset and length slots: a value is a slot symbol followed by the distance from the slot's base. */
module SlotTables {
  import opened Powers

  /** Runs of slots with the same number of extra bits. */
  datatype Groups = End | Group(count: nat, extra: nat, rest: Groups)

  const OFFSET_GROUPS :=
    Group(8, 0, Group(9, 2, Group(7, 3, Group(10, 4, Group(15, 5, Group(15, 6, Group(20, 7,
    Group(20, 8, Group(30, 9, Group(33, 10, Group(40, 11, Group(42, 12, Group(45, 13, Group(60, 14,
    Group(73, 15, Group(80, 16, Group(85, 17, Group(95, 18, Group(105, 19, Group(6, 20,
    Group(1, 30, End)))))))))))))))))))))

  const MAX_OFFSET_SLOTS := 799
  const OFFSET_SENTINEL := 0x465B_E4A5
  const MAX_MATCH_LEN := 0x400_0000

  const LENGTH_BASES: seq<nat> :=
    [1, 2, 3, 4, 5, 6, 7, 8, 9] +
    [10, 11, 12, 13, 14, 15, 16, 17, 18] +
    [19, 20, 21, 22, 23, 24, 25, 26, 27] +
    [29, 31, 33, 35, 39, 43, 47, 51, 55] +
    [59, 67, 75, 83, 91, 107, 123, 139, 155] +
    [171, 203, 235, 299, 427, 683, 1195, 2219, 67755] +
    [1073809579]

  const LENGTH_EXTRA: seq<nat> :=
    [0, 0, 0, 0, 0, 0, 0, 0, 0] +
    [0, 0, 0, 0, 0, 0, 0, 0, 0] +
    [0, 0, 0, 0, 0, 0, 0, 0, 1] +
    [1, 1, 1, 2, 2, 2, 2, 2, 2] +
    [3, 3, 3, 3, 4, 4, 4, 4, 4] +
    [5, 5, 6, 7, 8, 9, 10, 16, 30]

  // --- The offset table ---

  /** `count` bases from `val` on, `range` apart. */
  function GroupBases(val: nat, count: nat, range: nat): (r: seq<nat>)
    ensures |r| == count
    decreases count
  {
    if count == 0 then [] else [val] + GroupBases(val + range, count - 1, range)
  }

  function BasesFrom(g: Groups, val: nat): seq<nat> {
    match g
    case End => []
    case Group(count, extra, rest) =>
      GroupBases(val, count, Pow2(extra)) + BasesFrom(rest, val + count * Pow2(extra))
  }

  function EndFrom(g: Groups, val: nat): nat {
    match g
    case End => val
    case Group(count, extra, rest) => EndFrom(rest, val + count * Pow2(extra))
  }

  function SlotsIn(g: Groups): nat {
    match g
    case End => 0
    case Group(count, _, rest) => count + SlotsIn(rest)
  }

  predicate NarrowGroups(g: Groups) {
    match g
    case End => true
    case Group(_, extra, rest) => extra <= 30 && NarrowGroups(rest)
  }

  function OffsetBases(): seq<nat> {
    BasesFrom(OFFSET_GROUPS, 1) + [OFFSET_SENTINEL]
  }

  /** A slot that spans a power of two of at most 2^30 values. */
  predicate PowerStep(a: nat, b: nat) {
    a < b && b - a == Pow2(Log2(b - a)) && Log2(b - a) <= 30
  }

  /** Slots without gap or overlap, each a power of two wide. */
  predicate Contiguous(bases: seq<nat>) {
    forall i :: 0 <= i && i + 1 < |bases| ==> PowerStep(bases[i], bases[i + 1])
  }

  lemma {:induction false} OneMoreBase(val: nat, tail: seq<nat>)
    requires Contiguous(tail) && tail != [] && PowerStep(val, tail[0])
    ensures Contiguous([val] + tail)
  {
    var r := [val] + tail;
    forall i | 0 <= i && i + 1 < |r| ensures PowerStep(r[i], r[i + 1]) {
      if i > 0 {
        assert PowerStep(tail[i - 1], tail[i - 1 + 1]);
      }
    }
  }

  lemma {:induction false} GroupContiguous(val: nat, count: nat, eb: nat, range: nat, rest: seq<nat>)
    requires eb <= 30 && range == Pow2(eb) && rest != [] && rest[0] == val + count * range && Contiguous(rest)
    ensures Contiguous(GroupBases(val, count, range) + rest)
    ensures (GroupBases(val, count, range) + rest)[0] == val
    decreases count
  {
    if count == 0 {
      assert [] + rest == rest;
    } else {
      hide Log2, Contiguous, Pow2;
      var tail := GroupBases(val + range, count - 1, range) + rest;
      Distribute(count - 1, 1, range);
      GroupContiguous(val + range, count - 1, eb, range, rest);
      Log2OfPow2(eb);
      OneMoreBase(val, tail);
      assert GroupBases(val, count, range) + rest == [val] + tail;
    }
  }

  lemma {:induction false} BasesContiguous(g: Groups, val: nat)
    requires NarrowGroups(g)
    ensures Contiguous(BasesFrom(g, val) + [EndFrom(g, val)])
    ensures (BasesFrom(g, val) + [EndFrom(g, val)])[0] == val
    ensures |BasesFrom(g, val)| == SlotsIn(g)
  {
    match g
    case End =>
    case Group(count, extra, more) =>
      var next := val + count * Pow2(extra);
      var rest := BasesFrom(more, next) + [EndFrom(more, next)];
      BasesContiguous(more, next);
      GroupContiguous(val, count, extra, Pow2(extra), rest);
      assert BasesFrom(g, val) + [EndFrom(g, val)] == GroupBases(val, count, Pow2(extra)) + rest;
  }

  lemma {:induction false} SmallPowers()
    ensures Pow2(0) == 1 && Pow2(1) == 2 && Pow2(2) == 4 && Pow2(3) == 8 && Pow2(4) == 16 && Pow2(5) == 32
            && Pow2(6) == 64 && Pow2(7) == 128
    ensures Pow2(8) == 256 && Pow2(9) == 512 && Pow2(10) == 1024 && Pow2(11) == 2048 && Pow2(12) == 4096
            && Pow2(13) == 8192 && Pow2(14) == 16384 && Pow2(15) == 32768
    ensures Pow2(16) == 65536 && Pow2(17) == 131072 && Pow2(18) == 262144 && Pow2(19) == 524288 && Pow2(20) == 1048576
    ensures Pow2(30) == 0x4000_0000
  {
    assert Pow2(4) == 16;
    assert Pow2(8) == 256;
    assert Pow2(12) == 4096;
    assert Pow2(16) == 65536;
    assert Pow2(20) == 1048576;
    Pow2Add(10, 20);
  }

  /** Accounting for one group, which spans the values from `val` up to `next`. */
  lemma {:induction false} Tail(g: Groups, val: nat, count: nat, extra: nat, range: nat, next: nat)
    returns (rest: Groups)
    requires g.Group? && g.count == count && g.extra == extra <= 30
    requires Pow2(extra) == range && next == val + count * range
    ensures rest == g.rest && EndFrom(g, val) == EndFrom(rest, next)
    ensures SlotsIn(g) == count + SlotsIn(rest) && NarrowGroups(g) == NarrowGroups(rest)
  {
    rest := g.rest;
  }

  /** The last slot's range is exactly 2^30: the sentinel continues the table. */
  lemma {:induction false} SentinelContinues()
    ensures EndFrom(OFFSET_GROUPS, 1) == OFFSET_SENTINEL
    ensures SlotsIn(OFFSET_GROUPS) == MAX_OFFSET_SLOTS
    ensures NarrowGroups(OFFSET_GROUPS)
  {
    SmallPowers();
    var g1 := Tail(OFFSET_GROUPS, 1, 8, 0, 1, 9);
    var g2 := Tail(g1, 9, 9, 2, 4, 45);
    var g3 := Tail(g2, 45, 7, 3, 8, 101);
    var g4 := Tail(g3, 101, 10, 4, 16, 261);
    var g5 := Tail(g4, 261, 15, 5, 32, 741);
    var g6 := Tail(g5, 741, 15, 6, 64, 1701);
    var g7 := Tail(g6, 1701, 20, 7, 128, 4261);
    var g8 := Tail(g7, 4261, 20, 8, 256, 9381);
    var g9 := Tail(g8, 9381, 30, 9, 512, 24741);
    var g10 := Tail(g9, 24741, 33, 10, 1024, 58533);
    var g11 := Tail(g10, 58533, 40, 11, 2048, 140453);
    var g12 := Tail(g11, 140453, 42, 12, 4096, 312485);
    var g13 := Tail(g12, 312485, 45, 13, 8192, 681125);
    var g14 := Tail(g13, 681125, 60, 14, 16384, 1664165);
    var g15 := Tail(g14, 1664165, 73, 15, 32768, 4056229);
    var g16 := Tail(g15, 4056229, 80, 16, 65536, 9299109);
    assert 85 * 131072 == 11141120;
    var g17 := Tail(g16, 9299109, 85, 17, 131072, 20440229);
    var g18 := Tail(g17, 20440229, 95, 18, 262144, 45343909);
    var g19 := Tail(g18, 45343909, 105, 19, 524288, 100394149);
    var g20 := Tail(g19, 100394149, 6, 20, 1048576, 106685605);
    var g21 := Tail(g20, 106685605, 1, 30, 1073741824, 1180427429);
    assert g21 == End;
  }

  /** The table of offset slot bases, ending with the sentinel. */
  predicate OffsetTable(bases: seq<nat>) {
    && |bases| == MAX_OFFSET_SLOTS + 1 && bases[0] == 1 && bases[MAX_OFFSET_SLOTS] == OFFSET_SENTINEL
    && Contiguous(bases)
  }

  lemma {:induction false} OffsetTableContiguous()
    ensures OffsetTable(OffsetBases())
  {
    SentinelContinues();
    BasesContiguous(OFFSET_GROUPS, 1);
  }

  lemma {:induction false} GroupBasesNext(val: nat, k: nat, range: nat)
    ensures GroupBases(val, k + 1, range) == GroupBases(val, k, range) + [val + k * range]
    decreases k
  {
    if k > 0 {
      GroupBasesNext(val + range, k - 1, range);
      Distribute(k - 1, 1, range);
    }
  }

  lemma {:induction false} EndFromAbove(g: Groups, val: nat)
    ensures val <= EndFrom(g, val)
  {
    if g.Group? {
      EndFromAbove(g.rest, val + g.count * Pow2(g.extra));
    }
  }

  function SaturatingAdd(a: nat, b: nat): nat {
    if a + b > 0xFFFF_FFFF then 0xFFFF_FFFF else a + b
  }

  /** Push the bases of one group; `val` saturates at 32 bits, which never happens. */
  method PushGroup(bases: seq<nat>, val: nat, count: nat, range: nat) returns (bases': seq<nat>, val': nat)
    requires val + count * range < 0x1_0000_0000
    ensures bases' == bases + GroupBases(val, count, range) && val' == val + count * range
  {
    bases', val' := bases, val;
    for k := 0 to count
      invariant bases' == bases + GroupBases(val, k, range) && val' == val + k * range
    {
      GroupBasesNext(val, k, range);
      MulMonotone(range, k + 1, count);
      Distribute(k, 1, range);
      bases' := bases' + [val'];
      val' := SaturatingAdd(val', range);
    }
  }

  method Generate() returns (bases: seq<nat>)
    ensures bases == OffsetBases()
  {
    SentinelContinues();
    bases := PushGroups(OFFSET_GROUPS);
    bases := bases + [OFFSET_SENTINEL];
  }

  lemma {:induction false} PushStep(bases: seq<nat>, g: Groups, val: nat)
    requires g.Group?
    ensures var next := val + g.count * Pow2(g.extra);
            && EndFrom(g.rest, next) == EndFrom(g, val) && next <= EndFrom(g, val)
            && bases + BasesFrom(g, val) == bases + GroupBases(val, g.count, Pow2(g.extra)) + BasesFrom(g.rest, next)
  {
    EndFromAbove(g.rest, val + g.count * Pow2(g.extra));
  }

  method PushGroups(groups: Groups) returns (bases: seq<nat>)
    requires EndFrom(groups, 1) < 0x1_0000_0000
    ensures bases == BasesFrom(groups, 1)
  {
    hide BasesFrom, EndFrom, GroupBases, Pow2;
    bases := [];
    var val: nat := 1;
    var g := groups;
    assert bases + BasesFrom(g, val) == BasesFrom(groups, 1);
    while g.Group?
      invariant bases + BasesFrom(g, val) == BasesFrom(groups, 1)
      invariant EndFrom(g, val) == EndFrom(groups, 1)
      decreases g
    {
      PushStep(bases, g, val);
      bases, val := PushGroup(bases, val, g.count, Pow2(g.extra));
      g := g.rest;
    }
    assert BasesFrom(g, val) == [] by { NothingFrom(g, val); }
  }

  lemma {:induction false} NothingFrom(g: Groups, val: nat)
    requires g.End?
    ensures BasesFrom(g, val) == []
  {
  }

  // --- Slot search ---

  /** The last of the first `n + 1` bases that is at most `v`, or 0. */
  function FindSlot(bases: seq<nat>, v: nat, n: nat): (slot: nat)
    requires n < |bases|
    ensures slot <= n
  {
    if n == 0 || bases[n] <= v then n else FindSlot(bases, v, n - 1)
  }

  function ExtraBits(bases: seq<nat>, slot: nat): nat
    requires slot + 1 < |bases|
  {
    if bases[slot + 1] <= bases[slot] + 1 then 0 else Log2(bases[slot + 1] - bases[slot])
  }

  function FindOffsetSlot(bases: seq<nat>, offset: nat): (slot: nat)
    requires |bases| == MAX_OFFSET_SLOTS + 1
    ensures slot < MAX_OFFSET_SLOTS
  {
    FindSlot(bases, offset, MAX_OFFSET_SLOTS - 1)
  }

  function FindLengthSlot(length: nat): (slot: nat)
    ensures slot <= 54
  {
    FindSlot(LENGTH_BASES, length, 54)
  }

  lemma {:induction false} Ascending(bases: seq<nat>, i: nat, j: nat)
    requires Contiguous(bases) && i <= j < |bases|
    ensures bases[i] <= bases[j]
  {
    if i < j {
      Ascending(bases, i, j - 1);
      assert PowerStep(bases[j - 1], bases[j - 1 + 1]);
    }
  }

  lemma {:induction false} FindSlotBrackets(bases: seq<nat>, v: nat, n: nat)
    requires n + 1 < |bases| && bases[0] <= v < bases[n + 1]
    ensures var slot := FindSlot(bases, v, n); bases[slot] <= v < bases[slot + 1]
  {
    if n > 0 && v < bases[n] {
      FindSlotBrackets(bases, v, n - 1);
    }
  }

  /** Slot base plus extra bits names every value of a contiguous table. */
  lemma {:induction false} ExtraFits(bases: seq<nat>, v: nat, n: nat)
    requires Contiguous(bases) && n + 1 < |bases| && bases[0] <= v < bases[n + 1]
    ensures var slot := FindSlot(bases, v, n);
            bases[slot] <= v && v - bases[slot] < Pow2(ExtraBits(bases, slot)) && ExtraBits(bases, slot) <= 30
  {
    FindSlotBrackets(bases, v, n);
    var slot := FindSlot(bases, v, n);
    assert PowerStep(bases[slot], bases[slot + 1]);
  }

  /** How many slots can name the offsets of an output of this size. */
  function NumOffsetSlots(bases: seq<nat>, size: nat): (n: nat)
    requires |bases| == MAX_OFFSET_SLOTS + 1
    ensures n <= MAX_OFFSET_SLOTS
  {
    if size < 2 then 0 else CountSlots(bases, size, 1)
  }

  function CountSlots(bases: seq<nat>, size: nat, n: nat): (r: nat)
    requires |bases| == MAX_OFFSET_SLOTS + 1 && 1 <= n <= MAX_OFFSET_SLOTS
    ensures n <= r <= MAX_OFFSET_SLOTS
    decreases size, MAX_OFFSET_SLOTS - n
  {
    if n < MAX_OFFSET_SLOTS && bases[n] < size then CountSlots(bases, size, n + 1) else n
  }

  method CountOffsetSlots(bases: seq<nat>, size: nat) returns (n: nat)
    requires |bases| == MAX_OFFSET_SLOTS + 1
    ensures n == NumOffsetSlots(bases, size)
  {
    if size < 2 {
      return 0;
    }
    n := 1;
    while n < |bases| - 1 && bases[n] < size
      invariant 1 <= n <= MAX_OFFSET_SLOTS && CountSlots(bases, size, n) == NumOffsetSlots(bases, size)
    {
      n := n + 1;
    }
  }

  lemma {:induction false} CountSlotsEnd(bases: seq<nat>, size: nat, n: nat)
    requires |bases| == MAX_OFFSET_SLOTS + 1 && 1 <= n <= MAX_OFFSET_SLOTS
    ensures var r := CountSlots(bases, size, n); r < MAX_OFFSET_SLOTS ==> bases[r] >= size
    decreases MAX_OFFSET_SLOTS - n
  {
    if n < MAX_OFFSET_SLOTS && bases[n] < size {
      CountSlotsEnd(bases, size, n + 1);
    }
  }

  /** An offset inside an output of `size` bytes has a slot among those of that output, and its
      distance from the base fits the slot's extra bits. */
  lemma {:induction false} OffsetSlotCovers(bases: seq<nat>, offset: nat, size: nat)
    requires OffsetTable(bases) && 1 <= offset < size <= OFFSET_SENTINEL
    ensures var slot := FindOffsetSlot(bases, offset);
            && slot < NumOffsetSlots(bases, size)
            && bases[slot] <= offset && ExtraBits(bases, slot) <= 30
            && offset - bases[slot] < Pow2(ExtraBits(bases, slot))
  {
    ExtraFits(bases, offset, MAX_OFFSET_SLOTS - 1);
    var slot, n := FindOffsetSlot(bases, offset), NumOffsetSlots(bases, size);
    CountSlotsEnd(bases, size, 1);
    if slot >= n {
      Ascending(bases, n, slot);
    }
  }

  lemma {:induction false} SlotReadable(bases: seq<nat>, slot: nat)
    requires OffsetTable(bases) && slot < MAX_OFFSET_SLOTS
    ensures |bases| == MAX_OFFSET_SLOTS + 1 && bases[slot] >= 1 && ExtraBits(bases, slot) <= 30
  {
    Ascending(bases, 0, slot);
    assert PowerStep(bases[slot], bases[slot + 1]);
  }

  // --- Lengths ---

  predicate LengthStep(i: nat)
    requires i < 54
  {
    LENGTH_BASES[i] + Pow2(LENGTH_EXTRA[i]) == LENGTH_BASES[i + 1] && LENGTH_EXTRA[i] <= 30
  }

  lemma {:induction false} LengthRow0(i: nat)
    requires 0 <= i < 9
    ensures LengthStep(i)
  {
    SmallPowers();
    assert LengthStep(0) && LengthStep(1) && LengthStep(2) && LengthStep(3) && LengthStep(4);
    assert LengthStep(5) && LengthStep(6) && LengthStep(7) && LengthStep(8);
  }

  lemma {:induction false} LengthRow1(i: nat)
    requires 9 <= i < 18
    ensures LengthStep(i)
  {
    SmallPowers();
    assert LengthStep(9) && LengthStep(10) && LengthStep(11) && LengthStep(12) && LengthStep(13);
    assert LengthStep(14) && LengthStep(15) && LengthStep(16) && LengthStep(17);
  }

  lemma {:induction false} LengthRow2(i: nat)
    requires 18 <= i < 27
    ensures LengthStep(i)
  {
    SmallPowers();
    assert LengthStep(18) && LengthStep(19) && LengthStep(20) && LengthStep(21) && LengthStep(22);
    assert LengthStep(23) && LengthStep(24) && LengthStep(25) && LengthStep(26);
  }

  lemma {:induction false} LengthRow3(i: nat)
    requires 27 <= i < 36
    ensures LengthStep(i)
  {
    SmallPowers();
    assert LengthStep(27) && LengthStep(28) && LengthStep(29) && LengthStep(30) && LengthStep(31);
    assert LengthStep(32) && LengthStep(33) && LengthStep(34) && LengthStep(35);
  }

  lemma {:induction false} LengthRow4(i: nat)
    requires 36 <= i < 45
    ensures LengthStep(i)
  {
    SmallPowers();
    assert LengthStep(36) && LengthStep(37) && LengthStep(38) && LengthStep(39) && LengthStep(40);
    assert LengthStep(41) && LengthStep(42) && LengthStep(43) && LengthStep(44);
  }

  lemma {:induction false} LengthRow5(i: nat)
    requires 45 <= i < 54
    ensures LengthStep(i)
  {
    SmallPowers();
    assert LengthStep(45) && LengthStep(46) && LengthStep(47) && LengthStep(48) && LengthStep(49);
    assert LengthStep(50) && LengthStep(51) && LengthStep(52) && LengthStep(53);
  }

  lemma {:induction false} LengthTable(i: nat)
    requires i < 54
    ensures LengthStep(i)
  {
    if i < 9 {
      LengthRow0(i);
    } else if i < 18 {
      LengthRow1(i);
    } else if i < 27 {
      LengthRow2(i);
    } else if i < 36 {
      LengthRow3(i);
    } else if i < 45 {
      LengthRow4(i);
    } else {
      LengthRow5(i);
    }
  }

  lemma {:induction false} LengthTableSizes()
    ensures |LENGTH_BASES| == 55 && |LENGTH_EXTRA| == 54
  {
  }

  lemma {:induction false} LengthBasePositive(i: nat)
    requires i < 54
    ensures LENGTH_BASES[i] >= 1
    decreases i
  {
    if i > 0 {
      LengthTable(i - 1);
      LengthBasePositive(i - 1);
    }
  }

  lemma {:induction false} LengthSlotCovers(length: nat)
    requires 1 <= length <= MAX_MATCH_LEN
    ensures var slot := FindLengthSlot(length);
            && slot < 54 && LENGTH_BASES[slot] <= length && LENGTH_EXTRA[slot] <= 30
            && length - LENGTH_BASES[slot] < Pow2(LENGTH_EXTRA[slot])
  {
    assert LENGTH_BASES[0] == 1 && LENGTH_BASES[54] == 0x4001_08AB;
    FindSlotBrackets(LENGTH_BASES, length, 53);
    LengthTable(FindLengthSlot(length));
  }
}
