/** Rewriting the displacements of 64-bit x86 code for a new layout. The instructions stay where they are, and every
    displacement afterwards leads to where its old target is mapped. */
module X64Rewrite {
  import opened Powers
  import opened RangeCoding
  import opened LsbBits
  import opened Rift
  import opened CanonicalCode
  import opened X64Disasm

  const WORD32 := 0x1_0000_0000

  // --- Displacements and addresses ---

  /** Where the map sends an address; below its first entry addresses stay. */
  function MapRva(t: Table, rva: int): I64 {
    var pos := Wrap(rva);
    if |t| == 0 || pos < t[0].source then pos else Wrap(pos + Delta(t[Find(t, pos)]))
  }

  function Signed32(v: nat): int {
    if v % WORD32 >= WORD32 / 2 then v % WORD32 - WORD32 else v % WORD32
  }

  predicate InImage(image: seq<Byte>, at: nat) {
    at + 4 <= |image|
  }

  function Displacement(image: seq<Byte>, at: nat): int
    requires InImage(image, at)
  {
    Signed32(LeValue(image[at..at + 4]))
  }

  /** Four bytes, the lowest one first, read as a signed number. */
  lemma {:induction false} DisplacementBytes(image: seq<Byte>, at: nat)
    requires InImage(image, at)
    ensures var a: nat, b: nat, c: nat, d: nat := image[at], image[at + 1], image[at + 2], image[at + 3];
            Displacement(image, at) == a + 0x100 * b + 0x1_0000 * c + 0x100_0000 * d - if d >= 0x80 then WORD32 else 0
  {
    FourBytes(image[at..at + 4]);
  }

  /** The distance between the images of the two ends. */
  function Remapped(t: Table, next: int, disp: int): int {
    var to: int := MapRva(t, next + disp);
    to - MapRva(t, next)
  }

  function Put32(image: seq<Byte>, at: nat, v: int): (r: seq<Byte>)
    requires InImage(image, at)
    ensures |r| == |image|
    ensures forall i :: 0 <= i < |r| && !(at <= i < at + 4) ==> r[i] == image[i]
  {
    image[..at] + LeBytes(v % WORD32, 4) + image[at + 4..]
  }

  lemma {:induction false} PutGet(image: seq<Byte>, at: nat, v: int)
    requires InImage(image, at)
    ensures (Displacement(Put32(image, at, v), at) - v) % WORD32 == 0
  {
    hide LeBytes, LeValue;
    PowerTable();
    LeReadBack(v % WORD32, 4);
    assert Put32(image, at, v)[at..at + 4] == LeBytes(v % WORD32, 4);
    SameResidue(v);
  }

  lemma {:induction false} SameResidue(v: int)
    ensures (Signed32(v % WORD32) - v) % WORD32 == 0
  {
  }

  // --- One function ---

  function CodeAt(image: seq<Byte>, off: nat, room: nat): (code: seq<Byte>)
    requires off < |image| && room > 0
    ensures 0 < |code| <= room && off + |code| <= |image| && code == image[off..off + |code|]
  {
    if off + room <= |image| then image[off..off + room] else image[off..]
  }

  /** The instruction at `off`, of which at most `room` bytes belong to the function. */
  function InsnAt(image: seq<Byte>, off: nat, room: nat): (i: Insn)
    requires off < |image| && room > 0
    ensures 1 <= i.len <= room && off + i.len <= |image|
    ensures i.field.Some? ==> 1 <= i.field.value && i.field.value + 4 <= i.len && InImage(image, off + i.field.value)
  {
    DisasmInside(CodeAt(image, off, room));
    Disasm(CodeAt(image, off, room))
  }

  function RewriteOne(image: seq<Byte>, t: Table, off: nat, rva: int, i: Insn): (r: seq<Byte>)
    requires i.field.Some? ==> InImage(image, off + i.field.value)
    ensures |r| == |image|
  {
    if i.field.None? then image
    else
      var at, next := off + i.field.value, rva + i.len;
      Put32(image, at, Remapped(t, next, Displacement(image, at)))
  }

  /** From `off` on, as long as the function lasts. */
  function Rewrite(image: seq<Byte>, t: Table, off: nat, rva: int, end: int): (r: seq<Byte>)
    ensures |r| == |image|
    decreases end - rva
  {
    if rva < end && off < |image| then
      var i := InsnAt(image, off, end - rva);
      Rewrite(RewriteOne(image, t, off, rva, i), t, off + i.len, rva + i.len, end)
    else image
  }

  /** An instruction that the sweep meets: its place in the file, its address, and what it is. */
  datatype Met = Met(off: nat, rva: int, insn: Insn)

  function Sweep(image: seq<Byte>, off: nat, rva: int, end: int): (r: seq<Met>)
    ensures forall k :: 0 <= k < |r| ==>
              off <= r[k].off && 1 <= r[k].insn.len && r[k].off + r[k].insn.len <= off + (end - rva)
              && (r[k].insn.field.Some? ==>
                    1 <= r[k].insn.field.value && r[k].insn.field.value + 4 <= r[k].insn.len
                    && InImage(image, r[k].off + r[k].insn.field.value))
    decreases end - rva
  {
    if rva < end && off < |image| then
      var i := InsnAt(image, off, end - rva);
      [Met(off, rva, i)] + Sweep(image, off + i.len, rva + i.len, end)
    else []
  }

  // --- What a rewrite leaves alone ---

  predicate SameOn(a: seq<Byte>, b: seq<Byte>, lo: int, hi: int) {
    |a| == |b| && forall i :: 0 <= i < |a| && lo <= i < hi ==> a[i] == b[i]
  }

  lemma {:induction false} SameInsn(a: seq<Byte>, b: seq<Byte>, off: nat, room: nat)
    requires off < |a| && room > 0 && SameOn(a, b, off, off + room)
    ensures InsnAt(a, off, room) == InsnAt(b, off, room)
  {
    hide Disasm;
    if off + room <= |a| {
      assert a[off..off + room] == b[off..off + room];
    } else {
      assert a[off..] == b[off..];
    }
  }

  lemma {:induction false} SameSweep(a: seq<Byte>, b: seq<Byte>, off: nat, rva: int, end: int)
    requires SameOn(a, b, off, off + (end - rva))
    ensures Sweep(a, off, rva, end) == Sweep(b, off, rva, end)
    decreases end - rva
  {
    hide InsnAt;
    if rva < end && off < |a| {
      SameInsn(a, b, off, end - rva);
      var i := InsnAt(a, off, end - rva);
      SameSweep(a, b, off + i.len, rva + i.len, end);
    }
  }

  lemma {:induction false} OneStaysInside(image: seq<Byte>, t: Table, off: nat, rva: int, room: nat)
    requires off < |image| && room > 0
    ensures var i := InsnAt(image, off, room); var r := RewriteOne(image, t, off, rva, i);
            && SameOn(image, r, 0, off + 1) && SameOn(image, r, off + i.len, |image|)
            && (i.field.Some? ==> SameOn(image, r, 0, off + i.field.value))
            && (i.field.None? ==> r == image)
  {
    hide InsnAt, Remapped, Displacement, Put32;
  }

  /** Only bytes of the function change, and never its first one. */
  lemma {:induction false} RewriteStaysInside(image: seq<Byte>, t: Table, off: nat, rva: int, end: int)
    ensures var r := Rewrite(image, t, off, rva, end);
            SameOn(image, r, 0, off + 1) && SameOn(image, r, off + (end - rva), |image|)
    decreases end - rva
  {
    hide InsnAt, RewriteOne;
    if rva < end && off < |image| {
      var i := InsnAt(image, off, end - rva);
      OneStaysInside(image, t, off, rva, end - rva);
      RewriteStaysInside(RewriteOne(image, t, off, rva, i), t, off + i.len, rva + i.len, end);
    }
  }

  // --- The rewritten function ---

  /** Every displacement leads, from the mapped end of its instruction, to where the old target is mapped. */
  predicate Mapped(image: seq<Byte>, final: seq<Byte>, t: Table, met: seq<Met>) {
    |final| == |image| && forall k :: 0 <= k < |met| && met[k].insn.field.Some? ==> MappedOne(image, final, t, met[k])
  }

  predicate MappedOne(image: seq<Byte>, final: seq<Byte>, t: Table, m: Met)
    requires m.insn.field.Some? && |final| == |image|
  {
    var at, next := m.off + m.insn.field.value, m.rva + m.insn.len;
    && InImage(image, at)
    && (MapRva(t, next) + Displacement(final, at) - MapRva(t, next + Displacement(image, at))) % WORD32 == 0
  }

  predicate InField(met: seq<Met>, b: int) {
    exists k :: 0 <= k < |met| && met[k].insn.field.Some?
                && met[k].off + met[k].insn.field.value <= b < met[k].off + met[k].insn.field.value + 4
  }

  predicate OnlyFields(image: seq<Byte>, final: seq<Byte>, met: seq<Met>) {
    |final| == |image| && forall b :: 0 <= b < |image| && !InField(met, b) ==> final[b] == image[b]
  }

  lemma {:induction false} FieldWritten(image: seq<Byte>, t: Table, off: nat, rva: int, i: Insn)
    requires i.field.Some? && InImage(image, off + i.field.value)
    ensures MappedOne(image, RewriteOne(image, t, off, rva, i), t, Met(off, rva, i))
  {
    hide MapRva, Displacement, Put32;
    var at, next := off + i.field.value, rva + i.len;
    PutGet(image, at, Remapped(t, next, Displacement(image, at)));
  }

  lemma {:induction false} SameMapped(a: seq<Byte>, b: seq<Byte>, f: seq<Byte>, g: seq<Byte>, t: Table, m: Met)
    requires m.insn.field.Some? && |a| == |b| == |f| == |g|
    requires var at := m.off + m.insn.field.value; SameOn(a, b, at, at + 4) && SameOn(f, g, at, at + 4)
    requires MappedOne(a, f, t, m)
    ensures MappedOne(b, g, t, m)
  {
    hide MapRva, LeValue, Signed32;
    var at := m.off + m.insn.field.value;
    assert a[at..at + 4] == b[at..at + 4] && f[at..at + 4] == g[at..at + 4];
  }

  /** The first instruction of a rewritten function is still the same. */
  lemma {:induction false} FirstKept(image: seq<Byte>, t: Table, off: nat, rva: int, end: int)
    requires rva < end && off < |image|
    ensures InsnAt(Rewrite(image, t, off, rva, end), off, end - rva) == InsnAt(image, off, end - rva)
  {
    hide Disasm, RewriteOne, Rewrite;
    var room := end - rva;
    var i, final := InsnAt(image, off, room), Rewrite(image, t, off, rva, end);
    var one := RewriteOne(image, t, off, rva, i);
    OneStaysInside(image, t, off, rva, room);
    RewriteStaysInside(one, t, off + i.len, rva + i.len, end);
    assert final == Rewrite(one, t, off + i.len, rva + i.len, end) by { RewriteStep(image, t, off, rva, end); }
    var code, other := CodeAt(image, off, room), CodeAt(final, off, room);
    var n := if i.field.Some? then i.field.value else if i.len + 1 <= |code| then i.len + 1 else |code|;
    SameCode(image, final, off, room, n);
    if i.field.Some? {
      FieldBlind(code, other);
    } else {
      DisasmReads(code, other, n);
    }
  }

  lemma {:induction false} SameCode(a: seq<Byte>, b: seq<Byte>, off: nat, room: nat, n: nat)
    requires off < |a| && room > 0 && SameOn(a, b, off, off + n) && n <= |CodeAt(a, off, room)|
    ensures SameBefore(CodeAt(a, off, room), CodeAt(b, off, room), n)
  {
  }

  lemma {:induction false} RewriteStep(image: seq<Byte>, t: Table, off: nat, rva: int, end: int)
    requires rva < end && off < |image|
    ensures var i := InsnAt(image, off, end - rva);
            Rewrite(image, t, off, rva, end)
            == Rewrite(RewriteOne(image, t, off, rva, i), t, off + i.len, rva + i.len, end)
  {
    hide InsnAt, RewriteOne;
  }

  /** Disassembling the rewritten function gives the same instructions in the same places. */
  lemma {:induction false} SweepKept(image: seq<Byte>, t: Table, off: nat, rva: int, end: int)
    ensures Sweep(Rewrite(image, t, off, rva, end), off, rva, end) == Sweep(image, off, rva, end)
    decreases end - rva
  {
    hide InsnAt, RewriteOne, Rewrite;
    if rva < end && off < |image| {
      var i := InsnAt(image, off, end - rva);
      var one := RewriteOne(image, t, off, rva, i);
      FirstKept(image, t, off, rva, end);
      RewriteStep(image, t, off, rva, end);
      OneStaysInside(image, t, off, rva, end - rva);
      SameSweep(image, one, off + i.len, rva + i.len, end);
      SweepKept(one, t, off + i.len, rva + i.len, end);
    } else {
      assert Sweep(image, off, rva, end) == [];
    }
  }

  /** Every displacement of the function is mapped, and nothing else changes. */
  lemma {:induction false} RewriteMaps(image: seq<Byte>, t: Table, off: nat, rva: int, end: int)
    ensures var r, met := Rewrite(image, t, off, rva, end), Sweep(image, off, rva, end);
            Mapped(image, r, t, met) && OnlyFields(image, r, met)
    decreases end - rva
  {
    hide InsnAt, RewriteOne, Rewrite, MappedOne, Put32;
    if rva < end && off < |image| {
      var i := InsnAt(image, off, end - rva);
      var one := RewriteOne(image, t, off, rva, i);
      OneStaysInside(image, t, off, rva, end - rva);
      RewriteStep(image, t, off, rva, end);
      SameSweep(image, one, off + i.len, rva + i.len, end);
      RewriteMaps(one, t, off + i.len, rva + i.len, end);
      RewriteStaysInside(one, t, off + i.len, rva + i.len, end);
      JoinMapped(image, one, Rewrite(one, t, off + i.len, rva + i.len, end), t, off, rva, i,
                 Sweep(image, off + i.len, rva + i.len, end));
    } else {
      NothingRewritten(image, t, off, rva, end);
    }
  }

  lemma {:induction false} NothingRewritten(image: seq<Byte>, t: Table, off: nat, rva: int, end: int)
    requires !(rva < end && off < |image|)
    ensures Rewrite(image, t, off, rva, end) == image && Sweep(image, off, rva, end) == []
  {
  }

  lemma {:induction false} JoinMapped(image: seq<Byte>, one: seq<Byte>, final: seq<Byte>, t: Table, off: nat, rva: int,
                                      i: Insn, rest: seq<Met>)
    requires i.field.Some? ==> i.field.value + 4 <= i.len && InImage(image, off + i.field.value)
    requires |image| == |one| == |final| && one == RewriteOne(image, t, off, rva, i)
    requires SameOn(image, one, off + i.len, |image|) && SameOn(one, final, 0, off + i.len)
    requires forall k :: 0 <= k < |rest| && rest[k].insn.field.Some? ==> rest[k].off >= off + i.len
    requires Mapped(one, final, t, rest) && OnlyFields(one, final, rest)
    ensures Mapped(image, final, t, [Met(off, rva, i)] + rest) && OnlyFields(image, final, [Met(off, rva, i)] + rest)
  {
    hide MappedOne, RewriteOne, Put32;
    var all := [Met(off, rva, i)] + rest;
    forall k | 0 <= k < |all| && all[k].insn.field.Some? ensures MappedOne(image, final, t, all[k]) {
      if k == 0 {
        FieldWritten(image, t, off, rva, i);
        SameMapped(image, image, one, final, t, all[0]);
      } else {
        FieldInImage(one, final, t, rest[k - 1]);
        SameMapped(one, image, final, final, t, rest[k - 1]);
      }
    }
    forall b | 0 <= b < |image| && !InField(all, b) ensures final[b] == image[b] {
      LaterField(Met(off, rva, i), rest, b);
      assert i.field.Some? ==> !(off + i.field.value <= b < off + i.field.value + 4) by { assert all[0].insn == i; }
      OutsideField(image, t, off, rva, i, b);
    }
  }

  lemma {:induction false} LaterField(m: Met, rest: seq<Met>, b: int)
    ensures InField(rest, b) ==> InField([m] + rest, b)
  {
    if InField(rest, b) {
      var k :| 0 <= k < |rest| && rest[k].insn.field.Some?
               && rest[k].off + rest[k].insn.field.value <= b < rest[k].off + rest[k].insn.field.value + 4;
      assert ([m] + rest)[k + 1] == rest[k];
    }
  }

  lemma {:induction false} FieldInImage(a: seq<Byte>, f: seq<Byte>, t: Table, m: Met)
    requires m.insn.field.Some? && |a| == |f| && MappedOne(a, f, t, m)
    ensures InImage(a, m.off + m.insn.field.value)
  {
  }

  lemma {:induction false} OutsideField(image: seq<Byte>, t: Table, off: nat, rva: int, i: Insn, b: nat)
    requires b < |image| && (i.field.Some? ==> InImage(image, off + i.field.value))
    requires i.field.Some? ==> !(off + i.field.value <= b < off + i.field.value + 4)
    ensures RewriteOne(image, t, off, rva, i)[b] == image[b]
  {
    hide Remapped, Displacement, Put32;
  }

  // --- Displacements in numbers ---

  /** What the map adds to an address: the shift of the entry at or before it, and nothing below the first entry. */
  predicate ShiftedBy(t: Table, p: int, shift: int) {
    || (shift == 0 && forall k: nat :: k < |t| ==> p < t[k].source)
    || exists k: nat :: k < |t| && InSegment(t, k, p) && shift == t[k].target - t[k].source
  }

  predicate InSegment(t: Table, k: nat, p: int)
    requires k < |t|
  {
    t[k].source <= p && (k + 1 < |t| ==> p < t[k + 1].source)
  }

  lemma {:induction false} MapRvaShifts(t: Table, p: I64, shift: int)
    requires Sorted(t) && ShiftedBy(t, p, shift)
    ensures MapRva(t, p) == Wrap(p + shift)
  {
    hide Find, Wrap, Delta;
    if k: nat :| k < |t| && InSegment(t, k, p) && shift == t[k].target - t[k].source {
      WrapInside(p);
      FindIs(t, p, k);
      DeltaShifts(t[k], p);
    } else {
      assert shift == 0 && (|t| > 0 ==> p < t[0].source);
      WrapInside(p);
    }
  }

  lemma {:induction false} WrapInside(p: I64)
    ensures Wrap(p) == p
  {
  }

  lemma {:induction false} DeltaShifts(e: Entry, p: I64)
    ensures Wrap(p + Delta(e)) == Wrap(p + (e.target - e.source))
  {
    hide Wrap;
    WrapAdd(e.target - e.source, p);
  }

  /** An entry's source is sent to its target, if no other entry has that source. */
  lemma {:induction false} MapRvaAtEntry(t: Table, k: nat)
    requires Sorted(t) && k < |t| && (k + 1 < |t| ==> t[k].source < t[k + 1].source)
    ensures MapRva(t, t[k].source) == t[k].target
  {
    var shift := t[k].target - t[k].source;
    assert InSegment(t, k, t[k].source);
    assert ShiftedBy(t, t[k].source, shift);
    MapRvaShifts(t, t[k].source, shift);
  }

  const FAR := 0x4000_0000_0000_0000

  /** A mapped displacement grows by the shift of its target and shrinks by the shift of its instruction. */
  lemma {:induction false} MappedInNumbers(image: seq<Byte>, final: seq<Byte>, t: Table, m: Met, shift: int,
                                           toShift: int)
    requires Sorted(t) && m.insn.field.Some? && |final| == |image| && MappedOne(image, final, t, m)
    requires -FAR < m.rva && m.rva + m.insn.len < FAR
    requires var at, next := m.off + m.insn.field.value, m.rva + m.insn.len;
             InImage(image, at) && ShiftedBy(t, next, shift) && ShiftedBy(t, next + Displacement(image, at), toShift)
    ensures var at := m.off + m.insn.field.value;
            (Displacement(final, at) - (Displacement(image, at) + toShift - shift)) % WORD32 == 0
  {
    hide MapRva, ShiftedBy, Wrap, LeValue;
    var at, next := m.off + m.insn.field.value, m.rva + m.insn.len;
    var before, after := Displacement(image, at), Displacement(final, at);
    MapRvaShifts(t, next, shift);
    MapRvaShifts(t, next + before, toShift);
    var a, b := Wrap(next + shift), Wrap(next + before + toShift);
    SameModulo(next + shift, a, next + before + toShift, b, after);
  }

  lemma {:induction false} SameModulo(x: int, a: int, y: int, b: int, d: int)
    requires (x - a) % SPAN64 == 0 && (y - b) % SPAN64 == 0 && (a + d - b) % WORD32 == 0
    ensures (d - (y - x)) % WORD32 == 0
  {
    var i, j, k := (x - a) / SPAN64, (y - b) / SPAN64, (a + d - b) / WORD32;
    assert x - a == SPAN64 * i && y - b == SPAN64 * j && a + d - b == WORD32 * k;
    assert d - (y - x) == WORD32 * (k + WORD32 * i - WORD32 * j);
  }

  lemma {:induction false} SweepBounds(image: seq<Byte>, off: nat, rva: int, end: int)
    ensures forall k :: 0 <= k < |Sweep(image, off, rva, end)| ==>
              var m := Sweep(image, off, rva, end)[k]; rva <= m.rva && m.rva + m.insn.len <= end
    decreases end - rva
  {
    hide InsnAt;
    if rva < end && off < |image| {
      var i := InsnAt(image, off, end - rva);
      SweepBounds(image, off + i.len, rva + i.len, end);
    }
  }
}
