/** The rewriting pass over a whole image, driven by its table of functions. */
module X64Pass {
  import opened RangeCoding
  import Powers
  import opened LsbBits
  import opened Rift
  import opened CanonicalCode
  import opened X64Disasm
  import opened X64Rewrite

  const ENTRY_SIZE := 12

  /** Where a function lies in the file, and its addresses. */
  datatype Range = Range(off: nat, begin: int, end: int)

  predicate HasEntry(image: seq<Byte>, table: nat, i: nat) {
    table + ENTRY_SIZE * i + ENTRY_SIZE <= |image|
  }

  /** Entry `i` of the function table at `table`: empty or misplaced ones give no function. `place` finds addresses
      in the file. */
  function FunctionAt(image: seq<Byte>, table: nat, i: nat, place: nat -> Option<nat>): Option<Range>
    requires HasEntry(image, table, i)
  {
    var at := table + ENTRY_SIZE * i;
    var begin, end := LeValue(image[at..at + 4]), LeValue(image[at + 4..at + 8]);
    if begin == 0 || end <= begin then None
    else
      match place(begin)
      case None => None
      case Some(off) => Some(Range(off, begin, end))
  }

  /** The address of a function is the first number of its entry, the end the second one; a function without an
      address, a length or a place in the file is left out. */
  lemma {:induction false} FunctionInNumbers(image: seq<Byte>, table: nat, i: nat, place: nat -> Option<nat>,
                                             begin: nat, end: nat)
    requires HasEntry(image, table, i)
    requires var at := table + 12 * i; LeValue(image[at..at + 4]) == begin && LeValue(image[at + 4..at + 8]) == end
    ensures FunctionAt(image, table, i, place)
            == if 0 < begin < end && place(begin).Some? then Some(Range(place(begin).value, begin, end)) else None
  {
  }

  function RewriteEntry(image: seq<Byte>, t: Table, f: Option<Range>): (r: seq<Byte>)
    ensures |r| == |image|
  {
    match f
    case None => image
    case Some(r) => Rewrite(image, t, r.off, r.begin, r.end)
  }

  /** Entries `i` up to `n`, each read from the image as it is by then. */
  function Pass(image: seq<Byte>, t: Table, table: nat, i: nat, n: nat, place: nat -> Option<nat>): (r: seq<Byte>)
    requires i <= n
    ensures |r| == |image|
    decreases n - i
  {
    if i < n && HasEntry(image, table, i) then
      Pass(RewriteEntry(image, t, FunctionAt(image, table, i, place)), t, table, i + 1, n, place)
    else image
  }

  // --- Functions that do not overlap ---

  function Size(r: Range): int {
    r.end - r.begin
  }

  predicate Apart(a: Range, b: Range) {
    a.off + Size(a) <= b.off || b.off + Size(b) <= a.off
  }

  predicate Clear(r: Range, lo: int, hi: int) {
    r.off + Size(r) <= lo || hi <= r.off
  }

  /** No function contains part of the table or of another function. */
  ghost predicate Disjoint(image: seq<Byte>, table: nat, n: nat, place: nat -> Option<nat>) {
    && table + ENTRY_SIZE * n <= |image|
    && (forall i :: 0 <= i < n && FunctionAt(image, table, i, place).Some? ==>
          Clear(FunctionAt(image, table, i, place).value, table, table + ENTRY_SIZE * n))
    && (forall i, j :: 0 <= i < j < n && FunctionAt(image, table, i, place).Some?
                       && FunctionAt(image, table, j, place).Some? ==>
          Apart(FunctionAt(image, table, i, place).value, FunctionAt(image, table, j, place).value))
  }

  lemma {:induction false} SameFunction(a: seq<Byte>, b: seq<Byte>, table: nat, i: nat, n: nat,
                                        place: nat -> Option<nat>)
    requires i < n && table + ENTRY_SIZE * n <= |a| && SameOn(a, b, table, table + ENTRY_SIZE * n)
    ensures HasEntry(a, table, i) && HasEntry(b, table, i)
    ensures FunctionAt(a, table, i, place) == FunctionAt(b, table, i, place)
  {
    hide LeValue;
    var at := table + ENTRY_SIZE * i;
    assert a[at..at + 4] == b[at..at + 4] && a[at + 4..at + 8] == b[at + 4..at + 8];
  }

  /** A finished function: the same instructions, every displacement mapped. */
  ghost predicate Done(image: seq<Byte>, final: seq<Byte>, t: Table, r: Range) {
    && |final| == |image|
    && Sweep(final, r.off, r.begin, r.end) == Sweep(image, r.off, r.begin, r.end)
    && Mapped(image, final, t, Sweep(image, r.off, r.begin, r.end))
  }

  lemma {:induction false} RewriteDone(image: seq<Byte>, t: Table, r: Range)
    ensures Done(image, Rewrite(image, t, r.off, r.begin, r.end), t, r)
  {
    hide Rewrite, Sweep, Mapped;
    SweepKept(image, t, r.off, r.begin, r.end);
    RewriteMaps(image, t, r.off, r.begin, r.end);
  }

  /** Being done depends only on the bytes of the function. */
  lemma {:induction false} DoneElsewhere(a: seq<Byte>, b: seq<Byte>, f: seq<Byte>, g: seq<Byte>, t: Table, r: Range)
    requires Done(a, f, t, r) && |a| == |b| == |g|
    requires SameOn(a, b, r.off, r.off + Size(r)) && SameOn(f, g, r.off, r.off + Size(r))
    ensures Done(b, g, t, r)
  {
    hide Sweep, MappedOne;
    SameSweep(a, b, r.off, r.begin, r.end);
    SameSweep(f, g, r.off, r.begin, r.end);
    var met := Sweep(a, r.off, r.begin, r.end);
    forall k | 0 <= k < |met| && met[k].insn.field.Some? ensures MappedOne(b, g, t, met[k]) {
      SameMapped(a, b, f, g, t, met[k]);
    }
  }

  // --- The theorem ---

  /** The first `i` functions are done, the others and the table are as they were. */
  ghost predicate Progress(image: seq<Byte>, now: seq<Byte>, t: Table, table: nat, i: nat, n: nat,
                           place: nat -> Option<nat>)
    requires Disjoint(image, table, n, place) && i <= n
  {
    && |now| == |image| && SameOn(image, now, table, table + ENTRY_SIZE * n)
    && (forall j :: 0 <= j < i && FunctionAt(image, table, j, place).Some? ==>
          Done(image, now, t, FunctionAt(image, table, j, place).value))
    && (forall j :: i <= j < n && FunctionAt(image, table, j, place).Some? ==>
          var r := FunctionAt(image, table, j, place).value; SameOn(image, now, r.off, r.off + Size(r)))
  }

  lemma {:induction false} ProgressStep(image: seq<Byte>, now: seq<Byte>, t: Table, table: nat, i: nat, n: nat,
                                        place: nat -> Option<nat>)
    requires Disjoint(image, table, n, place) && i < n && Progress(image, now, t, table, i, n, place)
    ensures HasEntry(now, table, i)
    ensures Progress(image, RewriteEntry(now, t, FunctionAt(now, table, i, place)), t, table, i + 1, n, place)
  {
    hide FunctionAt, Done, Rewrite, Sweep, Mapped;
    SameFunction(image, now, table, i, n, place);
    var f := FunctionAt(image, table, i, place);
    if f.Some? {
      var r := f.value;
      var next := Rewrite(now, t, r.off, r.begin, r.end);
      RewriteStaysInside(now, t, r.off, r.begin, r.end);
      RewriteDone(now, t, r);
      DoneElsewhere(now, image, next, next, t, r);
      forall j | 0 <= j < i && FunctionAt(image, table, j, place).Some?
        ensures Done(image, next, t, FunctionAt(image, table, j, place).value) {
        var q := FunctionAt(image, table, j, place).value;
        assert Apart(q, r);
        DoneElsewhere(image, image, now, next, t, q);
      }
    }
  }

  lemma {:induction false} PassProgress(image: seq<Byte>, now: seq<Byte>, t: Table, table: nat, i: nat, n: nat,
                                        place: nat -> Option<nat>)
    requires Disjoint(image, table, n, place) && i <= n && Progress(image, now, t, table, i, n, place)
    ensures Progress(image, Pass(now, t, table, i, n, place), t, table, n, n, place)
    decreases n - i
  {
    hide FunctionAt, RewriteEntry, Progress, Disjoint;
    if i < n {
      ProgressStep(image, now, t, table, i, n, place);
      PassProgress(image, RewriteEntry(now, t, FunctionAt(now, table, i, place)), t, table, i + 1, n, place);
    }
  }

  /** For functions that do not overlap: after the pass the table lists the same functions, each disassembles to the
      same instructions, and every displacement leads to where its old target is mapped. */
  lemma {:induction false} PassKeepsMeaning(image: seq<Byte>, t: Table, table: nat, n: nat, place: nat -> Option<nat>,
                                            k: nat)
    requires Disjoint(image, table, n, place) && k < n
    ensures var final := Pass(image, t, table, 0, n, place);
            && HasEntry(final, table, k)
            && FunctionAt(final, table, k, place) == FunctionAt(image, table, k, place)
            && (FunctionAt(image, table, k, place).Some? ==>
                  Done(image, final, t, FunctionAt(image, table, k, place).value))
  {
    hide FunctionAt, Pass, Done;
    PassProgress(image, image, t, table, 0, n, place);
    SameFunction(image, Pass(image, t, table, 0, n, place), table, k, n, place);
  }

  /** In numbers: in the rewritten functions each displacement has grown by the shift that the map has at its old target
      and shrunk by the shift at the end of its instruction, modulo 2^32. */
  lemma {:induction false} PassShifts(image: seq<Byte>, t: Table, table: nat, n: nat, place: nat -> Option<nat>, k: nat,
                                      m: Met, shift: int, toShift: int)
    requires Sorted(t) && Disjoint(image, table, n, place) && k < n && FunctionAt(image, table, k, place).Some?
    requires var f := FunctionAt(image, table, k, place).value;
             m in Sweep(image, f.off, f.begin, f.end) && m.insn.field.Some?
    requires var at, next := m.off + m.insn.field.value, m.rva + m.insn.len;
             InImage(image, at) && ShiftedBy(t, next, shift) && ShiftedBy(t, next + Displacement(image, at), toShift)
    ensures var final, at := Pass(image, t, table, 0, n, place), m.off + m.insn.field.value;
            (Displacement(final, at) - (Displacement(image, at) + toShift - shift)) % WORD32 == 0
  {
    hide Pass, MappedOne, Sweep, ShiftedBy, Displacement, FunctionAt;
    var final, f := Pass(image, t, table, 0, n, place), FunctionAt(image, table, k, place).value;
    PassKeepsMeaning(image, t, table, n, place, k);
    FunctionBounds(image, table, k, place);
    SweepBounds(image, f.off, f.begin, f.end);
    MappedInNumbers(image, final, t, m, shift, toShift);
  }

  lemma {:induction false} FunctionBounds(image: seq<Byte>, table: nat, k: nat, place: nat -> Option<nat>)
    requires HasEntry(image, table, k) && FunctionAt(image, table, k, place).Some?
    ensures var f := FunctionAt(image, table, k, place).value; 0 <= f.begin && f.end < WORD32
  {
    hide LeValue;
    var at := table + ENTRY_SIZE * k;
    ValueBelow(image[at..at + 4]);
    ValueBelow(image[at + 4..at + 8]);
  }

  /** Outside the displacements of the functions no byte changes. */
  lemma {:induction false} PassStaysInside(image: seq<Byte>, now: seq<Byte>, t: Table, table: nat, i: nat, n: nat,
                                           place: nat -> Option<nat>, b: nat)
    requires Disjoint(image, table, n, place) && i <= n && Progress(image, now, t, table, i, n, place) && b < |image|
    requires forall j :: i <= j < n && FunctionAt(image, table, j, place).Some? ==>
               var r := FunctionAt(image, table, j, place).value;
               !InField(Sweep(image, r.off, r.begin, r.end), b)
    ensures Pass(now, t, table, i, n, place)[b] == now[b]
    decreases n - i
  {
    hide FunctionAt, Rewrite, Sweep, InField, Done, Mapped;
    if i < n {
      SameFunction(image, now, table, i, n, place);
      ProgressStep(image, now, t, table, i, n, place);
      var f := FunctionAt(image, table, i, place);
      if f.Some? {
        SameSweep(image, now, f.value.off, f.value.begin, f.value.end);
        RewriteMaps(now, t, f.value.off, f.value.begin, f.value.end);
      }
      PassStaysInside(image, RewriteEntry(now, t, f), t, table, i + 1, n, place, b);
    }
  }

  // --- The program ---

  /** One displacement, in place. */
  method PutDisplacement(output: array<Byte>, at: nat, v: int)
    requires at + 4 <= output.Length
    modifies output
    ensures output[..] == Put32(old(output[..]), at, v)
  {
    hide LeBytes;
    var bs := LeBytes(v % WORD32, 4);
    output[at], output[at + 1], output[at + 2], output[at + 3] := bs[0], bs[1], bs[2], bs[3];
  }

  lemma {:induction false} BytesOfValue(bs: seq<Byte>)
    ensures LeBytes(LeValue(bs), |bs|) == bs
  {
    if |bs| > 0 {
      BytesOfValue(bs[1..]);
      LowestByte(bs[0], LeValue(bs[1..]));
      assert bs == [bs[0]] + bs[1..];
    }
  }

  lemma {:induction false} LowestByte(b: Byte, v: nat)
    ensures (b + 0x100 * v) % 0x100 == b && (b + 0x100 * v) / 0x100 == v
  {
  }

  /** A displacement that does not change need not be written. */
  lemma {:induction false} UnchangedField(image: seq<Byte>, at: nat, v: int)
    requires InImage(image, at) && Wrap(v) == Displacement(image, at)
    ensures Put32(image, at, v) == image
  {
    hide LeBytes, LeValue;
    var bs := image[at..at + 4];
    BytesOfValue(bs);
    ValueBelow(bs);
    WrappedResidue(v, LeValue(bs));
  }

  lemma {:induction false} ValueBelow(bs: seq<Byte>)
    requires |bs| == 4
    ensures LeValue(bs) < WORD32
  {
    hide LeValue, FromLsb, AllBits, Powers.Pow2;
    LeValueBits(bs);
    FromLsbBound(AllBits(bs));
    Powers.PowerTable();
  }

  lemma {:induction false} WrappedResidue(v: int, u: nat)
    requires Wrap(v) == Signed32(u) && u < WORD32
    ensures v % WORD32 == u
  {
    hide Wrap;
    var w: int := Wrap(v);
    var k := (v - w) / SPAN64;
    assert v == w + WORD32 * (WORD32 * k);
    ModShift(w, WORD32 * k);
  }

  lemma {:induction false} ModShift(w: int, j: int)
    ensures (w + WORD32 * j) % WORD32 == w % WORD32
  {
  }

  /** One function, in place; counts the displacements that change. */
  method RewriteFunction(output: array<Byte>, t: Table, f: Range) returns (changed: nat)
    modifies output
    ensures output[..] == Rewrite(old(output[..]), t, f.off, f.begin, f.end)
    ensures changed == 0 ==> output[..] == old(output[..])
  {
    hide Rewrite, InsnAt, Put32, Disasm, Displacement, Remapped;
    ghost var goal := Rewrite(output[..], t, f.off, f.begin, f.end);
    ghost var before := output[..];
    changed := 0;
    var rva: int, off: nat := f.begin, f.off;
    while rva < f.end && off < output.Length
      invariant Rewrite(output[..], t, off, rva, f.end) == goal
      invariant changed == 0 ==> output[..] == before
      decreases f.end - rva
    {
      var i := Fetch(output, off, f.end - rva);
      RewriteStep(output[..], t, off, rva, f.end);
      if i.field.Some? {
        var at, next := off + i.field.value, rva + i.len;
        var disp := Displacement(output[..], at);
        var moved := Remapped(t, next, disp);
        if Wrap(moved) != disp {
          PutDisplacement(output, at, moved);
          changed := changed + 1;
        } else {
          UnchangedField(output[..], at, moved);
        }
      }
      rva, off := rva + i.len, off + i.len;
    }
    NothingRewritten(output[..], t, off, rva, f.end);
  }

  method Fetch(output: array<Byte>, off: nat, room: int) returns (i: Insn)
    requires off < output.Length && room > 0
    ensures i == InsnAt(output[..], off, room)
  {
    hide Disasm;
    i := DisasmAmd64(CodeAt(output[..], off, room));
  }

  /** Every function listed, or nothing without a map or a table. */
  method TransformDisasmX64(output: array<Byte>, pdata: Option<(nat, nat)>, place: nat -> Option<nat>, t: Table)
    returns (changed: nat)
    modifies output
    ensures var image := old(output[..]);
            output[..] ==
            if |t| > 0 && pdata.Some? && pdata.value.0 != 0 && pdata.value.1 >= ENTRY_SIZE && place(pdata.value.0).Some?
            then Pass(image, t, place(pdata.value.0).value, 0, pdata.value.1 / ENTRY_SIZE, place)
            else image
    ensures changed == 0 ==> output[..] == old(output[..])
  {
    hide Rewrite, Pass, FunctionAt;
    changed := 0;
    if |t| == 0 || pdata.None? || pdata.value.0 == 0 || pdata.value.1 < ENTRY_SIZE {
      return;
    }
    var at := place(pdata.value.0);
    if at.None? {
      return;
    }
    var table, n := at.value, pdata.value.1 / ENTRY_SIZE;
    ghost var before := output[..];
    ghost var goal := Pass(before, t, table, 0, n, place);
    var i := 0;
    while i < n && HasEntry(output[..], table, i)
      invariant i <= n && Pass(output[..], t, table, i, n, place) == goal
      invariant changed == 0 ==> output[..] == before
    {
      PassStep(output[..], t, table, i, n, place);
      var f := FunctionAt(output[..], table, i, place);
      if f.Some? {
        var more := RewriteFunction(output, t, f.value);
        changed := changed + more;
      }
      i := i + 1;
    }
    PassEnd(output[..], t, table, i, n, place);
  }

  lemma {:induction false} PassStep(image: seq<Byte>, t: Table, table: nat, i: nat, n: nat, place: nat -> Option<nat>)
    requires i < n && HasEntry(image, table, i)
    ensures Pass(image, t, table, i, n, place)
            == Pass(RewriteEntry(image, t, FunctionAt(image, table, i, place)), t, table, i + 1, n, place)
  {
    hide FunctionAt, RewriteEntry;
  }

  lemma {:induction false} PassEnd(image: seq<Byte>, t: Table, table: nat, i: nat, n: nat, place: nat -> Option<nat>)
    requires i <= n && (i == n || !HasEntry(image, table, i))
    ensures Pass(image, t, table, i, n, place) == image
  {
  }
}
