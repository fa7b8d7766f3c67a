/** The length disassembler for 64-bit x86 code: how long an instruction is, and where it holds a displacement that is
    relative to its end. */
module X64Disasm {
  import opened RangeCoding
  import opened CanonicalCode

  const MAX_INSN := 15

  // --- What follows an opcode ---

  /** 0 nothing, 1 unknown, 2 ModRM, 3 an address, 4 an 8-bit branch, 5 a 32-bit branch. */
  const MODRM_1B: seq<nat> :=
    [2, 2, 2, 2, 0, 0, 1, 1, 2, 2, 2, 2, 0, 0, 1, 1, 2, 2, 2, 2, 0, 0, 1, 1, 2, 2, 2, 2, 0, 0, 1, 1] +
    [2, 2, 2, 2, 0, 0, 1, 1, 2, 2, 2, 2, 0, 0, 1, 1, 2, 2, 2, 2, 0, 0, 1, 1, 2, 2, 2, 2, 0, 0, 1, 1] +
    [1, 1, 1, 1, 1, 1, 1, 1, 1, 1, 1, 1, 1, 1, 1, 1, 0, 0, 0, 0, 0, 0, 0, 0, 0, 0, 0, 0, 0, 0, 0, 0] +
    [1, 1, 1, 2, 1, 1, 1, 1, 0, 2, 0, 2, 0, 0, 0, 0, 4, 4, 4, 4, 4, 4, 4, 4, 4, 4, 4, 4, 4, 4, 4, 4] +
    [2, 2, 1, 2, 2, 2, 2, 2, 2, 2, 2, 2, 2, 2, 2, 2, 0, 0, 0, 0, 0, 0, 0, 0, 0, 0, 1, 0, 0, 0, 1, 1] +
    [3, 3, 3, 3, 0, 0, 0, 0, 0, 0, 0, 0, 0, 0, 0, 0, 0, 0, 0, 0, 0, 0, 0, 0, 0, 0, 0, 0, 0, 0, 0, 0] +
    [2, 2, 0, 0, 1, 1, 2, 2, 0, 0, 0, 0, 0, 0, 1, 0, 2, 2, 2, 2, 1, 1, 1, 0, 2, 2, 2, 2, 2, 2, 2, 2] +
    [4, 4, 4, 4, 0, 0, 0, 0, 5, 5, 1, 4, 0, 0, 0, 0, 0, 0, 0, 0, 0, 0, 2, 2, 0, 0, 0, 0, 0, 0, 2, 2]

  const MODRM_0F: seq<nat> :=
    [2, 2, 2, 2, 0, 0, 0, 0, 0, 0, 1, 0, 1, 2, 0, 2, 2, 2, 2, 2, 2, 2, 2, 2, 2, 1, 1, 1, 1, 1, 1, 1] +
    [2, 2, 2, 2, 1, 1, 1, 1, 2, 2, 2, 2, 2, 2, 2, 2, 0, 0, 0, 0, 1, 1, 1, 1, 1, 1, 1, 1, 1, 1, 1, 1] +
    [2, 2, 2, 2, 2, 2, 2, 2, 2, 2, 2, 2, 2, 2, 2, 2, 2, 2, 2, 2, 2, 2, 2, 2, 2, 2, 2, 2, 2, 2, 2, 2] +
    [2, 2, 2, 2, 2, 2, 2, 2, 2, 2, 2, 2, 2, 2, 2, 2, 2, 2, 2, 2, 2, 2, 2, 0, 1, 1, 1, 1, 1, 1, 2, 2] +
    [5, 5, 5, 5, 5, 5, 5, 5, 5, 5, 5, 5, 5, 5, 5, 5, 2, 2, 2, 2, 2, 2, 2, 2, 2, 2, 2, 2, 2, 2, 2, 2] +
    [0, 0, 0, 2, 2, 2, 1, 1, 0, 0, 0, 2, 2, 2, 2, 2, 2, 2, 2, 2, 2, 2, 2, 2, 1, 2, 2, 2, 2, 2, 2, 2] +
    [2, 2, 2, 2, 2, 2, 2, 2, 0, 0, 0, 0, 0, 0, 0, 0, 1, 2, 2, 2, 2, 2, 2, 2, 2, 2, 2, 2, 2, 2, 2, 2] +
    [2, 2, 2, 2, 2, 2, 2, 2, 2, 2, 2, 2, 2, 2, 2, 2, 1, 2, 2, 2, 2, 2, 2, 2, 2, 2, 2, 2, 2, 2, 2, 1]

  /** 0 nothing, 1 one byte, 2 and 5 the operand size, 3 an address, 4 the operand size up to 64 bits, 6 and 7 only
      in the first two of a group. */
  const IMM_1B: seq<nat> :=
    [0, 0, 0, 0, 1, 5, 0, 0, 0, 0, 0, 0, 1, 5, 0, 0, 0, 0, 0, 0, 1, 5, 0, 0, 0, 0, 0, 0, 1, 5, 0, 0] +
    [0, 0, 0, 0, 1, 5, 0, 0, 0, 0, 0, 0, 1, 5, 0, 0, 0, 0, 0, 0, 1, 5, 0, 0, 0, 0, 0, 0, 1, 5, 0, 0] +
    [0, 0, 0, 0, 0, 0, 0, 0, 0, 0, 0, 0, 0, 0, 0, 0, 0, 0, 0, 0, 0, 0, 0, 0, 0, 0, 0, 0, 0, 0, 0, 0] +
    [0, 0, 0, 0, 0, 0, 0, 0, 5, 5, 1, 1, 0, 0, 0, 0, 0, 0, 0, 0, 0, 0, 0, 0, 0, 0, 0, 0, 0, 0, 0, 0] +
    [1, 5, 1, 1, 0, 0, 0, 0, 0, 0, 0, 0, 0, 0, 0, 0, 0, 0, 0, 0, 0, 0, 0, 0, 0, 0, 0, 0, 0, 0, 0, 0] +
    [0, 0, 0, 0, 0, 0, 0, 0, 1, 5, 0, 0, 0, 0, 0, 0, 1, 1, 1, 1, 1, 1, 1, 1, 4, 4, 4, 4, 4, 4, 4, 4] +
    [1, 1, 2, 0, 0, 0, 1, 5, 3, 0, 2, 0, 0, 1, 0, 0, 0, 0, 0, 0, 0, 0, 0, 0, 0, 0, 0, 0, 0, 0, 0, 0] +
    [0, 0, 0, 0, 1, 1, 1, 1, 0, 0, 0, 0, 0, 0, 0, 0, 0, 0, 0, 0, 0, 0, 6, 7, 0, 0, 0, 0, 0, 0, 0, 0]

  const IMM_0F: seq<nat> :=
    [0, 0, 0, 0, 0, 0, 0, 0, 0, 0, 0, 0, 0, 0, 0, 1, 0, 0, 0, 0, 0, 0, 0, 0, 0, 0, 0, 0, 0, 0, 0, 0] +
    [0, 0, 0, 0, 0, 0, 0, 0, 0, 0, 0, 0, 0, 0, 0, 0, 0, 0, 0, 0, 0, 0, 0, 0, 0, 0, 0, 0, 0, 0, 0, 0] +
    [0, 0, 0, 0, 0, 0, 0, 0, 0, 0, 0, 0, 0, 0, 0, 0, 0, 0, 0, 0, 0, 0, 0, 0, 0, 0, 0, 0, 0, 0, 0, 0] +
    [0, 0, 0, 0, 0, 0, 0, 0, 0, 0, 0, 0, 0, 0, 0, 0, 1, 1, 1, 1, 0, 0, 0, 0, 0, 0, 0, 0, 0, 0, 0, 0] +
    [0, 0, 0, 0, 0, 0, 0, 0, 0, 0, 0, 0, 0, 0, 0, 0, 0, 0, 0, 0, 0, 0, 0, 0, 0, 0, 0, 0, 0, 0, 0, 0] +
    [0, 0, 0, 0, 1, 0, 0, 0, 0, 0, 0, 0, 1, 0, 0, 0, 0, 0, 0, 0, 0, 0, 0, 0, 0, 0, 1, 0, 0, 0, 0, 0] +
    [0, 0, 1, 0, 1, 1, 1, 0, 0, 0, 0, 0, 0, 0, 0, 0, 0, 0, 0, 0, 0, 0, 0, 0, 0, 0, 0, 0, 0, 0, 0, 0] +
    [0, 0, 0, 0, 0, 0, 0, 0, 0, 0, 0, 0, 0, 0, 0, 0, 0, 0, 0, 0, 0, 0, 0, 0, 0, 0, 0, 0, 0, 0, 0, 0]

  lemma {:induction false} TableSizes()
    ensures |MODRM_1B| == 256 && |MODRM_0F| == 256 && |IMM_1B| == 256 && |IMM_0F| == 256
  {
  }

  function OperandKind(escaped: bool, op: Byte): nat {
    TableSizes();
    if escaped then MODRM_0F[op] else MODRM_1B[op]
  }

  function ImmKind(escaped: bool, op: Byte): nat {
    TableSizes();
    if escaped then IMM_0F[op] else IMM_1B[op]
  }

  // --- Decoding ---

  /** How many bytes are consumed, and where the displacement starts if there is one. */
  datatype Insn = Insn(len: nat, field: Option<nat>)

  /** What the prefixes say about sizes. */
  datatype Sizes = Sizes(word: bool, shortAddress: bool, wide: bool)

  predicate IsPrefix(b: Byte) {
    b in {0x66, 0x67, 0x26, 0x2E, 0x36, 0x3E, 0x64, 0x65, 0xF0, 0xF2, 0xF3}
  }

  function PrefixEnd(w: seq<Byte>, p: nat): (end: nat)
    requires p <= |w|
    ensures p <= end <= |w|
    decreases |w| - p
  {
    if p < |w| && IsPrefix(w[p]) then PrefixEnd(w, p + 1) else p
  }

  function ImmSize(kind: nat, z: Sizes, group: bool): nat {
    match kind
    case 1 => 1
    case 2 => if z.word then 2 else 4
    case 4 => if z.wide then 8 else if z.word then 2 else 4
    case 5 => if z.word then 2 else 4
    case 6 => if group then 1 else 0
    case 7 => if group then (if z.word then 2 else 4) else 0
    case _ => 0
  }

  /** `n` more bytes end the instruction; if they are cut off it ends before them, without a displacement. */
  function TakeImm(w: seq<Byte>, p: nat, field: Option<nat>, n: nat): Insn {
    if p + n <= |w| then Insn(p + n, field) else Insn(p, None)
  }

  function DecodeModRm(w: seq<Byte>, p: nat, imm: nat, z: Sizes): Insn {
    if p >= |w| then Insn(p, None)
    else
      var mode, rm, group := w[p] / 64, w[p] % 8, w[p] / 8 % 8 <= 1;
      var n := ImmSize(imm, z, group);
      if mode == 3 then TakeImm(w, p + 1, None, n)
      else if rm == 5 && mode == 0 then
        if p + 5 > |w| then Insn(p + 1, None) else TakeImm(w, p + 5, Some(p + 1), n)
      else if rm == 4 then
        if p + 1 >= |w| then Insn(p + 1, None)
        else
          var disp := if mode == 0 then (if w[p + 1] % 8 == 5 then 4 else 0) else if mode == 1 then 1 else 4;
          if p + 2 + disp > |w| then Insn(p + 2, None) else TakeImm(w, p + 2 + disp, None, n)
      else
        var disp := if mode == 0 then 0 else if mode == 1 then 1 else 4;
        if p + 1 + disp > |w| then Insn(p + 1, None) else TakeImm(w, p + 1 + disp, None, n)
  }

  /** `p` is just behind the opcode. */
  function DecodeOperands(w: seq<Byte>, p: nat, kind: nat, imm: nat, z: Sizes): Insn {
    var n := ImmSize(imm, z, false);
    match kind
    case 1 => Insn(p, None)
    case 2 => DecodeModRm(w, p, imm, z)
    case 3 =>
      var m := if z.shortAddress then 4 else 8;
      if p + m > |w| then Insn(p, None) else TakeImm(w, p + m, None, n)
    case 4 => if p + 1 > |w| then Insn(p, None) else TakeImm(w, p + 1, None, n)
    case 5 => if p + 4 > |w| then Insn(p, None) else TakeImm(w, p + 4, Some(p), n)
    case _ => TakeImm(w, p, None, n)
  }

  function DecodeOpcode(w: seq<Byte>, p: nat, z: Sizes): Insn
    requires p < |w|
  {
    if w[p] != 0x0F then DecodeOperands(w, p + 1, OperandKind(false, w[p]), ImmKind(false, w[p]), z)
    else if p + 1 >= |w| then Insn(p + 1, None)
    else DecodeOperands(w, p + 2, OperandKind(true, w[p + 1]), ImmKind(true, w[p + 1]), z)
  }

  /** One byte 40 to 4F may stand before the opcode; a second one ends the instruction. */
  function DecodeRex(w: seq<Byte>, p: nat, word: bool, shortAddress: bool): Insn {
    if p >= |w| then Insn(p, None)
    else if w[p] / 16 == 4 then
      if p + 1 >= |w| || w[p + 1] / 16 == 4 then Insn(p + 1, None)
      else DecodeOpcode(w, p + 1, Sizes(word, shortAddress, w[p] / 8 % 2 == 1))
    else DecodeOpcode(w, p, Sizes(word, shortAddress, false))
  }

  function Decode(w: seq<Byte>): Insn {
    var p := PrefixEnd(w, 0);
    DecodeRex(w, p, 0x66 in w[..p], 0x67 in w[..p])
  }

  function Window(code: seq<Byte>): (w: seq<Byte>)
    ensures |w| <= MAX_INSN && |w| <= |code| && w == code[..|w|]
  {
    if |code| <= MAX_INSN then code else code[..MAX_INSN]
  }

  function Disasm(code: seq<Byte>): Insn {
    Decode(Window(code))
  }

  // --- What the decoder looks at ---

  /** The length stays inside, it is positive, and the displacement lies inside the instruction. */
  predicate Inside(i: Insn, p: nat, n: nat) {
    && p <= i.len <= n
    && (i.field.Some? ==> p <= i.field.value && i.field.value + 4 <= i.len)
  }

  lemma {:induction false} ModRmInside(w: seq<Byte>, p: nat, imm: nat, z: Sizes)
    requires p <= |w|
    ensures Inside(DecodeModRm(w, p, imm, z), p, |w|)
  {
    hide ImmSize;
  }

  lemma {:induction false} OperandsInside(w: seq<Byte>, p: nat, kind: nat, imm: nat, z: Sizes)
    requires p <= |w|
    ensures Inside(DecodeOperands(w, p, kind, imm, z), p, |w|)
  {
    hide ImmSize, DecodeModRm;
    ModRmInside(w, p, imm, z);
  }

  lemma {:induction false} OpcodeInside(w: seq<Byte>, p: nat, z: Sizes)
    requires p < |w|
    ensures Inside(DecodeOpcode(w, p, z), p + 1, |w|)
  {
    hide OperandKind, ImmKind, DecodeOperands;
    OperandsInside(w, p + 1, OperandKind(false, w[p]), ImmKind(false, w[p]), z);
    if p + 1 < |w| {
      OperandsInside(w, p + 2, OperandKind(true, w[p + 1]), ImmKind(true, w[p + 1]), z);
    }
  }

  /** Every step consumes at least one byte and at most 15, and its displacement is part of it. */
  lemma {:induction false} DisasmInside(code: seq<Byte>)
    ensures var i := Disasm(code);
            && (|code| > 0 ==> 1 <= i.len) && i.len <= |code| && i.len <= MAX_INSN
            && (i.field.Some? ==> 1 <= i.field.value && i.field.value + 4 <= i.len)
  {
    hide DecodeOpcode, PrefixEnd;
    var w := Window(code);
    var p := PrefixEnd(w, 0);
    if p < |w| {
      OpcodeInside(w, p, Sizes(0x66 in w[..p], 0x67 in w[..p], false));
      if p + 1 < |w| {
        OpcodeInside(w, p + 1, Sizes(0x66 in w[..p], 0x67 in w[..p], w[p] / 8 % 2 == 1));
      }
    }
  }

  /** Same length, and the same bytes before `f`. */
  predicate SameBefore(v: seq<Byte>, w: seq<Byte>, f: nat) {
    |v| == |w| && f <= |w| && forall i :: 0 <= i < f ==> v[i] == w[i]
  }

  lemma {:induction false} ModRmBlind(v: seq<Byte>, w: seq<Byte>, p: nat, imm: nat, z: Sizes, f: nat)
    requires DecodeModRm(v, p, imm, z).field == Some(f) && SameBefore(v, w, f)
    ensures DecodeModRm(w, p, imm, z) == DecodeModRm(v, p, imm, z)
  {
    hide ImmSize;
  }

  lemma {:induction false} OperandsBlind(v: seq<Byte>, w: seq<Byte>, p: nat, kind: nat, imm: nat, z: Sizes, f: nat)
    requires DecodeOperands(v, p, kind, imm, z).field == Some(f) && SameBefore(v, w, f)
    ensures DecodeOperands(w, p, kind, imm, z) == DecodeOperands(v, p, kind, imm, z)
  {
    hide ImmSize, DecodeModRm;
    if kind == 2 {
      ModRmBlind(v, w, p, imm, z, f);
    }
  }

  lemma {:induction false} OpcodeBlind(v: seq<Byte>, w: seq<Byte>, p: nat, z: Sizes, f: nat)
    requires p < |v| && DecodeOpcode(v, p, z).field == Some(f) && SameBefore(v, w, f)
    ensures DecodeOpcode(w, p, z) == DecodeOpcode(v, p, z)
  {
    hide OperandKind, ImmKind, DecodeOperands;
    OpcodeInside(v, p, z);
    if v[p] != 0x0F {
      OperandsBlind(v, w, p + 1, OperandKind(false, v[p]), ImmKind(false, v[p]), z, f);
    } else if p + 1 < |v| {
      var kind, imm := OperandKind(true, v[p + 1]), ImmKind(true, v[p + 1]);
      OperandsInside(v, p + 2, kind, imm, z);
      OperandsBlind(v, w, p + 2, kind, imm, z, f);
    }
  }

  lemma {:induction false} PrefixBlind(v: seq<Byte>, w: seq<Byte>, p: nat, f: nat)
    requires p <= |v| && PrefixEnd(v, p) < f && SameBefore(v, w, f)
    ensures PrefixEnd(w, p) == PrefixEnd(v, p)
    decreases |v| - p
  {
    if p < |v| && IsPrefix(v[p]) {
      PrefixBlind(v, w, p + 1, f);
    }
  }

  lemma {:induction false} DecodeBlind(v: seq<Byte>, w: seq<Byte>, f: nat)
    requires Decode(v).field == Some(f) && SameBefore(v, w, f)
    ensures Decode(w) == Decode(v)
  {
    hide DecodeOpcode, PrefixEnd;
    var p := PrefixEnd(v, 0);
    var word, short := 0x66 in v[..p], 0x67 in v[..p];
    var z, wide := Sizes(word, short, false), Sizes(word, short, v[p] / 8 % 2 == 1);
    if v[p] / 16 == 4 {
      OpcodeInside(v, p + 1, wide);
    } else {
      OpcodeInside(v, p, z);
    }
    PrefixBlind(v, w, 0, f);
    assert v[..p] == w[..p];
    if v[p] / 16 == 4 {
      OpcodeBlind(v, w, p + 1, wide, f);
    } else {
      OpcodeBlind(v, w, p, z, f);
    }
  }

  /** The decoder never looks at the displacement, or at anything behind it: whatever is written there, the
      instruction has the same length and the same displacement. */
  lemma {:induction false} FieldBlind(code: seq<Byte>, other: seq<Byte>)
    requires Disasm(code).field.Some? && SameBefore(code, other, Disasm(code).field.value)
    ensures Disasm(other) == Disasm(code)
  {
    hide Decode;
    DisasmInside(code);
    DecodeBlind(Window(code), Window(other), Disasm(code).field.value);
  }

  lemma {:induction false} ModRmReads(v: seq<Byte>, w: seq<Byte>, p: nat, imm: nat, z: Sizes)
    requires p <= |v| && SameBefore(v, w, DecodeModRm(v, p, imm, z).len) && DecodeModRm(v, p, imm, z).len <= |v|
    ensures DecodeModRm(w, p, imm, z) == DecodeModRm(v, p, imm, z)
  {
    hide ImmSize;
  }

  lemma {:induction false} OperandsReads(v: seq<Byte>, w: seq<Byte>, p: nat, kind: nat, imm: nat, z: Sizes)
    requires p <= |v| && SameBefore(v, w, DecodeOperands(v, p, kind, imm, z).len)
    ensures DecodeOperands(w, p, kind, imm, z) == DecodeOperands(v, p, kind, imm, z)
  {
    hide ImmSize, DecodeModRm;
    if kind == 2 {
      ModRmReads(v, w, p, imm, z);
    }
  }

  lemma {:induction false} OpcodeReads(v: seq<Byte>, w: seq<Byte>, p: nat, z: Sizes)
    requires p < |v| && SameBefore(v, w, DecodeOpcode(v, p, z).len)
    ensures DecodeOpcode(w, p, z) == DecodeOpcode(v, p, z)
  {
    hide OperandKind, ImmKind, DecodeOperands;
    OpcodeInside(v, p, z);
    if v[p] != 0x0F {
      OperandsReads(v, w, p + 1, OperandKind(false, v[p]), ImmKind(false, v[p]), z);
    } else if p + 1 < |v| {
      var kind, imm := OperandKind(true, v[p + 1]), ImmKind(true, v[p + 1]);
      OperandsInside(v, p + 2, kind, imm, z);
      OperandsReads(v, w, p + 2, kind, imm, z);
    }
  }

  /** Any instruction is settled by its own bytes and the one after it. */
  lemma {:induction false} DisasmReads(code: seq<Byte>, other: seq<Byte>, n: nat)
    requires SameBefore(code, other, n) && (Disasm(code).len < n || n == |code|)
    ensures Disasm(other) == Disasm(code)
  {
    hide DecodeOpcode, PrefixEnd;
    DisasmInside(code);
    var v, w := Window(code), Window(other);
    if n == |code| {
      assert code == other;
    } else {
      var p := PrefixEnd(v, 0);
      var word, short := 0x66 in v[..p], 0x67 in v[..p];
      if p < |v| {
        var z, wide := Sizes(word, short, false), Sizes(word, short, v[p] / 8 % 2 == 1);
        OpcodeInside(v, p, z);
        if p + 1 < |v| {
          OpcodeInside(v, p + 1, wide);
        }
        ReadsFromOpcode(v, w, p, n, z, wide);
      } else {
        assert v == w;
      }
    }
  }

  lemma {:induction false} ReadsFromOpcode(v: seq<Byte>, w: seq<Byte>, p: nat, n: nat, z: Sizes, wide: Sizes)
    requires p == PrefixEnd(v, 0) < |v| && SameBefore(v, w, if n < |v| then n else |v|) && Decode(v).len < n
    requires z == Sizes(0x66 in v[..p], 0x67 in v[..p], false) && wide == z.(wide := v[p] / 8 % 2 == 1)
    ensures Decode(w) == Decode(v)
  {
    hide DecodeOpcode, PrefixEnd;
    OpcodeInside(v, p, z);
    if p + 1 < |v| {
      OpcodeInside(v, p + 1, wide);
    }
    assert p < Decode(v).len;
    PrefixBlind(v, w, 0, if n < |v| then n else |v|);
    assert v[..p] == w[..p];
    if v[p] / 16 != 4 {
      OpcodeReads(v, w, p, z);
    } else if p + 1 < |v| && v[p + 1] / 16 != 4 {
      OpcodeReads(v, w, p + 1, wide);
    }
  }

  // --- The program ---

  method DisasmAmd64(code: seq<Byte>) returns (i: Insn)
    ensures i == Disasm(code)
  {
    hide DecodeRex;
    var w := Window(code);
    var p, word, shortAddress := 0, false, false;
    while p < |w| && IsPrefix(w[p])
      invariant p <= |w| && PrefixEnd(w, p) == PrefixEnd(w, 0)
      invariant word == (0x66 in w[..p]) && shortAddress == (0x67 in w[..p])
    {
      if w[p] == 0x66 {
        word := true;
      } else if w[p] == 0x67 {
        shortAddress := true;
      }
      assert w[..p + 1] == w[..p] + [w[p]];
      p := p + 1;
    }
    i := DecodeRex(w, p, word, shortAddress);
  }
}
