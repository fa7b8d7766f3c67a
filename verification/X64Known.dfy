/** How the disassembler sees the instructions that a compiler emits most, whatever bytes follow. */
module X64Known {
  import opened RangeCoding
  import opened CanonicalCode
  import opened X64Disasm

  lemma {:induction false} CallKinds()
    ensures OperandKind(false, 0xE8) == 5 && ImmKind(false, 0xE8) == 0
    ensures OperandKind(false, 0xE9) == 5 && ImmKind(false, 0xE9) == 0
  {
  }

  lemma {:induction false} MoveKinds()
    ensures OperandKind(false, 0x8B) == 2 && ImmKind(false, 0x8B) == 0
    ensures OperandKind(false, 0x8D) == 2 && ImmKind(false, 0x8D) == 0
    ensures OperandKind(false, 0x89) == 2 && ImmKind(false, 0x89) == 0
  {
  }

  lemma {:induction false} GroupKinds()
    ensures OperandKind(false, 0xFF) == 2 && ImmKind(false, 0xFF) == 0
    ensures OperandKind(false, 0xC7) == 2 && ImmKind(false, 0xC7) == 5
  {
  }

  lemma {:induction false} ImmediateKinds()
    ensures OperandKind(false, 0x80) == 2 && ImmKind(false, 0x80) == 1
    ensures OperandKind(false, 0xF7) == 2 && ImmKind(false, 0xF7) == 7
  {
  }

  lemma {:induction false} ShortKinds()
    ensures OperandKind(false, 0x90) == 0 && ImmKind(false, 0x90) == 0
    ensures OperandKind(false, 0xC3) == 0 && ImmKind(false, 0xC3) == 0
  {
  }

  lemma {:induction false} BranchKinds()
    ensures OperandKind(false, 0x74) == 4 && ImmKind(false, 0x74) == 0
    ensures OperandKind(false, 0xEB) == 4 && ImmKind(false, 0xEB) == 0
  {
  }

  lemma {:induction false} LoadKinds()
    ensures OperandKind(false, 0xB8) == 0 && ImmKind(false, 0xB8) == 4
  {
  }

  lemma {:induction false} ConditionKinds(op: Byte)
    requires 0x80 <= op < 0x90
    ensures OperandKind(true, op) == 5 && ImmKind(true, op) == 0
  {
    hide OperandKind, ImmKind;
    if op < 0x88 {
      FirstConditions(op);
    } else {
      LastConditions(op);
    }
  }

  lemma {:induction false} FirstConditions(op: Byte)
    requires 0x80 <= op < 0x88
    ensures OperandKind(true, op) == 5 && ImmKind(true, op) == 0
  {
  }

  lemma {:induction false} LastConditions(op: Byte)
    requires 0x88 <= op < 0x90
    ensures OperandKind(true, op) == 5 && ImmKind(true, op) == 0
  {
  }

  // --- Instructions without prefixes ---

  /** Where the operands of an instruction start: behind an optional byte 40 to 4F and the opcode. */
  lemma {:induction false} PlainOpcode(code: seq<Byte>)
    requires |code| >= 15 && !IsPrefix(code[0])
    ensures code[0] / 16 != 4 ==> Disasm(code) == DecodeOpcode(Window(code), 0, Sizes(false, false, false))
    ensures code[0] / 16 == 4 && code[1] / 16 != 4 ==>
              Disasm(code) == DecodeOpcode(Window(code), 1, Sizes(false, false, code[0] / 8 % 2 == 1))
  {
    hide DecodeOpcode;
    var w := Window(code);
    assert PrefixEnd(w, 0) == 0 && w[..0] == [];
  }

  /** Calls and jumps: the displacement follows the opcode and ends the instruction. */
  lemma {:induction false} Branches(code: seq<Byte>)
    requires |code| >= 15
    ensures code[0] in {0xE8, 0xE9} ==> Disasm(code) == Insn(5, Some(1))
    ensures code[0] == 0x0F && 0x80 <= code[1] < 0x90 ==> Disasm(code) == Insn(6, Some(2))
    ensures code[0] in {0x74, 0xEB} ==> Disasm(code) == Insn(2, None)
  {
    hide OperandKind, ImmKind;
    var w := Window(code);
    if code[0] in {0xE8, 0xE9, 0x0F, 0x74, 0xEB} {
      PlainOpcode(code);
      CallKinds();
      BranchKinds();
      if 0x80 <= code[1] < 0x90 {
        ConditionKinds(code[1]);
      }
    }
  }

  /** An operand relative to the instruction pointer: load, store, address, and the indirect call or jump; with or
      without a byte 40 to 4F in front. */
  lemma {:induction false} RelativeOperands(code: seq<Byte>)
    requires |code| >= 15
    ensures code[0] in {0x8B, 0x89, 0x8D, 0xFF} && code[1] / 64 == 0 && code[1] % 8 == 5 ==>
              Disasm(code) == Insn(6, Some(2))
    ensures code[0] / 16 == 4 && code[1] in {0x8B, 0x89, 0x8D, 0xFF} && code[2] / 64 == 0 && code[2] % 8 == 5 ==>
              Disasm(code) == Insn(7, Some(3))
  {
    hide OperandKind, ImmKind;
    var w := Window(code);
    MoveKinds();
    GroupKinds();
    if code[0] in {0x8B, 0x89, 0x8D, 0xFF} || (code[0] / 16 == 4 && code[1] in {0x8B, 0x89, 0x8D, 0xFF}) {
      PlainOpcode(code);
    }
  }

  /** A constant behind the displacement counts towards the length, so that the displacement is relative to its end. */
  lemma {:induction false} ConstantsBehind(code: seq<Byte>)
    requires |code| >= 15
    ensures code[0] == 0xC7 && code[1] == 0x05 ==> Disasm(code) == Insn(10, Some(2))
    ensures code[0] == 0x80 && code[1] == 0x3D ==> Disasm(code) == Insn(7, Some(2))
    ensures code[0] == 0xF7 && code[1] == 0x05 ==> Disasm(code) == Insn(10, Some(2))
    ensures code[0] == 0xF7 && code[1] == 0x1D ==> Disasm(code) == Insn(6, Some(2))
    ensures code[0] == 0x48 && code[1] == 0xC7 && code[2] == 0x05 ==> Disasm(code) == Insn(11, Some(3))
  {
    hide OperandKind, ImmKind;
    var w := Window(code);
    GroupKinds();
    ImmediateKinds();
    if code[0] in {0xC7, 0x80, 0xF7, 0x48} {
      PlainOpcode(code);
    }
  }

  /** Registers, the stack and absolute addresses have no relative displacement. */
  lemma {:induction false} NotRelative(code: seq<Byte>)
    requires |code| >= 15
    ensures code[0] in {0x90, 0xC3} ==> Disasm(code) == Insn(1, None)
    ensures code[0] == 0x8B && code[1] / 64 == 3 ==> Disasm(code) == Insn(2, None)
    ensures code[0] == 0x8B && code[1] / 64 == 1 && code[1] % 8 == 4 ==> Disasm(code) == Insn(4, None)
    ensures code[0] == 0x8B && code[1] / 64 == 0 && code[1] % 8 == 4 && code[2] % 8 == 5 ==>
              Disasm(code) == Insn(7, None)
    ensures code[0] == 0xB8 ==> Disasm(code) == Insn(5, None)
    ensures code[0] == 0x48 && code[1] == 0xB8 ==> Disasm(code) == Insn(10, None)
  {
    hide OperandKind, ImmKind;
    var w := Window(code);
    MoveKinds();
    ShortKinds();
    LoadKinds();
    if code[0] in {0x90, 0xC3, 0x8B, 0xB8, 0x48} {
      PlainOpcode(code);
    }
  }

  // --- Prefixes ---

  /** A single prefix moves everything on by one; 66 makes constants and 67 nothing of this shorter. */
  lemma {:induction false} PrefixedOperands(code: seq<Byte>)
    requires |code| >= 15 && code[0] in {0x26, 0x2E, 0x36, 0x3E, 0x64, 0x65, 0x66, 0x67, 0xF0, 0xF2, 0xF3}
    ensures code[1] == 0x8B && code[2] / 64 == 0 && code[2] % 8 == 5 ==> Disasm(code) == Insn(7, Some(3))
    ensures code[1] == 0xC7 && code[2] == 0x05 ==> Disasm(code) == Insn(if code[0] == 0x66 then 9 else 11, Some(3))
    ensures code[1] == 0xE8 ==> Disasm(code) == Insn(6, Some(2))
  {
    hide OperandKind, ImmKind;
    MoveKinds();
    GroupKinds();
    ImmediateKinds();
    CallKinds();
    if code[1] in {0x8B, 0xC7, 0xE8} {
      OnePrefix(code);
    }
  }

  lemma {:induction false} OnePrefix(code: seq<Byte>)
    requires |code| >= 15 && IsPrefix(code[0]) && !IsPrefix(code[1]) && code[1] / 16 != 4
    ensures Disasm(code) == DecodeOpcode(Window(code), 1, Sizes(code[0] == 0x66, code[0] == 0x67, false))
  {
    hide DecodeOpcode;
    var w := Window(code);
    assert PrefixEnd(w, 1) == 1 && PrefixEnd(w, 0) == 1;
    assert w[..1] == [code[0]];
  }
}
