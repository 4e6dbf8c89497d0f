/** The x64 emitters as they run: each adjusts the offset and, while emitting, stores
    into the code buffer.  Every one is proved to have the effect `Encode` says. */
module AsmX64Emit {
  import opened Basics
  import opened AsmBase
  import opened AsmX64

  lemma AppendNothing(pass: Pass, s: State)
    ensures Append(pass, s, Nops(0)) == s
  {
  }

  method WriteByte1(a: Asm, b1: byte)
    requires a.Valid() && Room(a, 1)
    modifies a`codeOffset, a.codeBase
    ensures a.Abs() == Append(a.pass, old(a.Abs()), [b1])
  {
    hide Patch;
    var c := a.GetCurToWriteBytes(1);
    if c.Some? {
      ghost var before := a.codeBase[..];
      a.codeBase[c.value] := b1;
      StoredIsPatch(before, a.codeBase[..], c.value, [b1]);
    }
  }

  method WriteByte2(a: Asm, b1: byte, b2: byte)
    requires a.Valid() && Room(a, 2)
    modifies a`codeOffset, a.codeBase
    ensures a.Abs() == Append(a.pass, old(a.Abs()), [b1, b2])
  {
    hide Patch;
    var c := a.GetCurToWriteBytes(2);
    if c.Some? {
      ghost var before := a.codeBase[..];
      a.codeBase[c.value] := b1;
      a.codeBase[c.value + 1] := b2;
      StoredIsPatch(before, a.codeBase[..], c.value, [b1, b2]);
    }
  }

  method WriteByte3(a: Asm, b1: byte, b2: byte, b3: byte)
    requires a.Valid() && Room(a, 3)
    modifies a`codeOffset, a.codeBase
    ensures a.Abs() == Append(a.pass, old(a.Abs()), [b1, b2, b3])
  {
    hide Patch;
    var c := a.GetCurToWriteBytes(3);
    if c.Some? {
      ghost var before := a.codeBase[..];
      a.codeBase[c.value] := b1;
      a.codeBase[c.value + 1] := b2;
      a.codeBase[c.value + 2] := b3;
      StoredIsPatch(before, a.codeBase[..], c.value, [b1, b2, b3]);
    }
  }

  method WriteWord32(a: Asm, w: int)
    requires a.Valid() && Room(a, 4)
    modifies a`codeOffset, a.codeBase
    ensures a.Abs() == Append(a.pass, old(a.Abs()), Word32(w))
  {
    hide Patch;
    var c := a.GetCurToWriteBytes(4);
    if c.Some? {
      ghost var before := a.codeBase[..];
      a.codeBase[c.value] := w % 256;
      a.codeBase[c.value + 1] := w / 0x100 % 256;
      a.codeBase[c.value + 2] := w / 0x1_0000 % 256;
      a.codeBase[c.value + 3] := w / 0x100_0000 % 256;
      StoredIsPatch(before, a.codeBase[..], c.value, Word32(w));
    }
  }

  method WriteWord64(a: Asm, w: Bits64)
    requires a.Valid() && Room(a, 8)
    modifies a`codeOffset, a.codeBase
    ensures a.Abs() == Append(a.pass, old(a.Abs()), Word64(w))
  {
    hide Patch;
    var c := a.GetCurToWriteBytes(8);
    if c.Some? {
      ghost var before := a.codeBase[..];
      var high := w / 0x1_0000_0000;
      a.codeBase[c.value] := w % 256;
      a.codeBase[c.value + 1] := w / 0x100 % 256;
      a.codeBase[c.value + 2] := w / 0x1_0000 % 256;
      a.codeBase[c.value + 3] := w / 0x100_0000 % 256;
      a.codeBase[c.value + 4] := high % 256;
      a.codeBase[c.value + 5] := high / 0x100 % 256;
      a.codeBase[c.value + 6] := high / 0x1_0000 % 256;
      a.codeBase[c.value + 7] := high / 0x100_0000 % 256;
      StoredIsPatch(before, a.codeBase[..], c.value, Word64(w));
    }
  }

  method WriteMemOperand(a: Asm, reg: Reg, base: Reg, disp: Int32)
    requires a.Valid() && Room(a, |MemOperand(reg, base, disp)|)
    requires base != RSP && (base == R12 ==> SignedFit8(disp))
    modifies a`codeOffset, a.codeBase
    ensures a.Abs() == Append(a.pass, old(a.Abs()), MemOperand(reg, base, disp))
  {
    hide Append, Word32;
    if base == R12 {
      WriteByte3(a, 8 * (reg % 8) + 0x40 + base % 8, 0x24, disp % 256);
    } else if disp == 0 && base != RBP {
      WriteByte1(a, 8 * (reg % 8) + base % 8);
    } else if SignedFit8(disp) {
      WriteByte2(a, 8 * (reg % 8) + 0x40 + base % 8, disp % 256);
    } else {
      AppendTwice(a.pass, a.Abs(), [8 * (reg % 8) + 0x80 + base % 8], Word32(disp));
      AppendOffset(a.pass, a.Abs(), [8 * (reg % 8) + 0x80 + base % 8]);
      WriteByte1(a, 8 * (reg % 8) + 0x80 + base % 8);
      WriteWord32(a, disp);
    }
  }

  method Nop(a: Asm)
    requires a.Valid() && Room(a, 1)
    modifies a`codeOffset, a.codeBase
    ensures a.Abs() == Append(a.pass, old(a.Abs()), [0x90])
  {
    WriteByte1(a, 0x90);
  }

  method PushR64(a: Asm, r: Reg)
    requires a.Valid() && Room(a, |Encode(Push(r), 0, [])|)
    modifies a`codeOffset, a.codeBase
    ensures a.Abs() == Append(a.pass, old(a.Abs()), Encode(Push(r), 0, []))
  {
    if r < 8 {
      WriteByte1(a, 0x50 + r);
    } else {
      WriteByte2(a, 0x41, 0x50 + r % 8);
    }
  }

  method PopR64(a: Asm, r: Reg)
    requires a.Valid() && Room(a, |Encode(Pop(r), 0, [])|)
    modifies a`codeOffset, a.codeBase
    ensures a.Abs() == Append(a.pass, old(a.Abs()), Encode(Pop(r), 0, []))
  {
    if r < 8 {
      WriteByte1(a, 0x58 + r);
    } else {
      WriteByte2(a, 0x41, 0x58 + r % 8);
    }
  }

  method MovI32ToR64(a: Asm, imm: Bits64, r: Reg)
    requires a.Valid() && Room(a, |MovNarrow(imm, r)|)
    modifies a`codeOffset, a.codeBase
    ensures a.Abs() == Append(a.pass, old(a.Abs()), MovNarrow(imm, r))
  {
    AppendTwice(a.pass, a.Abs(), if r < 8 then [0xb8 + r] else [0x41, 0xb8 + r % 8], Word32(imm));
    if r < 8 {
      WriteByte1(a, 0xb8 + r);
    } else {
      WriteByte2(a, 0x41, 0xb8 + r % 8);
    }
    WriteWord32(a, imm);
  }

  method MovI64ToR64(a: Asm, imm: Bits64, r: Reg)
    requires a.Valid() && Room(a, 10)
    modifies a`codeOffset, a.codeBase
    ensures a.Abs() == Append(a.pass, old(a.Abs()), MovWide(imm, r))
  {
    AppendTwice(a.pass, a.Abs(), [0x48 + r / 8, 0xb8 + r % 8], Word64(imm));
    WriteByte2(a, 0x48 + r / 8, 0xb8 + r % 8);
    WriteWord64(a, imm);
  }

  method MovI64ToR64Optimised(a: Asm, imm: Bits64, r: Reg)
    requires a.Valid() && Room(a, |Encode(MovImm(imm, r), 0, [])|)
    modifies a`codeOffset, a.codeBase
    ensures a.Abs() == Append(a.pass, old(a.Abs()), Encode(MovImm(imm, r), 0, []))
  {
    if imm < 0x1_0000_0000 {
      MovI32ToR64(a, imm, r);
    } else {
      MovI64ToR64(a, imm, r);
    }
  }

  /** The padding loop: nops until the word behind the two opcode bytes is aligned. */
  method PadForWord(a: Asm)
    requires a.Valid() && Room(a, Padding(a.codeOffset))
    modifies a`codeOffset, a.codeBase
    ensures a.Abs() == Append(a.pass, old(a.Abs()), Nops(Padding(old(a.codeOffset))))
    ensures (a.codeOffset + 2) % 8 == 0
  {
    ghost var start := a.Abs();
    ghost var n := 0;
    AppendNothing(a.pass, start);
    hide Append;
    while (a.codeOffset + 2) % 8 != 0
      modifies a`codeOffset, a.codeBase
      invariant n <= Padding(start.off) && a.codeOffset == start.off + n
      invariant a.Abs() == Append(a.pass, start, Nops(n))
      decreases Padding(start.off) - n
    {
      AppendTwice(a.pass, start, Nops(n), [0x90]);
      Nop(a);
      assert Nops(n) + [0x90] == Nops(n + 1);
      n := n + 1;
      AppendOffset(a.pass, start, Nops(n));
    }
  }

  method MovI64ToR64Aligned(a: Asm, imm: Bits64, r: Reg)
    requires a.Valid() && Room(a, |Encode(MovImmAligned(imm, r), a.codeOffset, [])|)
    modifies a`codeOffset, a.codeBase
    ensures a.Abs() == Append(a.pass, old(a.Abs()), Encode(MovImmAligned(imm, r), old(a.codeOffset), []))
    ensures (a.codeOffset - 8) % 8 == 0
  {
    AppendTwice(a.pass, a.Abs(), Nops(Padding(a.codeOffset)), MovWide(imm, r));
    PadForWord(a);
    MovI64ToR64(a, imm, r);
  }

  method WriteMemAccess(a: Asm, rex: byte, opcode: byte, reg: Reg, base: Reg, disp: Int32)
    requires a.Valid() && Room(a, 2 + |MemOperand(reg, base, disp)|)
    requires base != RSP && (base == R12 ==> SignedFit8(disp))
    modifies a`codeOffset, a.codeBase
    ensures a.Abs() == Append(a.pass, old(a.Abs()), [rex, opcode] + MemOperand(reg, base, disp))
  {
    ghost var operand := MemOperand(reg, base, disp);
    AppendTwice(a.pass, a.Abs(), [rex, opcode], operand);
    WriteByte2(a, rex, opcode);
    WriteMemOperand(a, reg, base, disp);
  }

  method MovMem64ToR64(a: Asm, base: Reg, disp: Int32, reg: Reg)
    requires a.Valid() && Allowed(Load(base, disp, reg), 0) && Room(a, 2 + |MemOperand(reg, base, disp)|)
    modifies a`codeOffset, a.codeBase
    ensures a.Abs() == Append(a.pass, old(a.Abs()), Encode(Load(base, disp, reg), 0, []))
  {
    WriteMemAccess(a, 0x48 + 4 * (reg / 8) + base / 8, 0x8b, reg, base, disp);
  }

  method MovR64ToMem64(a: Asm, reg: Reg, base: Reg, disp: Int32)
    requires a.Valid() && Allowed(Store(base, disp, reg), 0) && Room(a, 2 + |MemOperand(reg, base, disp)|)
    modifies a`codeOffset, a.codeBase
    ensures a.Abs() == Append(a.pass, old(a.Abs()), Encode(Store(base, disp, reg), 0, []))
  {
    WriteMemAccess(a, 0x48 + 4 * (reg / 8) + base / 8, 0x89, reg, base, disp);
  }

  method GetLabelDest(a: Asm, id: nat) returns (dest: int)
    requires a.Valid() && id < a.maxNumLabels
    ensures dest == LabelDest(a.labelOffsets[..], id)
  {
    dest := a.labelOffsets[id];
  }

  /** A branch opcode of one or two bytes and its 32-bit displacement. */
  method WriteRel32(a: Asm, opcode: seq<byte>, rel: int)
    requires a.Valid() && 1 <= |opcode| <= 2 && Room(a, |opcode| + 4)
    modifies a`codeOffset, a.codeBase
    ensures a.Abs() == Append(a.pass, old(a.Abs()), opcode + Word32(rel))
  {
    AppendTwice(a.pass, a.Abs(), opcode, Word32(rel));
    if |opcode| == 1 {
      assert opcode == [opcode[0]];
      WriteByte1(a, opcode[0]);
    } else {
      assert opcode == [opcode[0], opcode[1]];
      WriteByte2(a, opcode[0], opcode[1]);
    }
    WriteWord32(a, rel);
  }

  method JmpLabel(a: Asm, id: nat)
    requires a.Valid() && id < a.maxNumLabels
    requires Room(a, |Encode(Jmp(id), a.codeOffset, a.labelOffsets[..])|)
    modifies a`codeOffset, a.codeBase
    ensures a.Abs() == Append(a.pass, old(a.Abs()), Encode(Jmp(id), old(a.codeOffset), old(a.labelOffsets[..])))
  {
    hide Append;
    var dest := GetLabelDest(a, id);
    var rel := dest - a.codeOffset;
    var large := true;
    if dest != UNASSIGNED && rel < 0 {
      rel := rel - 2;
      if SignedFit8(rel) {
        WriteByte2(a, 0xeb, rel % 256);
        large := false;
      } else {
        rel := rel + 2;
      }
    }
    if large {
      rel := rel - 5;
      WriteRel32(a, [0xe9], rel);
    }
  }

  method JccLabel(a: Asm, cc: Cond, id: nat)
    requires a.Valid() && id < a.maxNumLabels
    requires Room(a, |Encode(Jcc(cc, id), a.codeOffset, a.labelOffsets[..])|)
    modifies a`codeOffset, a.codeBase
    ensures a.Abs() == Append(a.pass, old(a.Abs()), Encode(Jcc(cc, id), old(a.codeOffset), old(a.labelOffsets[..])))
  {
    hide Append;
    var dest := GetLabelDest(a, id);
    var rel := dest - a.codeOffset;
    var large := true;
    if dest != UNASSIGNED && rel < 0 {
      rel := rel - 2;
      if SignedFit8(rel) {
        WriteByte2(a, 0x70 + cc, rel % 256);
        large := false;
      } else {
        rel := rel + 2;
      }
    }
    if large {
      rel := rel - 6;
      WriteRel32(a, [0x0f, 0x80 + cc], rel);
    }
  }

  method EmitInstr(a: Asm, i: Instr)
    requires a.Valid() && Allowed(i, a.maxNumLabels)
    requires Room(a, |Encode(i, a.codeOffset, a.labelOffsets[..])|)
    modifies a`codeOffset, a.codeBase
    ensures a.Abs() == Append(a.pass, old(a.Abs()), Encode(i, old(a.codeOffset), old(a.labelOffsets[..])))
  {
    match i {
      case Push(r) => PushR64(a, r);
      case Pop(r) => PopR64(a, r);
      case RegReg(op, dest, src) =>
        WriteByte3(a, 0x48 + 4 * (src / 8) + dest / 8, op.Opcode(), 0xc0 + 8 * (src % 8) + dest % 8);
      case MovImm(imm, r) => MovI64ToR64Optimised(a, imm, r);
      case MovImmAligned(imm, r) => MovI64ToR64Aligned(a, imm, r);
      case Load(base, disp, reg) => MovMem64ToR64(a, base, disp, reg);
      case Store(base, disp, reg) => MovR64ToMem64(a, reg, base, disp);
      case Jmp(id) => JmpLabel(a, id);
      case Jcc(cc, id) => JccLabel(a, cc, id);
      case Ret => WriteByte1(a, 0xc3);
    }
  }

  /** One call of a pass. */
  method Call(a: Asm, op: Op<Instr>)
    requires a.Valid() && Asserts(Encode, a.pass, op, a.Abs())
    requires op.Instr? ==> Allowed(op.i, a.maxNumLabels)
    requires op.Align? ==> op.to > 0
    modifies a`codeOffset, a.codeBase, a.labelOffsets
    ensures a.Abs() == Step(Encode, a.pass, op, old(a.Abs()))
  {
    match op {
      case Label(id) => a.LabelAssign(id);
      case Align(to) => a.Align(to);
      case Data(size, val) => a.Data(size, val);
      case Instr(i) => EmitInstr(a, i);
    }
  }

  /** A program the assembler's interface accepts. */
  ghost predicate Program(ops: seq<Op<Instr>>, maxLabels: nat) {
    && WellFormed(ops, maxLabels)
    && forall k :: 0 <= k < |ops| && ops[k].Instr? ==> Allowed(ops[k].i, maxLabels)
  }

  method ComputePass(a: Asm, ops: seq<Op<Instr>>)
    requires a.Valid() && Program(ops, a.maxNumLabels)
    modifies a, a.codeBase, a.labelOffsets
    ensures a.Valid() && a.codeBase == old(a.codeBase)
    ensures a.codeOffset == Size(Encode, ops, a.maxNumLabels)
    ensures a.labelOffsets[..] == Table(Encode, ops, a.maxNumLabels)
  {
    hide Encode;
    a.StartPass(Compute, 0);
    for k := 0 to |ops|
      invariant a.Valid() && a.pass == Compute && a.codeBase == old(a.codeBase)
      invariant a.codeOffset == Computed(Encode, ops, a.maxNumLabels, k).off
      invariant a.labelOffsets[..] == Computed(Encode, ops, a.maxNumLabels, k).labels
    {
      ComputeAssertsHold(Encode, ops, a.maxNumLabels, k);
      Call(a, ops[k]);
    }
  }

  /** Any positive number of compute passes and then the emit pass.  That this method
      verifies means no assertion of the assembler can fail on the way. */
  method Assemble(ops: seq<Op<Instr>>, maxLabels: nat, computePasses: nat, roundUp: nat)
    returns (a: Asm, ghost buf: seq<byte>)
    requires Program(ops, maxLabels) && computePasses > 0
    ensures a.Valid() && |buf| == Size(Encode, ops, maxLabels) + roundUp
    ensures a.codeOffset == Size(Encode, ops, maxLabels) <= a.codeSize
    ensures a.codeBase[..] == Code(Encode, ops, maxLabels, buf)
    ensures a.labelOffsets[..] == Table(Encode, ops, maxLabels)
  {
    hide Encode;
    a := new Asm(maxLabels);
    for p := 0 to computePasses
      invariant a.Valid() && a.maxNumLabels == maxLabels && fresh(a) && fresh(a.codeBase) && fresh(a.labelOffsets)
      invariant p > 0 ==> a.codeOffset == Size(Encode, ops, maxLabels)
                          && a.labelOffsets[..] == Table(Encode, ops, maxLabels)
    {
      ComputePass(a, ops);
    }
    a.StartPass(Emit, roundUp);
    buf := a.codeBase[..];
    EncodeStable();
    PassesAgree(Encode, ops, maxLabels, buf, |ops|);
    for k := 0 to |ops|
      invariant a.Valid() && a.pass == Emit && a.maxNumLabels == maxLabels
      invariant fresh(a) && fresh(a.codeBase) && fresh(a.labelOffsets)
      invariant a.Abs() == Emitted(Encode, ops, maxLabels, buf, k)
    {
      EmitAssertsHold(Encode, ops, maxLabels, buf, k);
      Call(a, ops[k]);
    }
  }
}
