/** The x64 target: what each emitter writes, how the processor reads it back, and why
    the emitted bytes run the labelled program they were assembled from.

    Registers are numbered 0 to 15 as in the instruction encoding; the bit fields that
    the emitters combine with `|` are disjoint and are added here. */
module AsmX64 {
  import opened Basics
  import opened AsmBase

  type Reg = r: nat | r < 16
  type Cond = c: nat | c < 16
  type Int32 = x: int | -0x8000_0000 <= x < 0x8000_0000
  /** A 64-bit immediate, as the bit pattern it is stored as. */
  type Bits64 = x: nat | x < 0x1_0000_0000_0000_0000

  const RSP: Reg := 4
  const RBP: Reg := 5
  const R12: Reg := 12
  const R13: Reg := 13

  datatype Alu = Add | Or | And | Sub | Xor | Cmp | Mov {
    function Opcode(): byte {
      match this
      case Add => 0x01
      case Or => 0x09
      case And => 0x21
      case Sub => 0x29
      case Xor => 0x31
      case Cmp => 0x39
      case Mov => 0x89
    }
  }

  datatype Instr =
    | Push(r: Reg)
    | Pop(r: Reg)
    | RegReg(op: Alu, dest: Reg, src: Reg)
    | MovImm(imm: Bits64, r: Reg)
    | MovImmAligned(imm: Bits64, r: Reg)
    | Load(base: Reg, disp: Int32, reg: Reg)
    | Store(base: Reg, disp: Int32, reg: Reg)
    | Jmp(id: nat)
    | Jcc(cc: Cond, id: nat)
    | Ret

  // ----- what the emitters write -----

  /** `(x & 0xffffff80) == 0 || (x & 0xffffff80) == 0xffffff80`; the mask also drops
      everything above bit 31. */
  predicate SignedFit8(x: int) {
    var masked := x % 0x1_0000_0000 - x % 0x80;
    masked == 0 || masked == 0xffff_ff80
  }

  /** On 32 bits the mask takes away the remainder. */
  lemma FitMask(w: bv32)
    ensures w & 0xffff_ff80 == w - w % 0x80
  {
  }

  function Word32(w: int): (bs: seq<byte>)
    ensures |bs| == 4
  {
    [w % 256, w / 0x100 % 256, w / 0x1_0000 % 256, w / 0x100_0000 % 256]
  }

  function Word64(w: int): (bs: seq<byte>)
    ensures |bs| == 8
  {
    Word32(w) + Word32(w / 0x1_0000_0000)
  }

  function Nops(n: nat): seq<byte> {
    seq(n, _ => 0x90)
  }

  /** Nops needed at `off` for the word behind a two-byte opcode to be word aligned. */
  function Padding(off: nat): nat {
    (6 - off) % 8
  }

  function MovWide(imm: Bits64, r: Reg): seq<byte> {
    [0x48 + r / 8, 0xb8 + r % 8] + Word64(imm)
  }

  function MovNarrow(imm: Bits64, r: Reg): seq<byte> {
    (if r < 8 then [0xb8 + r] else [0x41, 0xb8 + r % 8]) + Word32(imm)
  }

  function MemOperand(reg: Reg, base: Reg, disp: Int32): seq<byte> {
    if base == R12 then
      [8 * (reg % 8) + 0x40 + base % 8, 0x24, disp % 256]
    else if disp == 0 && base != RBP then
      [8 * (reg % 8) + base % 8]
    else if SignedFit8(disp) then
      [8 * (reg % 8) + 0x40 + base % 8, disp % 256]
    else
      [8 * (reg % 8) + 0x80 + base % 8] + Word32(disp)
  }

  /** Short form for a known label behind us that is near enough, long form otherwise. */
  function Branch(off: nat, dest: int, short: byte, long: seq<byte>): seq<byte> {
    var rel := dest - off;
    if dest != UNASSIGNED && rel < 0 && SignedFit8(rel - 2) then [short, (rel - 2) % 256]
    else long + Word32(rel - |long| - 4)
  }

  function Encode(i: Instr, off: nat, labels: seq<int>): (bs: seq<byte>) {
    match i
    case Push(r) => if r < 8 then [0x50 + r] else [0x41, 0x50 + r % 8]
    case Pop(r) => if r < 8 then [0x58 + r] else [0x41, 0x58 + r % 8]
    case RegReg(op, dest, src) =>
      [0x48 + 4 * (src / 8) + dest / 8, op.Opcode(), 0xc0 + 8 * (src % 8) + dest % 8]
    case MovImm(imm, r) => if imm < 0x1_0000_0000 then MovNarrow(imm, r) else MovWide(imm, r)
    case MovImmAligned(imm, r) => Nops(Padding(off)) + MovWide(imm, r)
    case Load(base, disp, reg) => [0x48 + 4 * (reg / 8) + base / 8, 0x8b] + MemOperand(reg, base, disp)
    case Store(base, disp, reg) => [0x48 + 4 * (reg / 8) + base / 8, 0x89] + MemOperand(reg, base, disp)
    case Jmp(id) => Branch(off, LabelDest(labels, id), 0xeb, [0xe9])
    case Jcc(cc, id) => Branch(off, LabelDest(labels, id), 0x70 + cc, [0x0f, 0x80 + cc])
    case Ret => [0xc3]
  }

  /** What the emitters' own assertions demand of an instruction. */
  predicate Allowed(i: Instr, maxLabels: nat) {
    match i
    case Load(base, disp, _) => base != RSP && (base == R12 ==> SignedFit8(disp))
    case Store(base, disp, _) => base != RSP && (base == R12 ==> SignedFit8(disp))
    case Jmp(id) => id < maxLabels
    case Jcc(_, id) => id < maxLabels
    case _ => true
  }

  /** The fit test means what its name says for every displacement of a legal program. */
  lemma FitMeansSmall(x: int)
    requires -0x1_0000_0000 <= x < 0x1_0000_0000 - 0x80
    ensures SignedFit8(x) <==> -0x80 <= x < 0x80 || x < -0x1_0000_0000 + 0x80
  {
  }

  /** The two passes may choose between short and long forms independently. */
  lemma EncodeStable()
    ensures Stable(Encode)
  {
    forall i: Instr, off: nat, now: seq<int>, later: seq<int> ensures StableFor(Encode, i, off, now, later) {
      if Extends(now, later, off, |Encode(i, off, now)|) {
        match i
        case Jmp(id) => BranchStable(off, now, later, id, 0xeb, [0xe9]);
        case Jcc(cc, id) => BranchStable(off, now, later, id, 0x70 + cc, [0x0f, 0x80 + cc]);
        case _ =>
      }
    }
  }

  /** How long each instruction is: which form constants and operands take, that a jump is short
      only to a label that is known, behind and near, and that padding is no longer than needed. */
  lemma Sizes(i: Instr, off: nat, labels: seq<int>)
    requires off < CODE_LIMIT && forall k :: 0 <= k < |labels| ==> -1 <= labels[k] < CODE_LIMIT
    ensures var n := |Encode(i, off, labels)|;
            match i
            case Push(r) => n == if r < 8 then 1 else 2
            case Pop(r) => n == if r < 8 then 1 else 2
            case RegReg(_, _, _) => n == 3
            case MovImm(imm, r) => n == if imm >= 0x1_0000_0000 then 10 else if r < 8 then 5 else 6
            case MovImmAligned(_, _) => n < 18 && (off + n) % 8 == 0
            case Load(base, disp, _) => n == 2 + OperandSize(base, disp)
            case Store(base, disp, _) => n == 2 + OperandSize(base, disp)
            case Jmp(id) => n == if NearBehind(off, labels, id) then 2 else 5
            case Jcc(_, id) => n == if NearBehind(off, labels, id) then 2 else 6
            case Ret => n == 1
  {
    match i
    case Load(_, disp, _) => FitMeansSmall(disp);
    case Store(_, disp, _) => FitMeansSmall(disp);
    case Jmp(id) => NearBehindFits(off, labels, id);
    case Jcc(_, id) => NearBehindFits(off, labels, id);
    case _ =>
  }

  function OperandSize(base: Reg, disp: Int32): nat {
    if base == 12 then 3 else if disp == 0 && base != 5 then 1 else if -0x80 <= disp < 0x80 then 2 else 5
  }

  /** A jump of two bytes at `off` can go back to the label. */
  predicate NearBehind(off: nat, labels: seq<int>, id: nat) {
    id < |labels| && labels[id] != -1 && off + 2 - 0x80 <= labels[id] < off
  }

  lemma NearBehindFits(off: nat, labels: seq<int>, id: nat)
    requires off < CODE_LIMIT && forall k :: 0 <= k < |labels| ==> -1 <= labels[k] < CODE_LIMIT
    ensures var dest := LabelDest(labels, id);
            NearBehind(off, labels, id) <==> dest != UNASSIGNED && dest < off && SignedFit8(dest - off - 2)
  {
    FitMeansSmall(LabelDest(labels, id) - off - 2);
  }

  /** Encodings as the processor's manual gives them. */
  lemma KnownRegisterBytes(off: nat)
    ensures Encode(Push(5), off, []) == [0x55] && Encode(Pop(12), off, []) == [0x41, 0x5c]
    ensures Encode(RegReg(Mov, 5, 4), off, []) == [0x48, 0x89, 0xe5]
    ensures Encode(RegReg(Add, 0, 9), off, []) == [0x4c, 0x01, 0xc8]
    ensures Encode(RegReg(Cmp, 8, 3), off, []) == [0x49, 0x39, 0xd8]
    ensures Encode(Ret, off, []) == [0xc3]
  {
  }

  lemma KnownLoadBytes(off: nat)
    ensures Encode(Load(5, -8, 0), off, []) == [0x48, 0x8b, 0x45, 0xf8]
    ensures Encode(Load(3, 0x100, 9), off, []) == [0x4c, 0x8b, 0x8b, 0x00, 0x01, 0x00, 0x00]
  {
  }

  lemma KnownStoreBytes(off: nat)
    ensures Encode(Store(12, 8, 1), off, []) == [0x49, 0x89, 0x4c, 0x24, 0x08]
  {
  }

  lemma KnownConstantBytes(off: nat)
    ensures Encode(MovImm(0x12345678, 1), off, []) == [0xb9, 0x78, 0x56, 0x34, 0x12]
    ensures Encode(MovImm(0x0102030405060708, 8), off, [])
            == [0x49, 0xb8, 0x08, 0x07, 0x06, 0x05, 0x04, 0x03, 0x02, 0x01]
  {
  }

  lemma KnownJumpBytes()
    ensures Encode(Jmp(0), 2, [0]) == [0xeb, 0xfc] && Encode(Jcc(5, 0), 2, [0]) == [0x75, 0xfc]
  {
  }

  lemma KnownFarJumpBytes()
    ensures Encode(Jmp(0), 2, [0x107]) == [0xe9, 0x00, 0x01, 0x00, 0x00]
    ensures Encode(Jcc(4, 0), 2, [0x108]) == [0x0f, 0x84, 0x00, 0x01, 0x00, 0x00]
  {
    assert Word32(0x100) == [0x00, 0x01, 0x00, 0x00];
  }

  lemma BranchStable(off: nat, now: seq<int>, later: seq<int>, id: nat, short: byte, long: seq<byte>)
    requires Extends(now, later, off, |Branch(off, LabelDest(now, id), short, long)|)
    ensures |Branch(off, LabelDest(later, id), short, long)| == |Branch(off, LabelDest(now, id), short, long)|
  {
  }

  // ----- how the processor reads it -----

  datatype Base = Gpr(r: Reg) | Rip

  /** What one machine instruction does, with branch targets as absolute offsets. */
  datatype Effect =
    | EPush(r: Reg)
    | EPop(r: Reg)
    | ERegReg(op: Alu, dest: Reg, src: Reg)
    | ESet(r: Reg, imm: Bits64)
    | ELoad(base: Base, disp: int, reg: Reg)
    | EStore(base: Base, disp: int, reg: Reg)
    | EJump(target: int)
    | EBranch(cc: Cond, target: int)
    | EReturn
    | ENop

  datatype Decoded = Decoded(effect: Effect, len: nat)
  datatype Operand = Operand(base: Base, disp: int, len: nat)

  function Signed8(b: byte): int {
    if b < 0x80 then b else b - 0x100
  }

  function Unsigned32(bs: seq<byte>): (v: nat)
    requires |bs| >= 4
    ensures v < 0x1_0000_0000
  {
    var b0: int, b1: int, b2: int, b3: int := bs[0], bs[1], bs[2], bs[3];
    b0 + 0x100 * b1 + 0x1_0000 * b2 + 0x100_0000 * b3
  }

  function Signed32(bs: seq<byte>): int
    requires |bs| >= 4
  {
    var v := Unsigned32(bs);
    if v < 0x8000_0000 then v else v - 0x1_0000_0000
  }

  function AluOf(opcode: byte): Option<Alu> {
    if opcode == 0x01 then Some(Add)
    else if opcode == 0x09 then Some(Or)
    else if opcode == 0x21 then Some(And)
    else if opcode == 0x29 then Some(Sub)
    else if opcode == 0x31 then Some(Xor)
    else if opcode == 0x39 then Some(Cmp)
    else if opcode == 0x89 then Some(Mov)
    else None
  }

  /** Memory operand at the front of `s`, whose first byte is the ModRM byte. */
  function DecodeMem(s: seq<byte>, rexB: nat): Option<Operand>
    requires rexB < 2
  {
    if |s| == 0 then None else
      var mod, rm := s[0] / 64, s[0] % 8;
      if rm == 4 then
        if |s| < 2 || s[1] != 0x24 then None
        else if mod == 0 then Some(Operand(Gpr(4 + 8 * rexB), 0, 2))
        else if mod == 1 && |s| >= 3 then Some(Operand(Gpr(4 + 8 * rexB), Signed8(s[2]), 3))
        else if mod == 2 && |s| >= 6 then Some(Operand(Gpr(4 + 8 * rexB), Signed32(s[2..]), 6))
        else None
      else if mod == 0 && rm == 5 then
        if |s| >= 5 then Some(Operand(Rip, Signed32(s[1..]), 5)) else None
      else if mod == 0 then Some(Operand(Gpr(rm + 8 * rexB), 0, 1))
      else if mod == 1 && |s| >= 2 then Some(Operand(Gpr(rm + 8 * rexB), Signed8(s[1]), 2))
      else if mod == 2 && |s| >= 5 then Some(Operand(Gpr(rm + 8 * rexB), Signed32(s[1..]), 5))
      else None
  }

  /** An instruction whose prefix byte `s[0]` is a REX prefix. */
  function DecodeRex(s: seq<byte>): Option<Decoded>
    requires |s| >= 2 && 0x40 <= s[0] < 0x50
  {
    var w, r, x, b := s[0] / 8 % 2, s[0] / 4 % 2, s[0] / 2 % 2, s[0] % 2;
    var op := s[1];
    if x != 0 then None
    else if w == 0 && r == 0 && 0x50 <= op < 0x58 then Some(Decoded(EPush(op - 0x50 + 8 * b), 2))
    else if w == 0 && r == 0 && 0x58 <= op < 0x60 then Some(Decoded(EPop(op - 0x58 + 8 * b), 2))
    else if w == 0 && r == 0 && 0xb8 <= op < 0xc0 && |s| >= 6 then
      Some(Decoded(ESet(op - 0xb8 + 8 * b, Unsigned32(s[2..])), 6))
    else if w == 1 && r == 0 && 0xb8 <= op < 0xc0 && |s| >= 10 then
      Some(Decoded(ESet(op - 0xb8 + 8 * b, Unsigned32(s[2..]) + 0x1_0000_0000 * Unsigned32(s[6..])), 10))
    else if w == 1 && |s| >= 3 && s[2] >= 0xc0 && AluOf(op).Some? then
      Some(Decoded(ERegReg(AluOf(op).value, s[2] % 8 + 8 * b, s[2] / 8 % 8 + 8 * r), 3))
    else if w == 1 && |s| >= 3 && s[2] < 0xc0 && (op == 0x8b || op == 0x89) then
      match DecodeMem(s[2..], b)
      case None => None
      case Some(m) =>
        var reg := s[2] / 8 % 8 + 8 * r;
        Some(Decoded(if op == 0x8b then ELoad(m.base, m.disp, reg) else EStore(m.base, m.disp, reg), 2 + m.len))
    else None
  }

  /** The instruction at the front of `s`, which stands at offset `pc`. */
  function Decode(s: seq<byte>, pc: nat): (d: Option<Decoded>)
    ensures d.Some? ==> d.value.len > 0
  {
    if |s| == 0 then None
    else if s[0] == 0x90 then Some(Decoded(ENop, 1))
    else if s[0] == 0xc3 then Some(Decoded(EReturn, 1))
    else if 0x50 <= s[0] < 0x58 then Some(Decoded(EPush(s[0] - 0x50), 1))
    else if 0x58 <= s[0] < 0x60 then Some(Decoded(EPop(s[0] - 0x58), 1))
    else if 0xb8 <= s[0] < 0xc0 && |s| >= 5 then Some(Decoded(ESet(s[0] - 0xb8, Unsigned32(s[1..])), 5))
    else if s[0] == 0xeb && |s| >= 2 then Some(Decoded(EJump(pc + 2 + Signed8(s[1])), 2))
    else if s[0] == 0xe9 && |s| >= 5 then Some(Decoded(EJump(pc + 5 + Signed32(s[1..])), 5))
    else if 0x70 <= s[0] < 0x80 && |s| >= 2 then
      Some(Decoded(EBranch(s[0] - 0x70, pc + 2 + Signed8(s[1])), 2))
    else if s[0] == 0x0f && |s| >= 6 && 0x80 <= s[1] < 0x90 then
      Some(Decoded(EBranch(s[1] - 0x80, pc + 6 + Signed32(s[2..])), 6))
    else if 0x40 <= s[0] < 0x50 && |s| >= 2 then DecodeRex(s)
    else None
  }

  /** What an instruction is meant to do, its labels standing for the offsets in `labels`. */
  function Meaning(i: Instr, labels: seq<int>): Effect {
    match i
    case Push(r) => EPush(r)
    case Pop(r) => EPop(r)
    case RegReg(op, dest, src) => ERegReg(op, dest, src)
    case MovImm(imm, r) => ESet(r, imm)
    case MovImmAligned(imm, r) => ESet(r, imm)
    case Load(base, disp, reg) => ELoad(Gpr(base), disp, reg)
    case Store(base, disp, reg) => EStore(Gpr(base), disp, reg)
    case Jmp(id) => EJump(LabelDest(labels, id))
    case Jcc(cc, id) => EBranch(cc, LabelDest(labels, id))
    case Ret => EReturn
  }

  /** Base register 13 with displacement 0 takes the one-byte operand form, whose
      encoding the processor reserves for addresses relative to the program counter. */
  predicate Addressable(base: Reg, disp: Int32) {
    !(base == R13 && disp == 0)
  }

  predicate Faithful(i: Instr) {
    (i.Load? || i.Store?) ==> Addressable(i.base, i.disp)
  }

  lemma Word32RoundTrip(w: int, rest: seq<byte>)
    requires -0x8000_0000 <= w < 0x1_0000_0000
    ensures w >= 0 ==> Unsigned32(Word32(w) + rest) == w
    ensures w < 0x8000_0000 ==> Signed32(Word32(w) + rest) == w
  {
    var w1 := w / 0x100;
    var w2 := w1 / 0x100;
    var w3 := w2 / 0x100;
    assert w2 == w / 0x1_0000 && w3 == w / 0x100_0000;
    assert Unsigned32(Word32(w) + rest) == w - 0x100_0000 * (w3 - w3 % 0x100);
    assert if w >= 0 then w3 % 0x100 == w3 else w3 % 0x100 == w3 + 0x100;
  }

  lemma ModRm(mod: nat, reg: nat, rm: nat)
    requires mod < 4 && reg < 8 && rm < 8
    ensures var b := 8 * reg + 0x40 * mod + rm; b < 256 && b / 64 == mod && b / 8 % 8 == reg && b % 8 == rm
  {
  }

  lemma RexPrefix(r: nat, b: nat)
    requires r < 2 && b < 2
    ensures var p := 0x48 + 4 * r + b;
            0x40 <= p < 0x50 && p / 8 % 2 == 1 && p / 4 % 2 == r && p / 2 % 2 == 0 && p % 2 == b
  {
  }

  lemma MemRoundTrip(reg: Reg, base: Reg, disp: Int32, rest: seq<byte>)
    requires base != RSP && (base == R12 ==> SignedFit8(disp))
    ensures var bs := MemOperand(reg, base, disp);
            && bs[0] < 0xc0 && bs[0] / 8 % 8 == reg % 8
            && (Addressable(base, disp) ==> DecodeMem(bs + rest, base / 8) == Some(Operand(Gpr(base), disp, |bs|)))
            && (!Addressable(base, disp) ==>
                  var m := DecodeMem(bs + rest, base / 8); m.Some? ==> m.value.base == Rip)
  {
    SmallRoundTrip(disp);
    OperandByte(reg, base, disp);
    RegDigits(base);
    var bs := MemOperand(reg, base, disp);
    hide SignedFit8, Signed8;
    if OperandMod(base, disp) == 2 {
      Word32RoundTrip(disp, rest);
      hide Word32, Signed32;
      assert (bs + rest)[1..] == Word32(disp) + rest;
    }
  }

  lemma SmallRoundTrip(disp: Int32)
    ensures SignedFit8(disp) ==> Signed8(disp % 256) == disp
  {
    FitMeansSmall(disp);
  }

  function OperandMod(base: Reg, disp: Int32): nat {
    if base == R12 then 1 else if disp == 0 && base != RBP then 0 else if SignedFit8(disp) then 1 else 2
  }

  lemma OperandByte(reg: Reg, base: Reg, disp: Int32)
    ensures var b := MemOperand(reg, base, disp)[0];
            b < 0xc0 && b / 64 == OperandMod(base, disp) && b / 8 % 8 == reg % 8 && b % 8 == base % 8
  {
    hide SignedFit8, Word32;
    ModRm(OperandMod(base, disp), reg % 8, base % 8);
  }

  lemma BranchRoundTrip(off: nat, dest: int, short: byte, long: seq<byte>, rest: seq<byte>)
    requires 0 <= dest < CODE_LIMIT && off + |Branch(off, dest, short, long)| <= CODE_LIMIT && |long| <= 2
    ensures var bs := Branch(off, dest, short, long);
            || (bs[0] == short && |bs| == 2 && off + 2 + Signed8(bs[1]) == dest)
            || (bs[..|long|] == long && |bs| == |long| + 4
                && off + |bs| + Signed32((bs + rest)[|long|..]) == dest)
  {
    var rel := dest - off;
    FitMeansSmall(rel - 2);
    Word32RoundTrip(rel - |long| - 4, rest);
    var bs := long + Word32(rel - |long| - 4);
    assert (bs + rest)[|long|..] == Word32(rel - |long| - 4) + rest;
  }

  lemma ModAdd(a: nat, k: nat)
    ensures (a + 0x100 * k) % 0x100 == a % 0x100
  {
  }

  /** The low four byte digits do not depend on the bits above bit 31. */
  lemma Word32Low(w: nat)
    ensures Word32(w) == Word32(w % 0x1_0000_0000)
  {
    var low, high := w % 0x1_0000_0000, w / 0x1_0000_0000;
    ModAdd(low, 0x100_0000 * high);
    ModAdd(low / 0x100, 0x1_0000 * high);
    ModAdd(low / 0x1_0000, 0x100 * high);
    ModAdd(low / 0x100_0000, high);
    assert w == low + 0x100 * (0x100_0000 * high);
    assert w / 0x100 == low / 0x100 + 0x100 * (0x1_0000 * high);
    assert w / 0x1_0000 == low / 0x1_0000 + 0x100 * (0x100 * high);
    assert w / 0x100_0000 == low / 0x100_0000 + 0x100 * high;
  }

  lemma MovWideRoundTrip(imm: Bits64, r: Reg, pc: nat, rest: seq<byte>)
    ensures Decode(MovWide(imm, r) + rest, pc) == Some(Decoded(ESet(r, imm), 10))
  {
    var s := MovWide(imm, r) + rest;
    var low, high := imm % 0x1_0000_0000, imm / 0x1_0000_0000;
    Word32Low(imm);
    Word32RoundTrip(low, Word32(high) + rest);
    Word32RoundTrip(high, rest);
    assert s[2..] == Word32(low) + (Word32(high) + rest);
    assert s[6..] == Word32(high) + rest;
    RexPrefix(0, r / 8);
    assert Decode(s, pc) == DecodeRex(s);
  }

  lemma MovNarrowRoundTrip(imm: Bits64, r: Reg, pc: nat, rest: seq<byte>)
    requires imm < 0x1_0000_0000
    ensures Decode(MovNarrow(imm, r) + rest, pc) == Some(Decoded(ESet(r, imm), |MovNarrow(imm, r)|))
  {
    var s := MovNarrow(imm, r) + rest;
    Word32RoundTrip(imm, rest);
    if r < 8 {
      assert s[1..] == Word32(imm) + rest;
    } else {
      assert s[2..] == Word32(imm) + rest;
    }
  }

  lemma MemAccessRoundTrip(opcode: byte, base: Reg, disp: Int32, reg: Reg, pc: nat, rest: seq<byte>)
    requires base != RSP && (base == R12 ==> SignedFit8(disp))
    requires opcode == 0x8b || opcode == 0x89
    ensures var m := MemOperand(reg, base, disp);
            var d := Decode([0x48 + 4 * (reg / 8) + base / 8, opcode] + m + rest, pc);
            if Addressable(base, disp) then
              d == Some(Decoded(if opcode == 0x8b then ELoad(Gpr(base), disp, reg) else EStore(Gpr(base), disp, reg),
                                2 + |m|))
            else
              d.Some? ==> (d.value.effect.ELoad? || d.value.effect.EStore?) && d.value.effect.base == Rip
  {
    var m := MemOperand(reg, base, disp);
    var s := [0x48 + 4 * (reg / 8) + base / 8, opcode] + m + rest;
    MemRoundTrip(reg, base, disp, rest);
    hide MemOperand, DecodeMem, Addressable, SignedFit8, Decode;
    RegDigits(reg);
    BehindTwo(0x48 + 4 * (reg / 8) + base / 8, opcode, m, rest);
    MemAccessDecodes(s, reg / 8, base / 8, pc);
  }

  lemma BehindTwo(a: byte, b: byte, m: seq<byte>, rest: seq<byte>)
    requires m != []
    ensures var s := [a, b] + m + rest; s[2..] == m + rest && s[0] == a && s[1] == b && s[2] == m[0]
  {
    assert ([a, b] + m + rest)[2..] == m + rest;
  }

  lemma RegDigits(reg: Reg)
    ensures reg == reg % 8 + 8 * (reg / 8) && reg / 8 < 2
  {
  }

  /** Behind its prefix and opcode a load or a store is its memory operand. */
  lemma MemAccessDecodes(s: seq<byte>, r: nat, b: nat, pc: nat)
    requires |s| >= 3 && r < 2 && b < 2 && s[0] == 0x48 + 4 * r + b && (s[1] == 0x8b || s[1] == 0x89) && s[2] < 0xc0
    ensures var d, reg := DecodeMem(s[2..], b), s[2] / 8 % 8 + 8 * r;
            Decode(s, pc)
            == match d
               case None => None
               case Some(m) =>
                 Some(Decoded(if s[1] == 0x8b then ELoad(m.base, m.disp, reg) else EStore(m.base, m.disp, reg),
                              2 + m.len))
  {
    RexPrefix(r, b);
    hide DecodeMem;
    assert Decode(s, pc) == DecodeRex(s);
  }

  lemma RegRegRoundTrip(op: Alu, dest: Reg, src: Reg, pc: nat, labels: seq<int>, rest: seq<byte>)
    ensures Decode(Encode(RegReg(op, dest, src), pc, labels) + rest, pc) == Some(Decoded(ERegReg(op, dest, src), 3))
  {
    var s := Encode(RegReg(op, dest, src), pc, labels) + rest;
    RexPrefix(src / 8, dest / 8);
    ModRm(3, src % 8, dest % 8);
    assert Decode(s, pc) == DecodeRex(s);
  }

  lemma StackRoundTrip(i: Instr, off: nat, labels: seq<int>, rest: seq<byte>)
    requires i.Push? || i.Pop? || i.Ret?
    ensures var bs := Encode(i, off, labels);
            Decode(bs + rest, off) == Some(Decoded(Meaning(i, labels), |bs|))
  {
    var s := Encode(i, off, labels) + rest;
    if !i.Ret? && i.r >= 8 {
      assert Decode(s, off) == DecodeRex(s);
    }
  }

  lemma JumpRoundTrip(i: Instr, off: nat, labels: seq<int>, rest: seq<byte>)
    requires (i.Jmp? || i.Jcc?) && 0 <= LabelDest(labels, i.id) < CODE_LIMIT
    requires off + |Encode(i, off, labels)| <= CODE_LIMIT
    ensures var bs := Encode(i, off, labels);
            Decode(bs + rest, off) == Some(Decoded(Meaning(i, labels), |bs|))
  {
    var bs := Encode(i, off, labels);
    var long: seq<byte> := if i.Jmp? then [0xe9] else [0x0f, 0x80 + i.cc];
    BranchRoundTrip(off, LabelDest(labels, i.id), if i.Jmp? then 0xeb else 0x70 + i.cc, long, rest);
    if |bs| != 2 {
      assert bs[0] == long[0] && (i.Jcc? ==> bs[1] == bs[..2][1] == long[1]);
    }
  }

  /** Decoding undoes encoding: whatever follows them, the bytes of an instruction are
      read back as that instruction, branch targets included. */
  lemma DecodeEncode(i: Instr, off: nat, labels: seq<int>, rest: seq<byte>)
    requires Allowed(i, |labels|) && Faithful(i) && !i.MovImmAligned?
    requires off + |Encode(i, off, labels)| <= CODE_LIMIT
    requires (i.Jmp? || i.Jcc?) ==> 0 <= LabelDest(labels, i.id) < CODE_LIMIT
    ensures var bs := Encode(i, off, labels);
            Decode(bs + rest, off) == Some(Decoded(Meaning(i, labels), |bs|))
  {
    hide Decode, MemOperand, LabelDest, SignedFit8, Addressable;
    var bs := Encode(i, off, labels);
    match i
    case MovImm(imm, r) =>
      if imm < 0x1_0000_0000 { MovNarrowRoundTrip(imm, r, off, rest); } else { MovWideRoundTrip(imm, r, off, rest); }
    case RegReg(op, dest, src) => RegRegRoundTrip(op, dest, src, off, labels, rest);
    case Load(base, disp, reg) => MemAccessRoundTrip(0x8b, base, disp, reg, off, rest);
    case Store(base, disp, reg) => MemAccessRoundTrip(0x89, base, disp, reg, off, rest);
    case Jmp(_) => JumpRoundTrip(i, off, labels, rest);
    case Jcc(_, _) => JumpRoundTrip(i, off, labels, rest);
    case _ => StackRoundTrip(i, off, labels, rest);
  }

  /** A load through any base the emitter accepts is read back as written exactly when
      it is not register 13 with displacement 0. */
  lemma LoadFaithfulIff(base: Reg, disp: Int32, reg: Reg, off: nat, rest: seq<byte>)
    requires Allowed(Load(base, disp, reg), 0) && off + 16 <= CODE_LIMIT
    ensures var bs := Encode(Load(base, disp, reg), off, []);
            Decode(bs + rest, off) == Some(Decoded(ELoad(Gpr(base), disp, reg), |bs|)) <==> Addressable(base, disp)
  {
    MemAccessRoundTrip(0x8b, base, disp, reg, off, rest);
  }

  /** The same for stores. */
  lemma StoreFaithfulIff(base: Reg, disp: Int32, reg: Reg, off: nat, rest: seq<byte>)
    requires Allowed(Store(base, disp, reg), 0) && off + 16 <= CODE_LIMIT
    ensures var bs := Encode(Store(base, disp, reg), off, []);
            Decode(bs + rest, off) == Some(Decoded(EStore(Gpr(base), disp, reg), |bs|)) <==> Addressable(base, disp)
  {
    MemAccessRoundTrip(0x89, base, disp, reg, off, rest);
  }
}
