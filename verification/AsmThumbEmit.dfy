/** The Thumb emitters as they run, and what the processor reads at every branch they
    leave behind. */
module AsmThumbEmit {
  import opened Basics
  import opened AsmBase
  import opened AsmThumb

  method EmitOp16(a: Asm, op: Half)
    requires a.Valid() && Room(a, 2)
    modifies a`codeOffset, a.codeBase
    ensures a.Abs() == Append(a.pass, old(a.Abs()), HalfBytes(op))
  {
    hide Patch;
    var c := a.GetCurToWriteBytes(2);
    if c.Some? {
      ghost var before := a.codeBase[..];
      a.codeBase[c.value] := op % 256;
      a.codeBase[c.value + 1] := op / 256 % 256;
      StoredIsPatch(before, a.codeBase[..], c.value, HalfBytes(op));
    }
  }

  method EmitOp32(a: Asm, op1: Half, op2: Half)
    requires a.Valid() && Room(a, 4)
    modifies a`codeOffset, a.codeBase
    ensures a.Abs() == Append(a.pass, old(a.Abs()), HalfBytes(op1) + HalfBytes(op2))
  {
    hide Patch;
    var c := a.GetCurToWriteBytes(4);
    if c.Some? {
      ghost var before := a.codeBase[..];
      a.codeBase[c.value] := op1 % 256;
      a.codeBase[c.value + 1] := op1 / 256 % 256;
      a.codeBase[c.value + 2] := op2 % 256;
      a.codeBase[c.value + 3] := op2 / 256 % 256;
      StoredIsPatch(before, a.codeBase[..], c.value, HalfBytes(op1) + HalfBytes(op2));
    }
  }

  method GetLabelDest(a: Asm, id: nat) returns (dest: int)
    requires a.Valid() && id < a.maxNumLabels
    ensures dest == LabelDest(a.labelOffsets[..], id)
  {
    dest := a.labelOffsets[id];
  }

  /** Narrow branch whatever the distance; the result says whether it reaches. */
  method BNLabel(a: Asm, id: nat) returns (ok: bool)
    requires a.Valid() && id < a.maxNumLabels && Room(a, 2)
    modifies a`codeOffset, a.codeBase
    ensures a.Abs() == Append(a.pass, old(a.Abs()), Encode(BNarrow(id), old(a.codeOffset), old(a.labelOffsets[..])))
    ensures ok == (a.pass.Emit? ==> SignedFit(LabelDest(old(a.labelOffsets[..]), id) - old(a.codeOffset) - 4, 0x800))
  {
    hide Append;
    var dest := GetLabelDest(a, id);
    var rel := dest - a.codeOffset;
    rel := rel - 4;
    EmitOp16(a, NarrowB(rel));
    ok := a.pass.Compute? || SignedFit(rel, 0x800);
  }

  method BccNWLabel(a: Asm, cc: Cond, id: nat, wide: bool) returns (ok: bool)
    requires a.Valid() && id < a.maxNumLabels && Room(a, if wide then 4 else 2)
    modifies a`codeOffset, a.codeBase
    ensures a.Abs()
            == Append(a.pass, old(a.Abs()), Encode(BccExact(cc, id, wide), old(a.codeOffset), old(a.labelOffsets[..])))
    ensures ok == (wide || (a.pass.Emit? ==>
              SignedFit(LabelDest(old(a.labelOffsets[..]), id) - old(a.codeOffset) - 4, 0x100)))
  {
    hide Append;
    var dest := GetLabelDest(a, id);
    var rel := dest - a.codeOffset;
    rel := rel - 4;
    if !wide {
      EmitOp16(a, NarrowBcc(cc, rel));
      ok := a.pass.Compute? || SignedFit(rel, 0x100);
    } else {
      EmitOp32(a, WideBccHi(cc, rel), WideBccLo(rel));
      ok := true;
    }
  }

  method BlLabel(a: Asm, id: nat) returns (ok: bool)
    requires a.Valid() && id < a.maxNumLabels && Room(a, 4)
    modifies a`codeOffset, a.codeBase
    ensures a.Abs() == Append(a.pass, old(a.Abs()), Encode(Bl(id), old(a.codeOffset), old(a.labelOffsets[..])))
    ensures ok == (a.pass.Emit? ==>
              SignedFit(LabelDest(old(a.labelOffsets[..]), id) - old(a.codeOffset) - 4, 0x40_0000))
  {
    hide Append;
    var dest := GetLabelDest(a, id);
    var rel := dest - a.codeOffset;
    rel := rel - 4;
    EmitOp32(a, WideBHi(rel), BlLo(rel));
    ok := a.pass.Compute? || SignedFit(rel, 0x40_0000);
  }

  method MovRegI16(a: Asm, op: Half, reg: Reg, imm: Bits32)
    requires a.Valid() && (op == MOVW || op == MOVT) && Room(a, 4)
    modifies a`codeOffset, a.codeBase
    ensures a.Abs() == Append(a.pass, old(a.Abs()), MovHalf(op, reg, imm))
  {
    EmitOp32(a, op + 0x400 * (imm / 0x800 % 2) + imm / 0x1000 % 0x10,
             0x1000 * (imm / 0x100 % 8) + 0x100 * reg + imm % 0x100);
  }

  method MovRegI32(a: Asm, reg: Reg, imm: Bits32)
    requires a.Valid() && Room(a, 8)
    modifies a`codeOffset, a.codeBase
    ensures a.Abs() == Append(a.pass, old(a.Abs()), MovHalf(MOVW, reg, imm) + MovHalf(MOVT, reg, imm / 0x1_0000))
  {
    AppendTwice(a.pass, a.Abs(), MovHalf(MOVW, reg, imm), MovHalf(MOVT, reg, imm / 0x1_0000));
    MovRegI16(a, MOVW, reg, imm);
    MovRegI16(a, MOVT, reg, imm / 0x1_0000);
  }

  method MovRegI32Optimised(a: Asm, reg: Reg, imm: Bits32)
    requires a.Valid() && Room(a, |Mov(reg, imm)|)
    modifies a`codeOffset, a.codeBase
    ensures a.Abs() == Append(a.pass, old(a.Abs()), Mov(reg, imm))
  {
    hide Append;
    if reg < 8 && imm < 0x100 {
      EmitOp16(a, 0x2000 + 0x100 * reg + imm);
    } else if imm < 0x1_0000 {
      MovRegI16(a, MOVW, reg, imm);
    } else {
      MovRegI32(a, reg, imm);
    }
  }

  /** The constant as an aligned word behind a branch around it, then the move. */
  method MovRegI32Aligned(a: Asm, reg: Reg, imm: Bits32)
    requires a.Valid() && Room(a, |Encode(MovImmAligned(reg, imm), a.codeOffset, [])|)
    modifies a`codeOffset, a.codeBase
    ensures a.Abs() == Append(a.pass, old(a.Abs()), Encode(MovImmAligned(reg, imm), old(a.codeOffset), []))
  {
    ghost var start := a.Abs();
    var pad := a.codeOffset % 4 == 0;
    ghost var nop := if pad then HalfBytes(NOP) else [];
    ghost var word := LittleEndian(4, imm);
    AppendTwice(a.pass, start, nop, HalfBytes(NarrowB(2)));
    AppendTwice(a.pass, start, nop + HalfBytes(NarrowB(2)), word);
    AppendTwice(a.pass, start, nop + HalfBytes(NarrowB(2)) + word, Mov(reg, imm));
    AppendOffset(a.pass, start, nop);
    AppendOffset(a.pass, start, nop + HalfBytes(NarrowB(2)));
    AppendOffset(a.pass, start, nop + HalfBytes(NarrowB(2)) + word);
    assert !pad ==> Append(a.pass, start, nop) == start;
    hide Append, Mov, NarrowB, HalfBytes, LittleEndian;
    if pad {
      EmitOp16(a, NOP);
    }
    EmitOp16(a, NarrowB(2));
    a.Data(4, imm);
    MovRegI32Optimised(a, reg, imm);
  }

  method BLabel(a: Asm, id: nat)
    requires a.Valid() && id < a.maxNumLabels
    requires Room(a, |Encode(B(id), a.codeOffset, a.labelOffsets[..])|)
    modifies a`codeOffset, a.codeBase
    ensures a.Abs() == Append(a.pass, old(a.Abs()), Encode(B(id), old(a.codeOffset), old(a.labelOffsets[..])))
  {
    hide Append;
    var dest := GetLabelDest(a, id);
    var rel := dest - a.codeOffset;
    rel := rel - 4;
    if dest != UNASSIGNED && rel <= -4 && SignedFit(rel, 0x800) {
      EmitOp16(a, NarrowB(rel));
    } else {
      EmitOp32(a, WideBHi(rel), WideBLo(rel));
    }
  }

  method BccLabel(a: Asm, cc: Cond, id: nat)
    requires a.Valid() && id < a.maxNumLabels
    requires Room(a, |Encode(Bcc(cc, id), a.codeOffset, a.labelOffsets[..])|)
    modifies a`codeOffset, a.codeBase
    ensures a.Abs() == Append(a.pass, old(a.Abs()), Encode(Bcc(cc, id), old(a.codeOffset), old(a.labelOffsets[..])))
  {
    hide Append;
    var dest := GetLabelDest(a, id);
    var rel := dest - a.codeOffset;
    rel := rel - 4;
    if dest != UNASSIGNED && rel <= -4 && SignedFit(rel, 0x100) {
      EmitOp16(a, NarrowBcc(cc, rel));
    } else {
      EmitOp32(a, WideBccHi(cc, rel), WideBccLo(rel));
    }
  }

  method EmitInstr(a: Asm, i: Instr)
    requires a.Valid() && Allowed(i, a.maxNumLabels)
    requires Room(a, |Encode(i, a.codeOffset, a.labelOffsets[..])|)
    modifies a`codeOffset, a.codeBase
    ensures a.Abs() == Append(a.pass, old(a.Abs()), Encode(i, old(a.codeOffset), old(a.labelOffsets[..])))
  {
    hide Append;
    match i {
      case Op16(op) => EmitOp16(a, op);
      case Op32(hi, lo) => EmitOp32(a, hi, lo);
      case MovImm(reg, imm) => MovRegI32Optimised(a, reg, imm);
      case MovImmAligned(reg, imm) => MovRegI32Aligned(a, reg, imm);
      case B(id) => BLabel(a, id);
      case Bcc(cc, id) => BccLabel(a, cc, id);
      case BNarrow(id) => var _ := BNLabel(a, id);
      case BccExact(cc, id, wide) => var _ := BccNWLabel(a, cc, id, wide);
      case Bl(id) => var _ := BlLabel(a, id);
    }
  }

  method Call(a: Asm, op: Op<Instr>)
    requires a.Valid() && Asserts(Encode, a.pass, op, a.Abs())
    requires op.Instr? ==> Allowed(op.i, a.maxNumLabels)
    requires op.Align? ==> op.to > 0
    modifies a`codeOffset, a.codeBase, a.labelOffsets
    ensures a.Abs() == Step(Encode, a.pass, op, old(a.Abs()))
  {
    match op {
      case Label(id) => a.LabelAssign(id);
      case Align(to) => a.Align(to);
      case Data(size, val) => a.Data(size, val);
      case Instr(i) => EmitInstr(a, i);
    }
  }

  ghost predicate Program(ops: seq<Op<Instr>>, maxLabels: nat) {
    && WellFormed(ops, maxLabels)
    && forall k :: 0 <= k < |ops| && ops[k].Instr? ==> Allowed(ops[k].i, maxLabels)
  }

  /** A compute pass and the emit pass, with no assertion able to fail in either. */
  method Assemble(ops: seq<Op<Instr>>, maxLabels: nat, roundUp: nat) returns (a: Asm, ghost buf: seq<byte>)
    requires Program(ops, maxLabels)
    ensures a.Valid() && |buf| == Size(Encode, ops, maxLabels) + roundUp
    ensures a.codeOffset == Size(Encode, ops, maxLabels) <= a.codeSize
    ensures a.codeBase[..] == Code(Encode, ops, maxLabels, buf)
    ensures a.labelOffsets[..] == Table(Encode, ops, maxLabels)
  {
    hide Encode;
    a := new Asm(maxLabels);
    a.StartPass(Compute, 0);
    for k := 0 to |ops|
      invariant a.Valid() && a.pass == Compute && a.maxNumLabels == maxLabels
      invariant fresh(a) && fresh(a.codeBase) && fresh(a.labelOffsets)
      invariant a.codeOffset == Computed(Encode, ops, maxLabels, k).off
      invariant a.labelOffsets[..] == Computed(Encode, ops, maxLabels, k).labels
    {
      ComputeAssertsHold(Encode, ops, maxLabels, k);
      Call(a, ops[k]);
    }
    a.StartPass(Emit, roundUp);
    buf := a.codeBase[..];
    EncodeStable();
    PassesAgree(Encode, ops, maxLabels, buf, |ops|);
    for k := 0 to |ops|
      invariant a.Valid() && a.pass == Emit && a.maxNumLabels == maxLabels
      invariant fresh(a) && fresh(a.codeBase) && fresh(a.labelOffsets)
      invariant a.Abs() == Emitted(Encode, ops, maxLabels, buf, k)
    {
      EmitAssertsHold(Encode, ops, maxLabels, buf, k);
      Call(a, ops[k]);
    }
  }

  // ----- what the processor reads -----

  /** The kind of branch a branch instruction stands for. */
  function LinkOf(i: Instr): Link {
    match i
    case Bcc(cc, _) => When(cc)
    case BccExact(cc, _, _) => When(cc)
    case Bl(_) => AndLink
    case _ => Plain
  }

  predicate IsBranch(i: Instr) {
    i.B? || i.Bcc? || i.BNarrow? || i.BccExact? || i.Bl?
  }

  /** The displacements for which the instruction works. */
  predicate Reaches(i: Instr, rel: int) {
    match i
    case B(_) => WideBReaches(rel)
    case Bcc(_, _) => WideBccReaches(rel)
    case BNarrow(_) => NarrowBReaches(rel)
    case BccExact(_, _, wide) => if wide then WideBccReaches(rel) else NarrowBccReaches(rel)
    case Bl(_) => WideBReaches(rel)
    case _ => false
  }

  lemma FitMeansInRange(rel: int, unit: nat)
    requires unit == 0x100 || unit == 0x800 || unit == 0x40_0000
    requires -(CODE_LIMIT as int) - 4 <= rel < CODE_LIMIT
    ensures SignedFit(rel, unit) <==> -(unit as int) <= rel < unit
  {
  }

  lemma BranchRoundTrip(i: Instr, off: nat, labels: seq<int>, rest: seq<byte>)
    requires IsBranch(i) && off < CODE_LIMIT && 0 <= LabelDest(labels, i.id) < CODE_LIMIT
    ensures var bs, rel := Encode(i, off, labels), LabelDest(labels, i.id) - off - 4;
            DecodeBranch(bs + rest) == Some(Branch(LinkOf(i), rel, |bs|)) <==> Reaches(i, rel)
  {
    var rel := LabelDest(labels, i.id) - off - 4;
    FitMeansInRange(rel, 0x100);
    FitMeansInRange(rel, 0x800);
    hide SignedFit, DecodeBranch, HalfBytes, NarrowB, NarrowBcc, WideBHi, WideBLo, WideBccHi, WideBccLo, BlLo;
    match i {
      case B(_) => NarrowBRoundTrip(rel, rest); WideBRoundTrip(rel, rest);
      case Bcc(cc, _) => NarrowBccRoundTrip(cc, rel, rest); WideBccRoundTrip(cc, rel, rest);
      case BNarrow(_) => NarrowBRoundTrip(rel, rest);
      case BccExact(cc, _, _) => NarrowBccRoundTrip(cc, rel, rest); WideBccRoundTrip(cc, rel, rest);
      case Bl(_) => WideBRoundTrip(rel, rest);
    }
  }

  /** Target correctness on Thumb: at the site of a branch whose label is defined by call
      `j`, the processor reads a branch to exactly the offset of call `j` if and only if
      the displacement is one the instruction reaches. */
  lemma SiteDecodes(ops: seq<Op<Instr>>, maxLabels: nat, buf: seq<byte>, i: nat, j: nat)
    requires Program(ops, maxLabels) && Size(Encode, ops, maxLabels) < CODE_LIMIT
    requires |buf| >= Size(Encode, ops, maxLabels)
    requires i < |ops| && ops[i].Instr? && IsBranch(ops[i].i)
    requires j < |ops| && ops[j] == Label(ops[i].i.id)
    ensures var at, next := OffsetOf(Encode, ops, maxLabels, i), OffsetOf(Encode, ops, maxLabels, i + 1);
            var dest := OffsetOf(Encode, ops, maxLabels, j);
            at < |Code(Encode, ops, maxLabels, buf)| &&
            (DecodeBranch(Code(Encode, ops, maxLabels, buf)[at..])
             == Some(Branch(LinkOf(ops[i].i), dest - (at + 4), next - at))
             <==> Reaches(ops[i].i, dest - (at + 4)))
  {
    hide Encode, DecodeBranch, Reaches, Computed, Emitted, Table, Size;
    EncodeStable();
    InstrInCode(Encode, ops, maxLabels, buf, i);
    LabelAt(Encode, ops, maxLabels, j);
    var at, table := OffsetOf(Encode, ops, maxLabels, i), Table(Encode, ops, maxLabels);
    var code := Code(Encode, ops, maxLabels, buf);
    var bs := Encode(ops[i].i, at, table);
    BranchRoundTrip(ops[i].i, at, table, code[at + |bs|..]);
    BranchNotEmpty(ops[i].i, at, table);
  }

  lemma BranchNotEmpty(i: Instr, off: nat, labels: seq<int>)
    requires IsBranch(i)
    ensures |Encode(i, off, labels)| > 0
  {
  }

  /** The aligned constant: at an even offset, the word stands word aligned, the branch in
      front of it leads to the byte behind it, and what follows loads the constant. */
  lemma AlignedSite(ops: seq<Op<Instr>>, maxLabels: nat, buf: seq<byte>, i: nat)
    requires Program(ops, maxLabels) && |buf| >= Size(Encode, ops, maxLabels)
    requires i < |ops| && ops[i].Instr? && ops[i].i.MovImmAligned? && OffsetOf(Encode, ops, maxLabels, i) % 2 == 0
    ensures var at, next := OffsetOf(Encode, ops, maxLabels, i), OffsetOf(Encode, ops, maxLabels, i + 1);
            var code := Code(Encode, ops, maxLabels, buf);
            var reg, imm := ops[i].i.reg, ops[i].i.imm;
            var branch := if at % 4 == 0 then at + 2 else at;
            var word := branch + 2;
            && word % 4 == 0 && word + 4 <= next <= |code|
            && code[word] == imm % 256 && code[word + 1] == imm / 0x100 % 256
            && code[word + 2] == imm / 0x1_0000 % 256 && code[word + 3] == imm / 0x100_0000
            && Number(code[word..word + 4]) == imm
            && DecodeBranch(code[branch..]) == Some(Branch(Plain, word + 4 - (branch + 4), 2))
            && Loaded(code[word + 4..next], reg) == Some(imm)
  {
    hide DecodeBranch, Loaded, Mov, LittleEndian, HalfBytes, NarrowB, Computed, Emitted, Table, Size;
    EncodeStable();
    InstrInCode(Encode, ops, maxLabels, buf, i);
    var at, next := OffsetOf(Encode, ops, maxLabels, i), OffsetOf(Encode, ops, maxLabels, i + 1);
    var code := Code(Encode, ops, maxLabels, buf);
    var reg, imm := ops[i].i.reg, ops[i].i.imm;
    AlignedParts(reg, imm, at, Table(Encode, ops, maxLabels));
    hide Encode;
    AlignedSlices(code, at, next, reg, imm);
    WordDigits(code, (if at % 4 == 0 then at + 2 else at) + 2, imm);
    MovLoads(reg, imm);
  }

  lemma WordDigits(code: seq<byte>, word: nat, imm: Bits32)
    requires word + 4 <= |code| && code[word..word + 4] == LittleEndian(4, imm)
    ensures code[word] == imm % 256 && code[word + 1] == imm / 0x100 % 256
    ensures code[word + 2] == imm / 0x1_0000 % 256 && code[word + 3] == imm / 0x100_0000
    ensures Number(code[word..word + 4]) == imm
  {
    var bs := code[word..word + 4];
    LittleEndianNumber(4, imm);
    forall k: nat | k < 4 ensures code[word + k] == imm / Power256(k) % 256 {
      LittleEndianDigit(4, imm, k);
      assert code[word + k] == bs[k];
    }
    FourPowers();
    hide LittleEndian, Number, Power256;
    assert code[word + 0] == imm / 1 % 256;
  }

  lemma FourPowers()
    ensures Power256(0) == 1 && Power256(1) == 0x100 && Power256(2) == 0x1_0000
    ensures Power256(3) == 0x100_0000 && Power256(4) == 0x1_0000_0000
  {
    assert Power256(2) == 256 * Power256(1);
    assert Power256(3) == 256 * Power256(2);
    assert Power256(4) == 256 * Power256(3);
  }

  lemma AlignedSlices(code: seq<byte>, at: nat, next: nat, reg: Reg, imm: Bits32)
    requires at % 2 == 0 && next <= |code|
    requires var bs := (if at % 4 == 0 then HalfBytes(NOP) else [])
                       + HalfBytes(NarrowB(2)) + LittleEndian(4, imm) + Mov(reg, imm);
             at + |bs| == next && code[at..] == bs + code[next..]
    ensures var branch := if at % 4 == 0 then at + 2 else at;
            var word := branch + 2;
            && word % 4 == 0 && word + 4 <= next
            && code[word..word + 4] == LittleEndian(4, imm)
            && DecodeBranch(code[branch..]) == Some(Branch(Plain, word + 4 - (branch + 4), 2))
            && code[word + 4..next] == Mov(reg, imm)
  {
    hide DecodeBranch, Mov, LittleEndian, HalfBytes, NarrowB;
    var nop := if at % 4 == 0 then HalfBytes(NOP) else [];
    FourParts(code, at, nop, HalfBytes(NarrowB(2)), LittleEndian(4, imm), Mov(reg, imm));
    NarrowBRoundTrip(2, code[at + |nop| + 2..]);
  }

  lemma AlignedParts(reg: Reg, imm: Bits32, at: nat, labels: seq<int>)
    ensures Encode(MovImmAligned(reg, imm), at, labels)
            == (if at % 4 == 0 then HalfBytes(NOP) else [])
               + HalfBytes(NarrowB(2)) + LittleEndian(4, imm) + Mov(reg, imm)
  {
  }

  lemma FourParts<T>(code: seq<T>, at: nat, a: seq<T>, b: seq<T>, c: seq<T>, d: seq<T>)
    requires var n := |a| + |b| + |c| + |d|; at + n <= |code| && code[at..] == a + b + c + d + code[at + n..]
    ensures var p := at + |a|;
            && code[p..] == b + code[p + |b|..]
            && code[p + |b|..p + |b| + |c|] == c
            && code[p + |b| + |c|..p + |b| + |c| + |d|] == d
  {
    var p, rest := at + |a|, code[at + |a| + |b| + |c| + |d|..];
    assert a + b + c + d + rest == a + (b + (c + (d + rest)));
    assert code[p..] == code[at..][|a|..];
    assert code[p + |b|..] == code[p..][|b|..];
    assert code[p + |b| + |c|..] == code[p + |b|..][|c|..];
    assert code[p + |b|..p + |b| + |c|] == code[p + |b|..][..|c|];
    assert code[p + |b| + |c|..p + |b| + |c| + |d|] == code[p + |b| + |c|..][..|d|];
  }

  /** A conditional branch one page away is assembled into one that goes elsewhere. */
  lemma ConditionalBranchMisses(cc: Cond, rest: seq<byte>)
    ensures Encode(Bcc(cc, 0), 0, [0x1004]) == HalfBytes(WideBccHi(cc, 0x1000)) + HalfBytes(WideBccLo(0x1000))
    ensures DecodeBranch(Encode(Bcc(cc, 0), 0, [0x1004]) + rest) == Some(Branch(When(cc), 0x8_0000, 4))
  {
    var hi, lo := WideBccHi(cc, 0x1000), WideBccLo(0x1000);
    HalfRoundTrip(hi, lo, rest);
    NearDisplacement(cc, 0x1000);
  }
}
