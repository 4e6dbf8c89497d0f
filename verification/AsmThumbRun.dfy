/** The emitted Thumb code runs the program: a machine that fetches and decodes halfwords
    performs what an interpreter of the labelled program performs, for any outcomes of the
    conditional branches, as long as every branch reaches its label. */
module AsmThumbRun {
  import opened Basics
  import opened AsmBase
  import opened AsmThumb
  import opened AsmThumbEmit

  /** What one machine instruction does, with branch targets as absolute offsets.
      Instructions that neither branch nor load a constant are recorded as they are. */
  datatype Effect =
    | ENop
    | EOther(halves: seq<Half>)
    | ELeave(op: Half)
    | ESet(reg: Reg, imm: nat)
    | ESetTop(reg: Reg, imm: nat)
    | EJump(target: int)
    | EBranch(cc: Cond, target: int)
    | ECall(target: int)

  datatype Decoded = Decoded(effect: Effect, len: nat)

  // ----- how the processor reads it -----

  /** The first halves of four-byte instructions. */
  predicate Prefix(hi: Half) { 0x1d <= hi / 0x800 <= 0x1f }

  /** `bx`, `blx` and `pop` with the program counter leave the code. */
  predicate Leaves(op: Half) { op / 0x100 == 0x47 || op / 0x100 == 0xbd }

  function OpEffect(op: Half): Effect {
    if op == NOP then ENop
    else if op / 0x800 == 4 then ESet(op / 0x100 % 8, op % 0x100)
    else if Leaves(op) then ELeave(op)
    else EOther([op])
  }

  function PairEffect(hi: Half, lo: Half): Effect {
    var op := hi - hi % 0x10 - 0x400 * (hi / 0x400 % 2);
    var imm := hi % 0x10 * 0x1000 + hi / 0x400 % 2 * 0x800 + lo / 0x1000 % 8 * 0x100 + lo % 0x100;
    if lo / 0x8000 != 0 || lo / 0x100 % 0x10 == 15 then EOther([hi, lo])
    else if op == MOVW then ESet(lo / 0x100 % 0x10, imm)
    else if op == MOVT then ESetTop(lo / 0x100 % 0x10, imm)
    else EOther([hi, lo])
  }

  function BranchEffect(b: Branch, pc: int): Effect {
    match b.link
    case Plain => EJump(pc + 4 + b.disp)
    case When(cc) => EBranch(cc, pc + 4 + b.disp)
    case AndLink => ECall(pc + 4 + b.disp)
  }

  function DecodePlain(s: seq<byte>): Option<Decoded> {
    if |s| < 2 then None
    else if !Prefix(HalfAt(s, 0)) then Some(Decoded(OpEffect(HalfAt(s, 0)), 2))
    else if |s| < 4 then None
    else Some(Decoded(PairEffect(HalfAt(s, 0), HalfAt(s, 2)), 4))
  }

  /** The instruction at the front of `s`, which stands at offset `pc`. */
  function Decode(s: seq<byte>, pc: int): Option<Decoded> {
    match DecodeBranch(s)
    case Some(b) => Some(Decoded(BranchEffect(b, pc), b.len))
    case None => DecodePlain(s)
  }

  /** `n` instructions of the machine from offset `pc` on; nops are not recorded. */
  function Execute(code: seq<byte>, pc: int, taken: nat -> bool, k: nat, n: nat): Trace<Effect>
    decreases n, |code| - pc
  {
    if n == 0 then Trace([], Running)
    else if !(0 <= pc < |code|) || pc % 2 != 0 then Trace([], Stuck)
    else
      match Decode(code[pc..], pc)
      case None => Trace([], Stuck)
      case Some(d) =>
        match d.effect
        case ENop => if d.len == 0 then Trace([], Stuck) else Execute(code, pc + d.len, taken, k, n)
        case ELeave(_) => Trace([d.effect], Returned)
        case EJump(t) => Then(d.effect, Execute(code, t, taken, k + 1, n - 1))
        case ECall(t) => Then(d.effect, Execute(code, t, taken, k + 1, n - 1))
        case EBranch(_, t) => Then(d.effect, Execute(code, if taken(k) then t else pc + d.len, taken, k + 1, n - 1))
        case _ => Then(d.effect, Execute(code, pc + d.len, taken, k + 1, n - 1))
  }

  // ----- the labelled program -----

  function MovEffects(reg: Reg, imm: Bits32): seq<Effect> {
    if imm < 0x1_0000 then [ESet(reg, imm)] else [ESet(reg, imm % 0x1_0000), ESetTop(reg, imm / 0x1_0000)]
  }

  /** Where the code behind an aligned constant begins. */
  function BehindWord(off: nat): nat { if off % 4 == 0 then off + 8 else off + 6 }

  /** What an instruction that is no branch does at offset `off`. */
  function Effects(i: Instr, off: nat): seq<Effect> {
    match i
    case Op16(op) => if OpEffect(op) == ENop then [] else [OpEffect(op)]
    case Op32(hi, lo) => [PairEffect(hi, lo)]
    case MovImm(reg, imm) => MovEffects(reg, imm)
    case MovImmAligned(reg, imm) => [EJump(BehindWord(off))] + MovEffects(reg, imm)
    case _ => []
  }

  /** As many of the effects `es` as `n` allows, and then `rest`. */
  function Record(es: seq<Effect>, n: nat, rest: Trace<Effect>): Trace<Effect> {
    if es == [] then rest
    else if n == 0 then Trace([], Running)
    else Then(es[0], Record(es[1..], n - 1, rest))
  }

  function Less(n: nat, done: nat): nat { if n <= done then 0 else n - done }

  /** `n` instructions of the program from call `i` on; `taken(k)` says whether the branch
      performed as instruction number `k` is taken. */
  function Interpret(ops: seq<Op<Instr>>, maxLabels: nat, i: nat, taken: nat -> bool, k: nat, n: nat): Trace<Effect>
    requires i <= |ops|
    decreases n, |ops| - i
  {
    if n == 0 then Trace([], Running)
    else if i == |ops| then Trace([], Stuck)
    else
      match ops[i]
      case Label(_) => Interpret(ops, maxLabels, i + 1, taken, k, n)
      case Align(_) => Trace([], Stuck)
      case Data(_, _) => Trace([], Stuck)
      case Instr(instr) =>
        if IsBranch(instr) then
          var j := IndexOf(ops, instr.id, 0);
          if j == |ops| then Trace([], Stuck)
          else
            var e := BranchOf(instr, OffsetOf(Encode, ops, maxLabels, j));
            Then(e, Interpret(ops, maxLabels, if e.EBranch? && !taken(k) then i + 1 else j, taken, k + 1, n - 1))
        else if instr.Op16? && Leaves(instr.op) then Trace([ELeave(instr.op)], Returned)
        else
          var es := Effects(instr, OffsetOf(Encode, ops, maxLabels, i));
          Record(es, n, Interpret(ops, maxLabels, i + 1, taken, k + |es|, Less(n, |es|)))
  }

  function BranchOf(i: Instr, target: nat): Effect {
    match LinkOf(i)
    case Plain => EJump(target)
    case When(cc) => EBranch(cc, target)
    case AndLink => ECall(target)
  }

  /** A raw operation is one that is not a branch, and is as long as its first half says. */
  predicate Ordinary(i: Instr) {
    match i
    case Op16(op) => op / 0x800 < 0x1c && (op / 0x1000 != 0xd || op / 0x100 % 0x10 >= 14)
    case Op32(hi, lo) => Prefix(hi) && DecodeBranch(HalfBytes(hi) + HalfBytes(lo)) == None
    case _ => true
  }

  /** A program within limits all of whose branches reach their labels. */
  ghost predicate Runnable(ops: seq<Op<Instr>>, maxLabels: nat) {
    && Program(ops, maxLabels) && Size(Encode, ops, maxLabels) < CODE_LIMIT
    && (forall k :: 0 <= k < |ops| && ops[k].Instr? ==> Ordinary(ops[k].i))
    && (forall k :: 0 <= k < |ops| && ops[k].Instr? && IsBranch(ops[k].i) ==> InReach(ops, maxLabels, k))
  }

  ghost predicate InReach(ops: seq<Op<Instr>>, maxLabels: nat, k: nat)
    requires k < |ops| && ops[k].Instr? && IsBranch(ops[k].i)
  {
    var j := IndexOf(ops, ops[k].i.id, 0);
    j < |ops| ==>
      Reaches(ops[k].i, OffsetOf(Encode, ops, maxLabels, j) - (OffsetOf(Encode, ops, maxLabels, k) + 4))
  }

  // ----- single instructions -----

  lemma FrontHalf(h: Half, rest: seq<byte>)
    ensures |HalfBytes(h) + rest| >= 2 && HalfAt(HalfBytes(h) + rest, 0) == h
  {
    HalfRoundTrip(h, 0, rest);
  }

  lemma OpDecodes(op: Half, rest: seq<byte>, pc: int)
    requires Ordinary(Op16(op))
    ensures Decode(HalfBytes(op) + rest, pc) == Some(Decoded(OpEffect(op), 2))
  {
    FrontHalf(op, rest);
    hide HalfBytes, HalfAt, OpEffect;
  }

  lemma PairDecodes(hi: Half, lo: Half, rest: seq<byte>, pc: int)
    requires Ordinary(Op32(hi, lo))
    ensures Decode(HalfBytes(hi) + HalfBytes(lo) + rest, pc) == Some(Decoded(PairEffect(hi, lo), 4))
  {
    HalfRoundTrip(hi, lo, rest);
    HalfRoundTrip(hi, lo, []);
    assert HalfBytes(hi) + HalfBytes(lo) + [] == HalfBytes(hi) + HalfBytes(lo);
    hide HalfBytes, HalfAt, PairEffect;
  }

  lemma MovHalfDecodes(op: Half, reg: Reg, imm: Bits32, rest: seq<byte>, pc: int)
    requires op == MOVW || op == MOVT
    ensures Decode(MovHalf(op, reg, imm) + rest, pc)
            == Some(Decoded(if op == MOVW then ESet(reg, imm % 0x1_0000) else ESetTop(reg, imm % 0x1_0000), 4))
  {
    MovHalfOf(op, reg, imm, imm / 0x800 % 2, imm / 0x1000 % 0x10, imm / 0x100 % 8, imm % 0x100, rest, pc);
    hide MovHalf, Decode;
    ImmDigits(imm);
  }

  lemma MovHalfOf(op: Half, reg: Reg, imm: Bits32, i: nat, imm4: nat, imm3: nat, imm8: nat, rest: seq<byte>, pc: int)
    requires op == MOVW || op == MOVT
    requires i == imm / 0x800 % 2 && imm4 == imm / 0x1000 % 0x10 && imm3 == imm / 0x100 % 8 && imm8 == imm % 0x100
    ensures var x := imm4 * 0x1000 + i * 0x800 + imm3 * 0x100 + imm8;
            Decode(MovHalf(op, reg, imm) + rest, pc)
            == Some(Decoded(if op == MOVW then ESet(reg, x) else ESetTop(reg, x), 4))
  {
    var hi, lo := op + 0x400 * i + imm4, 0x1000 * imm3 + 0x100 * reg + imm8;
    assert MovHalf(op, reg, imm) == HalfBytes(hi) + HalfBytes(lo);
    hide HalfBytes, MovHalf, DecodeBranch, Decode, PairEffect;
    MovHalfMeans(op, i, imm4, imm3, reg, imm8);
    MovPair(op, hi, lo, rest);
    PairDecodes(hi, lo, rest, pc);
  }

  lemma MovHalfMeans(op: Half, i: nat, imm4: nat, imm3: nat, reg: Reg, imm8: nat)
    requires (op == MOVW || op == MOVT) && i < 2 && imm4 < 0x10 && imm3 < 8 && imm8 < 0x100
    ensures var hi, lo := op + 0x400 * i + imm4, 0x1000 * imm3 + 0x100 * reg + imm8;
            var imm := imm4 * 0x1000 + i * 0x800 + imm3 * 0x100 + imm8;
            && lo / 0x8000 == 0 && hi - hi % 0x10 - 0x400 * (hi / 0x400 % 2) == op
            && PairEffect(hi, lo) == if op == MOVW then ESet(reg, imm) else ESetTop(reg, imm)
  {
    MovFields(op, i, imm4, imm3, reg, imm8);
  }

  lemma MovPair(op: Half, hi: Half, lo: Half, rest: seq<byte>)
    requires (op == MOVW || op == MOVT) && lo / 0x8000 == 0
    requires hi - hi % 0x10 - 0x400 * (hi / 0x400 % 2) == op
    ensures Ordinary(Op32(hi, lo))
  {
    HalfRoundTrip(hi, lo, []);
    assert HalfBytes(hi) + HalfBytes(lo) + [] == HalfBytes(hi) + HalfBytes(lo);
    hide HalfBytes, HalfAt;
    assert hi / 0x800 == 0x1e;
  }

  // ----- runs of single instructions -----

  lemma {:induction false} RecordJoins(a: seq<Effect>, b: seq<Effect>, n: nat, rest: Trace<Effect>)
    ensures Record(a, n, Record(b, Less(n, |a|), rest)) == Record(a + b, n, rest)
  {
    if a == [] {
      assert a + b == b;
    } else if n > 0 {
      RecordJoins(a[1..], b, n - 1, rest);
      assert (a + b)[1..] == a[1..] + b;
    }
  }

  lemma RecordOne(e: Effect, n: nat, rest: Trace<Effect>)
    ensures Record([e], n, rest) == if n == 0 then Trace([], Running) else Then(e, rest)
  {
    if n > 0 {
      assert [e][1..] == [];
      assert Record([], n - 1, rest) == rest;
    }
  }

  predicate Straight(e: Effect) { e.EOther? || e.ESet? || e.ESetTop? }

  lemma StepRuns(code: seq<byte>, pc: nat, e: Effect, len: nat, taken: nat -> bool, k: nat, n: nat)
    requires pc < |code| && pc % 2 == 0 && Straight(e) && Decode(code[pc..], pc) == Some(Decoded(e, len))
    ensures Execute(code, pc, taken, k, n) == Record([e], n, Execute(code, pc + len, taken, k + 1, Less(n, 1)))
  {
    hide Decode;
    RecordOne(e, n, Execute(code, pc + len, taken, k + 1, Less(n, 1)));
  }

  lemma JumpStep(code: seq<byte>, pc: nat, t: int, len: nat, taken: nat -> bool, k: nat, n: nat)
    requires pc < |code| && pc % 2 == 0 && Decode(code[pc..], pc) == Some(Decoded(EJump(t), len))
    ensures Execute(code, pc, taken, k, n) == Record([EJump(t)], n, Execute(code, t, taken, k + 1, Less(n, 1)))
  {
    hide Decode;
    RecordOne(EJump(t), n, Execute(code, t, taken, k + 1, Less(n, 1)));
  }

  lemma Tail(code: seq<byte>, pc: nat, bs: seq<byte>, more: seq<byte>)
    requires pc + |bs| <= |code| && code[pc..] == bs + more
    ensures code[pc + |bs|..] == more
  {
    assert code[pc + |bs|..] == code[pc..][|bs|..];
  }

  lemma MovForms(reg: Reg, imm: Bits32)
    ensures reg < 8 && imm < 0x100 ==> Mov(reg, imm) == HalfBytes(0x2000 + 0x100 * reg + imm)
    ensures !(reg < 8 && imm < 0x100) && imm < 0x1_0000 ==> Mov(reg, imm) == MovHalf(MOVW, reg, imm)
    ensures imm >= 0x1_0000 ==> Mov(reg, imm) == MovHalf(MOVW, reg, imm) + MovHalf(MOVT, reg, imm / 0x1_0000)
    ensures |MovHalf(MOVW, reg, imm)| == 4 && |MovHalf(MOVT, reg, imm / 0x1_0000)| == 4
    ensures |Mov(reg, imm)| in {2, 4, 8}
  {
    hide HalfBytes;
  }

  lemma NarrowMov(reg: Reg, imm: Bits32)
    requires reg < 8 && imm < 0x100
    ensures var op := 0x2000 + 0x100 * reg + imm; Ordinary(Op16(op)) && OpEffect(op) == ESet(reg, imm)
  {
  }

  lemma MovRuns(code: seq<byte>, pc: nat, reg: Reg, imm: Bits32, taken: nat -> bool, k: nat, n: nat)
    requires pc % 2 == 0 && pc + |Mov(reg, imm)| <= |code|
    requires code[pc..] == Mov(reg, imm) + code[pc + |Mov(reg, imm)|..]
    ensures var es, next := MovEffects(reg, imm), pc + |Mov(reg, imm)|;
            Execute(code, pc, taken, k, n) == Record(es, n, Execute(code, next, taken, k + |es|, Less(n, |es|)))
  {
    MovForms(reg, imm);
    var next := pc + |Mov(reg, imm)|;
    hide Execute, Decode, Mov, MovHalf, HalfBytes, Record;
    if imm >= 0x1_0000 {
      var one, two := MovHalf(MOVW, reg, imm), MovHalf(MOVT, reg, imm / 0x1_0000);
      var a, b := ESet(reg, imm % 0x1_0000), ESetTop(reg, imm / 0x1_0000);
      assert (one + two) + code[next..] == one + (two + code[next..]);
      Tail(code, pc, one, two + code[next..]);
      MovHalfDecodes(MOVW, reg, imm, two + code[next..], pc);
      MovHalfDecodes(MOVT, reg, imm / 0x1_0000, code[next..], pc + 4);
      StepRuns(code, pc, a, 4, taken, k, n);
      StepRuns(code, pc + 4, b, 4, taken, k + 1, Less(n, 1));
      RecordJoins([a], [b], n, Execute(code, next, taken, k + 2, Less(n, 2)));
      assert [a] + [b] == [a, b] && Less(Less(n, 1), 1) == Less(n, 2);
    } else if reg < 8 && imm < 0x100 {
      NarrowMov(reg, imm);
      OpDecodes(0x2000 + 0x100 * reg + imm, code[next..], pc);
      StepRuns(code, pc, ESet(reg, imm), 2, taken, k, n);
    } else {
      MovHalfDecodes(MOVW, reg, imm, code[next..], pc);
      StepRuns(code, pc, ESet(reg, imm), 4, taken, k, n);
    }
  }

  lemma NopStep(code: seq<byte>, pc: nat, taken: nat -> bool, k: nat, n: nat)
    requires pc < |code| && pc % 2 == 0 && Decode(code[pc..], pc) == Some(Decoded(ENop, 2))
    ensures Execute(code, pc, taken, k, n) == Execute(code, pc + 2, taken, k, n)
  {
    hide Decode;
  }

  lemma NopDecodes(rest: seq<byte>, pc: int)
    ensures Decode(HalfBytes(NOP) + rest, pc) == Some(Decoded(ENop, 2))
  {
    OpDecodes(NOP, rest, pc);
  }

  /** Getting to the load behind the aligned constant. */
  lemma AlignedJump(code: seq<byte>, pc: nat, word: seq<byte>, mov: seq<byte>, taken: nat -> bool, k: nat, n: nat)
    requires pc % 2 == 0 && |word| == 4 && BehindWord(pc) + |mov| <= |code|
    requires var bs := (if pc % 4 == 0 then HalfBytes(NOP) else []) + HalfBytes(NarrowB(2)) + word + mov;
             code[pc..] == bs + code[BehindWord(pc) + |mov|..]
    ensures Execute(code, pc, taken, k, n)
            == Record([EJump(BehindWord(pc))], n, Execute(code, BehindWord(pc), taken, k + 1, Less(n, 1)))
    ensures code[BehindWord(pc)..] == mov + code[BehindWord(pc) + |mov|..]
  {
    hide Execute, Decode, HalfBytes, Record, NarrowB;
    var nop := if pc % 4 == 0 then HalfBytes(NOP) else [];
    var branch := pc + |nop|;
    AlignedText(code, pc, nop, HalfBytes(NarrowB(2)), word, mov, BehindWord(pc) + |mov|);
    if pc % 4 == 0 {
      NopDecodes(code[branch..], pc);
      NopStep(code, pc, taken, k, n);
    }
    JumpOver(code[branch + 2..], branch);
    JumpStep(code, branch, BehindWord(pc), 2, taken, k, n);
  }

  /** Branching round the aligned constant and loading it. */
  lemma AlignedRuns(code: seq<byte>, pc: nat, reg: Reg, imm: Bits32, next: nat, taken: nat -> bool, k: nat, n: nat)
    requires pc % 2 == 0 && next <= |code|
    requires var bs := (if pc % 4 == 0 then HalfBytes(NOP) else [])
                       + HalfBytes(NarrowB(2)) + LittleEndian(4, imm) + Mov(reg, imm);
             pc + |bs| == next && code[pc..] == bs + code[next..]
    ensures var es := [EJump(BehindWord(pc))] + MovEffects(reg, imm);
            Execute(code, pc, taken, k, n) == Record(es, n, Execute(code, next, taken, k + |es|, Less(n, |es|)))
  {
    hide Execute, Mov, HalfBytes, Record, NarrowB, LittleEndian, MovEffects;
    var mov, es := BehindWord(pc), MovEffects(reg, imm);
    AlignedJump(code, pc, LittleEndian(4, imm), Mov(reg, imm), taken, k, n);
    MovRuns(code, mov, reg, imm, taken, k + 1, Less(n, 1));
    RecordJoins([EJump(mov)], es, n, Execute(code, next, taken, k + 1 + |es|, Less(n, 1 + |es|)));
    assert Less(Less(n, 1), |es|) == Less(n, 1 + |es|);
  }

  lemma AlignedText(code: seq<byte>, pc: nat, a: seq<byte>, b: seq<byte>, c: seq<byte>, d: seq<byte>, next: nat)
    requires next == pc + |a| + |b| + |c| + |d| <= |code| && code[pc..] == a + b + c + d + code[next..]
    ensures code[pc..] == a + code[pc + |a|..]
    ensures code[pc + |a|..] == b + code[pc + |a| + |b|..]
    ensures code[pc + |a| + |b| + |c|..] == d + code[next..]
  {
    var rest := code[next..];
    assert a + b + c + d + rest == a + (b + (c + (d + rest)));
    Tail(code, pc, a, b + (c + (d + rest)));
    Tail(code, pc + |a|, b, c + (d + rest));
    Tail(code, pc + |a| + |b|, c, d + rest);
  }

  lemma JumpOver(rest: seq<byte>, pc: int)
    ensures Decode(HalfBytes(NarrowB(2)) + rest, pc) == Some(Decoded(EJump(pc + 6), 2))
  {
    NarrowBRoundTrip(2, rest);
    hide DecodeBranch, NarrowB;
  }

  // ----- simulation -----

  lemma EvenSize(i: Instr, off: nat, labels: seq<int>)
    ensures |Encode(i, off, labels)| % 2 == 0 && |Encode(i, off, labels)| > 0
  {
    hide HalfBytes, NarrowB, NarrowBcc, WideBHi, WideBLo, WideBccHi, WideBccLo, BlLo, Mov, LittleEndian, SignedFit;
    if i.MovImm? || i.MovImmAligned? {
      MovForms(i.reg, i.imm);
    }
  }

  /** An instruction that is no branch takes the machine to the next call. */
  lemma StraightRuns(ops: seq<Op<Instr>>, maxLabels: nat, buf: seq<byte>, i: nat, taken: nat -> bool, k: nat, n: nat)
    requires Runnable(ops, maxLabels) && |buf| >= Size(Encode, ops, maxLabels) && i < |ops| && n > 0
    requires ops[i].Instr? && !IsBranch(ops[i].i) && OffsetOf(Encode, ops, maxLabels, i) % 2 == 0
    ensures var code, at := Code(Encode, ops, maxLabels, buf), OffsetOf(Encode, ops, maxLabels, i);
            var next, es := OffsetOf(Encode, ops, maxLabels, i + 1), Effects(ops[i].i, at);
            Execute(code, at, taken, k, n)
            == if ops[i].i.Op16? && Leaves(ops[i].i.op) then Trace([ELeave(ops[i].i.op)], Returned)
               else Record(es, n, Execute(code, next, taken, k + |es|, Less(n, |es|)))
  {
    hide Encode, Computed, Emitted, Table, Size, Execute, Program, Ordinary, InReach;
    EncodeStable();
    ProgramFits(ops, maxLabels);
    InstrInCode(Encode, ops, maxLabels, buf, i);
    var code, at := Code(Encode, ops, maxLabels, buf), OffsetOf(Encode, ops, maxLabels, i);
    var table, next := Table(Encode, ops, maxLabels), OffsetOf(Encode, ops, maxLabels, i + 1);
    EvenSize(ops[i].i, at, table);
    assert Ordinary(ops[i].i);
    OneRuns(code, at, next, table, ops[i].i, taken, k, n);
  }

  lemma ProgramFits(ops: seq<Op<Instr>>, maxLabels: nat)
    requires Program(ops, maxLabels)
    ensures WellFormed(ops, maxLabels)
  {
  }

  lemma OneRuns(code: seq<byte>, at: nat, next: nat, table: seq<int>, i: Instr, taken: nat -> bool, k: nat, n: nat)
    requires Ordinary(i) && !IsBranch(i) && at % 2 == 0 && n > 0
    requires at + |Encode(i, at, table)| == next <= |code| && code[at..] == Encode(i, at, table) + code[next..]
    ensures Execute(code, at, taken, k, n)
            == if i.Op16? && Leaves(i.op) then Trace([ELeave(i.op)], Returned)
               else Record(Effects(i, at), n,
                           Execute(code, next, taken, k + |Effects(i, at)|, Less(n, |Effects(i, at)|)))
  {
    EvenSize(i, at, table);
    hide Execute, Record, Less, Mov, MovEffects, DecodeBranch;
    match i {
      case Op16(op) => OpRuns(code, at, op, taken, k, n);
      case Op32(hi, lo) => PairRuns(code, at, hi, lo, taken, k, n);
      case MovImm(reg, imm) => MovRuns(code, at, reg, imm, taken, k, n);
      case MovImmAligned(reg, imm) => AlignedRuns(code, at, reg, imm, next, taken, k, n);
      case _ =>
    }
  }

  lemma OpRuns(code: seq<byte>, at: nat, op: Half, taken: nat -> bool, k: nat, n: nat)
    requires Ordinary(Op16(op)) && at % 2 == 0 && n > 0
    requires at + 2 <= |code| && code[at..] == HalfBytes(op) + code[at + 2..]
    ensures var es := Effects(Op16(op), at);
            Execute(code, at, taken, k, n)
            == if Leaves(op) then Trace([ELeave(op)], Returned)
               else Record(es, n, Execute(code, at + 2, taken, k + |es|, Less(n, |es|)))
  {
    OpDecodes(op, code[at + 2..], at);
    hide Decode, HalfBytes, Record;
    if OpEffect(op) == ENop {
      NopStep(code, at, taken, k, n);
      RecordNone(n, Execute(code, at + 2, taken, k, n));
    } else if !Leaves(op) {
      StepRuns(code, at, OpEffect(op), 2, taken, k, n);
    }
  }

  lemma RecordNone(n: nat, rest: Trace<Effect>)
    ensures Record([], n, rest) == rest && Less(n, 0) == n
  {
  }

  lemma PairRuns(code: seq<byte>, at: nat, hi: Half, lo: Half, taken: nat -> bool, k: nat, n: nat)
    requires Ordinary(Op32(hi, lo)) && at % 2 == 0 && at + 4 <= |code|
    requires code[at..] == HalfBytes(hi) + HalfBytes(lo) + code[at + 4..]
    ensures Execute(code, at, taken, k, n)
            == Record([PairEffect(hi, lo)], n, Execute(code, at + 4, taken, k + 1, Less(n, 1)))
  {
    PairDecodes(hi, lo, code[at + 4..], at);
    hide Decode, HalfBytes, Record;
    StepRuns(code, at, PairEffect(hi, lo), 4, taken, k, n);
  }

  /** At a branch that reaches its label the machine goes where the program goes. */
  lemma BranchRuns(ops: seq<Op<Instr>>, maxLabels: nat, buf: seq<byte>, i: nat, taken: nat -> bool, k: nat, n: nat)
    requires Runnable(ops, maxLabels) && |buf| >= Size(Encode, ops, maxLabels) && i < |ops| && n > 0
    requires ops[i].Instr? && IsBranch(ops[i].i) && OffsetOf(Encode, ops, maxLabels, i) % 2 == 0
    requires IndexOf(ops, ops[i].i.id, 0) < |ops|
    ensures var code, at := Code(Encode, ops, maxLabels, buf), OffsetOf(Encode, ops, maxLabels, i);
            var j := IndexOf(ops, ops[i].i.id, 0);
            var dest, next := OffsetOf(Encode, ops, maxLabels, j), OffsetOf(Encode, ops, maxLabels, i + 1);
            var e := BranchOf(ops[i].i, dest);
            && dest % 2 == 0 && next % 2 == 0
            && Execute(code, at, taken, k, n)
               == Then(e, Execute(code, if e.EBranch? && !taken(k) then next else dest, taken, k + 1, n - 1))
  {
    hide Encode, Computed, Emitted, Table, Size, DecodeBranch, Program, Reaches;
    var j := IndexOf(ops, ops[i].i.id, 0);
    assert InReach(ops, maxLabels, i);
    SiteDecodes(ops, maxLabels, buf, i, j);
    EvenReach(ops[i].i, OffsetOf(Encode, ops, maxLabels, j) - (OffsetOf(Encode, ops, maxLabels, i) + 4));
    NextEven(ops, maxLabels, buf, i);
  }

  lemma EvenReach(i: Instr, rel: int)
    requires IsBranch(i) && Reaches(i, rel)
    ensures rel % 2 == 0
  {
  }

  lemma NextEven(ops: seq<Op<Instr>>, maxLabels: nat, buf: seq<byte>, i: nat)
    requires Program(ops, maxLabels) && |buf| >= Size(Encode, ops, maxLabels) && i < |ops| && ops[i].Instr?
    requires OffsetOf(Encode, ops, maxLabels, i) % 2 == 0
    ensures OffsetOf(Encode, ops, maxLabels, i + 1) % 2 == 0
  {
    hide Encode, Computed, Emitted, Table, Size;
    EncodeStable();
    InstrInCode(Encode, ops, maxLabels, buf, i);
    EvenSize(ops[i].i, OffsetOf(Encode, ops, maxLabels, i), Table(Encode, ops, maxLabels));
  }

  lemma LabelStays(ops: seq<Op<Instr>>, maxLabels: nat, i: nat)
    requires i < |ops| && ops[i].Label?
    ensures OffsetOf(Encode, ops, maxLabels, i + 1) == OffsetOf(Encode, ops, maxLabels, i)
  {
    hide Encode;
  }

  /** The theorem.  Unless the labelled program itself sends control somewhere it should not
      go, running the bytes from the offset of a call is running the program from that call. */
  lemma {:induction false} BytesRunProgram(ops: seq<Op<Instr>>, maxLabels: nat, buf: seq<byte>, i: nat,
      taken: nat -> bool, k: nat, n: nat)
    requires Runnable(ops, maxLabels) && |buf| >= Size(Encode, ops, maxLabels) && i <= |ops|
    requires OffsetOf(Encode, ops, maxLabels, i) % 2 == 0
    requires Interpret(ops, maxLabels, i, taken, k, n).end != Stuck
    ensures Execute(Code(Encode, ops, maxLabels, buf), OffsetOf(Encode, ops, maxLabels, i), taken, k, n)
            == Interpret(ops, maxLabels, i, taken, k, n)
    decreases n, |ops| - i
  {
    if n > 0 {
      hide Encode, Computed, Emitted, Table, Size, Effects, Record, Runnable, BranchOf, Execute;
      match ops[i]
      case Label(_) =>
        LabelStays(ops, maxLabels, i);
        BytesRunProgram(ops, maxLabels, buf, i + 1, taken, k, n);
      case Instr(instr) =>
        if IsBranch(instr) {
          BranchFollows(ops, maxLabels, buf, i, taken, k, n);
        } else {
          StraightFollows(ops, maxLabels, buf, i, taken, k, n);
        }
    }
  }

  /** The same at a branch. */
  lemma {:induction false} BranchFollows(ops: seq<Op<Instr>>, maxLabels: nat, buf: seq<byte>, i: nat,
      taken: nat -> bool, k: nat, n: nat)
    requires Runnable(ops, maxLabels) && |buf| >= Size(Encode, ops, maxLabels) && i < |ops| && n > 0
    requires OffsetOf(Encode, ops, maxLabels, i) % 2 == 0 && ops[i].Instr? && IsBranch(ops[i].i)
    requires Interpret(ops, maxLabels, i, taken, k, n).end != Stuck
    ensures Execute(Code(Encode, ops, maxLabels, buf), OffsetOf(Encode, ops, maxLabels, i), taken, k, n)
            == Interpret(ops, maxLabels, i, taken, k, n)
    decreases n, |ops| - i, 0
  {
    hide Encode, Computed, Emitted, Table, Size, Effects, Record, Runnable, BranchOf, Execute;
    var j := IndexOf(ops, ops[i].i.id, 0);
    BranchRuns(ops, maxLabels, buf, i, taken, k, n);
    var e := BranchOf(ops[i].i, OffsetOf(Encode, ops, maxLabels, j));
    BytesRunProgram(ops, maxLabels, buf, if e.EBranch? && !taken(k) then i + 1 else j, taken, k + 1, n - 1);
  }

  /** A run of at least these effects ends as its rest does. */
  lemma {:induction false} RecordEnd(es: seq<Effect>, n: nat, rest: Trace<Effect>)
    ensures n >= |es| ==> Record(es, n, rest).end == rest.end
    decreases |es|
  {
    if es != [] && n > 0 {
      RecordEnd(es[1..], n - 1, rest);
    }
  }

  /** The same for an instruction that is no branch. */
  lemma {:induction false} StraightFollows(ops: seq<Op<Instr>>, maxLabels: nat, buf: seq<byte>, i: nat,
      taken: nat -> bool, k: nat, n: nat)
    requires Runnable(ops, maxLabels) && |buf| >= Size(Encode, ops, maxLabels) && i < |ops| && n > 0
    requires OffsetOf(Encode, ops, maxLabels, i) % 2 == 0 && ops[i].Instr? && !IsBranch(ops[i].i)
    requires Interpret(ops, maxLabels, i, taken, k, n).end != Stuck
    ensures Execute(Code(Encode, ops, maxLabels, buf), OffsetOf(Encode, ops, maxLabels, i), taken, k, n)
            == Interpret(ops, maxLabels, i, taken, k, n)
    decreases n, |ops| - i, 0
  {
    hide Encode, Computed, Emitted, Table, Size, Effects, Record, Execute, Program, Ordinary, InReach;
    var instr := ops[i].i;
    StraightRuns(ops, maxLabels, buf, i, taken, k, n);
    if !(instr.Op16? && Leaves(instr.op)) {
      var es := Effects(instr, OffsetOf(Encode, ops, maxLabels, i));
      RecordEnd(es, n, Interpret(ops, maxLabels, i + 1, taken, k + |es|, Less(n, |es|)));
      NextEven(ops, maxLabels, buf, i);
      BytesRunProgram(ops, maxLabels, buf, i + 1, taken, k + |es|, Less(n, |es|));
    }
  }
}
