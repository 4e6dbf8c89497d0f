/** The emitted bytes run the program: a machine that fetches and decodes the bytes
    performs the same instructions, in the same order, as an interpreter that walks the
    labelled program, for any outcomes of the conditional branches. */
module AsmX64Run {
  import opened Basics
  import opened AsmBase
  import opened AsmX64
  import opened AsmX64Emit

  // ----- the labelled program -----

  /** `n` instructions of the program from call `i` on; `taken(k)` says whether the
      branch performed as instruction number `k` is taken.  Data, alignment gaps, labels
      nobody defines and the end of the program are no place for control to go. */
  function Interpret(ops: seq<Op<Instr>>, table: seq<int>, i: nat, taken: nat -> bool, k: nat, n: nat): Trace<Effect>
    requires i <= |ops|
    decreases n, |ops| - i
  {
    if n == 0 then Trace([], Running)
    else if i == |ops| then Trace([], Stuck)
    else
      match ops[i]
      case Label(_) => Interpret(ops, table, i + 1, taken, k, n)
      case Align(_) => Trace([], Stuck)
      case Data(_, _) => Trace([], Stuck)
      case Instr(instr) =>
        var e := Meaning(instr, table);
        if instr.Ret? then Trace([e], Returned)
        else if instr.Jmp? then
          var j := IndexOf(ops, instr.id, 0);
          if j == |ops| then Trace([], Stuck) else Then(e, Interpret(ops, table, j, taken, k + 1, n - 1))
        else if instr.Jcc? then
          var j := IndexOf(ops, instr.id, 0);
          if j == |ops| then Trace([], Stuck)
          else Then(e, Interpret(ops, table, if taken(k) then j else i + 1, taken, k + 1, n - 1))
        else Then(e, Interpret(ops, table, i + 1, taken, k + 1, n - 1))
  }

  // ----- the bytes -----

  /** `n` instructions of the machine from offset `pc` on; nops are not recorded. */
  function Execute(code: seq<byte>, pc: int, taken: nat -> bool, k: nat, n: nat): Trace<Effect>
    decreases n, |code| - pc
  {
    if n == 0 then Trace([], Running)
    else if !(0 <= pc < |code|) then Trace([], Stuck)
    else
      match Decode(code[pc..], pc)
      case None => Trace([], Stuck)
      case Some(d) =>
        match d.effect
        case ENop => Execute(code, pc + d.len, taken, k, n)
        case EReturn => Trace([d.effect], Returned)
        case EJump(t) => Then(d.effect, Execute(code, t, taken, k + 1, n - 1))
        case EBranch(_, t) => Then(d.effect, Execute(code, if taken(k) then t else pc + d.len, taken, k + 1, n - 1))
        case _ => Then(d.effect, Execute(code, pc + d.len, taken, k + 1, n - 1))
  }

  lemma NopDecodes(s: seq<byte>, pc: nat)
    requires |s| > 0 && s[0] == 0x90
    ensures Decode(s, pc) == Some(Decoded(ENop, 1))
  {
  }

  /** Nops make no difference to a run. */
  lemma {:induction false} NopsSkipped(code: seq<byte>, pc: nat, count: nat, taken: nat -> bool, k: nat, n: nat)
    requires pc + count <= |code| && code[pc..pc + count] == Nops(count) && n > 0
    ensures Execute(code, pc, taken, k, n) == Execute(code, pc + count, taken, k, n)
    decreases count
  {
    hide Decode;
    if count > 0 {
      assert code[pc] == code[pc..pc + count][0] == 0x90;
      assert code[pc + 1..pc + count] == code[pc..pc + count][1..] == Nops(count - 1);
      NopDecodes(code[pc..], pc);
      NopsSkipped(code, pc + 1, count - 1, taken, k, n);
    }
  }

  // ----- simulation -----

  /** A program inside the limits under which the emitters' arithmetic is exact. */
  ghost predicate Runnable(ops: seq<Op<Instr>>, maxLabels: nat) {
    && Program(ops, maxLabels)
    && Size(Encode, ops, maxLabels) < CODE_LIMIT
    && forall k :: 0 <= k < |ops| && ops[k].Instr? ==> Faithful(ops[k].i)
  }

  /** Target correctness: at the site of a jump the machine reads a branch to exactly the
      final offset of the label, or falls through to exactly the next call. */
  lemma SiteDecodes(ops: seq<Op<Instr>>, maxLabels: nat, buf: seq<byte>, i: nat)
    requires Runnable(ops, maxLabels) && |buf| >= Size(Encode, ops, maxLabels)
    requires i < |ops| && ops[i].Instr? && !ops[i].i.MovImmAligned?
    requires (ops[i].i.Jmp? || ops[i].i.Jcc?)
             ==> 0 <= LabelDest(Table(Encode, ops, maxLabels), ops[i].i.id) < CODE_LIMIT
    ensures var code, at := Code(Encode, ops, maxLabels, buf), OffsetOf(Encode, ops, maxLabels, i);
            && at < |code|
            && Decode(code[at..], at) == Some(Decoded(Meaning(ops[i].i, Table(Encode, ops, maxLabels)),
                                                      OffsetOf(Encode, ops, maxLabels, i + 1) - at))
  {
    hide Decode, Encode, Emitted, Computed, Table, Size, Meaning;
    EncodeStable();
    InstrInCode(Encode, ops, maxLabels, buf, i);
    var code, at := Code(Encode, ops, maxLabels, buf), OffsetOf(Encode, ops, maxLabels, i);
    var table := Table(Encode, ops, maxLabels);
    var bs := Encode(ops[i].i, at, table);
    EncodeSome(ops[i].i, at, table);
    DecodeEncode(ops[i].i, at, table, code[at + |bs|..]);
  }

  lemma EncodeSome(i: Instr, off: nat, labels: seq<int>)
    ensures |Encode(i, off, labels)| > 0
  {
  }

  /** The aligned move: some nops, and behind them a move whose word is aligned. */
  lemma AlignedSiteDecodes(ops: seq<Op<Instr>>, maxLabels: nat, buf: seq<byte>, i: nat)
    requires Runnable(ops, maxLabels) && |buf| >= Size(Encode, ops, maxLabels)
    requires i < |ops| && ops[i].Instr? && ops[i].i.MovImmAligned?
    ensures var code, at := Code(Encode, ops, maxLabels, buf), OffsetOf(Encode, ops, maxLabels, i);
            var pad := Padding(at);
            && at + pad + 10 == OffsetOf(Encode, ops, maxLabels, i + 1) <= |code|
            && code[at..at + pad] == Nops(pad)
            && (at + pad + 2) % 8 == 0
            && Decode(code[at + pad..], at + pad) == Some(Decoded(ESet(ops[i].i.r, ops[i].i.imm), 10))
  {
    hide Decode, DecodeRex, Emitted, Computed, Table, Size, Word32, Faithful, Allowed;
    EncodeStable();
    InstrInCode(Encode, ops, maxLabels, buf, i);
    var code, at := Code(Encode, ops, maxLabels, buf), OffsetOf(Encode, ops, maxLabels, i);
    var table := Table(Encode, ops, maxLabels);
    var pad, imm, r := Padding(at), ops[i].i.imm, ops[i].i.r;
    assert Encode(ops[i].i, at, table) == Nops(pad) + MovWide(imm, r);
    hide Encode;
    SplitSlice(code, at, Nops(pad), MovWide(imm, r));
    MovWideRoundTrip(imm, r, at + pad, code[at + pad + 10..]);
  }

  lemma SplitSlice<T>(code: seq<T>, at: nat, a: seq<T>, b: seq<T>)
    requires at + |a| + |b| <= |code| && code[at..] == (a + b) + code[at + |a| + |b|..]
    ensures code[at..at + |a|] == a
    ensures code[at + |a|..] == b + code[at + |a| + |b|..]
  {
    assert code[at..at + |a|] == code[at..][..|a|];
    assert code[at + |a|..] == code[at..][|a|..];
  }

  /** The theorem.  Unless the labelled program itself sends control somewhere it should
      not go, running the bytes from the offset of a call is running the program from
      that call. */
  lemma {:induction false} BytesRunProgram(ops: seq<Op<Instr>>, maxLabels: nat, buf: seq<byte>, i: nat,
      taken: nat -> bool, k: nat, n: nat)
    requires Runnable(ops, maxLabels) && |buf| >= Size(Encode, ops, maxLabels) && i <= |ops|
    requires Interpret(ops, Table(Encode, ops, maxLabels), i, taken, k, n).end != Stuck
    ensures Execute(Code(Encode, ops, maxLabels, buf), OffsetOf(Encode, ops, maxLabels, i), taken, k, n)
            == Interpret(ops, Table(Encode, ops, maxLabels), i, taken, k, n)
    decreases n, |ops| - i
  {
    if n > 0 {
      hide Decode, Encode, Computed, Emitted, Table, Size;
      match ops[i]
      case Label(_) => BytesRunProgram(ops, maxLabels, buf, i + 1, taken, k, n);
      case Instr(instr) =>
        if instr.Jmp? || instr.Jcc? {
          JumpRuns(ops, maxLabels, buf, i, taken, k, n);
        } else {
          if !instr.Ret? {
            BytesRunProgram(ops, maxLabels, buf, i + 1, taken, k + 1, n - 1);
          }
          StraightRuns(ops, maxLabels, buf, i, taken, k, n);
        }
    }
  }

  /** An instruction that does not branch takes the machine to the next call. */
  lemma StraightRuns(ops: seq<Op<Instr>>, maxLabels: nat, buf: seq<byte>, i: nat, taken: nat -> bool, k: nat, n: nat)
    requires Runnable(ops, maxLabels) && |buf| >= Size(Encode, ops, maxLabels) && i < |ops| && n > 0
    requires ops[i].Instr? && !ops[i].i.Jmp? && !ops[i].i.Jcc?
    ensures var e := Meaning(ops[i].i, Table(Encode, ops, maxLabels));
            Execute(Code(Encode, ops, maxLabels, buf), OffsetOf(Encode, ops, maxLabels, i), taken, k, n)
            == if ops[i].i.Ret? then Trace([e], Returned)
               else Then(e, Execute(Code(Encode, ops, maxLabels, buf), OffsetOf(Encode, ops, maxLabels, i + 1),
                                 taken, k + 1, n - 1))
  {
    hide Decode, Encode, Computed, Emitted, Table, Size;
    if ops[i].i.MovImmAligned? {
      var at := OffsetOf(Encode, ops, maxLabels, i);
      AlignedSiteDecodes(ops, maxLabels, buf, i);
      NopsSkipped(Code(Encode, ops, maxLabels, buf), at, Padding(at), taken, k, n);
    } else {
      SiteDecodes(ops, maxLabels, buf, i);
    }
  }

  lemma {:induction false} JumpRuns(ops: seq<Op<Instr>>, maxLabels: nat, buf: seq<byte>, i: nat,
      taken: nat -> bool, k: nat, n: nat)
    requires Runnable(ops, maxLabels) && |buf| >= Size(Encode, ops, maxLabels) && i < |ops| && n > 0
    requires ops[i].Instr? && (ops[i].i.Jmp? || ops[i].i.Jcc?)
    requires Interpret(ops, Table(Encode, ops, maxLabels), i, taken, k, n).end != Stuck
    ensures Execute(Code(Encode, ops, maxLabels, buf), OffsetOf(Encode, ops, maxLabels, i), taken, k, n)
            == Interpret(ops, Table(Encode, ops, maxLabels), i, taken, k, n)
    decreases n, |ops| - i, 0
  {
    hide Decode, Encode, Computed, Emitted, Table, Size;
    var instr := ops[i].i;
    var j := IndexOf(ops, instr.id, 0);
    if j < |ops| {
      LabelsLandOnCalls(Encode, ops, maxLabels, instr.id);
    }
    SiteDecodes(ops, maxLabels, buf, i);
    if instr.Jmp? || taken(k) {
      BytesRunProgram(ops, maxLabels, buf, j, taken, k + 1, n - 1);
    } else {
      BytesRunProgram(ops, maxLabels, buf, i + 1, taken, k + 1, n - 1);
    }
  }
}
