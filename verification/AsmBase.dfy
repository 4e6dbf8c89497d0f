/** The part of the native assembler every target shares: pass state, label
    table, code buffer, and the argument that makes two passes enough.

    A program is assembled by running the same sequence of calls twice.  The
    compute pass only counts bytes and records where labels fall; the emit pass
    writes.  Nothing but the label table is carried over, so the scheme works only
    if each call asks for the same number of bytes both times although the second
    time it can see labels that the first time were still unknown. */
module AsmBase {
  import opened Basics

  /** `(size_t)-1`: no offset of a program shorter than 2^31 bytes equals it. */
  const UNASSIGNED: int := -1

  /** Programs are below this size, so a displacement fits a signed 32-bit word. */
  const CODE_LIMIT: nat := 0x8000_0000

  datatype Pass = Compute | Emit

  /** One call into the assembler; `I` is the target's instruction type. */
  datatype Op<I> =
    | Label(id: nat)
    | Align(to: nat)
    | Data(size: nat, val: nat)
    | Instr(i: I)

  /** What a pass has done so far. */
  datatype State = State(off: nat, labels: seq<int>, code: seq<byte>)

  /** The bytes of instruction `i` at offset `off` under a label table. */
  type Encoder<!I> = (I, nat, seq<int>) -> seq<byte>

  // ----- the specification of one call -----

  function LittleEndian(size: nat, val: nat): (bs: seq<byte>)
    ensures |bs| == size
  {
    if size == 0 then [] else [val % 256] + LittleEndian(size - 1, val / 256)
  }

  function Power256(k: nat): (p: nat)
    ensures p > 0
  {
    if k == 0 then 1 else 256 * Power256(k - 1)
  }

  /** The number that bytes stand for when the least significant comes first. */
  function Number(bs: seq<byte>): nat {
    if bs == [] then 0 else 256 * Number(bs[1..]) + bs[0]
  }

  /** Byte `k` is digit `k` of the value in base 256. */
  lemma {:induction false} LittleEndianDigit(size: nat, val: nat, k: nat)
    requires k < size
    ensures LittleEndian(size, val)[k] == val / Power256(k) % 256
  {
    if k > 0 {
      LittleEndianDigit(size - 1, val / 256, k - 1);
      CarryDivides(val, Power256(k - 1));
    }
  }

  lemma DigitsStored(code: seq<byte>, at: nat, size: nat, val: nat)
    requires at + size <= |code| && forall k :: 0 <= k < size ==> code[at + k] == LittleEndian(size, val)[k]
    ensures forall k: nat :: k < size ==> code[at + k] == val / Power256(k) % 256
  {
    forall k: nat | k < size ensures code[at + k] == val / Power256(k) % 256 {
      LittleEndianDigit(size, val, k);
    }
  }

  /** Together the bytes stand for the value, cut to their number. */
  lemma {:induction false} LittleEndianNumber(size: nat, val: nat)
    ensures Number(LittleEndian(size, val)) == val % Power256(size)
  {
    if size > 0 {
      var bs := LittleEndian(size, val);
      LittleEndianNumber(size - 1, val / 256);
      CarryDivides(val, Power256(size - 1));
      assert bs[1..] == LittleEndian(size - 1, val / 256);
    }
  }

  lemma CarryDivides(v: nat, p: nat)
    requires p > 0
    ensures v / (256 * p) == v / 256 / p && v % (256 * p) == 256 * (v / 256 % p) + v % 256
  {
    var h, b := v / 256, v % 256;
    var q, r := h / p, h % p;
    assert v == 256 * (p * q + r) + b;
    assert 256 * (p * q) == (256 * p) * q;
    assert v == (256 * p) * q + (256 * r + b);
    RemainderIs(v, 256 * p, q, 256 * r + b);
  }

  /** Alignment as the source computes it: `(off + to - 1) & ~(to - 1)`. */
  function AlignMask(off: nat, to: nat): (r: nat)
    requires to > 0
    ensures off <= r < off + to
  {
    AndNot(off + to - 1, to - 1)
  }

  /** The least multiple of `to` that is not below `off`. */
  function RoundUp(off: nat, to: nat): (r: nat)
    requires to > 0
    ensures off <= r < off + to && r % to == 0
  {
    MultipleBelow(off + to - 1, to);
    off + to - 1 - (off + to - 1) % to
  }

  lemma MultipleBelow(x: nat, to: nat)
    requires to > 0
    ensures (x - x % to) % to == 0
  {
    assert x - x % to == to * (x / to) + 0;
    RemainderIs(x - x % to, to, x / to, 0);
  }

  /** The mask rounds up, for every offset, exactly when the alignment is a power of two. */
  lemma MaskRoundsIff(to: nat)
    requires to > 0
    ensures (forall off: nat :: AlignMask(off, to) == RoundUp(off, to)) <==> PowerOfTwo(to)
  {
    if PowerOfTwo(to) {
      var k := PowerIndex(to);
      forall off: nat ensures AlignMask(off, to) == RoundUp(off, to) {
        AndLowBits(off + to - 1, k);
      }
    }
    if forall off: nat :: AlignMask(off, to) == RoundUp(off, to) {
      assert AlignMask(1, to) == RoundUp(1, to);
      OneRoundsTo(to);
      ClearsOnlyPowers(to);
    }
  }

  lemma OneRoundsTo(to: nat)
    requires to > 0
    ensures RoundUp(1, to) == to
  {
    RemainderIs(to, to, 1, 0);
  }

  /** `n & (n - 1)` is zero for powers of two only. */
  lemma {:induction false} ClearsOnlyPowers(n: nat)
    requires n > 0 && AndNot(n, n - 1) == n
    ensures PowerOfTwo(n)
  {
    AndStep(n, n - 1);
    if n % 2 == 0 {
      assert (n - 1) / 2 == n / 2 - 1 && (n - 1) % 2 == 1;
      ClearsOnlyPowers(n / 2);
    } else {
      AndSelf(n / 2);
      assert (n - 1) / 2 == n / 2 && (n - 1) % 2 == 0;
    }
  }

  /** A multiple of two that is not a power does not do: offset 1 is moved to 2, not to 6. */
  lemma SixIsNotAligned()
    ensures AlignMask(1, 6) == 2 && RoundUp(1, 6) == 6
  {
    assert And(1, 1) == 1 && And(3, 2) == 2 && And(6, 5) == 4;
  }

  function Patch(code: seq<byte>, at: nat, bs: seq<byte>): (r: seq<byte>)
    ensures |r| == |code|
  {
    if at + |bs| <= |code| then code[..at] + bs + code[at + |bs|..] else code
  }

  function Append(pass: Pass, s: State, bs: seq<byte>): State {
    State(s.off + |bs|, s.labels, if pass.Emit? then Patch(s.code, s.off, bs) else s.code)
  }

  /** The bytes a call asks for, if it asks for any. */
  function BytesOf<I>(enc: Encoder<I>, op: Op<I>, off: nat, labels: seq<int>): seq<byte> {
    match op
    case Data(size, val) => LittleEndian(size, val)
    case Instr(i) => enc(i, off, labels)
    case _ => []
  }

  function Step<I>(enc: Encoder<I>, pass: Pass, op: Op<I>, s: State): State {
    match op
    case Label(id) =>
      if pass.Compute? && id < |s.labels| then s.(labels := s.labels[id := s.off]) else s
    case Align(to) => if to == 0 then s else s.(off := AlignMask(s.off, to))
    case _ => Append(pass, s, BytesOf(enc, op, s.off, s.labels))
  }

  /** The C assertions on the way through one call. */
  predicate Asserts<I>(enc: Encoder<I>, pass: Pass, op: Op<I>, s: State) {
    match op
    case Label(id) =>
      id < |s.labels| && s.labels[id] == if pass.Compute? then UNASSIGNED else s.off
    case Align(_) => true
    case _ => pass.Emit? ==> s.off + |BytesOf(enc, op, s.off, s.labels)| <= |s.code|
  }

  /** The state before call `i`. */
  function After<I>(enc: Encoder<I>, pass: Pass, ops: seq<Op<I>>, i: nat, s: State): State
    requires i <= |ops|
  {
    if i == 0 then s else Step(enc, pass, ops[i - 1], After(enc, pass, ops, i - 1, s))
  }

  // ----- the two passes -----

  function Unassigned(n: nat): (t: seq<int>)
    ensures |t| == n && forall k :: 0 <= k < n ==> t[k] == UNASSIGNED
  {
    seq(n, _ => UNASSIGNED)
  }

  /** Labels are in range and defined at most once; no alignment is zero. */
  ghost predicate WellFormed<I(!new)>(ops: seq<Op<I>>, maxLabels: nat) {
    && (forall i :: 0 <= i < |ops| && ops[i].Label? ==> ops[i].id < maxLabels)
    && (forall i :: 0 <= i < |ops| && ops[i].Align? ==> ops[i].to > 0)
    && (forall i, j :: 0 <= i < j < |ops| && ops[i].Label? && ops[j].Label? ==> ops[i].id != ops[j].id)
  }

  function Computed<I>(enc: Encoder<I>, ops: seq<Op<I>>, maxLabels: nat, i: nat): State
    requires i <= |ops|
  {
    After(enc, Compute, ops, i, State(0, Unassigned(maxLabels), []))
  }

  function Size<I>(enc: Encoder<I>, ops: seq<Op<I>>, maxLabels: nat): nat {
    Computed(enc, ops, maxLabels, |ops|).off
  }

  function Table<I>(enc: Encoder<I>, ops: seq<Op<I>>, maxLabels: nat): seq<int> {
    Computed(enc, ops, maxLabels, |ops|).labels
  }

  function Emitted<I>(enc: Encoder<I>, ops: seq<Op<I>>, maxLabels: nat, buf: seq<byte>, i: nat): State
    requires i <= |ops|
  {
    After(enc, Emit, ops, i, State(0, Table(enc, ops, maxLabels), buf))
  }

  /** `later` knows everything `now` does, and what it knows in addition lies at or
      beyond the end of the `width` bytes being placed at `off`. */
  ghost predicate Extends(now: seq<int>, later: seq<int>, off: nat, width: nat) {
    && |now| == |later|
    && (forall k :: 0 <= k < |now| && now[k] != UNASSIGNED ==> later[k] == now[k] && 0 <= now[k] <= off)
    && (forall k :: 0 <= k < |now| && now[k] == UNASSIGNED ==> later[k] == UNASSIGNED || off + width <= later[k])
  }

  /** The obligation on a target: learning about labels further on must not change
      how many bytes an instruction takes. */
  ghost predicate StableFor<I(!new)>(enc: Encoder<I>, i: I, off: nat, now: seq<int>, later: seq<int>) {
    Extends(now, later, off, |enc(i, off, now)|) ==> |enc(i, off, later)| == |enc(i, off, now)|
  }

  ghost predicate Stable<I(!new)>(enc: Encoder<I>) {
    forall i: I, off: nat, now: seq<int>, later: seq<int> :: StableFor(enc, i, off, now, later)
  }

  // ----- facts about one pass -----

  lemma {:induction false} AfterMonotone<I>(enc: Encoder<I>, pass: Pass, ops: seq<Op<I>>, i: nat, j: nat, s: State)
    requires i <= j <= |ops|
    requires forall k :: 0 <= k < |ops| && ops[k].Align? ==> ops[k].to > 0
    ensures After(enc, pass, ops, i, s).off <= After(enc, pass, ops, j, s).off
    ensures |After(enc, pass, ops, j, s).labels| == |After(enc, pass, ops, i, s).labels|
    ensures |After(enc, pass, ops, j, s).code| == |After(enc, pass, ops, i, s).code|
    decreases j
  {
    if i < j {
      AfterMonotone(enc, pass, ops, i, j - 1, s);
    }
  }

  /** The compute pass's table before call `i` holds exactly the labels defined so far,
      each at the offset where it was defined. */
  lemma {:induction false} ComputedTable<I(!new)>(enc: Encoder<I>, ops: seq<Op<I>>, maxLabels: nat, i: nat, id: nat)
    requires WellFormed(ops, maxLabels) && i <= |ops| && id < maxLabels
    ensures var s := Computed(enc, ops, maxLabels, i);
            |s.labels| == maxLabels &&
            if exists j :: 0 <= j < i && ops[j] == Label(id)
            then forall j :: 0 <= j < i && ops[j] == Label(id) ==> s.labels[id] == Computed(enc, ops, maxLabels, j).off
            else s.labels[id] == UNASSIGNED
  {
    hide AlignMask, BytesOf;
    if i > 0 {
      ComputedTable(enc, ops, maxLabels, i - 1, id);
      if ops[i - 1] == Label(id) {
        assert forall j :: 0 <= j < i - 1 ==> ops[j] != Label(id);
      } else {
        assert forall j :: 0 <= j < i && ops[j] == Label(id) ==> j < i - 1;
      }
    }
  }

  /** Seen from call `i`, the final table extends the partial one. */
  lemma ComputedExtends<I(!new)>(enc: Encoder<I>, ops: seq<Op<I>>, maxLabels: nat, i: nat)
    requires WellFormed(ops, maxLabels) && i < |ops|
    requires ops[i].Instr?
    ensures var s := Computed(enc, ops, maxLabels, i);
            Extends(s.labels, Table(enc, ops, maxLabels), s.off, |BytesOf(enc, ops[i], s.off, s.labels)|)
  {
    var s := Computed(enc, ops, maxLabels, i);
    var final := Table(enc, ops, maxLabels);
    var start := State(0, Unassigned(maxLabels), []);
    AfterMonotone(enc, Compute, ops, 0, i, start);
    AfterMonotone(enc, Compute, ops, 0, |ops|, start);
    forall id: nat | id < maxLabels
      ensures s.labels[id] != UNASSIGNED ==> final[id] == s.labels[id] && 0 <= s.labels[id] <= s.off
      ensures s.labels[id] == UNASSIGNED ==>
                final[id] == UNASSIGNED || Computed(enc, ops, maxLabels, i + 1).off <= final[id]
    {
      LabelBeforeOrBeyond(enc, ops, maxLabels, i, id);
    }
  }

  lemma LabelBeforeOrBeyond<I(!new)>(enc: Encoder<I>, ops: seq<Op<I>>, maxLabels: nat, i: nat, id: nat)
    requires WellFormed(ops, maxLabels) && i < |ops| && id < maxLabels && ops[i].Instr?
    ensures var s, final := Computed(enc, ops, maxLabels, i), Table(enc, ops, maxLabels);
            |s.labels| == |final| == maxLabels &&
            if s.labels[id] != UNASSIGNED then final[id] == s.labels[id] && 0 <= s.labels[id] <= s.off
            else final[id] == UNASSIGNED || Computed(enc, ops, maxLabels, i + 1).off <= final[id]
  {
    hide After, Step;
    var start := State(0, Unassigned(maxLabels), []);
    ComputedTable(enc, ops, maxLabels, i, id);
    ComputedTable(enc, ops, maxLabels, |ops|, id);
    if j: nat :| j < |ops| && ops[j] == Label(id) {
      if j < i {
        AfterMonotone(enc, Compute, ops, j, i, start);
      } else {
        AfterMonotone(enc, Compute, ops, i + 1, j, start);
      }
    }
  }

  /** Pass agreement: the emit pass is at the same offset as the compute pass before
      every call, whatever the buffer it was given held. */
  lemma {:induction false} PassesAgree<I(!new)>(enc: Encoder<I>, ops: seq<Op<I>>, maxLabels: nat, buf: seq<byte>,
      i: nat)
    requires WellFormed(ops, maxLabels) && Stable(enc) && i <= |ops|
    ensures Emitted(enc, ops, maxLabels, buf, i).off == Computed(enc, ops, maxLabels, i).off
    ensures Emitted(enc, ops, maxLabels, buf, i).labels == Table(enc, ops, maxLabels)
    ensures |Emitted(enc, ops, maxLabels, buf, i).code| == |buf|
  {
    if i > 0 {
      PassesAgree(enc, ops, maxLabels, buf, i - 1);
      if ops[i - 1].Instr? {
        ComputedExtends(enc, ops, maxLabels, i - 1);
        var s := Computed(enc, ops, maxLabels, i - 1);
        assert StableFor(enc, ops[i - 1].i, s.off, s.labels, Table(enc, ops, maxLabels));
      }
    }
  }

  /** No assertion of the compute pass fails. */
  lemma ComputeAssertsHold<I(!new)>(enc: Encoder<I>, ops: seq<Op<I>>, maxLabels: nat, i: nat)
    requires WellFormed(ops, maxLabels) && i < |ops|
    ensures Asserts(enc, Compute, ops[i], Computed(enc, ops, maxLabels, i))
  {
    if ops[i].Label? {
      ComputedTable(enc, ops, maxLabels, i, ops[i].id);
    }
  }

  /** No assertion of the emit pass fails: labels have not moved and every write fits
      in a buffer at least as big as the size the compute pass arrived at. */
  lemma EmitAssertsHold<I(!new)>(enc: Encoder<I>, ops: seq<Op<I>>, maxLabels: nat, buf: seq<byte>, i: nat)
    requires WellFormed(ops, maxLabels) && Stable(enc) && i < |ops|
    requires Size(enc, ops, maxLabels) <= |buf|
    ensures Asserts(enc, Emit, ops[i], Emitted(enc, ops, maxLabels, buf, i))
  {
    PassesAgree(enc, ops, maxLabels, buf, i);
    PassesAgree(enc, ops, maxLabels, buf, i + 1);
    if ops[i].Label? {
      ComputedTable(enc, ops, maxLabels, |ops|, ops[i].id);
    }
    AfterMonotone(enc, Compute, ops, i + 1, |ops|, State(0, Unassigned(maxLabels), []));
  }

  /** A call of the emit pass writes its bytes where the pass stands and nothing before. */
  lemma EmitWrites<I>(enc: Encoder<I>, op: Op<I>, s: State)
    requires Asserts(enc, Emit, op, s) && s.off <= |s.code|
    ensures var bs := BytesOf(enc, op, s.off, s.labels);
            var code := Step(enc, Emit, op, s).code;
            && code[..s.off] == s.code[..s.off]
            && s.off + |bs| <= |code|
            && code[s.off..s.off + |bs|] == bs
            && s.off + |bs| <= Step(enc, Emit, op, s).off
  {
  }

  /** `bs` stands at `at` in the buffer of `s`, behind where the pass stands. */
  ghost predicate InPlace(s: State, at: nat, bs: seq<byte>) {
    at + |bs| <= s.off <= |s.code| && s.code[at..at + |bs|] == bs
  }

  lemma EmitKeepsInPlace<I>(enc: Encoder<I>, op: Op<I>, s: State, at: nat, bs: seq<byte>)
    requires Asserts(enc, Emit, op, s) && InPlace(s, at, bs)
    requires var s' := Step(enc, Emit, op, s); s.off <= s'.off <= |s'.code|
    ensures InPlace(Step(enc, Emit, op, s), at, bs)
  {
    EmitWrites(enc, op, s);
    PrefixSlice(s.code, Step(enc, Emit, op, s).code, s.off, at, |bs|);
  }

  lemma EmittedStep<I>(enc: Encoder<I>, ops: seq<Op<I>>, maxLabels: nat, buf: seq<byte>, j: nat)
    requires 0 < j <= |ops|
    ensures Emitted(enc, ops, maxLabels, buf, j)
            == Step(enc, Emit, ops[j - 1], Emitted(enc, ops, maxLabels, buf, j - 1))
  {
  }

  lemma OffsetsRise<I(!new)>(enc: Encoder<I>, ops: seq<Op<I>>, maxLabels: nat, buf: seq<byte>, j: nat)
    requires WellFormed(ops, maxLabels) && Stable(enc) && 0 < j <= |ops|
    requires Size(enc, ops, maxLabels) <= |buf|
    ensures var before, after := Emitted(enc, ops, maxLabels, buf, j - 1), Emitted(enc, ops, maxLabels, buf, j);
            before.off <= after.off <= |after.code| == |before.code| == |buf|
  {
    PassesAgree(enc, ops, maxLabels, buf, j - 1);
    PassesAgree(enc, ops, maxLabels, buf, j);
    AfterMonotone(enc, Compute, ops, j - 1, j, State(0, Unassigned(maxLabels), []));
    AfterMonotone(enc, Compute, ops, j, |ops|, State(0, Unassigned(maxLabels), []));
  }

  /** The bytes of call `i` are still in place when the emit pass has reached call `j`:
      later calls write further on only. */
  lemma {:induction false} BytesInPlace<I(!new)>(enc: Encoder<I>, ops: seq<Op<I>>, maxLabels: nat, buf: seq<byte>,
      i: nat, j: nat)
    requires WellFormed(ops, maxLabels) && Stable(enc) && i < j <= |ops|
    requires Size(enc, ops, maxLabels) <= |buf|
    ensures var at := Computed(enc, ops, maxLabels, i).off;
            InPlace(Emitted(enc, ops, maxLabels, buf, j), at, BytesOf(enc, ops[i], at, Table(enc, ops, maxLabels)))
    decreases j
  {
    hide Computed, Emitted, After, Step, BytesOf, Asserts, Table, Size;
    hide Stable, WellFormed;
    var at := Computed(enc, ops, maxLabels, i).off;
    var before := Emitted(enc, ops, maxLabels, buf, j - 1);
    EmittedStep(enc, ops, maxLabels, buf, j);
    OffsetsRise(enc, ops, maxLabels, buf, j);
    EmitAssertsHold(enc, ops, maxLabels, buf, j - 1);
    if i < j - 1 {
      BytesInPlace(enc, ops, maxLabels, buf, i, j - 1);
      EmitKeepsInPlace(enc, ops[j - 1], before, at, BytesOf(enc, ops[i], at, Table(enc, ops, maxLabels)));
    } else {
      PassesAgree(enc, ops, maxLabels, buf, i);
      EmitWrites(enc, ops[i], before);
    }
  }

  lemma PrefixSlice<T>(a: seq<T>, b: seq<T>, n: nat, at: nat, len: nat)
    requires n <= |a| && n <= |b| && a[..n] == b[..n] && at + len <= n
    ensures a[at..at + len] == b[at..at + len]
  {
    assert a[at..at + len] == a[..n][at..at + len];
    assert b[at..at + len] == b[..n][at..at + len];
  }

  /** A defined label's table entry is the offset of the call that defined it. */
  lemma LabelAt<I(!new)>(enc: Encoder<I>, ops: seq<Op<I>>, maxLabels: nat, j: nat)
    requires WellFormed(ops, maxLabels) && j < |ops| && ops[j].Label?
    ensures |Table(enc, ops, maxLabels)| == maxLabels
    ensures Table(enc, ops, maxLabels)[ops[j].id] == Computed(enc, ops, maxLabels, j).off <= Size(enc, ops, maxLabels)
  {
    ComputedTable(enc, ops, maxLabels, |ops|, ops[j].id);
    AfterMonotone(enc, Compute, ops, j, |ops|, State(0, Unassigned(maxLabels), []));
  }

  /** What the table holds for a label. */
  function LabelDest(labels: seq<int>, id: nat): int {
    if id < |labels| then labels[id] else UNASSIGNED
  }

  /** Where a label is defined, or the end of the program if nowhere. */
  function IndexOf<I(==)>(ops: seq<Op<I>>, id: nat, from: nat): (j: nat)
    requires from <= |ops|
    ensures from <= j <= |ops|
    ensures j < |ops| ==> ops[j] == Label(id)
    decreases |ops| - from
  {
    if from == |ops| || ops[from] == Label(id) then from else IndexOf(ops, id, from + 1)
  }

  /** The code as the emit pass leaves it in a buffer that held `buf`. */
  function Code<I>(enc: Encoder<I>, ops: seq<Op<I>>, maxLabels: nat, buf: seq<byte>): seq<byte> {
    Emitted(enc, ops, maxLabels, buf, |ops|).code
  }

  /** Where a call begins. */
  function OffsetOf<I>(enc: Encoder<I>, ops: seq<Op<I>>, maxLabels: nat, i: nat): nat
    requires i <= |ops|
  {
    Computed(enc, ops, maxLabels, i).off
  }

  /** In the final code, every instruction's bytes stand at its offset and the next call's
      offset is right behind them. */
  lemma InstrInCode<I(!new)>(enc: Encoder<I>, ops: seq<Op<I>>, maxLabels: nat, buf: seq<byte>, i: nat)
    requires WellFormed(ops, maxLabels) && Stable(enc) && |buf| >= Size(enc, ops, maxLabels)
    requires i < |ops| && ops[i].Instr?
    ensures var at := OffsetOf(enc, ops, maxLabels, i);
            var bs := enc(ops[i].i, at, Table(enc, ops, maxLabels));
            var code := Code(enc, ops, maxLabels, buf);
            && at + |bs| == OffsetOf(enc, ops, maxLabels, i + 1) <= Size(enc, ops, maxLabels)
            && at + |bs| <= |code| == |buf|
            && code[at..] == bs + code[at + |bs|..]
            && |Table(enc, ops, maxLabels)| == maxLabels
  {
    var at := OffsetOf(enc, ops, maxLabels, i);
    var bs := enc(ops[i].i, at, Table(enc, ops, maxLabels));
    OffsetsInCode(enc, ops, maxLabels, buf, i);
    hide Computed, Emitted, Table, Size, Stable;
    SliceThenRest(Code(enc, ops, maxLabels, buf), at, bs);
  }

  /** In the final code, the bytes at the offset of a data call are the digits of its value
      in base 256, the least significant first, and the next call's offset is right behind. */
  lemma DataInCode<I(!new)>(enc: Encoder<I>, ops: seq<Op<I>>, maxLabels: nat, buf: seq<byte>, i: nat)
    requires WellFormed(ops, maxLabels) && Stable(enc) && |buf| >= Size(enc, ops, maxLabels)
    requires i < |ops| && ops[i].Data?
    ensures var at, size, val := OffsetOf(enc, ops, maxLabels, i), ops[i].size, ops[i].val;
            var code := Code(enc, ops, maxLabels, buf);
            && at + size == OffsetOf(enc, ops, maxLabels, i + 1) <= Size(enc, ops, maxLabels)
            && at + size <= |code|
            && (forall k: nat :: k < size ==> code[at + k] == val / Power256(k) % 256)
            && Number(code[at..at + size]) == val % Power256(size)
  {
    OffsetsInCode(enc, ops, maxLabels, buf, i);
    hide Computed, Emitted, Table, Size, Stable;
    var at, size, val := OffsetOf(enc, ops, maxLabels, i), ops[i].size, ops[i].val;
    var code := Code(enc, ops, maxLabels, buf);
    LittleEndianNumber(size, val);
    forall k: nat | k < size ensures code[at + k] == LittleEndian(size, val)[k] {
      assert code[at + k] == code[at..at + size][k];
    }
    DigitsStored(code, at, size, val);
  }

  lemma OffsetsInCode<I(!new)>(enc: Encoder<I>, ops: seq<Op<I>>, maxLabels: nat, buf: seq<byte>, i: nat)
    requires WellFormed(ops, maxLabels) && Stable(enc) && |buf| >= Size(enc, ops, maxLabels)
    requires i < |ops| && (ops[i].Instr? || ops[i].Data?)
    ensures var at := OffsetOf(enc, ops, maxLabels, i);
            var bs := BytesOf(enc, ops[i], at, Table(enc, ops, maxLabels));
            && at + |bs| == OffsetOf(enc, ops, maxLabels, i + 1) <= Size(enc, ops, maxLabels)
            && at + |bs| <= |Code(enc, ops, maxLabels, buf)| == |buf|
            && Code(enc, ops, maxLabels, buf)[at..at + |bs|] == bs
            && |Table(enc, ops, maxLabels)| == maxLabels
  {
    hide Stable;
    BytesInPlace(enc, ops, maxLabels, buf, i, |ops|);
    PassesAgree(enc, ops, maxLabels, buf, i);
    PassesAgree(enc, ops, maxLabels, buf, i + 1);
    PassesAgree(enc, ops, maxLabels, buf, |ops|);
    AfterMonotone(enc, Compute, ops, i + 1, |ops|, State(0, Unassigned(maxLabels), []));
    AfterMonotone(enc, Compute, ops, 0, |ops|, State(0, Unassigned(maxLabels), []));
  }

  lemma SliceThenRest<T>(code: seq<T>, at: nat, bs: seq<T>)
    requires at + |bs| <= |code| && code[at..at + |bs|] == bs
    ensures code[at..] == bs + code[at + |bs|..]
  {
  }

  /** A label's destination is the offset of the call behind its definition. */
  lemma LabelsLandOnCalls<I(!new)>(enc: Encoder<I>, ops: seq<Op<I>>, maxLabels: nat, id: nat)
    requires WellFormed(ops, maxLabels) && IndexOf(ops, id, 0) < |ops|
    ensures LabelDest(Table(enc, ops, maxLabels), id) == OffsetOf(enc, ops, maxLabels, IndexOf(ops, id, 0))
            <= Size(enc, ops, maxLabels)
  {
    LabelAt(enc, ops, maxLabels, IndexOf(ops, id, 0));
  }

  // ----- runs -----

  datatype End = Running | Returned | Stuck

  /** What a run has done, instruction by instruction, and how it stands. */
  datatype Trace<E> = Trace(effects: seq<E>, end: End)

  function Then<E>(e: E, rest: Trace<E>): Trace<E> {
    Trace([e] + rest.effects, rest.end)
  }

  /** Storing `bs` at `at` and nothing else is patching. */
  lemma StoredIsPatch(before: seq<byte>, after: seq<byte>, at: nat, bs: seq<byte>)
    requires |after| == |before| && at + |bs| <= |before|
    requires after[..at] == before[..at] && after[at + |bs|..] == before[at + |bs|..]
    requires forall k :: 0 <= k < |bs| ==> after[at + k] == bs[k]
    ensures after == Patch(before, at, bs)
  {
    assert after == after[..at] + after[at..at + |bs|] + after[at + |bs|..];
    assert after[at..at + |bs|] == bs;
  }

  /** Two appends in a row are one, as long as there is room when it matters. */
  lemma AppendTwice(pass: Pass, s: State, a: seq<byte>, b: seq<byte>)
    requires pass.Emit? ==> s.off + |a| + |b| <= |s.code|
    ensures Append(pass, Append(pass, s, a), b) == Append(pass, s, a + b)
  {
    if pass.Emit? {
      assert Patch(Patch(s.code, s.off, a), s.off + |a|, b) == Patch(s.code, s.off, a + b);
    }
  }

  lemma AppendOffset(pass: Pass, s: State, bs: seq<byte>)
    ensures Append(pass, s, bs).off == s.off + |bs| && |Append(pass, s, bs).code| == |s.code|
  {
  }

  // ----- the assembler object -----

  class Asm {
    var pass: Pass
    var codeOffset: nat
    var codeSize: nat
    var codeBase: array<byte>
    const maxNumLabels: nat
    const labelOffsets: array<int>

    ghost predicate Valid()
      reads this
    {
      && codeBase.Length == codeSize
      && labelOffsets.Length == maxNumLabels
      && codeBase as object != labelOffsets as object
    }

    ghost function Abs(): State
      reads this, codeBase, labelOffsets
    {
      State(codeOffset, labelOffsets[..], codeBase[..])
    }

    constructor (maxNumLabels: nat)
      ensures Valid() && this.maxNumLabels == maxNumLabels && codeSize == 0 && codeOffset == 0 && pass == Compute
      ensures fresh(labelOffsets) && fresh(codeBase)
    {
      this.maxNumLabels := maxNumLabels;
      labelOffsets := new int[maxNumLabels];
      codeBase := new byte[0];
      codeSize, codeOffset, pass := 0, 0, Compute;
    }

    /** `roundUp` is what the platform's allocator adds to the size it was asked for. */
    method StartPass(pass: Pass, roundUp: nat)
      requires Valid()
      modifies this, labelOffsets
      ensures Valid() && this.pass == pass && codeOffset == 0
      ensures pass.Compute? ==> codeBase == old(codeBase) && labelOffsets[..] == Unassigned(maxNumLabels)
      ensures pass.Emit? ==> fresh(codeBase) && codeSize == old(codeOffset) + roundUp
                             && labelOffsets[..] == old(labelOffsets[..])
    {
      if pass.Compute? {
        for k := 0 to maxNumLabels
          modifies labelOffsets
          invariant forall m :: 0 <= m < k ==> labelOffsets[m] == UNASSIGNED
        {
          labelOffsets[k] := UNASSIGNED;
        }
      } else {
        codeSize := codeOffset + roundUp;
        codeBase := new byte[codeSize];
      }
      this.pass := pass;
      codeOffset := 0;
    }

    /** Where to write the next `n` bytes, or nothing while only counting. */
    method GetCurToWriteBytes(n: nat) returns (c: Option<nat>)
      requires Valid()
      requires pass.Emit? ==> codeOffset + n <= codeSize
      modifies this`codeOffset
      ensures codeOffset == old(codeOffset) + n
      ensures c == if pass.Emit? then Some(old(codeOffset)) else None
    {
      c := None;
      if pass.Emit? {
        c := Some(codeOffset);
      }
      codeOffset := codeOffset + n;
    }

    method LabelAssign(id: nat)
      requires Valid() && id < maxNumLabels
      requires labelOffsets[id] == if pass.Compute? then UNASSIGNED else codeOffset
      modifies labelOffsets
      ensures pass.Compute? ==> labelOffsets[..] == old(labelOffsets[..])[id := codeOffset]
      ensures pass.Emit? ==> labelOffsets[..] == old(labelOffsets[..])
    {
      if pass.Compute? {
        labelOffsets[id] := codeOffset;
      }
    }

    method Align(to: nat)
      requires Valid() && to > 0
      modifies this`codeOffset
      ensures codeOffset == AlignMask(old(codeOffset), to)
    {
      codeOffset := AndNot(codeOffset + to - 1, to - 1);
    }

    method Data(size: nat, val: nat)
      requires Valid()
      requires pass.Emit? ==> codeOffset + size <= codeSize
      modifies this`codeOffset, codeBase
      ensures Abs() == Append(pass, old(Abs()), LittleEndian(size, val))
      ensures pass.Emit? ==>
                forall k: nat :: k < size ==> codeBase[old(codeOffset) + k] == val / Power256(k) % 256
    {
      var c := GetCurToWriteBytes(size);
      if c.Some? {
        ghost var before := codeBase[..];
        StoreDigits(c.value, size, val);
        hide LittleEndian, Power256;
        StoredIsPatch(before, codeBase[..], c.value, LittleEndian(size, val));
        DigitsStored(codeBase[..], c.value, size, val);
      }
    }

    method StoreDigits(at: nat, size: nat, val: nat)
      requires at + size <= codeBase.Length
      modifies codeBase
      ensures forall m :: 0 <= m < size ==> codeBase[at + m] == LittleEndian(size, val)[m]
      ensures codeBase[..at] == old(codeBase[..at]) && codeBase[at + size..] == old(codeBase[at + size..])
    {
      ghost var before := codeBase[..];
      var v := val;
      for k := 0 to size
        invariant 0 <= v
        invariant forall m :: 0 <= m < k ==> codeBase[at + m] == LittleEndian(size, val)[m]
        invariant codeBase[..at] == before[..at] && codeBase[at + k..] == before[at + k..]
        invariant LittleEndian(size, val)[k..] == LittleEndian(size - k, v)
      {
        assert LittleEndian(size, val)[k..][0] == v % 256;
        assert LittleEndian(size, val)[k..][1..] == LittleEndian(size, val)[k + 1..];
        codeBase[at + k] := v % 256;
        v := v / 256;
        assert codeBase[at + k + 1..] == before[at + k..][1..];
      }
    }
  }

  /** There is room for `n` more bytes if they are going to be stored. */
  ghost predicate Room(a: Asm, n: nat)
    reads a
  {
    a.pass.Emit? ==> a.codeOffset + n <= a.codeSize
  }
}
