/** The Thumb target: branch and constant encodings, how the processor reads them, and
    for which displacements the two agree.  The program counter an instruction sees is
    four bytes ahead of it. */
module AsmThumb {
  import opened Basics
  import opened AsmBase

  type Half = h: int | 0 <= h < 0x1_0000
  type Reg = r: nat | r < 15
  /** Conditions 14 and 15 are not branch conditions. */
  type Cond = c: nat | c < 14
  type Bits32 = x: nat | x < 0x1_0000_0000

  datatype Instr =
    | Op16(op: Half)
    | Op32(hi: Half, lo: Half)
    | MovImm(reg: Reg, imm: Bits32)
    | MovImmAligned(reg: Reg, imm: Bits32)
    | B(id: nat)
    | Bcc(cc: Cond, id: nat)
    | BNarrow(id: nat)
    | BccExact(cc: Cond, id: nat, wide: bool)
    | Bl(id: nat)

  // ----- what the emitters write -----

  function HalfBytes(h: Half): (bs: seq<byte>)
    ensures |bs| == 2
  {
    [h % 256, h / 256]
  }

  /** The `SIGNED_FIT` tests: all bits of the 32-bit value from the mask up are equal. */
  predicate SignedFit(x: int, unit: nat)
    requires unit == 0x100 || unit == 0x800 || unit == 0x40_0000
  {
    var masked := x % 0x1_0000_0000 - x % unit;
    masked == 0 || masked == 0x1_0000_0000 - unit
  }

  /** On 32 bits the masks take away the remainder. */
  lemma FitMask9(w: bv32)
    ensures w & 0xffff_ff00 == w - w % 0x100
  {
  }

  lemma FitMask12(w: bv32)
    ensures w & 0xffff_f800 == w - w % 0x800
  {
  }

  lemma FitMask23(w: bv32)
    ensures w & 0xffc0_0000 == w - w % 0x40_0000
  {
  }

  /** The shifts and masks of the encodings are quotients and remainders. */
  lemma FieldShifts(w: bv32)
    ensures (w >> 1) & 0x7ff == w / 2 % 0x800 && (w >> 1) & 0xff == w / 2 % 0x100
    ensures (w >> 12) & 0x7ff == w / 0x1000 % 0x800
  {
  }

  function NarrowB(rel: int): Half {
    0xe000 + rel / 2 % 0x800
  }

  function NarrowBcc(cc: Cond, rel: int): Half {
    0xd000 + 0x100 * cc + rel / 2 % 0x100
  }

  function WideBHi(rel: int): Half {
    0xf000 + rel / 0x1000 % 0x800
  }

  function WideBLo(rel: int): Half {
    0xb800 + rel / 2 % 0x800
  }

  function BlLo(rel: int): Half {
    0xf800 + rel / 2 % 0x800
  }

  function WideBccHi(cc: Cond, rel: int): Half {
    0xf000 + 0x40 * cc + 0x400 * (rel / 0x10_0000 % 2) + rel / 0x4000 % 0x40
  }

  function WideBccLo(rel: int): Half {
    0x8000 + 0x2000 * (rel / 0x2000 % 2) + rel / 2 % 0x1000
  }

  const MOVW: Half := 0xf240
  const MOVT: Half := 0xf2c0
  const NOP: Half := 0xbf00

  function MovHalf(op: Half, reg: Reg, imm: Bits32): seq<byte>
    requires op == MOVW || op == MOVT
  {
    HalfBytes(op + 0x400 * (imm / 0x800 % 2) + imm / 0x1000 % 0x10)
    + HalfBytes(0x1000 * (imm / 0x100 % 8) + 0x100 * reg + imm % 0x100)
  }

  function Mov(reg: Reg, imm: Bits32): seq<byte> {
    if reg < 8 && imm < 0x100 then HalfBytes(0x2000 + 0x100 * reg + imm)
    else if imm < 0x1_0000 then MovHalf(MOVW, reg, imm)
    else MovHalf(MOVW, reg, imm) + MovHalf(MOVT, reg, imm / 0x1_0000)
  }

  function Encode(i: Instr, off: nat, labels: seq<int>): (bs: seq<byte>) {
    match i
    case Op16(op) => HalfBytes(op)
    case Op32(hi, lo) => HalfBytes(hi) + HalfBytes(lo)
    case MovImm(reg, imm) => Mov(reg, imm)
    case MovImmAligned(reg, imm) =>
      (if off % 4 == 0 then HalfBytes(NOP) else []) + HalfBytes(NarrowB(2)) + LittleEndian(4, imm) + Mov(reg, imm)
    case B(id) =>
      var dest := LabelDest(labels, id);
      var rel := dest - off - 4;
      if dest != UNASSIGNED && rel <= -4 && SignedFit(rel, 0x800) then HalfBytes(NarrowB(rel))
      else HalfBytes(WideBHi(rel)) + HalfBytes(WideBLo(rel))
    case Bcc(cc, id) =>
      var dest := LabelDest(labels, id);
      var rel := dest - off - 4;
      if dest != UNASSIGNED && rel <= -4 && SignedFit(rel, 0x100) then HalfBytes(NarrowBcc(cc, rel))
      else HalfBytes(WideBccHi(cc, rel)) + HalfBytes(WideBccLo(rel))
    case BNarrow(id) => HalfBytes(NarrowB(LabelDest(labels, id) - off - 4))
    case BccExact(cc, id, wide) =>
      var rel := LabelDest(labels, id) - off - 4;
      if wide then HalfBytes(WideBccHi(cc, rel)) + HalfBytes(WideBccLo(rel)) else HalfBytes(NarrowBcc(cc, rel))
    case Bl(id) =>
      var rel := LabelDest(labels, id) - off - 4;
      HalfBytes(WideBHi(rel)) + HalfBytes(BlLo(rel))
  }

  /** How long each instruction is: branches are narrow only to a label that is known, lies
      behind and is near, and constants take the shortest of three forms. */
  lemma Sizes(i: Instr, off: nat, labels: seq<int>)
    requires off < CODE_LIMIT && forall k :: 0 <= k < |labels| ==> -1 <= labels[k] < CODE_LIMIT
    ensures var n := |Encode(i, off, labels)|;
            match i
            case Op16(_) => n == 2
            case Op32(_, _) => n == 4
            case MovImm(reg, imm) => n == MovSize(reg, imm)
            case MovImmAligned(reg, imm) => n == MovSize(reg, imm) + if off % 4 == 0 then 8 else 6
            case B(id) => n == if NearBehind(off, labels, id, 0x800) then 2 else 4
            case Bcc(_, id) => n == if NearBehind(off, labels, id, 0x100) then 2 else 4
            case BNarrow(_) => n == 2
            case BccExact(_, _, wide) => n == if wide then 4 else 2
            case Bl(_) => n == 4
  {
    match i
    case B(id) => NearBehindFits(off, labels, id, 0x800);
    case Bcc(_, id) => NearBehindFits(off, labels, id, 0x100);
    case _ =>
  }

  function MovSize(reg: Reg, imm: Bits32): nat {
    if reg < 8 && imm < 0x100 then 2 else if imm < 0x1_0000 then 4 else 8
  }

  /** The label is known, not ahead of the branch at `off`, and at most `reach` bytes behind
      what the branch takes for its own place. */
  predicate NearBehind(off: nat, labels: seq<int>, id: nat, reach: nat) {
    id < |labels| && labels[id] != -1 && off + 4 - reach <= labels[id] <= off
  }

  lemma NearBehindFits(off: nat, labels: seq<int>, id: nat, reach: nat)
    requires reach == 0x800 || reach == 0x100
    requires off < CODE_LIMIT && forall k :: 0 <= k < |labels| ==> -1 <= labels[k] < CODE_LIMIT
    ensures var dest := LabelDest(labels, id);
            var rel := dest - off - 4;
            NearBehind(off, labels, id, reach) <==> dest != UNASSIGNED && rel <= -4 && SignedFit(rel, reach)
  {
    var x := LabelDest(labels, id) - off - 4;
    if x <= -4 {
      assert x % 0x1_0000_0000 == x + 0x1_0000_0000;
    }
  }

  /** Encodings as the processor's manual gives them. */
  lemma KnownMoveBytes(off: nat)
    ensures Encode(MovImm(3, 0x41), off, []) == [0x41, 0x23]
    ensures Encode(MovImm(9, 0x41), off, []) == [0x40, 0xf2, 0x41, 0x09]
    ensures Encode(MovImm(0, 0x1f34), off, []) == [0x41, 0xf6, 0x34, 0x70]
  {
  }

  lemma KnownWideMoveBytes(off: nat)
    ensures Encode(MovImm(1, 0x12345678), off, []) == [0x45, 0xf2, 0x78, 0x61, 0xc1, 0xf2, 0x34, 0x21]
  {
  }

  lemma KnownAlignedBytes()
    ensures Encode(MovImmAligned(2, 0x7f), 0, []) == [0x00, 0xbf, 0x01, 0xe0, 0x7f, 0x00, 0x00, 0x00, 0x7f, 0x22]
  {
    assert LittleEndian(3, 0) == [0] + LittleEndian(2, 0);
    assert LittleEndian(2, 0) == [0] + LittleEndian(1, 0);
    assert LittleEndian(1, 0) == [0] + LittleEndian(0, 0);
    assert LittleEndian(4, 0x7f) == [0x7f, 0, 0, 0];
    assert Mov(2, 0x7f) == [0x7f, 0x22];
    assert HalfBytes(NarrowB(2)) == [0x01, 0xe0];
  }

  lemma KnownBackBytes()
    ensures Encode(B(0), 0, [0]) == [0xfe, 0xe7] && Encode(Bcc(1, 0), 2, [0]) == [0xfd, 0xd1]
    ensures Encode(Bl(0), 0, [0]) == [0xff, 0xf7, 0xfe, 0xff]
  {
  }

  lemma KnownAheadBytes()
    ensures Encode(B(0), 0, [0x104]) == [0x00, 0xf0, 0x80, 0xb8]
    ensures Encode(Bcc(1, 0), 0, [0x104]) == [0x40, 0xf0, 0x80, 0x80]
    ensures Encode(BNarrow(0), 0, [0x104]) == [0x80, 0xe0]
    ensures Encode(Bl(0), 0, [0x1104]) == [0x01, 0xf0, 0x80, 0xf8]
  {
  }

  predicate Allowed(i: Instr, maxLabels: nat) {
    (i.B? || i.Bcc? || i.BNarrow? || i.BccExact? || i.Bl?) ==> i.id < maxLabels
  }

  /** The two passes may choose between narrow and wide forms independently. */
  lemma EncodeStable()
    ensures Stable(Encode)
  {
    forall i: Instr, off: nat, now: seq<int>, later: seq<int> ensures StableFor(Encode, i, off, now, later) {
      hide NarrowB, NarrowBcc, WideBHi, WideBLo, WideBccHi, WideBccLo, BlLo, Mov;
      if Extends(now, later, off, |Encode(i, off, now)|) {
        match i
        case B(id) =>
        case Bcc(cc, id) =>
        case _ =>
      }
    }
  }

  // ----- how the processor reads it -----

  datatype Link = Plain | When(cc: Cond) | AndLink

  /** A branch: its kind, its displacement from the program counter, its length. */
  datatype Branch = Branch(link: Link, disp: int, len: nat)

  function HalfAt(s: seq<byte>, at: nat): (h: Half)
    requires at + 2 <= |s|
  {
    var low: int, high: int := s[at], s[at + 1];
    low + 0x100 * high
  }

  /** `SignExtend(S:field:0)` for a field whose weight without `S` is below `sign`. */
  function SignExtend(s: nat, sign: nat, field: nat): int {
    field - s * sign
  }

  /** The branch at the front of `s`, if it is one. */
  function DecodeBranch(s: seq<byte>): Option<Branch> {
    if |s| < 2 then None else
      var hi := HalfAt(s, 0);
      if hi / 0x800 == 0x1c then
        Some(Branch(Plain, SignExtend(hi / 0x400 % 2, 0x800, hi % 0x400 * 2), 2))
      else if hi / 0x1000 == 0xd && hi / 0x100 % 0x10 < 14 then
        Some(Branch(When(hi / 0x100 % 0x10), SignExtend(hi / 0x80 % 2, 0x100, hi % 0x80 * 2), 2))
      else if hi / 0x800 == 0x1e && |s| >= 4 then
        var lo := HalfAt(s, 2);
        var sbit, j1, j2 := hi / 0x400 % 2, lo / 0x2000 % 2, lo / 0x800 % 2;
        var i1, i2 := if j1 == sbit then 1 else 0, if j2 == sbit then 1 else 0;
        var far := SignExtend(sbit, 0x100_0000, i1 * 0x80_0000 + i2 * 0x40_0000 + hi % 0x400 * 0x1000 + lo % 0x800 * 2);
        if lo / 0x4000 == 2 && lo / 0x1000 % 2 == 1 then Some(Branch(Plain, far, 4))
        else if lo / 0x4000 == 3 && lo / 0x1000 % 2 == 1 then Some(Branch(AndLink, far, 4))
        else if lo / 0x4000 == 2 && hi / 0x40 % 0x10 < 14 then
          var near := SignExtend(sbit, 0x10_0000, j2 * 0x8_0000 + j1 * 0x4_0000 + hi % 0x40 * 0x1000 + lo % 0x800 * 2);
          Some(Branch(When(hi / 0x40 % 0x10), near, 4))
        else None
      else None
  }

  // ----- displacement ranges -----

  predicate NarrowBReaches(rel: int) {
    rel % 2 == 0 && -0x800 <= rel < 0x800
  }

  predicate NarrowBccReaches(rel: int) {
    rel % 2 == 0 && -0x100 <= rel < 0x100
  }

  predicate WideBReaches(rel: int) {
    rel % 2 == 0 && -0x40_0000 <= rel < 0x40_0000
  }

  /** The conditional wide form puts displacement bits 14 to 19 into the field for bits
      12 to 17 and bits 12 and 13 into those for 19 and 18, so it needs bits 12 to 19 to
      be all alike. */
  predicate WideBccReaches(rel: int) {
    rel % 2 == 0 &&
    (-0x1000 <= rel < 0x1000 || 0x10_0000 - 0x1000 <= rel < 0x10_0000 || -0x10_0000 <= rel < -0x10_0000 + 0x1000)
  }

  lemma HalfRoundTrip(a: Half, b: Half, rest: seq<byte>)
    ensures HalfAt(HalfBytes(a) + rest, 0) == a
    ensures HalfAt(HalfBytes(a) + HalfBytes(b) + rest, 0) == a && HalfAt(HalfBytes(a) + HalfBytes(b) + rest, 2) == b
  {
  }

  lemma NarrowDecodes(hi: Half, rest: seq<byte>)
    ensures hi / 0x800 == 0x1c ==>
              DecodeBranch(HalfBytes(hi) + rest) == Some(Branch(Plain, hi % 0x400 * 2 - 0x800 * (hi / 0x400 % 2), 2))
    ensures hi / 0x1000 == 0xd && hi / 0x100 % 0x10 < 14 ==>
              DecodeBranch(HalfBytes(hi) + rest)
              == Some(Branch(When(hi / 0x100 % 0x10), hi % 0x80 * 2 - 0x100 * (hi / 0x80 % 2), 2))
  {
    HalfRoundTrip(hi, 0, rest);
    hide HalfBytes, HalfAt;
    assert hi / 0x1000 == 0xd ==> hi / 0x800 != 0x1c;
  }

  /** Halving, keeping `2 * top / 2` of the values and sign extending again. */
  lemma NarrowWindow(rel: int, f: int)
    ensures f == rel / 2 % 0x800 ==>
              (rel == (if f < 0x400 then 2 * f else 2 * f - 0x1000) <==> NarrowBReaches(rel))
    ensures f == rel / 2 % 0x100 ==>
              (rel == (if f < 0x80 then 2 * f else 2 * f - 0x200) <==> NarrowBccReaches(rel))
  {
    var h := rel / 2;
    assert rel == 2 * h + rel % 2;
    assert NarrowBReaches(rel) <==> rel % 2 == 0 && -0x400 <= h < 0x400;
    assert NarrowBccReaches(rel) <==> rel % 2 == 0 && -0x80 <= h < 0x80;
  }

  lemma NarrowBFields(f: nat)
    requires f < 0x800
    ensures var hi := 0xe000 + f;
            && hi / 0x800 == 0x1c
            && hi % 0x400 * 2 - 0x800 * (hi / 0x400 % 2) == if f < 0x400 then 2 * f else 2 * f - 0x1000
  {
  }

  lemma NarrowBccFields(f: nat, cc: Cond)
    requires f < 0x100
    ensures var hi := 0xd000 + 0x100 * cc + f;
            && hi / 0x1000 == 0xd && hi / 0x100 % 0x10 == cc
            && hi % 0x80 * 2 - 0x100 * (hi / 0x80 % 2) == if f < 0x80 then 2 * f else 2 * f - 0x200
  {
    var hi := 0xd000 + 0x100 * cc + f;
    assert hi / 0x100 == 0xd0 + cc;
    assert hi / 0x80 == 0x1a0 + 2 * cc + f / 0x80;
  }

  lemma NarrowBRoundTrip(rel: int, rest: seq<byte>)
    ensures DecodeBranch(HalfBytes(NarrowB(rel)) + rest) == Some(Branch(Plain, rel, 2)) <==> NarrowBReaches(rel)
  {
    hide DecodeBranch, HalfBytes, NarrowBReaches;
    NarrowBFields(rel / 2 % 0x800);
    NarrowDecodes(NarrowB(rel), rest);
    NarrowWindow(rel, rel / 2 % 0x800);
  }

  lemma NarrowBccRoundTrip(cc: Cond, rel: int, rest: seq<byte>)
    ensures DecodeBranch(HalfBytes(NarrowBcc(cc, rel)) + rest) == Some(Branch(When(cc), rel, 2))
            <==> NarrowBccReaches(rel)
  {
    hide DecodeBranch, HalfBytes, NarrowBccReaches;
    NarrowBccFields(rel / 2 % 0x100, cc);
    NarrowDecodes(NarrowBcc(cc, rel), rest);
    NarrowWindow(rel, rel / 2 % 0x100);
  }

  /** Where the halves of a displacement's low part end up. */
  lemma LowPart(rel: int)
    ensures var a, low := rel / 0x1000, rel % 0x1000;
            && rel == 0x1000 * a + low
            && rel / 2 % 0x800 * 2 == low - low % 2
            && rel / 2 % 0x1000 == 0x800 * (a % 2) + low / 2
  {
    var a, low := rel / 0x1000, rel % 0x1000;
    assert rel == 0x1000 * a + low;
    assert rel / 2 == 0x800 * a + low / 2;
    assert a == 2 * (a / 2) + a % 2;
    assert rel / 2 == 0x1000 * (a / 2) + 0x800 * (a % 2) + low / 2;
  }

  /** Displacement as the decoder computes it from the two halves of the far form. */
  lemma FarDisplacement(rel: int)
    ensures var a, low := rel / 0x1000, rel % 0x1000;
            var sbit := a / 0x400 % 2;
            WideBHi(rel) / 0x400 % 2 == sbit && WideBHi(rel) % 0x400 == a % 0x400 && WideBHi(rel) / 0x800 == 0x1e
            && WideBLo(rel) % 0x800 * 2 == low - low % 2 && BlLo(rel) % 0x800 * 2 == low - low % 2
            && (a == a % 0x400 - 0x400 * sbit <==> -0x400 <= a < 0x400)
  {
    LowPart(rel);
    SplitField(rel / 0x1000);
    FieldBehindSign(rel / 0x1000 / 0x400 % 2, rel / 0x1000 % 0x400);
    FieldAlone(rel / 2 % 0x800);
  }

  lemma SplitField(a: int)
    ensures a % 0x800 == 0x400 * (a / 0x400 % 2) + a % 0x400
    ensures a == a % 0x400 - 0x400 * (a / 0x400 % 2) <==> -0x400 <= a < 0x400
  {
    var top := a / 0x400;
    assert a == 0x400 * top + a % 0x400;
    assert a == 0x800 * (top / 2) + 0x400 * (top % 2) + a % 0x400;
  }

  lemma FieldBehindSign(sbit: nat, field: nat)
    requires sbit < 2 && field < 0x400
    ensures var hi := 0xf000 + 0x400 * sbit + field;
            hi / 0x800 == 0x1e && hi / 0x400 % 2 == sbit && hi % 0x400 == field
  {
  }

  lemma FieldAlone(field: nat)
    requires field < 0x800
    ensures (0xb800 + field) % 0x800 == field && (0xf800 + field) % 0x800 == field
  {
  }

  /** The far forms differ in bits 12 and up of the second half only. */
  lemma FarDecodes(hi: Half, lo: Half, rest: seq<byte>)
    requires hi / 0x800 == 0x1e && (lo / 0x800 == 0x17 || lo / 0x800 == 0x1f)
    ensures DecodeBranch(HalfBytes(hi) + HalfBytes(lo) + rest)
            == Some(Branch(if lo / 0x800 == 0x17 then Plain else AndLink,
                           hi % 0x400 * 0x1000 + lo % 0x800 * 2 - 0x40_0000 * (hi / 0x400 % 2), 4))
  {
    HalfRoundTrip(hi, lo, rest);
    hide HalfBytes, HalfAt;
    assert lo / 0x2000 % 2 == 1 && lo / 0x1000 % 2 == 1;
  }

  lemma WideBRoundTrip(rel: int, rest: seq<byte>)
    ensures DecodeBranch(HalfBytes(WideBHi(rel)) + HalfBytes(WideBLo(rel)) + rest) == Some(Branch(Plain, rel, 4))
            <==> WideBReaches(rel)
    ensures DecodeBranch(HalfBytes(WideBHi(rel)) + HalfBytes(BlLo(rel)) + rest) == Some(Branch(AndLink, rel, 4))
            <==> WideBReaches(rel)
  {
    hide DecodeBranch, HalfBytes;
    FarDisplacement(rel);
    assert WideBLo(rel) / 0x800 == 0x17 && BlLo(rel) / 0x800 == 0x1f;
    FarDecodes(WideBHi(rel), WideBLo(rel), rest);
    FarDecodes(WideBHi(rel), BlLo(rel), rest);
    hide WideBHi, WideBLo, BlLo;
    var a, low := rel / 0x1000, rel % 0x1000;
    assert rel == 0x1000 * a + low;
    assert WideBReaches(rel) <==> low % 2 == 0 && -0x400 <= a < 0x400;
  }

  /** The conditional wide form is read back as written exactly in the three windows. */
  lemma WideBccRoundTrip(cc: Cond, rel: int, rest: seq<byte>)
    ensures DecodeBranch(HalfBytes(WideBccHi(cc, rel)) + HalfBytes(WideBccLo(rel)) + rest)
            == Some(Branch(When(cc), rel, 4))
            <==> WideBccReaches(rel)
  {
    hide DecodeBranch, HalfBytes, WideBccHi, WideBccLo, WideBccReaches;
    var a, low := rel / 0x1000, rel % 0x1000;
    NearDisplacement(cc, rel);
    NearDecodes(WideBccHi(cc, rel), WideBccLo(rel), cc, rest);
    NearWindows(a);
    WindowsApart(rel);
    assert rel == 0x1000 * a + low;
  }

  lemma NearDecodes(hi: Half, lo: Half, cc: Cond, rest: seq<byte>)
    requires hi / 0x800 == 0x1e && hi / 0x40 % 0x10 == cc && lo / 0x4000 == 2 && lo / 0x1000 % 2 == 0
    ensures DecodeBranch(HalfBytes(hi) + HalfBytes(lo) + rest)
            == Some(Branch(When(cc), lo / 0x800 % 2 * 0x8_0000 + lo / 0x2000 % 2 * 0x4_0000 + hi % 0x40 * 0x1000
                                     + lo % 0x800 * 2 - hi / 0x400 % 2 * 0x10_0000, 4))
  {
    HalfRoundTrip(hi, lo, rest);
    hide HalfBytes, HalfAt;
  }

  lemma WindowsApart(rel: int)
    ensures var a, low := rel / 0x1000, rel % 0x1000;
            WideBccReaches(rel) <==> low % 2 == 0 && (a == 0 || a == -1 || a == 0xff || a == -0x100)
  {
    var a, low := rel / 0x1000, rel % 0x1000;
    assert rel == 0x1000 * a + low;
  }

  lemma NearDisplacement(cc: Cond, rel: int)
    ensures var a, low := rel / 0x1000, rel % 0x1000;
            var hi, lo := WideBccHi(cc, rel), WideBccLo(rel);
            && hi / 0x800 == 0x1e && hi / 0x400 % 2 == a / 0x100 % 2 && hi % 0x40 == a / 4 % 0x40
            && hi / 0x40 % 0x10 == cc
            && lo / 0x4000 == 2 && lo / 0x1000 % 2 == 0
            && lo / 0x2000 % 2 == a / 2 % 2 && lo / 0x800 % 2 == a % 2 && lo % 0x800 * 2 == low - low % 2
  {
    var a, low := rel / 0x1000, rel % 0x1000;
    LowPart(rel);
    assert rel / 0x10_0000 == a / 0x100 && rel / 0x4000 == a / 4 && rel / 0x2000 == a / 2;
    NearHi(cc, a / 0x100 % 2, a / 4 % 0x40);
    NearLo(a / 2 % 2, a % 2, low / 2);
  }

  lemma NearHi(cc: Cond, sbit: nat, imm6: nat)
    requires sbit < 2 && imm6 < 0x40
    ensures var hi := 0xf000 + 0x40 * cc + 0x400 * sbit + imm6;
            hi / 0x800 == 0x1e && hi / 0x400 % 2 == sbit && hi % 0x40 == imm6 && hi / 0x40 % 0x10 == cc
  {
    var hi := 0xf000 + 0x40 * cc + 0x400 * sbit + imm6;
    assert hi / 0x40 == 0x3c0 + 0x10 * sbit + cc;
    assert hi / 0x400 == 0x3c + sbit;
  }

  lemma NearLo(b13: nat, b12: nat, half: nat)
    requires b13 < 2 && b12 < 2 && half < 0x800
    ensures var lo := 0x8000 + 0x2000 * b13 + (0x800 * b12 + half);
            && lo / 0x4000 == 2 && lo / 0x1000 % 2 == 0
            && lo / 0x2000 % 2 == b13 && lo / 0x800 % 2 == b12 && lo % 0x800 == half
  {
    var lo := 0x8000 + 0x2000 * b13 + (0x800 * b12 + half);
    assert lo / 0x800 == 0x10 + 4 * b13 + b12;
    assert lo / 0x1000 == 8 + 2 * b13;
    assert lo / 0x2000 == 4 + b13;
  }

  /** Reading the shuffled bits gives the original back for four values of the part
      above bit 11 only. */
  lemma NearWindows(a: int)
    ensures a == 0x80 * (a % 2) + 0x40 * (a / 2 % 2) + a / 4 % 0x40 - 0x100 * (a / 0x100 % 2)
            <==> a == 0 || a == -1 || a == 0xff || a == -0x100
  {
    var top, imm, b13, b12 := a / 0x100, a / 4 % 0x40, a / 2 % 2, a % 2;
    assert a / 4 == 0x40 * top + imm;
    assert a / 2 == 2 * (a / 4) + b13;
    NearDigits(top, top % 2, imm, b13, b12);
  }

  /** The same about the digits of `a`: bits 0, 1, 2 to 7, and the rest. */
  lemma NearDigits(top: int, sbit: int, imm: int, b13: int, b12: int)
    requires 0 <= imm < 0x40 && 0 <= b13 < 2 && 0 <= b12 < 2 && 0 <= sbit < 2
             && (top == 0 || top == -1 ==> sbit == -top)
    ensures var a := 0x100 * top + 4 * imm + 2 * b13 + b12;
            a == 0x80 * b12 + 0x40 * b13 + imm - 0x100 * sbit <==> a == 0 || a == -1 || a == 0xff || a == -0x100
  {
    var a := 0x100 * top + 4 * imm + 2 * b13 + b12;
    if a == 0x80 * b12 + 0x40 * b13 + imm - 0x100 * sbit {
      assert top + sbit == 0;
      assert 3 * imm == 62 * b13 + 127 * b12;
    }
  }

  /** What a sequence of constant moves leaves in the register it writes. */
  function Loaded(s: seq<byte>, reg: Reg): Option<int> {
    if |s| == 2 then
      var h := HalfAt(s, 0);
      if h / 0x100 == 0x20 + reg && reg < 8 then Some(h % 0x100) else None
    else if |s| == 4 then LoadedHalf(s, MOVW, reg)
    else if |s| == 8 then
      match (LoadedHalf(s[..4], MOVW, reg), LoadedHalf(s[4..], MOVT, reg))
      case (Some(low), Some(high)) => Some(low + 0x1_0000 * high)
      case _ => None
    else None
  }

  /** The 16-bit constant of a `movw` or `movt`: imm4:i:imm3:imm8. */
  function LoadedHalf(s: seq<byte>, op: Half, reg: Reg): Option<int>
    requires |s| == 4
  {
    var hi, lo := HalfAt(s, 0), HalfAt(s, 2);
    if hi - hi % 0x10 - 0x400 * (hi / 0x400 % 2) == op && lo / 0x8000 == 0 && lo / 0x100 % 0x10 == reg then
      Some(hi % 0x10 * 0x1000 + hi / 0x400 % 2 * 0x800 + lo / 0x1000 % 8 * 0x100 + lo % 0x100)
    else None
  }

  lemma MovHalfRoundTrip(op: Half, reg: Reg, imm: Bits32)
    requires op == MOVW || op == MOVT
    ensures |MovHalf(op, reg, imm)| == 4
    ensures LoadedHalf(MovHalf(op, reg, imm), op, reg) == Some(imm % 0x1_0000)
  {
    var i, imm4, imm3, imm8 := imm / 0x800 % 2, imm / 0x1000 % 0x10, imm / 0x100 % 8, imm % 0x100;
    var hi, lo := op + 0x400 * i + imm4, 0x1000 * imm3 + 0x100 * reg + imm8;
    HalfRoundTrip(hi, lo, []);
    assert HalfBytes(hi) + HalfBytes(lo) + [] == MovHalf(op, reg, imm);
    hide HalfBytes, HalfAt, MovHalf;
    MovFields(op, i, imm4, imm3, reg, imm8);
    ImmDigits(imm);
  }

  lemma ImmDigits(imm: nat)
    ensures imm % 0x1_0000
            == imm / 0x1000 % 0x10 * 0x1000 + imm / 0x800 % 2 * 0x800 + imm / 0x100 % 8 * 0x100 + imm % 0x100
  {
    var d1 := imm / 0x100;
    var d2 := d1 / 8;
    var d3 := d2 / 2;
    assert imm / 0x800 == d2 && imm / 0x1000 == d3;
    assert imm == imm % 0x100 + 0x100 * (d1 % 8) + 0x800 * (d2 % 2) + 0x1000 * d3;
    assert d3 == d3 % 0x10 + 0x10 * (d3 / 0x10);
  }

  lemma MovFields(op: Half, i: nat, imm4: nat, imm3: nat, reg: Reg, imm8: nat)
    requires (op == MOVW || op == MOVT) && i < 2 && imm4 < 0x10 && imm3 < 8 && imm8 < 0x100
    ensures var hi, lo := op + 0x400 * i + imm4, 0x1000 * imm3 + 0x100 * reg + imm8;
            && hi % 0x10 == imm4 && hi / 0x400 % 2 == i
            && lo / 0x8000 == 0 && lo / 0x1000 == imm3 && lo / 0x100 % 0x10 == reg && lo % 0x100 == imm8
  {
    var lo := 0x1000 * imm3 + 0x100 * reg + imm8;
    assert lo / 0x100 == 0x10 * imm3 + reg;
  }

  /** A constant move, whichever of the three forms was chosen, loads the constant. */
  lemma MovLoads(reg: Reg, imm: Bits32)
    ensures Loaded(Mov(reg, imm), reg) == Some(imm)
  {
    hide LoadedHalf, MovHalf;
    if reg < 8 && imm < 0x100 {
      HalfRoundTrip(0x2000 + 0x100 * reg + imm, 0, []);
      assert HalfBytes(0x2000 + 0x100 * reg + imm) + [] == Mov(reg, imm);
    } else if imm < 0x1_0000 {
      MovHalfRoundTrip(MOVW, reg, imm);
    } else {
      MovHalfRoundTrip(MOVW, reg, imm);
      MovHalfRoundTrip(MOVT, reg, imm / 0x1_0000);
      assert Mov(reg, imm)[..4] == MovHalf(MOVW, reg, imm);
      assert Mov(reg, imm)[4..] == MovHalf(MOVT, reg, imm / 0x1_0000);
    }
  }
}
