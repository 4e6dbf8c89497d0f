/** The WebSocket reader as a machine on its fields: what one read returns for any answers
    of the network, what it leaves owed, and when it hands over bytes that are not data. */
module WebSocketMachine {
  import opened Basics
  import opened WebSocketFrames

  datatype ReadResult = Data(bytes: seq<byte>) | End | Error

  /** How the network answers one read. */
  datatype Answer = WouldBlock | AtEnd | Upto(limit: nat)

  datatype Receipt = Receipt(r: ReadResult, left: seq<Answer>)

  /** A socket with `incoming` on its way is asked for `n` bytes.  The answers say how much
      each read is given; every way of splitting the stream is a sequence of answers. */
  function Receive(incoming: seq<byte>, answers: seq<Answer>, n: nat): (g: Receipt)
    ensures g.r.Data? ==> 0 < |g.r.bytes| <= n && |g.r.bytes| <= |incoming| && g.r.bytes == incoming[..|g.r.bytes|]
    ensures |g.left| <= |answers| && (g.r.Data? ==> |g.left| < |answers|)
  {
    if answers == [] then Receipt(Error, [])
    else
      var left := answers[1..];
      match answers[0]
      case WouldBlock => Receipt(Error, left)
      case AtEnd => Receipt(End, left)
      case Upto(k) =>
        var m := Least(Least(k, n), |incoming|);
        if m == 0 then Receipt(End, left) else Receipt(Data(incoming[..m]), left)
  }

  function Least(a: nat, b: nat): nat { if a < b then a else b }

  datatype State = FrameHeader | FrameOpt | Payload | Control

  /** The reader's fields as a value, together with the bytes still on their way.
      `filled` is the used part of the header buffer. */
  datatype View = View(state: State, toRecv: nat, filled: seq<byte>, mask: seq<byte>, maskPos: nat,
                       msgSz: nat, lastFlags: byte, incoming: seq<byte>)

  const NO_MASK: seq<byte> := [0, 0, 0, 0]

  function DataState(flags: byte): (s: State)
    ensures s == Control || s == Payload
  {
    if OpcodeOf(flags) >= FRAME_CLOSE then Control else Payload
  }

  ghost predicate AgreesAtHeader(v: View) {
    v.state == FrameHeader && |v.filled| + v.toRecv == 2 && v.maskPos == 0
  }

  ghost predicate AgreesInOpt(v: View, f: Frame)
    requires f.Legal()
  {
    && v.state == FrameOpt && |v.filled| + v.toRecv == |f.Opt()| && |f.Opt()| > 0 && v.maskPos == 0
    && v.lastFlags == f.flags && (!f.long ==> v.msgSz == |f.wire|) && (!f.masked ==> v.mask == NO_MASK)
  }

  ghost predicate AgreesInPayload(v: View, f: Frame, done: nat) {
    && v.state == DataState(f.flags) && v.filled == [] && v.toRecv == 0
    && v.msgSz + done == |f.wire| && v.maskPos == done % 256 && v.mask == f.Key() && v.lastFlags == f.flags
  }

  /** The fields and the bytes on their way say the same as the position. */
  ghost predicate Agrees(v: View, at: Position) {
    && at.Legal() && |v.filled| + v.toRecv <= 6 && v.filled + v.incoming == at.Coming()
    && match at
       case AtHeader(_) => AgreesAtHeader(v)
       case InOpt(f, _) => AgreesInOpt(v, f)
       case InPayload(f, done, _) => AgreesInPayload(v, f, done)
  }

  /** The reader after the first two bytes of a header. */
  function HeaderRead(v: View): View
    requires |v.filled| == 2
  {
    var sz := ShortLength(v.filled[1]);
    var more := (if sz == 126 then 2 else 0) + (if HasKey(v.filled[1]) then 4 else 0);
    View(if more != 0 then FrameOpt else DataState(v.filled[0]), more,
         [], NO_MASK, v.maskPos, sz, v.filled[0], v.incoming)
  }

  function HeaderMoves(fs: seq<Frame>): Position
    requires AllLegal(fs) && fs != []
  {
    if fs[0].Opt() == [] then InPayload(fs[0], 0, fs[1..]) else InOpt(fs[0], fs[1..])
  }

  lemma KeyUnmasked(f: Frame)
    ensures !f.masked ==> f.Key() == NO_MASK
  {
  }

  lemma HeaderAgrees(v: View, fs: seq<Frame>)
    requires Agrees(v, AtHeader(fs)) && v.toRecv == 0
    ensures fs != [] && Agrees(HeaderRead(v), HeaderMoves(fs))
    ensures HeaderMoves(fs).InOpt? ==> HeaderRead(v).toRecv > 0
    ensures HeaderMoves(fs).Owed() == DataAll(fs)
  {
    hide Frame.Second, EncodeAll, DataAll, Frame.Data, Frame.Opt, ShortLength, HasKey, DataState, Position.Owed;
    hide Frame.Key, Frame.Shaped, OpcodeOf, HeaderRead;
    assert v.filled == [v.filled[0], v.filled[1]];
    HeaderParsed(v.filled[0], v.filled[1], v.incoming, fs);
    HeaderReadIs(v, fs[0]);
    KeyUnmasked(fs[0]);
    assert [] + v.incoming == v.incoming;
  }

  lemma HeaderReadIs(v: View, f: Frame)
    requires |v.filled| == 2 && v.filled[0] == f.flags && f.Shaped()
    requires ShortLength(v.filled[1]) == (if f.long then 126 else |f.wire|) && (HasKey(v.filled[1]) <==> f.masked)
    ensures var more := (if f.long then 2 else 0) + (if f.masked then 4 else 0);
            HeaderRead(v) == View(if more != 0 then FrameOpt else DataState(f.flags), more, [], NO_MASK, v.maskPos,
                                  if f.long then 126 else |f.wire|, f.flags, v.incoming)
  {
    hide ShortLength, HasKey, DataState;
  }

  /** The reader after the rest of a header: the long length comes first, the key last. */
  function OptRead(v: View): View
    requires |v.filled| in {2, 4, 6}
  {
    v.(filled := [],
       msgSz := if |v.filled| % 4 == 2 then BigEndian(v.filled[0], v.filled[1]) else v.msgSz,
       mask := if |v.filled| >= 4 then v.filled[|v.filled| - 4..] else v.mask,
       state := DataState(v.lastFlags))
  }

  lemma OptAgrees(v: View, f: Frame, fs: seq<Frame>)
    requires Agrees(v, InOpt(f, fs)) && v.toRecv == 0
    ensures |v.filled| in {2, 4, 6} && Agrees(OptRead(v), InPayload(f, 0, fs))
    ensures InPayload(f, 0, fs).Owed() == InOpt(f, fs).Owed()
  {
    OptParsed(f, v.filled, v.incoming, fs);
    hide Frame.Second, EncodeAll, DataAll, Frame.Data, Frame.Opt, LengthBytes, BigEndian, Position.Owed, DataState;
    assert |v.filled| > 0;
    OptReadIs(v, f);
    hide OptRead, Frame.Key, Frame.Shaped;
    assert [] + v.incoming == v.incoming;
  }

  lemma OptReadIs(v: View, f: Frame)
    requires |v.filled| == (if f.long then 2 else 0) + (if f.masked then 4 else 0) && |v.filled| > 0
    requires if f.long then BigEndian(v.filled[0], v.filled[1]) == |f.wire| else v.msgSz == |f.wire|
    requires if f.masked then v.filled[|v.filled| - 4..] == f.Key() else v.mask == NO_MASK
    ensures OptRead(v) == v.(filled := [], msgSz := |f.wire|, mask := f.Key(), state := DataState(v.lastFlags))
  {
    KeyUnmasked(f);
    hide BigEndian, DataState, Frame.Key;
    if f.long {
      assert |v.filled| % 4 == 2;
    }
  }

  /** The reader after `n` bytes of payload have come. */
  function PayloadRead(v: View, n: nat): View
    requires n <= v.msgSz && n <= |v.incoming|
  {
    v.(msgSz := v.msgSz - n, maskPos := (v.maskPos + n) % 256, incoming := v.incoming[n..])
  }

  lemma PayloadAgrees(v: View, f: Frame, done: nat, fs: seq<Frame>, n: nat)
    requires Agrees(v, InPayload(f, done, fs)) && n <= v.msgSz && n <= |v.incoming|
    ensures done + n <= |f.wire| && Agrees(PayloadRead(v, n), InPayload(f, done + n, fs))
    ensures v.incoming[..n] == f.wire[done..done + n]
  {
    hide EncodeAll, Frame.Key, DataState, Frame.Shaped, DataAll, AllLegal, Frame.Data, Position.Owed;
    assert v.filled + v.incoming == v.incoming;
    CutPayload(v.incoming, f.wire, done, EncodeAll(fs), n);
    assert [] + v.incoming[n..] == v.incoming[n..];
    WrapMore(done, n);
  }

  lemma CutPayload(incoming: seq<byte>, wire: seq<byte>, done: nat, rest: seq<byte>, n: nat)
    requires done + n <= |wire| && incoming == wire[done..] + rest
    ensures incoming[..n] == wire[done..done + n] && incoming[n..] == wire[done + n..] + rest
  {
  }

  lemma WrapMore(a: nat, b: nat)
    ensures (a % 256 + b) % 256 == (a + b) % 256
  {
  }

  /** Bytes of a data frame are owed in unmasked form; the position in the key may be kept
      modulo 256 because the key repeats every four bytes. */
  lemma PayloadOwed(f: Frame, done: nat, fs: seq<Frame>, n: nat)
    requires f.Legal() && AllLegal(fs) && done + n <= |f.wire|
    ensures InPayload(f, done, fs).Owed() ==
            (if f.Control() then [] else Unmask(f.wire[done..done + n], f.Key(), done % 256))
            + InPayload(f, done + n, fs).Owed()
  {
    OwedInside(f, done, fs);
    OwedInside(f, done + n, fs);
    hide *;
    if f.Control() {
      EmptyPrefix([] + DataAll(fs));
    } else {
      OwedParts(f.wire, done, n, f.Key(), DataAll(fs));
    }
  }

  lemma OwedParts(wire: seq<byte>, done: nat, n: nat, key: seq<byte>, rest: seq<byte>)
    requires |key| == 4 && done + n <= |wire|
    ensures Unmask(wire[done..], key, done) + rest
            == Unmask(wire[done..done + n], key, done % 256) + (Unmask(wire[done + n..], key, done + n) + rest)
  {
    var now, later := wire[done..done + n], wire[done + n..];
    CutWire(wire, done, n);
    UnmaskSplits(now, later, key, done);
    UnmaskPeriodic(now, key, done);
    hide Unmask;
    Assoc(Unmask(now, key, done), Unmask(later, key, done + n), rest);
  }

  lemma CutWire(wire: seq<byte>, done: nat, n: nat)
    requires done + n <= |wire|
    ensures wire[done..] == wire[done..done + n] + wire[done + n..]
  {
  }

  lemma OwedInside(f: Frame, done: nat, fs: seq<Frame>)
    requires f.Legal() && AllLegal(fs) && done <= |f.wire|
    ensures InPayload(f, done, fs).Legal()
    ensures InPayload(f, done, fs).Owed()
            == (if f.Control() then [] else Unmask(f.wire[done..], f.Key(), done)) + DataAll(fs)
  {
  }

  lemma UnmaskPeriodic(bs: seq<byte>, key: seq<byte>, at: nat)
    requires |key| == 4
    ensures Unmask(bs, key, at % 256) == Unmask(bs, key, at)
  {
    hide Xor;
    forall i | 0 <= i < |bs| ensures Unmask(bs, key, at % 256)[i] == Unmask(bs, key, at)[i] {
      KeyPlace(at, i);
    }
  }

  /** Back to waiting for a header. */
  function FrameFinished(v: View): View {
    v.(state := FrameHeader, toRecv := 2, maskPos := 0, filled := [])
  }

  lemma FinishedAgrees(v: View, f: Frame, done: nat, fs: seq<Frame>)
    requires Agrees(v, InPayload(f, done, fs)) && v.msgSz == 0
    ensures Agrees(FrameFinished(v), AtHeader(fs))
    ensures InPayload(f, done, fs).Owed() == DataAll(fs)
  {
    hide EncodeAll, DataAll, Frame.Key;
    assert f.wire[done..] == [];
  }

  // ----- one read -----

  /** The header buffer after more bytes. */
  function Filled(v: View, n: nat): View
    requires n <= v.toRecv && n <= |v.incoming|
  {
    v.(filled := v.filled + v.incoming[..n], toRecv := v.toRecv - n, incoming := v.incoming[n..])
  }

  /** What the fields can be at any time. */
  predicate Sound(v: View) {
    && |v.mask| == 4
    && match v.state
       case FrameHeader => |v.filled| + v.toRecv == 2
       case FrameOpt => |v.filled| + v.toRecv in {2, 4, 6}
       case _ => v.filled == [] && v.toRecv == 0
  }

  datatype Outcome = Outcome(r: ReadResult, v: View, left: seq<Answer>)

  function Rank(v: View): nat {
    match v.state
    case FrameHeader => if v.toRecv == 0 then 3 else 0
    case FrameOpt => if v.toRecv == 0 then 2 else 0
    case _ => 1
  }

  /** One read of at most `size` bytes. */
  function ReadFrom(v: View, answers: seq<Answer>, size: nat): (o: Outcome)
    requires Sound(v) && size > 0
    ensures Sound(o.v) && |o.left| <= |answers|
    decreases |answers|, Rank(v)
  {
    if v.toRecv > 0 then
      var g := Receive(v.incoming, answers, v.toRecv);
      if !g.r.Data? then Outcome(g.r, v, g.left)
      else
        var w := Filled(v, |g.r.bytes|);
        if w.toRecv > 0 then Outcome(Error, w, g.left) else ReadFrom(w, g.left, size)
    else if v.state == FrameHeader then ReadFrom(HeaderRead(v), answers, size)
    else if v.state == FrameOpt then ReadFrom(OptRead(v), answers, size)
    else if v.msgSz == 0 then ReadFrom(FrameFinished(v), answers, size)
    else
      var g := Receive(v.incoming, answers, Least(size, v.msgSz));
      if !g.r.Data? then Outcome(g.r, v, g.left)
      else
        var w, clear := PayloadRead(v, |g.r.bytes|), Unmask(g.r.bytes, v.mask, v.maskPos);
        if w.msgSz > 0 then Outcome(Data(clear), w, g.left)
        else if v.state == Control then ReadFrom(FrameFinished(w), g.left, size)
        else Outcome(Data(clear), FrameFinished(w), g.left)
  }

  /** A complete header leads on. */
  lemma HeaderSound(v: View)
    requires Sound(v) && v.toRecv == 0
    ensures v.state == FrameHeader ==> Sound(HeaderRead(v)) && Rank(HeaderRead(v)) < Rank(v)
    ensures v.state == FrameOpt ==> Sound(OptRead(v)) && Rank(OptRead(v)) < Rank(v)
  {
  }

  lemma AgreesSound(v: View, at: Position)
    requires Agrees(v, at) && |v.mask| == 4
    ensures Sound(v)
  {
    if at.InOpt? {
      OptLength(at.f);
    }
    hide Frame.Opt, Frame.Legal;
  }

  /** Between reads the reader waits for something. */
  ghost predicate Waits(v: View) { v.toRecv > 0 || ((v.state == Payload || v.state == Control) && v.msgSz > 0) }

  /** In the middle of a control frame's payload. */
  ghost predicate Leaks(at: Position) {
    at.InPayload? && at.f.Control()
  }

  /** What a read that returned `r` did to what is owed. */
  ghost predicate Delivered(before: Position, r: ReadResult, after: Position, size: nat) {
    && before.Legal() && after.Legal()
    && (r.Data? ==> 0 < |r.bytes| <= size)
    && before.Owed() == (if r.Data? && !Leaks(after) then r.bytes else []) + after.Owed()
  }

  /** No control frame carries more than one byte. */
  ghost predicate Short(fs: seq<Frame>) {
    forall i :: 0 <= i < |fs| && fs[i].Control() ==> |fs[i].wire| <= 1
  }

  lemma EmptyPrefix(bs: seq<byte>)
    ensures [] + bs == bs
  {
  }

  /** More of a header has come. */
  lemma FilledAgrees(v: View, w: View, at: Position)
    requires Agrees(v, at) && v.toRecv > 0 && w.filled + w.incoming == v.filled + v.incoming
    requires w == v.(filled := w.filled, incoming := w.incoming, toRecv := w.toRecv)
    requires |w.filled| + w.toRecv == |v.filled| + v.toRecv
    ensures Agrees(w, at)
  {
    hide Position.Coming, Frame.Legal;
  }

  lemma OwedAtHeader(fs: seq<Frame>)
    requires AllLegal(fs)
    ensures AtHeader(fs).Legal() && AtHeader(fs).Owed() == DataAll(fs)
  {
  }

  /** Nothing on its way means nothing owed. */
  lemma NothingLost(v: View, at: Position)
    requires Agrees(v, at) && v.incoming == []
    requires at.InPayload? ==> v.msgSz > 0
    requires !at.InPayload? ==> v.toRecv > 0
    ensures at.Owed() == []
  {
    EnoughComing(at);
    assert |v.filled + v.incoming| == |v.filled|;
    hide EncodeAll;
  }


  // ----- what one read delivers -----

  /** The position after a read that began at `at`: the fields agree with it, what was owed
      has been delivered, and without long control frames everything delivered was owed. */
  ghost predicate Goal(at: Position, o: Outcome, after: Position, size: nat) {
    && Agrees(o.v, after) && Waits(o.v) && Delivered(at, o.r, after, size)
    && (Short(at.Frames()) ==> Short(after.Frames()) && (o.r.Data? ==> !Leaks(after)))
  }

  lemma GoalFrom(at: Position, next: Position, o: Outcome, after: Position, size: nat)
    requires Goal(next, o, after, size) && at.Legal() && next.Legal() && at.Owed() == next.Owed()
    requires Short(at.Frames()) ==> Short(next.Frames())
    ensures Goal(at, o, after, size)
  {
    hide Agrees, Short, Waits, Position.Owed;
  }

  /** A read that brought nothing. */
  lemma GoalStays(v: View, at: Position, r: ReadResult, left: seq<Answer>, size: nat)
    requires Agrees(v, at) && Waits(v) && !r.Data?
    ensures Goal(at, Outcome(r, v, left), at, size)
  {
    StateTellsWhere(v, at);
    hide Agrees, Short, Waits, Position.Owed;
    EmptyPrefix(at.Owed());
  }

  lemma StateTellsWhere(v: View, at: Position)
    requires Agrees(v, at)
    ensures at.InPayload? <==> v.state.Payload? || v.state.Control?
    ensures at.AtHeader? <==> v.state.FrameHeader?
    ensures at.Legal() && (v.toRecv > 0 ==> !at.InPayload?)
    ensures at.InPayload? ==> v.state == (if at.f.Control() then Control else Payload)
    ensures at.InPayload? ==> |v.mask| == 4 && v.maskPos == at.done % 256 && v.mask == at.f.Key()
    ensures at.InPayload? ==> v.msgSz + at.done == |at.f.wire|
  {
  }

  lemma ShortRest(f: Frame, fs: seq<Frame>)
    ensures Short([f] + fs) ==> Short(fs) && (f.Control() ==> |f.wire| <= 1)
  {
    if Short([f] + fs) {
      assert ([f] + fs)[0] == f;
      forall i | 0 <= i < |fs| && fs[i].Control() ensures |fs[i].wire| <= 1 {
        assert fs[i] == ([f] + fs)[i + 1];
      }
    }
  }

  lemma FillAgrees(v: View, at: Position, n: nat)
    requires Agrees(v, at) && v.toRecv > 0 && n <= v.toRecv && n <= |v.incoming|
    ensures Agrees(Filled(v, n), at)
  {
    assert v.filled + v.incoming[..n] + v.incoming[n..] == v.filled + v.incoming;
    hide Agrees;
    FilledAgrees(v, Filled(v, n), at);
  }

  /** A header that is complete moves the position on. */
  lemma HeaderGoes(v: View, at: Position) returns (next: Position)
    requires Agrees(v, at) && v.toRecv == 0 && (v.state == FrameHeader || v.state == FrameOpt)
    ensures v.state == FrameHeader ==> |v.filled| == 2 && Agrees(HeaderRead(v), next)
    ensures v.state == FrameOpt ==> |v.filled| in {2, 4, 6} && Agrees(OptRead(v), next)
    ensures at.Legal() && next.Legal() && next.Owed() == at.Owed() && next.Frames() == at.Frames()
  {
    StateTellsWhere(v, at);
    hide HeaderRead, OptRead, Position.Coming, Frame.Legal, Frame.Data, DataAll, EncodeAll;
    match at
    case AtHeader(fs) =>
      HeaderAgrees(v, fs);
      next := HeaderMoves(fs);
    case InOpt(f, fs) =>
      OptAgrees(v, f, fs);
      next := InPayload(f, 0, fs);
  }

  /** A frame whose payload is complete is left behind. */
  lemma FinishGoes(v: View, at: Position)
    requires Agrees(v, at) && at.InPayload? && v.msgSz == 0
    ensures Agrees(FrameFinished(v), AtHeader(at.fs)) && at.Legal()
    ensures AtHeader(at.fs).Legal() && AtHeader(at.fs).Owed() == at.Owed()
    ensures Short(at.Frames()) ==> Short(AtHeader(at.fs).Frames())
  {
    StateTellsWhere(v, at);
    FinishedAgrees(v, at.f, at.done, at.fs);
    ShortRest(at.f, at.fs);
    hide Agrees, Short;
    OwedAtHeader(at.fs);
  }

  /** Payload that came: what it is unmasked, and where the reader is then. */
  lemma PayloadGoes(v: View, at: Position, n: nat) returns (mid: Position)
    requires Agrees(v, at) && at.InPayload? && 0 < n <= v.msgSz && n <= |v.incoming|
    ensures mid == InPayload(at.f, at.done + n, at.fs) && Agrees(PayloadRead(v, n), mid)
    ensures |v.mask| == 4 && at.Legal() && mid.Legal()
    ensures at.Owed() == (if at.f.Control() then [] else Unmask(v.incoming[..n], v.mask, v.maskPos)) + mid.Owed()
  {
    hide Agrees, Unmask, Position.Owed, Frame.Legal, Frame.Key, Frame.Control, DataState;
    StateTellsWhere(v, at);
    PayloadAgrees(v, at.f, at.done, at.fs, n);
    mid := InPayload(at.f, at.done + n, at.fs);
    StateTellsWhere(PayloadRead(v, n), mid);
    LegalParts(at);
    PayloadOwed(at.f, at.done, at.fs, n);
  }

  lemma LegalParts(at: Position)
    requires at.Legal()
    ensures AllLegal(at.fs)
    ensures !at.AtHeader? ==> at.f.Legal()
  {
  }

  /** Payload was handed over and more of it is to come. */
  lemma GoalInside(v: View, at: Position, mid: Position, clear: seq<byte>, left: seq<Answer>, size: nat)
    requires at.InPayload? && at.Legal() && mid.Legal() && Agrees(v, mid) && v.msgSz > 0 && 0 < |clear| <= size
    requires mid == InPayload(at.f, at.done + |clear|, at.fs)
    requires at.Owed() == (if at.f.Control() then [] else clear) + mid.Owed()
    ensures Goal(at, Outcome(Data(clear), v, left), mid, size)
  {
    StateTellsWhere(v, mid);
    ShortRest(at.f, at.fs);
    hide Agrees, Short, Position.Owed;
  }

  lemma GoalFinished(w: View, at: Position, clear: seq<byte>, left: seq<Answer>, size: nat)
    requires at.InPayload? && at.Legal() && AllLegal(at.fs) && !at.f.Control() && 0 < |clear| <= size
    requires Agrees(FrameFinished(w), AtHeader(at.fs)) && at.Owed() == clear + AtHeader(at.fs).Owed()
    ensures Goal(at, Outcome(Data(clear), FrameFinished(w), left), AtHeader(at.fs), size)
  {
    ShortRest(at.f, at.fs);
    hide Agrees, Short, Position.Owed;
  }

  /** Whatever the network answers, one read delivers. */
  lemma {:induction false} ReadDelivers(v: View, at: Position, answers: seq<Answer>, size: nat)
      returns (after: Position)
    requires Agrees(v, at) && Sound(v) && size > 0
    ensures Goal(at, ReadFrom(v, answers, size), after, size)
    decreases |answers|, Rank(v)
  {
    hide Agrees, Goal, HeaderRead, OptRead, Position.Owed, Position.Legal, Position.Frames, Short, Unmask;
    StateTellsWhere(v, at);
    var o := ReadFrom(v, answers, size);
    if v.toRecv > 0 {
      var g := Receive(v.incoming, answers, v.toRecv);
      if !g.r.Data? {
        after := at;
        GoalStays(v, at, g.r, g.left, size);
      } else {
        var w := Filled(v, |g.r.bytes|);
        FillAgrees(v, at, |g.r.bytes|);
        if w.toRecv > 0 {
          after := at;
          GoalStays(w, at, Error, g.left, size);
        } else {
          after := ReadDelivers(w, at, g.left, size);
        }
      }
    } else if v.state == FrameHeader || v.state == FrameOpt {
      var next := HeaderGoes(v, at);
      HeaderSound(v);
      after := ReadDelivers(if v.state == FrameHeader then HeaderRead(v) else OptRead(v), next, answers, size);
      GoalFrom(at, next, o, after, size);
    } else if v.msgSz == 0 {
      FinishGoes(v, at);
      after := ReadDelivers(FrameFinished(v), AtHeader(at.fs), answers, size);
      GoalFrom(at, AtHeader(at.fs), o, after, size);
    } else {
      after := PayloadDelivers(v, at, answers, size);
    }
  }

  lemma {:induction false} PayloadDelivers(v: View, at: Position, answers: seq<Answer>, size: nat)
      returns (after: Position)
    requires Agrees(v, at) && Sound(v) && size > 0 && at.InPayload? && v.toRecv == 0 && v.msgSz > 0
    ensures Goal(at, ReadFrom(v, answers, size), after, size)
    decreases |answers|, Rank(v), 0
  {
    hide Agrees, Goal, Position.Owed, Position.Legal, Position.Frames, Short, Unmask;
    StateTellsWhere(v, at);
    var o := ReadFrom(v, answers, size);
    var g := Receive(v.incoming, answers, Least(size, v.msgSz));
    if !g.r.Data? {
      after := at;
      GoalStays(v, at, g.r, g.left, size);
    } else {
      var n := |g.r.bytes|;
      var w, clear := PayloadRead(v, n), Unmask(g.r.bytes, v.mask, v.maskPos);
      var mid := PayloadGoes(v, at, n);
      if w.msgSz > 0 {
        after := mid;
        GoalInside(w, at, mid, clear, g.left, size);
      } else {
        FinishGoes(w, mid);
        ShortSame(at, mid);
        if v.state == Control {
          EmptyPrefix(mid.Owed());
          after := ReadDelivers(FrameFinished(w), AtHeader(at.fs), g.left, size);
          GoalFrom(at, AtHeader(at.fs), o, after, size);
        } else {
          after := AtHeader(at.fs);
          LegalParts(at);
          GoalFinished(w, at, clear, g.left, size);
        }
      }
    }
  }

  lemma ShortSame(at: Position, mid: Position)
    requires at.InPayload? && mid.InPayload? && at.f == mid.f && at.fs == mid.fs
    ensures at.Frames() == mid.Frames()
  {
  }

  // ----- what the result says about the socket -----

  /** An answer with which nothing comes. */
  predicate GivesNothing(a: Answer, incoming: seq<byte>) {
    a == AtEnd || (a.Upto? && (a.limit == 0 || incoming == []))
  }

  /** The answers were used in order; the end was reported only when the last of them gave
      nothing, and an error only when it would have blocked, when there was none left, or
      when a header is still incomplete. */
  ghost predicate Tells(answers: seq<Answer>, o: Outcome) {
    |o.left| <= |answers| &&
    var used := |answers| - |o.left|;
    && o.left == answers[used..]
    && (o.r.End? ==> used > 0 && GivesNothing(answers[used - 1], o.v.incoming))
    && (o.r.Error? ==> o.left == [] || o.v.toRecv > 0 || (used > 0 && answers[used - 1] == WouldBlock))
  }

  lemma ReceiveTells(v: View, answers: seq<Answer>, n: nat)
    requires n > 0
    ensures var g := Receive(v.incoming, answers, n);
            && |g.left| <= |answers| && g.left == answers[|answers| - |g.left|..]
            && (!g.r.Data? ==> Tells(answers, Outcome(g.r, v, g.left)))
  {
    if answers != [] {
      assert answers[|answers| - |answers[1..]|..] == answers[1..];
      OneAnswer(v.incoming, answers, n);
      hide Receive, GivesNothing;
    }
  }

  lemma OneAnswer(incoming: seq<byte>, answers: seq<Answer>, n: nat)
    requires n > 0 && answers != []
    ensures var g := Receive(incoming, answers, n);
            && g.left == answers[1..]
            && (g.r.End? ==> GivesNothing(answers[0], incoming))
            && (g.r.Error? ==> answers[0] == WouldBlock)
  {
  }

  lemma TellsBefore(answers: seq<Answer>, left: seq<Answer>, o: Outcome)
    requires |left| <= |answers| && left == answers[|answers| - |left|..] && Tells(left, o)
    ensures Tells(answers, o)
  {
    var gone, used := |answers| - |left|, |left| - |o.left|;
    assert left[used..] == answers[gone + used..];
    if used > 0 {
      assert left[used - 1] == answers[gone + used - 1];
    }
  }

  lemma {:induction false} ResultTells(v: View, answers: seq<Answer>, size: nat)
    requires Sound(v) && size > 0
    ensures Tells(answers, ReadFrom(v, answers, size))
    decreases |answers|, Rank(v)
  {
    hide HeaderRead, OptRead, Unmask, Receive, Tells;
    if v.toRecv > 0 {
      var g := Receive(v.incoming, answers, v.toRecv);
      ReceiveTells(v, answers, v.toRecv);
      FillUnfolds(v, answers, size);
      if g.r.Data? {
        var w := Filled(v, |g.r.bytes|);
        if w.toRecv > 0 {
          ShortHeaderTells(answers, w, g.left);
        } else {
          ResultTells(w, g.left, size);
          TellsBefore(answers, g.left, ReadFrom(w, g.left, size));
        }
      }
    } else if v.state == FrameHeader || v.state == FrameOpt {
      HeaderUnfolds(v, answers, size);
      ResultTells(if v.state == FrameHeader then HeaderRead(v) else OptRead(v), answers, size);
    } else if v.msgSz == 0 {
      ResultTells(FrameFinished(v), answers, size);
    } else {
      PayloadTells(v, answers, size);
    }
  }

  lemma {:induction false} PayloadTells(v: View, answers: seq<Answer>, size: nat)
    requires Sound(v) && size > 0 && v.toRecv == 0 && (v.state == Payload || v.state == Control) && v.msgSz > 0
    ensures Tells(answers, ReadFrom(v, answers, size))
    decreases |answers|, Rank(v), 0
  {
    hide Unmask, Tells;
    var n := Least(size, v.msgSz);
    var g := Receive(v.incoming, answers, n);
    ReceiveTells(v, answers, n);
    PayloadUnfolds(v, answers, size);
    hide Receive, ReadFrom;
    if g.r.Data? {
      var w, clear := PayloadRead(v, |g.r.bytes|), Unmask(g.r.bytes, v.mask, v.maskPos);
      if w.msgSz > 0 {
        DataTells(answers, clear, w, g.left);
      } else if v.state == Control {
        ResultTells(FrameFinished(w), g.left, size);
        TellsBefore(answers, g.left, ReadFrom(FrameFinished(w), g.left, size));
      } else {
        DataTells(answers, clear, FrameFinished(w), g.left);
      }
    }
  }

  lemma ShortHeaderTells(answers: seq<Answer>, w: View, left: seq<Answer>)
    requires w.toRecv > 0 && |left| <= |answers| && left == answers[|answers| - |left|..]
    ensures Tells(answers, Outcome(Error, w, left))
  {
  }

  lemma DataTells(answers: seq<Answer>, clear: seq<byte>, w: View, left: seq<Answer>)
    requires |left| <= |answers| && left == answers[|answers| - |left|..]
    ensures Tells(answers, Outcome(Data(clear), w, left))
  {
  }

  // ----- for the loop that does this -----

  lemma GoalMeans(at: Position, o: Outcome, after: Position, size: nat)
    requires Goal(at, o, after, size)
    ensures Agrees(o.v, after) && Waits(o.v) && Delivered(at, o.r, after, size)
    ensures Short(at.Frames()) ==> Short(after.Frames()) && (o.r.Data? ==> !Leaks(after))
  {
  }

  lemma FillUnfolds(v: View, answers: seq<Answer>, size: nat)
    requires Sound(v) && v.toRecv > 0 && size > 0
    ensures var g := Receive(v.incoming, answers, v.toRecv);
            if !g.r.Data? then ReadFrom(v, answers, size) == Outcome(g.r, v, g.left)
            else
              var w := Filled(v, |g.r.bytes|);
              && |g.left| < |answers| && Sound(w) && |w.filled| <= 6
              && ReadFrom(v, answers, size)
                 == if w.toRecv > 0 then Outcome(Error, w, g.left) else ReadFrom(w, g.left, size)
    ensures |v.filled| + v.toRecv <= 6
  {
  }

  lemma HeaderUnfolds(v: View, answers: seq<Answer>, size: nat)
    requires Sound(v) && v.toRecv == 0 && size > 0
    ensures v.state == FrameHeader ==>
              |v.filled| == 2 && ReadFrom(v, answers, size) == ReadFrom(HeaderRead(v), answers, size)
    ensures v.state == FrameOpt ==>
              |v.filled| in {2, 4, 6} && ReadFrom(v, answers, size) == ReadFrom(OptRead(v), answers, size)
    ensures v.state == FrameHeader ==> Sound(HeaderRead(v)) && Rank(HeaderRead(v)) < Rank(v)
    ensures v.state == FrameOpt ==> Sound(OptRead(v)) && Rank(OptRead(v)) < Rank(v)
  {
    HeaderSound(v);
    hide HeaderRead, OptRead;
  }

  lemma PayloadUnfolds(v: View, answers: seq<Answer>, size: nat)
    requires Sound(v) && (v.state == Payload || v.state == Control) && v.msgSz > 0 && size > 0
    ensures var g := Receive(v.incoming, answers, Least(size, v.msgSz));
            if !g.r.Data? then ReadFrom(v, answers, size) == Outcome(g.r, v, g.left)
            else
              var w, clear := PayloadRead(v, |g.r.bytes|), Unmask(g.r.bytes, v.mask, v.maskPos);
              ReadFrom(v, answers, size) ==
                if w.msgSz > 0 then Outcome(Data(clear), w, g.left)
                else if v.state == Control then ReadFrom(FrameFinished(w), g.left, size)
                else Outcome(Data(clear), FrameFinished(w), g.left)
  {
    hide Unmask, Receive;
  }
}
