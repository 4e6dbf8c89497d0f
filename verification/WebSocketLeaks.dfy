/** Sequences of reads, and exactly when they hand over bytes that are not data. */
module WebSocketLeaks {
  import opened Basics
  import opened WebSocketFrames
  import opened WebSocketMachine

  /** One read: how much is asked for and how the network answers. */
  datatype Call = Call(size: nat, answers: seq<Answer>)

  datatype Total = Total(bytes: seq<byte>, v: View)

  predicate Asking(calls: seq<Call>) {
    forall i :: 0 <= i < |calls| ==> calls[i].size > 0
  }

  function BytesOf(r: ReadResult): seq<byte> { if r.Data? then r.bytes else [] }

  /** What successive reads return, joined together. */
  function Reads(v: View, calls: seq<Call>): (t: Total)
    requires Sound(v) && Asking(calls)
    ensures Sound(t.v)
    decreases |calls|
  {
    if calls == [] then Total([], v)
    else
      var o := ReadFrom(v, calls[0].answers, calls[0].size);
      var t := Reads(o.v, calls[1..]);
      Total(BytesOf(o.r) + t.bytes, t.v)
  }

  lemma {:induction false} ReadsDeliver(v: View, at: Position, calls: seq<Call>) returns (after: Position)
    requires Agrees(v, at) && Sound(v) && Waits(v) && Asking(calls) && at.Legal() && Short(at.Frames())
    ensures var t := Reads(v, calls);
            && Agrees(t.v, after) && Waits(t.v) && after.Legal() && Short(after.Frames())
            && at.Owed() == t.bytes + after.Owed()
    decreases |calls|
  {
    hide Agrees, ReadFrom, Position.Owed, Position.Legal, Position.Frames, Short, Waits, Leaks;
    if calls == [] {
      after := at;
      EmptyPrefix(at.Owed());
    } else {
      var o := ReadFrom(v, calls[0].answers, calls[0].size);
      var mid := ReadDelivers(v, at, calls[0].answers, calls[0].size);
      after := ReadsDeliver(o.v, mid, calls[1..]);
      Assoc(BytesOf(o.r), Reads(o.v, calls[1..]).bytes, after.Owed());
    }
  }

  // ----- reading whole frames -----

  const MUCH: nat := 0x1_0000

  /** The reader between two frames. */
  ghost predicate Fresh(v: View, fs: seq<Frame>) {
    Agrees(v, AtHeader(fs)) && v.filled == [] && Sound(v)
  }

  /** Header bytes that come at once. */
  lemma FillAll(v: View, at: Position, rest: seq<Answer>, size: nat)
    requires Agrees(v, at) && Sound(v) && 0 < v.toRecv <= 6 && v.toRecv <= |v.incoming| && size > 0
    ensures var w := Filled(v, v.toRecv);
            && Agrees(w, at) && Sound(w) && w.toRecv == 0
            && ReadFrom(v, [Upto(MUCH)] + rest, size) == ReadFrom(w, rest, size)
  {
    FillAgrees(v, at, v.toRecv);
    hide Agrees;
    var answers := [Upto(MUCH)] + rest;
    assert answers[0] == Upto(MUCH) && answers[1..] == rest;
    assert Receive(v.incoming, answers, v.toRecv) == Receipt(Data(v.incoming[..v.toRecv]), rest);
  }

  /** The answers that bring a whole header. */
  function Lead(f: Frame): seq<Answer>
    requires f.Shaped()
  {
    if f.Opt() == [] then [Upto(MUCH)] else [Upto(MUCH), Upto(MUCH)]
  }

  lemma ToPayload(v: View, f: Frame, fs: seq<Frame>, rest: seq<Answer>, size: nat) returns (p: View)
    requires Fresh(v, [f] + fs) && f.Legal() && AllLegal(fs) && size > 0
    ensures Agrees(p, InPayload(f, 0, fs)) && Sound(p)
    ensures ReadFrom(v, Lead(f) + rest, size) == ReadFrom(p, rest, size)
  {
    var all := [f] + fs;
    assert all[0] == f && all[1..] == fs;
    hide Frame.Opt, Frame.Legal, HeaderRead, OptRead;
    EnoughComing(AtHeader(all));
    var more := if f.Opt() == [] then rest else [Upto(MUCH)] + rest;
    assert Lead(f) + rest == [Upto(MUCH)] + more;
    assert v.filled + v.incoming == v.incoming;
    FillAll(v, AtHeader(all), more, size);
    var w := Filled(v, 2);
    HeaderAgrees(w, all);
    HeaderSound(w);
    var x := HeaderRead(w);
    assert ReadFrom(w, more, size) == ReadFrom(x, more, size);
    if f.Opt() == [] {
      p := x;
    } else {
      p := ThroughOpt(x, f, fs, rest, size);
    }
  }

  lemma ThroughOpt(x: View, f: Frame, fs: seq<Frame>, rest: seq<Answer>, size: nat) returns (p: View)
    requires Agrees(x, InOpt(f, fs)) && Sound(x) && x.filled == [] && f.Opt() != [] && size > 0
    ensures Agrees(p, InPayload(f, 0, fs)) && Sound(p)
    ensures ReadFrom(x, [Upto(MUCH)] + rest, size) == ReadFrom(p, rest, size)
  {
    EnoughComing(InOpt(f, fs));
    assert x.filled + x.incoming == x.incoming;
    hide Frame.Opt, Frame.Legal, HeaderRead, OptRead;
    FillAll(x, InOpt(f, fs), rest, size);
    var y := Filled(x, x.toRecv);
    OptAgrees(y, f, fs);
    HeaderSound(y);
    p := OptRead(y);
  }

  /** With no answer left a read stops at the next header. */
  lemma StopsAtHeader(p: View, size: nat)
    requires Sound(p) && p.state == FrameHeader && p.toRecv > 0 && size > 0
    ensures ReadFrom(p, [], size) == Outcome(Error, p, [])
  {
  }

  /** Payload that comes at once. */
  lemma TakesPayload(p: View, f: Frame, done: nat, fs: seq<Frame>, size: nat) returns (n: nat)
    requires Agrees(p, InPayload(f, done, fs)) && Sound(p) && done < |f.wire| && 0 < size <= MUCH
    ensures n == Least(size, |f.wire| - done) && n > 0 && p.msgSz == |f.wire| - done && p.toRecv == 0
    ensures Receive(p.incoming, [Upto(MUCH)], Least(size, p.msgSz)) == Receipt(Data(p.incoming[..n]), [])
    ensures n <= |p.incoming| && p.incoming[..n] == f.wire[done..done + n]
    ensures f.Legal() && |f.wire| < MUCH && p.mask == f.Key() && p.maskPos == done % 256
    ensures p.state == if f.Control() then Control else Payload
  {
    StateTellsWhere(p, InPayload(f, done, fs));
    EnoughComing(InPayload(f, done, fs));
    assert p.filled + p.incoming == p.incoming;
    n := Least(size, |f.wire| - done);
    PayloadAgrees(p, f, done, fs, n);
    hide Agrees, Frame.Key;
  }

  /** A frame with nothing left of it is left behind. */
  lemma NoneOfFrame(p: View, f: Frame, fs: seq<Frame>)
    requires Agrees(p, InPayload(f, |f.wire|, fs)) && Sound(p) && p.toRecv == 0
    requires p.msgSz == 0 && p.state != FrameHeader && p.state != FrameOpt
    ensures var o := ReadFrom(p, [], MUCH); Fresh(o.v, fs) && BytesOf(o.r) == []
  {
    FinishGoes(p, InPayload(f, |f.wire|, fs));
    hide Agrees;
    StopsAtHeader(FrameFinished(p), MUCH);
  }

  /** Payload that completes its frame: the bytes of a control frame are dropped. */
  lemma LastOfFrame(p: View, f: Frame, done: nat, fs: seq<Frame>)
    requires Agrees(p, InPayload(f, done, fs)) && Sound(p) && done < |f.wire|
    ensures f.Legal()
    ensures var o := ReadFrom(p, [Upto(MUCH)], MUCH);
            && Fresh(o.v, fs)
            && BytesOf(o.r) == if f.Control() then [] else Unmask(f.wire[done..], f.Key(), done % 256)
  {
    hide Agrees, Unmask, Frame.Key, Receive, ReadFrom, Position.Owed;
    var at := InPayload(f, done, fs);
    var n := TakesPayload(p, f, done, fs, MUCH);
    PayloadUnfolds(p, [Upto(MUCH)], MUCH);
    var mid := PayloadGoes(p, at, n);
    var w := PayloadRead(p, n);
    FinishGoes(w, mid);
    assert f.wire[done..done + n] == f.wire[done..];
    FinishedFresh(w, fs);
    if f.Control() {
      StopsAtHeader(FrameFinished(w), MUCH);
    }
  }

  lemma FinishedFresh(w: View, fs: seq<Frame>)
    requires Agrees(FrameFinished(w), AtHeader(fs)) && |w.mask| == 4
    ensures Fresh(FrameFinished(w), fs)
  {
    hide Agrees;
  }

  /** The rest of a frame read at once: its data is returned, a control frame is dropped. */
  lemma RestOfFrame(p: View, f: Frame, done: nat, fs: seq<Frame>)
    requires Agrees(p, InPayload(f, done, fs)) && Sound(p) && done <= |f.wire|
    requires f.Control() || done == 0
    ensures f.Legal()
    ensures var o := ReadFrom(p, if done == |f.wire| then [] else [Upto(MUCH)], MUCH);
            Fresh(o.v, fs) && BytesOf(o.r) == f.Data()
  {
    StateTellsWhere(p, InPayload(f, done, fs));
    hide Agrees, Unmask, Frame.Key, ReadFrom, Fresh;
    if done == |f.wire| {
      NothingIn(f);
      NoneOfFrame(p, f, fs);
    } else {
      LastOfFrame(p, f, done, fs);
      WholeWire(f);
    }
  }

  lemma NothingIn(f: Frame)
    requires f.Legal() && (f.Control() || f.wire == [])
    ensures f.Data() == []
  {
  }

  lemma WholeWire(f: Frame)
    requires f.Legal()
    ensures f.Data() == if f.Control() then [] else Unmask(f.wire[0..], f.Key(), 0 % 256)
  {
    assert f.wire[0..] == f.wire;
  }

  function WholeAnswers(f: Frame): seq<Answer>
    requires f.Shaped()
  {
    Lead(f) + if f.wire == [] then [] else [Upto(MUCH)]
  }

  lemma PassFrame(v: View, f: Frame, fs: seq<Frame>)
    requires Fresh(v, [f] + fs) && f.Legal() && AllLegal(fs)
    ensures var o := ReadFrom(v, WholeAnswers(f), MUCH); Fresh(o.v, fs) && BytesOf(o.r) == f.Data()
  {
    hide Agrees, ReadFrom, Lead, Frame.Data;
    var p := ToPayload(v, f, fs, if f.wire == [] then [] else [Upto(MUCH)], MUCH);
    RestOfFrame(p, f, 0, fs);
  }

  /** A control frame of two bytes or more, asked for one byte: the byte is handed over. */
  lemma FirstByteLeaks(v: View, f: Frame, fs: seq<Frame>)
    requires Fresh(v, [f] + fs) && f.Legal() && AllLegal(fs) && f.Control() && |f.wire| >= 2
    ensures var o := ReadFrom(v, Lead(f) + [Upto(MUCH)], 1);
            && o.r == Data(Unmask(f.wire[..1], f.Key(), 0))
            && Agrees(o.v, InPayload(f, 1, fs)) && Sound(o.v)
  {
    hide Agrees, Lead, Unmask, Frame.Key, Receive, Frame.Legal, ReadFrom, Position.Owed;
    var p := ToPayload(v, f, fs, [Upto(MUCH)], 1);
    var at := InPayload(f, 0, fs);
    var n := TakesPayload(p, f, 0, fs, 1);
    PayloadUnfolds(p, [Upto(MUCH)], 1);
    var mid := PayloadGoes(p, at, n);
    assert f.wire[0..0 + 1] == f.wire[..1];
  }

  lemma FreshCut(v: View, fs: seq<Frame>)
    requires Fresh(v, fs) && fs != []
    ensures AllLegal(fs) && fs[0].Legal() && AllLegal(fs[1..]) && fs == [fs[0]] + fs[1..]
  {
    StateTellsWhere(v, AtHeader(fs));
  }

  /** There is always a way to read everything as it should be. */
  lemma {:induction false} WholeRun(v: View, fs: seq<Frame>) returns (calls: seq<Call>)
    requires Fresh(v, fs) && AllLegal(fs)
    ensures Asking(calls) && var t := Reads(v, calls); t.v.incoming == [] && t.bytes == DataAll(fs)
    decreases |fs|
  {
    if fs == [] {
      calls := [];
      assert v.filled + v.incoming == v.incoming;
    } else {
      FreshCut(v, fs);
      hide Fresh, ReadFrom, WholeAnswers, Frame.Data;
      PassFrame(v, fs[0], fs[1..]);
      FreshSound(v, fs);
      var o := ReadFrom(v, WholeAnswers(fs[0]), MUCH);
      var rest := WholeRun(o.v, fs[1..]);
      calls := [Call(MUCH, WholeAnswers(fs[0]))] + rest;
      FirstCall(v, calls, rest);
    }
  }

  lemma FreshSound(v: View, fs: seq<Frame>)
    requires Fresh(v, fs)
    ensures Sound(v)
  {
  }

  lemma FirstCall(v: View, calls: seq<Call>, rest: seq<Call>)
    requires Sound(v) && Asking(rest) && calls != [] && calls[0].size > 0 && calls == [calls[0]] + rest
    ensures Asking(calls)
    ensures var o := ReadFrom(v, calls[0].answers, calls[0].size);
            Reads(v, calls) == Total(BytesOf(o.r) + Reads(o.v, rest).bytes, Reads(o.v, rest).v)
  {
    hide ReadFrom;
    assert calls[1..] == rest;
  }

  /** A long control frame can be read so that a byte of it is taken for data. */
  lemma {:induction false} LeakyRun(v: View, fs: seq<Frame>) returns (calls: seq<Call>)
    requires Fresh(v, fs) && AllLegal(fs) && !Short(fs)
    ensures Asking(calls) && var t := Reads(v, calls); t.v.incoming == [] && |t.bytes| > |DataAll(fs)|
    decreases |fs|
  {
    FreshCut(v, fs);
    FreshSound(v, fs);
    var f, more := fs[0], fs[1..];
    hide Fresh, ReadFrom, WholeAnswers, Frame.Data, Agrees, Lead;
    if f.Control() && |f.wire| >= 2 {
      calls := LeakThenRest(v, f, more);
    } else {
      ShortRestIff(f, more);
      PassFrame(v, f, more);
      var o := ReadFrom(v, WholeAnswers(f), MUCH);
      var rest := LeakyRun(o.v, more);
      calls := [Call(MUCH, WholeAnswers(f))] + rest;
      FirstCall(v, calls, rest);
    }
  }

  lemma ShortRestIff(f: Frame, fs: seq<Frame>)
    requires f.Control() ==> |f.wire| <= 1
    ensures Short(fs) ==> Short([f] + fs)
  {
  }

  lemma LeakThenRest(v: View, f: Frame, fs: seq<Frame>) returns (calls: seq<Call>)
    requires Fresh(v, [f] + fs) && f.Legal() && AllLegal(fs) && f.Control() && |f.wire| >= 2
    ensures Asking(calls) && var t := Reads(v, calls); t.v.incoming == [] && |t.bytes| > |DataAll([f] + fs)|
  {
    FreshSound(v, [f] + fs);
    hide Fresh, ReadFrom, Agrees, Lead;
    FirstByteLeaks(v, f, fs);
    var o := ReadFrom(v, Lead(f) + [Upto(MUCH)], 1);
    RestOfFrame(o.v, f, 1, fs);
    var o2 := ReadFrom(o.v, [Upto(MUCH)], MUCH);
    var rest := WholeRun(o2.v, fs);
    var later := [Call(MUCH, [Upto(MUCH)])] + rest;
    FirstCall(o.v, later, rest);
    calls := [Call(1, Lead(f) + [Upto(MUCH)])] + later;
    FirstCall(v, calls, later);
    NothingIn(f);
    assert ([f] + fs)[1..] == fs && ([f] + fs)[0] == f;
    assert DataAll([f] + fs) == [] + DataAll(fs);
  }

  /** Exactly when no splitting of the stream and no buffer sizes make a reader take bytes of
      control frames for data: when no control frame carries more than one byte. */
  lemma LeaksIff(v: View, fs: seq<Frame>)
    requires Fresh(v, fs) && AllLegal(fs)
    ensures (forall calls :: Asking(calls) && Reads(v, calls).v.incoming == [] ==> Reads(v, calls).bytes == DataAll(fs))
            <==> Short(fs)
  {
    FreshSound(v, fs);
    OwedAtHeader(fs);
    if Short(fs) {
      FreshWaits(v, fs);
      hide Agrees, Reads, Short, Position.Owed;
      forall calls | Asking(calls) && Reads(v, calls).v.incoming == [] ensures Reads(v, calls).bytes == DataAll(fs) {
        var after := ReadsDeliver(v, AtHeader(fs), calls);
        NothingLeft(Reads(v, calls).v, after);
        NoMore(Reads(v, calls).bytes);
      }
    } else {
      var calls := LeakyRun(v, fs);
    }
  }

  lemma FreshWaits(v: View, fs: seq<Frame>)
    requires Fresh(v, fs)
    ensures Waits(v) && Agrees(v, AtHeader(fs)) && AtHeader(fs).Frames() == fs
  {
  }

  lemma NothingLeft(v: View, at: Position)
    requires Agrees(v, at) && Waits(v) && v.incoming == [] && at.Legal()
    ensures at.Owed() == []
  {
    StateTellsWhere(v, at);
    NothingLost(v, at);
  }

  lemma NoMore(bs: seq<byte>)
    ensures bs + [] == bs
  {
  }

  /** For instance a ping of two bytes: the first is returned as if it were data. */
  lemma PingPayloadLeaks(v: View)
    requires Fresh(v, [Frame(0x89, false, NO_MASK, [104, 105], false)])
    ensures var ping := Frame(0x89, false, NO_MASK, [104, 105], false);
            && DataAll([ping]) == []
            && ReadFrom(v, [Upto(MUCH), Upto(MUCH)], 1).r == Data([104])
  {
    var ping := Frame(0x89, false, NO_MASK, [104, 105], false);
    assert [ping] == [ping] + [];
    FreshCut(v, [ping]);
    NothingIn(ping);
    assert DataAll([ping]) == ping.Data() + DataAll([]);
    XorZero(104);
    assert Lead(ping) + [Upto(MUCH)] == [Upto(MUCH), Upto(MUCH)];
    FirstByteLeaks(v, ping, []);
    assert ping.wire[..1] == [104];
    hide Xor, ReadFrom;
    assert Unmask([104], NO_MASK, 0) == [104];
  }

  /** A writer of data sends no control frames. */
  lemma {:induction false} SentShort(opts: byte, messages: seq<seq<byte>>)
    requires OpcodeOf(opts) < FRAME_CLOSE
    ensures Short(SentAll(opts, messages))
  {
    if messages != [] {
      SentShort(opts, messages[1..]);
      assert !Sent(opts, messages[0]).Control();
    }
  }
}
