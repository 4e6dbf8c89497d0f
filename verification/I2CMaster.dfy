/** The bit-banged I2C master.  Both wires are open drain: a wire is high only when
    nobody pulls it low. */
module I2CMaster {
  import opened Basics
  import opened I2CBus

  const ENODEV: int := 19

  /** The slave: whether it holds the data wire low in each clock period.  It changes its
      mind only when the clock has just fallen, which is when a period begins. */
  function Pull(pulls: seq<bool>, period: nat): bool {
    period < |pulls| && pulls[period]
  }

  /** During a byte that the master sends the slave leaves the data wire alone. */
  ghost predicate Listens(pulls: seq<bool>, from: nat) {
    forall i :: from <= i < from + 8 ==> !Pull(pulls, i)
  }

  /** The slave listens to up to `n` bytes, until it refuses one, and to what comes then. */
  ghost predicate ListensTo(pulls: seq<bool>, from: nat, n: nat)
    decreases n
  {
    if n == 0 then !Pull(pulls, from)
    else
      Listens(pulls, from)
      && if Pull(pulls, from + 8) then ListensTo(pulls, from + 9, n - 1) else !Pull(pulls, from + 9)
  }

  /** The frames of a write: the slave answers each byte, and the first refusal is the end. */
  function Sent(pulls: seq<bool>, from: nat, src: seq<byte>): seq<Frame>
    decreases |src|
  {
    if src == [] then []
    else if !Pull(pulls, from + 8) then [Frame(src[0], true)]
    else [Frame(src[0], false)] + Sent(pulls, from + 9, src[1..])
  }

  function Acks(fs: seq<Frame>): nat {
    if fs == [] then 0 else (if fs[0].nack then 0 else 1) + Acks(fs[1..])
  }

  /** What the slave sends in the eight periods from `from` on. */
  function SlaveBits(pulls: seq<bool>, from: nat, n: nat): (es: seq<Event>)
    ensures |es| == n && AllBits(es)
  {
    if n == 0 then [] else SlaveBits(pulls, from, n - 1) + [Bit(!Pull(pulls, from + n - 1))]
  }

  function SlaveByte(pulls: seq<bool>, from: nat): byte { ByteFrom(SlaveBits(pulls, from, 8)) }

  /** In the periods of acknowledgement, and after the last byte, the master is not disturbed. */
  ghost predicate LeavesAcks(pulls: seq<bool>, from: nat, n: nat)
    decreases n
  {
    if n == 0 then !Pull(pulls, from) else !Pull(pulls, from + 8) && LeavesAcks(pulls, from + 9, n - 1)
  }

  /** The frames of a read of `n` bytes: the master refuses only the last one. */
  function Received(pulls: seq<bool>, from: nat, n: nat): seq<Frame>
    decreases n
  {
    if n == 0 then [] else [Frame(SlaveByte(pulls, from), n == 1)] + Received(pulls, from + 9, n - 1)
  }

  function Data(fs: seq<Frame>): seq<byte> {
    if fs == [] then [] else [fs[0].data] + Data(fs[1..])
  }

  class Master {
    var scl: bool
    var sda: bool
    /** How often the clock has fallen. */
    var period: nat
    const pulls: seq<bool>
    /** Everything that has been on the wires. */
    ghost var trace: seq<Sample>

    function Line(): Sample
      reads this
    {
      Sample(scl, sda && !Pull(pulls, period))
    }

    ghost predicate Valid()
      reads this
    {
      && trace != [] && Watch(trace).scl == scl && Watch(trace).sda == Line().sda
      && (!scl ==> Watch(trace).pending == None)
    }

    ghost function Seen(): Monitor
      requires trace != []
      reads this
    {
      Watch(trace)
    }

    /** Both wires are released and nobody holds them. */
    constructor (pulls: seq<bool>)
      ensures Valid() && scl && sda && period == 0 && this.pulls == pulls
      ensures Seen().events == [] && Seen().pending == None
    {
      scl, sda := true, true;
      period := 0;
      this.pulls := pulls;
      trace := [Sample(true, !Pull(pulls, 0))];
    }

    method SdaLow()
      requires Valid()
      modifies this`sda, this`trace
      ensures Valid() && !sda && Seen() == See(old(Seen()), Line())
    {
      sda := false;
      WatchMore(trace, Line());
      trace := trace + [Line()];
    }

    method SdaRelease()
      requires Valid()
      modifies this`sda, this`trace
      ensures Valid() && sda && Seen() == See(old(Seen()), Line())
    {
      sda := true;
      WatchMore(trace, Line());
      trace := trace + [Line()];
    }

    /** The level of the data wire is what both sides make of it. */
    method SdaRead() returns (high: bool)
      ensures high == Line().sda
    {
      high := Line().sda;
    }

    /** The slave does not hold the clock. */
    method SclRelease()
      requires Valid()
      modifies this`scl, this`trace
      ensures Valid() && scl && Seen() == See(old(Seen()), Line())
    {
      scl := true;
      WatchMore(trace, Line());
      trace := trace + [Line()];
    }

    /** When the clock falls a period ends, and the slave may move. */
    method SclLow()
      requires Valid()
      modifies this`scl, this`period, this`trace
      ensures Valid() && !scl && period == old(period) + (if old(scl) then 1 else 0)
      ensures Seen().events == old(Seen().events) + (if old(scl) then Committed(old(Seen().pending)) else [])
    {
      if scl {
        scl := false;
        WatchMore(trace, Line());
        trace := trace + [Line()];
        period := period + 1;
        WatchMore(trace, Line());
        trace := trace + [Line()];
      }
    }

    /** One bit in one period: the level the wire takes is the bit the monitor gets. */
    method ClockBit() returns (high: bool)
      requires Valid() && !scl
      modifies this`scl, this`period, this`trace
      ensures Valid() && !scl && period == old(period) + 1
      ensures high == old(Line().sda) && Seen().events == old(Seen().events) + [Bit(high)]
    {
      SclRelease();
      high := SdaRead();
      SclLow();
    }

    /** Between transactions: the bus is free, or held after a transaction without a stop. */
    ghost predicate Idle()
      reads this
    {
      Valid() && Seen().pending == None && (scl ==> sda)
    }

    method Start()
      requires Idle() && !Pull(pulls, period)
      modifies this`scl, this`sda, this`trace
      ensures Valid() && scl && !sda && Seen().pending == None
      ensures Seen().events == old(Seen().events) + [Event.Start]
    {
      SdaRelease();
      SclRelease();
      SdaLow();
    }

    method Stop()
      requires Valid() && !scl && !Pull(pulls, period)
      modifies this`scl, this`sda, this`trace
      ensures Idle() && scl && Seen().events == old(Seen().events) + [Event.Stop]
    {
      SdaLow();
      SclRelease();
      SdaRelease();
    }

    /** Where the next byte begins. */
    ghost function Base(): nat
      reads this
    {
      if scl then period + 1 else period
    }

    /** Puts a level on the data wire and clocks it. */
    method SendBit(high: bool)
      requires Valid() && !scl && !Pull(pulls, period)
      modifies this`scl, this`sda, this`period, this`trace
      ensures Valid() && !scl && period == old(period) + 1 && Seen().events == old(Seen().events) + [Bit(high)]
    {
      if high {
        SdaRelease();
      } else {
        SdaLow();
      }
      var level := ClockBit();
    }

    method SendBits(val: byte)
      requires Valid() && !scl && Listens(pulls, period)
      modifies this`scl, this`sda, this`period, this`trace
      ensures Valid() && !scl && period == old(period) + 8
      ensures Seen().events == old(Seen().events) + FirstBits(val, 8)
    {
      hide BitOf;
      ghost var base, start := period, Seen().events;
      var i: int := 7;
      while i >= 0
        invariant -1 <= i <= 7 && Valid() && !scl && period == base + 7 - i
        invariant Seen().events == start + FirstBits(val, 7 - i)
      {
        SendBit(BitOf(val, i));
        Appended(start, FirstBits(val, 7 - i), Bit(BitOf(val, i)));
        i := i - 1;
      }
    }

    /** Sends a byte; the result is 0 when it was acknowledged. */
    method WriteByte(val: byte) returns (ret: int)
      requires Valid() && Seen().pending == None && Listens(pulls, Base())
      modifies this`scl, this`sda, this`period, this`trace
      ensures Valid() && !scl && sda && period == old(Base()) + 9
      ensures ret == if Pull(pulls, old(Base()) + 8) then 0 else 1
      ensures Seen().events == old(Seen().events) + FrameEvents(Frame(val, ret != 0))
    {
      hide FirstBits;
      ghost var start := Seen().events;
      SclLow();
      SendBits(val);
      SdaRelease();
      var ack := ClockBit();
      ret := if ack then 1 else 0;
      Appended(start, FirstBits(val, 8), Bit(ack));
    }

    method ReceiveBits() returns (data: nat)
      requires Valid() && !scl && sda
      modifies this`scl, this`period, this`trace
      ensures Valid() && !scl && period == old(period) + 8
      ensures data == Value(SlaveBits(pulls, old(period), 8))
      ensures Seen().events == old(Seen().events) + SlaveBits(pulls, old(period), 8)
    {
      hide Value, SlaveBits, Pull;
      ghost var base, start := period, Seen().events;
      var i: int := 7;
      data := 0;
      NoBits(pulls, base, start);
      while i >= 0
        invariant -1 <= i <= 7 && Valid() && !scl && period == base + 7 - i
        invariant data == Value(SlaveBits(pulls, base, 7 - i))
        invariant Seen().events == start + SlaveBits(pulls, base, 7 - i)
      {
        var high := ClockBit();
        OneMoreBit(pulls, base, 7 - i);
        Appended(start, SlaveBits(pulls, base, 7 - i), Bit(high));
        data := 2 * data + if high then 1 else 0;
        i := i - 1;
      }
    }

    /** Receives a byte and answers it. */
    method ReadByte(nack: bool) returns (val: byte)
      requires Valid() && !scl && sda && (nack ==> !Pull(pulls, period + 8))
      modifies this`scl, this`sda, this`period, this`trace
      ensures Valid() && !scl && sda && period == old(period) + 9
      ensures val == SlaveByte(pulls, old(period))
      ensures Seen().events == old(Seen().events) + FrameEvents(Frame(val, nack))
    {
      hide FirstBits, Value, SlaveBits;
      ghost var base, start := period, Seen().events;
      SclLow();
      var data := ReceiveBits();
      val := ReceivedByte(data, base);
      if !nack {
        SdaLow();
      }
      var level := ClockBit();
      SdaRelease();
      SlaveBitsAgain(pulls, base);
      Appended(start, SlaveBits(pulls, base, 8), Bit(nack));
    }

    method ReceivedByte(data: nat, ghost base: nat) returns (val: byte)
      requires data == Value(SlaveBits(pulls, base, 8))
      ensures val == SlaveByte(pulls, base) && val == data
    {
      ValueBounded(SlaveBits(pulls, base, 8));
      EightBits();
      val := data;
    }

    /** Sends bytes until all are sent or one is refused. */
    method WriteAll(src: seq<byte>) returns (acks: nat)
      requires Valid() && !scl && sda && ListensTo(pulls, period, |src|)
      modifies this`scl, this`sda, this`period, this`trace
      ensures Valid() && !scl && sda && !Pull(pulls, period)
      ensures var data := Sent(pulls, old(period), src);
              acks == Acks(data) && Seen().events == old(Seen().events) + Frames(data)
    {
      hide FrameEvents, Listens, Pull, Frames, Acks, Sent, ListensTo;
      ghost var all, start := Sent(pulls, period, src), Seen().events;
      ghost var done: seq<Frame> := [];
      acks := 0;
      NoFrames(start, all);
      var k := 0;
      while k < |src|
        invariant k <= |src| && Valid() && !scl && sda && ListensTo(pulls, period, |src| - k)
        invariant all == done + Sent(pulls, period, src[k..]) && Acks(all) == acks + Acks(Sent(pulls, period, src[k..]))
        invariant Seen().events == start + Frames(done)
      {
        ListensNow(pulls, period, |src| - k);
        SentNext(pulls, period, src[k..]);
        ghost var now := Seen().events;
        var ret := WriteByte(src[k]);
        ghost var f := Frame(src[k], ret != 0);
        MoreFrames(start, done, f, if ret != 0 then [] else Sent(pulls, period, src[k..][1..]));
        done := done + [f];
        if ret != 0 {
          NoneLeft(done);
          return;
        }
        assert src[k..][1..] == src[k + 1..];
        acks := acks + 1;
        k := k + 1;
      }
      ListensNow(pulls, period, 0);
      SentNone(pulls, period, src[k..]);
      NoneLeft(done);
    }

    /** Writes `src` to a slave: the result counts the acknowledged bytes, or says that no
        slave answered.  The monitor sees exactly this transaction. */
    method WriteTo(addr: nat, src: seq<byte>, stop: bool) returns (ret: int)
      requires Idle() && !Pull(pulls, period) && ListensTo(pulls, period + 1, 1 + |src|)
      modifies this`scl, this`sda, this`period, this`trace
      ensures Idle() && (scl <==> stop || ret < 0)
      ensures var base := old(period) + 1;
              var answered := Pull(pulls, base + 8);
              var data := if answered then Sent(pulls, base + 9, src) else [];
              && ret == (if answered then Acks(data) else -ENODEV)
              && Seen().events == old(Seen().events)
                 + TransactionEvents(Frame(2 * addr % 256, !answered), data, stop || !answered)
    {
      hide Frames, Listens, FrameEvents, Pull, Acks, Sent, ListensTo, TransactionEvents;
      ghost var before, base := Seen().events, period + 1;
      ListensNow(pulls, base, 1 + |src|);
      Start();
      ret := WriteByte(2 * addr % 256);
      ghost var head := Frame(2 * addr % 256, ret != 0);
      if ret != 0 {
        Stop();
        Whole(before, head, [], true);
        return -ENODEV;
      }
      ret := WriteAll(src);
      ghost var data := Sent(pulls, base + 9, src);
      if stop {
        Stop();
      }
      Whole(before, head, data, stop);
    }

    /** Receives `n` bytes; the last one is refused, which tells the slave that it was. */
    method ReadAll(n: nat) returns (dest: seq<byte>)
      requires Valid() && !scl && sda && LeavesAcks(pulls, period, n)
      modifies this`scl, this`sda, this`period, this`trace
      ensures Valid() && !scl && sda && !Pull(pulls, period)
      ensures var data := Received(pulls, old(period), n);
              dest == Data(data) && Seen().events == old(Seen().events) + Frames(data)
    {
      hide FrameEvents, Pull, Frames, Received, LeavesAcks, Data, SlaveByte;
      ghost var all, start := Received(pulls, period, n), Seen().events;
      ghost var done: seq<Frame> := [];
      dest := [];
      NoFrames(start, all);
      assert dest + Data(all) == Data(all);
      var len := n;
      while len > 0
        invariant 0 <= len <= n && Valid() && !scl && sda && LeavesAcks(pulls, period, len)
        invariant all == done + Received(pulls, period, len) && Data(all) == dest + Data(Received(pulls, period, len))
        invariant Seen().events == start + Frames(done)
      {
        ReceivedNext(pulls, period, len);
        len := len - 1;
        ghost var f := Frame(SlaveByte(pulls, period), len == 0);
        ghost var more := Data(Received(pulls, period + 9, len));
        var val := ReadByte(len == 0);
        MoreFrames(start, done, f, Received(pulls, period, len));
        assert dest + ([val] + more) == (dest + [val]) + more;
        done := done + [f];
        dest := dest + [val];
      }
      ReceivedNone(pulls, period);
      NoneLeft(done);
      assert dest + [] == dest;
    }

    /** Reads `len` bytes from a slave.  The bytes returned are the ones the monitor sees. */
    method ReadFrom(addr: nat, len: nat, stop: bool) returns (ret: int, dest: seq<byte>)
      requires Idle() && !Pull(pulls, period) && Listens(pulls, period + 1)
      requires if Pull(pulls, period + 9) then LeavesAcks(pulls, period + 10, len) else !Pull(pulls, period + 10)
      modifies this`scl, this`sda, this`period, this`trace
      ensures Idle() && (scl <==> stop || ret < 0)
      ensures var base := old(period) + 1;
              var answered := Pull(pulls, base + 8);
              var data := if answered then Received(pulls, base + 9, len) else [];
              && ret == (if answered then 0 else -ENODEV) && dest == Data(data)
              && Seen().events == old(Seen().events)
                 + TransactionEvents(Frame((2 * addr + 1) % 256, !answered), data, stop || !answered)
    {
      hide Frames, Listens, FrameEvents, Pull, Received, LeavesAcks, TransactionEvents;
      ghost var before, base := Seen().events, period + 1;
      Start();
      ret := WriteByte((2 * addr + 1) % 256);
      ghost var head := Frame((2 * addr + 1) % 256, ret != 0);
      if ret != 0 {
        Stop();
        Whole(before, head, [], true);
        return -ENODEV, [];
      }
      dest := ReadAll(len);
      ghost var data := Received(pulls, base + 9, len);
      if stop {
        Stop();
      }
      Whole(before, head, data, stop);
    }
  }

  /** What a transaction that begins with the address byte `head` looks like. */
  ghost function TransactionEvents(head: Frame, data: seq<Frame>, stopped: bool): seq<Event> {
    [Event.Start] + Events(Transaction([head] + data, stopped))
  }

  lemma Whole(before: seq<Event>, head: Frame, data: seq<Frame>, stopped: bool)
    ensures before + [Event.Start] + FrameEvents(head) + Frames(data) + (if stopped then [Event.Stop] else [])
            == before + TransactionEvents(head, data, stopped)
    ensures before + [Event.Start] + FrameEvents(head) + Frames([]) == before + [Event.Start] + FrameEvents(head)
    ensures !stopped ==>
              before + [Event.Start] + FrameEvents(head) + Frames(data)
              == before + TransactionEvents(head, data, stopped)
  {
    hide FrameEvents;
    assert ([head] + data)[1..] == data;
    assert Frames([head] + data) == FrameEvents(head) + Frames(data);
  }

  /** A seven-bit address is read back from the first byte, with the direction bit. */
  lemma AddressParsed(addr: nat, read: bool, data: seq<Frame>, nack: bool, stopped: bool)
    requires addr < 128
    ensures var head := Frame((2 * addr + (if read then 1 else 0)) % 256, nack);
            && Parse(TransactionEvents(head, data, stopped)) == Some(Transaction([head] + data, stopped))
            && head.data / 2 == addr && (head.data % 2 == 1 <==> read)
  {
    var head := Frame((2 * addr + (if read then 1 else 0)) % 256, nack);
    TransactionParsed(Transaction([head] + data, stopped));
  }

  /** Byte `i` of those read is the one on the wire at its time, and only the last is refused. */
  lemma {:induction false} ReceivedAre(pulls: seq<bool>, from: nat, n: nat, i: nat)
    requires i < n
    ensures |Received(pulls, from, n)| == n
    ensures Received(pulls, from, n)[i] == Frame(SlaveByte(pulls, from + 9 * i), i == n - 1)
    decreases n
  {
    hide SlaveByte;
    if i > 0 {
      ReceivedAre(pulls, from + 9, n - 1, i - 1);
    } else if n > 1 {
      ReceivedAre(pulls, from + 9, n - 1, 0);
    }
  }

  /** A transfer takes eight periods for the byte: bit `i` is low if the slave pulls then. */
  lemma {:induction false} SlaveBitAt(pulls: seq<bool>, from: nat, n: nat, i: nat)
    requires i < n
    ensures SlaveBits(pulls, from, n)[i] == Bit(!(from + i < |pulls| && pulls[from + i]))
    decreases n
  {
    if i < n - 1 {
      SlaveBitAt(pulls, from, n - 1, i);
    }
  }

  /** The bytes sent are a prefix of those given; every one but perhaps the last was
      acknowledged, and only a refusal ends it early. */
  lemma {:induction false} SentIsPrefix(pulls: seq<bool>, from: nat, src: seq<byte>)
    ensures var fs := Sent(pulls, from, src);
            && |fs| <= |src| && Data(fs) == src[..|fs|]
            && (forall i :: 0 <= i < |fs| - 1 ==> !fs[i].nack)
            && (|fs| < |src| ==> fs != [] && fs[|fs| - 1].nack)
    decreases |src|
  {
    hide Pull;
    if src != [] {
      SentIsPrefix(pulls, from + 9, src[1..]);
      SentShape(pulls, from, src);
      hide Sent, Data;
      var fs := Sent(pulls, from, src);
      assert src[..|fs|] == [src[0]] + src[1..][..|fs| - 1];
    }
  }

  /** The count is that of the bytes before a refusal. */
  lemma {:induction false} SentCounts(pulls: seq<bool>, from: nat, src: seq<byte>)
    ensures var fs := Sent(pulls, from, src);
            Acks(fs) == if fs != [] && fs[|fs| - 1].nack then |fs| - 1 else |fs|
    decreases |src|
  {
    hide Pull, Sent, Acks, Data;
    if src == [] {
      SentNone(pulls, from, src);
    } else {
      SentCounts(pulls, from + 9, src[1..]);
      SentShape(pulls, from, src);
    }
  }

  lemma SentShape(pulls: seq<bool>, from: nat, src: seq<byte>)
    requires src != []
    ensures var fs, rest := Sent(pulls, from, src), Sent(pulls, from + 9, src[1..]);
            if Pull(pulls, from + 8)
            then fs == [Frame(src[0], false)] + rest && Data(fs) == [src[0]] + Data(rest) && Acks(fs) == 1 + Acks(rest)
            else fs == [Frame(src[0], true)] && Data(fs) == [src[0]] && Acks(fs) == 0
  {
    var fs := Sent(pulls, from, src);
    if Pull(pulls, from + 8) {
      assert fs[1..] == Sent(pulls, from + 9, src[1..]);
    } else {
      assert fs[1..] == [];
    }
  }

  lemma ListensNow(pulls: seq<bool>, from: nat, n: nat)
    requires ListensTo(pulls, from, n)
    ensures !Pull(pulls, from)
    ensures n > 0 ==> Listens(pulls, from) && !Pull(pulls, from + 9)
    ensures n > 0 && Pull(pulls, from + 8) ==> ListensTo(pulls, from + 9, n - 1)
  {
    if n > 0 && Pull(pulls, from + 8) {
      ListensFree(pulls, from + 9, n - 1);
    }
  }

  lemma ListensFree(pulls: seq<bool>, from: nat, n: nat)
    requires ListensTo(pulls, from, n)
    ensures !Pull(pulls, from)
  {
  }

  lemma SentNext(pulls: seq<bool>, from: nat, src: seq<byte>)
    requires src != []
    ensures Pull(pulls, from + 8) ==> Sent(pulls, from, src) == [Frame(src[0], false)] + Sent(pulls, from + 9, src[1..])
    ensures Pull(pulls, from + 8) ==> Acks(Sent(pulls, from, src)) == 1 + Acks(Sent(pulls, from + 9, src[1..]))
    ensures !Pull(pulls, from + 8) ==>
              Sent(pulls, from, src) == [Frame(src[0], true)] && Acks(Sent(pulls, from, src)) == 0
  {
    SentShape(pulls, from, src);
  }

  lemma SentNone(pulls: seq<bool>, from: nat, src: seq<byte>)
    requires src == []
    ensures Sent(pulls, from, src) == [] && Acks(Sent(pulls, from, src)) == 0
  {
  }

  lemma NoneLeft(done: seq<Frame>)
    ensures done + [] == done
  {
  }

  lemma NoFrames(start: seq<Event>, all: seq<Frame>)
    ensures start + Frames([]) == start && [] + all == all
  {
  }

  lemma MoreFrames(start: seq<Event>, done: seq<Frame>, f: Frame, rest: seq<Frame>)
    ensures (start + Frames(done)) + FrameEvents(f) == start + Frames(done + [f])
    ensures done + ([f] + rest) == (done + [f]) + rest
  {
    FramesMore(done, f);
    hide FrameEvents, Frames;
  }

  lemma ReceivedNext(pulls: seq<bool>, from: nat, n: nat)
    requires n > 0 && LeavesAcks(pulls, from, n)
    ensures !Pull(pulls, from + 8) && LeavesAcks(pulls, from + 9, n - 1)
    ensures var rest := Received(pulls, from + 9, n - 1);
            var f := Frame(SlaveByte(pulls, from), n == 1);
            Received(pulls, from, n) == [f] + rest && Data(Received(pulls, from, n)) == [f.data] + Data(rest)
  {
    var fs := Received(pulls, from, n);
    assert fs[1..] == Received(pulls, from + 9, n - 1);
  }

  lemma ReceivedNone(pulls: seq<bool>, from: nat)
    requires LeavesAcks(pulls, from, 0)
    ensures !Pull(pulls, from) && Received(pulls, from, 0) == [] && Data([]) == []
  {
  }

  lemma NoBits(pulls: seq<bool>, base: nat, start: seq<Event>)
    ensures Value(SlaveBits(pulls, base, 0)) == 0 && start + SlaveBits(pulls, base, 0) == start
  {
  }

  lemma OneMoreBit(pulls: seq<bool>, base: nat, n: nat)
    ensures var b := !Pull(pulls, base + n);
            && SlaveBits(pulls, base, n + 1) == SlaveBits(pulls, base, n) + [Bit(b)]
            && Value(SlaveBits(pulls, base, n + 1)) == 2 * Value(SlaveBits(pulls, base, n)) + (if b then 1 else 0)
  {
    ValueMore(SlaveBits(pulls, base, n), !Pull(pulls, base + n));
  }

  lemma Appended(start: seq<Event>, es: seq<Event>, e: Event)
    ensures (start + es) + [e] == start + (es + [e])
  {
  }

  /** The bits of the byte received are the bits that were sent. */
  lemma SlaveBitsAgain(pulls: seq<bool>, base: nat)
    ensures FirstBits(SlaveByte(pulls, base), 8) == SlaveBits(pulls, base, 8)
  {
    BitsOfValue(SlaveByte(pulls, base), SlaveBits(pulls, base, 8), 8);
  }

  lemma {:induction false} BitsOfValue(v: byte, es: seq<Event>, n: nat)
    requires n <= 8 && |es| == n && AllBits(es) && Value(es) == v / Power2(8 - n)
    ensures FirstBits(v, n) == es
  {
    if n > 0 {
      var before := es[..n - 1];
      HalveMore(v, Power2(8 - n));
      BitsOfValue(v, before, n - 1);
      assert es == before + [es[n - 1]];
    }
  }
}
