/** What a monitor of the two wires of an I2C bus sees (sections 3.1.3 to 3.1.6 of the
    UM10204 specification), and how it reads a transaction out of it. */
module I2CBus {
  import opened Basics

  /** The levels of the clock and the data wire at one moment. */
  datatype Sample = Sample(scl: bool, sda: bool)

  datatype Event = Start | Stop | Bit(high: bool)

  /** `pending` is the bit clocked in by the current high phase of the clock; it counts
      only if that phase ends without a start or a stop. */
  datatype Monitor = Monitor(scl: bool, sda: bool, pending: Option<bool>, events: seq<Event>)

  function Committed(pending: Option<bool>): seq<Event> {
    match pending
    case None => []
    case Some(b) => [Bit(b)]
  }

  /** Data may change only while the clock is low; a change while it is high is a start
      (falling) or a stop (rising). */
  function See(m: Monitor, s: Sample): Monitor {
    if m.scl && s.scl then
      if m.sda == s.sda then m
      else Monitor(true, s.sda, None, m.events + [if s.sda then Stop else Start])
    else if s.scl then Monitor(true, s.sda, Some(s.sda), m.events)
    else if m.scl then Monitor(false, s.sda, None, m.events + Committed(m.pending))
    else Monitor(false, s.sda, m.pending, m.events)
  }

  /** What the monitor has after the whole trace. */
  function Watch(trace: seq<Sample>): Monitor
    requires trace != []
  {
    var last := trace[|trace| - 1];
    if |trace| == 1 then Monitor(last.scl, last.sda, None, [])
    else See(Watch(trace[..|trace| - 1]), last)
  }

  lemma WatchMore(trace: seq<Sample>, s: Sample)
    requires trace != []
    ensures Watch(trace + [s]) == See(Watch(trace), s)
  {
    assert (trace + [s])[..|trace|] == trace;
  }

  // ---- bytes on the bus ----

  /** Bit `i` of `v`, the most significant one being bit 7. */
  function BitOf(v: nat, i: nat): bool { v / Power2(i) % 2 == 1 }

  /** The first `n` bits of a byte, most significant first. */
  function FirstBits(v: byte, n: nat): (es: seq<Event>)
    requires n <= 8
    ensures |es| == n && forall i :: 0 <= i < n ==> es[i].Bit?
  {
    if n == 0 then [] else FirstBits(v, n - 1) + [Bit(BitOf(v, 8 - n))]
  }

  /** The number that bits stand for. */
  function Value(es: seq<Event>): nat
    requires forall i :: 0 <= i < |es| ==> es[i].Bit?
  {
    if es == [] then 0 else 2 * Value(es[..|es| - 1]) + (if es[|es| - 1].high then 1 else 0)
  }

  lemma {:induction false} ValueBounded(es: seq<Event>)
    requires forall i :: 0 <= i < |es| ==> es[i].Bit?
    ensures Value(es) < Power2(|es|)
  {
    if es != [] {
      ValueBounded(es[..|es| - 1]);
    }
  }

  lemma ValueMore(es: seq<Event>, b: bool)
    requires forall i :: 0 <= i < |es| ==> es[i].Bit?
    ensures Value(es + [Bit(b)]) == 2 * Value(es) + (if b then 1 else 0)
  {
    assert (es + [Bit(b)])[..|es|] == es;
  }

  /** Bits sent most significant first stand for the byte they came from. */
  lemma {:induction false} BitsGiveValue(v: byte, n: nat)
    requires n <= 8
    ensures Value(FirstBits(v, n)) == v / Power2(8 - n)
  {
    if n == 0 {
      EightBits();
    } else {
      BitsGiveValue(v, n - 1);
      ValueMore(FirstBits(v, n - 1), BitOf(v, 8 - n));
      HalveMore(v, Power2(8 - n));
    }
  }

  // ---- the wire in plain terms ----

  /** What a monitor makes of two or three samples. */
  lemma KnownSamples(b: bool)
    ensures Watch([Sample(true, true), Sample(true, false)]).events == [Start]
    ensures Watch([Sample(true, false), Sample(true, true)]).events == [Stop]
    ensures Watch([Sample(false, b), Sample(true, b), Sample(false, !b)]).events == [Bit(b)]
    ensures Watch([Sample(false, b), Sample(false, !b), Sample(true, !b)]).events == []
  {
    TwoSamples(Sample(true, true), Sample(true, false));
    TwoSamples(Sample(true, false), Sample(true, true));
    ThreeSamples(Sample(false, b), Sample(true, b), Sample(false, !b));
    ThreeSamples(Sample(false, b), Sample(false, !b), Sample(true, !b));
  }

  lemma TwoSamples(a: Sample, b: Sample)
    ensures Watch([a, b]) == See(Monitor(a.scl, a.sda, None, []), b)
  {
    assert [a, b][..1] == [a];
  }

  lemma ThreeSamples(a: Sample, b: Sample, c: Sample)
    ensures Watch([a, b, c]) == See(Watch([a, b]), c)
    ensures Watch([a, b]) == See(Monitor(a.scl, a.sda, None, []), b)
  {
    assert [a, b, c][..2] == [a, b];
    TwoSamples(a, b);
  }

  /** A byte goes over the wire with its most significant bit first, and the acknowledge bit last. */
  lemma FrameInBits(f: Frame)
    ensures FrameEvents(f)[0] == Bit(f.data / 128 % 2 == 1) && FrameEvents(f)[1] == Bit(f.data / 64 % 2 == 1)
    ensures FrameEvents(f)[2] == Bit(f.data / 32 % 2 == 1) && FrameEvents(f)[3] == Bit(f.data / 16 % 2 == 1)
    ensures FrameEvents(f)[4] == Bit(f.data / 8 % 2 == 1) && FrameEvents(f)[5] == Bit(f.data / 4 % 2 == 1)
    ensures FrameEvents(f)[6] == Bit(f.data / 2 % 2 == 1) && FrameEvents(f)[7] == Bit(f.data % 2 == 1)
    ensures FrameEvents(f)[8] == Bit(f.nack)
  {
    EightPowers();
    forall i: nat | i < 8 ensures FrameEvents(f)[i] == Bit(f.data / Power2(7 - i) % 2 == 1) {
      FirstBitAt(f.data, 8, i);
    }
    hide FrameEvents, Power2;
    assert FrameEvents(f)[0] == Bit(f.data / Power2(7 - 0) % 2 == 1);
    assert FrameEvents(f)[1] == Bit(f.data / Power2(7 - 1) % 2 == 1);
    assert FrameEvents(f)[2] == Bit(f.data / Power2(7 - 2) % 2 == 1);
    assert FrameEvents(f)[3] == Bit(f.data / Power2(7 - 3) % 2 == 1);
    assert FrameEvents(f)[4] == Bit(f.data / Power2(7 - 4) % 2 == 1);
    assert FrameEvents(f)[5] == Bit(f.data / Power2(7 - 5) % 2 == 1);
    assert FrameEvents(f)[6] == Bit(f.data / Power2(7 - 6) % 2 == 1);
    assert FrameEvents(f)[7] == Bit(f.data / Power2(7 - 7) % 2 == 1);
    LastBit(f);
  }

  lemma LastBit(f: Frame)
    ensures FrameEvents(f)[8] == Bit(f.nack)
  {
  }

  lemma {:induction false} FirstBitAt(v: byte, n: nat, i: nat)
    requires i < n <= 8
    ensures FirstBits(v, n)[i] == Bit(v / Power2(7 - i) % 2 == 1)
  {
    if i < n - 1 {
      FirstBitAt(v, n - 1, i);
    }
  }

  lemma EightPowers()
    ensures Power2(0) == 1 && Power2(1) == 2 && Power2(2) == 4 && Power2(3) == 8
    ensures Power2(4) == 16 && Power2(5) == 32 && Power2(6) == 64 && Power2(7) == 128
  {
    assert Power2(3) == 8;
    assert Power2(5) == 32;
  }

  /** Eight bits as read from the wire are a byte, the first bit the most significant. */
  lemma ByteInBits(a: bool, b: bool, c: bool, d: bool, e: bool, f: bool, g: bool, h: bool)
    ensures ByteFrom([Bit(a), Bit(b), Bit(c), Bit(d), Bit(e), Bit(f), Bit(g), Bit(h)])
            == (if a then 128 else 0) + (if b then 64 else 0) + (if c then 32 else 0) + (if d then 16 else 0)
               + (if e then 8 else 0) + (if f then 4 else 0) + (if g then 2 else 0) + (if h then 1 else 0)
  {
    FourMore([], a, b, c, d);
    hide Value;
    var four := [Bit(a), Bit(b), Bit(c), Bit(d)];
    assert [] + four == four;
    FourMore(four, e, f, g, h);
    assert four + [Bit(e), Bit(f), Bit(g), Bit(h)]
           == [Bit(a), Bit(b), Bit(c), Bit(d), Bit(e), Bit(f), Bit(g), Bit(h)];
  }

  lemma {:induction false} FourMore(es: seq<Event>, e: bool, f: bool, g: bool, h: bool)
    requires AllBits(es)
    ensures AllBits(es + [Bit(e), Bit(f), Bit(g), Bit(h)])
    ensures Value(es + [Bit(e), Bit(f), Bit(g), Bit(h)])
            == 16 * Value(es) + (if e then 8 else 0) + (if f then 4 else 0)
               + (if g then 2 else 0) + (if h then 1 else 0)
  {
    hide Value;
    var two := es + [Bit(e), Bit(f)];
    TwoMore(es, e, f);
    TwoMore(two, g, h);
    assert two + [Bit(g), Bit(h)] == es + [Bit(e), Bit(f), Bit(g), Bit(h)];
  }

  lemma {:induction false} TwoMore(es: seq<Event>, e: bool, f: bool)
    requires AllBits(es)
    ensures AllBits(es + [Bit(e), Bit(f)])
    ensures Value(es + [Bit(e), Bit(f)]) == 4 * Value(es) + (if e then 2 else 0) + (if f then 1 else 0)
  {
    ValueMore(es, e);
    ValueMore(es + [Bit(e)], f);
    hide Value;
    assert es + [Bit(e)] + [Bit(f)] == es + [Bit(e), Bit(f)];
  }

  lemma EightBits()
    ensures Power2(8) == 256
  {
    assert Power2(4) == 16;
  }

  lemma HalveMore(v: nat, p: nat)
    requires p > 0
    ensures v / p == 2 * (v / (2 * p)) + v / p % 2
  {
    HalfOfQuotient(v, p);
  }

  lemma HalfOfQuotient(v: nat, p: nat)
    requires p > 0
    ensures v / (2 * p) == v / p / 2
  {
    var q, r := v / p, v % p;
    var h, b := q / 2, q % 2;
    assert v == p * q + r;
    assert p * q == (2 * p) * h + p * b by {
      assert q == 2 * h + b;
      Distribute(p, h, b);
    }
    RemainderIs(v, 2 * p, h, p * b + r);
  }

  lemma Distribute(p: nat, h: nat, b: nat)
    ensures p * (2 * h + b) == (2 * p) * h + p * b
  {
  }

  /** A byte and the level of the acknowledge bit after it; low acknowledges. */
  datatype Frame = Frame(data: byte, nack: bool)

  function FrameEvents(f: Frame): (es: seq<Event>)
    ensures |es| == 9 && forall i :: 0 <= i < 9 ==> es[i].Bit?
  {
    FirstBits(f.data, 8) + [Bit(f.nack)]
  }

  function Frames(fs: seq<Frame>): seq<Event> {
    if fs == [] then [] else FrameEvents(fs[0]) + Frames(fs[1..])
  }

  lemma {:induction false} FramesMore(fs: seq<Frame>, f: Frame)
    ensures Frames(fs + [f]) == Frames(fs) + FrameEvents(f)
  {
    if fs == [] {
      assert fs + [f] == [f];
      assert [f][1..] == [];
      assert Frames([f]) == FrameEvents(f) + Frames([]);
    } else {
      FramesMore(fs[1..], f);
      assert (fs + [f])[1..] == fs[1..] + [f];
      assert FrameEvents(fs[0]) + (Frames(fs[1..]) + FrameEvents(f))
             == (FrameEvents(fs[0]) + Frames(fs[1..])) + FrameEvents(f);
    }
  }

  /** A transaction as a monitor understands it. */
  datatype Transaction = Transaction(frames: seq<Frame>, stopped: bool)

  predicate AllBits(es: seq<Event>) {
    forall i :: 0 <= i < |es| ==> es[i].Bit?
  }

  function ByteFrom(es: seq<Event>): byte
    requires |es| == 8 && AllBits(es)
  {
    ValueBounded(es);
    EightBits();
    Value(es)
  }

  /** Nine bits are a byte and its acknowledgement; a stop may come only between bytes. */
  function ParseFrames(es: seq<Event>): Option<Transaction> {
    if es == [] then Some(Transaction([], false))
    else if es == [Stop] then Some(Transaction([], true))
    else if |es| < 9 || !AllBits(es[..9]) then None
    else match ParseFrames(es[9..])
      case None => None
      case Some(t) => Some(Transaction([Frame(ByteFrom(es[..8]), es[8].high)] + t.frames, t.stopped))
  }

  function Parse(es: seq<Event>): Option<Transaction> {
    if es == [] || es[0] != Start then None else ParseFrames(es[1..])
  }

  function Events(t: Transaction): seq<Event> {
    Frames(t.frames) + if t.stopped then [Stop] else []
  }

  /** The monitor reads back exactly the bytes and acknowledgements of a transaction. */
  lemma {:induction false} FramesParsed(t: Transaction)
    ensures ParseFrames(Events(t)) == Some(t)
    decreases |t.frames|
  {
    if t.frames != [] {
      var f, rest := t.frames[0], Transaction(t.frames[1..], t.stopped);
      var es := Events(t);
      assert es == FrameEvents(f) + Events(rest);
      assert es[..9] == FrameEvents(f) && es[9..] == Events(rest) && es[..8] == FirstBits(f.data, 8);
      BitsGiveValue(f.data, 8);
      FramesParsed(rest);
      assert [f] + rest.frames == t.frames;
      hide FirstBits, Value;
    }
  }

  lemma TransactionParsed(t: Transaction)
    ensures Parse([Start] + Events(t)) == Some(t)
  {
    FramesParsed(t);
    assert ([Start] + Events(t))[1..] == Events(t);
  }

  // ---- when data may change ----

  /** The data wire changes while the clock stays high. */
  predicate ChangesWhileHigh(a: Sample, b: Sample) { a.scl && b.scl && a.sda != b.sda }

  /** How often it does in a trace. */
  function Changes(trace: seq<Sample>): nat
    requires trace != []
  {
    var n := |trace|;
    if n == 1 then 0 else Changes(trace[..n - 1]) + (if ChangesWhileHigh(trace[n - 2], trace[n - 1]) then 1 else 0)
  }

  /** How many starts and stops there are. */
  function Marks(es: seq<Event>): nat {
    if es == [] then 0 else Marks(es[..|es| - 1]) + (if es[|es| - 1].Bit? then 0 else 1)
  }

  lemma {:induction false} MarksJoin(a: seq<Event>, b: seq<Event>)
    ensures Marks(a + b) == Marks(a) + Marks(b)
  {
    if b == [] {
      assert a + b == a;
    } else {
      MarksJoin(a, b[..|b| - 1]);
      assert (a + b)[..|a + b| - 1] == a + b[..|b| - 1];
    }
  }

  lemma {:induction false} NoMarksInBits(es: seq<Event>)
    requires AllBits(es)
    ensures Marks(es) == 0
  {
    if es != [] {
      NoMarksInBits(es[..|es| - 1]);
    }
  }

  lemma LastSample(trace: seq<Sample>)
    requires trace != []
    ensures Watch(trace).scl == trace[|trace| - 1].scl && Watch(trace).sda == trace[|trace| - 1].sda
  {
  }

  lemma SeeMarks(m: Monitor, s: Sample)
    ensures Marks(See(m, s).events) == Marks(m.events) + (if m.scl && s.scl && m.sda != s.sda then 1 else 0)
  {
    MarksJoin(m.events, [Start]);
    MarksJoin(m.events, [Stop]);
    MarksJoin(m.events, Committed(m.pending));
    NoMarksInBits(Committed(m.pending));
    assert [Start][..0] == [] && [Stop][..0] == [];
    assert Marks([Start]) == 1 && Marks([Stop]) == 1;
  }

  /** The data wire changes while the clock is high exactly as often as the monitor sees a
      start or a stop. */
  lemma {:induction false} ChangesAreMarks(trace: seq<Sample>)
    requires trace != []
    ensures Changes(trace) == Marks(Watch(trace).events)
  {
    if |trace| > 1 {
      var before, last := trace[..|trace| - 1], trace[|trace| - 1];
      ChangesAreMarks(before);
      LastSample(before);
      SeeMarks(Watch(before), last);
      hide See, Marks;
    }
  }

  lemma {:induction false} FramesNoMarks(fs: seq<Frame>)
    ensures Marks(Frames(fs)) == 0
  {
    if fs != [] {
      FramesNoMarks(fs[1..]);
      MarksJoin(FrameEvents(fs[0]), Frames(fs[1..]));
      NoMarksInBits(FrameEvents(fs[0]));
    }
  }

  /** In a transaction that is once at its start and once at its stop, if it has one. */
  lemma {:induction false} TransactionMarks(t: Transaction)
    ensures Marks([Start] + Events(t)) == if t.stopped then 2 else 1
  {
    var end: seq<Event> := if t.stopped then [Stop] else [];
    assert Events(t) == Frames(t.frames) + end;
    OneMark(Start);
    OneMark(Stop);
    hide Marks, Frames, Events;
    MarksJoin([Start], Frames(t.frames) + end);
    MarksJoin(Frames(t.frames), end);
    FramesNoMarks(t.frames);
  }

  lemma {:induction false} OneMark(e: Event)
    ensures Marks([e]) == (if e.Bit? then 0 else 1) && Marks([]) == 0
  {
    assert [e][..0] == [];
  }
}
