/** WebSocket frames (sections 5.2 and 5.3 of RFC 6455) as byte sequences, and what a
    reader owes its caller at any position in a stream of them. */
module WebSocketFrames {
  import opened Basics

  const FIN: byte := 0x80
  const FRAME_TXT: byte := 1
  const FRAME_CLOSE: byte := 8

  /** The low four bits of the first byte of a header. */
  function OpcodeOf(flags: byte): byte { flags % 16 }

  /** A frame as it is on the wire.  `long` says that the length takes 16 bits, which the
      sender may choose for short payloads too. */
  datatype Frame = Frame(flags: byte, masked: bool, key: seq<byte>, wire: seq<byte>, long: bool) {
    function Opcode(): byte { OpcodeOf(flags) }
    predicate Control() { Opcode() >= FRAME_CLOSE }

    /** The length fits its field. */
    predicate Shaped() {
      |key| == 4 && |wire| < (if long then 0x1_0000 else 126)
    }

    /** Unfragmented, not a close frame, and of a length the reader understands. */
    predicate Legal() {
      flags >= FIN && Opcode() != FRAME_CLOSE && Shaped()
    }

    function Key(): (k: seq<byte>)
      ensures |key| == 4 ==> |k| == 4
    {
      if masked then key else [0, 0, 0, 0]
    }

    /** Length and mask key, as far as they follow the first two bytes. */
    function Opt(): seq<byte>
      requires Shaped()
    {
      (if long then LengthBytes(|wire|) else []) + (if masked then key else [])
    }

    function Second(): byte
      requires Shaped()
    {
      (if masked then 0x80 else 0) + (if long then 126 else |wire|)
    }

    function Encode(): (bs: seq<byte>)
      requires Shaped()
      ensures |bs| >= 2 && bs[..2] == [flags, Second()] && bs[2..] == Opt() + wire
    {
      [flags, Second()] + (Opt() + wire)
    }

    /** The payload as the application sees it; control frames carry none. */
    function Data(): seq<byte>
      requires Legal()
    {
      if Control() then [] else Unmask(wire, Key(), 0)
    }
  }

  lemma UnmaskIsBitwise(bs: seq<byte>, key: seq<byte>, at: nat)
    requires |key| == 4
    ensures forall i :: 0 <= i < |bs| ==>
              Unmask(bs, key, at)[i] == ((bs[i] as bv8) ^ (key[(at + i) % 4] as bv8)) as int
  {
    hide Xor;
    forall i | 0 <= i < |bs|
      ensures Unmask(bs, key, at)[i] == ((bs[i] as bv8) ^ (key[(at + i) % 4] as bv8)) as int
    {
      XorIsBitwise(bs[i], key[(at + i) % 4]);
    }
  }

  /** The bytes of a frame, in plain arithmetic. */
  lemma WireFormat(f: Frame)
    requires f.Shaped()
    ensures var bs, n := f.Encode(), |f.wire|;
            var start := 2 + (if f.long then 2 else 0);
            && |bs| == start + (if f.masked then 4 else 0) + n
            && bs[0] == f.flags && bs[1] == (if f.masked then 128 else 0) + (if f.long then 126 else n)
            && (f.long ==> bs[2] == n / 256 && bs[3] == n % 256)
            && (f.masked ==> bs[start..start + 4] == f.key)
            && bs[start + (if f.masked then 4 else 0)..] == f.wire
  {
  }

  /** What a frame carries: byte `i` of the payload is the byte on the wire, combined by
      exclusive or with byte `i % 4` of the key if there is one. */
  lemma DataMeans(f: Frame)
    requires f.Legal()
    ensures f.flags % 16 >= 8 ==> f.Data() == []
    ensures f.flags % 16 < 8 ==>
              && |f.Data()| == |f.wire|
              && forall i :: 0 <= i < |f.wire| ==>
                   f.Data()[i] ==
                   if f.masked then ((f.wire[i] as bv8) ^ (f.key[i % 4] as bv8)) as int else f.wire[i]
  {
    if f.flags % 16 < 8 {
      hide Xor;
      if f.masked {
        UnmaskIsBitwise(f.wire, f.key, 0);
        hide Unmask;
      } else {
        forall i | 0 <= i < |f.wire| ensures f.Data()[i] == f.wire[i] {
          XorZero(f.wire[i]);
        }
      }
    }
  }

  /** A masked frame of two bytes, as a client sends it. */
  lemma KnownMaskedFrame()
    ensures var f := Frame(0x81, true, [1, 2, 3, 4], [0x69, 0x6b], false);
            f.Legal() && f.Encode() == [0x81, 0x82, 1, 2, 3, 4, 0x69, 0x6b] && f.Data() == [0x68, 0x69]
  {
    var f := Frame(0x81, true, [1, 2, 3, 4], [0x69, 0x6b], false);
    KnownXors();
    hide Xor;
    assert f.Data()[0] == Xor(0x69, 1) && f.Data()[1] == Xor(0x6b, 2);
    assert f.Data() == [f.Data()[0], f.Data()[1]];
  }

  lemma KnownXors()
    ensures Xor(0x69, 1) == 0x68 && Xor(0x6b, 2) == 0x69
  {
    assert XorBits(0x69, 1, 8) == 2 * XorBits(0x34, 0, 7) && XorBits(0x6b, 2, 8) == 2 * XorBits(0x35, 1, 7) + 1;
    assert XorBits(0x35, 1, 7) == 2 * XorBits(0x1a, 0, 6);
    ByteRange();
    XorBitsZero(0x34, 7);
    XorBitsZero(0x1a, 6);
  }

  /** The bytes of a message as it is sent. */
  lemma SentBytesAre(opts: byte, data: seq<byte>)
    requires |data| < 0x1_0000
    ensures Sent(opts, data).Encode()
            == (if |data| < 126 then [0x80 + opts % 16, |data|]
                else [0x80 + opts % 16, 126, |data| / 256, |data| % 256]) + data
  {
    assert [] + data == data;
  }

  function BigEndian(high: byte, low: byte): nat {
    var h: int := high;
    256 * h + low
  }

  /** What the second byte of a header says. */
  function ShortLength(second: byte): nat { second % 0x80 }
  predicate HasKey(second: byte) { second >= 0x80 }

  function LengthBytes(n: nat): (bs: seq<byte>)
    requires n < 0x1_0000
    ensures |bs| == 2
  {
    [n / 256, n % 256]
  }

  /** Exclusive or of the low `bits` bits. */
  function XorBits(a: nat, b: nat, bits: nat): (r: nat)
    ensures r < Power2(bits)
  {
    if bits == 0 then 0 else 2 * XorBits(a / 2, b / 2, bits - 1) + (a + b) % 2
  }

  function Xor(a: byte, b: byte): byte {
    ByteRange();
    XorBits(a, b, 8)
  }

  /** It is the exclusive or of bit vectors. */
  lemma XorIsBitwise(a: byte, b: byte)
    ensures Xor(a, b) == ((a as bv8) ^ (b as bv8)) as int
  {
    XorIsBoth(a, b);
    hide Xor;
    assert Count(Both(Bits(a), Bits(b))) == ((a as bv8) ^ (b as bv8)) as int;
  }

  function Bits(a: byte): bv8 { a as bv8 }
  function Count(x: bv8): nat { x as int }
  function Both(x: bv8, y: bv8): bv8 { x ^ y }
  function Upper(x: bv8): bv8 { x >> 1 }

  lemma XorIsBoth(a: byte, b: byte)
    ensures Xor(a, b) == Count(Both(Bits(a), Bits(b)))
  {
    ByteRange();
    var x, y := BitsOf(a, 8), BitsOf(b, 8);
    ThereAndBack(x);
    ThereAndBack(y);
    hide Bits, Count, Both;
    XorOfBits(x, y, 8);
  }

  lemma {:induction false} XorOfBits(x: bv8, y: bv8, bits: nat)
    requires Count(x) < Power2(bits) && Count(y) < Power2(bits)
    ensures XorBits(Count(x), Count(y), bits) == Count(Both(x, y))
    decreases bits
  {
    BothHalves(x, y);
    UpperHalf(x);
    UpperHalf(y);
    UpperHalf(Both(x, y));
    BothNothing(x, y);
    hide Count, Both, Upper;
    if bits > 0 {
      XorOfBits(Upper(x), Upper(y), bits - 1);
    }
  }

  lemma BothNothing(x: bv8, y: bv8)
    ensures Count(x) == 0 && Count(y) == 0 ==> Count(Both(x, y)) == 0
  {
  }

  lemma BothHalves(x: bv8, y: bv8)
    ensures Upper(Both(x, y)) == Both(Upper(x), Upper(y))
    ensures Count(Both(x, y)) % 2 == (Count(x) + Count(y)) % 2
  {
    LowBit(x);
    LowBit(y);
    LowBit(x ^ y);
    BothLow(x, y);
    hide Count;
  }

  lemma LowBit(x: bv8)
    ensures Count(x) % 2 == if x & 1 == 1 then 1 else 0
  {
  }

  lemma BothLow(x: bv8, y: bv8)
    ensures (x ^ y) & 1 == 1 <==> (x & 1 == 1 <==> y & 1 != 1)
    ensures (x ^ y) >> 1 == (x >> 1) ^ (y >> 1)
  {
  }

  lemma UpperHalf(x: bv8)
    ensures Count(Upper(x)) == Count(x) / 2
  {
  }

  lemma ThereAndBack(x: bv8)
    ensures Count(x) < 256 && Bits(Count(x)) == x
  {
  }

  /** The bit vector that stands for a number. */
  function BitsOf(a: nat, bits: nat): (x: bv8)
    requires bits <= 8 && a < Power2(bits)
    ensures Count(x) == a
  {
    if bits == 0 then 0
    else
      var h := BitsOf(a / 2, bits - 1);
      PowersGrow(bits - 1, 7);
      TwiceBits(h);
      if a % 2 == 1 then (h << 1) | 1 else h << 1
  }

  lemma TwiceBits(h: bv8)
    ensures Power2(7) == 128
    ensures Count(h) < 128 ==> Count(h << 1) == 2 * Count(h) && Count((h << 1) | 1) == 2 * Count(h) + 1
  {
  }

  lemma ByteRange()
    ensures Power2(8) == 256
  {
    assert Power2(4) == 16;
  }

  function Unmask(bs: seq<byte>, key: seq<byte>, at: nat): (r: seq<byte>)
    requires |key| == 4
    ensures |r| == |bs|
  {
    seq(|bs|, i requires 0 <= i < |bs| => Xor(bs[i], key[(at + i) % 4]))
  }

  /** The frame a writer sends: complete, unmasked, in the shortest form of the length. */
  function Sent(opts: byte, data: seq<byte>): Frame {
    Frame(FIN + OpcodeOf(opts), false, [0, 0, 0, 0], data, |data| >= 126)
  }

  function SentAll(opts: byte, messages: seq<seq<byte>>): seq<Frame> {
    if messages == [] then [] else [Sent(opts, messages[0])] + SentAll(opts, messages[1..])
  }

  function Joined(messages: seq<seq<byte>>): seq<byte> {
    if messages == [] then [] else messages[0] + Joined(messages[1..])
  }

  /** A reader that meets a written frame hands over what was written. */
  lemma SentReadsBack(opts: byte, data: seq<byte>)
    requires |data| < 0x1_0000 && OpcodeOf(opts) < FRAME_CLOSE
    ensures Sent(opts, data).Legal() && Sent(opts, data).Data() == data
  {
    forall i | 0 <= i < |data| ensures Unmask(data, [0, 0, 0, 0], 0)[i] == data[i] {
      XorZero(data[i]);
    }
  }

  /** Any messages, written one after the other, reach a reader joined together. */
  lemma {:induction false} AllSentReadsBack(opts: byte, messages: seq<seq<byte>>)
    requires OpcodeOf(opts) < FRAME_CLOSE && forall i :: 0 <= i < |messages| ==> |messages[i]| < 0x1_0000
    ensures AllLegal(SentAll(opts, messages)) && DataAll(SentAll(opts, messages)) == Joined(messages)
  {
    if messages != [] {
      SentReadsBack(opts, messages[0]);
      AllSentReadsBack(opts, messages[1..]);
      hide Frame.Data, Frame.Legal, Sent;
      assert SentAll(opts, messages)[1..] == SentAll(opts, messages[1..]);
    }
  }

  lemma Assoc(a: seq<byte>, b: seq<byte>, c: seq<byte>)
    ensures (a + b) + c == a + (b + c)
  {
  }

  /** One more message is one more frame at the end. */
  lemma {:induction false} SentAllMore(opts: byte, messages: seq<seq<byte>>, m: seq<byte>)
    ensures SentAll(opts, messages + [m]) == SentAll(opts, messages) + [Sent(opts, m)]
  {
    if messages == [] {
      assert messages + [m] == [m] && [m][1..] == [];
    } else {
      SentAllMore(opts, messages[1..], m);
      assert (messages + [m])[1..] == messages[1..] + [m];
    }
  }

  lemma SentMore(opts: byte, messages: seq<seq<byte>>, m: seq<byte>)
    requires OpcodeOf(opts) < FRAME_CLOSE && |m| < 0x1_0000 && AllLegal(SentAll(opts, messages))
    ensures Sent(opts, m).Legal() && AllLegal(SentAll(opts, messages + [m]))
    ensures EncodeAll(SentAll(opts, messages + [m])) == EncodeAll(SentAll(opts, messages)) + Sent(opts, m).Encode()
  {
    SentReadsBack(opts, m);
    SentAllMore(opts, messages, m);
    EncodeMore(SentAll(opts, messages), Sent(opts, m));
  }

  /** One more frame is its bytes at the end of the stream. */
  lemma {:induction false} EncodeMore(fs: seq<Frame>, f: Frame)
    requires AllLegal(fs) && f.Legal()
    ensures AllLegal(fs + [f]) && EncodeAll(fs + [f]) == EncodeAll(fs) + f.Encode()
  {
    hide Frame.Encode, Frame.Shaped;
    if fs == [] {
      assert fs + [f] == [f];
      assert [f][1..] == [];
    } else {
      EncodeMore(fs[1..], f);
      assert (fs + [f])[1..] == fs[1..] + [f];
      Assoc(fs[0].Encode(), EncodeAll(fs[1..]), f.Encode());
    }
  }

  ghost predicate AllLegal(fs: seq<Frame>) {
    forall i :: 0 <= i < |fs| ==> fs[i].Legal()
  }

  function EncodeAll(fs: seq<Frame>): seq<byte>
    requires AllLegal(fs)
  {
    if fs == [] then [] else fs[0].Encode() + EncodeAll(fs[1..])
  }

  /** Everything the application is to receive. */
  function DataAll(fs: seq<Frame>): seq<byte>
    requires AllLegal(fs)
  {
    if fs == [] then [] else fs[0].Data() + DataAll(fs[1..])
  }

  /** Masking is its own inverse, so a sender's masked payload is received as it was. */
  lemma MaskingUndone(payload: seq<byte>, key: seq<byte>, at: nat)
    requires |key| == 4
    ensures Unmask(Unmask(payload, key, at), key, at) == payload
  {
    forall i | 0 <= i < |payload| ensures Unmask(Unmask(payload, key, at), key, at)[i] == payload[i] {
      XorTwice(payload[i], key[(at + i) % 4]);
    }
  }

  lemma XorTwice(a: byte, b: byte)
    ensures Xor(Xor(a, b), b) == a
  {
    ByteRange();
    XorBitsTwice(a, b, 8);
  }

  lemma {:induction false} XorBitsTwice(a: nat, b: nat, bits: nat)
    requires a < Power2(bits)
    ensures XorBits(XorBits(a, b, bits), b, bits) == a
  {
    if bits > 0 {
      XorBitsTwice(a / 2, b / 2, bits - 1);
      Halves(XorBits(a / 2, b / 2, bits - 1), a, b);
    }
  }

  lemma Halves(h: nat, a: nat, b: nat)
    ensures (2 * h + (a + b) % 2) / 2 == h
    ensures (2 * h + (a + b) % 2 + b) % 2 == a % 2
  {
    Even(h + b - (a + b) / 2, a);
  }

  lemma Even(k: int, a: int)
    ensures (2 * k + a) % 2 == a % 2
  {
  }

  lemma XorZero(a: byte)
    ensures Xor(a, 0) == a
  {
    ByteRange();
    XorBitsZero(a, 8);
  }

  lemma {:induction false} XorBitsZero(a: nat, bits: nat)
    requires a < Power2(bits)
    ensures XorBits(a, 0, bits) == a
  {
    if bits > 0 {
      XorBitsZero(a / 2, bits - 1);
    }
  }

  /** The key repeats every four bytes, so counting modulo 256 leaves its place the same. */
  lemma KeyPlace(at: nat, i: nat)
    ensures (at % 256 + i) % 4 == (at + i) % 4
  {
    var q, r := at / 256, at % 256;
    assert at + i == r + i + 4 * (64 * q);
    Fours(r + i, 64 * q);
  }

  lemma Fours(x: nat, k: nat)
    ensures (x + 4 * k) % 4 == x % 4
  {
  }

  lemma UnmaskSplits(a: seq<byte>, b: seq<byte>, key: seq<byte>, at: nat)
    requires |key| == 4
    ensures Unmask(a + b, key, at) == Unmask(a, key, at) + Unmask(b, key, at + |a|)
  {
  }

  /** Where a reader is: `buffered` bytes into a header, into the rest of a header, or
      `done` bytes into a payload. */
  datatype Position =
    | AtHeader(fs: seq<Frame>)
    | InOpt(f: Frame, fs: seq<Frame>)
    | InPayload(f: Frame, done: nat, fs: seq<Frame>)
  {
    ghost predicate Legal() {
      && AllLegal(fs)
      && (!AtHeader? ==> f.Legal())
      && (InPayload? ==> done <= |f.wire|)
    }

    /** What the application has still to receive. */
    ghost function Owed(): seq<byte>
      requires Legal()
    {
      match this
      case AtHeader(fs) => DataAll(fs)
      case InOpt(f, fs) => f.Data() + DataAll(fs)
      case InPayload(f, done, fs) =>
        (if f.Control() then [] else Unmask(f.wire[done..], f.Key(), done)) + DataAll(fs)
    }

    /** The frames not yet finished. */
    ghost function Frames(): seq<Frame> {
      if AtHeader? then fs else [f] + fs
    }

    /** What is still on its way, header bytes already in the buffer included. */
    ghost function Coming(): seq<byte>
      requires Legal()
    {
      match this
      case AtHeader(fs) => EncodeAll(fs)
      case InOpt(f, fs) => f.Opt() + (f.wire + EncodeAll(fs))
      case InPayload(f, done, fs) => f.wire[done..] + EncodeAll(fs)
    }
  }

  /** The second byte gives back the length field and the mask bit. */
  lemma SecondDecodes(f: Frame)
    requires f.Legal()
    ensures ShortLength(f.Second()) == if f.long then 126 else |f.wire|
    ensures HasKey(f.Second()) <==> f.masked
  {
  }

  lemma LengthDecodes(n: nat)
    requires n < 0x1_0000
    ensures BigEndian(LengthBytes(n)[0], LengthBytes(n)[1]) == n
  {
  }

  /** A stream that has a frame in it begins with that frame's first two bytes. */
  lemma HeaderComes(fs: seq<Frame>)
    requires AllLegal(fs) && EncodeAll(fs) != []
    ensures fs != [] && |EncodeAll(fs)| >= 2
    ensures EncodeAll(fs)[..2] == [fs[0].flags, fs[0].Second()]
    ensures EncodeAll(fs)[2..] == fs[0].Opt() + (fs[0].wire + EncodeAll(fs[1..]))
  {
    var f := fs[0];
    var head: seq<byte> := [f.flags, f.Second()];
    assert EncodeAll(fs) == f.Encode() + EncodeAll(fs[1..]);
    hide Frame.Second, Frame.Opt;
    Regroup(head, f.Opt(), f.wire, EncodeAll(fs[1..]));
  }

  lemma Regroup(a: seq<byte>, b: seq<byte>, c: seq<byte>, d: seq<byte>)
    ensures var s := a + (b + c) + d; s[..|a|] == a && s[|a|..] == b + (c + d)
  {
  }

  /** Two ways of cutting the same sequence. */
  lemma TwoParts(a: seq<byte>, b: seq<byte>, whole: seq<byte>)
    requires a + b == whole
    ensures a == whole[..|a|] && b == whole[|a|..]
  {
  }

  /** Length and key sit at the two ends of the rest of the header. */
  lemma OptLength(f: Frame)
    requires f.Legal()
    ensures |f.Opt()| == (if f.long then 2 else 0) + (if f.masked then 4 else 0)
    ensures f.long ==> f.Opt()[..2] == LengthBytes(|f.wire|)
    ensures f.masked ==> f.Opt()[|f.Opt()| - 4..] == f.key
    ensures |f.Opt()| % 4 == 2 <==> f.long
  {
    hide LengthBytes;
  }

  lemma OptSplits(f: Frame, head: seq<byte>, rest: seq<byte>, fs: seq<Frame>)
    requires f.Legal() && AllLegal(fs) && |head| == |f.Opt()| && head + rest == f.Opt() + (f.wire + EncodeAll(fs))
    ensures head == f.Opt() && rest == f.wire + EncodeAll(fs)
  {
    hide Frame.Opt, EncodeAll;
    TwoParts(head, rest, f.Opt() + (f.wire + EncodeAll(fs)));
  }

  lemma OwedAfterHeader(fs: seq<Frame>)
    requires AllLegal(fs) && fs != []
    ensures DataAll(fs) == InOpt(fs[0], fs[1..]).Owed() == InPayload(fs[0], 0, fs[1..]).Owed()
  {
    OwedAfterOpt(fs[0], fs[1..]);
  }

  lemma OwedAfterOpt(f: Frame, fs: seq<Frame>)
    requires f.Legal() && AllLegal(fs)
    ensures InOpt(f, fs).Owed() == InPayload(f, 0, fs).Owed()
  {
    assert f.wire[0..] == f.wire;
  }

  /** What the first two bytes of a header tell. */
  lemma HeaderParsed(b0: byte, b1: byte, rest: seq<byte>, fs: seq<Frame>)
    requires AllLegal(fs) && [b0, b1] + rest == EncodeAll(fs)
    ensures fs != [] && b0 == fs[0].flags
    ensures ShortLength(b1) == if fs[0].long then 126 else |fs[0].wire|
    ensures HasKey(b1) <==> fs[0].masked
    ensures |fs[0].Opt()| == (if fs[0].long then 2 else 0) + (if fs[0].masked then 4 else 0)
    ensures rest == fs[0].Opt() + (fs[0].wire + EncodeAll(fs[1..]))
    ensures fs[0].Opt() == [] ==> rest == fs[0].wire[0..] + EncodeAll(fs[1..])
    ensures DataAll(fs) == InOpt(fs[0], fs[1..]).Owed() == InPayload(fs[0], 0, fs[1..]).Owed()
  {
    HeaderComes(fs);
    TwoParts([b0, b1], rest, EncodeAll(fs));
    SecondDecodes(fs[0]);
    OptLength(fs[0]);
    OwedAfterHeader(fs);
    hide Frame.Second, EncodeAll, DataAll, Frame.Data, Frame.Opt, ShortLength, HasKey;
    assert fs[0].wire[0..] == fs[0].wire;
    assert [] + (fs[0].wire + EncodeAll(fs[1..])) == fs[0].wire + EncodeAll(fs[1..]);
  }

  /** What the rest of the header tells. */
  lemma OptParsed(f: Frame, head: seq<byte>, rest: seq<byte>, fs: seq<Frame>)
    requires f.Legal() && AllLegal(fs) && |head| == |f.Opt()| && head + rest == f.Opt() + (f.wire + EncodeAll(fs))
    ensures |head| == (if f.long then 2 else 0) + (if f.masked then 4 else 0)
    ensures f.long ==> BigEndian(head[0], head[1]) == |f.wire|
    ensures f.masked ==> head[|head| - 4..] == f.Key()
    ensures rest == f.wire[0..] + EncodeAll(fs)
    ensures InOpt(f, fs).Owed() == InPayload(f, 0, fs).Owed()
  {
    OptLength(f);
    OptSplits(f, head, rest, fs);
    LengthDecodes(|f.wire|);
    OwedAfterOpt(f, fs);
    hide Frame.Second, EncodeAll, DataAll, Frame.Data, Frame.Opt, LengthBytes, BigEndian;
    assert f.wire[0..] == f.wire;
    if f.long {
      assert head[0] == f.Opt()[..2][0] && head[1] == f.Opt()[..2][1];
    }
  }

  lemma EnoughComing(p: Position)
    requires p.Legal()
    ensures p.AtHeader? && p.fs != [] ==> |p.Coming()| >= 2
    ensures p.InOpt? ==> |p.Coming()| >= |p.f.Opt()|
    ensures p.InPayload? ==> |p.Coming()| >= |p.f.wire| - p.done
  {
    if p.AtHeader? && p.fs != [] {
      assert |p.fs[0].Encode()| >= 2;
    }
  }
}
