/** The resumable WebSocket reader and the writer, on their fields and buffers. */
module WebSocket {
  import opened Basics
  import opened WebSocketFrames
  import opened WebSocketMachine
  import opened WebSocketLeaks

  /** A stream socket that answers reads as `script` says. */
  class Socket {
    var incoming: seq<byte>
    var script: seq<Answer>
    var written: seq<byte>

    constructor (incoming: seq<byte>, script: seq<Answer>)
      ensures this.incoming == incoming && this.script == script && written == []
    {
      this.incoming, this.script, this.written := incoming, script, [];
    }

    method Read(n: nat) returns (r: ReadResult)
      modifies this`incoming, this`script
      ensures Receipt(r, script) == Receive(old(incoming), old(script), n)
      ensures incoming == if r.Data? then old(incoming)[|r.bytes|..] else old(incoming)
    {
      if script == [] {
        return Error;
      }
      var answer := script[0];
      script := script[1..];
      match answer {
        case WouldBlock => r := Error;
        case AtEnd => r := End;
        case Upto(k) =>
          var m := if k < n then k else n;
          m := if m < |incoming| then m else |incoming|;
          if m == 0 {
            return End;
          }
          r := Data(incoming[..m]);
          incoming := incoming[m..];
      }
    }

    method WriteExactly(bs: seq<byte>)
      modifies this`written
      ensures written == old(written) + bs
    {
      written := written + bs;
    }
  }

  lemma SentBytes(opts: byte, data: seq<byte>, header: seq<byte>)
    requires |data| < 0x1_0000
    requires header == [FIN + OpcodeOf(opts)] + (if |data| < 126 then [|data|] else [126] + LengthBytes(|data|))
    ensures header + data == Sent(opts, data).Encode()
  {
    var f := Sent(opts, data);
    hide LengthBytes;
    assert f.Opt() == if f.long then LengthBytes(|data|) else [];
    assert header == [f.flags, f.Second()] + f.Opt();
    Assoc([f.flags, f.Second()], f.Opt(), data);
  }

  class Connection {
    const sock: Socket
    var msgSz: nat
    const mask: array<byte>
    var state: State
    var toRecv: nat
    var maskPos: nat
    var bufPos: nat
    const buf: array<byte>
    var opts: byte
    var wsFlags: byte
    var lastFlags: byte
    /** Where the reader is in the peer's frames. */
    ghost var at: Position

    ghost predicate Shape()
      reads this
    {
      mask.Length == 4 && buf.Length == 6 && mask != buf && bufPos <= 6 && maskPos < 256
    }

    ghost function Now(): View
      requires Shape()
      reads this, mask, buf, sock
    {
      View(state, toRecv, buf[..bufPos], mask[..], maskPos, msgSz, lastFlags, sock.incoming)
    }

    /** Between calls the reader waits for something that the peer sends. */
    ghost predicate Valid()
      reads this, mask, buf, sock
    {
      Shape() && Agrees(Now(), at) && Waits(Now())
    }

    /** The peer will send the frames `fs`. */
    constructor (sock: Socket, ghost fs: seq<Frame>)
      requires AllLegal(fs) && sock.incoming == EncodeAll(fs)
      ensures Valid() && this.sock == sock && at == AtHeader(fs) && opts == FRAME_TXT && Fresh(Now(), fs)
      ensures fresh(mask) && fresh(buf)
    {
      this.sock := sock;
      state, toRecv, maskPos, bufPos, msgSz := FrameHeader, 2, 0, 0, 0;
      opts, wsFlags, lastFlags := FRAME_TXT, 0, 0;
      mask := new byte[4];
      buf := new byte[6];
      at := AtHeader(fs);
      new;
      hide EncodeAll;
      assert [] + sock.incoming == sock.incoming;
    }

    /** The first part of the loop: fetch header bytes that are still missing. */
    method FillBuf() returns (stop: bool, r: ReadResult)
      requires Shape() && Sound(Now()) && toRecv > 0
      modifies this`bufPos, this`toRecv, buf, sock`incoming, sock`script
      ensures Shape()
      ensures var v := old(Now());
              var g := Receive(v.incoming, old(sock.script), v.toRecv);
              && sock.script == g.left
              && Now() == (if g.r.Data? then Filled(v, |g.r.bytes|) else v)
              && (stop <==> !g.r.Data? || toRecv > 0)
              && (stop ==> r == if g.r.Data? then Error else g.r)
    {
      r := sock.Read(toRecv);
      if !r.Data? {
        return true, r;
      }
      Store(r.bytes);
      stop := toRecv != 0;
      if stop {
        r := Error;
      }
    }

    /** Appends to the header buffer. */
    method Store(bs: seq<byte>)
      requires Shape() && 0 < |bs| <= toRecv && bufPos + toRecv <= 6
      modifies this`bufPos, this`toRecv, buf
      ensures Shape() && toRecv == old(toRecv) - |bs|
      ensures buf[..bufPos] == old(buf[..bufPos]) + bs
    {
      ghost var before := buf[..bufPos];
      for k := 0 to |bs|
        modifies buf
        invariant buf[..bufPos + k] == before + bs[..k]
      {
        buf[bufPos + k] := bs[k];
        assert bs[..k + 1] == bs[..k] + [bs[k]];
        assert buf[..bufPos + k + 1] == buf[..bufPos + k] + [bs[k]];
      }
      assert bs[..|bs|] == bs;
      bufPos := bufPos + |bs|;
      toRecv := toRecv - |bs|;
    }

    method ClearMask()
      requires mask.Length == 4
      modifies mask
      ensures mask[..] == NO_MASK
    {
      mask[0], mask[1], mask[2], mask[3] := 0, 0, 0, 0;
    }

    /** A continuation keeps the type of the frame before it. */
    method NoteFlags(flags: byte)
      modifies this`wsFlags, this`lastFlags
      ensures lastFlags == flags
      ensures OpcodeOf(flags) != 0 ==> wsFlags == flags
      ensures OpcodeOf(flags) == 0 ==> wsFlags == OpcodeOf(old(wsFlags)) + flags / 16 * 16
    {
      lastFlags := flags;
      if OpcodeOf(flags) == 0 {
        wsFlags := OpcodeOf(wsFlags) + flags / 16 * 16;
      } else {
        wsFlags := flags;
      }
    }

    /** What the second byte says: the short length, and how much of the header follows. */
    method NoteLength(second: byte)
      modifies this`msgSz, this`toRecv, this`bufPos
      ensures bufPos == 0 && msgSz == ShortLength(second)
      ensures toRecv == (if msgSz == 126 then 2 else 0) + (if HasKey(second) then 4 else 0)
    {
      hide ShortLength, HasKey;
      var more := 0;
      var sz := ShortLength(second);
      if sz == 126 {
        more := more + 2;
      }
      if HasKey(second) {
        more := more + 4;
      }
      bufPos := 0;
      toRecv := more;
      msgSz := sz;
    }

    /** Two header bytes are there. */
    method Header()
      requires Shape() && bufPos == 2
      modifies this`msgSz, this`toRecv, this`bufPos, this`wsFlags, this`lastFlags, this`state, mask
      ensures Shape() && Now() == HeaderRead(old(Now()))
    {
      hide ShortLength, HasKey, DataState;
      var flags, second := buf[0], buf[1];
      assert buf[..2] == [flags, second];
      NoteFlags(flags);
      ClearMask();
      NoteLength(second);
      if toRecv != 0 {
        state := FrameOpt;
      } else {
        state := DataState(flags);
      }
    }

    /** The last four bytes received are the key. */
    method CopyKey()
      requires Shape() && 4 <= bufPos
      modifies mask
      ensures mask[..] == buf[bufPos - 4..bufPos]
    {
      for k := 0 to 4
        modifies mask
        invariant mask[..k] == buf[bufPos - 4..bufPos - 4 + k]
      {
        mask[k] := buf[bufPos - 4 + k];
        assert mask[..k + 1] == mask[..k] + [mask[k]];
      }
      assert mask[..4] == mask[..];
    }

    /** The rest of the header is there. */
    method Opt()
      requires Shape() && bufPos in {2, 4, 6}
      modifies this`msgSz, this`bufPos, this`state, mask
      ensures Shape() && Now() == OptRead(old(Now()))
    {
      ghost var filled := buf[..bufPos];
      if bufPos % 4 == 2 {
        msgSz := BigEndian(buf[0], buf[1]);
      }
      if bufPos >= 4 {
        CopyKey();
        assert filled[|filled| - 4..] == buf[bufPos - 4..bufPos];
      }
      bufPos := 0;
      state := DataState(lastFlags);
    }

    /** Unmasks what was read; the mask position is one byte wide and wraps. */
    method Demask(bs: seq<byte>) returns (r: seq<byte>)
      requires mask.Length == 4 && maskPos < 256
      modifies this`maskPos
      ensures r == Unmask(bs, mask[..], old(maskPos)) && maskPos == (old(maskPos) + |bs|) % 256
      ensures |r| == |bs|
      ensures forall i :: 0 <= i < |bs| ==>
                r[i] == ((bs[i] as bv8) ^ (mask[(old(maskPos) + i) % 4] as bv8)) as int
    {
      hide Xor;
      r := [];
      ghost var p0 := maskPos;
      for k := 0 to |bs|
        invariant maskPos == (p0 + k) % 256 && r == Unmask(bs[..k], mask[..], p0)
      {
        KeyPlace(p0 + k, 0);
        r := r + [Xor(bs[k], mask[maskPos % 4])];
        WrapMore(p0 + k, 1);
        maskPos := (maskPos + 1) % 256;
        assert bs[..k + 1] == bs[..k] + [bs[k]];
        UnmaskSplits(bs[..k], [bs[k]], mask[..], p0);
      }
      assert bs[..|bs|] == bs;
      UnmaskIsBitwise(bs, mask[..], p0);
    }

    /** Takes at most `size` bytes of the payload. */
    method TakePayload(size: nat) returns (r: ReadResult)
      requires Shape() && msgSz > 0 && size > 0
      modifies this`msgSz, this`maskPos, sock`incoming, sock`script
      ensures Shape()
      ensures var v := old(Now());
              var g := Receive(v.incoming, old(sock.script), Least(size, v.msgSz));
              && sock.script == g.left
              && Now() == (if g.r.Data? then PayloadRead(v, |g.r.bytes|) else v)
              && r == if g.r.Data? then Data(Unmask(g.r.bytes, v.mask, v.maskPos)) else g.r
    {
      hide Unmask, Receive;
      var sz := if size < msgSz then size else msgSz;
      r := sock.Read(sz);
      if !r.Data? {
        return;
      }
      var n := |r.bytes|;
      var clear := Demask(r.bytes);
      msgSz := msgSz - n;
      r := Data(clear);
    }

    method FrameDone()
      requires Shape()
      modifies this`state, this`toRecv, this`maskPos, this`bufPos
      ensures Shape() && Now() == FrameFinished(old(Now()))
    {
      state, toRecv, maskPos, bufPos := FrameHeader, 2, 0, 0;
    }

    /** The part of the loop that reads payload.  `again` says that the loop goes on: the
        frame was empty, or it was a control frame and is over. */
    method PayloadStep(size: nat) returns (again: bool, r: ReadResult)
      requires Shape() && Sound(Now()) && state != FrameHeader && state != FrameOpt && size > 0
      modifies this`state, this`toRecv, this`maskPos, this`bufPos, this`msgSz, sock`incoming, sock`script
      ensures Shape() && Sound(Now()) && |sock.script| <= |old(sock.script)|
      ensures again ==> ReadFrom(Now(), sock.script, size) == old(ReadFrom(Now(), sock.script, size))
                        && (|sock.script| < |old(sock.script)| || Rank(Now()) < old(Rank(Now())))
      ensures !again ==> Outcome(r, Now(), sock.script) == old(ReadFrom(Now(), sock.script, size))
    {
      hide Unmask, Receive;
      again, r := false, Error;
      if msgSz == 0 {
        FrameDone();
        again := true;
        return;
      }
      r := TakePayload(size);
      if r.Data? && msgSz == 0 {
        var lastState := state;
        FrameDone();
        again := lastState == Control;
      }
    }

    /** A complete header, or part of one, is taken in. */
    method HeaderStep(ghost size: nat)
      requires Shape() && Sound(Now()) && (state == FrameHeader || state == FrameOpt) && toRecv == 0 && size > 0
      modifies this`msgSz, this`toRecv, this`bufPos, this`wsFlags, this`lastFlags, this`state, mask
      ensures Shape() && Sound(Now()) && ReadFrom(Now(), sock.script, size) == old(ReadFrom(Now(), sock.script, size))
      ensures Rank(Now()) < old(Rank(Now()))
    {
      HeaderUnfolds(Now(), sock.script, size);
      hide ReadFrom, HeaderRead, OptRead, Sound, Rank;
      if state == FrameHeader {
        Header();
      } else {
        Opt();
      }
    }

    /** One trip round the loop of a read; completing the header buffer counts as one. */
    method ReadStep(size: nat) returns (again: bool, r: ReadResult)
      requires Shape() && Sound(Now()) && size > 0
      modifies this`msgSz, this`toRecv, this`bufPos, this`wsFlags, this`lastFlags, this`state, this`maskPos
      modifies mask, buf, sock`incoming, sock`script
      ensures Shape() && Sound(Now()) && |sock.script| <= |old(sock.script)|
      ensures again ==> ReadFrom(Now(), sock.script, size) == old(ReadFrom(Now(), sock.script, size))
                        && (|sock.script| < |old(sock.script)| || Rank(Now()) < old(Rank(Now())))
      ensures !again ==> Outcome(r, Now(), sock.script) == old(ReadFrom(Now(), sock.script, size))
    {
      hide ReadFrom, Receive, Rank, Filled;
      again, r := true, Error;
      if toRecv != 0 {
        FillUnfolds(Now(), sock.script, size);
        hide Sound;
        var stop;
        stop, r := FillBuf();
        again := !stop;
      } else if state == FrameHeader || state == FrameOpt {
        HeaderStep(size);
      } else {
        again, r := PayloadStep(size);
      }
    }

    /** One read.  It is the machine's, so data is handed over in order and without loss, at
        most `size` bytes at a time; only in the middle of a control frame's payload are the
        bytes that are returned not owed. */
    method Read(size: nat) returns (r: ReadResult)
      requires Valid() && size > 0
      modifies this, mask, buf, sock`incoming, sock`script
      ensures Valid() && Sound(old(Now()))
      ensures Outcome(r, Now(), sock.script) == ReadFrom(old(Now()), old(sock.script), size)
      ensures Delivered(old(at), r, at, size)
      ensures Short(old(at).Frames()) ==> Short(at.Frames()) && (r.Data? ==> !Leaks(at))
    {
      hide Agrees, ReadFrom, Receive, Goal, Waits, Sound, Delivered, Short, Leaks, Rank;
      AgreesSound(Now(), at);
      ghost var v, start, script := Now(), at, sock.script;
      var again := true;
      r := Error;
      while again
        invariant Shape() && Sound(Now()) && at == start
        invariant again ==> ReadFrom(Now(), sock.script, size) == ReadFrom(v, script, size)
        invariant !again ==> Outcome(r, Now(), sock.script) == ReadFrom(v, script, size)
        decreases again, |sock.script|, Rank(Now())
      {
        again, r := ReadStep(size);
      }
      at := ReadDelivers(v, start, script, size);
      GoalMeans(start, ReadFrom(v, script, size), at, size);
    }

    /** Any number of reads of any sizes, with the network splitting the stream anyhow: what
        they return, joined together, is what was owed at first less what is owed now; and
        nothing is owed once nothing is on its way. */
    method ReadMany(sizes: seq<nat>) returns (all: seq<byte>)
      requires Valid() && Short(at.Frames()) && forall i :: 0 <= i < |sizes| ==> sizes[i] > 0
      modifies this, mask, buf, sock`incoming, sock`script
      ensures Valid() && Short(at.Frames()) && old(at).Legal() && at.Legal()
      ensures old(at.Owed()) == all + at.Owed()
      ensures sock.incoming == [] ==> all == old(at.Owed())
    {
      hide Position.Owed, Position.Coming, Frame.Legal, Short, Agrees, Position.Frames, Leaks, Waits;
      all := [];
      ghost var start := at;
      StateTellsWhere(Now(), at);
      EmptyPrefix(at.Owed());
      for k := 0 to |sizes|
        invariant Valid() && at.Legal() && Short(at.Frames()) && start.Legal() && start.Owed() == all + at.Owed()
      {
        var r := Read(sizes[k]);
        Assoc(all, BytesOf(r), at.Owed());
        if r.Data? {
          all := all + r.bytes;
        } else {
          EmptyPrefix(at.Owed());
        }
      }
      if sock.incoming == [] {
        NothingLeft(Now(), at);
        NoMore(all);
      }
    }

    /** Sends `data` as one frame. */
    method Write(data: seq<byte>)
      requires |data| < 0x1_0000
      modifies sock`written
      ensures sock.written == old(sock.written) + Sent(opts, data).Encode()
    {
      hide Frame.Encode;
      var header: seq<byte> := [FIN + OpcodeOf(opts)];
      if |data| < 126 {
        header := header + [|data|];
      } else {
        header := header + [126, |data| / 256, |data| % 256];
      }
      sock.WriteExactly(header);
      sock.WriteExactly(data);
      SentBytes(opts, data, header);
      Assoc(old(sock.written), header, data);
    }
  }

  /** Messages written one after the other and read back in reads of any sizes, the stream
      split anyhow on its way: once all of it has come, the messages have been received. */
  method Exchange(opts: byte, messages: seq<seq<byte>>, script: seq<Answer>, sizes: seq<nat>)
    returns (received: seq<byte>, arrived: bool)
    requires OpcodeOf(opts) < FRAME_CLOSE && forall i :: 0 <= i < |messages| ==> |messages[i]| < 0x1_0000
    requires forall i :: 0 <= i < |sizes| ==> sizes[i] > 0
    ensures arrived ==> received == Joined(messages)
    ensures received <= Joined(messages)
  {
    hide Frame.Encode, Frame.Legal, Agrees, Position.Owed, Short;
    var wire := SendAll(opts, messages);
    AllSentReadsBack(opts, messages);
    SentShort(opts, messages);
    ghost var fs := SentAll(opts, messages);
    var sock := new Socket(wire, script);
    var reader := new Connection(sock, fs);
    OwedAtHeader(fs);
    received := reader.ReadMany(sizes);
    arrived := sock.incoming == [];
  }

  method SendAll(opts: byte, messages: seq<seq<byte>>) returns (wire: seq<byte>)
    requires OpcodeOf(opts) < FRAME_CLOSE && forall i :: 0 <= i < |messages| ==> |messages[i]| < 0x1_0000
    ensures AllLegal(SentAll(opts, messages)) && wire == EncodeAll(SentAll(opts, messages))
  {
    hide Frame.Encode, Frame.Legal, Agrees, Sent;
    var sock := new Socket([], []);
    var writer := new Connection(sock, []);
    writer.opts := opts;
    for k := 0 to |messages|
      invariant fresh(sock) && fresh(writer) && writer.sock == sock && writer.opts == opts
      invariant AllLegal(SentAll(opts, messages[..k])) && sock.written == EncodeAll(SentAll(opts, messages[..k]))
    {
      SentMore(opts, messages[..k], messages[k]);
      assert messages[..k + 1] == messages[..k] + [messages[k]];
      writer.Write(messages[k]);
    }
    assert messages[..|messages|] == messages;
    wire := sock.written;
  }
}
