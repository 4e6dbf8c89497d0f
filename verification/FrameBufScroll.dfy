/** Scrolling in place: the scan direction is chosen so that no pixel is read after it
    has been overwritten. */
module FrameBufScroll {
  import opened FrameBuf
  import opened FrameBufDraw
  import opened FrameBufFill

  /** Start, end and direction of the scan along one axis. */
  function Start(size: nat, step: int): int {
    if step < 0 then 0 else size - 1
  }

  function End(size: nat, step: int): int {
    if step < 0 then size + step else step - 1
  }

  function Direction(step: int): int {
    if step < 0 then 1 else -1
  }

  /** The scan runs until it is AT the end, so it stops exactly if the step is not larger
      than the screen. */
  lemma ScanStopsIff(size: nat, step: int)
    ensures (exists n: nat :: AtEnd(size, step, n)) <==> -(size as int) <= step <= size
  {
    if -(size as int) <= step <= size {
      var n: int := if step < 0 then size + step else size - step;
      assert AtEnd(size, step, n);
    }
  }

  /** The two nested scans stop exactly in these cases: a row is scanned only if the outer
      scan does not stop at once. */
  predicate Stops(width: nat, height: nat, xstep: int, ystep: int) {
    && -(height as int) <= ystep <= height
    && (ystep == height || ystep == -(height as int) || -(width as int) <= xstep <= width)
  }

  lemma NestedScanStopsIff(width: nat, height: nat, xstep: int, ystep: int)
    ensures Stops(width, height, xstep, ystep) <==>
              && (exists n: nat :: AtEnd(height, ystep, n))
              && (AtEnd(height, ystep, 0) || exists n: nat :: AtEnd(width, xstep, n))
  {
    ScanStopsIff(height, ystep);
    ScanStopsIff(width, xstep);
  }

  predicate AtEnd(size: nat, step: int, n: nat) {
    Start(size, step) + n * Direction(step) == End(size, step)
  }

  /** `v` is a coordinate the scan visits: on the screen, and so is where it came from. */
  predicate Scanned(size: nat, step: int, v: int) {
    0 <= v < size && 0 <= v - step < size
  }

  /** The scan, standing at `now`, has `v` behind it. */
  predicate Behind(size: nat, step: int, now: int, v: int) {
    Scanned(size, step, v) && if step < 0 then v < now else v > now
  }

  /** Pixel (x, y) of `s` is pixel (x, y) of `s0`, or if moved the pixel one step back. */
  ghost predicate MovedAt(f: Format, stride: nat, s0: seq<Cell>, s: seq<Cell>, moved: Region, xstep: int, ystep: int,
      x: nat, y: nat)
    requires |s| == |s0|
  {
    Addressable(f, stride, |s|, x, y) ==>
      if (x, y) in moved then
        && x - xstep >= 0 && y - ystep >= 0 && Addressable(f, stride, |s|, x - xstep, y - ystep)
        && Get(f, stride, s, x, y) == Get(f, stride, s0, x - xstep, y - ystep)
      else Get(f, stride, s, x, y) == Get(f, stride, s0, x, y)
  }

  /** The pixels of `moved`, and no others, hold what `s0` held one step back. */
  ghost predicate Moved(f: Format, stride: nat, s0: seq<Cell>, s: seq<Cell>, moved: Region, xstep: int, ystep: int) {
    && |s| == |s0|
    && forall x: nat, y: nat :: MovedAt(f, stride, s0, s, moved, xstep, ystep, x, y)
  }

  /** The pixels a scroll moves. */
  ghost function Target(width: nat, height: nat, xstep: int, ystep: int): Region {
    set x: nat, y: nat | x < width && y < height && Scanned(width, xstep, x) && Scanned(height, ystep, y) :: (x, y)
  }

  /** Everything behind the scan when it stands at column `x` of row `y`. */
  ghost predicate ScanDone(moved: Region, width: nat, height: nat, xstep: int, ystep: int, x: int, y: int) {
    forall p: nat, q: nat :: (p, q) in moved <==>
      || (Behind(height, ystep, y, q) && Scanned(width, xstep, p))
      || (q == y && Scanned(height, ystep, q) && Behind(width, xstep, x, p))
  }

  lemma MoveOne(f: Format, stride: nat, s0: seq<Cell>, s: seq<Cell>, moved: Region, xstep: int, ystep: int,
      x: nat, y: nat,
      col: Colour)
    requires stride % Unit(f) == 0 && Moved(f, stride, s0, s, moved, xstep, ystep)
    requires Addressable(f, stride, |s|, x, y) && x - xstep >= 0 && y - ystep >= 0
    requires Addressable(f, stride, |s|, x - xstep, y - ystep)
    requires (((x - xstep) as nat), ((y - ystep) as nat)) !in moved
    requires Canon(f, col) == Get(f, stride, s, x - xstep, y - ystep)
    ensures Moved(f, stride, s0, Put(f, stride, s, x, y, col), moved + {(x, y)}, xstep, ystep)
  {
    hide Get, Put, Addressable, Canon;
    var r := Put(f, stride, s, x, y, col);
    assert MovedAt(f, stride, s0, s, moved, xstep, ystep, x - xstep, y - ystep);
    forall p: nat, q: nat ensures MovedAt(f, stride, s0, r, moved + {(x, y)}, xstep, ystep, p, q) {
      if Addressable(f, stride, |r|, p, q) {
        GetPut(f, stride, s, x, y, col, p, q);
        assert MovedAt(f, stride, s0, s, moved, xstep, ystep, p, q);
      }
    }
  }

  lemma GetIsCanon(f: Format, stride: nat, s: seq<Cell>, x: nat, y: nat)
    requires Addressable(f, stride, |s|, x, y)
    ensures Canon(f, Get(f, stride, s, x, y) as Colour) == Get(f, stride, s, x, y)
  {
    hide Field, Canon;
    CanonOfGet(f, s[Index(f, stride, x, y)], Shift(f, x, y));
  }

  /** What is still to be scanned has not been overwritten. */
  lemma SourceNotMoved(moved: Region, width: nat, height: nat, xstep: int, ystep: int, x: nat, y: nat)
    requires ScanDone(moved, width, height, xstep, ystep, x, y)
    requires Scanned(width, xstep, x) && Scanned(height, ystep, y)
    ensures (((x - xstep) as nat), ((y - ystep) as nat)) !in moved
  {
    var p: nat, q: nat := x - xstep, y - ystep;
    assert !Behind(height, ystep, y, q);
    assert ystep == 0 ==> !Behind(width, xstep, x, p);
  }

  lemma ScanStep(moved: Region, width: nat, height: nat, xstep: int, ystep: int, x: nat, y: nat)
    requires ScanDone(moved, width, height, xstep, ystep, x, y)
    requires Scanned(width, xstep, x) && Scanned(height, ystep, y)
    ensures ScanDone(moved + {(x, y)}, width, height, xstep, ystep, x + Direction(xstep), y)
  {
  }

  lemma ScanNextRow(moved: Region, width: nat, height: nat, xstep: int, ystep: int, y: int)
    requires ScanDone(moved, width, height, xstep, ystep, End(width, xstep), y)
    ensures ScanDone(moved, width, height, xstep, ystep, Start(width, xstep), y + Direction(ystep))
  {
  }

  lemma ScanBegins(width: nat, height: nat, xstep: int, ystep: int)
    ensures ScanDone({}, width, height, xstep, ystep, Start(width, xstep), Start(height, ystep))
  {
  }

  lemma ScanEnds(moved: Region, width: nat, height: nat, xstep: int, ystep: int)
    requires ScanDone(moved, width, height, xstep, ystep, Start(width, xstep), End(height, ystep))
    ensures moved == Target(width, height, xstep, ystep)
  {
    forall t: (nat, nat) ensures t in moved <==> t in Target(width, height, xstep, ystep) {
      var (p, q) := t;
      assert (p, q) in moved <==> Scanned(height, ystep, q) && Scanned(width, xstep, p);
    }
  }

  lemma NothingMoved(f: Format, stride: nat, s: seq<Cell>, xstep: int, ystep: int)
    ensures Moved(f, stride, s, s, {}, xstep, ystep)
  {
  }

  /** The scan of one row goes on while it is short of its end. */
  predicate Scanning(size: nat, step: int, v: int) {
    if step < 0 then 0 <= v <= size + step else step - 1 <= v <= size - 1
  }

  /** After a scroll by steps for which the scan stops, every pixel whose source is on
      the screen has its source's old value and every other pixel its own. */
  method Scroll(fb: FrameBuffer, xstep: int, ystep: int)
    requires fb.Valid()
    requires Stops(fb.width, fb.height, xstep, ystep)
    modifies fb.buf
    ensures fb.Valid()
    ensures Moved(fb.format, fb.stride, old(fb.buf[..]), fb.buf[..], Target(fb.width, fb.height, xstep, ystep),
            xstep, ystep)
  {
    hide Moved, ScanDone, Target, Put, Get, Bytes, Canon, FrameBuffer.Valid;
    ghost var s0 := fb.buf[..];
    ghost var moved: Region := {};
    NothingMoved(fb.format, fb.stride, s0, xstep, ystep);
    ScanBegins(fb.width, fb.height, xstep, ystep);
    var sx: int, xend: int, dx: int;
    if xstep < 0 {
      sx, xend, dx := 0, fb.width + xstep, 1;
    } else {
      sx, xend, dx := (fb.width as int) - 1, xstep - 1, -1;
    }
    var y: int, yend: int, dy: int;
    if ystep < 0 {
      y, yend, dy := 0, fb.height + ystep, 1;
    } else {
      y, yend, dy := (fb.height as int) - 1, ystep - 1, -1;
    }
    while y != yend
      invariant fb.Valid() && Scanning(fb.height, ystep, y)
      invariant Moved(fb.format, fb.stride, s0, fb.buf[..], moved, xstep, ystep)
      invariant ScanDone(moved, fb.width, fb.height, xstep, ystep, sx, y)
      decreases if ystep < 0 then yend - y else y - yend
    {
      var x := sx;
      while x != xend
        invariant fb.Valid() && Scanning(fb.width, xstep, x)
        invariant Moved(fb.format, fb.stride, s0, fb.buf[..], moved, xstep, ystep)
        invariant ScanDone(moved, fb.width, fb.height, xstep, ystep, x, y)
        decreases if xstep < 0 then xend - x else x - xend
      {
        moved := CopyPixel(fb, x, y, xstep, ystep, s0, moved);
        x := x + dx;
      }
      ScanNextRow(moved, fb.width, fb.height, xstep, ystep, y);
      y := y + dy;
    }
    ScanEnds(moved, fb.width, fb.height, xstep, ystep);
  }

  method CopyPixel(fb: FrameBuffer, x: nat, y: nat, xstep: int, ystep: int, ghost s0: seq<Cell>, ghost moved: Region)
    returns (ghost after: Region)
    requires fb.Valid() && Scanned(fb.width, xstep, x) && Scanned(fb.height, ystep, y)
    requires Moved(fb.format, fb.stride, s0, fb.buf[..], moved, xstep, ystep)
    requires ScanDone(moved, fb.width, fb.height, xstep, ystep, x, y)
    modifies fb.buf
    ensures fb.Valid() && Moved(fb.format, fb.stride, s0, fb.buf[..], after, xstep, ystep)
    ensures ScanDone(after, fb.width, fb.height, xstep, ystep, x + Direction(xstep), y)
  {
    hide Moved, ScanDone, Put, Get, Bytes, Canon, FrameBuffer.Valid;
    InsideOf(fb, 0, 0, fb.width, fb.height, x, y);
    InsideOf(fb, 0, 0, fb.width, fb.height, x - xstep, y - ystep);
    SourceNotMoved(moved, fb.width, fb.height, xstep, ystep, x, y);
    ScanStep(moved, fb.width, fb.height, xstep, ystep, x, y);
    var col := fb.GetPixel(x - xstep, y - ystep);
    GetIsCanon(fb.format, fb.stride, fb.buf[..], x - xstep, y - ystep);
    MoveOne(fb.format, fb.stride, s0, fb.buf[..], moved, xstep, ystep, x, y, col);
    fb.SetPixel(x, y, col);
    after := moved + {(x, y)};
  }
}
