/** Line drawing by integer error accumulation, proved to draw the rounded line. */
module FrameBufLine {
  import opened FrameBuf
  import opened FrameBufDraw
  import opened FrameBufFill

  function Abs(a: int): nat {
    if a < 0 then -a else a
  }

  function Sign(a: int): int {
    if a > 0 then 1 else -1
  }

  /** Minor offset at major step `i`: `minor * i / major` rounded to nearest, halves up. */
  function Rounded(major: nat, minor: nat, i: nat): nat {
    if major == 0 then 0 else (2 * (minor * i) + major) / (2 * major)
  }

  datatype Ends = Ends(x1: int, y1: int, x2: int, y2: int) {
    function Dx(): nat { Abs(x2 - x1) }
    function Dy(): nat { Abs(y2 - y1) }
    predicate Steep() { Dy() > Dx() }
    function Major(): nat { if Steep() then Dy() else Dx() }
    function Minor(): nat { if Steep() then Dx() else Dy() }

    /** Point `i` of the line. */
    function Point(i: nat): (int, int) {
      var k := Rounded(Major(), Minor(), i);
      if Steep() then (x1 + Sign(x2 - x1) * k, y1 + Sign(y2 - y1) * i)
      else (x1 + Sign(x2 - x1) * i, y1 + Sign(y2 - y1) * k)
    }
  }

  lemma DivUnique(n: nat, d: nat, q: nat)
    requires d > 0 && d * q <= n < d * q + d
    ensures n / d == q
  {
    var r := n / d;
    assert n == d * r + n % d;
    if r < q {
      GapOfOne(d, r, q);
    } else if q < r {
      GapOfOne(d, q, r);
    }
  }

  lemma GapOfOne(d: nat, a: nat, b: nat)
    requires a < b
    ensures d * a + d <= d * b
  {
    RowGap(d, a, b);
  }

  /** The error bound determines the offset. */
  lemma BandIsRounded(major: nat, minor: nat, i: nat, k: nat)
    requires major > 0
    requires -(major as int) <= 2 * (minor * i) - 2 * (major * k) < major
    ensures k == Rounded(major, minor, i)
  {
    assert 2 * major * k == 2 * (major * k);
    DivUnique(2 * (minor * i) + major, 2 * major, k);
  }

  /** Every point is within half a pixel of the true line; a tie goes away from the start. */
  lemma WithinHalfAPixel(major: nat, minor: nat, i: nat)
    requires major > 0
    ensures -(major as int) <= 2 * (minor * i) - 2 * (major * Rounded(major, minor, i)) < major
  {
    var n, d := 2 * (minor * i) + major, 2 * major;
    var k := n / d;
    assert n == d * k + n % d;
    assert d * k == 2 * (major * k);
  }

  /** The points in plain coordinates.  Along the longer side point `i` is `i` pixels from the
      start, on the way to the end; along the other side it is on that way too, and nearest
      to the true line, further from the start if two pixels are equally near. */
  lemma PointsNearLine(e: Ends, i: nat)
    requires 0 < Abs(e.x2 - e.x1) || 0 < Abs(e.y2 - e.y1)
    ensures var (px, py) := e.Point(i);
            var dx: int, dy: int := Abs(e.x2 - e.x1), Abs(e.y2 - e.y1);
            if dy > dx then
              && py == (if e.y2 > e.y1 then e.y1 + i else e.y1 - i)
              && (if e.x2 > e.x1 then px >= e.x1 else px <= e.x1)
              && -dy <= 2 * (dx * i) - 2 * (dy * Abs(px - e.x1)) < dy
            else
              && px == (if e.x2 > e.x1 then e.x1 + i else e.x1 - i)
              && (if e.y2 > e.y1 then py >= e.y1 else py <= e.y1)
              && -dx <= 2 * (dy * i) - 2 * (dx * Abs(py - e.y1)) < dx
  {
    WithinHalfAPixel(e.Major(), e.Minor(), i);
    hide Rounded;
  }

  /** The line begins and ends at its end points. */
  lemma EndPoints(e: Ends)
    ensures e.Point(0) == (e.x1, e.y1) && e.Point(e.Major()) == (e.x2, e.y2)
  {
    var major, minor := e.Major(), e.Minor();
    if major > 0 {
      BandIsRounded(major, minor, 0, 0);
      assert minor * major == major * minor;
      BandIsRounded(major, minor, major, minor);
    }
  }

  /** Consecutive points touch: both coordinates move by at most one, the major one by
      exactly one. */
  lemma PointsTouch(e: Ends, i: nat)
    requires i < e.Major()
    ensures var (px, py) := e.Point(i);
            var (qx, qy) := e.Point(i + 1);
            Abs(qx - px) <= 1 && Abs(qy - py) <= 1 && Abs(if e.Steep() then qy - py else qx - px) == 1
  {
    RoundedSteps(e.Major(), e.Minor(), i);
  }

  lemma RoundedSteps(major: nat, minor: nat, i: nat)
    requires major > 0 && minor <= major
    ensures Rounded(major, minor, i) <= Rounded(major, minor, i + 1) <= Rounded(major, minor, i) + 1
  {
    var k := Rounded(major, minor, i);
    var n, d := 2 * (minor * i) + major, 2 * major;
    assert minor * (i + 1) == minor * i + minor;
    assert n == d * k + n % d;
    var m := n + 2 * minor;
    if m < d * k + d {
      DivUnique(m, d, k);
    } else {
      assert d * (k + 1) == d * k + d;
      DivUnique(m, d, k + 1);
    }
  }

  // ----- what is drawn -----

  predicate Visible(width: nat, height: nat, p: (int, int)) {
    0 <= p.0 < width && 0 <= p.1 < height
  }

  ghost function Dot(width: nat, height: nat, p: (int, int)): Region {
    if Visible(width, height, p) then {(p.0, p.1)} else {}
  }

  /** The visible points before point `n`. */
  ghost function Trail(width: nat, height: nat, e: Ends, n: nat): Region {
    if n == 0 then {} else Trail(width, height, e, n - 1) + Dot(width, height, e.Point(n - 1))
  }

  /** Some point of the line before point `n` is at `p`. */
  ghost predicate Hits(e: Ends, n: nat, p: (int, int)) {
    exists i: nat :: i < n && e.Point(i) == p
  }

  /** The trail is exactly the set of screen positions that the line hits. */
  lemma {:induction false} TrailMembers(width: nat, height: nat, e: Ends, n: nat, x: nat, y: nat)
    ensures (x, y) in Trail(width, height, e, n) <==> x < width && y < height && Hits(e, n, (x, y))
  {
    hide Rounded;
    if n > 0 {
      TrailMembers(width, height, e, n - 1, x, y);
      HitsOneMore(e, n, (x, y));
    }
  }

  lemma HitsOneMore(e: Ends, n: nat, p: (int, int))
    requires n > 0
    ensures Hits(e, n, p) <==> Hits(e, n - 1, p) || e.Point(n - 1) == p
  {
    hide Rounded;
    if Hits(e, n, p) {
      var i: nat :| i < n && e.Point(i) == p;
      assert i < n - 1 ==> Hits(e, n - 1, p);
    }
    if Hits(e, n - 1, p) {
      var i: nat :| i < n - 1 && e.Point(i) == p;
    }
  }

  /** Sets one point if it is on the screen. */
  method Plot(fb: FrameBuffer, x: int, y: int, col: Colour, ghost s0: seq<Cell>, ghost region: Region)
    requires fb.Valid() && Filled(fb, s0, region, col)
    modifies fb.buf
    ensures fb.Valid() && Filled(fb, s0, region + Dot(fb.width, fb.height, (x, y)), col)
  {
    hide Painted, Put, Bytes, Canon;
    if 0 <= x < fb.width && 0 <= y < fb.height {
      InsideOf(fb, 0, 0, fb.width, fb.height, x, y);
      PaintOne(fb.format, fb.stride, s0, fb.buf[..], region, col, x, y);
      fb.SetPixel(x, y, col);
    } else {
      assert region + {} == region;
    }
  }

  /** The correction loop: subtracts at most once. */
  method Correct(e0: int, dx: nat, y0: int, sy: int) returns (e: int, y: int, ghost steps: nat)
    requires dx > 0 && e0 < 2 * dx
    ensures steps <= 1 && e == e0 - 2 * dx * steps && y == y0 + sy * steps && e < 0
    ensures steps > 0 <==> e0 >= 0
  {
    e, y, steps := e0, y0, 0;
    while e >= 0
      invariant steps <= 1 && e == e0 - 2 * dx * steps && y == y0 + sy * steps
      invariant steps > 0 ==> e < 0 && e0 >= 0
      decreases e
    {
      y := y + sy;
      e := e - 2 * dx;
      steps := steps + 1;
    }
  }

  /** Swaps and mirrors so that the first coordinate is the major one and both grow. */
  method Normalise(ends: Ends) returns (x: int, y: int, dx: nat, dy: nat, sx: int, sy: int, steep: bool)
    ensures dx == ends.Major() && dy == ends.Minor() && dy <= dx && steep == ends.Steep()
    ensures forall i: nat :: ends.Point(i) == Walked(x, y, sx, sy, steep, i, Rounded(dx, dy, i))
  {
    hide Rounded;
    x, y := ends.x1, ends.y1;
    var ax: int, ay: int := ends.x2 - x, ends.y2 - y;
    sx, sy := 1, 1;
    if ax <= 0 {
      ax, sx := -ax, -1;
    }
    if ay <= 0 {
      ay, sy := -ay, -1;
    }
    steep := ay > ax;
    if steep {
      x, y := y, x;
      ax, ay := ay, ax;
      sx, sy := sy, sx;
    }
    dx, dy := ax, ay;
  }

  function Walked(x: int, y: int, sx: int, sy: int, steep: bool, i: nat, k: nat): (int, int) {
    if steep then (y + sy * k, x + sx * i) else (x + sx * i, y + sy * k)
  }

  /** The accumulated error before the correction at step `i`, `k` minor steps taken. */
  function Error(dx: nat, dy: nat, i: nat, k: nat): int {
    2 * dy + 2 * (dy * i) - dx - 2 * (dx * k)
  }

  predicate InBand(dx: nat, dy: nat, i: nat, k: nat) {
    -(dx as int) <= 2 * (dy * i) - 2 * (dx * k) < dx
  }

  lemma ErrorSmall(dx: nat, dy: nat, i: nat, k: nat)
    requires dx > 0 && dy <= dx && InBand(dx, dy, i, k)
    ensures Error(dx, dy, i, k) < 2 * dx
  {
  }

  /** One trip round the loop keeps the error formula and the band. */
  lemma Advance(dx: nat, dy: nat, i: nat, k: nat, steps: nat, sy: int)
    requires dx > 0 && dy <= dx && InBand(dx, dy, i, k) && steps <= 1
    requires (steps > 0 <==> Error(dx, dy, i, k) >= 0) && Error(dx, dy, i, k) - 2 * dx * steps < 0
    ensures InBand(dx, dy, i + 1, k + steps)
    ensures Error(dx, dy, i + 1, k + steps) == Error(dx, dy, i, k) - 2 * dx * steps + 2 * dy
    ensures sy * (k + steps) == sy * k + sy * steps
  {
    assert dy * (i + 1) == dy * i + dy;
    assert dx * (k + steps) == dx * k + dx * steps;
    assert dx * steps == if steps == 1 then dx else 0;
  }

  /** Draws the visible points of the rounded line and nothing else. */
  method Line(fb: FrameBuffer, ends: Ends, col: Colour)
    requires fb.Valid()
    modifies fb.buf
    ensures fb.Valid()
    ensures Filled(fb, old(fb.buf[..]), Trail(fb.width, fb.height, ends, ends.Major())
                                        + Dot(fb.width, fb.height, (ends.x2, ends.y2)), col)
  {
    hide Painted, Bytes, Rounded, Trail, Dot, Error, InBand, FrameBuffer.Valid;
    ghost var s0 := fb.buf[..];
    var x1, y1, dx, dy, sx, sy, steep := Normalise(ends);
    ghost var xs, ys, k: nat := x1, y1, 0;
    PaintNothing(fb.format, fb.stride, s0, col);
    NoTrail(fb.width, fb.height, ends);
    LineStart(dx, dy);
    var major: int := dx;
    var e: int := 2 * dy - major;
    for i := 0 to dx
      invariant fb.Valid() && x1 == xs + sx * i && y1 == ys + sy * k
      invariant dx > 0 ==> e == Error(dx, dy, i, k) && InBand(dx, dy, i, k)
      invariant Filled(fb, s0, Trail(fb.width, fb.height, ends, i), col)
    {
      OffsetIs(dx, dy, i, k);
      if steep {
        Plot(fb, y1, x1, col, s0, Trail(fb.width, fb.height, ends, i));
      } else {
        Plot(fb, x1, y1, col, s0, Trail(fb.width, fb.height, ends, i));
      }
      assert ends.Point(i) == Walked(xs, ys, sx, sy, steep, i, k) == if steep then (y1, x1) else (x1, y1);
      TrailGrows(fb.width, fb.height, ends, i);
      ErrorSmall(dx, dy, i, k);
      ghost var steps;
      e, y1, steps := Correct(e, dx, y1, sy);
      Advance(dx, dy, i, k, steps, sy);
      k := k + steps;
      x1 := x1 + sx;
      e := e + 2 * dy;
    }
    Plot(fb, ends.x2, ends.y2, col, s0, Trail(fb.width, fb.height, ends, dx));
  }

  lemma OffsetIs(dx: nat, dy: nat, i: nat, k: nat)
    requires dx > 0 && InBand(dx, dy, i, k)
    ensures k == Rounded(dx, dy, i)
  {
    BandIsRounded(dx, dy, i, k);
  }

  lemma LineStart(dx: nat, dy: nat)
    ensures dx > 0 ==> InBand(dx, dy, 0, 0)
    ensures Error(dx, dy, 0, 0) == 2 * dy - dx
  {
  }

  lemma NoTrail(width: nat, height: nat, e: Ends)
    ensures Trail(width, height, e, 0) == {}
  {
  }

  lemma TrailGrows(width: nat, height: nat, e: Ends, i: nat)
    ensures Trail(width, height, e, i + 1) == Trail(width, height, e, i) + Dot(width, height, e.Point(i))
  {
  }
}
