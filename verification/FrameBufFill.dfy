/** Rectangle fills.  Each format has its own loop, most of them walking a pointer through
    the buffer and some storing several pixels at once; every one of them is proved to
    set exactly the pixels of the rectangle. */
module FrameBufFill {
  import opened FrameBuf
  import opened FrameBufDraw

  /** The rectangle lies on the screen. */
  ghost predicate Fits(fb: FrameBuffer, x: nat, y: nat, w: nat, h: nat) {
    x + w <= fb.width && y + h <= fb.height
  }

  /** What a fill has done so far: `region` is painted over what `s0` held. */
  ghost predicate Filled(fb: FrameBuffer, s0: seq<Cell>, region: Region, col: Colour)
    reads fb.buf
  {
    Painted(fb.format, fb.stride, s0, fb.buf[..], region, col)
  }

  /** All rows of columns `x` to `xx`, and rows `y` to `yy` of column `xx`. */
  ghost predicate ColumnsDone(region: Region, x: nat, xx: nat, y: nat, h: nat, yy: nat) {
    forall p: nat, q: nat :: (p, q) in region <==> (x <= p < xx && y <= q < y + h) || (p == xx && y <= q < yy)
  }

  /** All columns of rows `y` to `yy`, and columns `x` to `xx` of row `yy`. */
  ghost predicate RowsDone(region: Region, x: nat, w: nat, xx: nat, y: nat, yy: nat) {
    forall p: nat, q: nat :: (p, q) in region <==> (y <= q < yy && x <= p < x + w) || (q == yy && x <= p < xx)
  }

  lemma ColumnsStep(region: Region, x: nat, xx: nat, y: nat, h: nat, yy: nat)
    requires ColumnsDone(region, x, xx, y, h, yy) && x <= xx && y <= yy
    ensures ColumnsDone(region + {(xx, yy)}, x, xx, y, h, yy + 1)
  {
  }

  lemma ColumnsNext(region: Region, x: nat, xx: nat, y: nat, h: nat)
    requires ColumnsDone(region, x, xx, y, h, y + h) && x <= xx
    ensures ColumnsDone(region, x, xx + 1, y, h, y)
  {
  }

  lemma RowsStep(region: Region, x: nat, w: nat, xx: nat, y: nat, yy: nat)
    requires RowsDone(region, x, w, xx, y, yy) && x <= xx && y <= yy
    ensures RowsDone(region + {(xx, yy)}, x, w, xx + 1, y, yy)
  {
  }

  lemma RowsRun(region: Region, x: nat, w: nat, xx: nat, y: nat, yy: nat, n: nat)
    requires RowsDone(region, x, w, xx, y, yy) && x <= xx && y <= yy
    ensures RowsDone(region + Run(xx, yy, n), x, w, xx + n, y, yy)
  {
    RunMembers(xx, yy, n);
  }

  lemma RowsNext(region: Region, x: nat, w: nat, y: nat, yy: nat)
    requires RowsDone(region, x, w, x + w, y, yy) && y <= yy
    ensures RowsDone(region, x, w, x, y, yy + 1)
  {
  }

  lemma ColumnsAreRect(region: Region, x: nat, y: nat, w: nat, h: nat)
    requires ColumnsDone(region, x, x + w, y, h, y)
    ensures region == Rect(x, y, w, h)
  {
    SameMembers(region, x, y, w, h);
  }

  lemma RowsAreRect(region: Region, x: nat, y: nat, w: nat, h: nat)
    requires RowsDone(region, x, w, x, y, y + h)
    ensures region == Rect(x, y, w, h)
  {
    SameMembers(region, x, y, w, h);
  }

  lemma SameMembers(region: Region, x: nat, y: nat, w: nat, h: nat)
    requires forall p: nat, q: nat :: (p, q) in region <==> x <= p < x + w && y <= q < y + h
    ensures region == Rect(x, y, w, h)
  {
    forall t: (nat, nat) ensures t in region <==> t in Rect(x, y, w, h) {
      var (p, q) := t;
      assert (p, q) in region <==> x <= p < x + w && y <= q < y + h;
    }
  }

  lemma NoneDone(x: nat, w: nat, y: nat, h: nat)
    ensures ColumnsDone({}, x, x, y, h, y) && RowsDone({}, x, w, x, y, y)
  {
  }

  lemma InsideOf(fb: FrameBuffer, x: nat, y: nat, w: nat, h: nat, p: nat, q: nat)
    requires fb.Valid() && Fits(fb, x, y, w, h) && x <= p < x + w && y <= q < y + h
    ensures fb.Inside(p, q) && fb.stride % Unit(fb.format) == 0
  {
    OnScreenAddressable(fb.format, fb.stride, fb.width, fb.height, fb.buf.Length, p, q);
  }

  lemma NextRow(y: nat, m: nat)
    ensures (y + 1) * m == y * m + m
  {
  }

  // ----- the loops -----

  method MonoHorizFillRect(fb: FrameBuffer, x: nat, y: nat, w: nat, h: nat, col: Colour)
    requires fb.Valid() && (fb.format.Mhlsb? || fb.format.Mhmsb?) && Fits(fb, x, y, w, h)
    modifies fb.buf
    ensures fb.Valid() && Filled(fb, old(fb.buf[..]), Rect(x, y, w, h), col)
  {
    hide Painted, ColumnsDone, Rect, Bytes, Put, Bits, Canon, FrameBuffer.Valid;
    ghost var s0 := fb.buf[..];
    ghost var region: Region := {};
    PaintNothing(fb.format, fb.stride, s0, col);
    NoneDone(x, w, y, h);
    var reverse := fb.format.Mhmsb?;
    var advance := fb.stride / 8;
    var xx, ww := x, w;
    while ww > 0
      invariant 0 <= ww <= w && xx == x + (w - ww) && fb.Valid()
      invariant Filled(fb, s0, region, col) && ColumnsDone(region, x, xx, y, h, y)
    {
      ww := ww - 1;
      var b := xx / 8 + y * advance;
      var offset := if reverse then xx % 8 else 7 - xx % 8;
      var hh := h;
      while hh > 0
        invariant 0 <= hh <= h && fb.Valid()
        invariant b == xx / 8 + (y + h - hh) * advance
        invariant Filled(fb, s0, region, col) && ColumnsDone(region, x, xx, y, h, y + h - hh)
      {
        ghost var yy := y + h - hh;
        InsideOf(fb, x, y, w, h, xx, yy);
        PaintOne(fb.format, fb.stride, s0, fb.buf[..], region, col, xx, yy);
        ColumnsStep(region, x, xx, y, h, yy);
        fb.StoreBit(b, offset, col, xx, yy);
        region := region + {(xx, yy)};
        NextRow(yy, advance);
        b := b + advance;
        hh := hh - 1;
      }
      ColumnsNext(region, x, xx, y, h);
      xx := xx + 1;
    }
    ColumnsAreRect(region, x, y, w, h);
  }

  method MvlsbFillRect(fb: FrameBuffer, x: nat, y: nat, w: nat, h: nat, col: Colour)
    requires fb.Valid() && fb.format.Mvlsb? && Fits(fb, x, y, w, h)
    modifies fb.buf
    ensures fb.Valid() && Filled(fb, old(fb.buf[..]), Rect(x, y, w, h), col)
  {
    hide Painted, RowsDone, Rect, Bytes, Put, Bits, Canon, FrameBuffer.Valid;
    ghost var s0 := fb.buf[..];
    ghost var region: Region := {};
    PaintNothing(fb.format, fb.stride, s0, col);
    NoneDone(x, w, y, h);
    var yy, hh := y, h;
    while hh > 0
      invariant 0 <= hh <= h && yy == y + (h - hh) && fb.Valid()
      invariant Filled(fb, s0, region, col) && RowsDone(region, x, w, x, y, yy)
    {
      hh := hh - 1;
      var b := yy / 8 * fb.stride + x;
      var offset := yy % 8;
      var ww := w;
      while ww > 0
        invariant 0 <= ww <= w && fb.Valid()
        invariant b == yy / 8 * fb.stride + (x + w - ww)
        invariant Filled(fb, s0, region, col) && RowsDone(region, x, w, x + w - ww, y, yy)
      {
        ghost var xx := x + w - ww;
        InsideOf(fb, x, y, w, h, xx, yy);
        PaintOne(fb.format, fb.stride, s0, fb.buf[..], region, col, xx, yy);
        RowsStep(region, x, w, xx, y, yy);
        fb.StoreBit(b, offset, col, xx, yy);
        region := region + {(xx, yy)};
        b := b + 1;
        ww := ww - 1;
      }
      RowsNext(region, x, w, y, yy);
      yy := yy + 1;
    }
    RowsAreRect(region, x, y, w, h);
  }

  method Rgb565FillRect(fb: FrameBuffer, x: nat, y: nat, w: nat, h: nat, col: Colour)
    requires fb.Valid() && fb.format.Rgb565? && Fits(fb, x, y, w, h)
    modifies fb.buf
    ensures fb.Valid() && Filled(fb, old(fb.buf[..]), Rect(x, y, w, h), col)
  {
    hide Painted, RowsDone, Rect, Bytes, Put, Bits, Canon, FrameBuffer.Valid;
    ghost var s0, yy := fb.buf[..], y;
    ghost var region: Region := {};
    PaintNothing(fb.format, fb.stride, s0, col);
    NoneDone(x, w, y, h);
    var b := x + y * fb.stride;
    var hh := h;
    while hh > 0
      invariant 0 <= hh <= h && yy == y + (h - hh) && fb.Valid()
      invariant b == x + yy * fb.stride
      invariant Filled(fb, s0, region, col) && RowsDone(region, x, w, x, y, yy)
    {
      hh := hh - 1;
      var ww := w;
      while ww > 0
        invariant 0 <= ww <= w && fb.Valid()
        invariant b == (x + w - ww) + yy * fb.stride
        invariant Filled(fb, s0, region, col) && RowsDone(region, x, w, x + w - ww, y, yy)
      {
        ghost var xx := x + w - ww;
        InsideOf(fb, x, y, w, h, xx, yy);
        PaintOne(fb.format, fb.stride, s0, fb.buf[..], region, col, xx, yy);
        RowsStep(region, x, w, xx, y, yy);
        StoreHalfword(fb, b, col, xx, yy);
        region := region + {(xx, yy)};
        b := b + 1;
        ww := ww - 1;
      }
      RowsNext(region, x, w, y, yy);
      NextRow(yy, fb.stride);
      b := b + (fb.stride - w);
      yy := yy + 1;
    }
    RowsAreRect(region, x, y, w, h);
  }

  method StoreHalfword(fb: FrameBuffer, b: nat, col: Colour, ghost x: nat, ghost y: nat)
    requires fb.Valid() && fb.format.Rgb565? && fb.Inside(x, y) && b == x + y * fb.stride
    modifies fb.buf
    ensures fb.Valid() && fb.buf[..] == Put(fb.format, fb.stride, old(fb.buf[..]), x, y, col)
  {
    IndexFromSum(fb.format, fb.stride, x, y);
    ghost var s := fb.buf[..];
    WholeStore(fb.buf[b], (col & 0xffff) as Cell);
    hide SetBits;
    fb.buf[b] := (col & 0xffff) as Cell;
    WholeCanon(col);
    assert fb.buf[..] == Put(fb.format, fb.stride, s, x, y, col);
  }

  method Gs2HmsbFillRect(fb: FrameBuffer, x: nat, y: nat, w: nat, h: nat, col: Colour)
    requires fb.Valid() && fb.format.Gs2Hmsb? && Fits(fb, x, y, w, h)
    modifies fb.buf
    ensures fb.Valid() && Filled(fb, old(fb.buf[..]), Rect(x, y, w, h), col)
  {
    hide Painted, ColumnsDone, Rect, Bytes, Put, Bits, Canon, FrameBuffer.Valid;
    ghost var s0 := fb.buf[..];
    ghost var region: Region := {};
    PaintNothing(fb.format, fb.stride, s0, col);
    NoneDone(x, w, y, h);
    var xx := x;
    while xx < x + w
      invariant x <= xx <= x + w && fb.Valid()
      invariant Filled(fb, s0, region, col) && ColumnsDone(region, x, xx, y, h, y)
    {
      var yy := y;
      while yy < y + h
        invariant y <= yy <= y + h && fb.Valid()
        invariant Filled(fb, s0, region, col) && ColumnsDone(region, x, xx, y, h, yy)
      {
        InsideOf(fb, x, y, w, h, xx, yy);
        PaintOne(fb.format, fb.stride, s0, fb.buf[..], region, col, xx, yy);
        ColumnsStep(region, x, xx, y, h, yy);
        fb.Gs2HmsbSetPixel(xx, yy, col);
        region := region + {(xx, yy)};
        yy := yy + 1;
      }
      ColumnsNext(region, x, xx, y, h);
      xx := xx + 1;
    }
    ColumnsAreRect(region, x, y, w, h);
  }

  // ----- formats that store several pixels at once -----

  method Memset(fb: FrameBuffer, at: nat, v: Cell, n: nat)
    requires n > 0 ==> at + n <= fb.buf.Length
    modifies fb.buf
    ensures forall i :: 0 <= i < fb.buf.Length ==> fb.buf[i] == if at <= i < at + n then v else old(fb.buf[i])
  {
    for k := 0 to n
      invariant forall i :: 0 <= i < fb.buf.Length ==> fb.buf[i] == if at <= i < at + k then v else old(fb.buf[i])
    {
      fb.buf[at + k] := v;
    }
  }

  /** In the one-byte format a run of pixels is a run of equal bytes. */
  lemma {:induction false} ByteRun(stride: nat, s: seq<Cell>, x: nat, y: nat, n: nat, col: Colour, i: nat)
    requires Bytes(Gs8, s) && i < |s|
    requires forall p: nat :: x <= p < x + n ==> Addressable(Gs8, stride, |s|, p, y)
    ensures PutRun(Gs8, stride, s, x, y, n, col)[i]
            == if Index(Gs8, stride, x, y) <= i < Index(Gs8, stride, x, y) + n then (col & 0xff) as Cell else s[i]
  {
    if n > 0 {
      ByteRun(stride, s, x, y, n - 1, col, i);
      if i == Index(Gs8, stride, x + (n - 1), y) {
        ByteCanon(col, s[i]);
      }
    }
  }

  function NibblePair(v: Cell): Cell {
    (v << 4) | v
  }

  /** Both nibbles of a byte set to the same value. */
  lemma PairOfNibbles(c: Cell, v: Cell)
    requires c <= 0xff
    ensures SetBits(SetBits(c, 4, 0xf, v), 0, 0xf, v) == NibblePair(v & 0xf)
  {
  }

  /** In the four-bit format a run of pixels that starts in the high nibble and has even
      length is a run of equal bytes. */
  lemma {:induction false} PairRun(stride: nat, s: seq<Cell>, x: nat, y: nat, n: nat, col: Colour, i: nat, pair: Cell)
    requires Bytes(Gs4Hmsb, s) && i < |s| && x % 2 == 0 && pair == NibblePair(Canon(Gs4Hmsb, col) & 0xf)
    requires forall p: nat :: x <= p < x + 2 * n ==> Addressable(Gs4Hmsb, stride, |s|, p, y)
    ensures PutRun(Gs4Hmsb, stride, s, x, y, 2 * n, col)[i]
            == if Index(Gs4Hmsb, stride, x, y) <= i < Index(Gs4Hmsb, stride, x, y) + n then pair else s[i]
    decreases n
  {
    ByteIn(s, i);
    hide Canon, SetBits, Bytes, Put, PutRun, NibblePair, Addressable, Index;
    if n == 0 {
      NothingRun(Gs4Hmsb, stride, s, x, y, col);
    } else {
      PairsAhead(stride, s, x, y, n);
      PairRun(stride, s, x, y, n - 1, col, i, pair);
      RunOfTwoMore(stride, s, x, y, n, col);
      PutPair(stride, PutRun(Gs4Hmsb, stride, s, x, y, 2 * (n - 1), col), x + 2 * (n - 1), y, col, i);
    }
  }

  lemma PairsAhead(stride: nat, s: seq<Cell>, x: nat, y: nat, n: nat)
    requires n > 0 && x % 2 == 0
    requires forall p: nat :: x <= p < x + 2 * n ==> Addressable(Gs4Hmsb, stride, |s|, p, y)
    ensures var a := x + 2 * (n - 1);
            Index(Gs4Hmsb, stride, a, y) == Index(Gs4Hmsb, stride, x, y) + n - 1
            && Addressable(Gs4Hmsb, stride, |s|, a, y) && Addressable(Gs4Hmsb, stride, |s|, a + 1, y)
  {
  }

  lemma RunOfTwoMore(stride: nat, s: seq<Cell>, x: nat, y: nat, n: nat, col: Colour)
    requires n > 0 && forall p: nat :: x <= p < x + 2 * n ==> Addressable(Gs4Hmsb, stride, |s|, p, y)
    ensures PutRun(Gs4Hmsb, stride, s, x, y, 2 * n, col)
            == Put(Gs4Hmsb, stride, Put(Gs4Hmsb, stride, PutRun(Gs4Hmsb, stride, s, x, y, 2 * (n - 1), col),
                                        x + 2 * (n - 1), y, col), x + 2 * (n - 1) + 1, y, col)
  {
    hide Put, PutRun, Index, Addressable;
    RunOfOneMore(Gs4Hmsb, stride, s, x, y, 2 * n, col);
    RunOfOneMore(Gs4Hmsb, stride, s, x, y, 2 * n - 1, col);
  }

  lemma RunOfOneMore(f: Format, stride: nat, s: seq<Cell>, x: nat, y: nat, n: nat, col: Colour)
    requires n > 0 && forall p: nat :: x <= p < x + n ==> Addressable(f, stride, |s|, p, y)
    ensures PutRun(f, stride, s, x, y, n, col)
            == Put(f, stride, PutRun(f, stride, s, x, y, n - 1, col), x + n - 1, y, col)
  {
    hide Put, Addressable;
  }

  lemma PutPair(stride: nat, r: seq<Cell>, a: nat, y: nat, col: Colour, i: nat)
    requires a % 2 == 0 && i < |r| && Addressable(Gs4Hmsb, stride, |r|, a, y)
             && Addressable(Gs4Hmsb, stride, |r|, a + 1, y)
    requires i == Index(Gs4Hmsb, stride, a, y) ==> r[i] <= 0xff
    ensures Put(Gs4Hmsb, stride, Put(Gs4Hmsb, stride, r, a, y, col), a + 1, y, col)[i]
            == if i == Index(Gs4Hmsb, stride, a, y)
               then NibblePair(Canon(Gs4Hmsb, col) & 0xf) else r[i]
  {
    hide Canon, SetBits, NibblePair;
    assert (a + 1) / 2 == a / 2;
    if i == Index(Gs4Hmsb, stride, a, y) {
      PairOfNibbles(r[i], Canon(Gs4Hmsb, col));
    }
  }

  lemma ByteIn(s: seq<Cell>, i: nat)
    requires Bytes(Gs4Hmsb, s) && i < |s|
    ensures s[i] <= 0xff
  {
  }

  lemma RowInside(fb: FrameBuffer, x: nat, w: nat, y: nat, h: nat, xx: nat, n: nat, yy: nat)
    requires fb.Valid() && Fits(fb, x, y, w, h) && x <= xx && xx + n <= x + w && y <= yy < y + h
    ensures forall p: nat :: xx <= p < xx + n ==> Addressable(fb.format, fb.stride, fb.buf.Length, p, yy)
    ensures fb.stride % Unit(fb.format) == 0
  {
    forall p: nat | xx <= p < xx + n ensures Addressable(fb.format, fb.stride, fb.buf.Length, p, yy) {
      InsideOf(fb, x, y, w, h, p, yy);
    }
  }

  lemma RunKeepsBytes(f: Format, stride: nat, s: seq<Cell>, x: nat, y: nat, n: nat, col: Colour)
    requires Bytes(f, s)
    requires forall p: nat :: x <= p < x + n ==> Addressable(f, stride, |s|, p, y)
    ensures Bytes(f, PutRun(f, stride, s, x, y, n, col))
  {
    hide Bytes, Put;
    if n > 0 {
      RunKeepsBytes(f, stride, s, x, y, n - 1, col);
      PutBytes(f, stride, PutRun(f, stride, s, x, y, n - 1, col), x + n - 1, y, col);
    }
  }

  method MemsetBytes(fb: FrameBuffer, at: nat, n: nat, col: Colour, ghost x: nat, ghost y: nat)
    requires fb.Valid() && fb.format.Gs8? && at == Index(Gs8, fb.stride, x, y)
    requires forall p: nat :: x <= p < x + n ==> Addressable(Gs8, fb.stride, fb.buf.Length, p, y)
    requires n > 0 ==> at + n <= fb.buf.Length
    modifies fb.buf
    ensures fb.Valid() && fb.buf[..] == PutRun(Gs8, fb.stride, old(fb.buf[..]), x, y, n, col)
  {
    ghost var s := fb.buf[..];
    RunKeepsBytes(Gs8, fb.stride, s, x, y, n, col);
    Memset(fb, at, (col & 0xff) as Cell, n);
    hide Bytes, Put, Canon, PutRun;
    forall i: nat | i < |s| ensures fb.buf[i] == PutRun(Gs8, fb.stride, s, x, y, n, col)[i] {
      ByteRun(fb.stride, s, x, y, n, col, i);
    }
    assert fb.buf[..] == PutRun(Gs8, fb.stride, s, x, y, n, col);
  }

  method Gs8FillRect(fb: FrameBuffer, x: nat, y: nat, w: nat, h: nat, col: Colour)
    requires fb.Valid() && fb.format.Gs8? && Fits(fb, x, y, w, h)
    modifies fb.buf
    ensures fb.Valid() && Filled(fb, old(fb.buf[..]), Rect(x, y, w, h), col)
  {
    hide Painted, RowsDone, Rect, Bytes, Put, PutRun, Run, Bits, Canon, FrameBuffer.Valid;
    ghost var s0, yy := fb.buf[..], y;
    ghost var region: Region := {};
    PaintNothing(fb.format, fb.stride, s0, col);
    NoneDone(x, w, y, h);
    var pixel := x + y * fb.stride;
    var hh := h;
    while hh > 0
      invariant 0 <= hh <= h && yy == y + (h - hh) && fb.Valid()
      invariant pixel == x + yy * fb.stride
      invariant Filled(fb, s0, region, col) && RowsDone(region, x, w, x, y, yy)
    {
      hh := hh - 1;
      RowInside(fb, x, w, y, h, x, w, yy);
      PaintRun(fb.format, fb.stride, s0, fb.buf[..], region, col, x, yy, w);
      RowsRun(region, x, w, x, y, yy, w);
      assert w > 0 ==> Addressable(fb.format, fb.stride, fb.buf.Length, x + w - 1, yy);
      MemsetBytes(fb, pixel, w, col, x, yy);
      region := region + Run(x, yy, w);
      RowsNext(region, x, w, y, yy);
      NextRow(yy, fb.stride);
      pixel := pixel + fb.stride;
      yy := yy + 1;
    }
    RowsAreRect(region, x, y, w, h);
  }

  lemma NothingRun(f: Format, stride: nat, s: seq<Cell>, x: nat, y: nat, col: Colour)
    ensures PutRun(f, stride, s, x, y, 0, col) == s
  {
  }

  // ----- four bits per pixel -----

  /** The colour as the fill prepares it. */
  lemma NibblePrepared(col: Colour)
    ensures (col & 0xf) as Cell == Canon(Gs4Hmsb, col) & 0xf
  {
  }

  method StoreLow(fb: FrameBuffer, b: nat, nibble: Cell, ghost col: Colour, ghost x: nat, ghost y: nat)
    requires fb.Valid() && fb.format.Gs4Hmsb? && fb.Inside(x, y) && x % 2 == 1
    requires b == Index(Gs4Hmsb, fb.stride, x, y) && nibble == Canon(Gs4Hmsb, col) & 0xf
    modifies fb.buf
    ensures fb.Valid() && fb.buf[..] == Put(Gs4Hmsb, fb.stride, old(fb.buf[..]), x, y, col)
  {
    ghost var s := fb.buf[..];
    PutBytes(Gs4Hmsb, fb.stride, s, x, y, col);
    fb.ByteAt(b);
    LowNibbleStore(fb.buf[b], nibble, Canon(Gs4Hmsb, col));
    hide SetBits, Bytes, Canon;
    fb.buf[b] := (fb.buf[b] & 0xf0) | nibble;
    assert fb.buf[..] == Put(Gs4Hmsb, fb.stride, s, x, y, col);
  }

  method StoreHigh(fb: FrameBuffer, b: nat, shifted: Cell, ghost col: Colour, ghost x: nat, ghost y: nat)
    requires fb.Valid() && fb.format.Gs4Hmsb? && fb.Inside(x, y) && x % 2 == 0
    requires b == Index(Gs4Hmsb, fb.stride, x, y) && shifted == (Canon(Gs4Hmsb, col) & 0xf) << 4
    modifies fb.buf
    ensures fb.Valid() && fb.buf[..] == Put(Gs4Hmsb, fb.stride, old(fb.buf[..]), x, y, col)
  {
    ghost var s := fb.buf[..];
    PutBytes(Gs4Hmsb, fb.stride, s, x, y, col);
    fb.ByteAt(b);
    HighNibbleStore(fb.buf[b], shifted, Canon(Gs4Hmsb, col));
    hide SetBits, Bytes, Canon;
    fb.buf[b] := shifted | (fb.buf[b] & 0xf);
    assert fb.buf[..] == Put(Gs4Hmsb, fb.stride, s, x, y, col);
  }

  lemma LowNibbleStore(c: Cell, nibble: Cell, v: Cell)
    requires c <= 0xff && nibble == v & 0xf
    ensures (c & 0xf0) | nibble == SetBits(c, 0, 0xf, v)
  {
  }

  lemma HighNibbleStore(c: Cell, shifted: Cell, v: Cell)
    requires c <= 0xff && shifted == (v & 0xf) << 4
    ensures shifted | (c & 0xf) == SetBits(c, 4, 0xf, v)
  {
  }

  method MemsetPairs(fb: FrameBuffer, at: nat, pair: Cell, n: nat, ghost col: Colour, ghost x: nat, ghost y: nat)
    requires fb.Valid() && fb.format.Gs4Hmsb?
    requires n > 0 ==> x % 2 == 0 && at == Index(Gs4Hmsb, fb.stride, x, y)
    requires forall p: nat :: x <= p < x + 2 * n ==> Addressable(Gs4Hmsb, fb.stride, fb.buf.Length, p, y)
    requires pair == NibblePair(Canon(Gs4Hmsb, col) & 0xf)
    modifies fb.buf
    ensures fb.Valid() && fb.buf[..] == PutRun(Gs4Hmsb, fb.stride, old(fb.buf[..]), x, y, 2 * n, col)
  {
    ghost var s := fb.buf[..];
    RunKeepsBytes(Gs4Hmsb, fb.stride, s, x, y, 2 * n, col);
    assert n > 0 ==> Addressable(Gs4Hmsb, fb.stride, fb.buf.Length, x + (2 * n - 1), y);
    Memset(fb, at, pair, n);
    NothingRun(Gs4Hmsb, fb.stride, s, x, y, col);
    hide Bytes, Put, Canon, PutRun, NibblePair;
    forall i: nat | i < |s| ensures fb.buf[i] == PutRun(Gs4Hmsb, fb.stride, s, x, y, 2 * n, col)[i] {
      if n > 0 {
        PairRun(fb.stride, s, x, y, n, col, i, pair);
      }
    }
    assert fb.buf[..] == PutRun(Gs4Hmsb, fb.stride, s, x, y, 2 * n, col);
  }

  /** One row: a low nibble if the row starts on one, whole bytes, a high nibble if one is
      left over.  The pointer ends behind the bytes that were completed. */
  method Gs4Row(fb: FrameBuffer, pixelPair: nat, col4: Cell, w: nat, oddX: bool, ghost col: Colour, ghost s0: seq<Cell>,
      ghost region: Region, ghost x: nat, ghost y: nat, ghost h: nat, ghost yy: nat)
    returns (next: nat, ghost after: Region)
    requires fb.Valid() && fb.format.Gs4Hmsb? && Fits(fb, x, y, w, h) && y <= yy < y + h
    requires pixelPair == Index(Gs4Hmsb, fb.stride, x, yy) && oddX == (x % 2 == 1)
    requires col4 == Canon(Gs4Hmsb, col) & 0xf
    requires Filled(fb, s0, region, col) && RowsDone(region, x, w, x, y, yy)
    modifies fb.buf
    ensures fb.Valid() && Filled(fb, s0, after, col) && RowsDone(after, x, w, x + w, y, yy)
    ensures next == pixelPair + (w + 1) / 2
  {
    hide Painted, RowsDone, Bytes, Put, PutRun, Run, Bits, Canon, NibblePair, FrameBuffer.Valid;
    next, after := pixelPair, region;
    ghost var xx := x;
    var ww := w;
    if oddX && ww > 0 {
      after := RowLow(fb, next, col4, w, col, s0, after, x, xx, y, h, yy);
      xx := xx + 1;
      next := next + 1;
      ww := ww - 1;
    }
    after := RowPairs(fb, next, NibblePair(col4), ww / 2, w, col, s0, after, x, xx, y, h, yy);
    xx := xx + 2 * (ww / 2);
    next := next + ww / 2;
    if ww % 2 == 1 {
      after := RowHigh(fb, next, col4 << 4, w, col, s0, after, x, xx, y, h, yy);
      if !oddX {
        next := next + 1;
      }
    }
  }

  method RowLow(fb: FrameBuffer, b: nat, nibble: Cell, ghost w: nat, ghost col: Colour, ghost s0: seq<Cell>,
      ghost region: Region, ghost x: nat, ghost xx: nat, ghost y: nat, ghost h: nat, ghost yy: nat)
    returns (ghost after: Region)
    requires fb.Valid() && fb.format.Gs4Hmsb? && Fits(fb, x, y, w, h) && y <= yy < y + h && x <= xx < x + w
    requires xx % 2 == 1 && b == Index(Gs4Hmsb, fb.stride, xx, yy) && nibble == Canon(Gs4Hmsb, col) & 0xf
    requires Filled(fb, s0, region, col) && RowsDone(region, x, w, xx, y, yy)
    modifies fb.buf
    ensures fb.Valid() && Filled(fb, s0, after, col) && RowsDone(after, x, w, xx + 1, y, yy)
  {
    hide Painted, RowsDone, Put, Canon, FrameBuffer.Valid;
    InsideOf(fb, x, y, w, h, xx, yy);
    PaintOne(fb.format, fb.stride, s0, fb.buf[..], region, col, xx, yy);
    RowsStep(region, x, w, xx, y, yy);
    StoreLow(fb, b, nibble, col, xx, yy);
    after := region + {(xx, yy)};
  }

  method RowHigh(fb: FrameBuffer, b: nat, shifted: Cell, ghost w: nat, ghost col: Colour, ghost s0: seq<Cell>,
      ghost region: Region, ghost x: nat, ghost xx: nat, ghost y: nat, ghost h: nat, ghost yy: nat)
    returns (ghost after: Region)
    requires fb.Valid() && fb.format.Gs4Hmsb? && Fits(fb, x, y, w, h) && y <= yy < y + h && x <= xx < x + w
    requires xx % 2 == 0 && b == Index(Gs4Hmsb, fb.stride, xx, yy) && shifted == (Canon(Gs4Hmsb, col) & 0xf) << 4
    requires Filled(fb, s0, region, col) && RowsDone(region, x, w, xx, y, yy)
    modifies fb.buf
    ensures fb.Valid() && Filled(fb, s0, after, col) && RowsDone(after, x, w, xx + 1, y, yy)
  {
    hide Painted, RowsDone, Put, Canon, FrameBuffer.Valid;
    InsideOf(fb, x, y, w, h, xx, yy);
    PaintOne(fb.format, fb.stride, s0, fb.buf[..], region, col, xx, yy);
    RowsStep(region, x, w, xx, y, yy);
    StoreHigh(fb, b, shifted, col, xx, yy);
    after := region + {(xx, yy)};
  }

  method RowPairs(fb: FrameBuffer, b: nat, pair: Cell, n: nat, ghost w: nat, ghost col: Colour, ghost s0: seq<Cell>,
      ghost region: Region, ghost x: nat, ghost xx: nat, ghost y: nat, ghost h: nat, ghost yy: nat)
    returns (ghost after: Region)
    requires fb.Valid() && fb.format.Gs4Hmsb? && Fits(fb, x, y, w, h) && y <= yy < y + h && x <= xx
             && xx + 2 * n <= x + w
    requires n > 0 ==> xx % 2 == 0 && b == Index(Gs4Hmsb, fb.stride, xx, yy)
    requires pair == NibblePair(Canon(Gs4Hmsb, col) & 0xf)
    requires Filled(fb, s0, region, col) && RowsDone(region, x, w, xx, y, yy)
    modifies fb.buf
    ensures fb.Valid() && Filled(fb, s0, after, col) && RowsDone(after, x, w, xx + 2 * n, y, yy)
  {
    hide Painted, RowsDone, Put, PutRun, Run, Canon, NibblePair, FrameBuffer.Valid;
    RowInside(fb, x, w, y, h, xx, 2 * n, yy);
    PaintRun(fb.format, fb.stride, s0, fb.buf[..], region, col, xx, yy, 2 * n);
    RowsRun(region, x, w, xx, y, yy, 2 * n);
    MemsetPairs(fb, b, pair, n, col, xx, yy);
    after := region + Run(xx, yy, 2 * n);
  }

  method Gs4HmsbFillRect(fb: FrameBuffer, x: nat, y: nat, w: nat, h: nat, col: Colour)
    requires fb.Valid() && fb.format.Gs4Hmsb? && Fits(fb, x, y, w, h)
    modifies fb.buf
    ensures fb.Valid() && Filled(fb, old(fb.buf[..]), Rect(x, y, w, h), col)
  {
    hide Painted, RowsDone, Rect, Bytes, Put, PutRun, Run, Bits, Canon;
    ghost var s0, yy := fb.buf[..], y;
    ghost var region: Region := {};
    PaintNothing(fb.format, fb.stride, s0, col);
    NoneDone(x, w, y, h);
    NibblePrepared(col);
    IndexFromSum(fb.format, fb.stride, x, y);
    var col4 := (col & 0xf) as Cell;
    var pixelPair := (x + y * fb.stride) / 2;
    var pixelCountTillNextLine := (fb.stride - w) / 2;
    var oddX := x % 2 == 1;
    var hh := h;
    while hh > 0
      invariant 0 <= hh <= h && yy == y + (h - hh) && fb.Valid()
      invariant pixelPair == Index(Gs4Hmsb, fb.stride, x, yy)
      invariant Filled(fb, s0, region, col) && RowsDone(region, x, w, x, y, yy)
    {
      hh := hh - 1;
      pixelPair, region := Gs4Row(fb, pixelPair, col4, w, oddX, col, s0, region, x, y, h, yy);
      RowsNext(region, x, w, y, yy);
      NextRow(yy, fb.stride / 2);
      pixelPair := pixelPair + pixelCountTillNextLine;
      yy := yy + 1;
    }
    RowsAreRect(region, x, y, w, h);
  }

  // ----- dispatch and clipping -----

  method FormatFillRect(fb: FrameBuffer, x: nat, y: nat, w: nat, h: nat, col: Colour)
    requires fb.Valid() && Fits(fb, x, y, w, h)
    modifies fb.buf
    ensures fb.Valid() && Filled(fb, old(fb.buf[..]), Rect(x, y, w, h), col)
  {
    match fb.format {
      case Mvlsb => MvlsbFillRect(fb, x, y, w, h, col);
      case Rgb565 => Rgb565FillRect(fb, x, y, w, h, col);
      case Gs2Hmsb => Gs2HmsbFillRect(fb, x, y, w, h, col);
      case Gs4Hmsb => Gs4HmsbFillRect(fb, x, y, w, h, col);
      case Gs8 => Gs8FillRect(fb, x, y, w, h, col);
      case Mhlsb => MonoHorizFillRect(fb, x, y, w, h, col);
      case Mhmsb => MonoHorizFillRect(fb, x, y, w, h, col);
    }
  }

  /** The part of a rectangle, given by any integers, that is on the screen. */
  ghost function OnScreen(fb: FrameBuffer, x: int, y: int, w: int, h: int): Region {
    set p: nat, q: nat | p < fb.width && q < fb.height && x <= p < x + w && y <= q < y + h :: (p, q)
  }

  lemma OnScreenMember(fb: FrameBuffer, x: int, y: int, w: int, h: int, t: (nat, nat))
    ensures t in OnScreen(fb, x, y, w, h)
            <==> t.0 < fb.width && t.1 < fb.height && x <= t.0 < x + w && y <= t.1 < y + h
  {
  }

  /** Clips and fills: exactly the pixels of the rectangle that are on the screen are set,
      every other pixel in the buffer keeps its value. */
  method FillRect(fb: FrameBuffer, x: int, y: int, w: int, h: int, col: Colour)
    requires fb.Valid()
    modifies fb.buf
    ensures fb.Valid() && Filled(fb, old(fb.buf[..]), OnScreen(fb, x, y, w, h), col)
  {
    hide Painted, Bytes, FrameBuffer.Valid;
    if h < 1 || w < 1 || x + w <= 0 || y + h <= 0 || y >= fb.height || x >= fb.width {
      PaintNothing(fb.format, fb.stride, fb.buf[..], col);
      assert OnScreen(fb, x, y, w, h) == {};
      return;
    }
    var xend := if fb.width < x + w then fb.width else x + w;
    var yend := if fb.height < y + h then fb.height else y + h;
    var x0 := if x > 0 then x else 0;
    var y0 := if y > 0 then y else 0;
    FormatFillRect(fb, x0, y0, xend - x0, yend - y0, col);
    forall t: (nat, nat) ensures t in OnScreen(fb, x, y, w, h) <==> t in Rect(x0, y0, xend - x0, yend - y0) {
      OnScreenMember(fb, x, y, w, h, t);
      var (p, q) := t;
    }
    assert OnScreen(fb, x, y, w, h) == Rect(x0, y0, xend - x0, yend - y0);
  }

  /** Fills the whole screen. */
  method Fill(fb: FrameBuffer, col: Colour)
    requires fb.Valid()
    modifies fb.buf
    ensures fb.Valid() && Filled(fb, old(fb.buf[..]), Rect(0, 0, fb.width, fb.height), col)
  {
    FormatFillRect(fb, 0, 0, fb.width, fb.height, col);
  }
}
