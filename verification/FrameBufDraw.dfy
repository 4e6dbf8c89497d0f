/** The frame buffer object and its drawing operations, which change the buffer in place. */
module FrameBufDraw {
  import opened FrameBuf

  /** Cells a screen of the given height takes. */
  function CellsNeeded(f: Format, stride: nat, height: nat): nat {
    if f.Mvlsb? then (height + 7) / 8 * stride else height * (stride / Unit(f))
  }

  ghost function Rect(x: nat, y: nat, w: nat, h: nat): Region {
    set p: nat, q: nat | x <= p < x + w && y <= q < y + h :: (p, q)
  }

  lemma OnScreenAddressable(f: Format, stride: nat, width: nat, height: nat, n: nat, x: nat, y: nat)
    requires width <= stride && stride % Unit(f) == 0 && CellsNeeded(f, stride, height) <= n
    requires x < width && y < height
    ensures Addressable(f, stride, n, x, y)
  {
    if f.Mvlsb? {
      RowGap(stride, y / 8, (height + 7) / 8);
    } else {
      RowGap(stride / Unit(f), y, height);
    }
  }

  /** The cell number as the code computes it from the pixel number. */
  lemma IndexFromSum(f: Format, stride: nat, x: nat, y: nat)
    requires stride % Unit(f) == 0 && !f.Mvlsb?
    ensures (x + y * stride) / Unit(f) == Index(f, stride, x, y)
  {
    var q := stride / Unit(f);
    var k := y * q;
    assert y * stride == Unit(f) * k by {
      assert stride == q * Unit(f);
      MulSwap(y, q, Unit(f));
    }
    assert (x + 8 * k) / 8 == x / 8 + k && (x + 4 * k) / 4 == x / 4 + k && (x + 2 * k) / 2 == x / 2 + k;
  }

  lemma MulSwap(y: nat, q: nat, u: nat)
    ensures y * (q * u) == u * (y * q)
  {
  }

  // ----- the stores of the formats are field updates -----

  lemma BitStore(c: Cell, h: Cell, b: Cell)
    requires h < 8 && (b == 0 || b == 1)
    ensures Merged(c, h, 1, b) == SetBits(c, h, 1, b)
  {
    hide Merged;
    assert b & 1 == b;
  }

  /** Only the masked part of a value is stored. */
  lemma SetBitsMasked(c: Cell, h: Cell, m: Cell, u: Cell, v: Cell)
    requires h < 8 && u & m == v & m
    ensures SetBits(c, h, m, u) == SetBits(c, h, m, v)
  {
    hide Merged;
  }

  lemma PairStore(c: Cell, h: Cell, v: Cell)
    requires h < 8
    ensures Merged(c, h, 3, v & 3) == SetBits(c, h, 3, v)
  {
    hide Merged;
  }

  lemma NibbleStore(c: Cell, v: Cell)
    requires c <= 0xff
    ensures (v & 0xf) | (c & 0xf0) == SetBits(c, 0, 0xf, v)
    ensures ((v << 4) & 0xff) | (c & 0xf) == SetBits(c, 4, 0xf, v)
  {
  }

  lemma WholeStore(c: Cell, v: Cell)
    ensures c <= 0xff && v <= 0xff ==> SetBits(c, 0, 0xff, v) == v
    ensures SetBits(c, 0, 0xffff, v) == v
  {
  }

  lemma LowByte(col: Colour)
    ensures ((col & 0xff) as Cell) & 0xf == ((col & 0xffff) as Cell) & 0xf
    ensures (col & 0xff) as Cell == ((col & 0xffff) as Cell) & 0xff
    ensures (col & 3) as Cell == ((col & 0xffff) as Cell) & 3
    ensures (col & 0xff) as Cell <= 0xff
  {
  }

  /** Field updates of byte formats leave bytes bytes. */
  ghost predicate Bytes(f: Format, s: seq<Cell>) {
    f.Rgb565? || forall i :: 0 <= i < |s| ==> s[i] <= 0xff
  }

  lemma PutBytes(f: Format, stride: nat, s: seq<Cell>, x: nat, y: nat, col: Colour)
    requires Addressable(f, stride, |s|, x, y) && Bytes(f, s)
    ensures Bytes(f, Put(f, stride, s, x, y, col))
  {
    if !f.Rgb565? {
      SetStaysByte(s[Index(f, stride, x, y)], Shift(f, x, y), Width(f), Canon(f, col));
    }
  }

  // ----- the layouts in plain arithmetic -----

  /** The bits of `m`, moved to bit `k`. */
  function BitsAt(c: Cell, k: nat, m: Cell): Cell
    requires k < 8
  {
    (c >> k) & m
  }

  /** Of the buffer only the `w` bits at `k` of cell `i` were changed, and they are `v`. */
  ghost predicate BitsStored(s: seq<Cell>, r: seq<Cell>, i: nat, k: nat, w: nat, m: Cell, v: Cell)
    requires k < 8 && w > 0
  {
    && |r| == |s| && i < |s| && (forall j :: 0 <= j < |s| && j != i ==> r[j] == s[j])
    && BitsAt(r[i], k, m) == v
    && forall g: nat :: g < 8 && g % w == 0 && g != k ==> BitsAt(r[i], g, m) == BitsAt(s[i], g, m)
  }

  /** The colour as each format stores it. */
  function PlainColour(f: Format, col: Colour): Cell {
    match f
    case Gs2Hmsb => (col & 3) as Cell
    case Gs4Hmsb => (col & 0xf) as Cell
    case Gs8 => (col & 0xff) as Cell
    case Rgb565 => (col & 0xffff) as Cell
    case _ => if col != 0 then 1 else 0
  }

  /** What setting pixel (x, y) does to the buffer, format by format. */
  ghost predicate Stored(f: Format, stride: nat, s: seq<Cell>, r: seq<Cell>, x: nat, y: nat, col: Colour) {
    match f
    case Mvlsb => BitsStored(s, r, y / 8 * stride + x, y % 8, 1, 1, PlainColour(f, col))
    case Mhlsb => BitsStored(s, r, (x + y * stride) / 8, 7 - x % 8, 1, 1, PlainColour(f, col))
    case Mhmsb => BitsStored(s, r, (x + y * stride) / 8, x % 8, 1, 1, PlainColour(f, col))
    case Gs2Hmsb => BitsStored(s, r, (x + y * stride) / 4, 2 * (x % 4), 2, 3, PlainColour(f, col))
    case Gs4Hmsb => BitsStored(s, r, (x + y * stride) / 2, if x % 2 == 0 then 4 else 0, 4, 0xf, PlainColour(f, col))
    case Gs8 => BitsStored(s, r, x + y * stride, 0, 8, 0xff, PlainColour(f, col))
    case Rgb565 => BitsStored(s, r, x + y * stride, 0, 16, 0xffff, PlainColour(f, col))
  }

  ghost predicate BitsRead(s: seq<Cell>, i: nat, k: nat, m: Cell, v: Colour)
    requires k < 8
  {
    i < |s| && v == BitsAt(s[i], k, m) as Colour
  }

  /** What pixel (x, y) is, format by format. */
  ghost predicate ReadAs(f: Format, stride: nat, s: seq<Cell>, x: nat, y: nat, v: Colour) {
    match f
    case Mvlsb => BitsRead(s, y / 8 * stride + x, y % 8, 1, v)
    case Mhlsb => BitsRead(s, (x + y * stride) / 8, 7 - x % 8, 1, v)
    case Mhmsb => BitsRead(s, (x + y * stride) / 8, x % 8, 1, v)
    case Gs2Hmsb => BitsRead(s, (x + y * stride) / 4, 2 * (x % 4), 3, v)
    case Gs4Hmsb => BitsRead(s, (x + y * stride) / 2, if x % 2 == 0 then 4 else 0, 0xf, v)
    case Gs8 => BitsRead(s, x + y * stride, 0, 0xff, v)
    case Rgb565 => BitsRead(s, x + y * stride, 0, 0xffff, v)
  }

  lemma ShiftIs(c: Cell, k: nat)
    requires k < 8
    ensures c >> k == c >> Sh(k) && c << k == c << Sh(k)
  {
  }

  lemma BitsAtIs(c: Cell, k: nat, m: Cell)
    requires k < 8
    ensures BitsAt(c, k, m) == Bits(c, Sh(k), m)
  {
    ShiftIs(c, k);
    hide Sh;
  }

  lemma SetFieldPlainly(c: Cell, k: nat, w: nat, v: Cell)
    requires Slot(k, w)
    ensures var r, m := SetField(c, k, w, v), Mask(w);
            && BitsAt(r, k, m) == v & m
            && forall g: nat :: g < 8 && g % w == 0 && g != k ==> BitsAt(r, g, m) == BitsAt(c, g, m)
  {
    var r, m := SetField(c, k, w, v), Mask(w);
    FieldSet(c, k, w, v);
    hide BitsAt, Bits, SetField, Sh, Mask;
    BitsAtIs(r, k, m);
    forall g: nat | g < 8 && g % w == 0 && g != k ensures BitsAt(r, g, m) == BitsAt(c, g, m) {
      FieldKept(c, k, w, v, g);
      BitsAtIs(r, g, m);
      BitsAtIs(c, g, m);
    }
  }

  lemma PlainOne(f: Format, col: Colour)
    requires Width(f) == 1
    ensures Canon(f, col) == PlainColour(f, col)
  {
  }

  lemma PlainPair(col: Colour)
    ensures Canon(Gs2Hmsb, col) == PlainColour(Gs2Hmsb, col)
  {
  }

  lemma PlainNibble(col: Colour)
    ensures Canon(Gs4Hmsb, col) == PlainColour(Gs4Hmsb, col)
  {
  }

  lemma PlainByte(col: Colour)
    ensures Canon(Gs8, col) == PlainColour(Gs8, col)
  {
  }

  lemma PlainHalfword(col: Colour)
    ensures Canon(Rgb565, col) == PlainColour(Rgb565, col)
  {
  }

  lemma CanonPlainly(f: Format, col: Colour)
    ensures Canon(f, col) == PlainColour(f, col)
  {
    hide Canon, PlainColour;
    match f
    case Gs2Hmsb => PlainPair(col);
    case Gs4Hmsb => PlainNibble(col);
    case Gs8 => PlainByte(col);
    case Rgb565 => PlainHalfword(col);
    case _ => PlainOne(f, col);
  }

  /** Setting a pixel stores the colour where the format has that pixel, and nothing else. */
  lemma PutStores(f: Format, stride: nat, s: seq<Cell>, x: nat, y: nat, col: Colour)
    requires stride % Unit(f) == 0 && Addressable(f, stride, |s|, x, y)
    ensures Stored(f, stride, s, Put(f, stride, s, x, y, col), x, y, col)
  {
    PutStoresField(f, stride, s, x, y, col);
    hide Put;
    StoredFrom(f, stride, s, Put(f, stride, s, x, y, col), x, y, col);
  }

  lemma PutStoresField(f: Format, stride: nat, s: seq<Cell>, x: nat, y: nat, col: Colour)
    requires Addressable(f, stride, |s|, x, y)
    ensures Shift(f, x, y) < 8 && Width(f) > 0
    ensures BitsStored(s, Put(f, stride, s, x, y, col), Index(f, stride, x, y), Shift(f, x, y), Width(f),
                       Mask(Width(f)), PlainColour(f, col))
  {
    var i, k, w := Index(f, stride, x, y), Shift(f, x, y), Width(f);
    SlotIsBit(k, w);
    CanonMasked(f, col);
    CanonPlainly(f, col);
    hide SetField, Canon, BitsStored, PlainColour, Mask, Index, Shift, Width, Slot;
    FieldStored(s, i, k, w, Canon(f, col));
  }

  lemma SlotIsBit(k: nat, w: nat)
    requires Slot(k, w)
    ensures k < 8 && w > 0
  {
  }

  lemma FieldStored(s: seq<Cell>, i: nat, k: nat, w: nat, v: Cell)
    requires i < |s| && Slot(k, w) && k < 8 && w > 0
    ensures BitsStored(s, s[i := SetField(s[i], k, w, v)], i, k, w, Mask(w), v & Mask(w))
  {
    SetFieldPlainly(s[i], k, w, v);
    hide SetField, BitsAt, Mask, Slot;
  }

  lemma StoredFrom(f: Format, stride: nat, s: seq<Cell>, r: seq<Cell>, x: nat, y: nat, col: Colour)
    requires stride % Unit(f) == 0 && Shift(f, x, y) < 8 && Width(f) > 0
    requires BitsStored(s, r, Index(f, stride, x, y), Shift(f, x, y), Width(f), Mask(Width(f)), PlainColour(f, col))
    ensures Stored(f, stride, s, r, x, y, col)
  {
    PlainPlace(f, stride, x, y);
    hide BitsStored, Index, Shift, Mask, PlainColour;
  }

  /** Reading a pixel reads those bits. */
  lemma GetReads(f: Format, stride: nat, s: seq<Cell>, x: nat, y: nat)
    requires stride % Unit(f) == 0 && Addressable(f, stride, |s|, x, y)
    ensures ReadAs(f, stride, s, x, y, Get(f, stride, s, x, y) as Colour)
  {
    var i, k, w := Index(f, stride, x, y), Shift(f, x, y), Width(f);
    BitsAtIs(s[i], k, Mask(w));
    hide Bits, BitsAt, Sh;
    PlainPlace(f, stride, x, y);
    assert BitsRead(s, i, k, Mask(w), Get(f, stride, s, x, y) as Colour);
    hide BitsRead, Index, Shift, Get;
  }

  /** Cell, first bit and mask of a pixel. */
  lemma PlainPlace(f: Format, stride: nat, x: nat, y: nat)
    requires stride % Unit(f) == 0
    ensures var i, k, m := Index(f, stride, x, y), Shift(f, x, y), Mask(Width(f));
            Width(f) > 0 &&
            match f
            case Mvlsb => i == y / 8 * stride + x && k == y % 8 && m == 1
            case Mhlsb => i == (x + y * stride) / 8 && k == 7 - x % 8 && m == 1
            case Mhmsb => i == (x + y * stride) / 8 && k == x % 8 && m == 1
            case Gs2Hmsb => i == (x + y * stride) / 4 && k == 2 * (x % 4) && m == 3
            case Gs4Hmsb => i == (x + y * stride) / 2 && k == (if x % 2 == 0 then 4 else 0) && m == 0xf
            case Gs8 => i == x + y * stride && k == 0 && m == 0xff
            case Rgb565 => i == x + y * stride && k == 0 && m == 0xffff
  {
    if !f.Mvlsb? {
      IndexFromSum(f, stride, x, y);
      hide Index;
    }
  }

  class FrameBuffer {
    const buf: array<Cell>
    const width: nat
    const height: nat
    const stride: nat
    const format: Format

    /** What the constructor's callers must see to: rows at least as long as the screen is
        wide, and a buffer that holds the screen. */
    ghost predicate Valid()
      reads buf
    {
      && width <= stride && stride % Unit(format) == 0
      && CellsNeeded(format, stride, height) <= buf.Length
      && Bytes(format, buf[..])
    }

    /** The pixel is somewhere in the buffer. */
    ghost predicate Inside(x: nat, y: nat) {
      Addressable(format, stride, buf.Length, x, y)
    }

    constructor (buf: array<Cell>, width: nat, height: nat, format: Format, stride: nat)
      requires width <= stride && CellsNeeded(format, RoundedStride(format, stride), height) <= buf.Length
      requires Bytes(format, buf[..])
      ensures Valid() && this.buf == buf && this.width == width && this.height == height
      ensures this.format == format && this.stride == RoundedStride(format, stride)
    {
      this.buf, this.width, this.height, this.format := buf, width, height, format;
      this.stride := RoundedStride(format, stride);
    }

    // ----- one pixel -----

    method StoreBit(b: nat, offset: nat, col: Colour, ghost x: nat, ghost y: nat)
      requires Valid() && Width(format) == 1 && Inside(x, y)
      requires b == Index(format, stride, x, y) && offset == Shift(format, x, y)
      modifies buf
      ensures Valid() && buf[..] == Put(format, stride, old(buf[..]), x, y, col)
    {
      PutBytes(format, stride, buf[..], x, y, col);
      ghost var s := buf[..];
      var bit: Cell := if col != 0 then 1 else 0;
      BitStore(buf[b], Sh(offset), bit);
      hide SetBits, Merged, Bytes;
      buf[b] := Merged(buf[b], Sh(offset), 1, bit);
      assert buf[..] == Put(format, stride, s, x, y, col);
    }

    method MonoHorizSetPixel(x: nat, y: nat, col: Colour)
      requires Valid() && (format.Mhlsb? || format.Mhmsb?) && Inside(x, y)
      modifies buf
      ensures Valid() && buf[..] == Put(format, stride, old(buf[..]), x, y, col)
    {
      IndexFromSum(format, stride, x, y);
      var index := (x + y * stride) / 8;
      var offset := if format.Mhmsb? then x % 8 else 7 - x % 8;
      StoreBit(index, offset, col, x, y);
    }

    method MvlsbSetPixel(x: nat, y: nat, col: Colour)
      requires Valid() && format.Mvlsb? && Inside(x, y)
      modifies buf
      ensures Valid() && buf[..] == Put(format, stride, old(buf[..]), x, y, col)
    {
      var index := y / 8 * stride + x;
      var offset := y % 8;
      StoreBit(index, offset, col, x, y);
    }

    method Rgb565SetPixel(x: nat, y: nat, col: Colour)
      requires Valid() && format.Rgb565? && Inside(x, y)
      modifies buf
      ensures Valid() && buf[..] == Put(format, stride, old(buf[..]), x, y, col)
    {
      IndexFromSum(format, stride, x, y);
      ghost var s := buf[..];
      WholeStore(buf[x + y * stride], (col & 0xffff) as Cell);
      hide SetBits;
      buf[x + y * stride] := (col & 0xffff) as Cell;
      WholeCanon(col);
      assert buf[..] == Put(format, stride, s, x, y, col);
    }

    method Gs2HmsbSetPixel(x: nat, y: nat, col: Colour)
      requires Valid() && format.Gs2Hmsb? && Inside(x, y)
      modifies buf
      ensures Valid() && buf[..] == Put(format, stride, old(buf[..]), x, y, col)
    {
      IndexFromSum(format, stride, x, y);
      PutBytes(format, stride, buf[..], x, y, col);
      ghost var s := buf[..];
      var pixel := (x + y * stride) / 4;
      var shift := Sh(x % 4 * 2);
      PairStore(buf[pixel], shift, Canon(format, col));
      PairCanon(col);
      hide SetBits, Merged, Bytes;
      buf[pixel] := Merged(buf[pixel], shift, 3, (col & 3) as Cell);
      assert buf[..] == Put(format, stride, s, x, y, col);
    }

    method Gs4HmsbSetPixel(x: nat, y: nat, col: Colour)
      requires Valid() && format.Gs4Hmsb? && Inside(x, y)
      modifies buf
      ensures Valid() && buf[..] == Put(format, stride, old(buf[..]), x, y, col)
    {
      IndexFromSum(format, stride, x, y);
      PutBytes(format, stride, buf[..], x, y, col);
      ghost var s := buf[..];
      var pixel := (x + y * stride) / 2;
      var low := (col & 0xff) as Cell;
      assert buf[..][pixel] <= 0xff;
      NibbleStore(buf[pixel], low);
      NibbleCanon(col, buf[pixel]);
      hide SetBits, Bytes;
      if x % 2 == 1 {
        buf[pixel] := (low & 0xf) | (buf[pixel] & 0xf0);
      } else {
        buf[pixel] := ((low << 4) & 0xff) | (buf[pixel] & 0xf);
      }
      assert buf[..] == Put(format, stride, s, x, y, col);
    }

    method Gs8SetPixel(x: nat, y: nat, col: Colour)
      requires Valid() && format.Gs8? && Inside(x, y)
      modifies buf
      ensures Valid() && buf[..] == Put(format, stride, old(buf[..]), x, y, col)
    {
      IndexFromSum(format, stride, x, y);
      PutBytes(format, stride, buf[..], x, y, col);
      ghost var s := buf[..];
      assert buf[..][x + y * stride] <= 0xff;
      LowByte(col);
      ByteCanon(col, buf[x + y * stride]);
      hide SetBits, Bytes;
      buf[x + y * stride] := (col & 0xff) as Cell;
      assert buf[..] == Put(format, stride, s, x, y, col);
    }

    method SetPixel(x: nat, y: nat, col: Colour)
      requires Valid() && Inside(x, y)
      modifies buf
      ensures Valid() && buf[..] == Put(format, stride, old(buf[..]), x, y, col)
      ensures Stored(format, stride, old(buf[..]), buf[..], x, y, col)
    {
      PutStores(format, stride, buf[..], x, y, col);
      hide Stored, Put, Bytes;
      match format {
        case Mvlsb => MvlsbSetPixel(x, y, col);
        case Rgb565 => Rgb565SetPixel(x, y, col);
        case Gs2Hmsb => Gs2HmsbSetPixel(x, y, col);
        case Gs4Hmsb => Gs4HmsbSetPixel(x, y, col);
        case Gs8 => Gs8SetPixel(x, y, col);
        case Mhlsb => MonoHorizSetPixel(x, y, col);
        case Mhmsb => MonoHorizSetPixel(x, y, col);
      }
    }

    method LoadBit(b: nat, offset: nat, ghost x: nat, ghost y: nat) returns (col: Colour)
      requires Width(format) == 1 && Inside(x, y)
      requires b == Index(format, stride, x, y) && offset == Shift(format, x, y)
      ensures col == Get(format, stride, buf[..], x, y) as Colour
    {
      col := ((buf[b] >> Sh(offset)) & 1) as Colour;
    }

    method Gs2HmsbGetPixel(x: nat, y: nat) returns (col: Colour)
      requires Valid() && format.Gs2Hmsb? && Inside(x, y)
      ensures col == Get(format, stride, buf[..], x, y) as Colour
    {
      IndexFromSum(format, stride, x, y);
      hide Bytes;
      col := ((buf[(x + y * stride) / 4] >> Sh(x % 4 * 2)) & 3) as Colour;
    }

    method Gs4HmsbGetPixel(x: nat, y: nat) returns (col: Colour)
      requires Valid() && format.Gs4Hmsb? && Inside(x, y)
      ensures col == Get(format, stride, buf[..], x, y) as Colour
    {
      IndexFromSum(format, stride, x, y);
      ByteAt((x + y * stride) / 2);
      NibbleLoad(buf[(x + y * stride) / 2]);
      hide Bytes, Bits;
      if x % 2 == 1 {
        return (buf[(x + y * stride) / 2] & 0xf) as Colour;
      }
      return (buf[(x + y * stride) / 2] >> 4) as Colour;
    }

    method Gs8GetPixel(x: nat, y: nat) returns (col: Colour)
      requires Valid() && format.Gs8? && Inside(x, y)
      ensures col == Get(format, stride, buf[..], x, y) as Colour
    {
      IndexFromSum(format, stride, x, y);
      ByteAt(x + y * stride);
      WholeLoad(buf[x + y * stride]);
      hide Bytes, Bits;
      col := buf[x + y * stride] as Colour;
    }

    method LoadHalfword(i: nat, ghost x: nat, ghost y: nat) returns (c: Cell)
      requires format.Rgb565? && Inside(x, y) && i == Index(format, stride, x, y)
      ensures c == Get(format, stride, buf[..], x, y)
    {
      hide Bits, Field;
      HalfwordLoad(buf[i]);
      c := buf[i];
    }

    method Rgb565GetPixel(x: nat, y: nat) returns (col: Colour)
      requires Valid() && format.Rgb565? && Inside(x, y)
      ensures col == Get(format, stride, buf[..], x, y) as Colour
    {
      hide Get, Bytes;
      IndexFromSum(format, stride, x, y);
      var c := LoadHalfword(x + y * stride, x, y);
      col := c as Colour;
    }

    method MvlsbGetPixel(x: nat, y: nat) returns (col: Colour)
      requires Valid() && format.Mvlsb? && Inside(x, y)
      ensures col == Get(format, stride, buf[..], x, y) as Colour
    {
      hide Bytes, Get;
      col := LoadBit(y / 8 * stride + x, y % 8, x, y);
    }

    method MonoHorizGetPixel(x: nat, y: nat) returns (col: Colour)
      requires Valid() && (format.Mhlsb? || format.Mhmsb?) && Inside(x, y)
      ensures col == Get(format, stride, buf[..], x, y) as Colour
    {
      IndexFromSum(format, stride, x, y);
      hide Bytes, Get;
      var index := (x + y * stride) / 8;
      var offset := if format.Mhmsb? then x % 8 else 7 - x % 8;
      col := LoadBit(index, offset, x, y);
    }

    method GetPixel(x: nat, y: nat) returns (col: Colour)
      requires Valid() && Inside(x, y)
      ensures col == Get(format, stride, buf[..], x, y) as Colour
    {
      hide Bytes, Get, Index;
      match format {
        case Mvlsb => col := MvlsbGetPixel(x, y);
        case Rgb565 => col := Rgb565GetPixel(x, y);
        case Gs2Hmsb => col := Gs2HmsbGetPixel(x, y);
        case Gs4Hmsb => col := Gs4HmsbGetPixel(x, y);
        case Gs8 => col := Gs8GetPixel(x, y);
        case Mhlsb => col := MonoHorizGetPixel(x, y);
        case Mhmsb => col := MonoHorizGetPixel(x, y);
      }
    }

    lemma ByteAt(i: nat)
      requires Valid() && !format.Rgb565? && i < buf.Length
      ensures buf[i] <= 0xff
    {
      assert buf[..][i] == buf[i];
    }
  }

  lemma WholeCanon(col: Colour)
    ensures Canon(Rgb565, col) == (col & 0xffff) as Cell
  {
  }

  lemma PairCanon(col: Colour)
    ensures (col & 3) as Cell == Canon(Gs2Hmsb, col) & 3
  {
  }

  lemma NibbleCanon(col: Colour, c: Cell)
    ensures SetBits(c, 0, 0xf, (col & 0xff) as Cell) == SetBits(c, 0, 0xf, Canon(Gs4Hmsb, col))
    ensures SetBits(c, 4, 0xf, (col & 0xff) as Cell) == SetBits(c, 4, 0xf, Canon(Gs4Hmsb, col))
  {
    NibbleMasked(col);
    SetBitsMasked(c, 0, 0xf, (col & 0xff) as Cell, Canon(Gs4Hmsb, col));
    SetBitsMasked(c, 4, 0xf, (col & 0xff) as Cell, Canon(Gs4Hmsb, col));
  }

  lemma NibbleMasked(col: Colour)
    ensures ((col & 0xff) as Cell) & 0xf == Canon(Gs4Hmsb, col) & 0xf
  {
  }

  lemma ByteCanon(col: Colour, c: Cell)
    requires c <= 0xff
    ensures SetBits(c, 0, 0xff, Canon(Gs8, col)) == (col & 0xff) as Cell
  {
    LowByte(col);
    WholeStore(c, Canon(Gs8, col));
  }

  lemma WholeLoad(c: Cell)
    ensures Bits(c, 0, 0xffff) == c && (c <= 0xff ==> Bits(c, 0, 0xff) == c)
  {
  }

  lemma HalfwordLoad(c: Cell)
    ensures Field(c, 0, 16) == c
  {
    WholeLoad(c);
    hide Bits;
  }

  lemma NibbleLoad(c: Cell)
    requires c <= 0xff
    ensures Bits(c, 0, 0xf) == c & 0xf && Bits(c, 4, 0xf) == c >> 4
  {
  }
}
