/** Packed pixel layouts.  Every format keeps a pixel as a field of one cell of the
    buffer; this module says where, and what setting one pixel does to all the others.

    A cell is a byte, except that the 16-bit colour format addresses its buffer in
    halfwords. */
module FrameBuf {
  import Basics

  type Cell = bv16
  type Colour = bv32

  datatype Format = Mvlsb | Rgb565 | Gs4Hmsb | Mhlsb | Mhmsb | Gs2Hmsb | Gs8

  // ----- fields of a cell -----

  /** A shift distance as a bit vector. */
  function Sh(k: nat): (h: Cell)
    ensures h < 8
  {
    if k == 0 then 0 else if k == 1 then 1 else if k == 2 then 2 else if k == 3 then 3
    else if k == 4 then 4 else if k == 5 then 5 else if k == 6 then 6 else 7
  }

  function Mask(w: nat): Cell {
    if w == 1 then 1 else if w == 2 then 3 else if w == 4 then 0xf else if w == 8 then 0xff else 0xffff
  }

  /** Fields of width `w` start at multiples of `w`. */
  predicate Slot(k: nat, w: nat) {
    || (w == 1 && k < 8)
    || (w == 2 && (k == 0 || k == 2 || k == 4 || k == 6))
    || (w == 4 && (k == 0 || k == 4))
    || ((w == 8 || w == 16) && k == 0)
  }

  function Bits(c: Cell, h: Cell, m: Cell): Cell
    requires h < 8
  {
    (c >> h) & m
  }

  /** The usual read-modify-write: clear the field, or the value in. */
  function Merged(c: Cell, h: Cell, m: Cell, v: Cell): Cell
    requires h < 8
  {
    (c & !(m << h)) | (v << h)
  }

  function SetBits(c: Cell, h: Cell, m: Cell, v: Cell): Cell
    requires h < 8
  {
    Merged(c, h, m, v & m)
  }

  function Field(c: Cell, k: nat, w: nat): Cell {
    Bits(c, Sh(k), Mask(w))
  }

  function SetField(c: Cell, k: nat, w: nat, v: Cell): Cell {
    SetBits(c, Sh(k), Mask(w), v)
  }

  /** The same as `Slot`, on shift and mask. */
  predicate SlotBits(h: Cell, m: Cell) {
    || (m == 1 && h < 8)
    || (m == 3 && (h == 0 || h == 2 || h == 4 || h == 6))
    || (m == 0xf && (h == 0 || h == 4))
    || ((m == 0xff || m == 0xffff) && h == 0)
  }

  lemma BitsSet(c: Cell, h: Cell, m: Cell, v: Cell)
    requires SlotBits(h, m)
    ensures Bits(SetBits(c, h, m, v), h, m) == v & m
  {
  }

  lemma BitsStayByte(c: Cell, h: Cell, m: Cell, v: Cell)
    requires SlotBits(h, m) && m != 0xffff && c <= 0xff
    ensures SetBits(c, h, m, v) <= 0xff
  {
  }

  lemma BitsKept(c: Cell, h: Cell, m: Cell, v: Cell, g: Cell)
    requires SlotBits(h, m) && SlotBits(g, m) && g != h
    ensures Bits(SetBits(c, h, m, v), g, m) == Bits(c, g, m)
  {
    ShiftsKept(c, h, m, v, g);
    hide SlotBits;
    var r := SetBits(c, h, m, v);
    assert r == (c & !(m << h)) | ((v & m) << h);
    hide SetBits;
    assert Bits(r, g, m) == (r >> g) & m;
  }

  lemma ShiftsKept(c: Cell, h: Cell, m: Cell, v: Cell, g: Cell)
    requires SlotBits(h, m) && SlotBits(g, m) && g != h
    ensures (((c & !(m << h)) | ((v & m) << h)) >> g) & m == (c >> g) & m
  {
  }

  lemma SlotShifts(k: nat, w: nat, k2: nat)
    requires Slot(k, w)
    ensures SlotBits(Sh(k), Mask(w)) && (Mask(w) == 0xffff <==> w == 16)
    ensures Slot(k2, w) && k2 != k ==> Sh(k2) != Sh(k)
  {
  }

  lemma FieldSet(c: Cell, k: nat, w: nat, v: Cell)
    requires Slot(k, w)
    ensures Field(SetField(c, k, w, v), k, w) == v & Mask(w)
  {
    SlotShifts(k, w, k);
    hide Bits, SetBits, Sh, Mask;
    BitsSet(c, Sh(k), Mask(w), v);
  }

  lemma SetStaysByte(c: Cell, k: nat, w: nat, v: Cell)
    requires Slot(k, w) && w != 16 && c <= 0xff
    ensures SetField(c, k, w, v) <= 0xff
  {
    SlotShifts(k, w, k);
    hide Bits, SetBits, Sh, Mask;
    BitsStayByte(c, Sh(k), Mask(w), v);
  }

  lemma FieldKept(c: Cell, k: nat, w: nat, v: Cell, k2: nat)
    requires Slot(k, w) && Slot(k2, w) && k2 != k
    ensures Field(SetField(c, k, w, v), k2, w) == Field(c, k2, w)
  {
    SlotShifts(k, w, k2);
    SlotShifts(k2, w, k);
    hide Bits, SetBits, Sh, Mask;
    BitsKept(c, Sh(k), Mask(w), v, Sh(k2));
  }

  // ----- where a pixel is -----

  /** Pixels that share a cell along a row. */
  function Unit(f: Format): (u: nat)
    ensures u > 0
  {
    match f
    case Mvlsb => 1
    case Rgb565 => 1
    case Gs4Hmsb => 2
    case Mhlsb => 8
    case Mhmsb => 8
    case Gs2Hmsb => 4
    case Gs8 => 1
  }

  function Width(f: Format): nat {
    match f
    case Mvlsb => 1
    case Rgb565 => 16
    case Gs4Hmsb => 4
    case Mhlsb => 1
    case Mhmsb => 1
    case Gs2Hmsb => 2
    case Gs8 => 8
  }

  function Index(f: Format, stride: nat, x: nat, y: nat): nat {
    var row := if f.Mvlsb? then y / 8 else y;
    var perRow: nat := stride / Unit(f);
    row * perRow + x / Unit(f)
  }

  function Shift(f: Format, x: nat, y: nat): (k: nat)
    ensures Slot(k, Width(f))
  {
    match f
    case Mvlsb => y % 8
    case Rgb565 => 0
    case Gs4Hmsb => 4 * (1 - x % 2)
    case Mhlsb => 7 - x % 8
    case Mhmsb => x % 8
    case Gs2Hmsb => 2 * (x % 4)
    case Gs8 => 0
  }

  /** The next multiple of `unit`. */
  function NextMultiple(n: nat, unit: nat): (r: nat)
    requires unit > 0
    ensures r % unit == 0 && n <= r < n + unit
  {
    var q := (n + unit - 1) / unit;
    Basics.RemainderIs(q * unit, unit, q, 0);
    q * unit
  }

  /** What the constructor rounds a stride to. */
  function RoundedStride(f: Format, stride: nat): (r: nat)
    ensures r % Unit(f) == 0 && stride <= r < stride + Unit(f)
  {
    match f
    case Mhlsb => NextMultiple(stride, 8)
    case Mhmsb => NextMultiple(stride, 8)
    case Gs2Hmsb => NextMultiple(stride, 4)
    case Gs4Hmsb => NextMultiple(stride, 2)
    case _ => stride
  }

  predicate Addressable(f: Format, stride: nat, n: nat, x: nat, y: nat) {
    x < stride && Index(f, stride, x, y) < n
  }

  function LowHalf(col: Colour): Cell {
    (col & 0xffff) as Cell
  }

  /** The part of a colour that the format keeps. */
  function Canon(f: Format, col: Colour): Cell {
    if Width(f) == 1 then (if col != 0 then 1 else 0) else LowHalf(col) & Mask(Width(f))
  }

  function Get(f: Format, stride: nat, s: seq<Cell>, x: nat, y: nat): Cell
    requires Addressable(f, stride, |s|, x, y)
  {
    Field(s[Index(f, stride, x, y)], Shift(f, x, y), Width(f))
  }

  function Put(f: Format, stride: nat, s: seq<Cell>, x: nat, y: nat, col: Colour): (r: seq<Cell>)
    requires Addressable(f, stride, |s|, x, y)
    ensures |r| == |s|
  {
    var i := Index(f, stride, x, y);
    s[i := SetField(s[i], Shift(f, x, y), Width(f), Canon(f, col))]
  }

  lemma MaskedTwice(v: Cell, m: Cell)
    ensures (v & m) & m == v & m
  {
  }

  lemma CanonMasked(f: Format, col: Colour)
    ensures Canon(f, col) & Mask(Width(f)) == Canon(f, col)
  {
    if Width(f) == 1 {
      assert (1 as Cell) & 1 == 1 && (0 as Cell) & 1 == 0;
    } else {
      MaskedTwice(LowHalf(col), Mask(Width(f)));
      hide LowHalf, Mask, Width;
    }
  }

  /** Setting a pixel to what was read from a pixel stores exactly that. */
  lemma CanonOfGet(f: Format, c: Cell, k: nat)
    requires Slot(k, Width(f))
    ensures Canon(f, Field(c, k, Width(f)) as Colour) == Field(c, k, Width(f))
  {
  }

  lemma {:induction false} RowGap(m: nat, y: nat, z: nat)
    requires y < z
    ensures y * m + m <= z * m
    decreases z
  {
    if y + 1 < z {
      RowGap(m, y, z - 1);
      assert z * m == (z - 1) * m + m;
    } else {
      assert z * m == y * m + m;
    }
  }

  lemma RowsApart(m: nat, a: nat, y: nat, b: nat, z: nat)
    requires a < m && b < m && y * m + a == z * m + b
    ensures y == z && a == b
  {
    if y < z {
      RowGap(m, y, z);
    } else if z < y {
      RowGap(m, z, y);
    }
  }

  /** In one cell of a row the shift tells the pixel. */
  lemma ShiftTellsRest(f: Format, x: nat, y: nat, p: nat, q: nat)
    requires !f.Mvlsb? && Shift(f, x, y) == Shift(f, p, q)
    ensures x % Unit(f) == p % Unit(f)
  {
  }

  /** Different pixels are different fields. */
  lemma PixelsApart(f: Format, stride: nat, x: nat, y: nat, p: nat, q: nat)
    requires stride % Unit(f) == 0 && x < stride && p < stride
    requires Index(f, stride, x, y) == Index(f, stride, p, q) && Shift(f, x, y) == Shift(f, p, q)
    ensures x == p && y == q
  {
    if f.Mvlsb? {
      RowsApart(stride, x, y / 8, p, q / 8);
    } else {
      ShiftTellsRest(f, x, y, p, q);
      hide Shift;
      CellsApart(stride, Unit(f), x, y, p, q);
    }
  }

  lemma CellsApart(stride: nat, u: nat, x: nat, y: nat, p: nat, q: nat)
    requires u > 0 && stride % u == 0 && x < stride && p < stride && x % u == p % u
    requires y * (stride / u) + x / u == q * (stride / u) + p / u
    ensures x == p && y == q
  {
    var k, n, m := x / u, p / u, stride / u;
    assert x == k * u + x % u && p == n * u + p % u && stride == m * u;
    LessFactor(k, m, u);
    LessFactor(n, m, u);
    RowsApart(m, k, y, n, q);
  }

  lemma LessFactor(k: nat, n: nat, u: nat)
    requires k * u < n * u
    ensures k < n
  {
    assert (n - k) * u == n * u - k * u;
  }

  /** The heart of every drawing operation: setting one pixel sets that pixel and leaves
      every other pixel of the buffer alone. */
  lemma GetPut(f: Format, stride: nat, s: seq<Cell>, x: nat, y: nat, col: Colour, p: nat, q: nat)
    requires stride % Unit(f) == 0 && Addressable(f, stride, |s|, x, y) && Addressable(f, stride, |s|, p, q)
    ensures Get(f, stride, Put(f, stride, s, x, y, col), p, q)
            == if (p, q) == (x, y) then Canon(f, col) else Get(f, stride, s, p, q)
  {
    var i := Index(f, stride, x, y);
    if (p, q) == (x, y) {
      FieldSet(s[i], Shift(f, x, y), Width(f), Canon(f, col));
      CanonMasked(f, col);
    } else if Index(f, stride, p, q) == i {
      if Shift(f, p, q) == Shift(f, x, y) {
        PixelsApart(f, stride, x, y, p, q);
      }
      FieldKept(s[i], Shift(f, x, y), Width(f), Canon(f, col), Shift(f, p, q));
    }
  }

  // ----- painting a region -----

  type Region = set<(nat, nat)>

  /** `s` is `s0` with the pixels of `region`, and no others, set to `col`. */
  ghost predicate Painted(f: Format, stride: nat, s0: seq<Cell>, s: seq<Cell>, region: Region, col: Colour) {
    && |s| == |s0|
    && forall x: nat, y: nat :: Addressable(f, stride, |s|, x, y) ==>
         Get(f, stride, s, x, y) == if (x, y) in region then Canon(f, col) else Get(f, stride, s0, x, y)
  }

  lemma PaintNothing(f: Format, stride: nat, s: seq<Cell>, col: Colour)
    ensures Painted(f, stride, s, s, {}, col)
  {
  }

  lemma PaintOne(f: Format, stride: nat, s0: seq<Cell>, s: seq<Cell>, region: Region, col: Colour, x: nat, y: nat)
    requires stride % Unit(f) == 0 && Addressable(f, stride, |s|, x, y)
    requires Painted(f, stride, s0, s, region, col)
    ensures Painted(f, stride, s0, Put(f, stride, s, x, y, col), region + {(x, y)}, col)
  {
    var r := Put(f, stride, s, x, y, col);
    forall p: nat, q: nat | Addressable(f, stride, |r|, p, q)
      ensures Get(f, stride, r, p, q) == if (p, q) in region + {(x, y)} then Canon(f, col) else Get(f, stride, s0, p, q)
    {
      GetPut(f, stride, s, x, y, col, p, q);
    }
  }

  /** `n` pixels along a row from (x, y). */
  function PutRun(f: Format, stride: nat, s: seq<Cell>, x: nat, y: nat, n: nat, col: Colour): (r: seq<Cell>)
    requires forall p: nat :: x <= p < x + n ==> Addressable(f, stride, |s|, p, y)
    ensures |r| == |s|
  {
    if n == 0 then s else
      Put(f, stride, PutRun(f, stride, s, x, y, n - 1, col), x + n - 1, y, col)
  }

  function Run(x: nat, y: nat, n: nat): Region {
    if n == 0 then {} else Run(x, y, n - 1) + {(x + n - 1, y)}
  }

  lemma {:induction false} RunMembers(x: nat, y: nat, n: nat)
    ensures forall p: nat, q: nat :: (p, q) in Run(x, y, n) <==> x <= p < x + n && q == y
  {
    if n > 0 {
      RunMembers(x, y, n - 1);
    }
  }

  lemma {:induction false} PaintRun(f: Format, stride: nat, s0: seq<Cell>, s: seq<Cell>, region: Region, col: Colour,
      x: nat, y: nat, n: nat)
    requires stride % Unit(f) == 0 && Painted(f, stride, s0, s, region, col)
    requires forall p: nat :: x <= p < x + n ==> Addressable(f, stride, |s|, p, y)
    ensures Painted(f, stride, s0, PutRun(f, stride, s, x, y, n, col), region + Run(x, y, n), col)
  {
    hide Painted, Addressable, Put;
    if n == 0 {
      assert region + Run(x, y, 0) == region;
    } else {
      PaintRun(f, stride, s0, s, region, col, x, y, n - 1);
      PaintOne(f, stride, s0, PutRun(f, stride, s, x, y, n - 1, col), region + Run(x, y, n - 1), col, x + n - 1, y);
      assert region + Run(x, y, n) == region + Run(x, y, n - 1) + {(x + n - 1, y)};
    }
  }
}
