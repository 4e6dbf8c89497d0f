/** A text terminal that takes one character at a time. */
module Terminal {

  type Char16 = c: int | 0 <= c < 0x1_0000

  const BACKSPACE: Char16 := 8
  const LINEFEED: Char16 := 10
  const CARRIAGE_RETURN: Char16 := 13
  /** These two switch between wide and narrow characters and print nothing. */
  const NARROW_CHAR: Char16 := 0xfff0
  const WIDE_CHAR: Char16 := 0xfff1

  datatype Attribute = Attribute(colours: nat, wide: bool)

  datatype Cell = Cell(ch: Char16, attribute: Attribute)

  const EMPTY: Cell := Cell(0, Attribute(0, false))

  type Row = seq<Cell>

  datatype Term = Term(screen: seq<Row>, column: nat, row: nat, attribute: Attribute)

  ghost predicate Sized(screen: seq<Row>, columns: nat, rows: nat) {
    |screen| == rows && forall r :: 0 <= r < rows ==> |screen[r]| == columns
  }

  /** The cursor is on the screen. */
  ghost predicate Proper(t: Term, columns: nat, rows: nat) {
    Sized(t.screen, columns, rows) && t.column < columns && t.row < rows
  }

  function With(screen: seq<Row>, r: nat, c: nat, cell: Cell): seq<Row>
    requires r < |screen| && c < |screen[r]|
  {
    screen[r := screen[r][c := cell]]
  }

  predicate Control(c: Char16) {
    c == 0 || c == BACKSPACE || c == LINEFEED || c == CARRIAGE_RETURN || c == WIDE_CHAR || c == NARROW_CHAR
  }

  function BlankRow(columns: nat): Row { seq(columns, _ => EMPTY) }

  /** The top row goes, and an empty one comes at the bottom. */
  function Scrolled(screen: seq<Row>, columns: nat): seq<Row>
    requires screen != []
  {
    screen[1..] + [BlankRow(columns)]
  }

  /** One row down; the screen scrolls when there is none. */
  ghost function LineFeed(t: Term, columns: nat, rows: nat): Term
    requires Sized(t.screen, columns, rows) && t.row < rows
  {
    if t.row == rows - 1 then t.(screen := Scrolled(t.screen, columns)) else t.(row := t.row + 1)
  }

  ghost function NewLine(t: Term, columns: nat, rows: nat): Term
    requires Sized(t.screen, columns, rows) && t.row < rows
  {
    LineFeed(t.(column := 0), columns, rows)
  }

  /** The cursor goes back one place and the character there is erased; its attribute stays. */
  ghost function Back(t: Term, columns: nat, rows: nat): Term
    requires Proper(t, columns, rows)
  {
    var row := if t.column == 0 && t.row > 0 then t.row - 1 else t.row;
    var column := if t.column > 0 then t.column - 1 else if t.row > 0 then columns - 1 else 0;
    t.(screen := With(t.screen, row, column, t.screen[row][column].(ch := 0)), row := row, column := column)
  }

  function WidthOf(t: Term): nat { if t.attribute.wide then 2 else 1 }

  /** Puts a character at the cursor and moves past it, perhaps over the edge. */
  ghost function Place(t: Term, c: Char16, columns: nat, rows: nat): Term
    requires Proper(t, columns, rows)
  {
    t.(screen := With(t.screen, t.row, t.column, Cell(c, t.attribute)), column := t.column + WidthOf(t))
  }

  /** Over the edge a new line begins. */
  ghost function Wrap(t: Term, columns: nat, rows: nat): Term
    requires Sized(t.screen, columns, rows) && t.row < rows
  {
    if t.column >= columns then NewLine(t, columns, rows) else t
  }

  /** A character that does not fit on the line goes to the next one. */
  ghost function Print(t: Term, c: Char16, columns: nat, rows: nat): Term
    requires Proper(t, columns, rows)
  {
    NewLineProper(t, columns, rows);
    var fit := if t.column + WidthOf(t) > columns then NewLine(t, columns, rows) else t;
    Wrap(Place(fit, c, columns, rows), columns, rows)
  }

  lemma NewLineProper(t: Term, columns: nat, rows: nat)
    requires Sized(t.screen, columns, rows) && t.row < rows && columns > 0
    ensures Proper(NewLine(t, columns, rows), columns, rows) && NewLine(t, columns, rows).column == 0
    ensures NewLine(t, columns, rows).attribute == t.attribute
  {
  }

  /** One character.  A null character prints nothing. */
  ghost function Put(t: Term, c: Char16, columns: nat, rows: nat): Term
    requires Proper(t, columns, rows)
  {
    if c == 0 then t
    else if c == BACKSPACE then Back(t, columns, rows)
    else if c == LINEFEED then LineFeed(t, columns, rows)
    else if c == CARRIAGE_RETURN then t.(column := 0)
    else if c == WIDE_CHAR then t.(attribute := t.attribute.(wide := true))
    else if c == NARROW_CHAR then t.(attribute := t.attribute.(wide := false))
    else Print(t, c, columns, rows)
  }

  // ----- single characters in plain coordinates -----

  /** `b` is `a` one line further down: the cursor is a row lower and the screen as it was,
      or, from the last row, every row is one higher and the last is empty. */
  ghost predicate Down(a: Term, b: Term, columns: nat, rows: nat)
    requires Sized(a.screen, columns, rows) && Sized(b.screen, columns, rows)
  {
    && b.attribute == a.attribute
    && if a.row + 1 < rows then b.row == a.row + 1 && b.screen == a.screen
       else
         && b.row == a.row
         && forall r, c :: 0 <= r < rows && 0 <= c < columns ==>
              b.screen[r][c] == if r + 1 < rows then a.screen[r + 1][c] else Cell(0, Attribute(0, false))
  }

  /** `b` is `a` with `cell` at row `r` and column `c`, and its cursor at column `to` of that row. */
  ghost predicate Wrote(a: Term, b: Term, r: nat, c: nat, cell: Cell, to: nat, columns: nat, rows: nat)
    requires Sized(a.screen, columns, rows) && Sized(b.screen, columns, rows)
  {
    && b.attribute == a.attribute && b.row == r && b.column == to
    && forall i, j :: 0 <= i < rows && 0 <= j < columns ==>
         b.screen[i][j] == if i == r && j == c then cell else a.screen[i][j]
  }

  lemma LineFeedGoesDown(t: Term, columns: nat, rows: nat)
    requires Proper(t, columns, rows)
    ensures var r := Put(t, 10, columns, rows);
            Sized(r.screen, columns, rows) && Down(t, r, columns, rows) && r.column == t.column
  {
  }

  lemma CarriageReturnGoesBack(t: Term, columns: nat, rows: nat)
    requires Proper(t, columns, rows)
    ensures Put(t, 13, columns, rows) == t.(column := 0)
  {
  }

  /** A width marker sets the width and prints nothing. */
  lemma MarkersSet(t: Term, columns: nat, rows: nat)
    requires Proper(t, columns, rows)
    ensures Put(t, WIDE_CHAR, columns, rows) == t.(attribute := Attribute(t.attribute.colours, true))
    ensures Put(t, NARROW_CHAR, columns, rows) == t.(attribute := Attribute(t.attribute.colours, false))
  {
  }

  /** Backspace goes one place to the left, from the start of a line to the end of the one
      above, and nowhere from the top left corner; the character there is erased. */
  lemma BackspaceErases(t: Term, columns: nat, rows: nat)
    requires Proper(t, columns, rows)
    ensures var r := Put(t, 8, columns, rows);
            var row := if t.column > 0 || t.row == 0 then t.row else t.row - 1;
            var column := if t.column > 0 then t.column - 1 else if t.row > 0 then columns - 1 else 0;
            Sized(r.screen, columns, rows)
            && Wrote(t, r, row, column, Cell(0, t.screen[row][column].attribute), column, columns, rows)
  {
  }

  /** A printed character goes to the cursor, or to the start of the next line if it does not
      fit, and the cursor behind it, or to the start of the next line if that is over the edge. */
  lemma PrintWrites(t: Term, c: Char16, columns: nat, rows: nat) returns (fit: Term, placed: Term)
    requires Proper(t, columns, rows) && c !in {0, 8, 10, 13, WIDE_CHAR, NARROW_CHAR}
    ensures Proper(fit, columns, rows) && Sized(placed.screen, columns, rows)
    ensures var width := if t.attribute.wide then 2 else 1;
            && (if t.column + width <= columns then fit == t else Down(t, fit, columns, rows) && fit.column == 0)
            && Wrote(fit, placed, fit.row, fit.column, Cell(c, t.attribute), fit.column + width, columns, rows)
    ensures var r := Put(t, c, columns, rows);
            && Proper(r, columns, rows)
            && if placed.column < columns then r == placed else Down(placed, r, columns, rows) && r.column == 0
  {
    NewLineProper(t, columns, rows);
    PutProper(t, c, columns, rows);
    NewLineDown(t, columns, rows);
    fit := if t.column + WidthOf(t) > columns then NewLine(t, columns, rows) else t;
    placed := Place(fit, c, columns, rows);
    PlaceWrites(fit, c, columns, rows);
    NewLineProper(placed, columns, rows);
    NewLineDown(placed, columns, rows);
    hide NewLine, Place, Down, Wrote;
  }

  lemma NewLineDown(t: Term, columns: nat, rows: nat)
    requires Sized(t.screen, columns, rows) && t.row < rows && columns > 0
    ensures var r := NewLine(t, columns, rows);
            Sized(r.screen, columns, rows) && Down(t, r, columns, rows) && r.column == 0
  {
  }

  lemma PlaceWrites(t: Term, c: Char16, columns: nat, rows: nat)
    requires Proper(t, columns, rows)
    ensures var r := Place(t, c, columns, rows);
            Sized(r.screen, columns, rows)
            && Wrote(t, r, t.row, t.column, Cell(c, t.attribute), t.column + (if t.attribute.wide then 2 else 1),
                     columns, rows)
  {
  }

  /** Whatever the character, the cursor stays on the screen. */
  lemma PutProper(t: Term, c: Char16, columns: nat, rows: nat)
    requires Proper(t, columns, rows)
    ensures Proper(Put(t, c, columns, rows), columns, rows)
  {
    if !Control(c) {
      PrintProper(t, c, columns, rows);
    }
  }

  lemma PrintProper(t: Term, c: Char16, columns: nat, rows: nat)
    requires Proper(t, columns, rows)
    ensures Proper(Print(t, c, columns, rows), columns, rows)
  {
    NewLineProper(t, columns, rows);
    var fit := if t.column + WidthOf(t) > columns then NewLine(t, columns, rows) else t;
    PlaceProper(fit, c, columns, rows);
    hide Place, NewLine;
    if Place(fit, c, columns, rows).column >= columns {
      NewLineProper(Place(fit, c, columns, rows), columns, rows);
    }
  }

  lemma PlaceProper(t: Term, c: Char16, columns: nat, rows: nat)
    requires Proper(t, columns, rows)
    ensures var p := Place(t, c, columns, rows);
            Sized(p.screen, columns, rows) && p.row == t.row < rows && p.attribute == t.attribute
  {
  }

  /** A whole string. */
  ghost function PutAll(t: Term, s: seq<Char16>, columns: nat, rows: nat): (r: Term)
    requires Proper(t, columns, rows)
    ensures Proper(r, columns, rows)
    decreases |s|
  {
    if s == [] then t
    else
      PutProper(t, s[0], columns, rows);
      PutAll(Put(t, s[0], columns, rows), s[1..], columns, rows)
  }

  lemma {:induction false} PutAllJoins(t: Term, a: seq<Char16>, b: seq<Char16>, columns: nat, rows: nat)
    requires Proper(t, columns, rows)
    ensures PutAll(t, a + b, columns, rows) == PutAll(PutAll(t, a, columns, rows), b, columns, rows)
    decreases |a|
  {
    hide Put;
    if a == [] {
      assert a + b == b;
    } else {
      PutProper(t, a[0], columns, rows);
      PutAllJoins(Put(t, a[0], columns, rows), a[1..], b, columns, rows);
      assert (a + b)[0] == a[0] && (a + b)[1..] == a[1..] + b;
    }
  }

  /** What a call prints: the whole string, after which the attribute is what it was. */
  ghost function Output(t: Term, s: seq<Char16>, columns: nat, rows: nat): Term
    requires Proper(t, columns, rows)
  {
    PutAll(t, s, columns, rows).(attribute := t.attribute)
  }

  /** The width in use after `s`. */
  function WidthAfter(wide: bool, s: seq<Char16>): bool
    decreases |s|
  {
    if s == [] then wide
    else WidthAfter(NextWidth(wide, s[0]), s[1..])
  }

  lemma {:induction false} AttributeAfter(t: Term, s: seq<Char16>, columns: nat, rows: nat)
    requires Proper(t, columns, rows)
    ensures PutAll(t, s, columns, rows).attribute == t.attribute.(wide := WidthAfter(t.attribute.wide, s))
    decreases |s|
  {
    if s != [] {
      PutProper(t, s[0], columns, rows);
      PutAttribute(t, s[0], columns, rows);
      hide Put;
      AttributeAfter(Put(t, s[0], columns, rows), s[1..], columns, rows);
    }
  }

  lemma PutAttribute(t: Term, c: Char16, columns: nat, rows: nat)
    requires Proper(t, columns, rows)
    ensures Put(t, c, columns, rows).attribute ==
            t.attribute.(wide := NextWidth(t.attribute.wide, c))
  {
    if !Control(c) {
      NewLineProper(t, columns, rows);
    }
  }

  /** Two calls print what one call would, as long as the first string leaves the width as
      it found it; without markers it always does. */
  lemma OutputJoins(t: Term, a: seq<Char16>, b: seq<Char16>, columns: nat, rows: nat)
    requires Proper(t, columns, rows) && WidthAfter(t.attribute.wide, a) == t.attribute.wide
    ensures Output(t, a + b, columns, rows) == Output(Output(t, a, columns, rows), b, columns, rows)
  {
    hide PutAll;
    PutAllJoins(t, a, b, columns, rows);
    AttributeAfter(t, a, columns, rows);
  }

  /** A letter at the start of a line tells the width in use by where it leaves the cursor. */
  lemma WidthShows(t: Term, columns: nat, rows: nat)
    requires Proper(t, columns, rows) && columns >= 2
    ensures PutAll(t, [CARRIAGE_RETURN, 65], columns, rows).column ==
            if !t.attribute.wide then 1 else if columns == 2 then 0 else 2
  {
    var s := [CARRIAGE_RETURN, 65];
    assert s[1..] == [65] && [65][1..] == [];
    PutAllNext(t, s, columns, rows);
    PutAllNext(t.(column := 0), [65], columns, rows);
    PlaceProper(t.(column := 0), 65, columns, rows);
  }

  /** Two calls print what one would for every second string exactly when the first string
      leaves the width as it found it. */
  lemma OutputJoinsIff(t: Term, a: seq<Char16>, columns: nat, rows: nat)
    requires Proper(t, columns, rows) && columns >= 2
    ensures (forall b :: Output(t, a + b, columns, rows) == Output(Output(t, a, columns, rows), b, columns, rows))
            <==> WidthAfter(t.attribute.wide, a) == t.attribute.wide
  {
    hide PutAll;
    if WidthAfter(t.attribute.wide, a) == t.attribute.wide {
      forall b ensures Output(t, a + b, columns, rows) == Output(Output(t, a, columns, rows), b, columns, rows) {
        OutputJoins(t, a, b, columns, rows);
      }
    } else {
      var b: seq<Char16> := [CARRIAGE_RETURN, 65];
      PutAllJoins(t, a, b, columns, rows);
      AttributeAfter(t, a, columns, rows);
      WidthShows(PutAll(t, a, columns, rows), columns, rows);
      WidthShows(Output(t, a, columns, rows), columns, rows);
      assert Output(t, a + b, columns, rows).column != Output(Output(t, a, columns, rows), b, columns, rows).column;
    }
  }

  lemma {:induction false} NoMarkers(wide: bool, s: seq<Char16>)
    requires WIDE_CHAR !in s && NARROW_CHAR !in s
    ensures WidthAfter(wide, s) == wide
  {
    if s != [] {
      NoMarkers(wide, s[1..]);
    }
  }

  /** A width set at the end of one call is forgotten before the next: here the letter is
      narrow when printed by a second call and wide when printed by the same one. */
  lemma MarkerForgotten()
    ensures var t := Term([[EMPTY, EMPTY, EMPTY]], 0, 0, Attribute(7, false));
            && Output(t, [WIDE_CHAR, 65], 3, 1).column == 2
            && Output(Output(t, [WIDE_CHAR], 3, 1), [65], 3, 1).column == 1
  {
    var t := Term([[EMPTY, EMPTY, EMPTY]], 0, 0, Attribute(7, false));
    var w := t.(attribute := Attribute(7, true));
    assert PutAll(w, [], 3, 1) == w;
    assert [WIDE_CHAR, 65][1..] == [65] && [65][1..] == [] && [WIDE_CHAR][1..] == [];
    assert Print(w, 65, 3, 1).column == 2 && Print(t, 65, 3, 1).column == 1;
    assert PutAll(w, [65], 3, 1) == PutAll(Put(w, 65, 3, 1), [], 3, 1) == Print(w, 65, 3, 1);
    assert PutAll(t, [WIDE_CHAR, 65], 3, 1) == PutAll(w, [65], 3, 1);
    assert PutAll(t, [WIDE_CHAR], 3, 1) == PutAll(w, [], 3, 1);
    assert PutAll(t, [65], 3, 1) == PutAll(Put(t, 65, 3, 1), [], 3, 1) == Print(t, 65, 3, 1);
  }

  // ---- printing in batches ----

  /** As long as the cursor is not over the edge nothing wraps. */
  lemma PrintFits(t: Term, c: Char16, columns: nat, rows: nat)
    requires Proper(t, columns, rows) && t.column + WidthOf(t) <= columns && !Control(c)
    ensures Put(t, c, columns, rows) == Wrap(Place(t, c, columns, rows), columns, rows)
  {
    hide Place, Wrap;
  }

  /** A character that does not fit may as well find a new line begun for it. */
  lemma PrintWraps(t: Term, c: Char16, over: Term, columns: nat, rows: nat)
    requires Proper(t, columns, rows) && WidthOf(t) <= columns < t.column + WidthOf(t) && !Control(c)
    requires over == t.(column := over.column) && over.column >= columns
    ensures Proper(Wrap(over, columns, rows), columns, rows)
    ensures Put(t, c, columns, rows) == Put(Wrap(over, columns, rows), c, columns, rows)
  {
    NewLineProper(t, columns, rows);
    assert Wrap(over, columns, rows) == NewLine(t, columns, rows);
    hide Place, Wrap, NewLine;
  }

  lemma PutAllNext(t: Term, s: seq<Char16>, columns: nat, rows: nat)
    requires Proper(t, columns, rows) && s != []
    ensures Proper(Put(t, s[0], columns, rows), columns, rows)
    ensures PutAll(t, s, columns, rows) == PutAll(Put(t, s[0], columns, rows), s[1..], columns, rows)
  {
    PutProper(t, s[0], columns, rows);
  }

  /** Carriage return and line feed together are a new line. */
  lemma CrLf(t: Term, columns: nat, rows: nat)
    requires Proper(t, columns, rows)
    ensures PutAll(t, [CARRIAGE_RETURN, LINEFEED], columns, rows) == NewLine(t, columns, rows)
  {
    var s := [CARRIAGE_RETURN, LINEFEED];
    assert s[1..] == [LINEFEED] && [LINEFEED][1..] == [];
    PutAllNext(t, s, columns, rows);
    PutAllNext(t.(column := 0), [LINEFEED], columns, rows);
  }

  /** Where the cursor would be after a batch, and how many characters were placed. */
  datatype Batched = Batched(over: Term, count: nat)

  /** Places characters until one is not to be placed, does not fit, or the line is full. */
  ghost function Batch(t: Term, w: seq<Char16>, columns: nat, rows: nat): (b: Batched)
    requires Sized(t.screen, columns, rows) && t.row < rows
    ensures b.count <= |w| && Sized(b.over.screen, columns, rows) && b.over.row == t.row
    ensures b.over.attribute == t.attribute
    decreases |w|
  {
    if t.column >= columns || w == [] || Control(w[0]) then Batched(t, 0)
    else if t.attribute.wide && t.column + 2 > columns then Batched(t.(column := t.column + 2), 0)
    else
      var b := Batch(Place(t, w[0], columns, rows), w[1..], columns, rows);
      Batched(b.over, b.count + 1)
  }

  /** A batch, and a new line if the cursor has gone over the edge, print what the characters
      would one at a time. */
  lemma {:induction false} BatchPrints(t: Term, w: seq<Char16>, columns: nat, rows: nat)
    requires Sized(t.screen, columns, rows) && t.row < rows && columns > 0 && WidthOf(t) <= columns
    ensures var b := Batch(t, w, columns, rows);
            && Proper(Wrap(t, columns, rows), columns, rows) && Proper(Wrap(b.over, columns, rows), columns, rows)
            && PutAll(Wrap(b.over, columns, rows), w[b.count..], columns, rows)
               == PutAll(Wrap(t, columns, rows), w, columns, rows)
    decreases |w|
  {
    var b := Batch(t, w, columns, rows);
    WrapProper(t, columns, rows);
    WrapProper(b.over, columns, rows);
    hide PutAll, Put, Place, Wrap;
    if t.column >= columns || w == [] || Control(w[0]) {
      assert w[0..] == w;
    } else {
      assert Wrap(t, columns, rows) == t by { NoWrap(t, columns, rows); }
      PutAllNext(t, w, columns, rows);
      if t.attribute.wide && t.column + 2 > columns {
        assert w[0..] == w;
        PrintWraps(t, w[0], b.over, columns, rows);
        PutAllNext(Wrap(b.over, columns, rows), w, columns, rows);
      } else {
        var next := Place(t, w[0], columns, rows);
        PlaceProper(t, w[0], columns, rows);
        PrintFits(t, w[0], columns, rows);
        BatchPrints(next, w[1..], columns, rows);
        assert w[1..][b.count - 1..] == w[b.count..];
      }
    }
  }

  lemma NoWrap(t: Term, columns: nat, rows: nat)
    requires Proper(t, columns, rows)
    ensures Wrap(t, columns, rows) == t
  {
  }

  lemma WrapProper(t: Term, columns: nat, rows: nat)
    requires Sized(t.screen, columns, rows) && t.row < rows && columns > 0
    ensures Proper(Wrap(t, columns, rows), columns, rows) && Wrap(t, columns, rows).attribute == t.attribute
    ensures t.column >= columns ==> Wrap(t, columns, rows).column == 0
  {
    NewLineProper(t, columns, rows);
  }

  // ---- when the driver ends ----

  /** A character is to be printed while the width is wide. */
  ghost predicate WideMet(wide: bool, s: seq<Char16>)
    decreases |s|
  {
    s != [] && ((wide && !Control(s[0])) || WideMet(NextWidth(wide, s[0]), s[1..]))
  }

  function NextWidth(wide: bool, c: Char16): bool {
    if c == WIDE_CHAR then true else if c == NARROW_CHAR then false else wide
  }

  datatype Going = Going(t: Term, rest: seq<Char16>)

  /** One trip round the driver's loop. */
  ghost function Trip(g: Going, columns: nat, rows: nat): (next: Going)
    requires Proper(g.t, columns, rows)
    ensures Proper(next.t, columns, rows)
  {
    if g.rest == [] then g
    else if Control(g.rest[0]) then
      PutProper(g.t, g.rest[0], columns, rows);
      Going(Put(g.t, g.rest[0], columns, rows), g.rest[1..])
    else
      var b := Batch(g.t, g.rest, columns, rows);
      WrapProper(b.over, columns, rows);
      Going(Wrap(b.over, columns, rows), g.rest[b.count..])
  }

  ghost function Trips(g: Going, n: nat, columns: nat, rows: nat): Going
    requires Proper(g.t, columns, rows)
    decreases n
  {
    if n == 0 then g else Trips(Trip(g, columns, rows), n - 1, columns, rows)
  }

  /** What is left to print after a batch of printed characters. */
  lemma {:induction false} BatchWidth(t: Term, w: seq<Char16>, columns: nat, rows: nat)
    requires Sized(t.screen, columns, rows) && t.row < rows
    ensures var b := Batch(t, w, columns, rows);
            !t.attribute.wide ==> (WideMet(false, w[b.count..]) <==> WideMet(false, w))
    decreases |w|
  {
    hide Place;
    var b := Batch(t, w, columns, rows);
    if b.count == 0 {
      assert w[0..] == w;
    } else {
      PlaceProper(t, w[0], columns, rows);
      BatchWidth(Place(t, w[0], columns, rows), w[1..], columns, rows);
      assert w[1..][b.count - 1..] == w[b.count..];
    }
  }

  /** A batch places a character, unless the first one is wide and does not fit. */
  lemma BatchMoves(t: Term, w: seq<Char16>, columns: nat, rows: nat)
    requires Proper(t, columns, rows) && w != [] && !Control(w[0])
    ensures var b := Batch(t, w, columns, rows);
            if t.attribute.wide && t.column + 2 > columns
            then b == Batched(t.(column := t.column + 2), 0)
            else b.count > 0
  {
  }

  lemma ControlWidth(t: Term, c: Char16, s: seq<Char16>, columns: nat, rows: nat)
    requires Proper(t, columns, rows) && Control(c) && s != [] && s[0] == c
    ensures WideMet(t.attribute.wide, s) <==> WideMet(Put(t, c, columns, rows).attribute.wide, s[1..])
  {
    PutAttribute(t, c, columns, rows);
    hide Put;
  }

  /** On one column a wide character is never placed: the loop makes trip after trip. */
  lemma {:induction false} NeverEnds(g: Going, n: nat, rows: nat)
    requires Proper(g.t, 1, rows) && WideMet(g.t.attribute.wide, g.rest)
    ensures Trips(g, n, 1, rows).rest != []
    decreases n
  {
    if n > 0 {
      var c := g.rest[0];
      if Control(c) {
        ControlWidth(g.t, c, g.rest, 1, rows);
      } else {
        var b := Batch(g.t, g.rest, 1, rows);
        BatchMoves(g.t, g.rest, 1, rows);
        BatchWidth(g.t, g.rest, 1, rows);
        WrapProper(b.over, 1, rows);
        assert g.rest[0..] == g.rest;
      }
      hide Batch, Put, Wrap;
      NeverEnds(Trip(g, 1, rows), n - 1, rows);
    }
  }

  /** A trip prints something, or at least begins a new line, and what it must not meet is
      not met later either. */
  lemma TripGoes(g: Going, columns: nat, rows: nat)
    requires Proper(g.t, columns, rows) && g.rest != [] && (columns >= 2 || !WideMet(g.t.attribute.wide, g.rest))
    ensures var next := Trip(g, columns, rows);
            && (|next.rest| < |g.rest| || (next.rest == g.rest && next.t.column < g.t.column))
            && (columns >= 2 || !WideMet(next.t.attribute.wide, next.rest))
  {
    var c := g.rest[0];
    if Control(c) {
      ControlWidth(g.t, c, g.rest, columns, rows);
    } else {
      var b := Batch(g.t, g.rest, columns, rows);
      BatchMoves(g.t, g.rest, columns, rows);
      BatchWidth(g.t, g.rest, columns, rows);
      WrapProper(b.over, columns, rows);
      assert g.rest[0..] == g.rest;
    }
  }

  lemma {:induction false} Ends(g: Going, columns: nat, rows: nat) returns (n: nat)
    requires Proper(g.t, columns, rows) && (columns >= 2 || !WideMet(g.t.attribute.wide, g.rest))
    ensures Trips(g, n, columns, rows).rest == []
    decreases |g.rest|, g.t.column
  {
    if g.rest == [] {
      n := 0;
    } else {
      TripGoes(g, columns, rows);
      hide Trip, WideMet;
      n := Ends(Trip(g, columns, rows), columns, rows);
      n := n + 1;
    }
  }

  /** The driver's loop ends exactly if there are two columns, or no character is to be
      printed while the width is wide. */
  lemma OutputEndsIff(t: Term, s: seq<Char16>, columns: nat, rows: nat)
    requires Proper(t, columns, rows)
    ensures (exists n: nat :: Trips(Going(t, s), n, columns, rows).rest == [])
            <==> columns >= 2 || !WideMet(t.attribute.wide, s)
  {
    var g := Going(t, s);
    if columns >= 2 || !WideMet(t.attribute.wide, s) {
      var n := Ends(g, columns, rows);
    } else {
      forall n: nat ensures Trips(g, n, columns, rows).rest != [] {
        NeverEnds(g, n, rows);
      }
    }
  }
}
