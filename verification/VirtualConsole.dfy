/** The console driver prints in batches, as many characters as fit on the line. */
module VirtualConsole {
  import opened Terminal

  const CR_LF: seq<Char16> := [CARRIAGE_RETURN, LINEFEED]

  ghost predicate HasPrintable(s: seq<Char16>) {
    exists i :: 0 <= i < |s| && !Control(s[i])
  }

  /** A cursor that is over the edge is about to be sent back to the first column. */
  ghost function Settled(t: Term, columns: nat): Term {
    if t.column >= columns then t.(column := 0) else t
  }

  /** What is on the screen. */
  ghost function RowsOf(a: array2<Cell>): (s: seq<Row>)
    reads a
    ensures Sized(s, a.Length1, a.Length0)
    ensures forall r, c :: 0 <= r < a.Length0 && 0 <= c < a.Length1 ==> s[r][c] == a[r, c]
  {
    seq(a.Length0, r requires 0 <= r < a.Length0 reads a =>
      seq(a.Length1, c requires 0 <= c < a.Length1 && 0 <= r < a.Length0 reads a => a[r, c]))
  }

  class Console {
    const columns: nat
    const rows: nat
    const screen: array2<Cell>
    var column: nat
    var row: nat
    var attribute: Attribute

    ghost predicate Valid()
      reads this
    {
      columns >= 1 && screen.Length0 == rows && screen.Length1 == columns && row < rows
    }

    ghost function Screen(): seq<Row>
      reads this, screen
    {
      RowsOf(screen)
    }

    ghost function Now(): Term
      reads this, screen
    {
      Term(Screen(), column, row, attribute)
    }

    constructor (columns: nat, rows: nat, attribute: Attribute)
      requires columns >= 1 && rows >= 1
      ensures Valid() && this.columns == columns && this.rows == rows && column == 0 && row == 0
              && this.attribute == attribute
      ensures fresh(screen)
    {
      this.columns, this.rows := columns, rows;
      screen := new Cell[rows, columns]((r, c) => Cell(0, attribute));
      column, row := 0, 0;
      this.attribute := attribute;
    }

    method PutCell(r: nat, c: nat, cell: Cell)
      requires Valid() && r < rows && c < columns
      modifies screen
      ensures Valid() && Screen() == With(old(Screen()), r, c, cell)
    {
      screen[r, c] := cell;
      forall i | 0 <= i < rows ensures Screen()[i] == With(old(Screen()), r, c, cell)[i] {
        assert forall j :: 0 <= j < columns ==> Screen()[i][j] == With(old(Screen()), r, c, cell)[i][j];
      }
    }

    method Backspace()
      requires Valid() && column < columns
      modifies this`column, this`row, screen
      ensures Valid() && Now() == Back(old(Now()), columns, rows)
    {
      if column == 0 && row > 0 {
        row := row - 1;
        column := columns - 1;
      } else if column > 0 {
        column := column - 1;
      }
      PutCell(row, column, screen[row, column].(ch := 0));
    }

    method CopyRow(to: nat, from: nat)
      requires Valid() && to < rows && from < rows && to != from
      modifies screen
      ensures forall i, c :: 0 <= i < rows && 0 <= c < columns ==>
                screen[i, c] == old(screen[if i == to then from else i, c])
    {
      for k := 0 to columns
        invariant forall i, c :: 0 <= i < rows && 0 <= c < columns ==>
          screen[i, c] == old(screen[if i == to && c < k then from else i, c])
      {
        screen[to, k] := screen[from, k];
      }
    }

    /** Moves every row up by one and blanks the last. */
    method Scroll()
      requires Valid() && row == rows - 1
      modifies screen
      ensures Valid() && Screen() == Scrolled(old(Screen()), columns)
    {
      for k := 0 to row
        invariant forall i, c :: 0 <= i < rows && 0 <= c < columns ==>
                    screen[i, c] == old(screen[if i < k then i + 1 else i, c])
      {
        CopyRow(k, k + 1);
      }
      Blank();
      ghost var after := Scrolled(old(Screen()), columns);
      forall i | 0 <= i < rows ensures Screen()[i] == after[i] {
        assert forall c :: 0 <= c < columns ==> Screen()[i][c] == after[i][c];
      }
    }

    method Blank()
      requires Valid()
      modifies screen
      ensures forall i, c :: 0 <= i < rows && 0 <= c < columns ==>
                screen[i, c] == if i == row then EMPTY else old(screen[i, c])
    {
      for k := 0 to columns
        invariant forall i, c :: 0 <= i < rows && 0 <= c < columns ==>
          screen[i, c] == if i == row && c < k then EMPTY else old(screen[i, c])
      {
        screen[row, k] := EMPTY;
      }
    }

    method Feed()
      requires Valid()
      modifies this`row, screen
      ensures Valid() && Now() == LineFeed(old(Now()), columns, rows)
    {
      if row == rows - 1 {
        Scroll();
      } else {
        row := row + 1;
      }
    }

    /** Places characters until one is not to be placed, does not fit, or the line is full. */
    method PlaceRun(w: seq<Char16>) returns (count: nat, index: nat)
      requires Valid() && column < columns
      modifies screen
      ensures Valid()
      ensures Batched(Now().(column := column + index), count) == Batch(old(Now()), w, columns, rows)
    {
      hide Place;
      count, index := 0, 0;
      ghost var start, over := Now(), Now();
      assert w[0..] == w;
      while column + index < columns
        invariant Valid() && count <= |w| && over == Now().(column := column + index)
        invariant var b := Batch(over, w[count..], columns, rows);
                  Batch(start, w, columns, rows) == Batched(b.over, count + b.count)
        decreases columns - index
      {
        if count == |w| || Control(w[count]) {
          break;
        }
        assert w[count..][1..] == w[count + 1..] && w[count..][0] == w[count];
        if attribute.wide && column + index + 2 > columns {
          index := index + 2;
          return;
        }
        PlaceIs(over, w[count]);
        PutCell(row, column + index, Cell(w[count], attribute));
        over := Place(over, w[count], columns, rows);
        index := index + if attribute.wide then 2 else 1;
        count := count + 1;
      }
    }

    lemma PlaceIs(t: Term, c: Char16)
      requires Proper(t, columns, rows)
      ensures Place(t, c, columns, rows) ==
              t.(screen := With(t.screen, t.row, t.column, Cell(c, t.attribute)),
                 column := t.column + if t.attribute.wide then 2 else 1)
    {
    }

    /** Prints a batch, and a new line when the cursor has gone over the edge. */
    method PrintRun(w: seq<Char16>) returns (count: nat)
      requires Valid() && column < columns && w != [] && !Control(w[0])
      modifies this, screen
      ensures Valid() && column < columns && count <= |w|
      ensures Going(Now(), w[count..]) == Trip(Going(old(Now()), w), columns, rows)
      decreases 1, 0
    {
      hide PutAll, Batch;
      var index;
      count, index := PlaceRun(w);
      column := column + index;
      ghost var over := Now();
      WrapProper(over, columns, rows);
      if column >= columns {
        CrLf(over.(column := 0), columns, rows);
        CrLfNarrow(attribute.wide);
        assert NewLine(over.(column := 0), columns, rows) == NewLine(over, columns, rows);
        OutputString(CR_LF);
      }
    }

    /** A character that prints nothing. */
    method PutControl(c: Char16)
      requires Valid() && Control(c) && c != 0 && (column < columns || c == CARRIAGE_RETURN)
      modifies this`column, this`row, this`attribute, screen
      ensures Valid() && column < columns && Now() == Put(Settled(old(Now()), columns), c, columns, rows)
    {
      hide Back, LineFeed;
      if c == BACKSPACE {
        Backspace();
      } else if c == LINEFEED {
        Feed();
      } else if c == CARRIAGE_RETURN {
        column := 0;
      } else if c == WIDE_CHAR {
        attribute := attribute.(wide := true);
      } else {
        attribute := attribute.(wide := false);
      }
      ControlStays(Settled(old(Now()), columns), c);
    }

    lemma ControlStays(t: Term, c: Char16)
      requires Valid() && Proper(t, columns, rows)
      ensures Proper(Put(t, c, columns, rows), columns, rows)
    {
      PutProper(t, c, columns, rows);
    }

    /** Prints a string as the terminal would that takes one character at a time.  Where the
        loop would not end is said by `OutputEndsIff`. */
    method OutputString(s: seq<Char16>)
      requires Valid() && 0 !in s && (column < columns || (s != [] && s[0] == CARRIAGE_RETURN))
      requires columns >= 2 || !WideMet(attribute.wide, s)
      modifies this, screen
      ensures Valid() && column < columns
      ensures Now() == Output(Settled(old(Now()), columns), s, columns, rows)
      decreases if HasPrintable(s) then 1 else 0, 1
    {
      hide PutAll, Put, WideMet, Batch;
      var origin := attribute;
      ghost var start := Settled(Now(), columns);
      var rest := s;
      while rest != []
        invariant Valid() && |rest| <= |s| && rest == s[|s| - |rest|..]
        invariant column < columns || (rest != [] && rest[0] == CARRIAGE_RETURN)
        invariant PutAll(Settled(Now(), columns), rest, columns, rows) == PutAll(start, s, columns, rows)
        invariant columns >= 2 || !WideMet(attribute.wide, rest)
        decreases |rest|, column
      {
        var c := rest[0];
        assert c == s[|s| - |rest|];
        ghost var t := Settled(Now(), columns);
        PutAllNext(t, rest, columns, rows);
        TripGoes(Going(t, rest), columns, rows);
        if !Control(c) {
          assert HasPrintable(s);
          TripPrints(t, rest);
          var count := PrintRun(rest);
          rest := rest[count..];
        } else {
          PutControl(c);
          rest := rest[1..];
        }
      }
      PutAllNone(Now());
      attribute := origin;
    }

    /** A trip round the loop prints what it takes from the string. */
    lemma TripPrints(t: Term, w: seq<Char16>)
      requires Valid() && Proper(t, columns, rows) && w != [] && !Control(w[0])
      requires columns >= 2 || !WideMet(t.attribute.wide, w)
      ensures var g := Trip(Going(t, w), columns, rows);
              PutAll(g.t, g.rest, columns, rows) == PutAll(t, w, columns, rows)
    {
      BatchPrints(t, w, columns, rows);
      NoWrap(t, columns, rows);
      hide PutAll, Batch, Wrap;
    }

    lemma PutAllNone(t: Term)
      requires Valid() && Proper(t, columns, rows)
      ensures PutAll(t, [], columns, rows) == t
    {
    }
  }

  lemma CrLfNarrow(wide: bool)
    ensures !WideMet(wide, CR_LF) && !HasPrintable(CR_LF)
  {
    assert CR_LF[1..] == [LINEFEED] && [LINEFEED][1..] == [];
    assert !WideMet(wide, []);
    assert !WideMet(wide, [LINEFEED]);
  }
}
