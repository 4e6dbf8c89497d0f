/** The 2048 board: a grid of item objects that are moved and joined in place. */
module Board2048 {
  import opened Basics
  import opened Tiles2048

  const DEFAULT_VALUE: nat := 2
  const WIN_VALUE: nat := 2048

  datatype Pos = Pos(x: nat, y: nat)

  datatype Direction = Left | Right | Up | Down

  /** Cell `k` of line `c`, counted from the edge moved to. */
  function At(dir: Direction, c: nat, k: nat, n: nat): (p: Pos)
    requires c < n && k < n
    ensures p.x < n && p.y < n
  {
    match dir
    case Left => Pos(k, c)
    case Right => Pos(n - 1 - k, c)
    case Up => Pos(c, k)
    case Down => Pos(c, n - 1 - k)
  }

  type Grid = map<Pos, nat>

  ghost predicate Within(g: Grid, n: nat) {
    forall p :: p in g ==> p.x < n && p.y < n
  }

  function LookUp(g: Grid, p: Pos): Option<nat> {
    if p in g then Some(g[p]) else None
  }

  function LineOf(g: Grid, n: nat, dir: Direction, c: nat): (line: Line)
    requires c < n
    ensures |line| == n
  {
    seq(n, k requires 0 <= k < n => LookUp(g, At(dir, c, k, n)))
  }

  /** Every cell is on exactly one line. */
  /** How the lines run: to the left from x = 0 up, to the right from the other edge, upwards
      from y = 0 down the column, downwards from its other end. */
  lemma LinesInPlain(g: Grid, n: nat, c: nat, k: nat)
    requires c < n && k < n
    ensures LineOf(g, n, Left, c)[k] == if Pos(k, c) in g then Some(g[Pos(k, c)]) else None
    ensures LineOf(g, n, Right, c)[n - 1 - k] == if Pos(k, c) in g then Some(g[Pos(k, c)]) else None
    ensures LineOf(g, n, Up, c)[k] == if Pos(c, k) in g then Some(g[Pos(c, k)]) else None
    ensures LineOf(g, n, Down, c)[n - 1 - k] == if Pos(c, k) in g then Some(g[Pos(c, k)]) else None
  {
  }

  function LineIndex(dir: Direction, p: Pos): nat {
    if dir == Left || dir == Right then p.y else p.x
  }

  function PlaceOnLine(dir: Direction, p: Pos, n: nat): nat
    requires p.x < n && p.y < n
  {
    match dir
    case Left => p.x
    case Right => n - 1 - p.x
    case Up => p.y
    case Down => n - 1 - p.y
  }

  lemma OnOneLine(dir: Direction, p: Pos, n: nat)
    requires p.x < n && p.y < n
    ensures LineIndex(dir, p) < n && PlaceOnLine(dir, p, n) < n
    ensures At(dir, LineIndex(dir, p), PlaceOnLine(dir, p, n), n) == p
  {
  }

  lemma PlaceOfAt(dir: Direction, c: nat, k: nat, n: nat)
    requires c < n && k < n
    ensures LineIndex(dir, At(dir, c, k, n)) == c && PlaceOnLine(dir, At(dir, c, k, n), n) == k
  {
  }

  /** The lines of a grid determine it. */
  lemma LinesDetermine(a: Grid, b: Grid, n: nat, dir: Direction)
    requires Within(a, n) && Within(b, n) && forall c :: 0 <= c < n ==> LineOf(a, n, dir, c) == LineOf(b, n, dir, c)
    ensures a == b
  {
    forall p | p in a || p in b ensures LookUp(a, p) == LookUp(b, p) {
      OnOneLine(dir, p, n);
      var c, k := LineIndex(dir, p), PlaceOnLine(dir, p, n);
      assert LineOf(a, n, dir, c)[k] == LineOf(b, n, dir, c)[k];
    }
    assert a.Keys == b.Keys by {
      forall p | p in a || p in b ensures p in a && p in b {
        assert LookUp(a, p) == LookUp(b, p);
      }
    }
    forall p | p in a ensures a[p] == b[p] {
      assert LookUp(a, p) == LookUp(b, p);
    }
  }

  /** The grid with the tile at `from` put at `to`. */
  function Shifted(g: Grid, from: Pos, to: Pos, v: nat): Grid { (g - {from})[to := v] }

  /** A change of two neighbours on a line changes no other line. */
  lemma LineShifted(g: Grid, n: nat, dir: Direction, c: nat, i: nat, v: nat)
    requires c < n && i + 1 < n
    ensures var next := Shifted(g, At(dir, c, i + 1, n), At(dir, c, i, n), v);
            && LineOf(next, n, dir, c) == LineOf(g, n, dir, c)[i := Some(v)][i + 1 := None]
            && forall d :: 0 <= d < n && d != c ==> LineOf(next, n, dir, d) == LineOf(g, n, dir, d)
  {
    var next := Shifted(g, At(dir, c, i + 1, n), At(dir, c, i, n), v);
    PlaceOfAt(dir, c, i, n);
    PlaceOfAt(dir, c, i + 1, n);
    forall d, k | 0 <= d < n && 0 <= k < n
      ensures LineOf(next, n, dir, d)[k] ==
              if d == c && k == i then Some(v) else if d == c && k == i + 1 then None else LineOf(g, n, dir, d)[k]
    {
      PlaceOfAt(dir, d, k, n);
    }
    assert LineOf(next, n, dir, c) == LineOf(g, n, dir, c)[i := Some(v)][i + 1 := None];
    forall d | 0 <= d < n && d != c ensures LineOf(next, n, dir, d) == LineOf(g, n, dir, d) {
      forall k | 0 <= k < n ensures LineOf(next, n, dir, d)[k] == LineOf(g, n, dir, d)[k] {
      }
    }
  }

  /** The lines before `c` are slid, the others as they were. */
  ghost predicate SlidBefore(g: Grid, before: Grid, n: nat, dir: Direction, c: nat) {
    forall d :: 0 <= d < n ==>
      LineOf(g, n, dir, d) == if d < c then Slid(LineOf(before, n, dir, d)) else LineOf(before, n, dir, d)
  }

  /** The sum of the tiles on the first `c` lines. */
  function Total(g: Grid, n: nat, dir: Direction, c: nat): nat
    requires c <= n
  {
    if c == 0 then 0 else Total(g, n, dir, c - 1) + Sum(Tiles(LineOf(g, n, dir, c - 1)))
  }

  /** A move keeps the sum of the tiles. */
  lemma {:induction false} MoveConserves(g: Grid, before: Grid, n: nat, dir: Direction, c: nat)
    requires c <= n && SlidBefore(g, before, n, dir, n)
    ensures Total(g, n, dir, c) == Total(before, n, dir, c)
  {
    hide Slid, Tiles, LineOf, Sum;
    if c > 0 {
      MoveConserves(g, before, n, dir, c - 1);
      SlidConserves(LineOf(before, n, dir, c - 1));
    }
  }

  function ValueAt(g: Grid, x: nat, y: nat): nat {
    if Pos(x, y) in g then g[Pos(x, y)] else 0
  }

  function RowSum(g: Grid, y: nat, a: nat): nat {
    if a == 0 then 0 else RowSum(g, y, a - 1) + ValueAt(g, a - 1, y)
  }

  function ColumnSum(g: Grid, x: nat, b: nat): nat {
    if b == 0 then 0 else ColumnSum(g, x, b - 1) + ValueAt(g, x, b - 1)
  }

  /** The sum of all tiles in the first `a` columns and `b` rows. */
  function GridSum(g: Grid, a: nat, b: nat): nat {
    if b == 0 then 0 else GridSum(g, a, b - 1) + RowSum(g, b - 1, a)
  }

  lemma {:induction false} OneColumnMore(g: Grid, a: nat, b: nat)
    ensures GridSum(g, a + 1, b) == GridSum(g, a, b) + ColumnSum(g, a, b)
  {
    if b > 0 {
      OneColumnMore(g, a, b - 1);
    }
  }

  lemma {:induction false} SumOfTiles(line: Line, more: Line)
    ensures Sum(Tiles(line + more)) == Sum(Tiles(line)) + Sum(Tiles(more))
  {
    TilesJoin(line, more);
    SumJoins(Tiles(line), Tiles(more));
  }

  lemma {:induction false} SumJoins(a: seq<nat>, b: seq<nat>)
    ensures Sum(a + b) == Sum(a) + Sum(b)
  {
    if a == [] {
      assert a + b == b;
    } else {
      SumJoins(a[1..], b);
      assert (a + b)[1..] == a[1..] + b;
    }
  }

  lemma CellSum(g: Grid, x: nat, y: nat)
    ensures Sum(Tiles([LookUp(g, Pos(x, y))])) == ValueAt(g, x, y)
  {
    OneTile(LookUp(g, Pos(x, y)));
  }

  predicate Horizontal(dir: Direction) { dir == Left || dir == Right }

  /** The first `k` cells of a row or column, in the direction the coordinates grow. */
  function Along(g: Grid, dir: Direction, c: nat, k: nat): nat {
    if Horizontal(dir) then RowSum(g, c, k) else ColumnSum(g, c, k)
  }

  lemma AlongNext(g: Grid, n: nat, dir: Direction, c: nat, k: nat)
    requires c < n && 0 < k <= n
    ensures var p := At(dir, c, if dir == Left || dir == Up then k - 1 else n - k, n);
            Along(g, dir, c, k) == Along(g, dir, c, k - 1) + Sum(Tiles([LookUp(g, p)]))
  {
    var p := At(dir, c, if dir == Left || dir == Up then k - 1 else n - k, n);
    CellSum(g, p.x, p.y);
    hide Sum, Tiles, LookUp;
  }

  lemma {:induction false} ForwardSum(g: Grid, n: nat, dir: Direction, c: nat, k: nat)
    requires c < n && k <= n && (dir == Left || dir == Up)
    ensures Sum(Tiles(LineOf(g, n, dir, c)[..k])) == Along(g, dir, c, k)
  {
    if k > 0 {
      ForwardSum(g, n, dir, c, k - 1);
      AlongNext(g, n, dir, c, k);
      var line, cell := LineOf(g, n, dir, c), LookUp(g, At(dir, c, k - 1, n));
      assert line[k - 1] == cell;
      hide Sum, Tiles, Along, LookUp, At, LineOf;
      CutLast(line, k - 1);
      SumOfTiles(line[..k - 1], [cell]);
    }
  }

  lemma {:induction false} BackwardSum(g: Grid, n: nat, dir: Direction, c: nat, k: nat)
    requires c < n && k <= n && (dir == Right || dir == Down)
    ensures Sum(Tiles(LineOf(g, n, dir, c)[n - k..])) == Along(g, dir, c, k)
  {
    if k > 0 {
      BackwardSum(g, n, dir, c, k - 1);
      AlongNext(g, n, dir, c, k);
      var line, cell := LineOf(g, n, dir, c), LookUp(g, At(dir, c, n - k, n));
      assert line[n - k] == cell;
      hide Sum, Tiles, Along, LookUp, At, LineOf;
      CutFirst(line, n - k);
      SumOfTiles([cell], line[n - k + 1..]);
    }
  }

  lemma CutLast(line: Line, i: nat)
    requires i < |line|
    ensures line[..i + 1] == line[..i] + [line[i]]
  {
  }

  lemma CutFirst(line: Line, i: nat)
    requires i < |line|
    ensures line[i..] == [line[i]] + line[i + 1..]
  {
  }

  lemma LineSum(g: Grid, n: nat, dir: Direction, c: nat)
    requires c < n
    ensures Sum(Tiles(LineOf(g, n, dir, c))) == Along(g, dir, c, n)
  {
    hide Sum, Tiles, Along;
    var line := LineOf(g, n, dir, c);
    assert line[..n] == line && line[n - n..] == line;
    if dir == Left || dir == Up {
      ForwardSum(g, n, dir, c, n);
    } else {
      BackwardSum(g, n, dir, c, n);
    }
  }

  /** Whichever way the lines run, their total is the sum of the whole grid. */
  lemma {:induction false} TotalIsGridSum(g: Grid, n: nat, dir: Direction, c: nat)
    requires c <= n
    ensures Total(g, n, dir, c) == if Horizontal(dir) then GridSum(g, n, c) else GridSum(g, c, n)
  {
    if c == 0 {
      NoColumns(g, n);
    } else {
      TotalIsGridSum(g, n, dir, c - 1);
      LineSum(g, n, dir, c - 1);
      OneColumnMore(g, c - 1, n);
      hide Sum, Tiles, LineOf;
    }
  }

  lemma {:induction false} NoColumns(g: Grid, b: nat)
    ensures GridSum(g, 0, b) == 0
  {
    if b > 0 {
      NoColumns(g, b - 1);
    }
  }

  /** A move keeps the sum of the whole grid, in each of the four directions. */
  lemma MoveKeepsGridSum(g: Grid, before: Grid, n: nat, dir: Direction)
    requires SlidBefore(g, before, n, dir, n)
    ensures GridSum(g, n, n) == GridSum(before, n, n)
  {
    hide SlidBefore;
    MoveConserves(g, before, n, dir, n);
    TotalIsGridSum(g, n, dir, n);
    TotalIsGridSum(before, n, dir, n);
  }

  /** A move that changes the grid leaves an empty cell. */
  lemma MoveLeavesRoom(g: Grid, before: Grid, n: nat, dir: Direction)
    requires SlidBefore(g, before, n, dir, n) && Within(g, n) && Within(before, n) && g != before
    ensures exists p: Pos :: p.x < n && p.y < n && p !in g
  {
    hide Slid, At;
    if forall c :: 0 <= c < n ==> LineOf(g, n, dir, c) == LineOf(before, n, dir, c) {
      LinesDetermine(g, before, n, dir);
    }
    var c :| 0 <= c < n && LineOf(g, n, dir, c) != LineOf(before, n, dir, c);
    ChangeLeavesRoom(LineOf(before, n, dir, c));
    var p := At(dir, c, n - 1, n);
    assert LineOf(g, n, dir, c)[n - 1] == LookUp(g, p);
  }

  class Item {
    var x: nat
    var y: nat
    var value: nat

    constructor (x: nat, y: nat, value: nat)
      ensures this.x == x && this.y == y && this.value == value
    {
      this.x, this.y, this.value := x, y, value;
    }

    method SetPos(x: nat, y: nat)
      modifies this`x, this`y
      ensures this.x == x && this.y == y
    {
      this.x, this.y := x, y;
    }

    method SetValue(value: nat)
      modifies this`value
      ensures this.value == value
    {
      this.value := value;
    }
  }

  class Board {
    const n: nat
    const items: array2<Item?>
    var itemMoved: bool
    var gameOvered: bool
    /** The values on the board. */
    ghost var grid: Grid
    /** Every item that was ever put on it. */
    ghost var made: set<Item>

    /** An item knows its own cell, so no item is in two cells. */
    ghost predicate Valid()
      reads this, items, made
    {
      && items.Length0 == n && items.Length1 == n && Within(grid, n)
      && forall x, y :: 0 <= x < n && 0 <= y < n ==> CellOk(x, y)
    }

    ghost predicate CellOk(x: nat, y: nat)
      requires x < items.Length0 && y < items.Length1
      reads this, items, made
    {
      var item := items[x, y];
      if item == null then Pos(x, y) !in grid
      else item in made && item.x == x && item.y == y && LookUp(grid, Pos(x, y)) == Some(item.value)
    }

    constructor (n: nat)
      ensures Valid() && this.n == n && grid == map[] && !gameOvered && fresh(items) && made == {}
    {
      this.n := n;
      var cells := new Item?[n, n]((i, j) => null);
      items := cells;
      itemMoved, gameOvered := false, false;
      grid := map[];
      made := {};
    }

    /** Moves an item to an empty cell. */
    method Drag(to: Pos, from: Pos)
      requires Valid() && to.x < n && to.y < n && from in grid && (to == from || to !in grid)
      modifies this`itemMoved, this`grid, items, made
      ensures Valid() && grid == if to == from then old(grid) else Shifted(old(grid), from, to, old(grid)[from])
      ensures itemMoved == (old(itemMoved) || to != from)
    {
      if to == from {
        return;
      }
      assert CellOk(from.x, from.y) && CellOk(to.x, to.y);
      itemMoved := true;
      var item := items[from.x, from.y];
      item.SetPos(to.x, to.y);
      items[to.x, to.y] := item;
      items[from.x, from.y] := null;
      grid := Shifted(grid, from, to, grid[from]);
      forall x, y | 0 <= x < n && 0 <= y < n ensures CellOk(x, y) {
        assert old(CellOk(x, y));
      }
    }

    /** Adds the item at `from` to the equal one at `to`. */
    method Join(to: Pos, from: Pos)
      requires Valid() && to != from && to in grid && from in grid
      modifies this`itemMoved, this`grid, items, made
      ensures Valid()
      ensures if old(grid)[to] != old(grid)[from] then grid == old(grid) && itemMoved == old(itemMoved)
              else itemMoved && grid == Shifted(old(grid), from, to, 2 * old(grid)[to])
    {
      var oldItem := items[from.x, from.y];
      var newItem := items[to.x, to.y];
      assert CellOk(from.x, from.y) && CellOk(to.x, to.y);
      if oldItem.value != newItem.value {
        return;
      }
      itemMoved := true;
      oldItem.SetPos(to.x, to.y);
      newItem.SetValue(newItem.value + oldItem.value);
      items[from.x, from.y] := null;
      grid := Shifted(grid, from, to, 2 * grid[to]);
      forall x, y | 0 <= x < n && 0 <= y < n ensures CellOk(x, y) {
        assert old(CellOk(x, y));
      }
    }

    ghost function Row(dir: Direction, c: nat): Line
      requires c < n
      reads this
    {
      LineOf(grid, n, dir, c)
    }

    /** The other lines are as they were. */
    twostate predicate OthersSame(dir: Direction, c: nat)
      reads this
    {
      forall d :: 0 <= d < n && d != c ==> LineOf(grid, n, dir, d) == LineOf(old(grid), n, dir, d)
    }

    method ExistAt(dir: Direction, c: nat, k: nat) returns (there: bool)
      requires Valid() && c < n && k < n
      ensures there <==> Row(dir, c)[k] != None
    {
      var p := At(dir, c, k, n);
      assert CellOk(p.x, p.y);
      there := items[p.x, p.y] != null;
    }

    /** Closes the gap at `i` with the tile behind it. */
    method DragOne(dir: Direction, c: nat, i: nat)
      requires Valid() && c < n && i + 1 < n && Row(dir, c)[i] == None && Row(dir, c)[i + 1] != None
      modifies this`itemMoved, this`grid, items, made
      ensures Valid() && itemMoved && Row(dir, c) == Dragged(old(Row(dir, c)), i) && OthersSame(dir, c)
    {
      hide Valid;
      var to, from := At(dir, c, i, n), At(dir, c, i + 1, n);
      assert Row(dir, c)[i] == LookUp(grid, to) && Row(dir, c)[i + 1] == LookUp(grid, from);
      ghost var v := grid[from];
      LineShifted(grid, n, dir, c, i, v);
      hide LineOf, At, Shifted;
      Drag(to, from);
    }

    /** Joins the tiles at `i` and `i + 1` if there are two and they are equal. */
    method TestAndJoin(dir: Direction, c: nat, i: nat)
      requires Valid() && c < n && i + 1 < n
      modifies this`itemMoved, this`grid, items, made
      ensures Valid() && OthersSame(dir, c)
      ensures var line := old(Row(dir, c));
              if line[i] != None && line[i] == line[i + 1] then itemMoved && Row(dir, c) == Joined(line, i)
              else itemMoved == old(itemMoved) && grid == old(grid)
    {
      var one := ExistAt(dir, c, i);
      var two := ExistAt(dir, c, i + 1);
      hide Valid;
      if one && two {
        var to, from := At(dir, c, i, n), At(dir, c, i + 1, n);
        assert Row(dir, c)[i] == LookUp(grid, to) && Row(dir, c)[i + 1] == LookUp(grid, from);
        LineShifted(grid, n, dir, c, i, 2 * grid[to]);
        PlaceOfAt(dir, c, i, n);
        PlaceOfAt(dir, c, i + 1, n);
        hide LineOf, At, Shifted;
        Join(to, from);
      }
    }

    /** Nothing happened, or something moved on a line that had a gap. */
    twostate predicate MovedOverGap(new line: Line)
      reads this
    {
      (grid == old(grid) && itemMoved == old(itemMoved)) || (itemMoved && !CompactFrom(line, 0))
    }

    /** The tile at `k` slides to the first gap before it. */
    method Settle(dir: Direction, c: nat, k: nat)
      requires Valid() && c < n && 0 < k < n && Row(dir, c)[k] != None && CompactUpTo(Row(dir, c), k)
      modifies this`itemMoved, this`grid, items, made
      ensures Valid() && OthersSame(dir, c) && MovedOverGap(old(Row(dir, c)))
      ensures CompactUpTo(Row(dir, c), k + 1) && Tiles(Row(dir, c)) == Tiles(old(Row(dir, c)))
      ensures forall j :: k < j < n ==> Row(dir, c)[j] == old(Row(dir, c))[j]
    {
      hide Valid, LineOf, Tiles;
      ghost var start := Row(dir, c);
      var i: int := k - 1;
      while i >= 0
        invariant -1 <= i < k && Valid() && OthersSame(dir, c) && MovedOverGap(start)
        invariant Settling(Row(dir, c), i, k) && Tiles(Row(dir, c)) == Tiles(start)
        invariant forall j :: k < j < n ==> Row(dir, c)[j] == start[j]
        invariant grid == old(grid) || itemMoved
      {
        ghost var line := Row(dir, c);
        var there := ExistAt(dir, c, i);
        if !there {
          SettlingDrags(line, i, k);
          DraggedTiles(line, i);
          DragOne(dir, c, i);
        } else {
          SettlingStays(line, i, k);
        }
        i := i - 1;
      }
      Settled(Row(dir, c), k);
    }

    /** Closes all gaps of a line. */
    method Compress(dir: Direction, c: nat)
      requires Valid() && c < n
      modifies this`itemMoved, this`grid, items, made
      ensures Valid() && OthersSame(dir, c) && Row(dir, c) == Compressed(old(Row(dir, c)))
      ensures itemMoved == (old(itemMoved) || Row(dir, c) != old(Row(dir, c)))
      ensures Row(dir, c) == old(Row(dir, c)) ==> grid == old(grid)
    {
      hide Valid, LineOf, Tiles;
      ghost var start := Row(dir, c);
      for k := 1 to n
        invariant Valid() && OthersSame(dir, c) && MovedOverGap(start)
        invariant Tiles(Row(dir, c)) == Tiles(start) && CompactUpTo(Row(dir, c), k)
      {
        var there := ExistAt(dir, c, k);
        if there {
          Settle(dir, c, k);
        }
      }
      CompactIsCompressed(Row(dir, c), start);
    }

    /** Joins neighbours along a line without gaps. */
    method JoinAll(dir: Direction, c: nat)
      requires Valid() && c < n && CompactFrom(Row(dir, c), 0)
      modifies this`itemMoved, this`grid, items, made
      ensures Valid() && OthersSame(dir, c) && Tiles(Row(dir, c)) == Merge(Tiles(old(Row(dir, c))))
      ensures itemMoved == (old(itemMoved) || Row(dir, c) != old(Row(dir, c)))
      ensures Row(dir, c) == old(Row(dir, c)) ==> grid == old(grid)
      ensures Row(dir, c) != old(Row(dir, c)) ==> |Tiles(Row(dir, c))| < |Tiles(old(Row(dir, c)))|
    {
      hide Valid, LineOf, Tiles, Merge, Half, Joined;
      ghost var start := Row(dir, c);
      JoinStarts(start);
      for k := 0 to n - 1
        invariant Valid() && OthersSame(dir, c)
        invariant Half(Row(dir, c), k) == Merge(Tiles(start)) && CompactFrom(Row(dir, c), k + 1)
        invariant (grid == old(grid) && itemMoved == old(itemMoved))
                  || (itemMoved && |Tiles(Row(dir, c))| < |Tiles(start)|)
      {
        ghost var line := Row(dir, c);
        if line[k] != None && line[k] == line[k + 1] {
          JoinedHalf(line, k);
          JoinedFewer(line, k);
          JoinedCompact(line, k);
        } else {
          StaysHalf(line, k);
        }
        TestAndJoin(dir, c, k);
      }
      JoinDone(Row(dir, c), Tiles(start));
    }

    method MoveLine(dir: Direction, c: nat)
      requires Valid() && c < n
      modifies this`itemMoved, this`grid, items, made
      ensures Valid() && OthersSame(dir, c) && Row(dir, c) == Slid(old(Row(dir, c)))
      ensures itemMoved == (old(itemMoved) || Row(dir, c) != old(Row(dir, c)))
      ensures Row(dir, c) == old(Row(dir, c)) ==> grid == old(grid)
    {
      hide Valid, LineOf, Tiles, Merge, Half, Slid, Compressed;
      ghost var start := Row(dir, c);
      CompressedTiles(start);
      Compress(dir, c);
      ghost var one := Row(dir, c);
      JoinAll(dir, c);
      ghost var two := Row(dir, c);
      ThreePasses(start, two);
      Compress(dir, c);
      SlidTiles(start);
      PassesMove(start, one, two);
    }

    method NotMovedYet()
      requires Valid()
      modifies this`itemMoved
      ensures Valid() && !itemMoved
    {
      itemMoved := false;
      forall x, y | 0 <= x < n && 0 <= y < n ensures CellOk(x, y) {
        assert old(CellOk(x, y));
      }
    }

    /** All lines are slid, and `itemMoved` tells whether that changed anything. */
    method MoveLines(dir: Direction)
      requires Valid()
      modifies this`itemMoved, this`grid, items, made
      ensures Valid() && SlidBefore(grid, old(grid), n, dir, n)
      ensures itemMoved <==> grid != old(grid)
    {
      hide Valid, LineOf, Slid;
      ghost var before := grid;
      NotMovedYet();
      for c := 0 to n
        invariant Valid() && SlidBefore(grid, before, n, dir, c)
        invariant itemMoved <==> grid != before
      {
        MoveLine(dir, c);
      }
    }

    /** A board with no empty cell is lost. */
    method CheckGameOver()
      requires Valid()
      modifies this`gameOvered
      ensures Valid() && gameOvered == (old(gameOvered) || Full(grid, n))
    {
      var count := CountItems();
      if count >= n * n {
        gameOvered := true;
        forall x, y | 0 <= x < n && 0 <= y < n ensures CellOk(x, y) {
          assert old(CellOk(x, y));
        }
      }
    }

    method CountItems() returns (count: nat)
      requires Valid()
      ensures count >= n * n <==> Full(grid, n)
    {
      hide CellOk;
      count := 0;
      ghost var all := 0;
      for x := 0 to n
        invariant all == x * n && count <= all
        invariant count == all <==> forall i, j :: 0 <= i < x && 0 <= j < n ==> Pos(i, j) in grid
      {
        var inRow := CountRow(x);
        count := count + inRow;
        OneRowMore(x, n);
        all := all + n;
      }
    }

    method CountRow(x: nat) returns (count: nat)
      requires Valid() && x < n
      ensures count <= n && (count == n <==> forall j :: 0 <= j < n ==> Pos(x, j) in grid)
    {
      count := 0;
      for y := 0 to n
        invariant count <= y && (count == y <==> forall j :: 0 <= j < y ==> Pos(x, j) in grid)
      {
        assert CellOk(x, y);
        if items[x, y] != null {
          count := count + 1;
        }
      }
    }

    method CheckWin()
      requires Valid()
      modifies this`gameOvered
      ensures Valid() && gameOvered == (old(gameOvered) || Won(grid, n))
    {
      var win := HasWon();
      if win {
        gameOvered := true;
        forall x, y | 0 <= x < n && 0 <= y < n ensures CellOk(x, y) {
          assert old(CellOk(x, y));
        }
      }
    }

    method HasWon() returns (win: bool)
      requires Valid()
      ensures win <==> Won(grid, n)
    {
      win := false;
      for x := 0 to n
        invariant win <==> exists i, j :: 0 <= i < x && 0 <= j < n && LookUp(grid, Pos(i, j)) == Some(WIN_VALUE)
      {
        for y := 0 to n
          invariant win <==>
                      exists i, j :: 0 <= i <= x && 0 <= j < (if i == x then y else n)
                                     && LookUp(grid, Pos(i, j)) == Some(WIN_VALUE)
        {
          assert CellOk(x, y);
          if items[x, y] != null && items[x, y].value == WIN_VALUE {
            win := true;
          }
        }
      }
    }

    /** Puts a new item into one of the empty cells; `random` chooses which. */
    method AddRandom(random: nat) returns (p: Pos)
      requires Valid() && !Full(grid, n)
      modifies this`grid, this`made, items
      ensures Valid() && p !in old(grid) && grid == old(grid)[p := 2]
      ensures fresh(made - old(made))
    {
      var empty := AllEmpty();
      p := empty[random % |empty|];
      Add(p);
    }

    method AllEmpty() returns (empty: seq<Pos>)
      requires Valid()
      ensures forall k :: 0 <= k < |empty| ==> empty[k].x < n && empty[k].y < n && empty[k] !in grid
      ensures |empty| > 0 || Full(grid, n)
    {
      empty := [];
      for x := 0 to n
        invariant forall k :: 0 <= k < |empty| ==> empty[k].x < n && empty[k].y < n && empty[k] !in grid
        invariant forall i, j :: 0 <= i < x && 0 <= j < n && Pos(i, j) !in grid ==> Pos(i, j) in empty
      {
        var row := EmptyInRow(x);
        empty := empty + row;
      }
    }

    method EmptyInRow(x: nat) returns (empty: seq<Pos>)
      requires Valid() && x < n
      ensures forall k :: 0 <= k < |empty| ==> empty[k].x == x && empty[k].y < n && empty[k] !in grid
      ensures forall j :: 0 <= j < n && Pos(x, j) !in grid ==> Pos(x, j) in empty
    {
      empty := [];
      for y := 0 to n
        invariant forall k :: 0 <= k < |empty| ==> empty[k].x == x && empty[k].y < n && empty[k] !in grid
        invariant forall j :: 0 <= j < y && Pos(x, j) !in grid ==> Pos(x, j) in empty
      {
        assert CellOk(x, y);
        if items[x, y] == null {
          empty := empty + [Pos(x, y)];
        }
      }
    }

    method Add(p: Pos)
      requires Valid() && p.x < n && p.y < n && p !in grid
      modifies this`grid, this`made, items
      ensures Valid() && grid == old(grid)[p := 2] && fresh(made - old(made))
    {
      var item := new Item(p.x, p.y, DEFAULT_VALUE);
      items[p.x, p.y] := item;
      grid := grid[p := DEFAULT_VALUE];
      made := made + {item};
      forall x, y | 0 <= x < n && 0 <= y < n ensures CellOk(x, y) {
        assert old(CellOk(x, y));
      }
    }

    /** One move of the player.  `slid` is the board after sliding, before the new tile. */
    method Move(dir: Direction, random: nat) returns (ghost slid: Grid)
      requires Valid()
      modifies this, items, made
      ensures Valid() && fresh(made - old(made))
      ensures old(gameOvered) ==> grid == old(grid) && gameOvered
      ensures !old(gameOvered) ==>
        && SlidBefore(slid, old(grid), n, dir, n) && itemMoved == (slid != old(grid))
        && gameOvered
           == ((Full(old(grid), n) && !EqualAlong(old(grid), n, Horizontal(dir))) || (itemMoved && Won(slid, n)))
        && if itemMoved then exists p :: p !in slid && grid == slid[p := 2] else grid == old(grid)
    {
      hide CellOk, SlidBefore, Full, Won, EqualAlong;
      slid := grid;
      if gameOvered {
        return;
      }
      MoveLines(dir);
      slid := grid;
      FullAfterIff(slid, old(grid), n, dir);
      CheckGameOver();
      if itemMoved {
        CheckWin();
        RoomAfter(slid, old(grid), n, dir);
        var p := AddRandom(random);
        assert p !in slid && grid == slid[p := DEFAULT_VALUE];
      }
    }

  }

  lemma OneRowMore(x: nat, n: nat)
    ensures (x + 1) * n == x * n + n
  {
  }

  lemma RoomAfter(g: Grid, before: Grid, n: nat, dir: Direction)
    requires SlidBefore(g, before, n, dir, n) && Within(g, n) && Within(before, n) && g != before
    ensures !Full(g, n)
  {
    MoveLeavesRoom(g, before, n, dir);
  }

  /** Every cell is taken. */
  ghost predicate Full(g: Grid, n: nat) {
    forall x, y :: 0 <= x < n && 0 <= y < n ==> Pos(x, y) in g
  }

  ghost predicate Won(g: Grid, n: nat) {
    exists x, y :: 0 <= x < n && 0 <= y < n && LookUp(g, Pos(x, y)) == Some(2048)
  }

  /** Two equal tiles are next to each other on a row, or in a column. */
  ghost predicate EqualAlong(g: Grid, n: nat, horizontal: bool) {
    if horizontal
    then exists x, y :: 0 <= x < n - 1 && 0 <= y < n && ValueAt(g, x, y) == ValueAt(g, x + 1, y)
    else exists x, y :: 0 <= x < n && 0 <= y < n - 1 && ValueAt(g, x, y) == ValueAt(g, x, y + 1)
  }

  /** Sliding in this direction changes nothing. */
  ghost predicate Stuck(g: Grid, n: nat, dir: Direction) {
    forall c :: 0 <= c < n ==> Slid(LineOf(g, n, dir, c)) == LineOf(g, n, dir, c)
  }

  lemma FullCell(g: Grid, n: nat, dir: Direction, c: nat, k: nat)
    requires Full(g, n) && c < n && k < n
    ensures LineOf(g, n, dir, c)[k] == Some(ValueAt(g, At(dir, c, k, n).x, At(dir, c, k, n).y))
  {
    var p := At(dir, c, k, n);
    assert Pos(p.x, p.y) in g;
  }

  lemma FullLines(g: Grid, n: nat, dir: Direction, c: nat)
    requires Full(g, n) && c < n
    ensures FullLine(LineOf(g, n, dir, c))
  {
    forall k | 0 <= k < n ensures LineOf(g, n, dir, c)[k] != None {
      FullCell(g, n, dir, c, k);
    }
  }

  /** Equal neighbours on a line are equal neighbours on the board. */
  lemma LinePairs(g: Grid, n: nat, dir: Direction, c: nat)
    requires Full(g, n) && c < n && HasPair(LineOf(g, n, dir, c))
    ensures EqualAlong(g, n, Horizontal(dir))
  {
    hide Full, EqualAlong, LineOf, ValueAt, At;
    var line := LineOf(g, n, dir, c);
    var k: nat :| k < n - 1 && line[k] == line[k + 1];
    FullCell(g, n, dir, c, k);
    FullCell(g, n, dir, c, k + 1);
    PairAt(g, n, dir, c, k);
  }

  lemma PairAt(g: Grid, n: nat, dir: Direction, c: nat, k: nat)
    requires c < n && k + 1 < n
    requires var p, q := At(dir, c, k, n), At(dir, c, k + 1, n); ValueAt(g, p.x, p.y) == ValueAt(g, q.x, q.y)
    ensures EqualAlong(g, n, Horizontal(dir))
  {
    hide ValueAt;
    match dir
    case Left => assert ValueAt(g, k, c) == ValueAt(g, k + 1, c);
    case Right => assert ValueAt(g, n - 2 - k, c) == ValueAt(g, n - 2 - k + 1, c);
    case Up => assert ValueAt(g, c, k) == ValueAt(g, c, k + 1);
    case Down => assert ValueAt(g, c, n - 2 - k) == ValueAt(g, c, n - 2 - k + 1);
  }

  lemma BoardPairs(g: Grid, n: nat, dir: Direction) returns (c: nat)
    requires Full(g, n) && EqualAlong(g, n, Horizontal(dir))
    ensures c < n && HasPair(LineOf(g, n, dir, c))
  {
    var x, y;
    if Horizontal(dir) {
      x, y :| 0 <= x < n - 1 && 0 <= y < n && ValueAt(g, x, y) == ValueAt(g, x + 1, y);
      c := y;
    } else {
      x, y :| 0 <= x < n && 0 <= y < n - 1 && ValueAt(g, x, y) == ValueAt(g, x, y + 1);
      c := x;
    }
    hide Full, EqualAlong, LineOf, ValueAt;
    var k := match dir case Left => x case Right => n - 2 - x case Up => y case Down => n - 2 - y;
    FullCell(g, n, dir, c, k);
    FullCell(g, n, dir, c, k + 1);
    assert LineOf(g, n, dir, c)[k] == LineOf(g, n, dir, c)[k + 1];
  }

  /** On a full board a key moves nothing exactly when no neighbours along its lines are equal. */
  lemma StuckIff(g: Grid, n: nat, dir: Direction)
    requires Full(g, n)
    ensures Stuck(g, n, dir) <==> !EqualAlong(g, n, Horizontal(dir))
  {
    hide Full, LineOf, Slid, EqualAlong, HasPair;
    forall c | 0 <= c < n
      ensures Slid(LineOf(g, n, dir, c)) == LineOf(g, n, dir, c) <==> !HasPair(LineOf(g, n, dir, c))
      ensures HasPair(LineOf(g, n, dir, c)) ==> EqualAlong(g, n, Horizontal(dir))
    {
      FullLines(g, n, dir, c);
      FullLineStaysIff(LineOf(g, n, dir, c));
      if HasPair(LineOf(g, n, dir, c)) {
        LinePairs(g, n, dir, c);
      }
    }
    if EqualAlong(g, n, Horizontal(dir)) {
      var c := BoardPairs(g, n, dir);
    }
  }

  /** The board is full after sliding exactly when it was full before and nothing slid. */
  lemma FullAfterIff(g: Grid, before: Grid, n: nat, dir: Direction)
    requires SlidBefore(g, before, n, dir, n) && Within(g, n) && Within(before, n)
    ensures Full(g, n) <==> Full(before, n) && !EqualAlong(before, n, Horizontal(dir))
  {
    hide Slid, LineOf, EqualAlong, Full;
    if Full(g, n) {
      if g != before {
        RoomAfter(g, before, n, dir);
      } else {
        StuckIff(before, n, dir);
      }
    }
    if Full(before, n) && !EqualAlong(before, n, Horizontal(dir)) {
      StuckIff(before, n, dir);
      LinesDetermine(g, before, n, dir);
    }
  }

  /** A key that would change the board. */
  ghost predicate MoveLeft(g: Grid, n: nat) {
    exists dir: Direction :: !Stuck(g, n, dir)
  }

  /** Exactly when the game is declared lost by a key although another key would still move
      something: the board is full, no neighbours along the key's lines are equal, and some
      neighbours across them are. */
  lemma LostTooSoonIff(slid: Grid, before: Grid, n: nat, dir: Direction)
    requires SlidBefore(slid, before, n, dir, n) && Within(slid, n) && Within(before, n)
    ensures Full(slid, n) && MoveLeft(before, n)
            <==> Full(before, n) && !EqualAlong(before, n, Horizontal(dir)) && EqualAlong(before, n, !Horizontal(dir))
  {
    hide SlidBefore, EqualAlong, Full, Stuck;
    FullAfterIff(slid, before, n, dir);
    if Full(before, n) {
      forall d: Direction ensures Stuck(before, n, d) <==> !EqualAlong(before, n, Horizontal(d)) {
        StuckIff(before, n, d);
      }
      assert Horizontal(Left) && !Horizontal(Up);
      assert Stuck(before, n, Left) <==> !EqualAlong(before, n, true);
      assert Stuck(before, n, Up) <==> !EqualAlong(before, n, false);
    }
  }

  /** For instance two rows 2 4 and the key to the left: up would join both columns. */
  lemma OverTooSoon(slid: Grid)
    requires Within(slid, 2)
    requires SlidBefore(slid, map[Pos(0, 0) := 2, Pos(1, 0) := 4, Pos(0, 1) := 2, Pos(1, 1) := 4], 2, Left, 2)
    ensures var g: Grid := map[Pos(0, 0) := 2, Pos(1, 0) := 4, Pos(0, 1) := 2, Pos(1, 1) := 4];
            Full(slid, 2) && MoveLeft(g, 2)
  {
    var g: Grid := map[Pos(0, 0) := 2, Pos(1, 0) := 4, Pos(0, 1) := 2, Pos(1, 1) := 4];
    assert ValueAt(g, 0, 0) == 2 == ValueAt(g, 0, 0 + 1) && ValueAt(g, 1, 0) == 4;
    assert ValueAt(g, 0, 1) == 2 && ValueAt(g, 1, 1) == 4;
    LostTooSoonIff(slid, g, 2, Left);
  }

  lemma JoinedCompact(line: Line, k: nat)
    requires k + 1 < |line| && CompactFrom(line, k + 1) && line[k] != None
    ensures CompactFrom(Joined(line, k), k + 2)
  {
  }

  /** Whatever one of the passes changes, the line ends up changed. */
  lemma PassesMove(start: Line, one: Line, two: Line)
    requires one == Compressed(start) && |two| == |start| && Tiles(two) == Merge(Tiles(one))
    requires two != one ==> |Tiles(two)| < |Tiles(one)|
    ensures Slid(start) == start ==> one == start && two == one
  {
    if Slid(start) == start {
      SlidTiles(start);
      CompactIsFill(start);
    }
  }
}
