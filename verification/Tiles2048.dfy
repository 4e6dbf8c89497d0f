/** One line of the 2048 board as a value, and what a move makes of it. */
module Tiles2048 {
  import opened Basics

  type Line = seq<Option<nat>>

  /** The tiles of a line, from the edge moved to. */
  function Tiles(line: Line): seq<nat> {
    if line == [] then [] else Here(line[0]) + Tiles(line[1..])
  }

  function Here(cell: Option<nat>): seq<nat> {
    match cell
    case None => []
    case Some(v) => [v]
  }

  /** Equal neighbours join, each tile at most once, beginning at the edge moved to. */
  function Merge(ts: seq<nat>): seq<nat>
    decreases |ts|
  {
    if |ts| >= 2 && ts[0] == ts[1] then [2 * ts[0]] + Merge(ts[2..])
    else if ts == [] then []
    else [ts[0]] + Merge(ts[1..])
  }

  /** `n` cells with the tiles at the edge. */
  /** Tiles of which no two neighbours across a seam are equal are joined on either side of it. */
  lemma {:induction false} MergeSplits(a: seq<nat>, b: seq<nat>)
    requires a != [] && b != [] ==> a[|a| - 1] != b[0]
    ensures Merge(a + b) == Merge(a) + Merge(b)
    decreases |a|
  {
    if a == [] {
      assert a + b == b;
    } else if |a| >= 2 && a[0] == a[1] {
      var v, more := a[0], a[2..];
      MergeSplits(more, b);
      MergeTwo(v, more);
      MergeTwo(v, more + b);
      hide Merge;
      assert a == [v, v] + more;
      Assoc([v, v], more, b);
      Assoc([2 * v], Merge(more), Merge(b));
    } else {
      var v, more := a[0], a[1..];
      MergeSplits(more, b);
      MergeOne(v, more);
      MergeOne(v, more + b);
      hide Merge;
      assert a == [v] + more;
      Assoc([v], more, b);
      Assoc([v], Merge(more), Merge(b));
    }
  }

  function Times(v: nat, n: nat): (ts: seq<nat>)
    ensures |ts| == n && forall i :: 0 <= i < n ==> ts[i] == v
  {
    seq(n, _ => v)
  }

  /** Equal tiles in a row are joined in pairs, and one is left over if their number is odd.
      With `MergeSplits` this says what becomes of any tiles: they are equal runs. */
  lemma {:induction false} RunMerges(v: nat, n: nat)
    ensures Merge(Times(v, n)) == Times(2 * v, n / 2) + Times(v, n % 2)
  {
    if n >= 2 {
      var m := n - 2;
      RunMerges(v, m);
      TimesMore(v, 2, m);
      TimesMore(2 * v, 1, m / 2);
      TimesFew(v);
      TimesFew(2 * v);
      MergeTwo(v, Times(v, m));
      hide Times, Merge;
      Assoc([2 * v], Times(2 * v, m / 2), Times(v, n % 2));
    } else {
      TimesFew(v);
      TimesFew(2 * v);
      hide Times;
      assert Merge([v]) == [v] + Merge([]);
    }
  }

  lemma TimesMore(v: nat, n: nat, m: nat)
    ensures Times(v, n) + Times(v, m) == Times(v, n + m)
  {
  }

  lemma TimesFew(v: nat)
    ensures Times(v, 0) == [] && Times(v, 1) == [v] && Times(v, 2) == [v, v]
  {
  }

  /** Where a slide leaves what: the joined tiles from the edge on, and gaps behind them. */
  lemma SlidMeans(line: Line, i: nat)
    requires i < |line|
    ensures |Slid(line)| == |line|
    ensures var ts := Merge(Tiles(line)); Slid(line)[i] == if i < |ts| then Some(ts[i]) else None
  {
  }

  /** A gap holds no tile, and an item one; with `TilesJoin` this gives the tiles of any line. */
  lemma OneCell(v: nat)
    ensures Tiles([None]) == [] && Tiles([Some(v)]) == [v] && Tiles([]) == []
  {
    assert Tiles([Some(v)]) == Here(Some(v)) + Tiles([]);
  }

  function Fill(ts: seq<nat>, n: nat): (line: Line)
    requires |ts| <= n
    ensures |line| == n
  {
    seq(n, i requires 0 <= i < n => if i < |ts| then Some(ts[i]) else None)
  }

  function Slid(line: Line): Line {
    TilesFit(line);
    MergeShortens(Tiles(line));
    Fill(Merge(Tiles(line)), |line|)
  }

  function Compressed(line: Line): Line {
    TilesFit(line);
    Fill(Tiles(line), |line|)
  }

  function Sum(ts: seq<nat>): nat {
    if ts == [] then 0 else ts[0] + Sum(ts[1..])
  }

  /** No gap before a tile, from position `k` on. */
  predicate CompactFrom(line: Line, k: nat) {
    forall i :: k <= i < |line| - 1 && line[i] == None ==> line[i + 1] == None
  }

  lemma {:induction false} TilesFit(line: Line)
    ensures |Tiles(line)| <= |line|
  {
    if line != [] {
      TilesFit(line[1..]);
    }
  }

  lemma {:induction false} MergeShortens(ts: seq<nat>)
    ensures |Merge(ts)| <= |ts|
    ensures Merge(ts) != ts ==> |Merge(ts)| < |ts|
    decreases |ts|
  {
    if |ts| >= 2 && ts[0] == ts[1] {
      MergeShortens(ts[2..]);
    } else if ts != [] {
      MergeShortens(ts[1..]);
      assert ts == [ts[0]] + ts[1..];
    }
  }

  /** Joining tiles keeps their sum. */
  lemma {:induction false} MergeConserves(ts: seq<nat>)
    ensures Sum(Merge(ts)) == Sum(ts)
    decreases |ts|
  {
    if |ts| >= 2 && ts[0] == ts[1] {
      MergeConserves(ts[2..]);
      var rest := Merge(ts[2..]);
      assert Merge(ts) == [2 * ts[0]] + rest;
      assert Merge(ts)[1..] == rest;
      assert ts[1..][1..] == ts[2..];
    } else if ts != [] {
      MergeConserves(ts[1..]);
      var rest := Merge(ts[1..]);
      assert Merge(ts) == [ts[0]] + rest;
      assert Merge(ts)[1..] == rest;
    }
  }

  lemma {:induction false} TilesJoin(a: Line, b: Line)
    ensures Tiles(a + b) == Tiles(a) + Tiles(b)
  {
    if a == [] {
      assert a + b == b;
      Assoc([], [], Tiles(b));
    } else {
      TilesJoin(a[1..], b);
      assert (a + b)[1..] == a[1..] + b;
      Assoc(Here(a[0]), Tiles(a[1..]), Tiles(b));
    }
  }

  lemma {:induction false} NoTiles(line: Line)
    requires forall i :: 0 <= i < |line| ==> line[i] == None
    ensures Tiles(line) == []
  {
    if line != [] {
      NoTiles(line[1..]);
    }
  }

  /** The tiles of a filled line are those it was filled with. */
  lemma {:induction false} TilesOfFill(ts: seq<nat>, n: nat)
    requires |ts| <= n
    ensures Tiles(Fill(ts, n)) == ts && CompactFrom(Fill(ts, n), 0)
  {
    if ts == [] {
      NoTiles(Fill(ts, n));
    } else {
      TilesOfFill(ts[1..], n - 1);
      assert Fill(ts, n)[1..] == Fill(ts[1..], n - 1);
      assert ts == [ts[0]] + ts[1..];
    }
  }

  lemma {:induction false} GapThenNothing(line: Line, k: nat)
    requires k < |line| && line[k] == None && CompactFrom(line, k)
    ensures forall i :: k <= i < |line| ==> line[i] == None
    decreases |line| - k
  {
    if k + 1 < |line| {
      GapThenNothing(line, k + 1);
    }
  }

  /** A line without gaps is determined by its tiles. */
  lemma {:induction false} CompactIsFill(line: Line)
    requires CompactFrom(line, 0)
    ensures line == Compressed(line)
  {
    TilesFit(line);
    if line != [] {
      match line[0]
      case None =>
        GapThenNothing(line, 0);
        NoTiles(line);
      case Some(v) =>
        forall i | 0 <= i < |line[1..]| - 1 && line[1..][i] == None ensures line[1..][i + 1] == None {
          assert line[1..][i] == line[i + 1];
        }
        CompactIsFill(line[1..]);
        assert Tiles(line) == [v] + Tiles(line[1..]);
        forall i | 0 <= i < |line| ensures line[i] == Compressed(line)[i] {
          if i > 0 {
            assert line[i] == line[1..][i - 1] == Compressed(line[1..])[i - 1];
          }
        }
    }
  }

  /** A line that a move changes has an empty cell afterwards, at the far edge. */
  lemma ChangeLeavesRoom(line: Line)
    requires Slid(line) != line
    ensures line != [] && Slid(line)[|line| - 1] == None
  {
    TilesFit(line);
    MergeShortens(Tiles(line));
    if |Tiles(line)| == |line| && Merge(Tiles(line)) == Tiles(line) {
      AllTiles(line);
      CompactIsFill(line);
    }
  }

  lemma {:induction false} AllTiles(line: Line)
    requires |Tiles(line)| == |line|
    ensures forall i :: 0 <= i < |line| ==> line[i] != None
  {
    if line != [] {
      TilesFit(line[1..]);
      AllTiles(line[1..]);
      assert forall i :: 1 <= i < |line| ==> line[i] == line[1..][i - 1];
    }
  }

  /** A move keeps the sum of a line. */
  lemma SlidConserves(line: Line)
    ensures Sum(Tiles(Slid(line))) == Sum(Tiles(line))
  {
    TilesFit(line);
    MergeShortens(Tiles(line));
    TilesOfFill(Merge(Tiles(line)), |line|);
    MergeConserves(Tiles(line));
  }

  // ---- single changes of a line ----

  /** The tile at `i + 1` moves into the gap at `i`. */
  function Dragged(line: Line, i: nat): Line
    requires i + 1 < |line|
  {
    line[i := line[i + 1]][i + 1 := None]
  }

  /** The equal tiles at `i` and `i + 1` become one. */
  function Joined(line: Line, i: nat): Line
    requires i + 1 < |line| && line[i] != None
  {
    line[i := Some(2 * line[i].value)][i + 1 := None]
  }

  lemma AroundTwo(line: Line, i: nat, a: Option<nat>, b: Option<nat>)
    requires i + 1 < |line| && line[i] == a && line[i + 1] == b
    ensures Tiles(line) == Tiles(line[..i]) + ((Here(a) + Here(b)) + Tiles(line[i + 2..]))
  {
    hide Tiles, Here;
    CutTwo(line, i);
    TilesJoin(line[..i], line[i..]);
    TilesJoin([a, b], line[i + 2..]);
    TwoTiles(a, b);
  }

  lemma CutTwo(line: Line, i: nat)
    requires i + 1 < |line|
    ensures line[..i] + line[i..] == line && [line[i], line[i + 1]] + line[i + 2..] == line[i..]
  {
  }

  lemma TwoTiles(a: Option<nat>, b: Option<nat>)
    ensures Tiles([a, b]) == Here(a) + Here(b)
  {
    assert [a, b][1..] == [b];
    assert [b][1..] == [];
    assert Tiles([b]) == Here(b) + Tiles([]);
  }

  lemma DraggedTiles(line: Line, i: nat)
    requires i + 1 < |line| && line[i] == None
    ensures Tiles(Dragged(line, i)) == Tiles(line)
  {
    DraggedCells(line, i);
    OutsideSame(line, Dragged(line, i), i);
    hide Tiles, Dragged;
    AroundTwo(line, i, None, line[i + 1]);
    AroundTwo(Dragged(line, i), i, line[i + 1], None);
    assert Here(None) + Here(line[i + 1]) == Here(line[i + 1]) + Here(None);
  }

  lemma DraggedCells(line: Line, i: nat)
    requires i + 1 < |line|
    ensures Dragged(line, i)[i] == line[i + 1] && Dragged(line, i)[i + 1] == None
  {
  }

  /** Lines that differ only at `i` and `i + 1`. */
  lemma OutsideSame(line: Line, next: Line, i: nat)
    requires i + 1 < |line| == |next| && forall j :: 0 <= j < |line| && j != i && j != i + 1 ==> next[j] == line[j]
    ensures next[..i] == line[..i] && next[i + 2..] == line[i + 2..]
  {
  }

  /** What the cells up to `k` hold already, and what the ones from `k` on will become. */
  function Half(line: Line, k: nat): seq<nat>
    requires k <= |line|
  {
    Tiles(line[..k]) + Merge(Tiles(line[k..]))
  }

  lemma SplitCell(line: Line, k: nat)
    requires k < |line|
    ensures Tiles(line[..k + 1]) == Tiles(line[..k]) + Tiles([line[k]])
    ensures Tiles(line[k..]) == Tiles([line[k]]) + Tiles(line[k + 1..])
  {
    assert line[..k + 1] == line[..k] + [line[k]];
    assert line[k..] == [line[k]] + line[k + 1..];
    TilesJoin(line[..k], [line[k]]);
    TilesJoin([line[k]], line[k + 1..]);
  }

  lemma OneTile(a: Option<nat>)
    ensures Tiles([a]) == if a.Some? then [a.value] else []
  {
    assert [a][1..] == [];
  }

  lemma MergeTwo(v: nat, more: seq<nat>)
    ensures Merge([v, v] + more) == [2 * v] + Merge(more)
  {
    assert ([v, v] + more)[2..] == more;
  }

  lemma MergeOne(v: nat, more: seq<nat>)
    requires more == [] || more[0] != v
    ensures Merge([v] + more) == [v] + Merge(more)
  {
    assert ([v] + more)[1..] == more;
  }

  lemma Assoc(a: seq<nat>, b: seq<nat>, c: seq<nat>)
    ensures (a + b) + c == a + (b + c) && [] + c == c && a + [] == a
  {
  }

  /** A join at `k` is the next step of the merge. */
  lemma JoinedHalf(line: Line, k: nat)
    requires k + 1 < |line| && line[k] != None && line[k] == line[k + 1]
    ensures Half(Joined(line, k), k + 1) == Half(line, k)
  {
    hide Tiles, Merge;
    var next, v := Joined(line, k), line[k].value;
    var before, more := Tiles(line[..k]), Tiles(line[k + 2..]);
    SplitCell(next, k);
    SplitCell(next, k + 1);
    SplitCell(line, k);
    SplitCell(line, k + 1);
    OneTile(next[k]);
    OneTile(next[k + 1]);
    OneTile(line[k]);
    OutsideSame(line, next, k);
    Assoc([], [], more);
    Assoc([v], [v], more);
    assert [v] + [v] == [v, v];
    MergeTwo(v, more);
    Assoc(before, [2 * v], Merge(more));
  }

  lemma JoinedFewer(line: Line, k: nat)
    requires k + 1 < |line| && line[k] != None && line[k + 1] != None
    ensures |Tiles(Joined(line, k))| < |Tiles(line)|
  {
    var next := Joined(line, k);
    AroundTwo(line, k, line[k], line[k + 1]);
    AroundTwo(next, k, next[k], None);
    OutsideSame(line, next, k);
    hide Tiles;
  }

  /** Where nothing joins, the cell at `k` stays as it is. */
  lemma StaysHalf(line: Line, k: nat)
    requires k + 1 < |line| && CompactFrom(line, k + 1) && (line[k] == None || line[k] != line[k + 1])
    ensures Half(line, k + 1) == Half(line, k)
  {
    var rest, before := Tiles(line[k + 1..]), Tiles(line[..k]);
    SplitCell(line, k);
    OneTile(line[k]);
    SplitCell(line, k + 1);
    OneTile(line[k + 1]);
    Assoc(before, [], rest);
    if line[k] != None {
      if line[k + 1] == None {
        GapThenNothing(line, k + 1);
        NoTiles(line[k + 1..]);
      }
      MergeOne(line[k].value, rest);
      Assoc(before, [line[k].value], Merge(rest));
    }
  }

  // ---- closing the gaps ----

  predicate CompactUpTo(line: Line, k: nat)
    requires k <= |line|
  {
    forall i :: 0 <= i < k - 1 && line[i] == None ==> line[i + 1] == None
  }

  /** The tile that was at `k` has come down to `i + 1`, or was held up further on. */
  predicate Settling(line: Line, i: int, k: nat)
    requires -1 <= i < k < |line|
  {
    && line[i + 1] != None && CompactUpTo(line, i + 1)
    && (i >= 0 && line[i] == None ==> forall j :: i + 1 < j <= k ==> line[j] == None)
    && (forall j :: i + 1 <= j < k && line[j] == None ==> line[j + 1] == None)
  }

  lemma SettlingDrags(line: Line, i: nat, k: nat)
    requires i < k < |line| && Settling(line, i, k) && line[i] == None
    ensures Settling(Dragged(line, i), i - 1, k) && !CompactFrom(line, 0)
  {
  }

  lemma SettlingStays(line: Line, i: nat, k: nat)
    requires i < k < |line| && Settling(line, i, k) && line[i] != None
    ensures Settling(line, i - 1, k)
  {
  }

  lemma Settled(line: Line, k: nat)
    requires k < |line| && Settling(line, -1, k)
    ensures CompactUpTo(line, k + 1)
  {
  }

  lemma CompactIsCompressed(line: Line, start: Line)
    requires |line| == |start| && CompactFrom(line, 0) && Tiles(line) == Tiles(start)
    ensures line == Compressed(start)
  {
    CompactIsFill(line);
  }

  lemma JoinDone(line: Line, ts: seq<nat>)
    requires line != [] && Half(line, |line| - 1) == Merge(ts)
    ensures Tiles(line) == Merge(ts)
  {
    hide Tiles, Merge;
    var k := |line| - 1;
    SplitCell(line, k);
    assert line[..k + 1] == line && line[k..] == [line[k]];
    MergeLast(line[k]);
  }

  lemma MergeLast(a: Option<nat>)
    ensures Merge(Tiles([a])) == Tiles([a])
  {
    OneTile(a);
  }

  lemma JoinStarts(line: Line)
    ensures Half(line, 0) == Merge(Tiles(line))
  {
    assert line[0..] == line && line[..0] == [];
  }

  /** Closing gaps, joining and closing gaps again slides the line. */
  lemma ThreePasses(start: Line, joined: Line)
    requires |joined| == |start| && Tiles(joined) == Merge(Tiles(start))
    ensures Compressed(joined) == Slid(start)
  {
  }

  lemma CompressedTiles(line: Line)
    ensures Tiles(Compressed(line)) == Tiles(line) && CompactFrom(Compressed(line), 0)
  {
    TilesFit(line);
    TilesOfFill(Tiles(line), |line|);
  }

  lemma SlidTiles(line: Line)
    ensures Tiles(Slid(line)) == Merge(Tiles(line)) && CompactFrom(Slid(line), 0)
  {
    TilesFit(line);
    MergeShortens(Tiles(line));
    TilesOfFill(Merge(Tiles(line)), |line|);
  }

  // ---- lines that a move leaves alone ----

  predicate FullLine(line: Line) {
    forall i :: 0 <= i < |line| ==> line[i] != None
  }

  /** Two neighbours are equal. */
  ghost predicate HasPair<T>(s: seq<T>) {
    exists i :: 0 <= i < |s| - 1 && s[i] == s[i + 1]
  }

  lemma {:induction false} MergeKeepsIff(ts: seq<nat>)
    ensures Merge(ts) == ts <==> !HasPair(ts)
    decreases |ts|
  {
    MergeShortens(ts);
    if |ts| >= 2 && ts[0] == ts[1] {
      MergeShortens(ts[2..]);
      assert HasPair(ts);
    } else if ts != [] {
      var rest := ts[1..];
      MergeKeepsIff(rest);
      assert ts == [ts[0]] + rest && (Merge(ts) == ts <==> Merge(rest) == rest);
      if HasPair(ts) {
        var i :| 0 <= i < |ts| - 1 && ts[i] == ts[i + 1];
        assert rest[i - 1] == rest[i - 1 + 1];
      }
      if HasPair(rest) {
        var i :| 0 <= i < |rest| - 1 && rest[i] == rest[i + 1];
        assert ts[i + 1] == ts[i + 1 + 1];
      }
    }
  }

  lemma {:induction false} FullLineTiles(line: Line)
    requires FullLine(line)
    ensures |Tiles(line)| == |line| && forall i :: 0 <= i < |line| ==> line[i] == Some(Tiles(line)[i])
  {
    if line != [] {
      var rest := line[1..];
      FullLineTiles(rest);
      assert line[0] != None && Tiles(line) == [line[0].value] + Tiles(rest);
      assert forall i :: 1 <= i < |line| ==> line[i] == rest[i - 1];
    }
  }

  /** A full line stays as it is exactly when no two neighbours are equal. */
  lemma FullLineStaysIff(line: Line)
    requires FullLine(line)
    ensures Slid(line) == line <==> !HasPair(line)
  {
    var ts := Tiles(line);
    FullLineTiles(line);
    MergeKeepsIff(ts);
    MergeShortens(ts);
    SlidTiles(line);
    hide Merge, Tiles;
    assert Merge(ts) == ts ==> Slid(line) == line;
    if HasPair(ts) {
      var i :| 0 <= i < |ts| - 1 && ts[i] == ts[i + 1];
      assert line[i] == line[i + 1];
    }
    if HasPair(line) {
      var i :| 0 <= i < |line| - 1 && line[i] == line[i + 1];
      assert ts[i] == ts[i + 1];
    }
  }
}
