/** Line clearing: every interior occupied cell starts a forward scan to the right and
    a forward scan downward; a scan that sees four cells of one colour in a row marks
    them, and all marked cells are emptied together. Viruses match like blocks. */
module Clearing {
  import opened Wrappers
  import opened Positions
  import opened Blocks
  import opened Grids

  /** (x, y) is inside the arena and holds a cell of colour c. */
  predicate Matches(g: Grid, x: int, y: int, c: string)
    requires WellShaped(g)
  {
    Inside(|g|, Height(g), Position(x, y)) && g[x][y].Some? && g[x][y].value.color == c
  }

  /** The cell at (x, y) is occupied and the next three cells in direction (dx, dy)
      hold its colour. */
  predicate RunAt(g: Grid, x: int, y: int, dx: int, dy: int)
    requires WellShaped(g) && Inside(|g|, Height(g), Position(x, y))
  {
    g[x][y].Some? &&
    var c := g[x][y].value.color;
    Matches(g, x + dx, y + dy, c) && Matches(g, x + 2 * dx, y + 2 * dy, c) && Matches(g, x + 3 * dx, y + 3 * dy, c)
  }

  /** The four cells of a run starting at (x, y). */
  function RunCells(x: int, y: int, dx: int, dy: int): set<Position>
  {
    {Position(x, y), Position(x + dx, y + dy), Position(x + 2 * dx, y + 2 * dy), Position(x + 3 * dx, y + 3 * dy)}
  }

  /** What checkDirection adds for the start (x, y) and direction (dx, dy). */
  function DirectionMarks(g: Grid, x: int, y: int, dx: int, dy: int): set<Position>
    requires WellShaped(g) && Inside(|g|, Height(g), Position(x, y))
  {
    if RunAt(g, x, y, dx, dy) then RunCells(x, y, dx, dy) else {}
  }

  /** What the two scans from one start cell mark: nothing for an empty cell. */
  function StartMarks(g: Grid, x: int, y: int): set<Position>
    requires WellShaped(g) && Inside(|g|, Height(g), Position(x, y))
  {
    if g[x][y].None? then {} else DirectionMarks(g, x, y, 1, 0) + DirectionMarks(g, x, y, 0, 1)
  }

  /** The union of the first n sets of ss. */
  function UnionUpTo(ss: seq<set<Position>>, n: int): set<Position>
    requires 0 <= n <= |ss|
    decreases n
  {
    if n == 0 then {} else UnionUpTo(ss, n - 1) + ss[n - 1]
  }

  /** What the scan of row y marks, start by start: the marks of (x, y) for an
      interior x, nothing for the wall columns. */
  function RowStarts(g: Grid, y: int): (r: seq<set<Position>>)
    requires WellShaped(g) && 0 <= y < Height(g)
    ensures |r| == |g|
  {
    seq(|g|, x requires 0 <= x < |g| => if 1 <= x < |g| - 1 then StartMarks(g, x, y) else {})
  }

  /** What the scan marks, row by row: the marks of all starts of an interior row,
      nothing for the wall rows. */
  function RowSets(g: Grid): (r: seq<set<Position>>)
    requires WellShaped(g)
    ensures |r| == Height(g)
  {
    seq(Height(g), y requires 0 <= y < Height(g) => if 1 <= y < Height(g) - 1 then UnionUpTo(RowStarts(g, y), |g|) else {})
  }

  /** The set checkAndClearLines removes. */
  function Marked(g: Grid): set<Position>
    requires WellShaped(g)
  {
    UnionUpTo(RowSets(g), Height(g))
  }

  /** A run of four starting at an interior cell, in one of the two scan directions. */
  predicate InRun(g: Grid, p: Position, s: Position, horizontal: bool)
    requires WellShaped(g)
  {
    var dx := if horizontal then 1 else 0;
    var dy := if horizontal then 0 else 1;
    Interior(|g|, Height(g), s) && RunAt(g, s.x, s.y, dx, dy) && p in RunCells(s.x, s.y, dx, dy)
  }

  /** The marks of one start cell are the cells of the runs starting there. */
  lemma StartMarksMeaning(g: Grid, x: int, y: int, p: Position)
    requires WellShaped(g) && Interior(|g|, Height(g), Position(x, y))
    ensures p in StartMarks(g, x, y) <==>
            InRun(g, p, Position(x, y), true) || InRun(g, p, Position(x, y), false)
  {
  }

  /** A member of the union is a member of one of its sets, whose index is returned. */
  lemma {:induction false} UnionMember(ss: seq<set<Position>>, n: int, p: Position) returns (k: int)
    requires 0 <= n <= |ss| && p in UnionUpTo(ss, n)
    ensures 0 <= k < n && p in ss[k]
    decreases n
  {
    if p in UnionUpTo(ss, n - 1) {
      k := UnionMember(ss, n - 1, p);
    } else {
      k := n - 1;
    }
  }

  /** Every member of one of the first n sets is in their union. */
  lemma {:induction false} MemberUnion(ss: seq<set<Position>>, n: int, k: int, p: Position)
    requires 0 <= k < n <= |ss| && p in ss[k]
    ensures p in UnionUpTo(ss, n)
    decreases n
  {
    if k < n - 1 {
      MemberUnion(ss, n - 1, k, p);
    }
  }

  /** Empty sets from index lo on add nothing to the union. */
  lemma {:induction false} UnionEmptyTail(ss: seq<set<Position>>, lo: int, n: int)
    requires 0 <= lo <= n <= |ss|
    requires forall k :: lo <= k < n ==> ss[k] == {}
    ensures UnionUpTo(ss, n) == UnionUpTo(ss, lo)
    decreases n
  {
    if lo < n {
      UnionEmptyTail(ss, lo, n - 1);
    }
  }

  /** A removed cell lies in the run of some interior start s, which is returned. */
  lemma MarkedSound(g: Grid, p: Position) returns (s: Position)
    requires WellShaped(g) && p in Marked(g)
    ensures Interior(|g|, Height(g), s) && p in StartMarks(g, s.x, s.y)
  {
    var y := UnionMember(RowSets(g), Height(g), p);
    assert 1 <= y < Height(g) - 1;
    var x := UnionMember(RowStarts(g, y), |g|, p);
    assert 1 <= x < |g| - 1;
    s := Position(x, y);
  }

  /** The marks of every interior start are removed. */
  lemma MarkedComplete(g: Grid, p: Position, s: Position)
    requires WellShaped(g) && Interior(|g|, Height(g), s) && p in StartMarks(g, s.x, s.y)
    ensures p in Marked(g)
  {
    MemberUnion(RowStarts(g, s.y), |g|, s.x, p);
    MemberUnion(RowSets(g), Height(g), s.y, p);
  }

  /** A cell is removed exactly when it lies in a run of four same-coloured cells
      going right or going down from an interior cell. */
  lemma MarkedMeaning(g: Grid, p: Position)
    requires WellShaped(g)
    ensures p in Marked(g) <==> exists s: Position, horizontal :: InRun(g, p, s, horizontal)
  {
    if p in Marked(g) {
      var s := MarkedSound(g, p);
      StartMarksMeaning(g, s.x, s.y, p);
      if InRun(g, p, s, true) {
        assert InRun(g, p, s, true);
      } else {
        assert InRun(g, p, s, false);
      }
    }
    if exists s: Position, horizontal :: InRun(g, p, s, horizontal) {
      var s: Position, horizontal :| InRun(g, p, s, horizontal);
      assert Interior(|g|, Height(g), s);
      StartMarksMeaning(g, s.x, s.y, p);
      MarkedComplete(g, p, s);
    }
  }

  /** Every removed cell is inside the arena and occupied. */
  lemma MarkedAreOccupied(g: Grid, p: Position)
    requires WellShaped(g) && p in Marked(g)
    ensures Inside(|g|, Height(g), p) && g[p.x][p.y].Some?
  {
    MarkedMeaning(g, p);
  }

  /** A horizontal run of any length >= 4 whose cells are all interior is removed
      entirely: each of its cells lies in the window of four starting at
      min(cell, last - 3). Longer runs are found from several starts. */
  lemma LongRowRunRemoved(g: Grid, y: int, a: int, b: int, c: string, x: int)
    requires WellShaped(g) && 1 <= y < Height(g) - 1 && 1 <= a && b < |g| - 1 && b - a >= 3
    requires forall i :: a <= i <= b ==> Matches(g, i, y, c)
    requires a <= x <= b
    ensures Position(x, y) in Marked(g)
  {
    var sx := if x <= b - 3 then x else b - 3;
    assert Matches(g, sx, y, c) && Matches(g, sx + 1, y, c) && Matches(g, sx + 2, y, c) && Matches(g, sx + 3, y, c);
    assert InRun(g, Position(x, y), Position(sx, y), true);
    MarkedMeaning(g, Position(x, y));
  }

  /** The same for a vertical run. */
  lemma LongColumnRunRemoved(g: Grid, x: int, a: int, b: int, c: string, y: int)
    requires WellShaped(g) && 1 <= x < |g| - 1 && 1 <= a && b < Height(g) - 1 && b - a >= 3
    requires forall i :: a <= i <= b ==> Matches(g, x, i, c)
    requires a <= y <= b
    ensures Position(x, y) in Marked(g)
  {
    var sy := if y <= b - 3 then y else b - 3;
    assert Matches(g, x, sy, c) && Matches(g, x, sy + 1, c) && Matches(g, x, sy + 2, c) && Matches(g, x, sy + 3, c);
    assert InRun(g, Position(x, y), Position(x, sy), false);
    MarkedMeaning(g, Position(x, y));
  }

  /** A scan from (x, y) that met i cells of colour c and then, unless i is 4, a cell
      of another colour finds a run exactly when i is 4. */
  lemma ScanResult(g: Grid, x: int, y: int, dx: int, dy: int, i: int, c: string)
    requires WellShaped(g) && Inside(|g|, Height(g), Position(x, y))
    requires (dx == 1 && dy == 0) || (dx == 0 && dy == 1)
    requires g[x][y].Some? && g[x][y].value.color == c && 1 <= i <= 4
    requires forall k :: 0 <= k < i ==> Matches(g, x + k * dx, y + k * dy, c)
    requires i < 4 ==> !Matches(g, x + i * dx, y + i * dy, c)
    ensures RunAt(g, x, y, dx, dy) <==> i == 4
  {
    if i == 4 {
      assert Matches(g, x + 1 * dx, y + 1 * dy, c) && Matches(g, x + 2 * dx, y + 2 * dy, c) && Matches(g, x + 3 * dx, y + 3 * dy, c);
    } else if i == 1 {
      assert !Matches(g, x + 1 * dx, y + 1 * dy, c);
    } else if i == 2 {
      assert !Matches(g, x + 2 * dx, y + 2 * dy, c);
    } else {
      assert !Matches(g, x + 3 * dx, y + 3 * dy, c);
    }
  }

  /** checkDirection: collect the start and up to three further cells of its colour in
      direction (dx, dy); add them to the marks when there are four. */
  method CheckDirection(m: array2<Cell>, ghost g: Grid, toRemove: set<Position>, x: int, y: int, dx: int, dy: int)
    returns (marks: set<Position>)
    requires Tie(m, g) && WellShaped(g) && Inside(|g|, Height(g), Position(x, y)) && g[x][y].Some?
    requires (dx == 1 && dy == 0) || (dx == 0 && dy == 1)
    ensures marks == toRemove + DirectionMarks(g, x, y, dx, dy)
  {
    var targetColor := m[x, y].value.color;
    var line := [Position(x, y)];
    var i := 1;
    while i <= 3
      invariant 1 <= i <= 4 && |line| == i
      invariant forall k :: 0 <= k < i ==> line[k] == Position(x + k * dx, y + k * dy) && Matches(g, x + k * dx, y + k * dy, targetColor)
    {
      var nextX := x + i * dx;
      var nextY := y + i * dy;
      if !(0 <= nextX < m.Length0 && 0 <= nextY < m.Length1) {
        assert !Matches(g, nextX, nextY, targetColor);
        break;
      }
      var next := m[nextX, nextY];
      if next.None? || next.value.color != targetColor {
        assert !Matches(g, nextX, nextY, targetColor);
        break;
      }
      line := line + [Position(nextX, nextY)];
      i := i + 1;
    }
    ScanResult(g, x, y, dx, dy, i, targetColor);
    if |line| >= 4 {
      assert line[1] == Position(x + dx, y + dy) && line[2] == Position(x + 2 * dx, y + 2 * dy) && line[3] == Position(x + 3 * dx, y + 3 * dy);
      marks := toRemove + {line[0], line[1], line[2], line[3]};
    } else {
      marks := toRemove;
    }
  }

  /** The scan of checkAndClearLines: rows 1 .. height-2, in each row columns 1 .. width-2. */
  method MarkRuns(m: array2<Cell>, ghost g: Grid) returns (toRemove: set<Position>)
    requires Tie(m, g) && WellShaped(g)
    ensures toRemove == Marked(g)
  {
    var width := m.Length0;
    var height := m.Length1;
    ghost var scanned := width >= 1 && height >= 1;
    assert scanned ==> Height(g) == height;
    toRemove := {};
    var y := 1;
    while y < height - 1
      invariant 1 <= y && (height >= 1 ==> y <= height)
      invariant toRemove == if scanned then UnionUpTo(RowSets(g), y) else {}
    {
      ghost var before := toRemove;
      var x := 1;
      while x < width - 1
        invariant 1 <= x && (width >= 1 ==> x <= width)
        invariant toRemove == if scanned then before + UnionUpTo(RowStarts(g, y), x) else before
      {
        ghost var prev := toRemove;
        ghost var mid := toRemove;
        if m[x, y].Some? {
          toRemove := CheckDirection(m, g, toRemove, x, y, 1, 0);
          mid := toRemove;
          toRemove := CheckDirection(m, g, toRemove, x, y, 0, 1);
        }
        CellDone(g, y, x, before, prev, mid, toRemove);
        x := x + 1;
      }
      if scanned {
        RowDone(g, y, x, before, toRemove);
      }
      y := y + 1;
    }
    ScanDone(g, height, y, scanned, toRemove);
  }

  /** Bookkeeping of MarkRuns after one start cell. */
  lemma CellDone(g: Grid, y: int, x: int, before: set<Position>, prev: set<Position>, mid: set<Position>, after: set<Position>)
    requires WellShaped(g) && 1 <= y < Height(g) - 1 && 1 <= x < |g| - 1
    requires prev == before + UnionUpTo(RowStarts(g, y), x)
    requires g[x][y].None? ==> after == prev
    requires g[x][y].Some? ==> mid == prev + DirectionMarks(g, x, y, 1, 0) && after == mid + DirectionMarks(g, x, y, 0, 1)
    ensures after == before + UnionUpTo(RowStarts(g, y), x + 1)
  {
    assert RowStarts(g, y)[x] == StartMarks(g, x, y);
  }

  /** Bookkeeping of MarkRuns at the end of a row. */
  lemma RowDone(g: Grid, y: int, x: int, before: set<Position>, after: set<Position>)
    requires WellShaped(g) && 1 <= y < Height(g) - 1
    requires 1 <= x <= |g| && x >= |g| - 1
    requires before == UnionUpTo(RowSets(g), y)
    requires after == before + UnionUpTo(RowStarts(g, y), x)
    ensures after == UnionUpTo(RowSets(g), y + 1)
  {
    var ss := RowStarts(g, y);
    var lo := if x == 1 then 0 else x;
    assert forall k :: lo <= k < |g| ==> ss[k] == {};
    UnionEmptyTail(ss, lo, |g|);
    UnionEmptyTail(ss, lo, x);
    assert RowSets(g)[y] == UnionUpTo(ss, |g|);
  }

  /** Bookkeeping of MarkRuns at the end of the scan. */
  lemma ScanDone(g: Grid, height: int, y: int, scanned: bool, marks: set<Position>)
    requires WellShaped(g) && height >= 0 && scanned == (|g| >= 1 && height >= 1) && (scanned ==> Height(g) == height)
    requires (|g| == 0 ==> Height(g) == 0) && (height == 0 ==> Height(g) == 0)
    requires 1 <= y && (height >= 1 ==> y <= height) && y >= height - 1
    requires marks == if scanned then UnionUpTo(RowSets(g), y) else {}
    ensures marks == Marked(g)
  {
    if scanned {
      UnionEmptyTail(RowSets(g), y, Height(g));
    }
  }

  /** The grid with every cell of `s` emptied. */
  function ClearCells(g: Grid, s: set<Position>): (r: Grid)
    requires WellShaped(g)
    ensures WellShaped(r) && |r| == |g| && Height(r) == Height(g)
    ensures forall x, y :: 0 <= x < |g| && 0 <= y < Height(g) ==>
      r[x][y] == if Position(x, y) in s then None else g[x][y]
  {
    seq(|g|, x requires 0 <= x < |g| => seq(Height(g), y requires 0 <= y < Height(g) => if Position(x, y) in s then None else g[x][y]))
  }

  /** The loop of removeMarkedBlocks that empties the marked cells, in any order. */
  method RemoveCells(m: array2<Cell>, ghost g: Grid, toRemove: set<Position>) returns (ghost g': Grid)
    requires Tie(m, g) && WellShaped(g)
    requires forall p :: p in toRemove ==> Inside(|g|, Height(g), p)
    modifies m
    ensures Tie(m, g') && g' == ClearCells(g, toRemove)
  {
    var rest := toRemove;
    g' := g;
    while rest != {}
      invariant rest <= toRemove && Tie(m, g') && WellShaped(g') && |g'| == |g| && Height(g') == Height(g)
      invariant forall x, y :: 0 <= x < |g| && 0 <= y < Height(g) ==>
        g'[x][y] == if Position(x, y) in toRemove - rest then None else g[x][y]
      decreases rest
    {
      var p :| p in rest;
      g' := Write(m, g', p.x, p.y, None);
      rest := rest - {p};
    }
    forall x | 0 <= x < |g|
      ensures g'[x] == ClearCells(g, toRemove)[x]
    {
      assert |g'[x]| == Height(g);
    }
  }
}
