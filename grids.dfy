/** The playfield: a width x height matrix of optional blocks indexed [x][y] (column,
    row), with row 0 at the top, and the one-cell wall ring around it. */
module Grids {
  import opened Wrappers
  import opened Positions
  import opened Blocks
  import opened Pills

  type Cell = Option<Block>
  type Grid = seq<seq<Cell>>

  /** `g` has `w` columns of `h` cells each. */
  predicate Shape(g: Grid, w: int, h: int)
  {
    |g| == w && forall x :: 0 <= x < w ==> |g[x]| == h
  }

  /** The source's isInside: 0 <= x < width and 0 <= y < height. */
  predicate Inside(w: int, h: int, p: Position)
  {
    0 <= p.x < w && 0 <= p.y < h
  }

  /** The cells strictly inside the wall ring. */
  predicate Interior(w: int, h: int, p: Position)
  {
    1 <= p.x < w - 1 && 1 <= p.y < h - 1
  }

  /** The height of a well-shaped grid. */
  function Height(g: Grid): int
  {
    if |g| == 0 then 0 else |g[0]|
  }

  predicate WellShaped(g: Grid)
  {
    Shape(g, |g|, Height(g))
  }

  /** The matrix holds exactly the cells of the ghost grid `g`. */
  ghost predicate Tie(m: array2<Cell>, g: Grid)
    reads m
  {
    Shape(g, m.Length0, m.Length1) &&
    forall x, y :: 0 <= x < m.Length0 && 0 <= y < m.Length1 ==> m[x, y] == g[x][y]
  }

  /** The grid after writing `v` at (x, y). */
  function Put(g: Grid, x: int, y: int, v: Cell): (r: Grid)
    requires 0 <= x < |g| && 0 <= y < |g[x]|
    ensures |r| == |g| && forall i :: 0 <= i < |g| ==> |r[i]| == |g[i]|
    ensures r[x][y] == v
    ensures forall i, j :: 0 <= i < |g| && 0 <= j < |g[i]| && (i != x || j != y) ==> r[i][j] == g[i][j]
  {
    g[x := g[x][y := v]]
  }

  /** Writes one matrix cell and its ghost counterpart. */
  method Write(m: array2<Cell>, ghost g: Grid, x: int, y: int, v: Cell) returns (ghost g': Grid)
    requires Tie(m, g) && 0 <= x < m.Length0 && 0 <= y < m.Length1
    modifies m
    ensures Tie(m, g') && g' == Put(g, x, y, v)
  {
    m[x, y] := v;
    g' := Put(g, x, y, v);
  }

  // ---------------------------------------------------------------- walls

  /** The top and bottom walls of columns 0 .. c-1, in the order createWalls adds them. */
  function RowWalls(w: int, h: int, c: nat): seq<Position>
  {
    if c == 0 then [] else RowWalls(w, h, c - 1) + [Position(c - 1, 0), Position(c - 1, h - 1)]
  }

  /** The left and right walls of rows 0 .. r-1. */
  function ColumnWalls(w: int, h: int, r: nat): seq<Position>
  {
    if r == 0 then [] else ColumnWalls(w, h, r - 1) + [Position(0, r - 1), Position(w - 1, r - 1)]
  }

  /** The wall list of a width x height arena. */
  function WallList(w: nat, h: nat): seq<Position>
  {
    RowWalls(w, h, w) + ColumnWalls(w, h, h)
  }

  /** A cell of the one-cell ring around the playfield. */
  predicate OnBorder(w: int, h: int, p: Position)
  {
    Inside(w, h, p) && (p.x == 0 || p.x == w - 1 || p.y == 0 || p.y == h - 1)
  }

  /** How many times p occurs in s. */
  function Occurrences(s: seq<Position>, p: Position): (n: nat)
    ensures n > 0 <==> p in s
  {
    if s == [] then 0 else Occurrences(s[..|s| - 1], p) + (if s[|s| - 1] == p then 1 else 0)
  }

  lemma {:induction false} OccurrencesAppend(s: seq<Position>, a: Position, b: Position, p: Position)
    ensures Occurrences(s + [a, b], p) == Occurrences(s, p) + (if a == p then 1 else 0) + (if b == p then 1 else 0)
  {
    assert (s + [a, b])[..|s| + 1] == s + [a];
    assert (s + [a])[..|s|] == s;
  }

  lemma {:induction false} OccurrencesConcat(s: seq<Position>, t: seq<Position>, p: Position)
    ensures Occurrences(s + t, p) == Occurrences(s, p) + Occurrences(t, p)
    decreases |t|
  {
    if t != [] {
      var n := |t| - 1;
      assert (s + t)[..|s| + n] == s + t[..n];
      OccurrencesConcat(s, t[..n], p);
    } else {
      assert s + t == s;
    }
  }

  lemma {:induction false} RowWallsFacts(w: int, h: int, c: nat, p: Position)
    requires h >= 2
    ensures |RowWalls(w, h, c)| == 2 * c
    ensures Occurrences(RowWalls(w, h, c), p) == if 0 <= p.x < c && (p.y == 0 || p.y == h - 1) then 1 else 0
  {
    if c > 0 {
      RowWallsFacts(w, h, c - 1, p);
      OccurrencesAppend(RowWalls(w, h, c - 1), Position(c - 1, 0), Position(c - 1, h - 1), p);
    }
  }

  lemma {:induction false} ColumnWallsFacts(w: int, h: int, r: nat, p: Position)
    requires w >= 2
    ensures |ColumnWalls(w, h, r)| == 2 * r
    ensures Occurrences(ColumnWalls(w, h, r), p) == if 0 <= p.y < r && (p.x == 0 || p.x == w - 1) then 1 else 0
  {
    if r > 0 {
      ColumnWallsFacts(w, h, r - 1, p);
      OccurrencesAppend(ColumnWalls(w, h, r - 1), Position(0, r - 1), Position(w - 1, r - 1), p);
    }
  }

  /** The wall list has 2 * (width + height) entries; a cell appears in it once per
      side of the ring it lies on, so exactly the border cells appear, and the four
      corners appear twice. */
  lemma WallListFacts(w: nat, h: nat, p: Position)
    requires w >= 2 && h >= 2
    ensures |WallList(w, h)| == 2 * (w + h)
    ensures Occurrences(WallList(w, h), p) ==
      (if 0 <= p.x < w && (p.y == 0 || p.y == h - 1) then 1 else 0) +
      (if 0 <= p.y < h && (p.x == 0 || p.x == w - 1) then 1 else 0)
    ensures p in WallList(w, h) <==> OnBorder(w, h, p)
  {
    RowWallsFacts(w, h, w, p);
    ColumnWallsFacts(w, h, h, p);
    OccurrencesConcat(RowWalls(w, h, w), ColumnWalls(w, h, h), p);
  }

  /** createWalls: for each column its top and bottom cell, then for each row its
      left and right cell. */
  method CreateWalls(width: nat, height: nat) returns (walls: seq<Position>)
    ensures walls == WallList(width, height)
  {
    walls := [];
    var c := 0;
    while c < width
      invariant 0 <= c <= width && walls == RowWalls(width, height, c)
    {
      walls := walls + [Position(c, 0), Position(c, height - 1)];
      c := c + 1;
    }
    var r := 0;
    while r < height
      invariant 0 <= r <= height && walls == RowWalls(width, height, width) + ColumnWalls(width, height, r)
    {
      walls := walls + [Position(0, r), Position(width - 1, r)];
      r := r + 1;
    }
  }

  // ---------------------------------------------------------------- placement checks

  /** isValidPosition: inside the arena, not a wall, and an empty matrix cell. */
  predicate ValidCell(g: Grid, walls: seq<Position>, p: Position)
    requires WellShaped(g)
  {
    Inside(|g|, Height(g), p) && p !in walls && g[p.x][p.y].None?
  }

  /** canMove: both halves of a pill with this pivot and orientation are valid cells. */
  predicate PillFits(g: Grid, walls: seq<Position>, pivot: Position, orientation: int)
    requires WellShaped(g)
  {
    ValidCell(g, walls, pivot) && ValidCell(g, walls, HalfAt(pivot, orientation))
  }

  /** The wall search of isValidPosition and of the spawn checks: is any wall on p or on q? */
  method HitsWall(walls: seq<Position>, p: Position, q: Position) returns (hit: bool)
    ensures hit <==> p in walls || q in walls
  {
    var i := 0;
    while i < |walls|
      invariant 0 <= i <= |walls|
      invariant forall k :: 0 <= k < i ==> walls[k] != p && walls[k] != q
    {
      if walls[i] == p || walls[i] == q {
        return true;
      }
      i := i + 1;
    }
    return false;
  }

  method IsValidPosition(m: array2<Cell>, ghost g: Grid, walls: seq<Position>, p: Position) returns (ok: bool)
    requires Tie(m, g) && WellShaped(g)
    ensures ok == ValidCell(g, walls, p)
  {
    if !(0 <= p.x < m.Length0 && 0 <= p.y < m.Length1) {
      return false;
    }
    var hit := HitsWall(walls, p, p);
    if hit {
      return false;
    }
    if m[p.x, p.y] != None {
      return false;
    }
    return true;
  }

  method CanMove(m: array2<Cell>, ghost g: Grid, walls: seq<Position>, pill: Pill) returns (ok: bool)
    requires Tie(m, g) && WellShaped(g)
    ensures ok == PillFits(g, walls, pill.position, pill.orientation)
  {
    var p1 := pill.position;
    var p2 := pill.OtherHalf();
    var ok1 := IsValidPosition(m, g, walls, p1);
    var ok2 := IsValidPosition(m, g, walls, p2);
    ok := ok1 && ok2;
  }

  // ---------------------------------------------------------------- virus count

  function CountInColumn(col: seq<Cell>): (n: nat)
    ensures n <= |col|
  {
    if col == [] then 0
    else CountInColumn(col[..|col| - 1]) + (if col[|col| - 1].Some? && col[|col| - 1].value.isVirus then 1 else 0)
  }

  /** The number of virus cells in the matrix. */
  function VirusCount(g: Grid): nat
  {
    if g == [] then 0 else VirusCount(g[..|g| - 1]) + CountInColumn(g[|g| - 1])
  }

  predicate IsVirusCell(c: Cell) { c.Some? && c.value.isVirus }

  lemma {:induction false} ColumnCountZero(col: seq<Cell>)
    ensures CountInColumn(col) == 0 <==> forall y :: 0 <= y < |col| ==> !IsVirusCell(col[y])
  {
    if col != [] {
      ColumnCountZero(col[..|col| - 1]);
    }
  }

  /** The virus count is zero exactly when no cell holds a virus. */
  lemma {:induction false} VirusCountZero(g: Grid)
    ensures VirusCount(g) == 0 <==> forall x, y :: 0 <= x < |g| && 0 <= y < |g[x]| ==> !IsVirusCell(g[x][y])
  {
    if g != [] {
      VirusCountZero(g[..|g| - 1]);
      ColumnCountZero(g[|g| - 1]);
      var last := |g| - 1;
      assert forall x :: 0 <= x < last ==> g[..last][x] == g[x];
    }
  }

  /** 1 when the cell holds a virus. */
  function VirusTally(c: Cell): nat
  {
    if IsVirusCell(c) then 1 else 0
  }

  lemma {:induction false} ColumnCountUpdate(col: seq<Cell>, y: int, v: Cell)
    requires 0 <= y < |col|
    ensures CountInColumn(col[y := v]) + VirusTally(col[y]) == CountInColumn(col) + VirusTally(v)
  {
    var n := |col| - 1;
    if y < n {
      ColumnCountUpdate(col[..n], y, v);
      assert col[y := v][..n] == col[..n][y := v];
      assert col[y := v][n] == col[n];
      assert col[..n][y] == col[y];
    } else {
      assert col[y := v][..n] == col[..n];
    }
  }

  lemma {:induction false} ColumnsCountReplace(cols: seq<seq<Cell>>, x: int, c: seq<Cell>)
    requires 0 <= x < |cols|
    ensures VirusCount(cols[x := c]) + CountInColumn(cols[x]) == VirusCount(cols) + CountInColumn(c)
  {
    var n := |cols| - 1;
    var r := cols[x := c];
    if x < n {
      ColumnsCountReplace(cols[..n], x, c);
      assert r[..n] == cols[..n][x := c];
      assert r[n] == cols[n];
      assert cols[..n][x] == cols[x];
    } else {
      assert r[..n] == cols[..n];
    }
  }

  /** One write changes the virus count by exactly the old and the new cell. */
  lemma VirusCountUpdate(g: Grid, x: int, y: int, v: Cell)
    requires 0 <= x < |g| && 0 <= y < |g[x]|
    ensures VirusCount(Put(g, x, y, v)) + VirusTally(g[x][y]) == VirusCount(g) + VirusTally(v)
  {
    ColumnCountUpdate(g[x], y, v);
    ColumnsCountReplace(g, x, g[x][y := v]);
  }

  /** The occupied cells of a column segment, top to bottom. */
  function Occupied(s: seq<Cell>): (r: seq<Cell>)
    ensures |r| <= |s|
    ensures forall i :: 0 <= i < |r| ==> r[i].Some?
  {
    if s == [] then [] else (if s[0].Some? then [s[0]] else []) + Occupied(s[1..])
  }

  lemma {:induction false} OccupiedAppend(a: seq<Cell>, b: seq<Cell>)
    ensures Occupied(a + b) == Occupied(a) + Occupied(b)
    decreases |a|
  {
    if a == [] {
      assert a + b == b;
    } else {
      assert (a + b)[1..] == a[1..] + b;
      OccupiedAppend(a[1..], b);
    }
  }

  /** Cells that are all empty hold no block. */
  lemma {:induction false} OccupiedOfEmpty(s: seq<Cell>)
    requires forall i :: 0 <= i < |s| ==> s[i].None?
    ensures Occupied(s) == []
    decreases |s|
  {
    if s != [] {
      OccupiedOfEmpty(s[1..]);
    }
  }

  /** Empty cells between two segments add no block. */
  lemma OccupiedAround(a: seq<Cell>, mid: seq<Cell>, b: seq<Cell>)
    requires forall i :: 0 <= i < |mid| ==> mid[i].None?
    ensures Occupied(a + mid + b) == Occupied(a) + Occupied(b)
  {
    OccupiedOfEmpty(mid);
    OccupiedAppend(a + mid, b);
    OccupiedAppend(a, mid);
    assert Occupied(a) + [] == Occupied(a);
  }

  /** The column before and after a block moves from row y to row y + d, cut into the
      part above, the empty cells between and the part below. */
  lemma MoveDownParts(col: seq<Cell>, y: int, d: int) returns (gap: seq<Cell>)
    requires 0 <= y && 0 < d && y + d < |col|
    requires forall j :: y < j <= y + d ==> col[j].None?
    ensures forall i :: 0 <= i < |gap| ==> gap[i].None?
    ensures col == (col[..y] + [col[y]]) + gap + col[y + d + 1..]
    ensures col[y := None][y + d := col[y]] == col[..y] + ([None] + gap[..d - 1]) + ([col[y]] + col[y + d + 1..])
  {
    gap := col[y + 1..y + d + 1];
    forall i | 0 <= i < |gap|
      ensures gap[i].None?
    {
      assert gap[i] == col[y + 1 + i];
    }
  }

  /** A block that moves d rows down a column through empty cells keeps the column's
      blocks and their order. */
  lemma MoveDownKeepsOccupied(col: seq<Cell>, y: int, d: int)
    requires 0 <= y && 0 < d && y + d < |col|
    requires forall j :: y < j <= y + d ==> col[j].None?
    ensures Occupied(col[y := None][y + d := col[y]]) == Occupied(col)
  {
    var gap := MoveDownParts(col, y, d);
    var a, c, b := col[..y], col[y], col[y + d + 1..];
    OccupiedAround(a + [c], gap, b);
    OccupiedAround(a, [None] + gap[..d - 1], [c] + b);
    OccupiedAppend(a, [c]);
    OccupiedAppend([c], b);
    assert ([c] + b)[1..] == b;
  }
}
