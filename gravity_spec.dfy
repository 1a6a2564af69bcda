/** What cluster gravity is about, stated on grid values: which cells move, the groups
    they form, how far a group can fall, and what "nothing can fall any more" means. */
module GravitySpec {
  import opened Wrappers
  import opened Positions
  import opened Blocks
  import opened Grids

  /** Integer.MAX_VALUE, the start value of the minimum in computeClusterFall. */
  const MaxInt: int := 0x7fff_ffff

  /** A cell that cluster gravity moves: an interior cell holding a non-virus block. */
  predicate Movable(g: Grid, p: Position)
    requires WellShaped(g)
  {
    Interior(|g|, Height(g), p) && g[p.x][p.y].Some? && !g[p.x][p.y].value.isVirus
  }

  /** The four directions of collectCluster, in its order: right, left, down, up. */
  function Neighbour(p: Position, i: int): Position
  {
    if i == 0 then Position(p.x + 1, p.y)
    else if i == 1 then Position(p.x - 1, p.y)
    else if i == 2 then Position(p.x, p.y + 1)
    else Position(p.x, p.y - 1)
  }

  /** The direction back. */
  function Opposite(i: int): int
  {
    if i == 0 then 1 else if i == 1 then 0 else if i == 2 then 3 else 2
  }

  lemma NeighbourBack(p: Position, i: int)
    requires 0 <= i < 4
    ensures 0 <= Opposite(i) < 4 && Neighbour(Neighbour(p, i), Opposite(i)) == p
  {
  }

  /** No movable neighbour of a member of S lies outside S. */
  ghost predicate Closed(g: Grid, S: set<Position>)
    requires WellShaped(g)
  {
    forall p, i :: p in S && 0 <= i < 4 && Movable(g, Neighbour(p, i)) ==> Neighbour(p, i) in S
  }

  /** Every member of S is movable. */
  ghost predicate AllMovable(g: Grid, S: set<Position>)
    requires WellShaped(g)
  {
    forall p :: p in S ==> Movable(g, p)
  }

  /** b is reachable from a through movable neighbours: b lies in every closed set that
      contains a. */
  ghost predicate Linked(g: Grid, a: Position, b: Position)
    requires WellShaped(g)
  {
    forall S :: Closed(g, S) && a in S ==> b in S
  }

  /** A movable cell that cannot drop whatever group it belongs to: it sits on the
      bottom interior row or directly on a virus. */
  predicate Resting(g: Grid, p: Position)
    requires WellShaped(g) && Movable(g, p)
  {
    p.y + 1 >= Height(g) - 1 || IsVirusCell(g[p.x][p.y + 1])
  }

  /** Every closed group containing c has a resting member. */
  ghost predicate Anchored(g: Grid, c: Position)
    requires WellShaped(g)
  {
    forall S :: Closed(g, S) && c in S ==> exists z :: z in S && Movable(g, z) && Resting(g, z)
  }

  /** The fixed point of cluster gravity: every non-empty group of movable cells that is
      closed under adjacency has a member resting on the floor or on a virus, so no
      4-connected cluster can fall even one row. */
  ghost predicate Settled(g: Grid)
    requires WellShaped(g)
  {
    forall S :: S != {} && AllMovable(g, S) && Closed(g, S) ==>
      exists z :: z in S && Movable(g, z) && Resting(g, z)
  }

  // ---------------------------------------------------------------- fall distance

  /** The drop of the cell (x, y) relative to the group C, counting on from `drop`:
      cells below are passed while they are empty or members of C, until the row just
      above the floor wall. */
  function DropFrom(g: Grid, C: set<Position>, x: int, y: int, drop: nat): (r: nat)
    requires WellShaped(g) && 0 <= x < |g| && 0 <= y
    ensures r >= drop
    decreases Height(g) - (y + drop)
  {
    var ny := y + drop + 1;
    if ny >= Height(g) - 1 then drop
    else if g[x][ny].Some? && Position(x, ny) !in C then drop
    else DropFrom(g, C, x, y, drop + 1)
  }

  function Drop(g: Grid, C: set<Position>, p: Position): nat
    requires WellShaped(g) && 0 <= p.x < |g| && 0 <= p.y
  {
    DropFrom(g, C, p.x, p.y, 0)
  }

  lemma {:induction false} DropFromFacts(g: Grid, C: set<Position>, x: int, y: int, drop: nat, k: int)
    requires WellShaped(g) && 0 <= x < |g| && 0 <= y
    requires drop < k <= DropFrom(g, C, x, y, drop)
    ensures y + k < Height(g) - 1 && (g[x][y + k].None? || Position(x, y + k) in C)
    decreases Height(g) - (y + drop)
  {
    if y + drop + 1 < Height(g) - 1 && !(g[x][y + drop + 1].Some? && Position(x, y + drop + 1) !in C) && k > drop + 1 {
      DropFromFacts(g, C, x, y, drop + 1, k);
    }
  }

  /** Every cell a member passes on its way down is inside the playfield, and empty or
      a member of its own group. */
  lemma DropFacts(g: Grid, C: set<Position>, p: Position, k: int)
    requires WellShaped(g) && 0 <= p.x < |g| && 0 <= p.y
    requires 1 <= k <= Drop(g, C, p)
    ensures p.y + k < Height(g) - 1 && (g[p.x][p.y + k].None? || Position(p.x, p.y + k) in C)
  {
    DropFromFacts(g, C, p.x, p.y, 0, k);
  }

  /** A zero drop means the cell is on the bottom interior row or has a non-member
      directly below it. */
  lemma DropZero(g: Grid, C: set<Position>, p: Position)
    requires WellShaped(g) && 0 <= p.x < |g| && 0 <= p.y
    ensures Drop(g, C, p) == 0 <==>
      p.y + 1 >= Height(g) - 1 || (g[p.x][p.y + 1].Some? && Position(p.x, p.y + 1) !in C)
  {
  }

  /** Every listed cell is inside the grid. */
  predicate Placed(g: Grid, ps: seq<Position>)
    requires WellShaped(g)
  {
    forall i :: 0 <= i < |ps| ==> Inside(|g|, Height(g), ps[i])
  }

  /** The fall of a group: the least drop over the listed members, Integer.MAX_VALUE for none. */
  function FallOf(g: Grid, C: set<Position>, ps: seq<Position>): int
    requires WellShaped(g) && Placed(g, ps)
  {
    if ps == [] then MaxInt
    else
      var f := FallOf(g, C, ps[..|ps| - 1]);
      var d := Drop(g, C, ps[|ps| - 1]);
      if f <= d then f else d
  }

  /** For a non-empty list the fall is the drop of some member and at most every
      member's drop. */
  lemma {:induction false} FallIsLeastDrop(g: Grid, C: set<Position>, ps: seq<Position>)
    requires WellShaped(g) && Placed(g, ps)
    requires ps != [] && forall i :: 0 <= i < |ps| ==> Drop(g, C, ps[i]) < MaxInt
    ensures forall i :: 0 <= i < |ps| ==> FallOf(g, C, ps) <= Drop(g, C, ps[i])
    ensures exists i :: 0 <= i < |ps| && FallOf(g, C, ps) == Drop(g, C, ps[i])
  {
    var n := |ps| - 1;
    if n > 0 {
      FallIsLeastDrop(g, C, ps[..n]);
      assert forall i :: 0 <= i < n ==> ps[..n][i] == ps[i];
      var j :| 0 <= j < n && FallOf(g, C, ps[..n]) == Drop(g, C, ps[..n][j]);
      if FallOf(g, C, ps) == Drop(g, C, ps[n]) {
        assert FallOf(g, C, ps) == Drop(g, C, ps[n]);
      } else {
        assert FallOf(g, C, ps) == Drop(g, C, ps[j]);
      }
    } else {
      assert FallOf(g, C, ps) == Drop(g, C, ps[0]);
    }
  }

  /** A cell of row y never drops below the bottom interior row. */
  lemma {:induction false} DropBounded(g: Grid, C: set<Position>, x: int, y: int, drop: nat)
    requires WellShaped(g) && 0 <= x < |g| && 0 <= y && y + drop <= Height(g) - 2
    ensures DropFrom(g, C, x, y, drop) <= Height(g) - 2 - y
    decreases Height(g) - (y + drop)
  {
    var ny := y + drop + 1;
    if !(ny >= Height(g) - 1) && !(g[x][ny].Some? && Position(x, ny) !in C) {
      DropBounded(g, C, x, y, drop + 1);
    }
  }

  /** A closed group whose fall is zero is anchored at each member: its least-drop
      member rests on the floor or on a virus, since a movable cell below it would be
      a member. */
  lemma ZeroDropRests(g: Grid, C: set<Position>, z: Position)
    requires WellShaped(g) && Closed(g, C) && z in C && Movable(g, z)
    requires Drop(g, C, z) == 0
    ensures Resting(g, z)
  {
    DropZero(g, C, z);
    if z.y + 1 < Height(g) - 1 {
      assert Neighbour(z, 2) == Position(z.x, z.y + 1);
      if !IsVirusCell(g[z.x][z.y + 1]) {
        assert Movable(g, Neighbour(z, 2));
        assert false;
      }
    }
  }

  // ---------------------------------------------------------------- shift of a group

  /** A cell of the grid after every member of C moved down by d rows in its own
      column: the member that lands here, else empty if a member left, else as before. */
  function ShiftCell(g: Grid, C: set<Position>, d: nat, x: int, y: int): Cell
    requires WellShaped(g) && 0 <= x < |g| && 0 <= y < Height(g)
  {
    if 0 <= y - d && Position(x, y - d) in C then g[x][y - d]
    else if Position(x, y) in C then None
    else g[x][y]
  }

  ghost predicate ShiftedBy(g: Grid, r: Grid, C: set<Position>, d: nat)
    requires WellShaped(g)
  {
    WellShaped(r) && |r| == |g| && Height(r) == Height(g) &&
    forall x, y :: 0 <= x < |g| && 0 <= y < Height(g) ==> r[x][y] == ShiftCell(g, C, d, x, y)
  }

  /** The grid after the group C moved down by d rows. */
  function Shifted(g: Grid, C: set<Position>, d: nat): (r: Grid)
    requires WellShaped(g)
    ensures ShiftedBy(g, r, C, d)
  {
    seq(|g|, x requires 0 <= x < |g| => seq(Height(g), y requires 0 <= y < Height(g) => ShiftCell(g, C, d, x, y)))
  }

  lemma ShiftedUnique(g: Grid, r: Grid, C: set<Position>, d: nat)
    requires WellShaped(g) && ShiftedBy(g, r, C, d)
    ensures r == Shifted(g, C, d)
  {
    var s := Shifted(g, C, d);
    forall x | 0 <= x < |g|
      ensures r[x] == s[x]
    {
    }
  }

  /** Moving one more member p down by d, into a cell that is empty now, extends a
      partial shift by p: its old cell becomes empty and its new cell receives it. */
  lemma ShiftStep(g: Grid, cur: Grid, P: set<Position>, d: nat, p: Position)
    requires WellShaped(g) && ShiftedBy(g, cur, P, d) && d > 0
    requires 0 <= p.x < |g| && 0 <= p.y && p.y + d < Height(g)
    requires p !in P && Position(p.x, p.y - d) !in P
    requires Position(p.x, p.y + d) in P || g[p.x][p.y + d].None?
    ensures cur[p.x][p.y] == g[p.x][p.y] && cur[p.x][p.y + d] == None
    ensures ShiftedBy(g, Put(Put(cur, p.x, p.y, None), p.x, p.y + d, g[p.x][p.y]), P + {p}, d)
  {
    var r := Put(Put(cur, p.x, p.y, None), p.x, p.y + d, g[p.x][p.y]);
    assert Height(r) == Height(g);
    forall x, y | 0 <= x < |g| && 0 <= y < Height(g)
      ensures r[x][y] == ShiftCell(g, P + {p}, d, x, y)
    {
      if x == p.x && y == p.y + d {
      } else if x == p.x && y == p.y {
      } else {
        assert r[x][y] == cur[x][y];
      }
    }
  }

  /** A group of movable cells that can each drop d rows keeps, when shifted, every
      virus and every cell outside the interior where they were. */
  lemma ShiftKeepsFixed(g: Grid, C: set<Position>, d: nat)
    requires WellShaped(g) && AllMovable(g, C)
    requires forall p :: p in C ==> Drop(g, C, p) >= d
    ensures KeepsFixed(g, Shifted(g, C, d))
  {
    var r := Shifted(g, C, d);
    forall x, y | 0 <= x < |g| && 0 <= y < Height(g) && 0 <= y - d && Position(x, y - d) in C && d > 0
      ensures !IsVirusCell(r[x][y]) && !IsVirusCell(g[x][y]) && Interior(|g|, Height(g), Position(x, y))
    {
      DropFacts(g, C, Position(x, y - d), d);
    }
  }

  // ---------------------------------------------------------------- potential and contents

  /** Weight of a cell in row y of a column of height h: higher movable blocks weigh more. */
  function Weight(c: Cell, y: int, h: int): nat
    requires 0 <= y < h
  {
    if c.Some? && !c.value.isVirus then h - y else 0
  }

  function ColumnPotential(col: seq<Cell>, h: int): nat
    requires |col| <= h
  {
    if col == [] then 0 else ColumnPotential(col[..|col| - 1], h) + Weight(col[|col| - 1], |col| - 1, h)
  }

  /** No column is taller than h. */
  predicate ColumnsFit(cols: seq<seq<Cell>>, h: int)
  {
    forall x :: 0 <= x < |cols| ==> |cols[x]| <= h
  }

  function ColumnsPotential(cols: seq<seq<Cell>>, h: int): nat
    requires ColumnsFit(cols, h)
  {
    if cols == [] then 0 else ColumnsPotential(cols[..|cols| - 1], h) + ColumnPotential(cols[|cols| - 1], h)
  }

  /** The termination measure of cluster gravity: the sum of the weights. */
  function Potential(g: Grid): nat
    requires WellShaped(g)
  {
    ColumnsPotential(g, Height(g))
  }

  /** 1 when the cell holds a block of the given colour. */
  function Tally(c: Cell, colour: string): nat
  {
    if c.Some? && c.value.color == colour then 1 else 0
  }

  function ColumnTally(col: seq<Cell>, colour: string): nat
  {
    if col == [] then 0 else ColumnTally(col[..|col| - 1], colour) + Tally(col[|col| - 1], colour)
  }

  /** The number of blocks of the given colour in the grid. */
  function ColourCount(cols: seq<seq<Cell>>, colour: string): nat
  {
    if cols == [] then 0 else ColourCount(cols[..|cols| - 1], colour) + ColumnTally(cols[|cols| - 1], colour)
  }

  lemma {:induction false} ColumnUpdate(col: seq<Cell>, h: int, y: int, v: Cell)
    requires |col| <= h && 0 <= y < |col|
    ensures ColumnPotential(col[y := v], h) + Weight(col[y], y, h) == ColumnPotential(col, h) + Weight(v, y, h)
    ensures forall colour :: ColumnTally(col[y := v], colour) + Tally(col[y], colour) == ColumnTally(col, colour) + Tally(v, colour)
  {
    var n := |col| - 1;
    if y < n {
      ColumnUpdate(col[..n], h, y, v);
      assert col[y := v][..n] == col[..n][y := v];
      assert col[y := v][n] == col[n];
      assert col[..n][y] == col[y];
    } else {
      assert col[y := v][..n] == col[..n];
    }
  }

  lemma {:induction false} ColumnsReplace(cols: seq<seq<Cell>>, h: int, x: int, c: seq<Cell>)
    requires ColumnsFit(cols, h) && 0 <= x < |cols| && |c| <= h
    ensures ColumnsFit(cols[x := c], h)
    ensures ColumnsPotential(cols[x := c], h) + ColumnPotential(cols[x], h) == ColumnsPotential(cols, h) + ColumnPotential(c, h)
    ensures forall colour :: ColourCount(cols[x := c], colour) + ColumnTally(cols[x], colour) == ColourCount(cols, colour) + ColumnTally(c, colour)
  {
    var n := |cols| - 1;
    var r := cols[x := c];
    assert forall i :: 0 <= i < |cols| ==> |r[i]| <= h;
    if x < n {
      ColumnsReplace(cols[..n], h, x, c);
      assert r[..n] == cols[..n][x := c];
      assert r[n] == cols[n];
      assert cols[..n][x] == cols[x];
    } else {
      assert r[..n] == cols[..n];
    }
  }

  /** One write changes the potential and the colour counts by exactly the old and
      the new cell. */
  lemma GridUpdate(g: Grid, x: int, y: int, v: Cell)
    requires WellShaped(g) && 0 <= x < |g| && 0 <= y < Height(g)
    ensures WellShaped(Put(g, x, y, v)) && Height(Put(g, x, y, v)) == Height(g)
    ensures Potential(Put(g, x, y, v)) + Weight(g[x][y], y, Height(g)) == Potential(g) + Weight(v, y, Height(g))
    ensures forall colour :: ColourCount(Put(g, x, y, v), colour) + Tally(g[x][y], colour) == ColourCount(g, colour) + Tally(v, colour)
  {
    assert Put(g, x, y, v) == g[x := g[x][y := v]];
    ColumnUpdate(g[x], Height(g), y, v);
    ColumnsReplace(g, Height(g), x, g[x][y := v]);
  }

  /** Every virus and every cell outside the interior is where it was. */
  ghost predicate KeepsFixed(g: Grid, g': Grid)
    requires WellShaped(g)
  {
    WellShaped(g') && |g'| == |g| && Height(g') == Height(g) &&
    (forall x, y :: 0 <= x < |g| && 0 <= y < Height(g) && IsVirusCell(g[x][y]) ==> g'[x][y] == g[x][y]) &&
    (forall x, y :: 0 <= x < |g| && 0 <= y < Height(g) && IsVirusCell(g'[x][y]) ==> g'[x][y] == g[x][y]) &&
    (forall x, y :: 0 <= x < |g| && 0 <= y < Height(g) && !Interior(|g|, Height(g), Position(x, y)) ==> g'[x][y] == g[x][y])
  }

  /** Every column holds the same blocks in the same order, however far apart. */
  ghost predicate ColumnsKept(g: Grid, g': Grid)
  {
    |g'| == |g| && forall x :: 0 <= x < |g| ==> Occupied(g'[x]) == Occupied(g[x])
  }

  /** What cluster gravity keeps: the shape, every virus, every cell outside the
      interior, the blocks of every column in their order, and the number of blocks of
      each colour. Blocks only move down their own column and never pass one another. */
  ghost predicate Conserves(g: Grid, g': Grid)
    requires WellShaped(g)
  {
    KeepsFixed(g, g') && ColumnsKept(g, g') && forall colour :: ColourCount(g', colour) == ColourCount(g, colour)
  }

  /** A block moved d rows down through empty cells keeps every column's blocks. */
  lemma MoveKeepsColumns(g: Grid, cur: Grid, p: Position, d: int)
    requires WellShaped(cur) && ColumnsKept(g, cur)
    requires 0 <= p.x < |cur| && 0 <= p.y && 0 < d && p.y + d < Height(cur)
    requires forall j :: p.y < j <= p.y + d ==> cur[p.x][j].None?
    ensures ColumnsKept(g, Put(Put(cur, p.x, p.y, None), p.x, p.y + d, cur[p.x][p.y]))
  {
    var r := Put(Put(cur, p.x, p.y, None), p.x, p.y + d, cur[p.x][p.y]);
    assert r[p.x] == cur[p.x][p.y := None][p.y + d := cur[p.x][p.y]];
    MoveDownKeepsOccupied(cur[p.x], p.y, d);
    forall x | 0 <= x < |g|
      ensures Occupied(r[x]) == Occupied(g[x])
    {
      if x != p.x {
        assert r[x] == cur[x];
      }
    }
  }

  lemma ConservesTransitive(a: Grid, b: Grid, c: Grid)
    requires WellShaped(a) && WellShaped(b)
    requires Conserves(a, b) && Conserves(b, c)
    ensures Conserves(a, c)
  {
  }
}
