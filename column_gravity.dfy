/** The gravity of the legacy arena: each interior column is compacted on its own, every
    block (virus or not) dropping through the empty cells below it until it rests on
    another block or on the bottom interior row. The wall rows 0 and height-1 and the
    wall columns 0 and width-1 are left alone. */
module ColumnGravity {
  import opened Wrappers
  import opened Positions
  import opened Grids
  import opened Clearing

  /** n empty cells. */
  function Gaps(n: nat): (r: seq<Cell>)
    ensures |r| == n && forall i :: 0 <= i < n ==> r[i].None?
  {
    seq(n, _ => None)
  }

  /** The segment with its blocks at the bottom, in their order, and the gaps on top. */
  function Compacted(s: seq<Cell>): seq<Cell>
  {
    Gaps(|s| - |Occupied(s)|) + Occupied(s)
  }

  /** Every occupied cell of the segment is its last cell or lies directly above
      another occupied cell. */
  predicate Resting(s: seq<Cell>)
  {
    forall i :: 0 <= i < |s| - 1 && s[i].Some? ==> s[i + 1].Some?
  }

  lemma {:induction false} OccupiedOfGaps(n: nat)
    ensures Occupied(Gaps(n)) == []
    decreases n
  {
    if n > 0 {
      assert Gaps(n)[1..] == Gaps(n - 1);
      OccupiedOfGaps(n - 1);
    }
  }

  lemma {:induction false} OccupiedOfFull(s: seq<Cell>)
    requires forall i :: 0 <= i < |s| ==> s[i].Some?
    ensures Occupied(s) == s
    decreases |s|
  {
    if s != [] {
      OccupiedOfFull(s[1..]);
      assert [s[0]] + s[1..] == s;
    }
  }

  /** Compaction keeps the length and the blocks in their order, and its result rests. */
  lemma CompactedMeaning(s: seq<Cell>)
    ensures |Compacted(s)| == |s|
    ensures Occupied(Compacted(s)) == Occupied(s)
    ensures Resting(Compacted(s))
  {
    var k := |s| - |Occupied(s)|;
    OccupiedAppend(Gaps(k), Occupied(s));
    OccupiedOfGaps(k);
    OccupiedOfFull(Occupied(s));
  }

  /** A resting segment is its own compaction. */
  lemma {:induction false} RestingIsCompacted(s: seq<Cell>)
    requires Resting(s)
    ensures Compacted(s) == s
    decreases |s|
  {
    if s == [] {
    } else if s[0].Some? {
      assert forall i :: 0 <= i < |s| ==> s[i].Some? by {
        forall i | 0 <= i < |s|
          ensures s[i].Some?
        {
          RestingPrefix(s, i);
        }
      }
      OccupiedOfFull(s);
    } else {
      var t := s[1..];
      assert Resting(t) by {
        forall i | 0 <= i < |t| - 1 && t[i].Some?
          ensures t[i + 1].Some?
        {
          assert s[i + 1] == t[i];
        }
      }
      RestingIsCompacted(t);
      assert Occupied(s) == Occupied(t);
      assert Gaps(|s| - |Occupied(s)|) == [None] + Gaps(|t| - |Occupied(t)|);
      assert s == [None] + t;
    }
  }

  /** In a resting segment whose first cell is occupied, every cell up to i is too. */
  lemma {:induction false} RestingPrefix(s: seq<Cell>, i: int)
    requires Resting(s) && 0 <= i < |s| && s[0].Some?
    ensures s[i].Some?
    decreases i
  {
    if i > 0 {
      RestingPrefix(s, i - 1);
    }
  }

  /** The compaction is the only resting rearrangement with the same blocks in the same
      order; in particular compacting twice changes nothing. */
  lemma CompactedUnique(s: seq<Cell>, t: seq<Cell>)
    requires |t| == |s| && Occupied(t) == Occupied(s) && Resting(t)
    ensures t == Compacted(s)
  {
    RestingIsCompacted(t);
  }

  lemma CompactedIdempotent(s: seq<Cell>)
    ensures Compacted(Compacted(s)) == Compacted(s)
  {
    CompactedMeaning(s);
    RestingIsCompacted(Compacted(s));
  }

  /** A column after removeMarkedBlocks' gravity: the interior rows 1 .. h-2 compacted,
      the two wall rows kept. */
  function DropColumn(col: seq<Cell>): seq<Cell>
    requires |col| >= 2
  {
    col[..1] + Compacted(col[1..|col| - 1]) + [col[|col| - 1]]
  }

  /** The grid after the gravity of removeMarkedBlocks: columns 1 .. w-2 dropped. */
  function Dropped(g: Grid): (r: Grid)
    requires WellShaped(g) && Height(g) >= 2
  {
    seq(|g|, x requires 0 <= x < |g| => if 1 <= x < |g| - 1 then DropColumn(g[x]) else g[x])
  }

  /** One dropped column: same length and wall rows, the interior blocks kept in order,
      and every interior occupied cell on the bottom interior row or above a block. */
  lemma DropColumnMeaning(col: seq<Cell>)
    requires |col| >= 2
    ensures |DropColumn(col)| == |col|
    ensures DropColumn(col)[0] == col[0] && DropColumn(col)[|col| - 1] == col[|col| - 1]
    ensures Occupied(DropColumn(col)[1..|col| - 1]) == Occupied(col[1..|col| - 1])
    ensures forall y :: 1 <= y < |col| - 2 && DropColumn(col)[y].Some? ==> DropColumn(col)[y + 1].Some?
  {
    var h := |col|;
    var inner := col[1..h - 1];
    var r := DropColumn(col);
    CompactedMeaning(inner);
    assert r[1..h - 1] == Compacted(inner);
    forall y | 1 <= y < h - 2 && r[y].Some?
      ensures r[y + 1].Some?
    {
      assert r[1..h - 1][y - 1] == r[y];
      assert r[1..h - 1][y] == r[y + 1];
    }
  }

  /** Column gravity keeps the shape and the border ring. */
  lemma DroppedBorder(g: Grid)
    requires WellShaped(g) && Height(g) >= 2
    ensures WellShaped(Dropped(g)) && |Dropped(g)| == |g| && Height(Dropped(g)) == Height(g)
    ensures forall x, y :: 0 <= x < |g| && 0 <= y < Height(g) && !Interior(|g|, Height(g), Position(x, y)) ==>
      Dropped(g)[x][y] == g[x][y]
  {
    forall x | 1 <= x < |g| - 1
      ensures |Dropped(g)[x]| == Height(g)
      ensures Dropped(g)[x][0] == g[x][0] && Dropped(g)[x][Height(g) - 1] == g[x][Height(g) - 1]
    {
      DropColumnMeaning(g[x]);
    }
  }

  /** Column gravity keeps, in each interior column, the blocks of the interior rows in
      their order (so no block changes column and none is lost); afterwards every
      interior occupied cell, virus or not, is on the bottom interior row or directly
      above another occupied cell. */
  lemma DroppedColumns(g: Grid)
    requires WellShaped(g) && Height(g) >= 2
    ensures forall x :: 1 <= x < |g| - 1 ==>
      (|Dropped(g)[x]| == Height(g) &&
       Occupied(Dropped(g)[x][1..Height(g) - 1]) == Occupied(g[x][1..Height(g) - 1]) &&
       forall y :: 1 <= y < Height(g) - 2 && Dropped(g)[x][y].Some? ==> Dropped(g)[x][y + 1].Some?)
  {
    forall x | 1 <= x < |g| - 1
      ensures |Dropped(g)[x]| == Height(g)
      ensures Occupied(Dropped(g)[x][1..Height(g) - 1]) == Occupied(g[x][1..Height(g) - 1])
      ensures forall y :: 1 <= y < Height(g) - 2 && Dropped(g)[x][y].Some? ==> Dropped(g)[x][y + 1].Some?
    {
      DropColumnMeaning(g[x]);
    }
  }

  /** The legacy removeMarkedBlocks' effect on its grid: unchanged when nothing is
      marked, otherwise the marked cells emptied and every interior column compacted. */
  function AfterColumnRemoval(g: Grid, toRemove: set<Position>): Grid
    requires WellShaped(g) && Height(g) >= 2
  {
    if toRemove == {} then g else Dropped(ClearCells(g, toRemove))
  }

  // ---------------------------------------------------------------- the gravity loop

  /** The number of empty cells before the first block of a segment. */
  function LeadingGaps(s: seq<Cell>): (n: nat)
    ensures n <= |s|
    ensures forall i :: 0 <= i < n ==> s[i].None?
    ensures n < |s| ==> s[n].Some?
  {
    if s == [] || s[0].Some? then 0 else 1 + LeadingGaps(s[1..])
  }

  lemma {:induction false} LeadingGapsOfCompacted(k: nat, r: seq<Cell>)
    requires forall i :: 0 <= i < |r| ==> r[i].Some?
    ensures LeadingGaps(Gaps(k) + r) == k
    decreases k
  {
    if k > 0 {
      assert (Gaps(k) + r)[1..] == Gaps(k - 1) + r;
      LeadingGapsOfCompacted(k - 1, r);
    } else {
      assert Gaps(k) + r == r;
    }
  }

  /** Column col while its gravity loop runs: rows 0 .. y still as they were, rows
      y+1 .. h-2 compacted, the bottom wall row kept. */
  function PartlyDropped(col: seq<Cell>, y: int): seq<Cell>
    requires 0 <= y <= |col| - 2
  {
    col[..y + 1] + Compacted(col[y + 1..|col| - 1]) + [col[|col| - 1]]
  }

  /** The drop distance of removeMarkedBlocks: the empty cells directly below (x, y),
      counted down to row h-2 and stopping at the first block. */
  method DropDistance(m: array2<Cell>, ghost g: Grid, x: int, y: int) returns (d: int)
    requires Tie(m, g) && 0 <= x < m.Length0 && 0 <= y < m.Length1 - 1
    ensures d == LeadingGaps(g[x][y + 1..m.Length1 - 1])
  {
    ghost var s := g[x][y + 1..m.Length1 - 1];
    d := 0;
    var checkY := y + 1;
    while checkY < m.Length1 - 1
      invariant y + 1 <= checkY <= m.Length1 - 1 && d == checkY - y - 1
      invariant LeadingGaps(s) == d + LeadingGaps(s[d..])
    {
      assert m[x, checkY] == s[d];
      if m[x, checkY] == None {
        assert s[d..][1..] == s[d + 1..];
        d := d + 1;
      } else {
        break;
      }
      checkY := checkY + 1;
    }
  }

  /** The step of the gravity loop on the segment below row y - 1 is a cell c above
      the compacted rest t. An empty c joins the gaps; a block with no gap below it
      stays; a block with k gaps below it moves down by k. Each compacts [c] + t. */
  lemma GapStep(t: seq<Cell>)
    ensures [None] + Compacted(t) == Compacted([None] + t)
  {
    assert ([None] + t)[1..] == t;
    var k := |t| - |Occupied(t)|;
    assert Occupied([None] + t) == Occupied(t);
    assert Gaps(k + 1) == [None] + Gaps(k);
  }

  lemma BlockStays(c: Cell, t: seq<Cell>)
    requires c.Some? && |t| - |Occupied(t)| == 0
    ensures [c] + Compacted(t) == Compacted([c] + t)
  {
    assert ([c] + t)[1..] == t;
    assert Occupied([c] + t) == [c] + Occupied(t);
  }

  lemma BlockDrops(c: Cell, t: seq<Cell>)
    requires c.Some? && |t| - |Occupied(t)| > 0
    ensures ([c] + Compacted(t))[|t| - |Occupied(t)| := c][0 := None] == Compacted([c] + t)
  {
    assert ([c] + t)[1..] == t;
    var k := |t| - |Occupied(t)|;
    var occ := Occupied(t);
    assert Occupied([c] + t) == [c] + occ;
    assert Compacted(t) == Gaps(k) + occ;
    assert Compacted([c] + t) == Gaps(k) + [c] + occ;
    UpdateMiddle([c], Gaps(k), occ, k - 1, c);
    assert Gaps(k)[k - 1 := c] == Gaps(k - 1) + [c];
    UpdateMiddle([], [c], Gaps(k - 1) + [c] + occ, 0, None);
    assert [None] + Gaps(k - 1) == Gaps(k);
  }

  /** Updating a cell of the middle part of a concatenation. */
  lemma UpdateMiddle(pre: seq<Cell>, mid: seq<Cell>, post: seq<Cell>, i: int, v: Cell)
    requires 0 <= i < |mid|
    ensures (pre + mid + post)[|pre| + i := v] == pre + mid[i := v] + post
  {
  }

  /** The gravity step on a column split as pre + [c] + t + last, with t already
      compacted and d its gaps. */
  lemma StepOnParts(pre: seq<Cell>, c: Cell, t: seq<Cell>, last: seq<Cell>, d: int)
    requires d == |t| - |Occupied(t)|
    ensures var cur := pre + ([c] + Compacted(t)) + last;
      (if c.Some? && d > 0 then cur[|pre| + d := c][|pre| := None] else cur) == pre + Compacted([c] + t) + last
  {
    var m := [c] + Compacted(t);
    if c.None? {
      GapStep(t);
    } else if d == 0 {
      BlockStays(c, t);
    } else {
      BlockDrops(c, t);
      UpdateMiddle(pre, m, last, d, c);
      UpdateMiddle(pre, m[d := c], last, 0, None);
    }
  }

  /** A column during its gravity loop at row y, split around row y. */
  lemma ColumnParts(col: seq<Cell>, y: int)
    requires 1 <= y <= |col| - 2
    ensures PartlyDropped(col, y) ==
      col[..y] + ([col[y]] + Compacted(col[y + 1..|col| - 1])) + [col[|col| - 1]]
  {
    assert col[..y + 1] == col[..y] + [col[y]];
  }

  /** The same column one row further up, split around row y. */
  lemma ColumnPartsAbove(col: seq<Cell>, y: int)
    requires 1 <= y <= |col| - 2
    ensures PartlyDropped(col, y - 1) ==
      col[..y] + Compacted([col[y]] + col[y + 1..|col| - 1]) + [col[|col| - 1]]
  {
    assert col[y..|col| - 1] == [col[y]] + col[y + 1..|col| - 1];
    assert col[..y - 1 + 1] == col[..y];
  }

  /** Below row y the column is compacted, so its gaps lead. */
  lemma ColumnGaps(col: seq<Cell>, y: int)
    requires 1 <= y <= |col| - 2
    ensures LeadingGaps(PartlyDropped(col, y)[y + 1..|col| - 1]) ==
      |col[y + 1..|col| - 1]| - |Occupied(col[y + 1..|col| - 1])|
  {
    var t := col[y + 1..|col| - 1];
    var cur := PartlyDropped(col, y);
    assert |col[..y + 1]| == y + 1;
    assert cur[y + 1..|col| - 1] == Compacted(t);
    LeadingGapsOfCompacted(|t| - |Occupied(t)|, Occupied(t));
  }

  /** One row of a column's gravity loop: a block at row y with d empty cells below it
      moves down by d; afterwards rows y .. h-2 are compacted. */
  lemma DropStep(col: seq<Cell>, y: int, d: int)
    requires 1 <= y <= |col| - 2
    requires d == LeadingGaps(PartlyDropped(col, y)[y + 1..|col| - 1])
    ensures (var cur := PartlyDropped(col, y);
             if cur[y].Some? && d > 0 then cur[y + d := cur[y]][y := None] else cur) == PartlyDropped(col, y - 1)
  {
    var pre, c, t, last := col[..y], col[y], col[y + 1..|col| - 1], [col[|col| - 1]];
    ColumnParts(col, y);
    ColumnPartsAbove(col, y);
    ColumnGaps(col, y);
    var cur := PartlyDropped(col, y);
    assert cur == pre + ([c] + Compacted(t)) + last;
    assert |pre| == y && cur[y] == c;
    StepOnParts(pre, c, t, last, d);
  }

  /** The gravity loop of removeMarkedBlocks on column x: rows h-2 up to 1, each block
      moving down by its drop distance. */
  method CompactColumn(m: array2<Cell>, ghost g: Grid, x: int) returns (ghost g': Grid)
    requires Tie(m, g) && 0 <= x < m.Length0 && 2 <= m.Length1
    modifies m
    ensures Tie(m, g') && g' == g[x := DropColumn(g[x])]
  {
    var h := m.Length1;
    ghost var col := g[x];
    assert PartlyDropped(col, h - 2) == col by {
      assert col[h - 1..h - 1] == [] && Occupied([]) == [];
      assert col[..h - 1] + [col[h - 1]] == col;
    }
    g' := g;
    var y := h - 2;
    while y >= 1
      invariant 0 <= y <= h - 2
      invariant Tie(m, g') && g' == g[x := PartlyDropped(col, y)]
      decreases y
    {
      g' := DropCell(m, g, g', x, y);
      y := y - 1;
    }
  }

  /** Moves the cell at (x, y) down by d rows and empties (x, y). */
  method MoveCellDown(m: array2<Cell>, ghost g: Grid, x: int, y: int, d: int) returns (ghost g': Grid)
    requires Tie(m, g) && 0 <= x < m.Length0 && 0 <= y && 0 < d && y + d < m.Length1
    modifies m
    ensures Tie(m, g') && g' == g[x := g[x][y + d := g[x][y]][y := None]]
  {
    var b := m[x, y];
    g' := Write(m, g, x, y + d, b);
    g' := Write(m, g', x, y, None);
  }

  /** One row of CompactColumn: the block at (x, y), if any, moves down by its drop
      distance. */
  method DropCell(m: array2<Cell>, ghost g0: Grid, ghost g: Grid, x: int, y: int) returns (ghost g': Grid)
    requires 0 <= x < |g0| && |g0[x]| == m.Length1 && 1 <= y <= m.Length1 - 2
    requires Tie(m, g) && g == g0[x := PartlyDropped(g0[x], y)]
    modifies m
    ensures Tie(m, g') && g' == g0[x := PartlyDropped(g0[x], y - 1)]
  {
    ghost var col := g0[x];
    var b := m[x, y];
    if b.Some? {
      var d := DropDistance(m, g, x, y);
      DropStep(col, y, d);
      g' := g;
      if d > 0 {
        g' := MoveCellDown(m, g, x, y, d);
      }
    } else {
      DropStep(col, y, LeadingGaps(PartlyDropped(col, y)[y + 1..m.Length1 - 1]));
      g' := g;
    }
  }

  /** The gravity of removeMarkedBlocks: columns 1 .. width-2, left to right. */
  method CompactColumns(m: array2<Cell>, ghost g: Grid) returns (ghost g': Grid)
    requires Tie(m, g) && 2 <= m.Length0 && 2 <= m.Length1
    modifies m
    ensures Tie(m, g') && g' == Dropped(g)
  {
    g' := g;
    var x := 1;
    while x < m.Length0 - 1
      invariant 1 <= x <= m.Length0 - 1
      invariant Tie(m, g') && |g'| == |g|
      invariant forall i :: 0 <= i < |g| ==> g'[i] == if 1 <= i < x then DropColumn(g[i]) else g[i]
    {
      g' := CompactColumn(m, g', x);
      x := x + 1;
    }
    assert WellShaped(g) && Height(g) == m.Length1;
    assert forall i :: 0 <= i < |g| ==> g'[i] == Dropped(g)[i];
  }

  /** The legacy removeMarkedBlocks: nothing happens for an empty set; otherwise the
      marked cells are emptied and column gravity runs. */
  method RemoveMarkedColumnwise(m: array2<Cell>, ghost g: Grid, toRemove: set<Position>) returns (ghost g': Grid)
    requires Tie(m, g) && 2 <= m.Length0 && 2 <= m.Length1 && toRemove == Marked(g)
    modifies m
    ensures WellShaped(g) && Height(g) >= 2
    ensures Tie(m, g') && g' == AfterColumnRemoval(g, toRemove)
  {
    assert WellShaped(g) && Height(g) >= 2;
    if toRemove == {} {
      return g;
    }
    forall p | p in toRemove
      ensures Inside(|g|, Height(g), p)
    {
      MarkedAreOccupied(g, p);
    }
    var g1 := RemoveCells(m, g, toRemove);
    g' := CompactColumns(m, g1);
  }
}
