/** The model-package arena: the matrix of blocks, the wall list, the falling pill and
    the preview pill, with the spawning of viruses and pills. */
module GameArena {
  import opened Wrappers
  import opened Positions
  import opened Blocks
  import opened Pills
  import opened Grids
  import opened Oracle
  import GravitySpec

  /** A freshly allocated matrix: every cell empty. */
  function EmptyGrid(w: nat, h: nat): (g: Grid)
    ensures Shape(g, w, h)
    ensures forall x, y :: 0 <= x < w && 0 <= y < h ==> g[x][y].None?
  {
    seq(w, _ => seq(h, _ => None))
  }

  /** The box spawnViruses draws from: columns 1 .. width-2, rows 4 .. height-2. */
  predicate InSpawnBox(w: int, h: int, p: Position)
  {
    1 <= p.x <= w - 2 && 4 <= p.y <= h - 2
  }

  /** A palette-coloured virus. */
  predicate IsPaletteVirus(c: Cell)
  {
    c.Some? && c.value == NewVirus(c.value.color) && c.value.color in Palette
  }

  /** `g` differs from `g0` only by viruses written into cells of the spawn box that
      were empty in `g0`. */
  ghost predicate Scattered(g0: Grid, g: Grid, w: int, h: int)
  {
    Shape(g0, w, h) && Shape(g, w, h) &&
    forall x, y :: 0 <= x < w && 0 <= y < h ==>
      g[x][y] == g0[x][y] ||
      (g0[x][y].None? && InSpawnBox(w, h, Position(x, y)) && IsPaletteVirus(g[x][y]))
  }

  /** The cells in which `g` differs from `g0`. */
  ghost function ChangedCells(g0: Grid, g: Grid, w: int, h: int): set<Position>
    requires Shape(g0, w, h) && Shape(g, w, h)
  {
    set x, y | 0 <= x < w && 0 <= y < h && g0[x][y] != g[x][y] :: Position(x, y)
  }

  /** Writing a new value into a cell that still holds its original value adds that
      one cell to the changed set. */
  lemma ChangedAdd(g0: Grid, g: Grid, w: int, h: int, x: int, y: int, v: Cell)
    requires Shape(g0, w, h) && Shape(g, w, h) && 0 <= x < w && 0 <= y < h
    requires g[x][y] == g0[x][y] && v != g0[x][y]
    ensures Shape(Put(g, x, y, v), w, h)
    ensures ChangedCells(g0, Put(g, x, y, v), w, h) == ChangedCells(g0, g, w, h) + {Position(x, y)}
    ensures Position(x, y) !in ChangedCells(g0, g, w, h)
  {
    var g' := Put(g, x, y, v);
    forall p | p in ChangedCells(g0, g', w, h)
      ensures p in ChangedCells(g0, g, w, h) + {Position(x, y)}
    {
      var i, j :| 0 <= i < w && 0 <= j < h && g0[i][j] != g'[i][j] && p == Position(i, j);
      if (i, j) != (x, y) {
        assert g0[i][j] != g[i][j];
      }
    }
    forall p | p in ChangedCells(g0, g, w, h)
      ensures p in ChangedCells(g0, g', w, h)
    {
      var i, j :| 0 <= i < w && 0 <= j < h && g0[i][j] != g[i][j] && p == Position(i, j);
      assert g'[i][j] == g[i][j];
    }
    assert g0[x][y] != g'[x][y];
  }

  /** The spawn cell (width/2, 1) and its right neighbour are clear of the wall ring
      exactly when the arena is at least five columns wide (at width 3 or 4 the right
      half lands on the right wall), so the spawn check succeeds exactly then and when
      those two cells are empty. */
  lemma SpawnFitsIffFree(g: Grid, w: int, h: int)
    requires Shape(g, w, h) && 3 <= w && 6 <= h
    ensures WellShaped(g)
    ensures PillFits(g, WallList(w, h), Position(w / 2, 1), 0) <==>
      w >= 5 && g[w / 2][1].None? && g[w / 2 + 1][1].None?
  {
    var p := Position(w / 2, 1);
    var q := Position(w / 2 + 1, 1);
    WallListFacts(w, h, p);
    WallListFacts(w, h, q);
    assert HalfAt(p, 0) == q;
  }

  /** Whatever the orientation of a pill placed at the spawn cell, both halves are
      inside the arena, so only the wall and the occupancy checks can fail there. */
  lemma SpawnInside(w: int, h: int, orientation: int)
    requires 3 <= w && 3 <= h && 0 <= orientation < 4
    ensures Inside(w, h, Position(w / 2, 1)) && Inside(w, h, HalfAt(Position(w / 2, 1), orientation))
  {
  }

  /** Every cell is empty or holds a palette virus inside the spawn box. */
  ghost predicate Sprinkled(g: Grid, w: int, h: int)
  {
    Shape(g, w, h) &&
    forall x, y :: 0 <= x < w && 0 <= y < h ==>
      g[x][y].None? || (InSpawnBox(w, h, Position(x, y)) && IsPaletteVirus(g[x][y]))
  }

  /** A virus spawn on an empty grid sprinkles it, and then a pill spawn succeeds
      exactly when the arena is at least five columns wide: viruses start at row 4,
      so row 1 stays empty. */
  lemma SprinkledFromEmpty(g0: Grid, g: Grid, w: int, h: int)
    requires Scattered(g0, g, w, h) && 3 <= w && 6 <= h
    requires forall x, y :: 0 <= x < w && 0 <= y < h ==> g0[x][y].None?
    ensures Sprinkled(g, w, h) && WellShaped(g)
    ensures PillFits(g, WallList(w, h), Position(w / 2, 1), 0) <==> w >= 5
  {
    SpawnFitsIffFree(g, w, h);
    assert g[w / 2][1] == g0[w / 2][1];
    if w >= 4 {
      assert g[w / 2 + 1][1] == g0[w / 2 + 1][1];
    }
  }

  /** spawnViruses on a matrix of at least 3 x 6 cells: at most 2 * count random draws
      in the spawn box; each draw that lands on an empty cell writes a virus of a
      palette colour there, until count viruses are placed. */
  method ScatterViruses(m: array2<Cell>, ghost g: Grid, count: int) returns (ghost g': Grid)
    requires Tie(m, g) && 3 <= m.Length0 && 6 <= m.Length1
    modifies m
    ensures Tie(m, g') && Scattered(g, g', m.Length0, m.Length1)
    ensures |ChangedCells(g, g', m.Length0, m.Length1)| <= (if count < 0 then 0 else count)
    ensures VirusCount(g') == VirusCount(g) + |ChangedCells(g, g', m.Length0, m.Length1)|
  {
    var maxAttempts := count * 2;
    var attempts := 0;
    var placed := 0;
    g' := g;
    assert ChangedCells(g, g', m.Length0, m.Length1) == {};
    while placed < count && attempts < maxAttempts
      invariant Tie(m, g')
      invariant 0 <= placed && (placed <= count || placed == 0)
      invariant Scattered(g, g', m.Length0, m.Length1)
      invariant |ChangedCells(g, g', m.Length0, m.Length1)| == placed
      invariant VirusCount(g') == VirusCount(g) + placed
      decreases maxAttempts - attempts
    {
      var one;
      one, g' := DrawVirus(m, g, g');
      attempts := attempts + 1;
      if one {
        placed := placed + 1;
      }
    }
  }

  /** One attempt of spawnViruses: a cell drawn from the spawn box gets a virus of a
      palette colour when it is empty. */
  method DrawVirus(m: array2<Cell>, ghost g0: Grid, ghost g: Grid) returns (placedOne: bool, ghost g': Grid)
    requires Tie(m, g) && 3 <= m.Length0 && 6 <= m.Length1 && Scattered(g0, g, m.Length0, m.Length1)
    modifies m
    ensures Tie(m, g') && Scattered(g0, g', m.Length0, m.Length1)
    ensures |ChangedCells(g0, g', m.Length0, m.Length1)| ==
      |ChangedCells(g0, g, m.Length0, m.Length1)| + (if placedOne then 1 else 0)
    ensures VirusCount(g') == VirusCount(g) + (if placedOne then 1 else 0)
  {
    var rx := NextInt(m.Length0 - 2);
    var x := rx + 1;
    var ry := NextInt(m.Length1 - 5);
    var y := ry + 4;
    placedOne := false;
    g' := g;
    if m[x, y] == None {
      var color := PickColor();
      PlaceStep(g0, g, m.Length0, m.Length1, x, y, color);
      g' := Write(m, g, x, y, Some(NewVirus(color)));
      placedOne := true;
    }
  }

  /** The facts one virus write keeps: the grid differs from `g0` by one more cell. */
  lemma PlaceStep(g0: Grid, g: Grid, w: int, h: int, x: int, y: int, color: string)
    requires Scattered(g0, g, w, h)
    requires InSpawnBox(w, h, Position(x, y)) && g[x][y].None? && color in Palette
    ensures Scattered(g0, Put(g, x, y, Some(NewVirus(color))), w, h)
    ensures |ChangedCells(g0, Put(g, x, y, Some(NewVirus(color))), w, h)| ==
      |ChangedCells(g0, g, w, h)| + 1
    ensures VirusCount(Put(g, x, y, Some(NewVirus(color)))) == VirusCount(g) + 1
  {
    var v := Some(NewVirus(color));
    ChangedAdd(g0, g, w, h, x, y, v);
    VirusCountUpdate(g, x, y, v);
  }

  class Arena {
    const width: int
    const height: int
    const matrix: array2<Cell>
    const walls: seq<Position>
    var currentPill: Pill?
    /** The preview pill of the arena interface. */
    var nextPill: Pill?
    /** The matrix contents as a value. */
    ghost var grid: Grid

    /** The matrix is width x height and mirrored by `grid`, the wall list is the one
        createWalls builds. The bounds on the
        dimensions are those the virus spawn needs (Random.nextInt rejects a bound that
        is not positive) and the int range of the source. */
    ghost predicate Valid()
      reads this, matrix
    {
      3 <= width <= GravitySpec.MaxInt && 6 <= height <= GravitySpec.MaxInt &&
      matrix.Length0 == width && matrix.Length1 == height &&
      Tie(matrix, grid) && WellShaped(grid) && Height(grid) == height &&
      walls == WallList(width, height)
    }

    /** A fresh arena: an empty matrix, the wall ring, up to five viruses in the spawn
        box and, when the spawn cells are free, a falling pill at (width/2, 1). */
    constructor (width: int, height: int)
      requires 3 <= width <= GravitySpec.MaxInt && 6 <= height <= GravitySpec.MaxInt
      ensures Valid() && fresh(matrix)
      ensures this.width == width && this.height == height
      ensures Sprinkled(grid, width, height) && VirusCount(grid) <= 5
      ensures nextPill == null
      ensures currentPill != null <==> width >= 5
      ensures currentPill != null ==> fresh(currentPill) && currentPill.position == Position(width / 2, 1)
      ensures currentPill != null ==> currentPill.orientation == 0
      ensures currentPill != null ==> currentPill.color1 in Palette && currentPill.color2 in Palette
      ensures currentPill != null ==> PillFits(grid, walls, currentPill.position, currentPill.orientation)
    {
      this.width := width;
      this.height := height;
      matrix := new Cell[width, height]((x, y) => None);
      var w := CreateWalls(width, height);
      walls := w;
      grid := EmptyGrid(width, height);
      currentPill := null;
      nextPill := null;
      new;
      Populate();
    }

    /** The constructor's calls spawnViruses(5) and spawnNewPill() on the empty matrix. */
    method Populate()
      requires Valid() && currentPill == null
      requires forall x, y :: 0 <= x < width && 0 <= y < height ==> grid[x][y].None?
      modifies matrix, this`grid, this`currentPill
      ensures Valid() && Sprinkled(grid, width, height) && VirusCount(grid) <= 5
      ensures currentPill != null <==> width >= 5
      ensures currentPill != null ==> fresh(currentPill) && currentPill.position == Position(width / 2, 1)
      ensures currentPill != null ==> currentPill.orientation == 0
      ensures currentPill != null ==> currentPill.color1 in Palette && currentPill.color2 in Palette
      ensures currentPill != null ==> PillFits(grid, walls, currentPill.position, currentPill.orientation)
    {
      ghost var g0 := grid;
      VirusCountZero(g0);
      SpawnViruses(5);
      SprinkledFromEmpty(g0, grid, width, height);
      var _ := SpawnNewPill();
    }

    /** isInside: 0 <= x < width and 0 <= y < height. */
    predicate IsInside(p: Position): (r: bool)
      ensures r <==> 0 <= p.x < width && 0 <= p.y < height
    {
      Inside(width, height, p)
    }

    method SetCurrentPill(pill: Pill?)
      requires Valid()
      modifies this`currentPill
      ensures Valid() && currentPill == pill
    {
      currentPill := pill;
    }

    method SetNextPill(pill: Pill?)
      requires Valid()
      modifies this`nextPill
      ensures Valid() && nextPill == pill
    {
      nextPill := pill;
    }

    /** spawnNewPill: a pill of two palette colours at (width/2, 1), horizontal; it
        becomes the falling pill only when both halves are inside, off the walls and
        on empty cells, and the result reports whether it did. */
    method SpawnNewPill() returns (ok: bool)
      requires Valid()
      modifies this`currentPill
      ensures Valid()
      ensures ok <==> PillFits(grid, walls, Position(width / 2, 1), 0)
      ensures ok ==> (currentPill != null && fresh(currentPill) &&
                      currentPill.position == Position(width / 2, 1) && currentPill.orientation == 0 &&
                      currentPill.color1 in Palette && currentPill.color2 in Palette)
      ensures !ok ==> currentPill == old(currentPill)
    {
      var color1 := PickColor();
      var color2 := PickColor();
      var candidate := new Pill(width / 2, 1, color1, color2);
      var p1 := candidate.position;
      var p2 := candidate.OtherHalf();
      if !IsInside(p1) || !IsInside(p2) {
        return false;
      }
      var hit := HitsWall(walls, p1, p2);
      if hit {
        return false;
      }
      if matrix[p1.x, p1.y] != None || matrix[p2.x, p2.y] != None {
        return false;
      }
      currentPill := candidate;
      return true;
    }

    /** spawnViruses: see ScatterViruses. */
    method SpawnViruses(count: int)
      requires Valid()
      modifies matrix, this`grid
      ensures Valid()
      ensures Scattered(old(grid), grid, width, height)
      ensures |ChangedCells(old(grid), grid, width, height)| <= (if count < 0 then 0 else count)
      ensures VirusCount(grid) == VirusCount(old(grid)) + |ChangedCells(old(grid), grid, width, height)|
    {
      grid := ScatterViruses(matrix, grid, count);
    }

    /** getVirusCount: the number of virus cells in the matrix. */
    method GetVirusCount() returns (n: nat)
      requires Valid()
      ensures n == VirusCount(grid)
    {
      n := 0;
      var x := 0;
      while x < width
        invariant 0 <= x <= width && n == VirusCount(grid[..x])
      {
        var c := ColumnViruses(x);
        assert grid[..x + 1][..x] == grid[..x];
        n := n + c;
        x := x + 1;
      }
      assert grid[..width] == grid;
    }

    /** The viruses of matrix column x. */
    method ColumnViruses(x: int) returns (c: nat)
      requires Valid() && 0 <= x < width
      ensures c == CountInColumn(grid[x])
    {
      c := 0;
      var y := 0;
      while y < height
        invariant 0 <= y <= height && c == CountInColumn(grid[x][..y])
      {
        assert grid[x][..y + 1][..y] == grid[x][..y];
        if matrix[x, y].Some? && matrix[x, y].value.isVirus {
          c := c + 1;
        }
        y := y + 1;
      }
      assert grid[x][..height] == grid[x];
    }

    /** generateNextPill: a fresh horizontal preview pill of two palette colours at the
        spawn cell, or no pill and a false result (the interface lets generation fail). */
    method GenerateNextPill() returns (ok: bool)
      requires Valid()
      modifies this`nextPill
      ensures Valid()
      ensures ok ==> (nextPill != null && fresh(nextPill) &&
                      nextPill.position == Position(width / 2, 1) && nextPill.orientation == 0 &&
                      nextPill.color1 in Palette && nextPill.color2 in Palette)
      ensures !ok ==> nextPill == null
    {
      var draw := NextInt(2);
      ok := draw == 0;
      if ok {
        var color1 := PickColor();
        var color2 := PickColor();
        nextPill := new Pill(width / 2, 1, color1, color2);
      } else {
        nextPill := null;
      }
    }
  }
}
