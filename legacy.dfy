/** The root-package arena, an earlier self-contained variant of the game: the same
    matrix, walls, virus spawn, movement checks and run clearing as the model arena
    and its controller, but a pill spawn without any collision check, a fall that never
    settles by itself, no score, and per-column compaction gravity under which viruses
    fall too. */
module LegacyGame {
  import opened Wrappers
  import opened Positions
  import opened Blocks
  import opened Pills
  import opened Grids
  import opened Oracle
  import opened Clearing
  import opened Placement
  import opened ColumnGravity
  import opened GameArena
  import GravitySpec

  class LegacyArena {
    const width: int
    const height: int
    const matrix: array2<Cell>
    const walls: seq<Position>
    var currentPill: Pill?
    /** The matrix contents as a value. */
    ghost var grid: Grid

    /** The matrix is width x height and mirrored by `grid`, the wall list is the one
        createWalls builds; the dimensions are those the virus spawn needs. */
    ghost predicate Valid()
      reads this, matrix
    {
      3 <= width <= GravitySpec.MaxInt && 6 <= height <= GravitySpec.MaxInt &&
      matrix.Length0 == width && matrix.Length1 == height &&
      Tie(matrix, grid) && WellShaped(grid) && Height(grid) == height &&
      walls == WallList(width, height)
    }

    /** A fresh arena: an empty matrix, the wall ring, up to five viruses in the spawn
        box and always a falling pill at (width/2, 1). */
    constructor (width: int, height: int)
      requires 3 <= width <= GravitySpec.MaxInt && 6 <= height <= GravitySpec.MaxInt
      ensures Valid() && fresh(matrix)
      ensures this.width == width && this.height == height
      ensures Sprinkled(grid, width, height) && VirusCount(grid) <= 5
      ensures currentPill != null && fresh(currentPill)
      ensures currentPill.position == Position(width / 2, 1) && currentPill.orientation == 0
      ensures currentPill.color1 in Palette && currentPill.color2 in Palette
    {
      this.width := width;
      this.height := height;
      matrix := new Cell[width, height]((x, y) => None);
      var w := CreateWalls(width, height);
      walls := w;
      grid := EmptyGrid(width, height);
      currentPill := null;
      new;
      ghost var g0 := grid;
      VirusCountZero(g0);
      SpawnViruses(5);
      SprinkledFromEmpty(g0, grid, width, height);
      SpawnNewPill();
    }

    /** isInside: 0 <= x < width and 0 <= y < height. */
    predicate IsInside(p: Position): (r: bool)
      ensures r <==> 0 <= p.x < width && 0 <= p.y < height
    {
      Inside(width, height, p)
    }

    /** spawnNewPill: a pill of two palette colours at (width/2, 1), horizontal, always
        becomes the falling pill, whatever lies under it. */
    method SpawnNewPill()
      requires Valid()
      modifies this`currentPill
      ensures Valid()
      ensures currentPill != null && fresh(currentPill)
      ensures currentPill.position == Position(width / 2, 1) && currentPill.orientation == 0
      ensures currentPill.color1 in Palette && currentPill.color2 in Palette
    {
      var color1 := PickColor();
      var color2 := PickColor();
      currentPill := new Pill(width / 2, 1, color1, color2);
    }

    /** spawnViruses: the same draws as the model arena's (ScatterViruses). */
    method SpawnViruses(count: int)
      requires Valid()
      modifies matrix, this`grid
      ensures Valid()
      ensures Scattered(old(grid), grid, width, height)
      ensures |ChangedCells(old(grid), grid, width, height)| <= (if count < 0 then 0 else count)
      ensures VirusCount(grid) == VirusCount(old(grid)) + |ChangedCells(old(grid), grid, width, height)|
    {
      grid := ScatterViruses(matrix, grid, count);
    }

    /** fallPill: the pill goes one row down when that fits, and the result says
        whether it did; without a pill nothing happens. It never settles the pill. */
    method FallPill() returns (moved: bool)
      requires Valid()
      modifies currentPill
      ensures Valid() && currentPill == old(currentPill)
      ensures currentPill == null ==> !moved
      ensures currentPill != null ==>
        (moved <==> PillFits(grid, walls, Offset(old(currentPill.position), 0, 1), old(currentPill.orientation)))
      ensures currentPill != null ==>
        Attempted(grid, walls, old(currentPill.position), old(currentPill.orientation),
                  Offset(old(currentPill.position), 0, 1), old(currentPill.orientation),
                  currentPill.position, currentPill.orientation)
    {
      var pill := currentPill;
      if pill == null {
        return false;
      }
      var nextState := CopyPill(pill);
      nextState.MoveDown();
      var ok := CanMove(matrix, grid, walls, nextState);
      if ok {
        pill.MoveDown();
        return true;
      }
      return false;
    }

    /** movePillLeft: the pill goes one column left when that fits. */
    method MovePillLeft()
      requires Valid()
      modifies currentPill
      ensures Valid() && currentPill == old(currentPill)
      ensures currentPill != null ==>
        Attempted(grid, walls, old(currentPill.position), old(currentPill.orientation),
                  Offset(old(currentPill.position), -1, 0), old(currentPill.orientation),
                  currentPill.position, currentPill.orientation)
    {
      var pill := currentPill;
      if pill == null {
        return;
      }
      var nextState := CopyPill(pill);
      nextState.MoveLeft();
      var ok := CanMove(matrix, grid, walls, nextState);
      if ok {
        pill.MoveLeft();
      }
    }

    /** movePillRight: the pill goes one column right when that fits. */
    method MovePillRight()
      requires Valid()
      modifies currentPill
      ensures Valid() && currentPill == old(currentPill)
      ensures currentPill != null ==>
        Attempted(grid, walls, old(currentPill.position), old(currentPill.orientation),
                  Offset(old(currentPill.position), 1, 0), old(currentPill.orientation),
                  currentPill.position, currentPill.orientation)
    {
      var pill := currentPill;
      if pill == null {
        return;
      }
      var nextState := CopyPill(pill);
      nextState.MoveRight();
      var ok := CanMove(matrix, grid, walls, nextState);
      if ok {
        pill.MoveRight();
      }
    }

    /** rotatePill: the turned pill replaces the old one when it fits (no wall kick). */
    method RotatePill()
      requires Valid()
      modifies currentPill
      ensures Valid() && currentPill == old(currentPill)
      ensures currentPill != null ==>
        Attempted(grid, walls, old(currentPill.position), old(currentPill.orientation),
                  old(currentPill.position), Turn(old(currentPill.orientation)),
                  currentPill.position, currentPill.orientation)
    {
      var pill := currentPill;
      if pill == null {
        return;
      }
      var nextState := CopyPill(pill);
      nextState.Rotate();
      var ok := CanMove(matrix, grid, walls, nextState);
      if ok {
        pill.Rotate();
      }
    }

    /** checkAndClearLines: the runs of four are marked and handed to the column-wise
        removeMarkedBlocks. */
    method CheckAndClearLines() returns (ghost cleared: set<Position>)
      requires Valid()
      modifies matrix, this`grid
      ensures Valid() && cleared == Marked(old(grid))
      ensures grid == AfterColumnRemoval(old(grid), cleared)
    {
      var toRemove := MarkRuns(matrix, grid);
      cleared := toRemove;
      grid := RemoveMarkedColumnwise(matrix, grid, toRemove);
      DroppedBorder(ClearCells(old(grid), cleared));
    }

    /** settlePill: the pill's halves are written into the matrix where inside, the
        runs are cleared with column gravity, and only then does the falling pill go;
        without a pill nothing happens. */
    method SettlePill() returns (ghost stamped: Grid)
      requires Valid()
      modifies matrix, this`grid, this`currentPill
      ensures Valid()
      ensures old(currentPill) == null ==> grid == old(grid) && currentPill == null
      ensures old(currentPill) != null ==>
        Stamped(old(grid), stamped, old(currentPill.position), old(currentPill.color1),
                HalfAt(old(currentPill.position), old(currentPill.orientation)), old(currentPill.color2)) &&
        grid == AfterColumnRemoval(stamped, Marked(stamped)) && currentPill == null
    {
      stamped := grid;
      var pill := currentPill;
      if pill == null {
        return;
      }
      var p1 := pill.position;
      var p2 := pill.OtherHalf();
      HalvesAdjacent(p1, pill.orientation);
      grid := FixHalves(matrix, grid, p1, pill.color1, p2, pill.color2);
      stamped := grid;
      var _ := CheckAndClearLines();
      currentPill := null;
    }
  }
}
