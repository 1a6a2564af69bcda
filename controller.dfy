/** The game-screen controller: moves and rotates the falling pill on request, lets it
    fall, and when it lands fixes it into the matrix, clears runs, applies gravity,
    scores, and brings in the next pill or ends the game. */
module GameController {
  import opened Wrappers
  import opened Positions
  import opened Blocks
  import opened Pills
  import opened Grids
  import opened Oracle
  import opened Clearing
  import opened GravitySpec
  import opened ClusterGravity
  import opened GameArena
  import opened Difficulties
  import opened Keys
  import opened Placement

  /** Points per removed cell at each difficulty. */
  function Multiplier(d: Difficulty): (r: int)
    ensures r in {10, 15, 20, 30}
  {
    match d
    case EASY => 10
    case NORMAL => 15
    case HARD => 20
    case INSANE => 30
  }

  /** Harder levels pay more per cell: the multiplier grows with the ordinal and, as
      the fall delay shrinks with it, shrinks with the delay. */
  lemma MultiplierGrowsWithLevel(a: Difficulty, b: Difficulty)
    ensures Ordinal(a) < Ordinal(b) <==> Multiplier(a) < Multiplier(b)
    ensures DelayMs(a) > DelayMs(b) <==> Multiplier(a) < Multiplier(b)
  {
    DelaysDecrease(a, b);
  }

  /** What the game screen does with a key. */
  datatype Command = Left | Right | Rotate | Fall

  /** processKey's dispatch: the W, A, S, D letters in either case and the four arrows;
      no keystroke and every other key do nothing. */
  function CommandOf(key: Option<Key>): (r: Option<Command>)
    ensures r == Some(Left) <==> key == Some(ArrowLeft) || (key.Some? && IsLetter(key.value, 'a'))
    ensures r == Some(Right) <==> key == Some(ArrowRight) || (key.Some? && IsLetter(key.value, 'd'))
    ensures r == Some(Rotate) <==> key == Some(ArrowUp) || (key.Some? && IsLetter(key.value, 'w'))
    ensures r == Some(Fall) <==> key == Some(ArrowDown) || (key.Some? && IsLetter(key.value, 's'))
  {
    match key
    case None => None
    case Some(k) =>
      match k
      case Character(c) =>
        var l := ToLower(c);
        if l == 'a' then Some(Left)
        else if l == 'd' then Some(Right)
        else if l == 'w' then Some(Rotate)
        else if l == 's' then Some(Fall)
        else None
      case ArrowLeft => Some(Left)
      case ArrowRight => Some(Right)
      case ArrowUp => Some(Rotate)
      case ArrowDown => Some(Fall)
      case _ => None
  }

  /** The grid after removeMarkedBlocks: unchanged when nothing is marked, otherwise
      the marked cells emptied and then rearranged by gravity until nothing can fall,
      with viruses, border cells and the number of blocks of each colour kept. */
  ghost predicate AfterRemoval(g0: Grid, toRemove: set<Position>, g: Grid)
    requires WellShaped(g0)
  {
    (toRemove == {} ==> g == g0) &&
    (toRemove != {} ==> Conserves(ClearCells(g0, toRemove), g) && Settled(g))
  }

  /** removeMarkedBlocks: empties the marked cells, then applies cluster gravity;
      an empty set changes nothing. */
  method RemoveMarkedBlocks(m: array2<Cell>, ghost g: Grid, toRemove: set<Position>) returns (ghost g': Grid)
    requires Tie(m, g) && WellShaped(g) && m.Length1 <= MaxInt && toRemove == Marked(g)
    modifies m
    ensures Tie(m, g') && WellShaped(g') && Height(g') == Height(g)
    ensures AfterRemoval(g, toRemove, g')
  {
    if toRemove == {} {
      return g;
    }
    MarkedInside(g);
    var g1 := RemoveCells(m, g, toRemove);
    g' := ApplyClusterGravity(m, g1);
  }

  /** Where a move, a push to the right or a turn would take a pill. */
  function Target(c: Command, p: Position, o: Orientation): (r: (Position, Orientation))
    requires c != Fall
    ensures c == Left ==> r == (Offset(p, -1, 0), o)
    ensures c == Right ==> r == (Offset(p, 1, 0), o)
    ensures c == Rotate ==> r == (p, Turn(o))
  {
    match c
    case Left => (Offset(p, -1, 0), o)
    case Right => (Offset(p, 1, 0), o)
    case Rotate => (p, Turn(o))
  }

  /** The parts of a controller state that settlePill's outcome refers back to. */
  datatype Before = Before(grid: Grid, score: int, victory: bool, gameOver: bool,
                           pivot: Position, half: Position, color1: string, color2: string,
                           next: Pill?, nextOrientation: int)

  class ArenaController {
    const arena: Arena
    var gameOver: bool
    const endlessMode: bool
    var score: int
    const scoreMultiplier: int
    var victory: bool

    ghost predicate Valid()
      reads this, arena, arena.matrix
    {
      arena.Valid()
    }

    /** While the game runs, the falling pill occupies two empty, non-wall cells. */
    ghost predicate PillFree()
      reads this, arena, arena.matrix, arena.currentPill
    {
      Valid() &&
      (!gameOver && arena.currentPill != null ==>
        PillFits(arena.grid, arena.walls, arena.currentPill.position, arena.currentPill.orientation))
    }

    /** The falling pill after movePillLeft, movePillRight or rotatePill: after game
        over, or when the target position does not fit, it stays as it was; otherwise
        it takes the target. */
    twostate predicate MoveTried(c: Command)
      requires c != Fall
      reads this, arena, arena.matrix, arena.currentPill
    {
      Valid() && old(arena.currentPill) == arena.currentPill &&
      (arena.currentPill != null ==>
        var p0, o0 := old(arena.currentPill.position), old(arena.currentPill.orientation);
        var target := Target(c, p0, o0);
        if gameOver then arena.currentPill.position == p0 && arena.currentPill.orientation == o0
        else Attempted(arena.grid, arena.walls, p0, o0, target.0, target.1,
                       arena.currentPill.position, arena.currentPill.orientation))
    }

    constructor (arena: Arena, endlessMode: bool, difficulty: Difficulty)
      ensures this.arena == arena && this.endlessMode == endlessMode
      ensures scoreMultiplier == Multiplier(difficulty)
      ensures !gameOver && !victory && score == 0
    {
      this.arena := arena;
      this.endlessMode := endlessMode;
      scoreMultiplier := Multiplier(difficulty);
      gameOver := false;
      victory := false;
      score := 0;
    }

    /** The one- and two-argument constructors: not endless, NORMAL difficulty. */
    constructor Default (arena: Arena, endlessMode: bool)
      ensures this.arena == arena && this.endlessMode == endlessMode
      ensures scoreMultiplier == Multiplier(NORMAL)
      ensures !gameOver && !victory && score == 0
    {
      this.arena := arena;
      this.endlessMode := endlessMode;
      scoreMultiplier := Multiplier(NORMAL);
      gameOver := false;
      victory := false;
      score := 0;
    }

    /** movePillLeft: the pill goes one column left when that fits; nothing happens
        after game over or without a pill. */
    method MovePillLeft()
      requires Valid()
      modifies arena.currentPill
      ensures Valid()
      ensures old(PillFree()) ==> PillFree()
      ensures PreviewKept(old(arena.nextPill))
      ensures MoveTried(Left)
    {
      if gameOver {
        return;
      }
      var pill := arena.currentPill;
      if pill == null {
        return;
      }
      var nextState := CopyPill(pill);
      nextState.MoveLeft();
      var ok := CanMove(arena.matrix, arena.grid, arena.walls, nextState);
      if ok {
        pill.MoveLeft();
      }
    }

    /** movePillRight: the pill goes one column right when that fits. */
    method MovePillRight()
      requires Valid()
      modifies arena.currentPill
      ensures Valid()
      ensures old(PillFree()) ==> PillFree()
      ensures PreviewKept(old(arena.nextPill))
      ensures MoveTried(Right)
    {
      if gameOver {
        return;
      }
      var pill := arena.currentPill;
      if pill == null {
        return;
      }
      var nextState := CopyPill(pill);
      nextState.MoveRight();
      var ok := CanMove(arena.matrix, arena.grid, arena.walls, nextState);
      if ok {
        pill.MoveRight();
      }
    }

    /** rotatePill: the second half moves one step along right, up, left, down about
        the pivot when the turned pill fits (there is no wall kick). */
    method RotatePill()
      requires Valid()
      modifies arena.currentPill
      ensures Valid()
      ensures old(PillFree()) ==> PillFree()
      ensures PreviewKept(old(arena.nextPill))
      ensures MoveTried(Rotate)
    {
      if gameOver {
        return;
      }
      var pill := arena.currentPill;
      if pill == null {
        return;
      }
      var nextState := CopyPill(pill);
      nextState.Rotate();
      var ok := CanMove(arena.matrix, arena.grid, arena.walls, nextState);
      if ok {
        pill.Rotate();
      }
    }

    /** The first step of settlePill: each half of the pill that is inside the arena
        becomes a block of that half's colour. */
    method FixPill(pill: Pill)
      requires Valid()
      modifies arena.matrix, arena`grid
      ensures Valid()
      ensures Stamped(old(arena.grid), arena.grid, pill.position, pill.color1, pill.OtherHalf(), pill.color2)
    {
      HalvesAdjacent(pill.position, pill.orientation);
      arena.grid := FixHalves(arena.matrix, arena.grid, pill.position, pill.color1, pill.OtherHalf(), pill.color2);
    }

    /** checkAndClearLines: every cell on a run of four is removed, the score grows by
        the number of removed cells times the multiplier, and when anything was removed
        gravity runs until no cluster can fall. */
    method CheckAndClearLines() returns (ghost cleared: set<Position>)
      requires Valid()
      modifies this`score, arena.matrix, arena`grid
      ensures Valid()
      ensures cleared == Marked(old(arena.grid))
      ensures score == old(score) + |cleared| * scoreMultiplier
      ensures AfterRemoval(old(arena.grid), cleared, arena.grid)
    {
      var toRemove := MarkRuns(arena.matrix, arena.grid);
      cleared := toRemove;
      if toRemove != {} {
        score := score + |toRemove| * scoreMultiplier;
      }
      arena.grid := RemoveMarkedBlocks(arena.matrix, arena.grid, toRemove);
    }

    /** The preview pill, as the start of a promotion sees it: the pill object and its
        orientation. */
    ghost function NextOrientation(): int
      reads this, arena, arena.nextPill
    {
      if arena.nextPill != null then arena.nextPill.orientation else 0
    }

    /** The promotion at the end of settlePill, given the game-over flag, the preview
        pill and its orientation before it: either generation of a missing preview
        failed and the game is over without a pill, or the preview (or a newly
        generated pill) is the falling pill at (width/2, 1) with its orientation kept,
        another preview or none is waiting, and the game is over exactly when it was
        already or the new falling pill does not fit. */
    ghost predicate Promoted(over0: bool, next0: Pill?, orientation0: int)
      reads this, arena, arena.matrix, arena.currentPill, arena.nextPill
    {
      Valid() &&
      (arena.currentPill == null ==> gameOver && next0 == null && arena.nextPill == null) &&
      (arena.currentPill != null ==>
        arena.currentPill.position == Position(arena.width / 2, 1) &&
        (next0 != null ==> arena.currentPill == next0 && arena.currentPill.orientation == orientation0) &&
        (next0 == null ==>
          arena.currentPill.orientation == 0 &&
          arena.currentPill.color1 in Palette && arena.currentPill.color2 in Palette) &&
        (arena.nextPill != null ==>
          arena.nextPill != arena.currentPill && arena.nextPill.orientation == 0 &&
          arena.nextPill.color1 in Palette && arena.nextPill.color2 in Palette) &&
        gameOver == (over0 ||
                     !PillFits(arena.grid, arena.walls, arena.currentPill.position, arena.currentPill.orientation)))
    }

    /** Lines 129-153 of settlePill: promote the preview, refill it, check the fit. */
    method PromoteNext()
      requires Valid() && arena.currentPill == null
      modifies this`gameOver, arena`currentPill, arena`nextPill, arena.nextPill
      ensures Promoted(old(gameOver), old(arena.nextPill), old(NextOrientation())) && PillFree()
      ensures old(arena.nextPill) == null && arena.currentPill != null ==> fresh(arena.currentPill)
      ensures arena.nextPill != null ==> fresh(arena.nextPill)
    {
      var next := arena.nextPill;
      if next == null {
        var genOk := arena.GenerateNextPill();
        if !genOk {
          gameOver := true;
          return;
        }
        next := arena.nextPill;
      }
      next.PlaceAt(arena.width / 2, 1);
      arena.SetCurrentPill(next);
      var gen := arena.GenerateNextPill();
      CheckSpawnFit();
    }

    /** Lines 145-153 of settlePill: the game is over when the new falling pill is not
        inside, lies on a wall or overlaps a block. */
    method CheckSpawnFit()
      requires Valid() && arena.currentPill != null
      modifies this`gameOver
      ensures gameOver == (old(gameOver) ||
                           !PillFits(arena.grid, arena.walls, arena.currentPill.position, arena.currentPill.orientation))
    {
      var p1n := arena.currentPill.position;
      var p2n := arena.currentPill.OtherHalf();
      // the three checks of the source, joined; the first always passes (SpawnInside)
      var inside := arena.IsInside(p1n) && arena.IsInside(p2n);
      var hit := HitsWall(arena.walls, p1n, p2n);
      var occupied := inside && (arena.matrix[p1n.x, p1n.y] != None || arena.matrix[p2n.x, p2n.y] != None);
      if !inside || hit || occupied {
        gameOver := true;
      }
    }

    /** The end of settlePill, given the victory and game-over flags and the preview
        before it: either the level is won (no virus is left and the mode is not
        endless) and no pill falls, or the next pill is promoted. */
    ghost predicate Concluded(victory0: bool, over0: bool, next0: Pill?, orientation0: int)
      reads this, arena, arena.matrix, arena.currentPill, arena.nextPill
    {
      Valid() &&
      var won := VirusCount(arena.grid) == 0 && !endlessMode;
      victory == (victory0 || won) &&
      (won ==> arena.currentPill == null && gameOver == over0 && arena.nextPill == next0) &&
      (!won ==> Promoted(over0, next0, orientation0))
    }

    /** Lines 119-153 of settlePill, once the pill is fixed and the runs cleared. */
    method FinishSettle()
      requires Valid() && arena.currentPill == null
      modifies this`gameOver, this`victory, arena`currentPill, arena`nextPill, arena.nextPill
      ensures Concluded(old(victory), old(gameOver), old(arena.nextPill), old(NextOrientation())) && PillFree()
    {
      var count := arena.GetVirusCount();
      if count == 0 {
        if !endlessMode {
          victory := true;
          return;
        }
      }
      PromoteNext();
    }

    /** The state settlePill starts from. */
    ghost function Snapshot(): Before
      reads this, arena, arena.currentPill, arena.nextPill
    {
      var p := arena.currentPill;
      Before(arena.grid, score, victory, gameOver,
             if p != null then p.position else Position(0, 0),
             if p != null then p.OtherHalf() else Position(0, 0),
             if p != null then p.color1 else "", if p != null then p.color2 else "",
             arena.nextPill, NextOrientation())
    }

    /** What settlePill does from state b with a falling pill: its halves become
        blocks (`stamped`), the runs are cleared and scored, gravity settles the rest,
        and the level is won or the next pill promoted (Concluded). */
    ghost predicate SettleOutcome(b: Before, stamped: Grid)
      requires WellShaped(b.grid)
      reads this, arena, arena.matrix, arena.currentPill, arena.nextPill
    {
      Stamped(b.grid, stamped, b.pivot, b.color1, b.half, b.color2) &&
      score == b.score + |Marked(stamped)| * scoreMultiplier &&
      AfterRemoval(stamped, Marked(stamped), arena.grid) &&
      Concluded(b.victory, b.gameOver, b.next, b.nextOrientation)
    }

    /** settlePill: see SettleOutcome; without a falling pill nothing happens. */
    method SettlePill() returns (ghost stamped: Grid)
      requires Valid()
      modifies this, arena, arena.matrix, arena.nextPill
      ensures Valid()
      ensures old(arena.currentPill) == null ==> unchanged(this, arena, arena.matrix)
      ensures old(arena.currentPill) != null ==> SettleOutcome(old(Snapshot()), stamped) && PillFree()
    {
      var pill := arena.currentPill;
      if pill == null {
        return arena.grid;
      }
      FixPill(pill);
      stamped := arena.grid;
      arena.SetCurrentPill(null);
      var cleared := CheckAndClearLines();
      FinishSettle();
    }

    /** The preview pill next0 of the previous state, unless it is now the falling pill,
        is as it was. */
    twostate predicate PreviewKept(next0: Pill?)
      reads this, arena, next0
    {
      next0 != null && next0 != arena.currentPill ==> unchanged(next0)
    }

    /** What fallPill leaves: after game over or without a pill nothing changes, the
        falling and the preview pill included; otherwise the pill drops one row when
        that fits, keeping its orientation and the preview, and is settled when not. */
    twostate predicate FallDone(moved: bool, new stamped: Grid)
      requires old(Valid())
      reads this, arena, arena.matrix, arena.currentPill, arena.nextPill
    {
      (old(gameOver) || old(arena.currentPill) == null ==>
         !moved && unchanged(this, arena, arena.matrix) &&
         (arena.currentPill != null ==> unchanged(arena.currentPill)) &&
         (arena.nextPill != null ==> unchanged(arena.nextPill))) &&
      (!old(gameOver) && old(arena.currentPill) != null ==>
         (moved <==> PillFits(old(arena.grid), arena.walls, Offset(old(arena.currentPill.position), 0, 1),
                              old(arena.currentPill.orientation))) &&
         (moved ==> unchanged(this, arena, arena.matrix) && arena.currentPill != null &&
                    arena.currentPill.position == Offset(old(arena.currentPill.position), 0, 1) &&
                    arena.currentPill.orientation == old(arena.currentPill.orientation) && PreviewKept(old(arena.nextPill))) &&
         (!moved ==> SettleOutcome(old(Snapshot()), stamped)))
    }

    /** fallPill: the pill drops one row when that fits; otherwise it is settled. After
        game over or without a pill nothing happens. The result says whether the pill
        dropped (FallDone). */
    method FallPill() returns (moved: bool, ghost stamped: Grid)
      requires Valid()
      modifies this, arena, arena.matrix, arena.currentPill, arena.nextPill
      ensures Valid() && (old(PillFree()) ==> PillFree())
      ensures FallDone(moved, stamped)
    {
      stamped := arena.grid;
      if gameOver {
        return false, stamped;
      }
      var pill := arena.currentPill;
      if pill == null {
        return false, stamped;
      }
      var nextState := CopyPill(pill);
      nextState.MoveDown();
      var ok := CanMove(arena.matrix, arena.grid, arena.walls, nextState);
      if ok {
        pill.MoveDown();
        return true, stamped;
      } else {
        stamped := SettlePill();
        return false, stamped;
      }
    }

    /** processKey: the command of the key (CommandOf) is carried out; a key without a
        command changes nothing. A fall either drops the pill one row, when that fits,
        or settles it. */
    method ProcessKey(key: Option<Key>)
      requires Valid()
      modifies this, arena, arena.matrix, arena.currentPill, arena.nextPill
      ensures Valid() && (old(PillFree()) ==> PillFree())
      ensures CommandOf(key) != Some(Fall) ==> unchanged(this, arena, arena.matrix) && PreviewKept(old(arena.nextPill))
      ensures CommandOf(key) == None && arena.currentPill != null ==> unchanged(arena.currentPill)
      ensures CommandOf(key).Some? && CommandOf(key) != Some(Fall) ==> MoveTried(CommandOf(key).value)
      ensures CommandOf(key) == Some(Fall) ==> exists moved, stamped :: FallDone(moved, stamped)
    {
      match CommandOf(key)
      case None =>
      case Some(Left) => MovePillLeft();
      case Some(Right) => MovePillRight();
      case Some(Rotate) => RotatePill();
      case Some(Fall) =>
        var moved, stamped := FallPill();
        assert FallDone(moved, stamped);
    }
  }
}
