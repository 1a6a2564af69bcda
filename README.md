# DrMario grid core

A model of the falling-block core of a Dr. Mario clone: a width x height matrix
ringed by walls, viruses scattered at start, a two-half pill that moves, rotates
and falls, and a settle step. The settle step fixes the pill's halves, removes
every horizontal or vertical run of four same-coloured cells, scores them and
applies gravity. Two variants of that core are modelled:

- the model-package `Arena` and its `ArenaController` (module `GameArena` and
  module `GameController`). Gravity moves connected clusters of non-virus blocks
  until no cluster can fall (`ClusterGravity`). Then the level is won or the
  preview pill is promoted.
- the earlier root-package `Arena` (module `LegacyGame`). Gravity there compacts
  each interior column (`ColumnGravity`), and viruses fall too.

The matrix is an `array2<Option<Block>>`. A ghost `grid` value (columns of cells,
indexed `[x][y]`) mirrors it, and every operation that writes the matrix states
its new contents as a function of the old ones. `Clearing` defines which cells
lie on runs and proves the scanning loop marks exactly those cells.
`GravitySpec` defines what a settled grid is: no closed set of movable blocks
that all hang over empty cells. It also defines what gravity must keep: viruses,
wall cells and the number of blocks of each colour. A potential function (the
sum of the distances of blocks to the floor) shows that the repeated gravity
passes terminate. The pill, the sword, blocks and viruses, the four difficulty
levels and the menu controller are modelled as well.

Randomness (`java.util.Random`) is the `Oracle` module: a draw is any value the
source's call could return. Keystrokes are the `Keys.Key` datatype.

Two points where the model follows the code rather than a simpler reading of it:

- The interface lets `generateNextPill` report failure, and the controller
  handles that case (ArenaController.java lines 132-133 and 142-143). The
  model's `GenerateNextPill` may therefore fail, and the failure path is
  modelled, although a preview pill can always be drawn in practice.
- The root-package `Arena` is an older copy of the model-package one. It is
  still part of the code, so it is modelled in its own module.

## Model

| member | source | states |
|---|---|---|
| Positions.Offset | project-t01g06/src/main/java/com/g06/model/Pill.java:36-50 | a moved position differs from the old one by exactly the requested column and row steps |
| Positions.AdjacentSymmetric | project-t01g06/src/main/java/com/g06/model/Pill.java:21-29 | orthogonal adjacency of two cells holds in both directions |
| Positions.PositionEquality | project-t01g06/src/test/java/com/g06/model/PositionTest.java:8-17 | two positions are equal exactly when both coordinates agree |
| Oracle.NextInt | project-t01g06/src/main/java/com/g06/model/Arena.java:69-70 | a random draw with a positive bound lies in [0, bound) |
| Oracle.PickColor | project-t01g06/src/main/java/com/g06/model/Arena.java:35-36 | a drawn colour is one of RED, YELLOW, BLUE |
| Blocks.NewBlock | project-t01g06/src/main/java/com/g06/model/Block.java:24-26 | a pill block keeps its colour, is not a virus and gets a texture in [0, 8) |
| Blocks.NewVirus | project-t01g06/src/main/java/Virus.java:2-7 | a virus keeps its colour, carries the virus flag and has texture 8, outside the block textures |
| Blocks.WithColor | project-t01g06/src/main/java/com/g06/model/Block.java:36-38 | setColor changes the colour only; texture and virus flag stay |
| Blocks.RecolouringKeepsIdentity | project-t01g06/src/main/java/com/g06/model/Block.java:28-42 | after any sequence of recolourings the texture and virus flag are the original ones and the colour is the last one set |
| Difficulties.Ordinal | project-t01g06/src/main/java/com/g06/controller/Difficulty.java:6-10 | each level sits at its own index of EASY, NORMAL, HARD, INSANE |
| Difficulties.Next | project-t01g06/src/main/java/com/g06/controller/Difficulty.java:18-22 | next goes one level up, and from INSANE back to EASY |
| Difficulties.Previous | project-t01g06/src/main/java/com/g06/controller/Difficulty.java:24-28 | previous goes one level down, and from EASY to INSANE |
| Difficulties.DelayMs | project-t01g06/src/main/java/com/g06/controller/Difficulty.java:7-16 | every delay lies between 150 and 700 ms; EASY alone has the longest and INSANE alone the shortest |
| Difficulties.DelaysDecrease | project-t01g06/src/main/java/com/g06/controller/Difficulty.java:7-16 | a higher level has a strictly shorter fall delay, and conversely |
| Difficulties.NextPreviousInverse | project-t01g06/src/main/java/com/g06/controller/Difficulty.java:18-28 | next and previous undo each other |
| Difficulties.FourStepsRestore | project-t01g06/src/main/java/com/g06/controller/Difficulty.java:18-28 | four steps either way return to the starting level |
| Difficulties.Wraparound | project-t01g06/src/main/java/com/g06/controller/Difficulty.java:20-26 | the cycle wraps at both ends |
| Keys.ToLower | project-t01g06/src/main/java/com/g06/controller/MenuController.java:44 | upper-case ASCII letters map to their lower-case letters, the dotted capital I (U+0130) to i and the Kelvin sign (U+212A) to k, every other character to itself |
| Keys.LowerIsAsciiLetter | project-t01g06/src/main/java/com/g06/controller/MenuController.java:44 | a character lower-cases to an ASCII letter exactly when it is an ASCII letter, U+0130 or U+212A |
| Keys.BothCasesMatch | project-t01g06/src/main/java/com/g06/controller/MenuController.java:44 | a letter binding is triggered by the letter in either case |
| Menu.ActionOf | project-t01g06/src/main/java/com/g06/controller/MenuController.java:41-68 | q selects QUIT, r or Escape RESTART, i INSTRUCTIONS, Enter START, each in both directions; no key yields NONE |
| Menu.DottedCapitalIInstructions | project-t01g06/src/main/java/com/g06/controller/MenuController.java:44-56 | the dotted capital I selects INSTRUCTIONS, as Java's toLowerCase maps it to i |
| Menu.KeyRolesDisjoint | project-t01g06/src/main/java/com/g06/controller/MenuController.java:32-59 | no key both lowers and raises the difficulty, and a difficulty key sets no action |
| Menu.MenuController.constructor | project-t01g06/src/main/java/com/g06/controller/MenuController.java:14-17 | a new menu has no pending action and NORMAL difficulty |
| Menu.MenuController.ConsumeAction | project-t01g06/src/main/java/com/g06/controller/MenuController.java:19-23 | returns the pending action and resets it to NONE |
| Menu.MenuController.ProcessKey | project-t01g06/src/main/java/com/g06/controller/MenuController.java:28-69 | no keystroke changes nothing; left arrow or A lowers and right arrow or D raises the difficulty leaving the action; action keys set the action leaving the difficulty; other keys change nothing |
| Menu.ConsumeTwice | project-t01g06/src/main/java/com/g06/controller/MenuController.java:19-23 | a second consume right after the first yields NONE |
| Swords.Sword.constructor | project-t01g06/src/main/java/com/g06/model/Sword.java:10-13 | the sword starts at (x, y) with its colour, RED when none is given |
| Swords.Sword.Segments | project-t01g06/src/main/java/com/g06/model/Sword.java:22-28 | four segments, the first at the pivot, segment i straight below it at row y + i |
| Swords.Sword.MoveLeft | project-t01g06/src/main/java/com/g06/model/Sword.java:30 | the pivot moves one column left |
| Swords.Sword.MoveRight | project-t01g06/src/main/java/com/g06/model/Sword.java:31 | the pivot moves one column right |
| Swords.Sword.MoveDown | project-t01g06/src/main/java/com/g06/model/Sword.java:32 | the pivot moves one row down |
| Swords.Sword.MoveUp | project-t01g06/src/main/java/com/g06/model/Sword.java:33 | the pivot moves one row up |
| Pills.HalfAt | project-t01g06/src/main/java/com/g06/model/Pill.java:21-29 | the second half is off the pivot exactly for an orientation in 0..3, and always in the pivot's row or column |
| Pills.Turn | project-t01g06/src/main/java/com/g06/model/Pill.java:31-34 | a turn stays in 0..3 and steps 0, 1, 2, 3 and back to 0 |
| Pills.HalvesAdjacent | project-t01g06/src/main/java/com/g06/model/Pill.java:20-29 | for each orientation the second half is a different cell orthogonally adjacent to the pivot |
| Pills.HalfDeterminesOrientation | project-t01g06/src/main/java/com/g06/model/Pill.java:20-29 | different orientations put the second half on different cells |
| Pills.FourTurnsRestore | project-t01g06/src/main/java/com/g06/model/Pill.java:31-34 | four rotations restore the orientation and the second half |
| Pills.HalfFollowsPivot | project-t01g06/src/test/java/com/g06/model/PillTest.java:73-92 | moving the pivot moves the second half by the same offset |
| Pills.MovesCancel | project-t01g06/src/test/java/com/g06/model/PillTest.java:51-71 | left then right, and up then down, return the pivot to where it was |
| Pills.Pill.constructor | project-t01g06/src/main/java/com/g06/model/Pill.java:9-14 | a new pill has its pivot at (x, y), both colours, orientation 0 and its second half at (x + 1, y) |
| Pills.Pill.OtherHalf | project-t01g06/src/main/java/com/g06/model/Pill.java:21-29 | the second half is orthogonally adjacent to the pivot |
| Pills.Pill.Rotate | project-t01g06/src/main/java/com/g06/model/Pill.java:32-34 | the orientation advances by one turn |
| Pills.Pill.MoveLeft | project-t01g06/src/main/java/com/g06/model/Pill.java:36-38 | the pivot moves one column left |
| Pills.Pill.MoveRight | project-t01g06/src/main/java/com/g06/model/Pill.java:40-42 | the pivot moves one column right |
| Pills.Pill.MoveDown | project-t01g06/src/main/java/com/g06/model/Pill.java:44-46 | the pivot moves one row down |
| Pills.Pill.MoveUp | project-t01g06/src/main/java/com/g06/model/Pill.java:48-50 | the pivot moves one row up |
| Pills.Pill.PlaceAt | project-t01g06/src/main/java/com/g06/controller/ArenaController.java:137-139 | a promoted pill is put at the given cell, its orientation kept |
| Pills.CopyPill | project-t01g06/src/main/java/com/g06/controller/ArenaController.java:346-354 | the copy is a new object with the same pivot, orientation and colours |
| Grids.WallListFacts | project-t01g06/src/main/java/com/g06/model/Arena.java:80-91 | the wall list has 2(w + h) entries, each border cell occurs in it, corners twice, and a cell is listed exactly when it is on the border |
| Grids.CreateWalls | project-t01g06/src/main/java/com/g06/model/Arena.java:80-91 | createWalls produces the wall list, row walls first, then column walls |
| Grids.HitsWall | project-t01g06/src/main/java/com/g06/controller/ArenaController.java:149-151 | true exactly when either cell is in the wall list |
| Grids.IsValidPosition | project-t01g06/src/main/java/com/g06/controller/ArenaController.java:336-344 | a cell is valid exactly when it is inside, not a wall and empty |
| Grids.CanMove | project-t01g06/src/main/java/com/g06/controller/ArenaController.java:330-334 | a pill fits exactly when both its halves are valid cells |
| Grids.VirusCountZero | project-t01g06/src/main/java/com/g06/controller/ArenaController.java:119 | the virus count is zero exactly when no cell holds a virus |
| Grids.VirusCountUpdate | project-t01g06/src/main/java/com/g06/model/Arena.java:74 | writing a cell changes the virus count by what the cell gains minus what it loses |
| Clearing.MarkedMeaning | project-t01g06/src/main/java/com/g06/controller/ArenaController.java:156-203 | a cell is marked exactly when it lies on a horizontal or vertical run of four or more same-coloured cells starting at an interior cell |
| Clearing.MarkedAreOccupied | project-t01g06/src/main/java/com/g06/controller/ArenaController.java:163-164 | every marked cell is inside the grid and holds a block |
| Clearing.LongRowRunRemoved | project-t01g06/src/main/java/com/g06/controller/ArenaController.java:179-203 | every cell of a horizontal run of at least four same-coloured interior cells is marked |
| Clearing.LongColumnRunRemoved | project-t01g06/src/main/java/com/g06/controller/ArenaController.java:179-203 | every cell of a vertical run of at least four same-coloured interior cells is marked |
| Clearing.CheckDirection | project-t01g06/src/main/java/com/g06/controller/ArenaController.java:179-203 | adds to the marks exactly the cells of the run from the start cell in the given direction, when it is four long |
| Clearing.MarkRuns | project-t01g06/src/main/java/com/g06/controller/ArenaController.java:157-169 | the scan over the interior marks exactly the cells on runs (Marked) |
| Clearing.RemoveCells | project-t01g06/src/main/java/com/g06/controller/ArenaController.java:205-212 | the marked cells become empty and nothing else changes |
| GravitySpec.DropBounded | project-t01g06/src/main/java/com/g06/controller/ArenaController.java:289-299 | a member's drop cannot take it past the floor row |
| GravitySpec.FallIsLeastDrop | project-t01g06/src/main/java/com/g06/controller/ArenaController.java:279-303 | a cluster's fall is the least drop of its members and is attained by one of them |
| GravitySpec.ZeroDropRests | project-t01g06/src/main/java/com/g06/controller/ArenaController.java:289-299 | a member with drop zero rests on the floor or on a block outside its cluster |
| GravitySpec.ShiftedUnique | project-t01g06/src/main/java/com/g06/controller/ArenaController.java:312-327 | the grid with a cluster moved down by d rows is determined by the cluster and d |
| GravitySpec.ShiftKeepsFixed | project-t01g06/src/main/java/com/g06/controller/ArenaController.java:312-327 | moving a cluster by no more than every member's drop leaves viruses and border cells where they were |
| GravitySpec.MoveKeepsColumns | project-t01g06/src/main/java/com/g06/controller/ArenaController.java:318-326 | moving one block down its column over empty cells keeps every column's blocks in the same order |
| GravitySpec.ConservesTransitive | project-t01g06/src/main/java/com/g06/controller/ArenaController.java:224-244 | conservation of viruses, border, colour counts and each column's block order carries over a sequence of passes |
| ClusterGravity.IsInCluster | project-t01g06/src/main/java/com/g06/controller/ArenaController.java:305-310 | true exactly when the cell is a member |
| ClusterGravity.ComputeClusterFall | project-t01g06/src/main/java/com/g06/controller/ArenaController.java:279-303 | the loop computes the cluster's fall, the least downward run of empty or member cells over the members |
| ClusterGravity.CollectCluster | project-t01g06/src/main/java/com/g06/controller/ArenaController.java:247-277 | the flood fill from a movable unvisited cell returns, each once, only unvisited movable cells linked to it, starting with it, and marks them visited; when the visited cells form a closed group the result is closed too, so it is the start's whole linked group |
| ClusterGravity.SortByRowDescending | project-t01g06/src/main/java/com/g06/controller/ArenaController.java:315 | the members ordered bottom row first, a permutation of the cluster |
| ClusterGravity.MoveCluster | project-t01g06/src/main/java/com/g06/controller/ArenaController.java:312-327 | every member moves down by dist rows, bottom first so no member overwrites another; viruses, border and colour counts are kept, every column keeps its blocks in order, and the potential drops by dist per member |
| ClusterGravity.FallIsPossible | project-t01g06/src/main/java/com/g06/controller/ArenaController.java:279-303 | the computed fall never exceeds any member's drop, so the move is safe |
| ClusterGravity.DropsBelowMax | project-t01g06/src/main/java/com/g06/controller/ArenaController.java:280 | a member's drop stays below Integer.MAX_VALUE, so the minimum is a real drop |
| ClusterGravity.ClusterAnchored | project-t01g06/src/main/java/com/g06/controller/ArenaController.java:236-241 | when a collected cluster cannot fall, each of its blocks is linked to a resting block |
| ClusterGravity.CleanPassSettles | project-t01g06/src/main/java/com/g06/controller/ArenaController.java:226-243 | a pass that moves nothing leaves a grid in which no cluster can fall |
| ClusterGravity.SettledClusterStays | project-t01g06/src/main/java/com/g06/controller/ArenaController.java:236-241 | in a settled grid a closed cluster of movable blocks has fall zero, so it is not moved |
| ClusterGravity.GravityPass | project-t01g06/src/main/java/com/g06/controller/ArenaController.java:224-243 | one pass keeps viruses, border, colour counts and each column's block order; it moves something exactly when the grid was not settled, and then the potential strictly drops; otherwise the grid is unchanged |
| ClusterGravity.ApplyClusterGravity | project-t01g06/src/main/java/com/g06/controller/ArenaController.java:218-245 | the passes terminate in a settled grid with viruses, border, colour counts and each column's block order kept; a grid already settled is left unchanged |
| Placement.FixHalves | project-t01g06/src/main/java/com/g06/controller/ArenaController.java:103-111 | each pill half inside the matrix becomes a non-virus block of that half's colour; nothing else changes |
| GameArena.EmptyGrid | project-t01g06/src/main/java/com/g06/model/Arena.java:27 | a new matrix is width x height with every cell empty |
| GameArena.SpawnFitsIffFree | project-t01g06/src/main/java/com/g06/model/Arena.java:34-56 | the spawn check passes exactly when (width/2, 1) and (width/2 + 1, 1) are off the wall ring and empty |
| GameArena.SpawnInside | project-t01g06/src/main/java/com/g06/model/Arena.java:44 | the inside test at the spawn cell always passes, whatever the orientation |
| GameArena.SprinkledFromEmpty | project-t01g06/src/main/java/com/g06/model/Arena.java:24-32 | spawning viruses on the new empty matrix leaves only palette viruses in the spawn box, so the first pill spawns exactly when width >= 5 |
| GameArena.ScatterViruses | project-t01g06/src/main/java/com/g06/model/Arena.java:58-78 | at most count cells, all empty before and inside columns 1..w-2 and rows 4..h-2, gain a palette virus; nothing else changes and the virus count grows by the number of changed cells |
| GameArena.DrawVirus | project-t01g06/src/main/java/com/g06/model/Arena.java:69-76 | one draw: a virus is written exactly when the drawn cell was empty, and then that cell is the one new changed cell |
| GameArena.PlaceStep | project-t01g06/src/main/java/com/g06/model/Arena.java:72-75 | writing a virus into an empty spawn-box cell keeps the spawn invariant and adds one virus |
| GameArena.Arena.constructor | project-t01g06/src/main/java/com/g06/model/Arena.java:24-32 | an empty matrix with walls and up to five viruses; a falling pill exactly when width >= 5, and then it sits at (width/2, 1), horizontal, with two palette colours and fits |
| GameArena.Arena.Populate | project-t01g06/src/main/java/com/g06/model/Arena.java:29-31 | spawnViruses(5) then spawnNewPill on the empty matrix: a falling pill exactly when width >= 5, and then at (width/2, 1), horizontal, with two palette colours, fitting |
| GameArena.Arena.IsInside | project-t01g06/src/main/java/com/g06/model/Arena.java:105-107 | a cell is inside exactly when 0 <= x < width and 0 <= y < height |
| GameArena.Arena.SetCurrentPill | project-t01g06/src/main/java/com/g06/model/Arena.java:102 | the falling pill becomes the given one |
| GameArena.Arena.SetNextPill | project-t01g06/src/main/java/com/g06/model/ArenaInterface.java:20 | the preview pill becomes the given one |
| GameArena.Arena.SpawnNewPill | project-t01g06/src/main/java/com/g06/model/Arena.java:34-56 | succeeds exactly when the horizontal pill at (width/2, 1) fits, and then a new palette pill falls; on failure the falling pill is unchanged |
| GameArena.Arena.SpawnViruses | project-t01g06/src/main/java/com/g06/model/Arena.java:58-78 | see ScatterViruses, on the arena's matrix |
| GameArena.Arena.GetVirusCount | project-t01g06/src/main/java/com/g06/model/ArenaInterface.java:16 | the number of virus cells in the matrix |
| GameArena.Arena.ColumnViruses | project-t01g06/src/main/java/com/g06/model/ArenaInterface.java:16 | the number of virus cells in one column |
| GameArena.Arena.GenerateNextPill | project-t01g06/src/main/java/com/g06/model/ArenaInterface.java:18-21 | on success a new horizontal palette preview pill at the spawn cell, on failure no preview |
| GameController.Multiplier | project-t01g06/src/main/java/com/g06/controller/ArenaController.java:34-45 | the per-cell score is 10, 15, 20 or 30 |
| GameController.MultiplierGrowsWithLevel | project-t01g06/src/main/java/com/g06/controller/ArenaController.java:34-45 | a harder level, or a shorter delay, pays strictly more per cell, and conversely |
| GameController.CommandOf | project-t01g06/src/main/java/com/g06/controller/ArenaController.java:356-398 | arrows and W, A, S, D in either case map to rotate, left, fall, right, each in both directions; other keys and no key do nothing |
| GameController.Target | project-t01g06/src/main/java/com/g06/controller/ArenaController.java:68-95 | left and right shift the pivot by one column, rotate turns the orientation |
| GameController.RemoveMarkedBlocks | project-t01g06/src/main/java/com/g06/controller/ArenaController.java:205-215 | no marks change nothing; otherwise the marked cells are emptied and gravity settles the grid, keeping viruses, border and colour counts |
| GameController.ArenaController.constructor | project-t01g06/src/main/java/com/g06/controller/ArenaController.java:30-46 | the game starts running, not won, score 0, with the multiplier of the difficulty |
| GameController.ArenaController.Default | project-t01g06/src/main/java/com/g06/controller/ArenaController.java:22-28 | the shorter constructors use NORMAL difficulty |
| GameController.ArenaController.MovePillLeft | project-t01g06/src/main/java/com/g06/controller/ArenaController.java:68-75 | the pill moves one column left exactly when that fits and the game is not over; matrix, preview and the rest of the state are kept; a free falling pill stays free |
| GameController.ArenaController.MovePillRight | project-t01g06/src/main/java/com/g06/controller/ArenaController.java:77-84 | the pill moves one column right exactly when that fits and the game is not over; matrix, preview and the rest of the state are kept; a free falling pill stays free |
| GameController.ArenaController.RotatePill | project-t01g06/src/main/java/com/g06/controller/ArenaController.java:86-95 | the pill turns exactly when the turned pill fits and the game is not over; matrix, preview and the rest of the state are kept; a free falling pill stays free |
| GameController.ArenaController.FixPill | project-t01g06/src/main/java/com/g06/controller/ArenaController.java:103-111 | the pill's halves become blocks where inside; nothing else changes |
| GameController.ArenaController.CheckAndClearLines | project-t01g06/src/main/java/com/g06/controller/ArenaController.java:156-177 | exactly the cells on runs are removed, the score grows by their number times the multiplier, and gravity settles the grid |
| GameController.ArenaController.PromoteNext | project-t01g06/src/main/java/com/g06/controller/ArenaController.java:127-153 | the preview, or a new pill when there is none, falls from (width/2, 1) with its orientation kept, a new preview may be generated, and the game is over exactly when generation failed or the pill does not fit |
| GameController.ArenaController.CheckSpawnFit | project-t01g06/src/main/java/com/g06/controller/ArenaController.java:145-153 | the game is over afterwards exactly when it was already or the falling pill does not fit |
| GameController.ArenaController.FinishSettle | project-t01g06/src/main/java/com/g06/controller/ArenaController.java:119-153 | with no virus left outside endless mode the level is won and no pill falls; otherwise the next pill is promoted |
| GameController.ArenaController.SettlePill | project-t01g06/src/main/java/com/g06/controller/ArenaController.java:99-154 | fixes the pill, clears and scores the runs, settles the grid, then wins or promotes; without a pill nothing changes; a running game's falling pill is always free |
| GameController.ArenaController.FallPill | project-t01g06/src/main/java/com/g06/controller/ArenaController.java:50-66 | after game over or without a pill nothing changes, the pill and preview included; otherwise the pill drops one row, keeping its orientation, the matrix and the preview, exactly when that fits, and is settled when it does not |
| GameController.ArenaController.ProcessKey | project-t01g06/src/main/java/com/g06/controller/ArenaController.java:356-398 | a fall key has the outcome of fallPill, including nothing changing after game over; left, right and rotate keys change only the falling pill, as the matching move; a key without a command changes nothing |
| ColumnGravity.CompactedMeaning | project-t01g06/src/main/java/Arena.java:229-263 | the compacted segment has the same length, the same blocks in the same order, and no empty cell below a block |
| ColumnGravity.CompactedUnique | project-t01g06/src/main/java/Arena.java:229-263 | any segment of that length with those blocks in that order and no gap below a block is the compacted one |
| ColumnGravity.CompactedIdempotent | project-t01g06/src/main/java/Arena.java:229-263 | compacting twice is compacting once |
| ColumnGravity.DropColumnMeaning | project-t01g06/src/main/java/Arena.java:231-262 | gravity on a column keeps its top and bottom wall cells and the interior blocks in order, and leaves no gap under an interior block |
| ColumnGravity.DroppedBorder | project-t01g06/src/main/java/Arena.java:229-231 | column gravity keeps the grid's shape and every cell outside the interior |
| ColumnGravity.DroppedColumns | project-t01g06/src/main/java/Arena.java:229-263 | in every interior column the blocks keep their order and none hangs over an empty interior cell |
| ColumnGravity.LeadingGaps | project-t01g06/src/main/java/Arena.java:238-246 | the count of empty cells before the first block, or the whole length when there is none |
| ColumnGravity.DropDistance | project-t01g06/src/main/java/Arena.java:238-246 | the scan below a block counts the empty interior cells down to the next block or the floor |
| ColumnGravity.DropStep | project-t01g06/src/main/java/Arena.java:233-260 | one bottom-up step moves the block at row y onto the compacted part below it |
| ColumnGravity.MoveCellDown | project-t01g06/src/main/java/Arena.java:248-260 | the block moves d rows down and its old cell becomes empty |
| ColumnGravity.DropCell | project-t01g06/src/main/java/Arena.java:233-261 | after processing row y the column below y - 1 is compacted |
| ColumnGravity.CompactColumn | project-t01g06/src/main/java/Arena.java:231-262 | the bottom-up loop turns the column into its compacted form |
| ColumnGravity.CompactColumns | project-t01g06/src/main/java/Arena.java:229-263 | every interior column is compacted, the wall columns left alone |
| ColumnGravity.RemoveMarkedColumnwise | project-t01g06/src/main/java/Arena.java:220-263 | removeMarkedBlocks of the root-package arena: no marks change nothing, otherwise the marked cells are emptied and every interior column compacted |
| LegacyGame.LegacyArena.constructor | project-t01g06/src/main/java/Arena.java:22-29 | an empty matrix with walls, up to five viruses and always a falling pill at (width/2, 1), horizontal, with two palette colours |
| LegacyGame.LegacyArena.IsInside | project-t01g06/src/main/java/Arena.java:138-140 | a cell is inside exactly when 0 <= x < width and 0 <= y < height |
| LegacyGame.LegacyArena.SpawnNewPill | project-t01g06/src/main/java/Arena.java:38-44 | a new palette pill at (width/2, 1) always becomes the falling pill, whatever lies under it |
| LegacyGame.LegacyArena.SpawnViruses | project-t01g06/src/main/java/Arena.java:46-70 | the same virus spawn as the model arena |
| LegacyGame.LegacyArena.FallPill | project-t01g06/src/main/java/Arena.java:72-83 | the pill drops one row exactly when that fits and the result says so; it is never settled here |
| LegacyGame.LegacyArena.MovePillLeft | project-t01g06/src/main/java/Arena.java:101-106 | the pill moves one column left exactly when that fits |
| LegacyGame.LegacyArena.MovePillRight | project-t01g06/src/main/java/Arena.java:108-113 | the pill moves one column right exactly when that fits |
| LegacyGame.LegacyArena.RotatePill | project-t01g06/src/main/java/Arena.java:115-121 | the pill turns exactly when the turned pill fits |
| LegacyGame.LegacyArena.CheckAndClearLines | project-t01g06/src/main/java/Arena.java:169-185 | exactly the cells on runs are removed and the interior columns compacted; no score |
| LegacyGame.LegacyArena.SettlePill | project-t01g06/src/main/java/Arena.java:85-98 | the halves become blocks where inside, runs are cleared with column gravity, then the falling pill goes; without a pill nothing changes |

## Left out

- Rendering, the game loop, timers, the sword spawn and the other screens (`ArenaViewer`, `Game`, `MenuViewer`) are not part of this model: they are I/O around the core.
- Randomness is an oracle: each `Random.nextInt` call is any value in its range, and no distribution is modelled.
- `Block`'s stored position is not kept: cells are addressed by their matrix coordinates, so the `setY` updates of moved blocks (ArenaController.java line 325, root Arena.java line 256) are implied by where the block now sits.
- The texture string table of `Block` and the texture-to-glyph mapping are left out: only the texture index is kept.
- The root-package `Pill`, `Block`, `Position` and `Wall` classes are not part of this model; the model-package versions, with the same behaviour, stand in for them. A `Wall` is its position in the wall list.
- The model-package `Arena` class does not implement `getVirusCount`, `getNextPill`, `setNextPill`, `generateNextPill` or `getLevel` in the file available. `GameArena.Arena` implements the first four from the interface's contract: getVirusCount counts virus cells, and generateNextPill yields a fresh horizontal palette pill or reports failure. `getLevel` and the sword methods are left out.
- GameArena.Arena.Valid bounds width and height by Integer.MAX_VALUE and requires width >= 3 and height >= 6, because `Random.nextInt` throws for a bound that is not positive in `spawnViruses`. Smaller arenas, where the source throws, are not modelled.
- LegacyGame.LegacyArena.Valid has the same bounds, and the `LegacyArena` constructor requires them: the root-package constructor calls `spawnViruses(5)`, whose `random.nextInt(maxX - minX + 1)` and `random.nextInt(maxY - minY + 1)` (root Arena.java lines 58-59) throw for a width below 3 or a height below 6. Those smaller arenas, where the source throws, are not modelled.
- Scores and counters are unbounded integers: the Java `int` overflow of `score` after about 143 million removed cells at the highest multiplier is not modelled.
- ClusterGravity.ApplyClusterGravity requires the matrix height to be at most Integer.MAX_VALUE, the initial value of `fall`, so that the minimum is always a real drop.
- ClusterGravity.GravityPass: the source reuses one `visited` array per pass, and a block that a moved cluster lands next to may already be marked visited. The model follows this exactly, so a pass may move part of a connected group. Its contract states conservation, progress, and that a pass moves nothing exactly on a settled grid, but not which clusters move together within a pass.
- The `default` branch of the difficulty switch (ArenaController.java lines 43-44) cannot be reached with the four enum values, so `Multiplier` has no such case.
- The inside checks on the spawn cell (model Arena.java line 44, ArenaController.java line 148) always pass in a valid arena (`SpawnInside`). They are kept in the code, but the contracts state the fit test.
- Exceptions from a `null` colour, a `null` matrix or out-of-range indices cannot occur in the model: the types rule them out.
- `Sword` colour `null` becomes `Option.None`.
- Keys.ToLower: maps only the characters whose lower case is an ASCII letter (A-Z, U+0130 and U+212A). Other upper-case letters, whose Java lower case is not ASCII, are kept as they are; no key binding compares against their lower case, so the key's meaning is the same.
