/** Placing a pill: the move-or-stay rule of the movement commands and the writing of
    a landed pill's two halves into the matrix, shared by both arenas. */
module Placement {
  import opened Wrappers
  import opened Positions
  import opened Blocks
  import opened Grids
  import opened Clearing

  /** The pill state after an attempt to go from (p0, o0) to (p1, o1): the target when
      it fits, the start otherwise. */
  predicate Attempted(g: Grid, walls: seq<Position>, p0: Position, o0: int, p1: Position, o1: int,
                      p: Position, o: int)
    requires WellShaped(g)
  {
    if PillFits(g, walls, p1, o1) then p == p1 && o == o1 else p == p0 && o == o0
  }

  /** A block the settle step writes for a pill half: the half's colour, an ordinary
      texture, no virus flag. */
  predicate IsPillBlock(c: Cell, colour: string)
  {
    c.Some? && c.value.color == colour && !c.value.isVirus && 0 <= c.value.textureId < BlockTextures
  }

  /** `g1` is `g0` with a pill block of colour c written at p and one of colour d
      written at q, each only where that cell is inside the arena; nothing else
      differs. */
  ghost predicate Stamped(g0: Grid, g1: Grid, p: Position, c: string, q: Position, d: string)
    requires WellShaped(g0)
  {
    WellShaped(g1) && |g1| == |g0| && Height(g1) == Height(g0) &&
    forall x, y :: 0 <= x < |g0| && 0 <= y < Height(g0) ==>
      if Position(x, y) == q then IsPillBlock(g1[x][y], d)
      else if Position(x, y) == p then IsPillBlock(g1[x][y], c)
      else g1[x][y] == g0[x][y]
  }

  lemma MarkedInside(g: Grid)
    requires WellShaped(g)
    ensures forall p :: p in Marked(g) ==> Inside(|g|, Height(g), p)
  {
    forall p | p in Marked(g)
      ensures Inside(|g|, Height(g), p)
    {
      MarkedAreOccupied(g, p);
    }
  }

  /** Writes a pill block of colour c at p and then one of colour d at q, each only
      where that cell is inside the matrix. */
  method FixHalves(m: array2<Cell>, ghost g: Grid, p: Position, c: string, q: Position, d: string)
    returns (ghost g': Grid)
    requires Tie(m, g) && WellShaped(g) && p != q
    modifies m
    ensures Tie(m, g') && Stamped(g, g', p, c, q, d)
  {
    g' := g;
    if 0 <= p.x < m.Length0 && 0 <= p.y < m.Length1 {
      var b := NewBlock(c);
      g' := Write(m, g', p.x, p.y, Some(b));
    }
    ghost var mid := g';
    if 0 <= q.x < m.Length0 && 0 <= q.y < m.Length1 {
      var b := NewBlock(d);
      g' := Write(m, g', q.x, q.y, Some(b));
    }
  }
}
