/** A two-cell pill: a pivot, two colours and an orientation in 0..3 that names the
    direction from the pivot to the second half (0 Right, 1 Up, 2 Left, 3 Down).
    The second half is always derived from the pivot and the orientation. */
module Pills {
  import opened Positions

  /** Where the second half lies for a pivot and an orientation; any other
      orientation value puts the second half on the pivot (the source's default case). */
  function HalfAt(pivot: Position, orientation: int): (r: Position)
    ensures r != pivot <==> 0 <= orientation < 4
    ensures r.x == pivot.x || r.y == pivot.y
  {
    if orientation == 0 then Offset(pivot, 1, 0)
    else if orientation == 1 then Offset(pivot, 0, -1)
    else if orientation == 2 then Offset(pivot, -1, 0)
    else if orientation == 3 then Offset(pivot, 0, 1)
    else pivot
  }

  /** One step of the orientation cycle 0 -> 1 -> 2 -> 3 -> 0 (right, up, left, down). */
  function Turn(orientation: int): (r: int)
    requires 0 <= orientation < 4
    ensures 0 <= r < 4
    ensures r == if orientation == 3 then 0 else orientation + 1
  {
    (orientation + 1) % 4
  }

  /** For a legal orientation the two halves share an edge, and they are different cells. */
  lemma HalvesAdjacent(pivot: Position, orientation: int)
    requires 0 <= orientation < 4
    ensures Adjacent(pivot, HalfAt(pivot, orientation))
    ensures HalfAt(pivot, orientation) != pivot
  {
  }

  /** The second half determines the orientation: distinct legal orientations put it
      on distinct cells. */
  lemma HalfDeterminesOrientation(pivot: Position, o1: int, o2: int)
    requires 0 <= o1 < 4 && 0 <= o2 < 4
    ensures HalfAt(pivot, o1) == HalfAt(pivot, o2) <==> o1 == o2
  {
  }

  /** Four turns restore the orientation, and therefore the second half. */
  lemma FourTurnsRestore(pivot: Position, orientation: int)
    requires 0 <= orientation < 4
    ensures Turn(Turn(Turn(Turn(orientation)))) == orientation
    ensures HalfAt(pivot, Turn(Turn(Turn(Turn(orientation))))) == HalfAt(pivot, orientation)
  {
  }

  /** Translating the pivot translates the second half by the same vector. */
  lemma HalfFollowsPivot(pivot: Position, orientation: int, dx: int, dy: int)
    requires 0 <= orientation < 4
    ensures HalfAt(Offset(pivot, dx, dy), orientation) == Offset(HalfAt(pivot, orientation), dx, dy)
  {
  }

  /** The orientations a pill can have. */
  type Orientation = o: int | 0 <= o < 4

  class Pill {
    var position: Position
    const color1: string
    const color2: string
    /** Stays in 0..3: the constructor sets 0 and Rotate works modulo 4. */
    var orientation: Orientation

    constructor (x: int, y: int, color1: string, color2: string)
      ensures position == Position(x, y) && orientation == 0
      ensures this.color1 == color1 && this.color2 == color2
      ensures OtherHalf() == Position(x + 1, y)
    {
      this.position := Position(x, y);
      this.color1 := color1;
      this.color2 := color2;
      this.orientation := 0;
    }

    /** The cell of the second half. */
    function OtherHalf(): (r: Position)
      reads this
      ensures Adjacent(position, r)
    {
      HalfAt(position, orientation)
    }

    method Rotate()
      modifies this`orientation
      ensures orientation == Turn(old(orientation))
    {
      orientation := (orientation + 1) % 4;
    }

    method MoveLeft()
      modifies this`position
      ensures position == Offset(old(position), -1, 0)
    {
      position := Position(position.x - 1, position.y);
    }

    method MoveRight()
      modifies this`position
      ensures position == Offset(old(position), 1, 0)
    {
      position := Position(position.x + 1, position.y);
    }

    method MoveDown()
      modifies this`position
      ensures position == Offset(old(position), 0, 1)
    {
      position := Position(position.x, position.y + 1);
    }

    method MoveUp()
      modifies this`position
      ensures position == Offset(old(position), 0, -1)
    {
      position := Position(position.x, position.y - 1);
    }

    /** Sets the pivot (the source's getPosition().setX/setY on the pivot). */
    method PlaceAt(x: int, y: int)
      modifies this`position
      ensures position == Position(x, y)
    {
      position := Position(x, y);
    }
  }

  /** A pill at the same pivot with the same colours, built at orientation 0 and rotated
      until its second half is where the original's is. */
  method CopyPill(original: Pill) returns (copy: Pill)
    ensures fresh(copy)
    ensures copy.position == original.position && copy.orientation == original.orientation
    ensures copy.color1 == original.color1 && copy.color2 == original.color2
  {
    copy := new Pill(original.position.x, original.position.y, original.color1, original.color2);
    var originalOther := original.OtherHalf();
    while copy.OtherHalf() != originalOther
      invariant fresh(copy)
      invariant copy.position == original.position
      invariant copy.color1 == original.color1 && copy.color2 == original.color2
      invariant copy.orientation <= original.orientation
      decreases original.orientation - copy.orientation
    {
      HalfDeterminesOrientation(copy.position, copy.orientation, original.orientation);
      copy.Rotate();
    }
    HalfDeterminesOrientation(copy.position, copy.orientation, original.orientation);
  }

  /** moveLeft then moveRight, and moveUp then moveDown, are identities. */
  lemma MovesCancel(p: Position)
    ensures Offset(Offset(p, -1, 0), 1, 0) == p
    ensures Offset(Offset(p, 0, -1), 0, 1) == p
  {
  }
}
