/** The sword power-up: a vertical object of four cells hanging below its top cell. */
module Swords {
  import opened Positions
  import opened Wrappers

  /** The number of cells a sword covers. */
  const SwordLength: int := 4

  class Sword {
    var position: Position
    const color: string

    /** A missing colour (null in the source) becomes "RED". */
    constructor (x: int, y: int, color: Option<string>)
      ensures position == Position(x, y)
      ensures this.color == (if color.Some? then color.value else "RED")
    {
      this.position := Position(x, y);
      this.color := if color.None? then "RED" else color.value;
    }

    /** The cells the sword covers, top to bottom, starting at the pivot. */
    method Segments() returns (segs: seq<Position>)
      ensures |segs| == SwordLength
      ensures segs[0] == position
      ensures forall i :: 0 <= i < |segs| ==> segs[i].x == position.x && segs[i].y == position.y + i
    {
      segs := [];
      var i := 0;
      while i < SwordLength
        invariant 0 <= i <= SwordLength && |segs| == i
        invariant forall k :: 0 <= k < i ==> segs[k] == Position(position.x, position.y + k)
      {
        segs := segs + [Position(position.x, position.y + i)];
        i := i + 1;
      }
    }

    method MoveLeft()
      modifies this`position
      ensures position == Offset(old(position), -1, 0)
    {
      position := Position(position.x - 1, position.y);
    }

    method MoveRight()
      modifies this`position
      ensures position == Offset(old(position), 1, 0)
    {
      position := Position(position.x + 1, position.y);
    }

    method MoveDown()
      modifies this`position
      ensures position == Offset(old(position), 0, 1)
    {
      position := Position(position.x, position.y + 1);
    }

    method MoveUp()
      modifies this`position
      ensures position == Offset(old(position), 0, -1)
    {
      position := Position(position.x, position.y - 1);
    }
  }
}
