/** Difficulty levels, in declaration order, each with the delay between two falls. */
module Difficulties {

  datatype Difficulty = EASY | NORMAL | HARD | INSANE

  /** The enum constants in declaration order (the source's values()). */
  const Values: seq<Difficulty> := [EASY, NORMAL, HARD, INSANE]

  /** The declaration index of a constant (the source's ordinal()). */
  function Ordinal(d: Difficulty): (r: int)
    ensures 0 <= r < |Values| && Values[r] == d
  {
    match d
    case EASY => 0
    case NORMAL => 1
    case HARD => 2
    case INSANE => 3
  }

  function DelayMs(d: Difficulty): (r: int)
    ensures 150 <= r <= 700
    ensures r == 700 <==> d == EASY
    ensures r == 150 <==> d == INSANE
  {
    match d
    case EASY => 700
    case NORMAL => 500
    case HARD => 300
    case INSANE => 150
  }

  /** The following constant, wrapping from the last to the first. */
  function Next(d: Difficulty): (r: Difficulty)
    ensures Ordinal(r) == if d == INSANE then 0 else Ordinal(d) + 1
  {
    Values[(Ordinal(d) + 1) % |Values|]
  }

  /** The preceding constant, wrapping from the first to the last. */
  function Previous(d: Difficulty): (r: Difficulty)
    ensures Ordinal(r) == if d == EASY then |Values| - 1 else Ordinal(d) - 1
  {
    Values[(Ordinal(d) - 1 + |Values|) % |Values|]
  }

  /** Delays strictly decrease in declaration order. */
  lemma DelaysDecrease(a: Difficulty, b: Difficulty)
    ensures Ordinal(a) < Ordinal(b) <==> DelayMs(a) > DelayMs(b)
  {
  }

  /** Next and Previous undo each other. */
  lemma NextPreviousInverse(d: Difficulty)
    ensures Previous(Next(d)) == d && Next(Previous(d)) == d
  {
  }

  /** Four steps in either direction come back to the start. */
  lemma FourStepsRestore(d: Difficulty)
    ensures Next(Next(Next(Next(d)))) == d
    ensures Previous(Previous(Previous(Previous(d)))) == d
  {
  }

  lemma Wraparound()
    ensures Next(INSANE) == EASY && Previous(EASY) == INSANE
  {
  }
}
