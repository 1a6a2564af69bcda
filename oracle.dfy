/** The source draws from java.util.Random. The model replaces every draw by a
    nondeterministic choice that satisfies only what the draw's contract promises. */
module Oracle {

  /** The fixed palette the source draws pill and virus colours from. */
  const Palette: seq<string> := ["RED", "YELLOW", "BLUE"]

  /** Random.nextInt(bound): some integer in [0, bound). */
  method NextInt(bound: int) returns (r: int)
    requires bound > 0
    ensures 0 <= r < bound
  {
    r :| 0 <= r < bound;
  }

  /** VALID_COLORS[random.nextInt(VALID_COLORS.length)]. */
  method PickColor() returns (c: string)
    ensures c in Palette
  {
    var i := NextInt(|Palette|);
    c := Palette[i];
  }
}
