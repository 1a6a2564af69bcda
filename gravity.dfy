/** ArenaController's cluster gravity: after a clear, every 4-connected group of
    non-virus blocks falls as one rigid piece until it lands, repeated until a full
    pass moves nothing. */
module ClusterGravity {
  import opened Wrappers
  import opened Positions
  import opened Blocks
  import opened Grids
  import opened GravitySpec

  /** The positions of a cluster list. */
  function MemberSet(cluster: seq<Position>): (r: set<Position>)
    ensures forall p :: p in r <==> p in cluster
  {
    set p | p in cluster
  }

  /** No position occurs twice. */
  ghost predicate NoRepeat(s: seq<Position>)
  {
    forall q :: multiset(s)[q] <= 1
  }

  lemma NoRepeatSplit(s: seq<Position>, i: int)
    requires NoRepeat(s) && 0 <= i < |s|
    ensures s[i] !in s[..i] && s[i] !in s[i + 1..]
  {
    assert s == s[..i] + [s[i]] + s[i + 1..];
    assert multiset(s) == multiset(s[..i]) + multiset{s[i]} + multiset(s[i + 1..]);
    assert multiset(s)[s[i]] <= 1;
    assert multiset(s[..i])[s[i]] == 0 && multiset(s[i + 1..])[s[i]] == 0;
  }

  /** isInCluster: a linear scan of the cluster list. */
  method IsInCluster(cluster: seq<Position>, x: int, y: int) returns (found: bool)
    ensures found <==> Position(x, y) in cluster
  {
    for i := 0 to |cluster|
      invariant forall j :: 0 <= j < i ==> cluster[j] != Position(x, y)
    {
      if cluster[i].x == x && cluster[i].y == y {
        return true;
      }
    }
    return false;
  }

  /** computeClusterFall: the least, over the members, of the number of rows a member
      can drop through cells that are empty or belong to the cluster itself. */
  method ComputeClusterFall(m: array2<Cell>, ghost g: Grid, cluster: seq<Position>) returns (fall: int)
    requires Tie(m, g) && WellShaped(g)
    requires Placed(g, cluster)
    ensures fall == FallOf(g, MemberSet(cluster), cluster)
  {
    ghost var C := MemberSet(cluster);
    var height := m.Length1;
    fall := MaxInt;
    for i := 0 to |cluster|
      invariant fall == FallOf(g, C, cluster[..i])
    {
      var x := cluster[i].x;
      var y := cluster[i].y;
      var drop := 0;
      while true
        invariant DropFrom(g, C, x, y, drop) == Drop(g, C, cluster[i])
        decreases height - (y + drop)
      {
        var ny := y + drop + 1;
        if ny >= height - 1 {
          break;
        }
        var below := m[x, ny];
        var inCluster := IsInCluster(cluster, x, ny);
        if below.Some? && !inCluster {
          break;
        }
        drop := drop + 1;
      }
      fall := if fall <= drop then fall else drop;
      assert cluster[..i + 1][..i] == cluster[..i];
    }
    assert cluster[..|cluster|] == cluster;
  }

  // ---------------------------------------------------------------- flood fill

  /** The visited flags are exactly the set `seen`, and every seen cell is inside. */
  ghost predicate VisitedTie(visited: array2<bool>, seen: set<Position>)
    reads visited
  {
    (forall x, y :: 0 <= x < visited.Length0 && 0 <= y < visited.Length1 ==>
      (visited[x, y] <==> Position(x, y) in seen)) &&
    (forall p :: p in seen ==> Inside(visited.Length0, visited.Length1, p))
  }

  /** All cells of a w-by-h matrix. */
  function AllCells(w: int, h: int): (r: set<Position>)
    ensures forall p :: p in r <==> Inside(w, h, p)
  {
    var r := set x, y | 0 <= x < w && 0 <= y < h :: Position(x, y);
    assert forall p :: Inside(w, h, p) ==> Position(p.x, p.y) in r;
    r
  }

  /** Seeing more cells leaves fewer unseen ones. */
  lemma FewerUnseen(all: set<Position>, before: set<Position>, after: set<Position>)
    requires before <= after <= all && before != after
    ensures all - after < all - before
  {
    var n :| n in after && n !in before;
    assert n in all - before;
  }

  lemma LinkedItself(g: Grid, a: Position)
    requires WellShaped(g)
    ensures Linked(g, a, a)
  {
  }

  /** A movable neighbour of a cell linked from a is linked from a. */
  lemma LinkForward(g: Grid, a: Position, p: Position, i: int)
    requires WellShaped(g) && 0 <= i < 4 && Linked(g, a, p) && Movable(g, Neighbour(p, i))
    ensures Linked(g, a, Neighbour(p, i))
  {
    forall S | Closed(g, S) && a in S
      ensures Neighbour(p, i) in S
    {
      assert p in S;
    }
  }

  /** A neighbour of a movable cell linked to a is linked to a. */
  lemma LinkBackward(g: Grid, a: Position, p: Position, i: int)
    requires WellShaped(g) && 0 <= i < 4 && Linked(g, p, a) && Movable(g, p)
    ensures Linked(g, Neighbour(p, i), a)
  {
    forall S | Closed(g, S) && Neighbour(p, i) in S
      ensures a in S
    {
      NeighbourBack(p, i);
      assert Neighbour(Neighbour(p, i), Opposite(i)) in S;
    }
  }

  /** The flood fill's bookkeeping: `seenNow` is what was seen before plus the cluster
      so far plus the stack; no cell occurs twice; every cell met is new, movable and
      connected both ways to the start. */
  ghost predicate Frontier(g: Grid, seen: set<Position>, start: Position, cluster: seq<Position>,
                           stack: seq<Position>, seenNow: set<Position>)
    requires WellShaped(g)
  {
    seenNow == seen + MemberSet(cluster) + MemberSet(stack) &&
    NoRepeat(cluster + stack) &&
    forall p :: p in cluster + stack ==>
      p !in seen && Movable(g, p) && Linked(g, start, p) && Linked(g, p, start)
  }

  /** Every movable neighbour of a cluster cell has been seen. */
  ghost predicate Expanded(g: Grid, cluster: seq<Position>, seenNow: set<Position>)
    requires WellShaped(g)
  {
    forall p, j :: p in cluster && 0 <= j < 4 && Movable(g, Neighbour(p, j)) ==> Neighbour(p, j) in seenNow
  }

  /** Moving the top of the stack to the cluster keeps the bookkeeping. */
  lemma PopKeepsFrontier(g: Grid, seen: set<Position>, start: Position, cluster: seq<Position>,
                         stack: seq<Position>, seenNow: set<Position>)
    requires WellShaped(g) && stack != [] && Frontier(g, seen, start, cluster, stack, seenNow)
    ensures Frontier(g, seen, start, cluster + [stack[|stack| - 1]], stack[..|stack| - 1], seenNow)
  {
    PopPermutes(cluster, stack);
  }

  /** Moving the top of a stack to the end of a list reorders their concatenation. */
  lemma PopPermutes(cluster: seq<Position>, stack: seq<Position>)
    requires stack != []
    ensures multiset(cluster + [stack[|stack| - 1]] + stack[..|stack| - 1]) == multiset(cluster + stack)
    ensures NoRepeat(cluster + stack) ==> NoRepeat(cluster + [stack[|stack| - 1]] + stack[..|stack| - 1])
    ensures forall q :: q in cluster + [stack[|stack| - 1]] + stack[..|stack| - 1] <==> q in cluster + stack
    ensures MemberSet(cluster + [stack[|stack| - 1]]) + MemberSet(stack[..|stack| - 1]) == MemberSet(cluster) + MemberSet(stack)
  {
    var p := stack[|stack| - 1];
    var rest := stack[..|stack| - 1];
    assert stack == rest + [p];
    assert multiset(cluster + [p] + rest) == multiset(cluster) + multiset{p} + multiset(rest);
    assert multiset(cluster + stack) == multiset(cluster) + multiset(rest) + multiset{p};
    assert forall q :: q in cluster + [p] + rest <==> q in cluster + stack;
  }

  /** Pushing an unseen movable neighbour of a cluster cell keeps the bookkeeping. */
  lemma PushKeepsFrontier(g: Grid, seen: set<Position>, start: Position, cluster: seq<Position>,
                          stack: seq<Position>, seenNow: set<Position>, p: Position, i: int)
    requires WellShaped(g) && Frontier(g, seen, start, cluster, stack, seenNow)
    requires p in cluster && 0 <= i < 4 && Movable(g, Neighbour(p, i)) && Neighbour(p, i) !in seenNow
    ensures Frontier(g, seen, start, cluster, stack + [Neighbour(p, i)], seenNow + {Neighbour(p, i)})
  {
    var n := Neighbour(p, i);
    assert p in cluster + stack;
    LinkForward(g, start, p, i);
    LinkBackward(g, start, p, i);
    assert cluster + (stack + [n]) == (cluster + stack) + [n];
    assert n !in cluster + stack;
    assert multiset(cluster + stack)[n] == 0;
  }

  /** With the stack empty, the bookkeeping speaks about the cluster alone. */
  lemma FillResult(g: Grid, seen: set<Position>, start: Position, cluster: seq<Position>, seenNow: set<Position>)
    requires WellShaped(g) && Frontier(g, seen, start, cluster, [], seenNow)
    ensures seenNow == seen + MemberSet(cluster) && NoRepeat(cluster)
    ensures forall p :: p in cluster ==> p !in seen && Movable(g, p) && Linked(g, start, p) && Linked(g, p, start)
  {
    assert cluster + [] == cluster;
  }

  /** Once the stack is empty a closed set of seen cells stays closed, and the cluster
      alone is closed: a movable neighbour seen before would have made the cluster cell
      itself seen before. */
  lemma FillClosed(g: Grid, seen: set<Position>, start: Position, cluster: seq<Position>, seenNow: set<Position>)
    requires WellShaped(g) && Frontier(g, seen, start, cluster, [], seenNow) && Expanded(g, cluster, seenNow)
    requires Closed(g, seen)
    ensures Closed(g, seenNow) && Closed(g, MemberSet(cluster))
  {
    assert cluster + [] == cluster;
    forall q, j | q in cluster && 0 <= j < 4 && Movable(g, Neighbour(q, j))
      ensures Neighbour(q, j) in MemberSet(cluster)
    {
      var n := Neighbour(q, j);
      NeighbourBack(q, j);
    }
  }

  /** Expanding the last cluster cell completes the expansion of the cluster. */
  lemma ExpandedAppend(g: Grid, cluster: seq<Position>, before: set<Position>, after: set<Position>)
    requires WellShaped(g) && cluster != [] && Expanded(g, cluster[..|cluster| - 1], before) && before <= after
    requires var p := cluster[|cluster| - 1];
      forall j :: 0 <= j < 4 && Movable(g, Neighbour(p, j)) ==> Neighbour(p, j) in after
    ensures Expanded(g, cluster, after)
  {
    assert forall q :: q in cluster ==> q in cluster[..|cluster| - 1] || q == cluster[|cluster| - 1];
  }

  /** Sets one visited flag. */
  method MarkVisited(visited: array2<bool>, ghost seenNow: set<Position>, n: Position) returns (ghost seenNow': set<Position>)
    requires VisitedTie(visited, seenNow) && Inside(visited.Length0, visited.Length1, n)
    modifies visited
    ensures VisitedTie(visited, seenNow') && seenNow' == seenNow + {n}
  {
    visited[n.x, n.y] := true;
    seenNow' := seenNow + {n};
  }

  /** One pass of the inner loop of collectCluster: the neighbour of p in direction i
      is pushed and marked visited when it is an unvisited interior non-virus block. */
  method TryPush(m: array2<Cell>, ghost g: Grid, visited: array2<bool>, ghost seen: set<Position>,
                 ghost start: Position, cluster: seq<Position>, stack: seq<Position>,
                 ghost seenNow: set<Position>, p: Position, i: int) returns (stack': seq<Position>, ghost seenNow': set<Position>)
    requires Tie(m, g) && WellShaped(g) && 0 <= i < 4 && p in cluster
    requires visited.Length0 == m.Length0 && visited.Length1 == m.Length1
    requires VisitedTie(visited, seenNow) && Frontier(g, seen, start, cluster, stack, seenNow)
    modifies visited
    ensures VisitedTie(visited, seenNow') && Frontier(g, seen, start, cluster, stack', seenNow')
    ensures Movable(g, Neighbour(p, i)) ==> Neighbour(p, i) in seenNow'
    ensures seenNow <= seenNow' && (seenNow' == seenNow ==> stack' == stack)
  {
    var dirs := [(1, 0), (-1, 0), (0, 1), (0, -1)];
    var nx := p.x + dirs[i].0;
    var ny := p.y + dirs[i].1;
    var n := Position(nx, ny);
    assert n == Neighbour(p, i);
    stack', seenNow' := stack, seenNow;
    // the four `continue` guards of the source, joined: skip cells outside the
    // interior, visited cells, empty cells and viruses
    if 0 < nx < m.Length0 - 1 && 0 < ny < m.Length1 - 1 && !visited[nx, ny] && m[nx, ny].Some? && !m[nx, ny].value.isVirus {
      PushKeepsFrontier(g, seen, start, cluster, stack, seenNow, p, i);
      seenNow' := MarkVisited(visited, seenNow, n);
      stack' := stack + [n];
    }
  }

  /** The inner loop of collectCluster: looks at the four neighbours of the cell just
      added to the cluster. */
  /** The movable neighbours of p in directions 0 .. i - 1 have been seen. */
  ghost predicate NeighboursSeen(g: Grid, p: Position, i: int, seenNow: set<Position>)
    requires WellShaped(g)
  {
    forall j :: 0 <= j < i && Movable(g, Neighbour(p, j)) ==> Neighbour(p, j) in seenNow
  }

  lemma NeighboursSeenStep(g: Grid, p: Position, i: int, seenNow: set<Position>, seenNow': set<Position>)
    requires WellShaped(g) && NeighboursSeen(g, p, i, seenNow) && seenNow <= seenNow'
    requires Movable(g, Neighbour(p, i)) ==> Neighbour(p, i) in seenNow'
    ensures NeighboursSeen(g, p, i + 1, seenNow')
  {
  }

  method PushNeighbours(m: array2<Cell>, ghost g: Grid, visited: array2<bool>, ghost seen: set<Position>,
                        ghost start: Position, cluster: seq<Position>, stack: seq<Position>,
                        ghost seenNow: set<Position>) returns (stack': seq<Position>, ghost seenNow': set<Position>)
    requires Tie(m, g) && WellShaped(g)
    requires visited.Length0 == m.Length0 && visited.Length1 == m.Length1
    requires VisitedTie(visited, seenNow) && cluster != []
    requires Frontier(g, seen, start, cluster, stack, seenNow) && Expanded(g, cluster[..|cluster| - 1], seenNow)
    modifies visited
    ensures VisitedTie(visited, seenNow') && Frontier(g, seen, start, cluster, stack', seenNow')
    ensures Expanded(g, cluster, seenNow')
    ensures seenNow <= seenNow' && (seenNow' == seenNow ==> stack' == stack)
  {
    var p := cluster[|cluster| - 1];
    stack' := stack;
    seenNow' := seenNow;
    for i := 0 to 4
      invariant VisitedTie(visited, seenNow') && Frontier(g, seen, start, cluster, stack', seenNow')
      invariant seenNow <= seenNow' && (seenNow' == seenNow ==> stack' == stack)
      invariant NeighboursSeen(g, p, i, seenNow')
    {
      ghost var before := seenNow';
      stack', seenNow' := TryPush(m, g, visited, seen, start, cluster, stack', seenNow', p, i);
      NeighboursSeenStep(g, p, i, before, seenNow');
    }
    ExpandedAppend(g, cluster, seenNow, seenNow');
  }

  /** collectCluster: a depth-first flood fill from (sx, sy) over interior non-virus
      blocks, marking each cell visited as it is pushed. The cluster holds exactly the
      cells connected to the start, none visited before, each once; and if the cells
      visited before formed a closed group, so do the ones visited after, and so does
      the cluster on its own. */
  method CollectCluster(m: array2<Cell>, ghost g: Grid, visited: array2<bool>, ghost seen: set<Position>,
                        sx: int, sy: int) returns (cluster: seq<Position>, ghost seen': set<Position>)
    requires Tie(m, g) && WellShaped(g)
    requires visited.Length0 == m.Length0 && visited.Length1 == m.Length1
    requires VisitedTie(visited, seen)
    requires Movable(g, Position(sx, sy)) && Position(sx, sy) !in seen
    modifies visited
    ensures VisitedTie(visited, seen') && seen' == seen + MemberSet(cluster)
    ensures |cluster| > 0 && cluster[0] == Position(sx, sy) && NoRepeat(cluster)
    ensures forall p :: p in cluster ==> p !in seen && Movable(g, p)
    ensures forall p :: p in cluster ==> Linked(g, Position(sx, sy), p) && Linked(g, p, Position(sx, sy))
    ensures Closed(g, seen) ==> Closed(g, seen') && Closed(g, MemberSet(cluster))
  {
    var start := Position(sx, sy);
    var stack := [start];
    seen' := MarkVisited(visited, seen, start);
    cluster := [];
    LinkedItself(g, start);
    assert cluster + stack == [start];
    while stack != []
      invariant VisitedTie(visited, seen') && Frontier(g, seen, start, cluster, stack, seen')
      invariant Expanded(g, cluster, seen')
      invariant if cluster == [] then stack == [start] else cluster[0] == start
      decreases AllCells(m.Length0, m.Length1) - seen', |stack|
    {
      PopKeepsFrontier(g, seen, start, cluster, stack, seen');
      cluster := cluster + [stack[|stack| - 1]];
      stack := stack[..|stack| - 1];
      ghost var seenBefore := seen';
      stack, seen' := PushNeighbours(m, g, visited, seen, start, cluster, stack, seen');
      if seen' != seenBefore {
        FewerUnseen(AllCells(m.Length0, m.Length1), seenBefore, seen');
      }
    }
    FillResult(g, seen, start, cluster, seen');
    if Closed(g, seen) {
      FillClosed(g, seen, start, cluster, seen');
    }
  }

  // ---------------------------------------------------------------- moving a cluster

  /** Row numbers never increase along the list: lower cells come first. */
  predicate RowsDescending(s: seq<Position>)
  {
    forall i, j :: 0 <= i < j < |s| ==> s[i].y >= s[j].y
  }

  /** A position on a row no higher than all of a descending list goes in front. */
  lemma ConsDescending(a: Position, t: seq<Position>)
    requires RowsDescending(t) && forall q :: q in t ==> q.y <= a.y
    ensures RowsDescending([a] + t)
  {
    forall i, j | 0 <= i < j < |[a] + t|
      ensures ([a] + t)[i].y >= ([a] + t)[j].y
    {
      assert ([a] + t)[j] == t[j - 1];
      if i > 0 {
        assert ([a] + t)[i] == t[i - 1];
      }
    }
  }

  /** The tail of a descending list is descending. */
  lemma TailDescending(s: seq<Position>)
    requires RowsDescending(s) && s != []
    ensures RowsDescending(s[1..])
  {
    var rest := s[1..];
    forall i, j | 0 <= i < j < |rest|
      ensures rest[i].y >= rest[j].y
    {
      assert rest[i] == s[i + 1] && rest[j] == s[j + 1];
    }
  }

  /** Insertion in front of a list whose first row is not below p. */
  lemma InsertFront(p: Position, s: seq<Position>)
    requires RowsDescending(s) && s != [] && s[0].y <= p.y
    ensures RowsDescending([p] + s) && multiset([p] + s) == multiset(s) + multiset{p}
    ensures forall q :: q in [p] + s ==> q == p || q in s
  {
    forall q | q in s
      ensures q.y <= p.y
    {
      var j :| 0 <= j < |s| && s[j] == q;
      assert j == 0 || s[0].y >= s[j].y;
    }
    ConsDescending(p, s);
  }

  /** Insertion behind the first element, whose row is below p. */
  lemma InsertBehind(p: Position, s: seq<Position>, t: seq<Position>)
    requires RowsDescending(s) && s != [] && p.y < s[0].y
    requires RowsDescending(t) && multiset(t) == multiset(s[1..]) + multiset{p}
    requires forall q :: q in t ==> q == p || q in s[1..]
    ensures RowsDescending([s[0]] + t) && multiset([s[0]] + t) == multiset(s) + multiset{p}
    ensures forall q :: q in [s[0]] + t ==> q == p || q in s
  {
    assert s == [s[0]] + s[1..];
    forall q | q in t
      ensures q.y <= s[0].y
    {
      if q != p {
        var j :| 0 <= j < |s[1..]| && s[1..][j] == q;
        assert s[1..][j] == s[j + 1];
      }
    }
    ConsDescending(s[0], t);
  }

  /** Inserts p before the first element whose row is not below it. */
  function InsertByRow(p: Position, s: seq<Position>): (r: seq<Position>)
    requires RowsDescending(s)
    ensures RowsDescending(r) && multiset(r) == multiset(s) + multiset{p}
    ensures forall q :: q in r ==> q == p || q in s
  {
    if s == [] then [p]
    else if s[0].y <= p.y then
      InsertFront(p, s);
      [p] + s
    else
      TailDescending(s);
      var t := InsertByRow(p, s[1..]);
      InsertBehind(p, s, t);
      [s[0]] + t
  }

  /** List.sort with the comparator of moveCluster, rows in decreasing order; a stable
      insertion sort, so positions on the same row keep their order. */
  function SortByRowDescending(s: seq<Position>): (r: seq<Position>)
    ensures RowsDescending(r) && multiset(r) == multiset(s) && |r| == |s|
  {
    if s == [] then []
    else
      assert s == [s[0]] + s[1..];
      InsertByRow(s[0], SortByRowDescending(s[1..]))
  }

  /** The cluster may move by dist: each member can drop at least that far. */
  ghost predicate CanFall(g: Grid, cluster: seq<Position>, dist: int)
    requires WellShaped(g)
  {
    forall p :: p in cluster ==> Movable(g, p) && Drop(g, MemberSet(cluster), p) >= dist
  }

  /** The facts one step of moveCluster needs about the next member p = sorted[i]. */
  lemma MoveStepFacts(g: Grid, cluster: seq<Position>, sorted: seq<Position>, dist: int, i: int)
    requires WellShaped(g) && dist > 0 && CanFall(g, cluster, dist) && NoRepeat(cluster)
    requires multiset(sorted) == multiset(cluster) && RowsDescending(sorted) && 0 <= i < |sorted|
    ensures Movable(g, sorted[i]) && sorted[i].y + dist < Height(g) - 1
    ensures sorted[i] !in sorted[..i] && Position(sorted[i].x, sorted[i].y - dist) !in sorted[..i]
    ensures Position(sorted[i].x, sorted[i].y + dist) in sorted[..i] || g[sorted[i].x][sorted[i].y + dist].None?
  {
    var p := sorted[i];
    assert p in multiset(cluster);
    assert p in cluster;
    assert NoRepeat(sorted);
    NoRepeatSplit(sorted, i);
    DropFacts(g, MemberSet(cluster), p, dist);
    var t := Position(p.x, p.y + dist);
    if t in cluster {
      assert t in multiset(sorted);
      var j :| 0 <= j < |sorted| && sorted[j] == t;
      assert j < i;
      assert sorted[..i][j] == t;
    }
  }

  /** Moving one movable block down by d into an empty cell lowers the potential by d
      and keeps the colour counts. */
  lemma MoveAccounting(g: Grid, p: Position, d: nat)
    requires WellShaped(g) && Movable(g, p) && p.y + d < Height(g) && g[p.x][p.y + d].None?
    ensures var r := Put(Put(g, p.x, p.y, None), p.x, p.y + d, g[p.x][p.y]);
      WellShaped(r) && Potential(r) + d == Potential(g) &&
      forall colour :: ColourCount(r, colour) == ColourCount(g, colour)
  {
    var mid := Put(g, p.x, p.y, None);
    GridUpdate(g, p.x, p.y, None);
    GridUpdate(mid, p.x, p.y + d, g[p.x][p.y]);
  }

  /** One step of moveCluster: the block at p is taken out and written d rows lower. */
  method MoveBlock(m: array2<Cell>, ghost g: Grid, p: Position, d: nat) returns (ghost g': Grid)
    requires Tie(m, g) && WellShaped(g) && 0 <= p.x < |g| && 0 <= p.y && p.y + d < Height(g)
    modifies m
    ensures Tie(m, g') && g' == Put(Put(g, p.x, p.y, None), p.x, p.y + d, g[p.x][p.y])
  {
    var b := m[p.x, p.y];
    g' := Write(m, g, p.x, p.y, None);
    g' := Write(m, g', p.x, p.y + d, b);
  }

  /** The loop invariant of moveCluster after the members sorted[..i] have moved. */
  ghost predicate MovedPrefix(g: Grid, cur: Grid, sorted: seq<Position>, dist: nat, i: int)
    requires WellShaped(g)
  {
    0 <= i <= |sorted| && ShiftedBy(g, cur, MemberSet(sorted[..i]), dist) &&
    ColumnsKept(g, cur) && Potential(cur) + dist * i == Potential(g) &&
    forall colour :: ColourCount(cur, colour) == ColourCount(g, colour)
  }

  /** Moving member sorted[i] keeps the loop invariant of moveCluster. */
  lemma MoveStep(g: Grid, cur: Grid, sorted: seq<Position>, dist: nat, i: int) returns (p: Position, r: Grid)
    requires WellShaped(g) && dist > 0 && 0 <= i < |sorted| && MovedPrefix(g, cur, sorted, dist, i)
    requires Movable(g, sorted[i]) && sorted[i].y + dist < Height(g) - 1
    requires sorted[i] !in sorted[..i] && Position(sorted[i].x, sorted[i].y - dist) !in sorted[..i]
    requires Position(sorted[i].x, sorted[i].y + dist) in sorted[..i] || g[sorted[i].x][sorted[i].y + dist].None?
    requires forall j :: sorted[i].y < j <= sorted[i].y + dist ==> cur[sorted[i].x][j].None?
    ensures p == sorted[i] && 0 <= p.x < |cur| && 0 <= p.y && p.y + dist < Height(cur)
    ensures r == Put(Put(cur, p.x, p.y, None), p.x, p.y + dist, cur[p.x][p.y])
    ensures MovedPrefix(g, r, sorted, dist, i + 1)
  {
    p := sorted[i];
    r := Put(Put(cur, p.x, p.y, None), p.x, p.y + dist, cur[p.x][p.y]);
    StepShift(g, cur, sorted, dist, i);
    StepAccount(g, cur, p, dist, i);
    MoveKeepsColumns(g, cur, p, dist);
    PrefixFromParts(g, r, sorted, dist, i);
  }

  /** The shift part of MoveStep: the grid with sorted[i] moved is shifted on one more
      member. */
  lemma StepShift(g: Grid, cur: Grid, sorted: seq<Position>, dist: nat, i: int)
    requires WellShaped(g) && dist > 0 && 0 <= i < |sorted| && ShiftedBy(g, cur, MemberSet(sorted[..i]), dist)
    requires Movable(g, sorted[i]) && sorted[i].y + dist < Height(g) - 1
    requires sorted[i] !in sorted[..i] && Position(sorted[i].x, sorted[i].y - dist) !in sorted[..i]
    requires Position(sorted[i].x, sorted[i].y + dist) in sorted[..i] || g[sorted[i].x][sorted[i].y + dist].None?
    ensures var p := sorted[i];
      Movable(cur, p) && p.y + dist < Height(cur) && cur[p.x][p.y + dist].None? &&
      ShiftedBy(g, Put(Put(cur, p.x, p.y, None), p.x, p.y + dist, cur[p.x][p.y]), MemberSet(sorted[..i + 1]), dist)
  {
    var p := sorted[i];
    var P := MemberSet(sorted[..i]);
    assert MemberSet(sorted[..i + 1]) == P + {p} by {
      assert sorted[..i + 1] == sorted[..i] + [p];
    }
    ShiftStep(g, cur, P, dist, p);
  }

  /** The accounting part of MoveStep: one more member moved by dist. */
  lemma StepAccount(g: Grid, cur: Grid, p: Position, dist: nat, i: int)
    requires WellShaped(g) && WellShaped(cur) && 0 <= i
    requires Movable(cur, p) && p.y + dist < Height(cur) && cur[p.x][p.y + dist].None?
    requires Potential(cur) + dist * i == Potential(g)
    requires forall colour :: ColourCount(cur, colour) == ColourCount(g, colour)
    ensures var r := Put(Put(cur, p.x, p.y, None), p.x, p.y + dist, cur[p.x][p.y]);
      WellShaped(r) && Potential(r) + dist * (i + 1) == Potential(g) &&
      forall colour :: ColourCount(r, colour) == ColourCount(g, colour)
  {
    MoveAccounting(cur, p, dist);
    assert dist * (i + 1) == dist * i + dist;
  }

  /** The loop invariant of moveCluster from its three parts. */
  lemma PrefixFromParts(g: Grid, r: Grid, sorted: seq<Position>, dist: nat, i: int)
    requires WellShaped(g) && 0 <= i < |sorted|
    requires ShiftedBy(g, r, MemberSet(sorted[..i + 1]), dist) && ColumnsKept(g, r)
    requires Potential(r) + dist * (i + 1) == Potential(g)
    requires forall colour :: ColourCount(r, colour) == ColourCount(g, colour)
    ensures MovedPrefix(g, r, sorted, dist, i + 1)
  {
  }

  /** When member sorted[i] moves, the cells it passes are empty: members further down
      have left them already, and no member has landed there yet. */
  lemma BelowEmpty(g: Grid, cur: Grid, cluster: seq<Position>, sorted: seq<Position>, dist: int, i: int)
    requires WellShaped(g) && dist > 0 && CanFall(g, cluster, dist)
    requires multiset(sorted) == multiset(cluster) && RowsDescending(sorted) && 0 <= i < |sorted|
    requires ShiftedBy(g, cur, MemberSet(sorted[..i]), dist) && sorted[i] !in sorted[..i]
    requires Movable(g, sorted[i]) && sorted[i].y + dist < Height(g) - 1
    ensures forall j :: sorted[i].y < j <= sorted[i].y + dist ==> cur[sorted[i].x][j].None?
  {
    var p := sorted[i];
    var P := MemberSet(sorted[..i]);
    assert p in multiset(cluster);
    forall j | p.y < j <= p.y + dist
      ensures cur[p.x][j].None?
    {
      assert cur[p.x][j] == ShiftCell(g, P, dist, p.x, j);
      NotAboveInPrefix(sorted, i, Position(p.x, j - dist));
      DropFacts(g, MemberSet(cluster), p, j - p.y);
      if Position(p.x, j) in cluster {
        assert Position(p.x, j) in multiset(sorted);
        BelowInPrefix(sorted, i, Position(p.x, j));
      }
    }
  }

  /** In rows sorted downward-first, nothing above sorted[i], nor sorted[i] itself,
      comes before it. */
  lemma NotAboveInPrefix(sorted: seq<Position>, i: int, q: Position)
    requires RowsDescending(sorted) && 0 <= i < |sorted| && sorted[i] !in sorted[..i]
    requires q.y < sorted[i].y || q == sorted[i]
    ensures q !in sorted[..i]
  {
    forall k | 0 <= k < i
      ensures sorted[..i][k] != q
    {
      assert sorted[..i][k] == sorted[k] && sorted[k].y >= sorted[i].y;
    }
  }

  /** In rows sorted downward-first, every listed cell below sorted[i] comes before it. */
  lemma BelowInPrefix(sorted: seq<Position>, i: int, q: Position)
    requires RowsDescending(sorted) && 0 <= i < |sorted| && q in sorted && q.y > sorted[i].y
    ensures q in sorted[..i]
  {
    var k :| 0 <= k < |sorted| && sorted[k] == q;
    assert k < i;
    assert sorted[..i][k] == q;
  }

  /** The body of the loop of moveCluster: moves member sorted[i]. */
  method MoveMember(m: array2<Cell>, ghost g: Grid, ghost cur: Grid, ghost cluster: seq<Position>,
                    sorted: seq<Position>, dist: int, i: int) returns (ghost next: Grid)
    requires WellShaped(g) && dist > 0 && CanFall(g, cluster, dist) && NoRepeat(cluster)
    requires multiset(sorted) == multiset(cluster) && RowsDescending(sorted) && 0 <= i < |sorted|
    requires Tie(m, cur) && MovedPrefix(g, cur, sorted, dist, i)
    modifies m
    ensures Tie(m, next) && MovedPrefix(g, next, sorted, dist, i + 1)
  {
    MoveStepFacts(g, cluster, sorted, dist, i);
    BelowEmpty(g, cur, cluster, sorted, dist, i);
    ghost var p, r := MoveStep(g, cur, sorted, dist, i);
    next := MoveBlock(m, cur, sorted[i], dist);
    assert next == r;
  }

  /** After the last member the partial shift is the whole shift. */
  lemma MoveDone(g: Grid, cur: Grid, cluster: seq<Position>, sorted: seq<Position>, dist: nat)
    requires WellShaped(g) && CanFall(g, cluster, dist)
    requires multiset(sorted) == multiset(cluster) && |sorted| == |cluster| && MovedPrefix(g, cur, sorted, dist, |sorted|)
    ensures cur == Shifted(g, MemberSet(cluster), dist)
    ensures Conserves(g, cur) && Potential(cur) + dist * |cluster| == Potential(g)
    ensures |cluster| > 0 ==> Potential(cur) + dist <= Potential(g)
  {
    if |cluster| >= 1 {
      ProductAtLeast(dist, |cluster|);
    }
    assert sorted[..|sorted|] == sorted;
    assert MemberSet(sorted) == MemberSet(cluster) by {
      forall q ensures q in sorted <==> q in cluster {
        assert q in sorted <==> q in multiset(sorted);
      }
    }
    ShiftedUnique(g, cur, MemberSet(cluster), dist);
    ShiftKeepsFixed(g, MemberSet(cluster), dist);
  }

  /** A cluster of n >= 1 members moved by d lowers the potential by d * n >= d. */
  lemma {:induction false} ProductAtLeast(d: nat, n: nat)
    requires n >= 1
    ensures d * n >= d
    decreases n
  {
    if n > 1 {
      ProductAtLeast(d, n - 1);
      assert d * n == d * (n - 1) + d;
    }
  }

  /** moveCluster: empties each member's cell and writes its block dist rows lower,
      visiting members from the lowest row up so that no block is overwritten. The new
      grid is the cluster shifted down by dist; viruses, the outside ring and the colour
      counts are unchanged, and the potential drops by dist for every member. */
  method MoveCluster(m: array2<Cell>, ghost g: Grid, cluster: seq<Position>, dist: int) returns (ghost g': Grid)
    requires Tie(m, g) && WellShaped(g)
    requires dist > 0 && NoRepeat(cluster) && CanFall(g, cluster, dist)
    modifies m
    ensures Tie(m, g') && g' == Shifted(g, MemberSet(cluster), dist)
    ensures Conserves(g, g') && Potential(g') + dist * |cluster| == Potential(g)
    ensures |cluster| > 0 ==> Potential(g') < Potential(g)
  {
    var sorted := SortByRowDescending(cluster);
    g' := MoveSorted(m, g, cluster, sorted, dist);
    MoveDone(g, g', cluster, sorted, dist);
  }

  /** The loop of moveCluster over the members in the order of `sorted`. */
  method MoveSorted(m: array2<Cell>, ghost g: Grid, ghost cluster: seq<Position>, sorted: seq<Position>, dist: int)
    returns (ghost g': Grid)
    requires Tie(m, g) && WellShaped(g)
    requires dist > 0 && NoRepeat(cluster) && CanFall(g, cluster, dist)
    requires multiset(sorted) == multiset(cluster) && RowsDescending(sorted)
    modifies m
    ensures Tie(m, g') && MovedPrefix(g, g', sorted, dist, |sorted|)
  {
    g' := g;
    assert sorted[..0] == [];
    for i := 0 to |sorted|
      invariant Tie(m, g') && MovedPrefix(g, g', sorted, dist, i)
    {
      g' := MoveMember(m, g, g', cluster, sorted, dist, i);
    }
  }

  // ---------------------------------------------------------------- the fixed point

  /** Each member of a movable cluster drops less than Integer.MAX_VALUE rows. */
  lemma DropsBelowMax(g: Grid, cluster: seq<Position>)
    requires WellShaped(g) && Height(g) <= MaxInt && forall p :: p in cluster ==> Movable(g, p)
    ensures Placed(g, cluster)
    ensures forall i :: 0 <= i < |cluster| ==> Drop(g, MemberSet(cluster), cluster[i]) < MaxInt
  {
    assert forall i :: 0 <= i < |cluster| ==> Movable(g, cluster[i]);
    forall i | 0 <= i < |cluster|
      ensures Drop(g, MemberSet(cluster), cluster[i]) < MaxInt
    {
      DropBounded(g, MemberSet(cluster), cluster[i].x, cluster[i].y, 0);
    }
  }

  /** A cluster with a positive fall can move by it. */
  lemma FallIsPossible(g: Grid, cluster: seq<Position>, fall: int)
    requires WellShaped(g) && Height(g) <= MaxInt && cluster != [] && forall p :: p in cluster ==> Movable(g, p)
    requires Placed(g, cluster) && fall == FallOf(g, MemberSet(cluster), cluster)
    ensures fall >= 0 && CanFall(g, cluster, fall)
  {
    DropsBelowMax(g, cluster);
    FallIsLeastDrop(g, MemberSet(cluster), cluster);
  }

  /** A closed cluster connected to its cell `start` whose fall is zero anchors each of
      its members: the member with zero drop rests, and every closed group holding a
      member holds the start and so that resting member. */
  lemma ClusterAnchored(g: Grid, cluster: seq<Position>, start: Position)
    requires WellShaped(g) && Height(g) <= MaxInt && cluster != [] && Closed(g, MemberSet(cluster))
    requires forall p :: p in cluster ==> Movable(g, p) && Linked(g, start, p) && Linked(g, p, start)
    requires Placed(g, cluster) && FallOf(g, MemberSet(cluster), cluster) == 0
    ensures forall c :: c in cluster ==> Anchored(g, c)
  {
    DropsBelowMax(g, cluster);
    FallIsLeastDrop(g, MemberSet(cluster), cluster);
    var i :| 0 <= i < |cluster| && Drop(g, MemberSet(cluster), cluster[i]) == 0;
    var z := cluster[i];
    ZeroDropRests(g, MemberSet(cluster), z);
    forall c, S | c in cluster && Closed(g, S) && c in S
      ensures exists w :: w in S && Movable(g, w) && Resting(g, w)
    {
      assert start in S;
      assert z in S;
    }
  }

  /** While a pass has moved nothing: the visited cells form a closed set of anchored
      cells, and every movable cell the scan has passed (column by column, each column
      top to bottom) was visited. */
  ghost predicate CleanSoFar(g: Grid, seen: set<Position>, x: int, y: int)
    requires WellShaped(g)
  {
    Closed(g, seen) && (forall q :: q in seen ==> Anchored(g, q)) &&
    forall q :: Movable(g, q) && (q.x < x || (q.x == x && q.y < y)) ==> q in seen
  }

  /** A pass that visited every movable cell and moved nothing ends on a settled grid. */
  lemma CleanPassSettles(g: Grid, seen: set<Position>, x: int)
    requires WellShaped(g) && CleanSoFar(g, seen, x, 1) && x >= |g| - 1
    ensures Settled(g)
  {
    forall S | S != {} && AllMovable(g, S) && Closed(g, S)
      ensures exists z :: z in S && Movable(g, z) && Resting(g, z)
    {
      var q :| q in S;
      assert Movable(g, q);
      assert q in seen;
    }
  }

  /** The state of a pass of applyClusterGravity: the grid g keeps what g0 held, and
      either something moved and the potential went down, or nothing moved and the
      scan so far is clean. */
  ghost predicate PassState(g0: Grid, g: Grid, seen: set<Position>, moved: bool, x: int, y: int)
    requires WellShaped(g0)
  {
    Conserves(g0, g) &&
    (moved ==> Potential(g) < Potential(g0) && !Settled(g0)) &&
    (!moved ==> g == g0 && CleanSoFar(g0, seen, x, y))
  }

  /** A scanned cell that starts no cluster leaves the pass state as it was. */
  lemma SkipKeepsPass(g0: Grid, g: Grid, seen: set<Position>, moved: bool, x: int, y: int)
    requires WellShaped(g0) && PassState(g0, g, seen, moved, x, y)
    requires !Movable(g, Position(x, y)) || Position(x, y) in seen
    ensures PassState(g0, g, seen, moved, x, y + 1)
  {
  }

  /** A cluster that moved lowers the potential below that of the pass's start. */
  lemma MoveKeepsPass(g0: Grid, g: Grid, g': Grid, seen: set<Position>, seen': set<Position>,
                      moved: bool, x: int, y: int)
    requires WellShaped(g0) && PassState(g0, g, seen, moved, x, y)
    requires Conserves(g, g') && Potential(g') < Potential(g) && !Settled(g0)
    ensures PassState(g0, g', seen', true, x, y + 1)
  {
    ConservesTransitive(g0, g, g');
  }

  /** A cluster with fall zero, found while nothing has moved, is closed and anchored,
      so the scan stays clean one cell further. */
  lemma StayKeepsPass(g0: Grid, seen: set<Position>, seen': set<Position>, cluster: seq<Position>, x: int, y: int)
    requires WellShaped(g0) && Height(g0) <= MaxInt && CleanSoFar(g0, seen, x, y)
    requires seen' == seen + MemberSet(cluster) && cluster != [] && cluster[0] == Position(x, y)
    requires forall p :: p in cluster ==> Movable(g0, p)
    requires forall p :: p in cluster ==> Linked(g0, Position(x, y), p) && Linked(g0, p, Position(x, y))
    requires Closed(g0, seen) ==> Closed(g0, seen') && Closed(g0, MemberSet(cluster))
    requires Placed(g0, cluster) && FallOf(g0, MemberSet(cluster), cluster) == 0
    ensures CleanSoFar(g0, seen', x, y + 1)
  {
    ClusterAnchored(g0, cluster, Position(x, y));
    assert Position(x, y) in seen';
  }

  /** On a settled grid a closed cluster has a member resting on the floor or on a
      virus; that member's drop is zero, and so is the cluster's fall. */
  lemma SettledClusterStays(g: Grid, cluster: seq<Position>)
    requires WellShaped(g) && Height(g) <= MaxInt && cluster != [] && Closed(g, MemberSet(cluster))
    requires forall p :: p in cluster ==> Movable(g, p)
    ensures Placed(g, cluster)
    ensures Settled(g) ==> FallOf(g, MemberSet(cluster), cluster) == 0
  {
    var C := MemberSet(cluster);
    DropsBelowMax(g, cluster);
    FallIsLeastDrop(g, C, cluster);
    if Settled(g) {
      assert cluster[0] in C && AllMovable(g, C);
      var z :| z in C && Movable(g, z) && Resting(g, z);
      var i :| 0 <= i < |cluster| && cluster[i] == z;
      DropZero(g, C, z);
      assert z.y + 1 < Height(g) - 1 ==> Position(z.x, z.y + 1) !in C;
      assert Drop(g, C, cluster[i]) == 0;
    }
  }

  /** One step of the scan of applyClusterGravity at (x, y): an unvisited non-virus
      block starts a cluster, which moves down by its fall when that is positive. */
  method ScanCell(m: array2<Cell>, ghost g0: Grid, ghost g: Grid, visited: array2<bool>, ghost seen: set<Position>,
                  moved: bool, x: int, y: int) returns (moved': bool, ghost g': Grid, ghost seen': set<Position>)
    requires Tie(m, g) && WellShaped(g0) && m.Length1 <= MaxInt
    requires visited.Length0 == m.Length0 && visited.Length1 == m.Length1 && VisitedTie(visited, seen)
    requires PassState(g0, g, seen, moved, x, y)
    requires 1 <= x < m.Length0 - 1 && 1 <= y < m.Length1 - 1
    modifies m, visited
    ensures Tie(m, g') && VisitedTie(visited, seen') && PassState(g0, g', seen', moved', x, y + 1)
  {
    if m[x, y].None? || visited[x, y] || m[x, y].value.isVirus {
      SkipKeepsPass(g0, g, seen, moved, x, y);
      return moved, g, seen;
    }
    var cluster;
    cluster, seen' := CollectCluster(m, g, visited, seen, x, y);
    DropsBelowMax(g, cluster);
    var fall := ComputeClusterFall(m, g, cluster);
    FallIsPossible(g, cluster, fall);
    if !moved {
      SettledClusterStays(g, cluster);
    }
    if fall > 0 {
      g' := MoveCluster(m, g, cluster, fall);
      MoveKeepsPass(g0, g, g', seen, seen', moved, x, y);
      moved' := true;
    } else {
      g', moved' := g, moved;
      if !moved {
        StayKeepsPass(g0, seen, seen', cluster, x, y);
      }
    }
  }

  /** One pass of the do-while loop of applyClusterGravity: a fresh visited matrix and a
      scan of the interior, column by column. If it reports no move the grid is
      unchanged and settled; if it reports a move the potential went down. */
  method GravityPass(m: array2<Cell>, ghost g: Grid) returns (moved: bool, ghost g': Grid)
    requires Tie(m, g) && WellShaped(g) && m.Length1 <= MaxInt
    modifies m
    ensures Tie(m, g') && Conserves(g, g')
    ensures moved ==> Potential(g') < Potential(g)
    ensures !moved <==> Settled(g)
    ensures !moved ==> g' == g
  {
    var width := m.Length0;
    var height := m.Length1;
    moved := false;
    g' := g;
    var visited := new bool[width, height]((i, j) => false);
    ghost var seen: set<Position> := {};
    var x := 1;
    while x < width - 1
      invariant x >= 1 && Tie(m, g') && VisitedTie(visited, seen)
      invariant visited.Length0 == width && visited.Length1 == height
      invariant PassState(g, g', seen, moved, x, 1)
    {
      var y := 1;
      while y < height - 1
        invariant y >= 1 && Tie(m, g') && VisitedTie(visited, seen)
        invariant PassState(g, g', seen, moved, x, y)
      {
        moved, g', seen := ScanCell(m, g, g', visited, seen, moved, x, y);
        y := y + 1;
      }
      assert !moved ==> CleanSoFar(g, seen, x + 1, 1);
      x := x + 1;
    }
    if !moved {
      CleanPassSettles(g, seen, x);
    }
  }

  /** applyClusterGravity: passes repeat while the last one moved something. It ends,
      as the potential drops with every pass that moves, on a settled grid with every
      virus, the outside ring and the colour counts unchanged. */
  method ApplyClusterGravity(m: array2<Cell>, ghost g: Grid) returns (ghost g': Grid)
    requires Tie(m, g) && WellShaped(g) && m.Length1 <= MaxInt
    modifies m
    ensures Tie(m, g') && Conserves(g, g') && Settled(g')
    ensures Settled(g) ==> g' == g
  {
    g' := g;
    var moved := true;
    while moved
      invariant Tie(m, g') && Conserves(g, g')
      invariant !moved ==> Settled(g')
      invariant Settled(g) ==> g' == g
      decreases Potential(g') + (if moved then 1 else 0)
    {
      ghost var before := g';
      moved, g' := GravityPass(m, g');
      ConservesTransitive(g, before, g');
    }
  }
}
