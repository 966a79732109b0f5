/** `dfs_algorithm`: depth-first search over the TypeScript maze with an
    array used as a stack (`push`/`pop`), cells marked visited when pushed.
    Colouring and the optional delay do not change the result and are not
    modelled. */
module TsDfs {
  import opened Wrappers
  import opened Grid
  import opened SearchCore
  import opened TsMaze

  /** Returns the parent table when the target is popped, `null` (here
      `None`) when the stack runs empty. Beside it: a ranking showing the
      parent links acyclic, and the cells in the order they were pushed. */
  method DfsAlgorithm(grid: seq<seq<char>>, start: Pos, target: Pos)
    returns (r: Option<map<Pos, Pos>>, ghost depth: map<Pos, nat>, ghost pushes: seq<Pos>)
    requires |grid| > 0
    ensures r.Some? <==> Reachable(Open(grid), start, target)
    ensures r.Some? ==> ParentTree(Open(grid), start, r.value, depth)
    ensures r.Some? ==> target == start || target in r.value
    ensures r.Some? ==> r.value.Keys == Members(pushes) - {start}
    ensures |pushes| > 0 && pushes[0] == start
    ensures forall i, j :: 0 <= i < j < |pushes| ==> pushes[i] != pushes[j]
    ensures forall i :: 0 < i < |pushes| ==> pushes[i] in Open(grid)
  {
    ghost var open := Open(grid);
    var queue := [start];
    var visited := {start};
    var parent: map<Pos, Pos> := map[];
    ghost var closed: set<Pos> := {};
    depth := map[start := 0];
    pushes := [start];
    SearchingStart(open, start, target);
    while |queue| > 0
      invariant Searching(open, start, target, visited, closed, Members(queue), parent, depth)
      invariant PushLog(pushes, start, open, visited)
      decreases Unvisited(open, start, visited), |queue|
    {
      ghost var q0 := queue;
      var current := queue[|queue| - 1];
      queue := queue[..|queue| - 1];
      MembersPop(q0);
      if current == target {
        TargetFound(open, start, target, visited, closed, Members(q0), parent, depth, pushes);
        return Some(parent), depth, pushes;
      }
      BeginExpand(open, start, target, visited, closed, Members(q0), Members(queue), parent, depth, current, TsMoves);
      queue, visited, parent, depth, pushes :=
        PushNeighbours(grid, start, target, current, queue, visited, parent, closed, depth, pushes);
      closed := closed + {current};
    }
    ExhaustedUnreachable(open, start, target, visited, closed, parent, depth);
    return None, depth, pushes;
  }

  /** The `for (const [dx, dy] of moves)` loop of one expansion: every
      in-bounds unvisited `' '` neighbour of `current` is marked visited,
      given `current` as parent and pushed. */
  method PushNeighbours(grid: seq<seq<char>>, ghost start: Pos, ghost target: Pos, current: Pos,
                        queue: seq<Pos>, visited: set<Pos>, parent: map<Pos, Pos>,
                        ghost closed: set<Pos>, ghost depth: map<Pos, nat>, ghost pushes: seq<Pos>)
    returns (queue': seq<Pos>, visited': set<Pos>, parent': map<Pos, Pos>,
             ghost depth': map<Pos, nat>, ghost pushes': seq<Pos>)
    requires |grid| > 0
    requires Expanding(Open(grid), start, target, visited, closed, Members(queue), parent, depth, current, TsMoves, 0)
    requires PushLog(pushes, start, Open(grid), visited)
    ensures Searching(Open(grid), start, target, visited', closed + {current}, Members(queue'), parent', depth')
    ensures PushLog(pushes', start, Open(grid), visited')
    ensures Unvisited(Open(grid), start, visited') < Unvisited(Open(grid), start, visited) || (visited' == visited && queue' == queue)
  {
    ghost var open := Open(grid);
    ghost var s := start;
    var moves := TsMoves;
    queue', visited', parent', depth', pushes' := queue, visited, parent, depth, pushes;
    for i := 0 to |moves|
      invariant Expanding(open, s, target, visited', closed, Members(queue'), parent', depth', current, TsMoves, i)
      invariant PushLog(pushes', s, open, visited')
      invariant visited <= visited' && (visited' == visited ==> queue' == queue)
    {
      queue', visited', parent', depth', pushes' := TryMove(grid, s, target, current, queue', visited', parent', closed, depth', pushes', i);
    }
    EndExpand(open, s, target, visited', closed, Members(queue'), parent', depth', current, TsMoves);
    FewerUnvisited(open, s, visited, visited');
  }

  /** Move i of one expansion: the neighbour it leads to is marked visited,
      given `current` as parent and pushed when it is in bounds, `' '` and
      unvisited. */
  method TryMove(grid: seq<seq<char>>, ghost start: Pos, ghost target: Pos, current: Pos,
                 queue: seq<Pos>, visited: set<Pos>, parent: map<Pos, Pos>,
                 ghost closed: set<Pos>, ghost depth: map<Pos, nat>, ghost pushes: seq<Pos>, i: nat)
    returns (queue': seq<Pos>, visited': set<Pos>, parent': map<Pos, Pos>,
             ghost depth': map<Pos, nat>, ghost pushes': seq<Pos>)
    requires |grid| > 0 && i < |TsMoves|
    requires Expanding(Open(grid), start, target, visited, closed, Members(queue), parent, depth, current, TsMoves, i)
    requires PushLog(pushes, start, Open(grid), visited)
    ensures Expanding(Open(grid), start, target, visited', closed, Members(queue'), parent', depth', current, TsMoves, i + 1)
    ensures PushLog(pushes', start, Open(grid), visited')
    ensures visited <= visited' && (visited' == visited ==> queue' == queue)
  {
    ghost var open := Open(grid);
    var moves := TsMoves;
    var n := Pos(current.x + moves[i].0, current.y + moves[i].1);
    OpenIff(grid, n.x, n.y);
    if IsFree(grid, n.x, n.y) && n !in visited {
      StackPush(open, start, target, visited, closed, queue, parent, depth, pushes, current, i, n);
      visited' := visited + {n};
      parent' := parent[n := current];
      queue' := queue + [n];
      depth' := depth[n := depth[current] + 1];
      pushes' := pushes + [n];
    } else {
      SkipMove(open, start, target, visited, closed, Members(queue), parent, depth, current, TsMoves, i, n);
      queue', visited', parent', depth', pushes' := queue, visited, parent, depth, pushes;
    }
  }

  /** Discovering and pushing the unvisited open cell n that move i of c's
      expansion leads to. */
  lemma StackPush(open: set<Pos>, s: Pos, t: Pos, V: set<Pos>, closed: set<Pos>, q: seq<Pos>,
                  parent: map<Pos, Pos>, depth: map<Pos, nat>, pushes: seq<Pos>, c: Pos, i: nat, n: Pos)
    requires i < |TsMoves| && n == Shift(c, TsMoves[i]) && n in open && n !in V
    requires Expanding(open, s, t, V, closed, Members(q), parent, depth, c, TsMoves, i)
    requires PushLog(pushes, s, open, V)
    ensures Expanding(open, s, t, V + {n}, closed, Members(q + [n]), parent[n := c], depth[n := depth[c] + 1], c, TsMoves, i + 1)
    ensures PushLog(pushes + [n], s, open, V + {n})
  {
    PushMove(open, s, t, V, closed, Members(q), parent, depth, c, TsMoves, i, n);
    PushLogStep(pushes, s, open, V, n);
    MembersPush(q, n);
  }
}
