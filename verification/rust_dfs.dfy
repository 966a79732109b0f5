/** `DfsSolver::find_path`: depth-first search over the Rust maze with a
    `Vec` used as a stack (`push` / `pop`), cells marked visited and given a
    parent when pushed, moves tried in the order (0,-1), (0,1), (-1,0),
    (1,0). The `visited` and `parent` grids are a set and a map here; the
    colouring and the pause between pushes are not modelled. */
module RustDfs {
  import opened Wrappers
  import opened Grid
  import opened SearchCore
  import opened RustGrid
  import opened RustMaze

  /** `Ok("Path found! --> current=>... target=> ...")` when the target is
      reachable from the computer player, otherwise `Ok("Target not
      reachable! --> ...")`. Beside the answer: the parent table, with a
      ranking showing its links acyclic, and the cells in push order. */
  method FindPath(state: MazeState, delayMs: int)
    returns (r: Result<string, string>, parent: map<Pos, Pos>, ghost depth: map<Pos, nat>, ghost pushes: seq<Pos>)
    requires Searchable(state.mazeGrid, state.computerPlayer)
    ensures Reachable(Open(state.mazeGrid), state.computerPlayer, state.target) ==> r == Ok(FoundAt(state.target, state.target))
    ensures !Reachable(Open(state.mazeGrid), state.computerPlayer, state.target) ==>
              r == Ok(NotReachableFrom(|state.mazeGrid|, |state.mazeGrid[0]|, state.computerPlayer))
    ensures r == Ok(FoundAt(state.target, state.target)) ==>
              && ParentTree(Open(state.mazeGrid), state.computerPlayer, parent, depth)
              && (state.target == state.computerPlayer || state.target in parent)
              && parent.Keys == Members(pushes) - {state.computerPlayer}
    ensures |pushes| > 0 && pushes[0] == state.computerPlayer
    ensures forall i, j :: 0 <= i < j < |pushes| ==> pushes[i] != pushes[j]
    ensures forall i :: 0 < i < |pushes| ==> pushes[i] in Open(state.mazeGrid)
  {
    var grid, start, target := state.mazeGrid, state.computerPlayer, state.target;
    var rows, cols := |grid|, |grid[0]|;
    ghost var open := Open(grid);
    var queue := [start];
    var visited := {start};
    parent := map[];
    ghost var closed: set<Pos> := {};
    depth := map[start := 0];
    pushes := [start];
    SearchingStart(open, start, target);
    FoundDiffers(target, target, delayMs, rows, cols, start);
    while |queue| > 0
      invariant Searching(open, start, target, visited, closed, Members(queue), parent, depth)
      invariant PushLog(pushes, start, open, visited)
      decreases Unvisited(open, start, visited), |queue|
    {
      ghost var q0 := queue;
      var current := queue[|queue| - 1];
      queue := queue[..|queue| - 1];
      MembersPop(q0);
      if current == target {
        TargetFound(open, start, target, visited, closed, Members(q0), parent, depth, pushes);
        // `reconstruct_path` always answers `Ok`, so its `?` passes
        var path, chain := state.ReconstructPath(parent, target, depth);
        return Ok(FoundAt(current, target)), parent, depth, pushes;
      }
      BeginExpand(open, start, target, visited, closed, Members(q0), Members(queue), parent, depth, current, RustMoves);
      queue, visited, parent, depth, pushes :=
        PushNeighbours(grid, start, target, current, queue, visited, parent, closed, depth, pushes);
      closed := closed + {current};
    }
    ExhaustedUnreachable(open, start, target, visited, closed, parent, depth);
    return Ok(NotReachableFrom(rows, cols, start)), parent, depth, pushes;
  }

  /** The `for &(dx, dy) in moves.iter()` loop of one expansion. */
  method PushNeighbours(grid: seq<seq<CellType>>, ghost start: Pos, ghost target: Pos, current: Pos,
                        queue: seq<Pos>, visited: set<Pos>, parent: map<Pos, Pos>,
                        ghost closed: set<Pos>, ghost depth: map<Pos, nat>, ghost pushes: seq<Pos>)
    returns (queue': seq<Pos>, visited': set<Pos>, parent': map<Pos, Pos>,
             ghost depth': map<Pos, nat>, ghost pushes': seq<Pos>)
    requires Rectangular(grid)
    requires Expanding(Open(grid), start, target, visited, closed, Members(queue), parent, depth, current, RustMoves, 0)
    requires PushLog(pushes, start, Open(grid), visited)
    ensures Searching(Open(grid), start, target, visited', closed + {current}, Members(queue'), parent', depth')
    ensures PushLog(pushes', start, Open(grid), visited')
    ensures Unvisited(Open(grid), start, visited') < Unvisited(Open(grid), start, visited)
            || (visited' == visited && queue' == queue)
  {
    ghost var open := Open(grid);
    var moves := RustMoves;
    queue', visited', parent', depth', pushes' := queue, visited, parent, depth, pushes;
    for i := 0 to |moves|
      invariant Expanding(open, start, target, visited', closed, Members(queue'), parent', depth', current, RustMoves, i)
      invariant PushLog(pushes', start, open, visited')
      invariant visited <= visited' && (visited' == visited ==> queue' == queue)
    {
      queue', visited', parent', depth', pushes' :=
        TryMove(grid, start, target, current, queue', visited', parent', closed, depth', pushes', i);
    }
    EndExpand(open, start, target, visited', closed, Members(queue'), parent', depth', current, RustMoves);
    FewerUnvisited(open, start, visited, visited');
  }

  /** Move i: the neighbour it leads to is marked visited, given `current`
      as parent and pushed when it is inside the grid, a path cell and not
      yet visited. */
  method TryMove(grid: seq<seq<CellType>>, ghost start: Pos, ghost target: Pos, current: Pos,
                 queue: seq<Pos>, visited: set<Pos>, parent: map<Pos, Pos>,
                 ghost closed: set<Pos>, ghost depth: map<Pos, nat>, ghost pushes: seq<Pos>, i: nat)
    returns (queue': seq<Pos>, visited': set<Pos>, parent': map<Pos, Pos>,
             ghost depth': map<Pos, nat>, ghost pushes': seq<Pos>)
    requires Rectangular(grid) && i < |RustMoves|
    requires Expanding(Open(grid), start, target, visited, closed, Members(queue), parent, depth, current, RustMoves, i)
    requires PushLog(pushes, start, Open(grid), visited)
    ensures Expanding(Open(grid), start, target, visited', closed, Members(queue'), parent', depth', current, RustMoves, i + 1)
    ensures PushLog(pushes', start, Open(grid), visited')
    ensures visited <= visited' && (visited' == visited ==> queue' == queue)
  {
    ghost var open := Open(grid);
    var moves := RustMoves;
    var n := Pos(current.x + moves[i].0, current.y + moves[i].1);
    OpenIff(grid, n.x, n.y);
    if IsPath(grid, n.x, n.y) && n !in visited {
      PushMove(open, start, target, visited, closed, Members(queue), parent, depth, current, RustMoves, i, n);
      PushLogStep(pushes, start, open, visited, n);
      MembersPush(queue, n);
      visited' := visited + {n};
      parent' := parent[n := current];
      queue' := queue + [n];
      depth' := depth[n := depth[current] + 1];
      pushes' := pushes + [n];
    } else {
      SkipMove(open, start, target, visited, closed, Members(queue), parent, depth, current, RustMoves, i, n);
      queue', visited', parent', depth', pushes' := queue, visited, parent, depth, pushes;
    }
  }
}
