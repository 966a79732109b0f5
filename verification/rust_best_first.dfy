/** `BestFirstSolver::find_path` of the maze module: greedy best-first
    search over the Rust maze. The frontier is a `BinaryHeap` of
    `Reverse((heuristic as i64, cell))`, so the cell closest to the target by
    the heuristic alone comes off first; cells are marked visited and given
    a parent when pushed. The `visited` and `parent` maps are a set and a
    map here. `reconstruct_path_astar` is not part of this model: what it
    answers comes in as a parameter. */
module RustBestFirst {
  import opened Wrappers
  import opened Grid
  import opened SearchCore
  import opened RustGrid
  import opened RustHeap
  import opened RustMaze

  /** Every waiting entry is keyed by its cell's heuristic, not by a path cost. */
  ghost predicate KeyedByHeuristic(H: multiset<HeapEntry>, target: Pos)
  {
    forall e :: e in H ==> e.f == RustHeuristic(e.p, target)
  }

  lemma KeyedPop(H: multiset<HeapEntry>, H': multiset<HeapEntry>, e: HeapEntry, target: Pos)
    requires KeyedByHeuristic(H, target) && H' + multiset{e} == H
    ensures KeyedByHeuristic(H', target)
  {
    forall d | d in H' ensures d.f == RustHeuristic(d.p, target) {
      assert d in H;
    }
  }

  /** `Ok("Path found! --> <delay> ")` when the target is reachable from the
      computer player and `reconstruct_path_astar` succeeds, its error when
      it fails, and `Err("Target not reachable!")` when the heap runs empty.
      Beside the answer: the parent table, with a ranking showing its links
      acyclic, and the cells in push order. */
  method FindPath(state: MazeState, delayMs: int, astarPath: Result<seq<Pos>, string>)
    returns (r: Result<string, string>, parent: map<Pos, Pos>, ghost depth: map<Pos, nat>, ghost pushes: seq<Pos>)
    requires Searchable(state.mazeGrid, state.computerPlayer)
    ensures Reachable(Open(state.mazeGrid), state.computerPlayer, state.target) ==>
              r == (if astarPath.Ok? then Ok(FoundAfter(delayMs)) else Err(astarPath.error))
    ensures !Reachable(Open(state.mazeGrid), state.computerPlayer, state.target) ==> r == Err(NotReachable)
    ensures Reachable(Open(state.mazeGrid), state.computerPlayer, state.target) ==>
              && ParentTree(Open(state.mazeGrid), state.computerPlayer, parent, depth)
              && (state.target == state.computerPlayer || state.target in parent)
              && parent.Keys == Members(pushes) - {state.computerPlayer}
    ensures |pushes| > 0 && pushes[0] == state.computerPlayer
    ensures forall i, j :: 0 <= i < j < |pushes| ==> pushes[i] != pushes[j]
    ensures forall i :: 0 < i < |pushes| ==> pushes[i] in Open(state.mazeGrid)
  {
    var grid, start, target := state.mazeGrid, state.computerPlayer, state.target;
    ghost var open := Open(grid);
    var pq := multiset{HeapEntry(RustHeuristic(start, target), start)};
    assert Cells(pq) == {start} by {
      CellsPush(multiset{}, HeapEntry(RustHeuristic(start, target), start));
    }
    var visited := {start};
    parent := map[];
    ghost var closed: set<Pos> := {};
    depth := map[start := 0];
    pushes := [start];
    SearchingStart(open, start, target);
    while |pq| > 0
      invariant Searching(open, start, target, visited, closed, Cells(pq), parent, depth)
      invariant PushLog(pushes, start, open, visited)
      invariant KeyedByHeuristic(pq, target)
      decreases Unvisited(open, start, visited), |pq|
    {
      ghost var h0 := pq;
      var popped;
      popped, pq := Pop(pq);
      var current := popped.value.p;
      CellsPop(h0, pq, popped.value);
      KeyedPop(h0, pq, popped.value, target);
      if current == target {
        TargetFound(open, start, target, visited, closed, Cells(h0), parent, depth, pushes);
        if astarPath.Err? {
          return Err(astarPath.error), parent, depth, pushes;
        }
        return Ok(FoundAfter(delayMs)), parent, depth, pushes;
      }
      BeginExpand(open, start, target, visited, closed, Cells(h0), Cells(pq), parent, depth, current, RustMoves);
      pq, visited, parent, depth, pushes :=
        PushNeighbours(grid, start, target, current, pq, visited, parent, closed, depth, pushes);
      closed := closed + {current};
    }
    ExhaustedUnreachable(open, start, target, visited, closed, parent, depth);
    return Err(NotReachable), parent, depth, pushes;
  }

  /** The `for &(dx, dy) in moves.iter()` loop of one expansion. */
  method PushNeighbours(grid: seq<seq<CellType>>, ghost start: Pos, target: Pos, current: Pos,
                        pq: multiset<HeapEntry>, visited: set<Pos>, parent: map<Pos, Pos>,
                        ghost closed: set<Pos>, ghost depth: map<Pos, nat>, ghost pushes: seq<Pos>)
    returns (pq': multiset<HeapEntry>, visited': set<Pos>, parent': map<Pos, Pos>,
             ghost depth': map<Pos, nat>, ghost pushes': seq<Pos>)
    requires Rectangular(grid)
    requires Expanding(Open(grid), start, target, visited, closed, Cells(pq), parent, depth, current, RustMoves, 0)
    requires PushLog(pushes, start, Open(grid), visited)
    requires KeyedByHeuristic(pq, target)
    ensures Searching(Open(grid), start, target, visited', closed + {current}, Cells(pq'), parent', depth')
    ensures PushLog(pushes', start, Open(grid), visited')
    ensures KeyedByHeuristic(pq', target)
    ensures Unvisited(Open(grid), start, visited') < Unvisited(Open(grid), start, visited)
            || (visited' == visited && pq' == pq)
  {
    ghost var open := Open(grid);
    var moves := RustMoves;
    pq', visited', parent', depth', pushes' := pq, visited, parent, depth, pushes;
    for i := 0 to |moves|
      invariant Expanding(open, start, target, visited', closed, Cells(pq'), parent', depth', current, RustMoves, i)
      invariant PushLog(pushes', start, open, visited')
      invariant KeyedByHeuristic(pq', target)
      invariant visited <= visited' && (visited' == visited ==> pq' == pq)
    {
      pq', visited', parent', depth', pushes' :=
        TryMove(grid, start, target, current, pq', visited', parent', closed, depth', pushes', i);
    }
    EndExpand(open, start, target, visited', closed, Cells(pq'), parent', depth', current, RustMoves);
    FewerUnvisited(open, start, visited, visited');
  }

  /** Move i: the neighbour it leads to is marked visited, given `current`
      as parent and pushed with its heuristic when it is inside the grid,
      not yet visited and a path cell. */
  method TryMove(grid: seq<seq<CellType>>, ghost start: Pos, target: Pos, current: Pos,
                 pq: multiset<HeapEntry>, visited: set<Pos>, parent: map<Pos, Pos>,
                 ghost closed: set<Pos>, ghost depth: map<Pos, nat>, ghost pushes: seq<Pos>, i: nat)
    returns (pq': multiset<HeapEntry>, visited': set<Pos>, parent': map<Pos, Pos>,
             ghost depth': map<Pos, nat>, ghost pushes': seq<Pos>)
    requires Rectangular(grid) && i < |RustMoves|
    requires Expanding(Open(grid), start, target, visited, closed, Cells(pq), parent, depth, current, RustMoves, i)
    requires PushLog(pushes, start, Open(grid), visited)
    requires KeyedByHeuristic(pq, target)
    ensures Expanding(Open(grid), start, target, visited', closed, Cells(pq'), parent', depth', current, RustMoves, i + 1)
    ensures PushLog(pushes', start, Open(grid), visited')
    ensures KeyedByHeuristic(pq', target)
    ensures visited <= visited' && (visited' == visited ==> pq' == pq)
  {
    ghost var open := Open(grid);
    var moves := RustMoves;
    var n := Pos(current.x + moves[i].0, current.y + moves[i].1);
    OpenIff(grid, n.x, n.y);
    if n !in visited && IsPath(grid, n.x, n.y) {
      var e := HeapEntry(RustHeuristic(n, target), n);
      PushMove(open, start, target, visited, closed, Cells(pq), parent, depth, current, RustMoves, i, n);
      PushLogStep(pushes, start, open, visited, n);
      CellsPush(pq, e);
      visited' := visited + {n};
      parent' := parent[n := current];
      pq' := pq + multiset{e};
      depth' := depth[n := depth[current] + 1];
      pushes' := pushes + [n];
    } else {
      SkipMove(open, start, target, visited, closed, Cells(pq), parent, depth, current, RustMoves, i, n);
      pq', visited', parent', depth', pushes' := pq, visited, parent, depth, pushes;
    }
  }
}
