/** The breadth-first loop shared by `MazeState::find_path_with_bfs` and
    `BfsSolver::find_path`: a FIFO queue (`push_back` / `pop_front`), cells
    marked visited and given a parent when pushed, moves tried in the order
    (0,-1), (0,1), (-1,0), (1,0). The `visited` and `parent` grids are a set
    and a map here. Beyond what every search of the game promises, the queue
    hands out cells layer by layer, so the depth of every visited cell is its
    distance from the start. */
module RustBfs {
  import opened Grid
  import opened SearchCore
  import opened RustGrid

  /** `depth[p]` is the least number of moves from the start to p. */
  ghost predicate Exact(open: set<Pos>, s: Pos, depth: map<Pos, nat>, p: Pos)
    requires p in depth
  {
    depth[p] == 0 || !Within(open, s, p, depth[p] - 1)
  }

  /** The queue holds depths D and D + 1, in that order; every visited
      cell's depth is exact; every cell within D - 1 moves is expanded. */
  ghost predicate Layered(open: set<Pos>, s: Pos, V: set<Pos>, closed: set<Pos>, q: seq<Pos>,
                          depth: map<Pos, nat>, D: nat)
  {
    && (forall i :: 0 <= i < |q| ==> q[i] in depth && D <= depth[q[i]] <= D + 1)
    && (forall i, j :: 0 <= i < j < |q| ==> q[i] in depth && q[j] in depth && depth[q[i]] <= depth[q[j]])
    && (forall p :: p in V ==> p in depth && Exact(open, s, depth, p))
    && (D > 0 ==> forall p :: Within(open, s, p, D - 1) ==> p in closed)
  }

  lemma LayeredStart(open: set<Pos>, s: Pos)
    ensures Layered(open, s, {s}, {}, [s], map[s := 0], 0)
  {
  }

  /** With every cell within D - 1 moves expanded, every cell within D
      moves is visited. */
  lemma WithinVisited(open: set<Pos>, s: Pos, V: set<Pos>, closed: set<Pos>, D: nat, p: Pos)
    requires s in V
    requires forall c :: c in closed ==> NeighboursIn(open, c, V)
    requires D > 0 ==> forall p :: Within(open, s, p, D - 1) ==> p in closed
    requires Within(open, s, p, D)
    ensures p in V
  {
    if p != s {
      var m := if Within(open, s, Up(p), D - 1) then Up(p)
               else if Within(open, s, Down(p), D - 1) then Down(p)
               else if Within(open, s, Left(p), D - 1) then Left(p)
               else Right(p);
      assert m in closed;
      assert NeighboursIn(open, m, V);
      AdjacentCases(m, p);
    }
  }

  /** Taking the head of the queue: when it opens layer D + 1, every cell
      within D moves has already been expanded. */
  lemma LayeredPop(open: set<Pos>, s: Pos, t: Pos, V: set<Pos>, closed: set<Pos>, q: seq<Pos>,
                   parent: map<Pos, Pos>, depth: map<Pos, nat>, D: nat)
    requires |q| > 0
    requires Searching(open, s, t, V, closed, Members(q), parent, depth)
    requires Layered(open, s, V, closed, q, depth, D)
    ensures q[0] in depth && Layered(open, s, V, closed, q[1..], depth, depth[q[0]])
  {
    var D' := depth[q[0]];
    if D' == D + 1 {
      forall p | Within(open, s, p, D) ensures p in closed {
        WithinVisited(open, s, V, closed, D, p);
        if depth[p] > D {
          WithinMonoLe(open, s, p, D, depth[p] - 1);
        }
      }
    }
    var q' := q[1..];
    forall i, j | 0 <= i < j < |q'| ensures q'[i] in depth && q'[j] in depth && depth[q'[i]] <= depth[q'[j]] {
      assert q'[i] == q[i + 1] && q'[j] == q[j + 1];
    }
    forall i | 0 <= i < |q'| ensures q'[i] in depth && D' <= depth[q'[i]] <= D' + 1 {
      assert q'[i] == q[i + 1];
      assert depth[q[0]] <= depth[q[i + 1]];
    }
  }

  /** Pushing a newly discovered neighbour n of c, where c is at depth D:
      n lands at depth D + 1, which is exact because n was not visited. */
  lemma LayeredPush(open: set<Pos>, s: Pos, V: set<Pos>, closed: set<Pos>, q: seq<Pos>,
                    depth: map<Pos, nat>, D: nat, c: Pos, n: Pos)
    requires s in V && depth.Keys == V
    requires forall d :: d in closed ==> NeighboursIn(open, d, V)
    requires Layered(open, s, V, closed, q, depth, D)
    requires c in depth && depth[c] == D && n !in V
    ensures Layered(open, s, V + {n}, closed, q + [n], depth[n := depth[c] + 1], D)
  {
    var depth' := depth[n := depth[c] + 1];
    if Within(open, s, n, D) {
      WithinVisited(open, s, V, closed, D, n);
    }
    assert Exact(open, s, depth', n);
    forall p | p in V + {n} ensures p in depth' && Exact(open, s, depth', p) {
      if p != n {
        assert Exact(open, s, depth, p);
      }
    }
    var q' := q + [n];
    forall i | 0 <= i < |q'| ensures q'[i] in depth' && D <= depth'[q'[i]] <= D + 1 {
      if i < |q| {
        assert q'[i] == q[i];
      }
    }
  }

  /** The search: whether the target was taken off the queue, the parent
      table, and a ghost depth per visited cell. When found, the target's
      depth is the least number of moves that reach it and every parent link
      is one move closer to the start. The cells are logged in push order. */
  method BreadthFirst(grid: seq<seq<CellType>>, start: Pos, target: Pos)
    returns (found: bool, parent: map<Pos, Pos>, ghost depth: map<Pos, nat>, ghost pushes: seq<Pos>)
    requires Searchable(grid, start)
    ensures found <==> Reachable(Open(grid), start, target)
    ensures found ==> ParentTree(Open(grid), start, parent, depth)
    ensures found ==> target == start || target in parent
    ensures found ==> start in depth && depth[start] == 0
    ensures found ==> forall p :: p in parent ==> depth[p] == depth[parent[p]] + 1
    ensures found ==> target in depth && Within(Open(grid), start, target, depth[target])
                      && Exact(Open(grid), start, depth, target)
    ensures found ==> parent.Keys == Members(pushes) - {start}
    ensures |pushes| > 0 && pushes[0] == start
    ensures forall i, j :: 0 <= i < j < |pushes| ==> pushes[i] != pushes[j]
    ensures forall i :: 0 < i < |pushes| ==> pushes[i] in Open(grid)
  {
    ghost var open := Open(grid);
    var queue := [start];
    var visited := {start};
    parent := map[];
    ghost var closed: set<Pos> := {};
    ghost var D: nat := 0;
    depth := map[start := 0];
    pushes := [start];
    SearchingStart(open, start, target);
    LayeredStart(open, start);
    while |queue| > 0
      invariant Searching(open, start, target, visited, closed, Members(queue), parent, depth)
      invariant Layered(open, start, visited, closed, queue, depth, D)
      invariant PushLog(pushes, start, open, visited)
      decreases Unvisited(open, start, visited), |queue|
    {
      ghost var q0 := queue;
      var current := queue[0];
      queue := queue[1..];
      MembersPop(q0);
      LayeredPop(open, start, target, visited, closed, q0, parent, depth, D);
      D := depth[current];
      if current == target {
        TargetFound(open, start, target, visited, closed, Members(q0), parent, depth, pushes);
        return true, parent, depth, pushes;
      }
      BeginExpand(open, start, target, visited, closed, Members(q0), Members(queue), parent, depth, current, RustMoves);
      queue, visited, parent, depth, pushes :=
        PushNeighbours(grid, start, target, current, queue, visited, parent, closed, depth, D, pushes);
      closed := closed + {current};
    }
    ExhaustedUnreachable(open, start, target, visited, closed, parent, depth);
    return false, parent, depth, pushes;
  }

  /** The `for &(dx, dy) in moves.iter()` loop of one expansion. */
  method PushNeighbours(grid: seq<seq<CellType>>, ghost start: Pos, ghost target: Pos, current: Pos,
                        queue: seq<Pos>, visited: set<Pos>, parent: map<Pos, Pos>,
                        ghost closed: set<Pos>, ghost depth: map<Pos, nat>, ghost D: nat, ghost pushes: seq<Pos>)
    returns (queue': seq<Pos>, visited': set<Pos>, parent': map<Pos, Pos>,
             ghost depth': map<Pos, nat>, ghost pushes': seq<Pos>)
    requires Rectangular(grid)
    requires Expanding(Open(grid), start, target, visited, closed, Members(queue), parent, depth, current, RustMoves, 0)
    requires Layered(Open(grid), start, visited, closed, queue, depth, D) && depth[current] == D
    requires PushLog(pushes, start, Open(grid), visited)
    ensures Searching(Open(grid), start, target, visited', closed + {current}, Members(queue'), parent', depth')
    ensures Layered(Open(grid), start, visited', closed + {current}, queue', depth', D)
    ensures PushLog(pushes', start, Open(grid), visited')
    ensures Unvisited(Open(grid), start, visited') < Unvisited(Open(grid), start, visited)
            || (visited' == visited && queue' == queue)
  {
    ghost var open := Open(grid);
    var moves := RustMoves;
    queue', visited', parent', depth', pushes' := queue, visited, parent, depth, pushes;
    for i := 0 to |moves|
      invariant Expanding(open, start, target, visited', closed, Members(queue'), parent', depth', current, RustMoves, i)
      invariant Layered(open, start, visited', closed, queue', depth', D) && depth'[current] == D
      invariant PushLog(pushes', start, open, visited')
      invariant visited <= visited' && (visited' == visited ==> queue' == queue)
    {
      queue', visited', parent', depth', pushes' :=
        TryMove(grid, start, target, current, queue', visited', parent', closed, depth', D, pushes', i);
    }
    EndExpand(open, start, target, visited', closed, Members(queue'), parent', depth', current, RustMoves);
    LayeredClose(open, start, visited', closed, queue', depth', D, current);
    FewerUnvisited(open, start, visited, visited');
  }

  /** Closing one more cell keeps the layering. */
  lemma LayeredClose(open: set<Pos>, s: Pos, V: set<Pos>, closed: set<Pos>, q: seq<Pos>,
                     depth: map<Pos, nat>, D: nat, c: Pos)
    requires Layered(open, s, V, closed, q, depth, D)
    ensures Layered(open, s, V, closed + {c}, q, depth, D)
  {
  }

  /** Move i: the neighbour it leads to is marked visited, given `current`
      as parent and pushed at the back when it is inside the grid, a path
      cell and not yet visited. */
  method TryMove(grid: seq<seq<CellType>>, ghost start: Pos, ghost target: Pos, current: Pos,
                 queue: seq<Pos>, visited: set<Pos>, parent: map<Pos, Pos>,
                 ghost closed: set<Pos>, ghost depth: map<Pos, nat>, ghost D: nat, ghost pushes: seq<Pos>, i: nat)
    returns (queue': seq<Pos>, visited': set<Pos>, parent': map<Pos, Pos>,
             ghost depth': map<Pos, nat>, ghost pushes': seq<Pos>)
    requires Rectangular(grid) && i < |RustMoves|
    requires Expanding(Open(grid), start, target, visited, closed, Members(queue), parent, depth, current, RustMoves, i)
    requires Layered(Open(grid), start, visited, closed, queue, depth, D) && depth[current] == D
    requires PushLog(pushes, start, Open(grid), visited)
    ensures Expanding(Open(grid), start, target, visited', closed, Members(queue'), parent', depth', current, RustMoves, i + 1)
    ensures Layered(Open(grid), start, visited', closed, queue', depth', D) && depth'[current] == D
    ensures PushLog(pushes', start, Open(grid), visited')
    ensures visited <= visited' && (visited' == visited ==> queue' == queue)
  {
    ghost var open := Open(grid);
    var moves := RustMoves;
    var n := Pos(current.x + moves[i].0, current.y + moves[i].1);
    OpenIff(grid, n.x, n.y);
    if IsPath(grid, n.x, n.y) && n !in visited {
      QueuePush(open, start, target, visited, closed, queue, parent, depth, D, pushes, current, i, n);
      visited' := visited + {n};
      parent' := parent[n := current];
      queue' := queue + [n];
      depth' := depth[n := depth[current] + 1];
      pushes' := pushes + [n];
    } else {
      SkipMove(open, start, target, visited, closed, Members(queue), parent, depth, current, RustMoves, i, n);
      queue', visited', parent', depth', pushes' := queue, visited, parent, depth, pushes;
    }
  }

  /** Discovering and pushing the unvisited open cell n that move i of c's
      expansion leads to. */
  lemma QueuePush(open: set<Pos>, s: Pos, t: Pos, V: set<Pos>, closed: set<Pos>, q: seq<Pos>,
                  parent: map<Pos, Pos>, depth: map<Pos, nat>, D: nat, pushes: seq<Pos>, c: Pos, i: nat, n: Pos)
    requires i < |RustMoves| && n == Shift(c, RustMoves[i]) && n in open && n !in V
    requires Expanding(open, s, t, V, closed, Members(q), parent, depth, c, RustMoves, i)
    requires Layered(open, s, V, closed, q, depth, D) && depth[c] == D
    requires PushLog(pushes, s, open, V)
    ensures Expanding(open, s, t, V + {n}, closed, Members(q + [n]), parent[n := c], depth[n := depth[c] + 1], c, RustMoves, i + 1)
    ensures Layered(open, s, V + {n}, closed, q + [n], depth[n := depth[c] + 1], D)
    ensures PushLog(pushes + [n], s, open, V + {n})
  {
    PushMove(open, s, t, V, closed, Members(q), parent, depth, c, RustMoves, i, n);
    PushLogStep(pushes, s, open, V, n);
    MembersPush(q, n);
    LayeredPush(open, s, V, closed, q, depth, D, c, n);
  }
}
