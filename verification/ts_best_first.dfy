/** `best_first_algorithm`: greedy best-first search over the TypeScript
    maze. The frontier is the binary-heap `PriorityQueue`, keyed by the
    Manhattan distance to the target alone; cells are marked visited when
    enqueued. */
module TsBestFirst {
  import opened Wrappers
  import opened Grid
  import opened SearchCore
  import opened TsMaze
  import opened MinHeap
  import opened TsHelpers

  /** Every waiting entry is keyed by its cell's heuristic. */
  ghost predicate KeyedByHeuristic(h: seq<Entry<Pos>>, target: Pos)
  {
    forall e :: e in multiset(h) ==> e.priority == Manhattan(target, e.item)
  }

  lemma KeyedAfterEnqueue(h: seq<Entry<Pos>>, h': seq<Entry<Pos>>, n: Pos, f: int, target: Pos)
    requires KeyedByHeuristic(h, target) && f == Manhattan(target, n)
    requires multiset(h') == multiset(h) + multiset{Entry(f, n)}
    ensures KeyedByHeuristic(h', target)
  {
  }

  /** Returns the parent table when the target is dequeued, `null` (here
      `None`) when the queue runs empty; beside it a ranking showing the
      parent links acyclic and the cells in the order they were enqueued. */
  method BestFirstAlgorithm(grid: seq<seq<char>>, start: Pos, target: Pos)
    returns (r: Option<map<Pos, Pos>>, ghost depth: map<Pos, nat>, ghost pushes: seq<Pos>)
    requires |grid| > 0
    ensures r.Some? <==> Reachable(Open(grid), start, target)
    ensures r.Some? ==> ParentTree(Open(grid), start, r.value, depth)
    ensures r.Some? ==> target == start || target in r.value
    ensures r.Some? ==> r.value.Keys == Members(pushes) - {start}
    ensures |pushes| > 0 && pushes[0] == start
    ensures forall i, j :: 0 <= i < j < |pushes| ==> pushes[i] != pushes[j]
    ensures forall i :: 0 < i < |pushes| ==> pushes[i] in Open(grid)
  {
    ghost var open := Open(grid);
    var pq := new PriorityQueue<Pos>();
    var f := Heuristic(start, target);
    pq.Enqueue(start, f);
    ItemsAfterEnqueue([], pq.heap, Entry(f, start));
    var visited := {start};
    var parent: map<Pos, Pos> := map[];
    ghost var closed: set<Pos> := {};
    depth := map[start := 0];
    pushes := [start];
    SearchingStart(open, start, target);
    while !pq.IsEmpty()
      invariant pq.Valid()
      invariant Searching(open, start, target, visited, closed, Items(pq.heap), parent, depth)
      invariant PushLog(pushes, start, open, visited)
      invariant KeyedByHeuristic(pq.heap, target)
      decreases Unvisited(open, start, visited), |pq.heap|
    {
      ghost var h0 := pq.heap;
      var current := pq.Dequeue();
      if current.Some? {
        ItemsAfterDequeue(h0, pq.heap, h0[0]);
        var c := current.value;
        if c == target {
          assert h0[0] in h0;
          TargetFound(open, start, target, visited, closed, Items(h0), parent, depth, pushes);
          return Some(parent), depth, pushes;
        }
        assert h0[0] in h0;
        BeginExpand(open, start, target, visited, closed, Items(h0), Items(pq.heap), parent, depth, c, TsMoves);
        visited, parent, depth, pushes := EnqueueNeighbours(grid, start, target, c, pq, visited, parent, closed, depth, pushes);
        closed := closed + {c};
      }
    }
    ExhaustedUnreachable(open, start, target, visited, closed, parent, depth);
    return None, depth, pushes;
  }

  /** One expansion: every in-bounds unvisited `' '` neighbour is marked
      visited, given `current` as parent and enqueued with its heuristic. */
  method EnqueueNeighbours(grid: seq<seq<char>>, ghost start: Pos, target: Pos, current: Pos,
                           pq: PriorityQueue<Pos>, visited: set<Pos>, parent: map<Pos, Pos>,
                           ghost closed: set<Pos>, ghost depth: map<Pos, nat>, ghost pushes: seq<Pos>)
    returns (visited': set<Pos>, parent': map<Pos, Pos>, ghost depth': map<Pos, nat>, ghost pushes': seq<Pos>)
    requires |grid| > 0 && pq.Valid()
    requires Expanding(Open(grid), start, target, visited, closed, Items(pq.heap), parent, depth, current, TsMoves, 0)
    requires PushLog(pushes, start, Open(grid), visited)
    requires KeyedByHeuristic(pq.heap, target)
    modifies pq
    ensures pq.Valid() && KeyedByHeuristic(pq.heap, target)
    ensures Searching(Open(grid), start, target, visited', closed + {current}, Items(pq.heap), parent', depth')
    ensures PushLog(pushes', start, Open(grid), visited')
    ensures Unvisited(Open(grid), start, visited') < Unvisited(Open(grid), start, visited) || (visited' == visited && pq.heap == old(pq.heap))
  {
    ghost var open := Open(grid);
    var moves := TsMoves;
    visited', parent', depth', pushes' := visited, parent, depth, pushes;
    for i := 0 to |moves|
      invariant pq.Valid() && KeyedByHeuristic(pq.heap, target)
      invariant Expanding(open, start, target, visited', closed, Items(pq.heap), parent', depth', current, TsMoves, i)
      invariant PushLog(pushes', start, open, visited')
      invariant visited <= visited' && (visited' == visited ==> pq.heap == old(pq.heap))
    {
      visited', parent', depth', pushes' := TryMove(grid, start, target, current, pq, visited', parent', closed, depth', pushes', i);
    }
    EndExpand(open, start, target, visited', closed, Items(pq.heap), parent', depth', current, TsMoves);
    FewerUnvisited(open, start, visited, visited');
  }

  /** Move i of one expansion: the neighbour it leads to is marked visited,
      given `current` as parent and enqueued with its heuristic when it is
      in bounds, `' '` and unvisited. */
  method TryMove(grid: seq<seq<char>>, ghost start: Pos, target: Pos, current: Pos,
                 pq: PriorityQueue<Pos>, visited: set<Pos>, parent: map<Pos, Pos>,
                 ghost closed: set<Pos>, ghost depth: map<Pos, nat>, ghost pushes: seq<Pos>, i: nat)
    returns (visited': set<Pos>, parent': map<Pos, Pos>, ghost depth': map<Pos, nat>, ghost pushes': seq<Pos>)
    requires |grid| > 0 && pq.Valid() && i < |TsMoves|
    requires Expanding(Open(grid), start, target, visited, closed, Items(pq.heap), parent, depth, current, TsMoves, i)
    requires PushLog(pushes, start, Open(grid), visited)
    requires KeyedByHeuristic(pq.heap, target)
    modifies pq
    ensures pq.Valid() && KeyedByHeuristic(pq.heap, target)
    ensures Expanding(Open(grid), start, target, visited', closed, Items(pq.heap), parent', depth', current, TsMoves, i + 1)
    ensures PushLog(pushes', start, Open(grid), visited')
    ensures visited <= visited' && (visited' == visited ==> pq.heap == old(pq.heap))
  {
    ghost var open := Open(grid);
    var moves := TsMoves;
    visited', parent', depth', pushes' := visited, parent, depth, pushes;
    var n := Pos(current.x + moves[i].0, current.y + moves[i].1);
    OpenIff(grid, n.x, n.y);
    if IsFree(grid, n.x, n.y) && n !in visited {
      visited' := visited + {n};
      parent' := parent[n := current];
      ghost var h := pq.heap;
      var f := Heuristic(n, target);
      pq.Enqueue(n, f);
      KeyedPush(open, start, target, visited, closed, h, pq.heap, parent, depth, pushes, current, i, n, f);
      depth' := depth[n := depth[current] + 1];
      pushes' := pushes + [n];
    } else {
      SkipMove(open, start, target, visited, closed, Items(pq.heap), parent, depth, current, TsMoves, i, n);
    }
  }

  /** Discovering and enqueueing the unvisited open cell n that move i of
      c's expansion leads to. */
  lemma KeyedPush(open: set<Pos>, s: Pos, t: Pos, V: set<Pos>, closed: set<Pos>,
                  h: seq<Entry<Pos>>, h': seq<Entry<Pos>>, parent: map<Pos, Pos>, depth: map<Pos, nat>,
                  pushes: seq<Pos>, c: Pos, i: nat, n: Pos, f: int)
    requires i < |TsMoves| && n == Shift(c, TsMoves[i]) && n in open && n !in V
    requires Expanding(open, s, t, V, closed, Items(h), parent, depth, c, TsMoves, i)
    requires PushLog(pushes, s, open, V) && KeyedByHeuristic(h, t)
    requires f == Manhattan(t, n) && multiset(h') == multiset(h) + multiset{Entry(f, n)}
    ensures Expanding(open, s, t, V + {n}, closed, Items(h'), parent[n := c], depth[n := depth[c] + 1], c, TsMoves, i + 1)
    ensures PushLog(pushes + [n], s, open, V + {n})
    ensures KeyedByHeuristic(h', t)
  {
    PushMove(open, s, t, V, closed, Items(h), parent, depth, c, TsMoves, i, n);
    PushLogStep(pushes, s, open, V, n);
    ItemsAfterEnqueue(h, h', Entry(f, n));
    KeyedAfterEnqueue(h, h', n, f, t);
  }
}
