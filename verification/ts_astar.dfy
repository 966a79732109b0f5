/** `a_star_algorithm`: A* search over the TypeScript maze. The frontier is
    the binary-heap `PriorityQueue` keyed by g + h, where g is the number of
    moves recorded in `g_score` and h the Manhattan heuristic. As in the
    other TypeScript searches a cell is marked visited when it is enqueued,
    and a visited cell is never examined again, so each cell's g-score and
    parent are set once. */
module TsAStar {
  import opened Wrappers
  import opened Grid
  import opened SearchCore
  import opened TsMaze
  import opened MinHeap
  import opened TsHelpers

  /** Every waiting entry is keyed by its cell's g-score plus its heuristic. */
  ghost predicate KeyedByF(h: seq<Entry<Pos>>, g: map<Pos, nat>, target: Pos)
  {
    forall j :: 0 <= j < |h| ==> KeyedEntry(h[j], g, target)
  }

  ghost predicate KeyedEntry(e: Entry<Pos>, g: map<Pos, nat>, target: Pos)
  {
    e.item in g && e.priority == g[e.item] + Manhattan(target, e.item)
  }

  /** Only multiset membership matters to the keying. */
  lemma KeyedByMembers(h: seq<Entry<Pos>>, h': seq<Entry<Pos>>, g: map<Pos, nat>, target: Pos)
    requires KeyedByF(h, g, target)
    requires multiset(h') <= multiset(h)
    ensures KeyedByF(h', g, target)
  {
    forall j | 0 <= j < |h'| ensures KeyedEntry(h'[j], g, target) {
      assert h'[j] in multiset(h');
      assert h'[j] in multiset(h);
      var k :| 0 <= k < |h| && h[k] == h'[j];
    }
  }

  lemma KeyedAfterEnqueue(h: seq<Entry<Pos>>, h': seq<Entry<Pos>>, g: map<Pos, nat>, n: Pos, v: nat, f: int, target: Pos)
    requires KeyedByF(h, g, target) && n !in g && f == v + Manhattan(target, n)
    requires multiset(h') == multiset(h) + multiset{Entry(f, n)}
    ensures KeyedByF(h', g[n := v], target)
  {
    var g' := g[n := v];
    var h2 := h + [Entry(f, n)];
    forall j | 0 <= j < |h2| ensures KeyedEntry(h2[j], g', target) {
      if j < |h| {
        assert KeyedEntry(h[j], g, target);
      }
    }
    KeyedByMembers(h2, h', g', target);
  }

  /** `g_score.get(key)!`: the score of a scored cell. */
  function ScoreOf(g: map<Pos, nat>, p: Pos): nat
  {
    if p in g then g[p] else 0
  }

  /** Discovering, scoring and enqueueing the unvisited open cell n that
      move i of c's expansion leads to. */
  lemma ScoredPush(open: set<Pos>, s: Pos, t: Pos, V: set<Pos>, closed: set<Pos>,
                   h: seq<Entry<Pos>>, h': seq<Entry<Pos>>, parent: map<Pos, Pos>, g: map<Pos, nat>,
                   pushes: seq<Pos>, c: Pos, i: nat, n: Pos, v: nat, f: int)
    requires i < |TsMoves| && n == Shift(c, TsMoves[i]) && n in open && n !in V
    requires Expanding(open, s, t, V, closed, Items(h), parent, g, c, TsMoves, i)
    requires PushLog(pushes, s, open, V) && KeyedByF(h, g, t)
    requires c in g && v == g[c] + 1 && f == v + Manhattan(t, n)
    requires multiset(h') == multiset(h) + multiset{Entry(f, n)}
    ensures Expanding(open, s, t, V + {n}, closed, Items(h'), parent[n := c], g[n := v], c, TsMoves, i + 1)
    ensures PushLog(pushes + [n], s, open, V + {n})
    ensures KeyedByF(h', g[n := v], t)
  {
    PushMove(open, s, t, V, closed, Items(h), parent, g, c, TsMoves, i, n);
    PushLogStep(pushes, s, open, V, n);
    ItemsAfterEnqueue(h, h', Entry(f, n));
    KeyedAfterEnqueue(h, h', g, n, v, f, t);
  }

  /** Returns the parent table when the target is dequeued, `null` (here
      `None`) when the queue runs empty, together with the final g-scores:
      the start scores 0, every other scored cell one more than its parent,
      and the scores are upper bounds on the number of moves. The cells are
      listed in the order they were enqueued. */
  method AStarAlgorithm(grid: seq<seq<char>>, start: Pos, target: Pos)
    returns (r: Option<map<Pos, Pos>>, g: map<Pos, nat>, ghost pushes: seq<Pos>)
    requires |grid| > 0
    ensures r.Some? <==> Reachable(Open(grid), start, target)
    ensures r.Some? ==> ParentTree(Open(grid), start, r.value, g)
    ensures r.Some? ==> target == start || target in r.value
    ensures r.Some? ==> r.value.Keys == Members(pushes) - {start}
    ensures r.Some? ==> forall p :: p in r.value ==> g[p] == g[r.value[p]] + 1
    ensures start in g && g[start] == 0
    ensures forall p :: p in g ==> Within(Open(grid), start, p, g[p])
    ensures |pushes| > 0 && pushes[0] == start
    ensures forall i, j :: 0 <= i < j < |pushes| ==> pushes[i] != pushes[j]
    ensures forall i :: 0 < i < |pushes| ==> pushes[i] in Open(grid)
  {
    ghost var open := Open(grid);
    var pq := new PriorityQueue<Pos>();
    pq.Enqueue(start, Heuristic(start, target));
    ItemsAfterEnqueue([], pq.heap, Entry(Heuristic(start, target), start));
    KeyedAfterEnqueue([], pq.heap, map[], start, 0, Heuristic(start, target), target);
    g := map[start := 0];
    var parent: map<Pos, Pos> := map[];
    var visited := {start};
    ghost var closed: set<Pos> := {};
    pushes := [start];
    SearchingStart(open, start, target);
    while !pq.IsEmpty()
      invariant pq.Valid()
      invariant Searching(open, start, target, visited, closed, Items(pq.heap), parent, g)
      invariant PushLog(pushes, start, open, visited)
      invariant KeyedByF(pq.heap, g, target)
      decreases Unvisited(open, start, visited), |pq.heap|
    {
      ghost var h0 := pq.heap;
      var current := pq.Dequeue();
      if current.Some? {
        ItemsAfterDequeue(h0, pq.heap, h0[0]);
        KeyedByMembers(h0, pq.heap, g, target);
        var c := current.value;
        assert h0[0] in h0;
        if c == target {
          TargetFound(open, start, target, visited, closed, Items(h0), parent, g, pushes);
          return Some(parent), g, pushes;
        }
        BeginExpand(open, start, target, visited, closed, Items(h0), Items(pq.heap), parent, g, c, TsMoves);
        visited, parent, g, pushes := EnqueueNeighbours(grid, start, target, c, pq, visited, parent, closed, g, pushes);
        closed := closed + {c};
      }
    }
    ExhaustedUnreachable(open, start, target, visited, closed, parent, g);
    return None, g, pushes;
  }

  /** One expansion: every in-bounds unvisited `' '` neighbour gets the
      tentative score g(current) + 1 when it has no score or a larger one,
      is enqueued with that score plus its heuristic, given `current` as
      parent and marked visited. */
  method EnqueueNeighbours(grid: seq<seq<char>>, ghost start: Pos, target: Pos, current: Pos,
                           pq: PriorityQueue<Pos>, visited: set<Pos>, parent: map<Pos, Pos>,
                           ghost closed: set<Pos>, g: map<Pos, nat>, ghost pushes: seq<Pos>)
    returns (visited': set<Pos>, parent': map<Pos, Pos>, g': map<Pos, nat>, ghost pushes': seq<Pos>)
    requires |grid| > 0 && pq.Valid()
    requires Expanding(Open(grid), start, target, visited, closed, Items(pq.heap), parent, g, current, TsMoves, 0)
    requires PushLog(pushes, start, Open(grid), visited)
    requires KeyedByF(pq.heap, g, target)
    modifies pq
    ensures pq.Valid() && KeyedByF(pq.heap, g', target)
    ensures Searching(Open(grid), start, target, visited', closed + {current}, Items(pq.heap), parent', g')
    ensures PushLog(pushes', start, Open(grid), visited')
    ensures Unvisited(Open(grid), start, visited') < Unvisited(Open(grid), start, visited)
            || (visited' == visited && pq.heap == old(pq.heap))
  {
    ghost var open := Open(grid);
    var moves := TsMoves;
    visited', parent', g', pushes' := visited, parent, g, pushes;
    for i := 0 to |moves|
      invariant pq.Valid() && KeyedByF(pq.heap, g', target)
      invariant Expanding(open, start, target, visited', closed, Items(pq.heap), parent', g', current, TsMoves, i)
      invariant PushLog(pushes', start, open, visited')
      invariant visited <= visited' && (visited' == visited ==> pq.heap == old(pq.heap))
    {
      visited', parent', g', pushes' := TryMove(grid, start, target, current, pq, visited', parent', closed, g', pushes', i);
    }
    EndExpand(open, start, target, visited', closed, Items(pq.heap), parent', g', current, TsMoves);
    FewerUnvisited(open, start, visited, visited');
  }

  /** Move i of one expansion: the neighbour it leads to is scored, enqueued,
      given `current` as parent and marked visited when it is in bounds,
      `' '`, unvisited and has no smaller score. */
  method TryMove(grid: seq<seq<char>>, ghost start: Pos, target: Pos, current: Pos,
                 pq: PriorityQueue<Pos>, visited: set<Pos>, parent: map<Pos, Pos>,
                 ghost closed: set<Pos>, g: map<Pos, nat>, ghost pushes: seq<Pos>, i: nat)
    returns (visited': set<Pos>, parent': map<Pos, Pos>, g': map<Pos, nat>, ghost pushes': seq<Pos>)
    requires |grid| > 0 && pq.Valid() && i < |TsMoves|
    requires Expanding(Open(grid), start, target, visited, closed, Items(pq.heap), parent, g, current, TsMoves, i)
    requires PushLog(pushes, start, Open(grid), visited)
    requires KeyedByF(pq.heap, g, target)
    modifies pq
    ensures pq.Valid() && KeyedByF(pq.heap, g', target)
    ensures Expanding(Open(grid), start, target, visited', closed, Items(pq.heap), parent', g', current, TsMoves, i + 1)
    ensures PushLog(pushes', start, Open(grid), visited')
    ensures visited <= visited' && (visited' == visited ==> pq.heap == old(pq.heap))
  {
    ghost var open := Open(grid);
    var moves := TsMoves;
    visited', parent', g', pushes' := visited, parent, g, pushes;
    var n := Pos(current.x + moves[i].0, current.y + moves[i].1);
    OpenIff(grid, n.x, n.y);
    if IsFree(grid, n.x, n.y) && n !in visited {
      assert g.Keys == visited;
      var tentative := g[current] + 1;
      if n !in g || tentative < ScoreOf(g, n) {
        ghost var h := pq.heap;
        g' := g[n := tentative];
        var f := g'[n] + Heuristic(n, target);
        pq.Enqueue(n, f);
        ScoredPush(open, start, target, visited, closed, h, pq.heap, parent, g, pushes, current, i, n, tentative, f);
        parent' := parent[n := current];
        visited' := visited + {n};
        pushes' := pushes + [n];
      }
    } else {
      SkipMove(open, start, target, visited, closed, Items(pq.heap), parent, g, current, TsMoves, i, n);
    }
  }
}
