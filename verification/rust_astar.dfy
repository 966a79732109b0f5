/** `AstarSolver::find_path` of `pathfinding/astar.rs`: A* without a closed
    set. A cell is pushed again whenever a cheaper route to it turns up
    (`tentative_g_score < g_score[neighbor]`), so stale heap entries are
    popped and expanded again. The `f64` scores are exact integers here;
    `reconstruct_path_astar` is not part of this model, and what it answers
    comes in as a parameter. */
module RustAstar {
  import opened Wrappers
  import opened Grid
  import opened SearchCore
  import opened RustGrid
  import opened RustHeap
  import opened RustMaze
  import opened RustBfs

  // ----- the search state -----

  /** `g_score`: the start scores 0, and every scored cell is an open cell
      (or the start) that can be reached in as many moves as its score. */
  ghost predicate Scored(open: set<Pos>, s: Pos, g: map<Pos, nat>)
  {
    && s in g && g[s] == 0 && g.Keys <= Universe(open, s)
    && forall p :: p in g ==> Within(open, s, p, g[p])
  }

  /** `parent`: one entry per scored cell, `None` for the start, and every
      link goes to a scored 4-neighbour with a smaller score, so the links
      are acyclic. */
  ghost predicate Linked(s: Pos, g: map<Pos, nat>, parent: map<Pos, Option<Pos>>)
  {
    && parent.Keys == g.Keys && s in parent && parent[s] == None
    && forall p :: p in parent && parent[p].Some? ==>
         p in g && parent[p].value in g && Adjacent(parent[p].value, p) && g[parent[p].value] < g[p]
  }

  /** The first i moves out of `c` lead to walls or to scored cells at most
      one move costlier than `c`. */
  ghost predicate Relaxed(open: set<Pos>, g: map<Pos, nat>, c: Pos, i: nat)
    requires c in g && i <= |RustMoves|
  {
    forall j :: 0 <= j < i ==> RelaxedMove(open, g, c, j)
  }

  /** Move j out of `c` leads to a wall or to a scored cell at most one
      move costlier than `c`. */
  ghost predicate RelaxedMove(open: set<Pos>, g: map<Pos, nat>, c: Pos, j: nat)
    requires c in g && j < |RustMoves|
  {
    var n := Shift(c, RustMoves[j]);
    n in open ==> n in g && g[n] <= g[c] + 1
  }

  /** The heap against the scores. `E` (ghost) are the cells whose
      neighbours were relaxed at their present score; every other scored
      cell, but those in `pending`, waits in the heap keyed by its score plus
      its heuristic; and no entry is keyed below that. */
  ghost predicate Frontier(open: set<Pos>, t: Pos, g: map<Pos, nat>, H: multiset<HeapEntry>, E: set<Pos>, pending: set<Pos>)
  {
    && E <= g.Keys && t !in E
    && AllRelaxed(open, g, E)
    && Waiting(t, g, H, E, pending)
    && KeyedBelow(t, g, H)
  }

  ghost predicate AllRelaxed(open: set<Pos>, g: map<Pos, nat>, E: set<Pos>)
  {
    forall p {:trigger Relaxed(open, g, p, |RustMoves|)} :: p in E ==> p in g && Relaxed(open, g, p, |RustMoves|)
  }

  /** Every scored cell outside `E` and `pending` has an entry keyed by its
      score plus its heuristic. */
  ghost predicate Waiting(t: Pos, g: map<Pos, nat>, H: multiset<HeapEntry>, E: set<Pos>, pending: set<Pos>)
  {
    forall p :: p in g && p !in E && p !in pending ==> HeapEntry(g[p] + RustHeuristic(p, t), p) in H
  }

  /** Every entry is a scored cell keyed no lower than its score plus its
      heuristic: an entry pushed before its cell's score fell is keyed above. */
  ghost predicate KeyedBelow(t: Pos, g: map<Pos, nat>, H: multiset<HeapEntry>)
  {
    forall e :: e in H ==> e.p in g && e.f >= g[e.p] + RustHeuristic(e.p, t)
  }

  // ----- termination: scores only fall -----

  ghost function Pick(ks: set<Pos>): (k: Pos)
    requires ks != {}
    ensures k in ks
  {
    var k :| k in ks; k
  }

  ghost function SumOver(g: map<Pos, nat>, ks: set<Pos>): nat
    requires ks <= g.Keys
    decreases ks
  {
    if ks == {} then 0 else g[Pick(ks)] + SumOver(g, ks - {Pick(ks)})
  }

  /** The sum of all scores. */
  ghost function Total(g: map<Pos, nat>): nat
  {
    SumOver(g, g.Keys)
  }

  /** Lowering scores lowers their sum, strictly when one falls. */
  lemma {:induction false} SumMono(g: map<Pos, nat>, g': map<Pos, nat>, ks: set<Pos>, k0: Pos)
    requires ks <= g.Keys && ks <= g'.Keys
    requires forall k :: k in ks ==> g'[k] <= g[k]
    ensures SumOver(g', ks) <= SumOver(g, ks)
    ensures k0 in ks && g'[k0] < g[k0] ==> SumOver(g', ks) < SumOver(g, ks)
    decreases ks
  {
    if ks != {} {
      SumMono(g, g', ks - {Pick(ks)}, k0);
    }
  }

  /** Progress of one expansion, lexicographic: more cells scored, or the
      same cells at a smaller total score. */
  ghost predicate Cheaper(open: set<Pos>, s: Pos, g': map<Pos, nat>, g: map<Pos, nat>)
  {
    && g.Keys <= g'.Keys
    && (|| Unvisited(open, s, g'.Keys) < Unvisited(open, s, g.Keys)
        || (g'.Keys == g.Keys && Total(g') < Total(g)))
  }

  lemma CheaperTrans(open: set<Pos>, s: Pos, g2: map<Pos, nat>, g1: map<Pos, nat>, g0: map<Pos, nat>)
    requires g2.Keys <= Universe(open, s)
    requires Cheaper(open, s, g2, g1) && Cheaper(open, s, g1, g0)
    ensures Cheaper(open, s, g2, g0)
  {
    FewerUnvisited(open, s, g1.Keys, g2.Keys);
    FewerUnvisited(open, s, g0.Keys, g1.Keys);
  }

  // ----- the steps of the search -----

  /** The state after `g_score.insert(start, 0.0)`, `parent.insert(start,
      None)` and the push of the start keyed by its heuristic. */
  lemma AstarStart(open: set<Pos>, s: Pos, t: Pos)
    ensures Scored(open, s, map[s := 0]) && Linked(s, map[s := 0], map[s := None])
    ensures Frontier(open, t, map[s := 0], multiset{HeapEntry(RustHeuristic(s, t), s)}, {}, {})
  {
  }

  /** A popped cell other than the target is expanded: it leaves `E` while
      its neighbours are relaxed again. */
  lemma BeginRelax(open: set<Pos>, t: Pos, g: map<Pos, nat>, H: multiset<HeapEntry>, H': multiset<HeapEntry>,
                   E: set<Pos>, e: HeapEntry)
    requires Frontier(open, t, g, H, E, {}) && H' + multiset{e} == H && e.p != t
    ensures e.p in g
    ensures Frontier(open, t, g, H', E - {e.p}, {e.p})
  {
    WaitingPop(t, g, H, H', E, e);
    KeyedPop(t, g, H, H', e);
  }

  lemma WaitingPop(t: Pos, g: map<Pos, nat>, H: multiset<HeapEntry>, H': multiset<HeapEntry>, E: set<Pos>, e: HeapEntry)
    requires Waiting(t, g, H, E, {}) && H' + multiset{e} == H
    ensures Waiting(t, g, H', E - {e.p}, {e.p})
  {
    forall p | p in g && p !in E - {e.p} && p !in {e.p}
      ensures HeapEntry(g[p] + RustHeuristic(p, t), p) in H'
    {
      assert HeapEntry(g[p] + RustHeuristic(p, t), p) in H;
    }
  }

  lemma KeyedPop(t: Pos, g: map<Pos, nat>, H: multiset<HeapEntry>, H': multiset<HeapEntry>, e: HeapEntry)
    requires KeyedBelow(t, g, H) && H' + multiset{e} == H
    ensures KeyedBelow(t, g, H') && e.p in g
  {
    forall d | d in H' ensures d.p in g && d.f >= g[d.p] + RustHeuristic(d.p, t) {
      assert d in H;
    }
    assert e in H;
  }

  /** All four moves relaxed: the expanded cell joins `E`. */
  lemma EndRelax(open: set<Pos>, t: Pos, g: map<Pos, nat>, H: multiset<HeapEntry>, E: set<Pos>, c: Pos)
    requires Frontier(open, t, g, H, E, {c}) && c in g && c != t && Relaxed(open, g, c, |RustMoves|)
    ensures Frontier(open, t, g, H, E + {c}, {})
  {
  }

  /** A move that changes nothing: the neighbour is a wall, outside the
      grid, or already scored at most one above `c`. */
  lemma KeepMove(open: set<Pos>, g: map<Pos, nat>, c: Pos, i: nat, n: Pos)
    requires c in g && i < |RustMoves| && n == Shift(c, RustMoves[i]) && Relaxed(open, g, c, i)
    requires n in open ==> n in g && g[n] <= g[c] + 1
    ensures Relaxed(open, g, c, i + 1)
  {
  }

  /** `g_score.insert(neighbor, tentative)` where `tentative =
      g_score[current] + 1` beats the neighbour's score (or it has none):
      the new score counts the moves of a route, and the scores make
      progress. */
  lemma ScoreStep(open: set<Pos>, s: Pos, g: map<Pos, nat>, c: Pos, i: nat, n: Pos)
    requires Scored(open, s, g) && c in g && i < |RustMoves|
    requires n == Shift(c, RustMoves[i]) && n in open && (n !in g || g[c] + 1 < g[n])
    ensures Scored(open, s, g[n := g[c] + 1])
    ensures Cheaper(open, s, g[n := g[c] + 1], g)
  {
    var g' := g[n := g[c] + 1];
    MoveIsNeighbour(RustMoves, c, i);
    WithinStep(open, s, c, g[c], n);
    if n in g {
      SumMono(g, g', g.Keys, n);
      assert g'.Keys == g.Keys;
    } else {
      FewerUnvisited(open, s, g.Keys, g'.Keys);
    }
  }

  /** `parent.insert(neighbor, Some(current))` alongside the new score. */
  lemma LinkStep(s: Pos, g: map<Pos, nat>, parent: map<Pos, Option<Pos>>, c: Pos, i: nat, n: Pos)
    requires Linked(s, g, parent) && s in g && g[s] == 0 && c in g && i < |RustMoves|
    requires n == Shift(c, RustMoves[i]) && (n !in g || g[c] + 1 < g[n])
    ensures Linked(s, g[n := g[c] + 1], parent[n := Some(c)])
  {
    MoveIsNeighbour(RustMoves, c, i);
  }

  /** The push of `(tentative + heuristic, neighbor)`: the neighbour waits
      in the heap at its new score and leaves `E`. */
  lemma QueueStep(open: set<Pos>, t: Pos, g: map<Pos, nat>, H: multiset<HeapEntry>, E: set<Pos>,
                  c: Pos, n: Pos)
    requires Frontier(open, t, g, H, E, {c})
    requires c in g && (n !in g || g[c] + 1 < g[n])
    ensures Frontier(open, t, g[n := g[c] + 1],
                     H + multiset{HeapEntry(g[c] + 1 + RustHeuristic(n, t), n)}, E - {n}, {c})
  {
    RelaxedKept(open, g, E, n, g[c] + 1);
    WaitingStep(t, g, H, E, c, n, g[c] + 1);
    KeyedStep(t, g, H, n, g[c] + 1);
  }

  /** Lowering one score keeps relaxed every other relaxed cell. */
  lemma RelaxedKept(open: set<Pos>, g: map<Pos, nat>, E: set<Pos>, n: Pos, v: nat)
    requires E <= g.Keys && AllRelaxed(open, g, E) && (n !in g || v < g[n])
    ensures AllRelaxed(open, g[n := v], E - {n})
  {
    var g' := g[n := v];
    forall p | p in E - {n} ensures p in g' && Relaxed(open, g', p, |RustMoves|) {
      assert Relaxed(open, g, p, |RustMoves|);
      forall j | 0 <= j < |RustMoves| ensures RelaxedMove(open, g', p, j) {
        assert RelaxedMove(open, g, p, j);
      }
    }
  }

  /** Move i out of `c`, just relaxed, joins the moves tried before it. */
  lemma CurrentRelaxed(open: set<Pos>, g: map<Pos, nat>, c: Pos, i: nat, n: Pos)
    requires c in g && i < |RustMoves| && Relaxed(open, g, c, i)
    requires n == Shift(c, RustMoves[i]) && n != c && (n !in g || g[c] + 1 < g[n])
    ensures Relaxed(open, g[n := g[c] + 1], c, i + 1)
  {
    var g' := g[n := g[c] + 1];
    forall j | 0 <= j < i + 1 ensures RelaxedMove(open, g', c, j) {
      if j < i {
        assert RelaxedMove(open, g, c, j);
      }
    }
  }

  lemma WaitingStep(t: Pos, g: map<Pos, nat>, H: multiset<HeapEntry>, E: set<Pos>, c: Pos, n: Pos, v: nat)
    requires Waiting(t, g, H, E, {c})
    ensures Waiting(t, g[n := v], H + multiset{HeapEntry(v + RustHeuristic(n, t), n)}, E - {n}, {c})
  {
    var H' := H + multiset{HeapEntry(v + RustHeuristic(n, t), n)};
    forall p | p in g[n := v] && p !in E - {n} && p !in {c}
      ensures HeapEntry(g[n := v][p] + RustHeuristic(p, t), p) in H'
    {
      if p != n {
        assert HeapEntry(g[p] + RustHeuristic(p, t), p) in H;
      }
    }
  }

  lemma KeyedStep(t: Pos, g: map<Pos, nat>, H: multiset<HeapEntry>, n: Pos, v: nat)
    requires KeyedBelow(t, g, H) && (n !in g || v < g[n])
    ensures KeyedBelow(t, g[n := v], H + multiset{HeapEntry(v + RustHeuristic(n, t), n)})
  {
    var H' := H + multiset{HeapEntry(v + RustHeuristic(n, t), n)};
    forall e | e in H' ensures e.p in g[n := v] && e.f >= g[n := v][e.p] + RustHeuristic(e.p, t) {
      if e != HeapEntry(v + RustHeuristic(n, t), n) {
        assert e in H;
      }
    }
  }

  /** When the heap runs empty every scored cell was relaxed, so the scored
      cells are closed under moves onto open cells; the target, never
      relaxed, is then not among them and cannot be reached. */
  lemma ExhaustedUnreachable(open: set<Pos>, s: Pos, t: Pos, g: map<Pos, nat>, E: set<Pos>)
    requires Scored(open, s, g) && Frontier(open, t, g, multiset{}, E, {})
    ensures !Reachable(open, s, t)
  {
    forall c | c in g ensures c in E {
    }
    forall c | c in g.Keys ensures NeighboursIn(open, c, g.Keys) {
      assert Relaxed(open, g, c, |RustMoves|);
      forall j | 0 <= j < 4 ensures Shift(c, RustMoves[j]) in open ==> Shift(c, RustMoves[j]) in g.Keys {
        assert RelaxedMove(open, g, c, j);
      }
      AllMovesDone(open, c, RustMoves, g.Keys);
    }
    if Reachable(open, s, t) {
      ClosedContainsReachable(open, s, g.Keys, t);
    }
  }

  /** A 4-neighbour is reached by one of the Rust moves. */
  lemma NeighbourMove(p: Pos, q: Pos) returns (j: nat)
    requires Adjacent(p, q)
    ensures j < |RustMoves| && q == Shift(p, RustMoves[j])
  {
    AdjacentCases(p, q);
    if q == Up(p) { j := 0; }
    else if q == Down(p) { j := 1; }
    else if q == Left(p) { j := 2; }
    else { j := 3; }
  }

  /** Along a walk whose last cell is not relaxed, from a cell scored at
      most its index, there is such a cell that is not relaxed. */
  lemma {:induction false} UnrelaxedOnWalk(open: set<Pos>, g: map<Pos, nat>, E: set<Pos>, w: seq<Pos>, j: nat)
    returns (i: nat)
    requires IsWalk(open, w) && j < |w| && w[|w| - 1] !in E
    requires w[j] in g && g[w[j]] <= j
    requires E <= g.Keys && forall p :: p in E ==> Relaxed(open, g, p, |RustMoves|)
    ensures j <= i < |w| && w[i] in g && g[w[i]] <= i && w[i] !in E
    decreases |w| - j
  {
    if w[j] !in E {
      return j;
    }
    assert WalkStep(open, w, j);
    var k := NeighbourMove(w[j], w[j + 1]);
    assert Relaxed(open, g, w[j], |RustMoves|);
    assert RelaxedMove(open, g, w[j], k);
    i := UnrelaxedOnWalk(open, g, E, w, j + 1);
  }

  /** The cells of a walk from s to t, all at coordinates below 2^30. */
  lemma {:induction false} SuffixAdmissible(open: set<Pos>, w: seq<Pos>, i: nat)
    requires IsWalk(open, w) && i < |w| && Small(w[i]) && Small(w[|w| - 1])
    ensures RustHeuristic(w[i], w[|w| - 1]) <= |w| - 1 - i
  {
    var suffix := w[i..];
    forall k: nat | k + 1 < |suffix| ensures WalkStep(open, suffix, k) {
      assert WalkStep(open, w, i + k);
    }
    WalkWithin(open, suffix);
    ManhattanAdmissible(open, w[i], w[|w| - 1], |w| - 1 - i);
    RustHeuristicExact(w[i], w[|w| - 1]);
  }

  /** No route to the target is shorter than its score when its entry is
      the least in the heap: some cell of the route is scored at most its
      index and not relaxed, so it waits in the heap keyed at most its index
      plus the heuristic, which does not overestimate the rest of the route. */
  lemma WalkBound(grid: seq<seq<CellType>>, s: Pos, t: Pos, g: map<Pos, nat>, H: multiset<HeapEntry>,
                  E: set<Pos>, e: HeapEntry, w: seq<Pos>)
    requires Searchable(grid, s) && |grid| <= 0x4000_0000 && |grid[0]| <= 0x4000_0000
    requires Scored(Open(grid), s, g) && Frontier(Open(grid), t, g, H, E, {})
    requires IsLeast(e, H) && e.p == t
    requires IsWalk(Open(grid), w) && w[0] == s && w[|w| - 1] == t
    ensures t in g && g[t] <= |w| - 1
  {
    var open := Open(grid);
    var i := UnrelaxedOnWalk(open, g, E, w, 0);
    assert i == 0 || w[i] in open by {
      if i > 0 { assert WalkStep(open, w, i - 1); }
    }
    assert t == s || t in open by {
      if |w| > 1 { assert WalkStep(open, w, |w| - 2); }
    }
    OpenIff(grid, w[i].x, w[i].y);
    OpenIff(grid, t.x, t.y);
    SuffixAdmissible(open, w, i);
    RustHeuristicExact(t, t);
    var d := HeapEntry(g[w[i]] + RustHeuristic(w[i], t), w[i]);
    WaitingAt(t, g, H, E, w[i]);
    assert Le(e, d);
  }

  lemma WaitingAt(t: Pos, g: map<Pos, nat>, H: multiset<HeapEntry>, E: set<Pos>, p: Pos)
    requires Waiting(t, g, H, E, {}) && p in g && p !in E
    ensures HeapEntry(g[p] + RustHeuristic(p, t), p) in H
  {
  }

  /** The A* guarantee: when the least entry of the heap is the target's,
      its score is the least number of moves from the start, provided the
      grid's sides stay below 2^30 so that the heuristic does not wrap and
      never overestimates. */
  lemma TargetOptimal(grid: seq<seq<CellType>>, s: Pos, t: Pos, g: map<Pos, nat>, H: multiset<HeapEntry>,
                      E: set<Pos>, e: HeapEntry)
    requires Searchable(grid, s) && |grid| <= 0x4000_0000 && |grid[0]| <= 0x4000_0000
    requires Scored(Open(grid), s, g) && Frontier(Open(grid), t, g, H, E, {})
    requires IsLeast(e, H) && e.p == t
    ensures t in g && Exact(Open(grid), s, g, t)
  {
    var open := Open(grid);
    if g[t] > 0 && Within(open, s, t, g[t] - 1) {
      WithinHasWalk(open, s, t, g[t] - 1);
      var w: seq<Pos> :| IsWalk(open, w) && w[0] == s && w[|w| - 1] == t && |w| <= g[t];
      WalkBound(grid, s, t, g, H, E, e, w);
    }
  }

  // ----- the solver -----

  /** `Ok("Path found! --> current=>(x, y)  target=> (x, y) ")` when the
      target is reachable from the computer player and
      `reconstruct_path_astar` succeeds, its error when it fails, and
      `Err("Target not reachable!")` when the heap runs empty. Beside the
      answer: the final `g_score`, whose score for a found target counts the
      moves of a route to it and, on grids with sides up to 2^30, the fewest
      such moves, and the `parent` table. */
  method FindPath(state: MazeState, delayMs: int, astarPath: Result<seq<Pos>, string>)
    returns (r: Result<string, string>, g: map<Pos, nat>, parent: map<Pos, Option<Pos>>)
    requires Searchable(state.mazeGrid, state.computerPlayer)
    ensures Reachable(Open(state.mazeGrid), state.computerPlayer, state.target) ==>
              r == (if astarPath.Ok? then Ok(FoundAt(state.target, state.target)) else Err(astarPath.error))
    ensures !Reachable(Open(state.mazeGrid), state.computerPlayer, state.target) ==> r == Err(NotReachable)
    ensures Scored(Open(state.mazeGrid), state.computerPlayer, g) && Linked(state.computerPlayer, g, parent)
    ensures Reachable(Open(state.mazeGrid), state.computerPlayer, state.target) ==>
              && state.target in g
              && (|state.mazeGrid| <= 0x4000_0000 && |state.mazeGrid[0]| <= 0x4000_0000 ==>
                    Exact(Open(state.mazeGrid), state.computerPlayer, g, state.target))
  {
    var grid, start, target := state.mazeGrid, state.computerPlayer, state.target;
    ghost var open := Open(grid);
    var pq := multiset{HeapEntry(RustHeuristic(start, target), start)};
    g := map[start := 0];
    parent := map[start := None];
    ghost var E: set<Pos> := {};
    AstarStart(open, start, target);
    while |pq| > 0
      invariant Scored(open, start, g) && Linked(start, g, parent)
      invariant Frontier(open, target, g, pq, E, {})
      decreases Unvisited(open, start, g.Keys), Total(g), |pq|
    {
      ghost var h0 := pq;
      var popped;
      popped, pq := Pop(pq);
      var current := popped.value.p;
      if current == target {
        TargetFound(grid, start, target, g, h0, E, popped.value);
        if astarPath.Err? {
          return Err(astarPath.error), g, parent;
        }
        return Ok(FoundAt(current, target)), g, parent;
      }
      BeginRelax(open, target, g, h0, pq, E, popped.value);
      ghost var g0, pq0 := g, pq;
      pq, g, parent, E := RelaxNeighbours(grid, start, target, current, pq, g, parent, E);
      assert Cheaper(open, start, g, g0) || (g == g0 && pq == pq0);
      FewerUnvisited(open, start, g0.Keys, g.Keys);
    }
    ExhaustedUnreachable(open, start, target, g, E);
    return Err(NotReachable), g, parent;
  }

  /** The found branch: the target is scored, so reachable, and on grids
      with sides up to 2^30 its score is exact. */
  lemma TargetFound(grid: seq<seq<CellType>>, s: Pos, t: Pos, g: map<Pos, nat>, H: multiset<HeapEntry>,
                    E: set<Pos>, e: HeapEntry)
    requires Searchable(grid, s)
    requires Scored(Open(grid), s, g) && Frontier(Open(grid), t, g, H, E, {})
    requires IsLeast(e, H) && e.p == t
    ensures t in g && Reachable(Open(grid), s, t)
    ensures |grid| <= 0x4000_0000 && |grid[0]| <= 0x4000_0000 ==> Exact(Open(grid), s, g, t)
  {
    assert Within(Open(grid), s, t, g[t]);
    if |grid| <= 0x4000_0000 && |grid[0]| <= 0x4000_0000 {
      TargetOptimal(grid, s, t, g, H, E, e);
    }
  }

  /** The `for &(dx, dy) in moves.iter()` loop of one expansion. */
  method RelaxNeighbours(grid: seq<seq<CellType>>, ghost start: Pos, target: Pos, current: Pos,
                         pq: multiset<HeapEntry>, g: map<Pos, nat>, parent: map<Pos, Option<Pos>>, ghost E: set<Pos>)
    returns (pq': multiset<HeapEntry>, g': map<Pos, nat>, parent': map<Pos, Option<Pos>>, ghost E': set<Pos>)
    requires Rectangular(grid)
    requires Scored(Open(grid), start, g) && Linked(start, g, parent)
    requires Frontier(Open(grid), target, g, pq, E - {current}, {current})
    requires current in g && current != target
    ensures Scored(Open(grid), start, g') && Linked(start, g', parent')
    ensures Frontier(Open(grid), target, g', pq', E', {})
    ensures Cheaper(Open(grid), start, g', g) || (g' == g && pq' == pq)
  {
    ghost var open := Open(grid);
    var moves := RustMoves;
    pq', g', parent', E' := pq, g, parent, E - {current};
    for i := 0 to |moves|
      invariant Scored(open, start, g') && Linked(start, g', parent')
      invariant Frontier(open, target, g', pq', E', {current})
      invariant current in g' && current !in E' && g'[current] == g[current]
      invariant Relaxed(open, g', current, i)
      invariant Cheaper(open, start, g', g) || (g' == g && pq' == pq)
    {
      ghost var g1 := g';
      pq', g', parent', E' := RelaxMove(grid, start, target, current, pq', g', parent', E', i);
      if g' != g1 {
        if g1 != g {
          CheaperTrans(open, start, g', g1, g);
        }
      }
    }
    EndRelax(open, target, g', pq', E', current);
    E' := E' + {current};
  }

  /** One move: a neighbour inside the grid on a path cell whose score
      `g_score[current] + 1` beats its own (a missing score is infinite)
      gets that score, `current` as parent and a heap entry keyed by score
      plus heuristic. `current` always has a score, so its
      `unwrap_or(&f64::INFINITY)` never falls back. */
  method RelaxMove(grid: seq<seq<CellType>>, ghost start: Pos, target: Pos, current: Pos,
                   pq: multiset<HeapEntry>, g: map<Pos, nat>, parent: map<Pos, Option<Pos>>, ghost E: set<Pos>, i: nat)
    returns (pq': multiset<HeapEntry>, g': map<Pos, nat>, parent': map<Pos, Option<Pos>>, ghost E': set<Pos>)
    requires Rectangular(grid) && i < |RustMoves|
    requires Scored(Open(grid), start, g) && Linked(start, g, parent)
    requires Frontier(Open(grid), target, g, pq, E, {current})
    requires current in g && current !in E && Relaxed(Open(grid), g, current, i)
    ensures Scored(Open(grid), start, g') && Linked(start, g', parent')
    ensures Frontier(Open(grid), target, g', pq', E', {current})
    ensures current in g' && current !in E' && g'[current] == g[current]
    ensures Relaxed(Open(grid), g', current, i + 1)
    ensures Cheaper(Open(grid), start, g', g) || (g' == g && pq' == pq)
  {
    ghost var open := Open(grid);
    var moves := RustMoves;
    var n := Pos(current.x + moves[i].0, current.y + moves[i].1);
    OpenIff(grid, n.x, n.y);
    MoveIsNeighbour(RustMoves, current, i);
    // tentative_g_score is g[current] + 1
    if IsPath(grid, n.x, n.y) && (n !in g || g[current] + 1 < g[n]) {
      ScoreStep(open, start, g, current, i, n);
      LinkStep(start, g, parent, current, i, n);
      QueueStep(open, target, g, pq, E, current, n);
      CurrentRelaxed(open, g, current, i, n);
      parent' := parent[n := Some(current)];
      g' := g[n := g[current] + 1];
      pq' := pq + multiset{HeapEntry(g[current] + 1 + RustHeuristic(n, target), n)};
      E' := E - {n};
    } else {
      KeepMove(open, g, current, i, n);
      pq', g', parent', E' := pq, g, parent, E;
    }
  }
}
