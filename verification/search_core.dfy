/** What every search of the maze game shares, TypeScript and Rust alike:
    a set of discovered ("visited") cells, a parent table mapping each
    discovered cell other than the start to the cell whose expansion
    discovered it, and the cells already taken off the frontier and fully
    expanded. A cell is marked visited in the same step in which it is put
    on the frontier, so it is put there at most once. */
module SearchCore {
  import opened Grid

  /** The cells on a stack or queue frontier. */
  ghost function Members(q: seq<Pos>): set<Pos>
  {
    set p | p in q
  }

  lemma MembersPop(q: seq<Pos>)
    requires |q| > 0
    ensures Members(q[..|q| - 1]) <= Members(q) <= Members(q[..|q| - 1]) + {q[|q| - 1]}
    ensures Members(q[1..]) <= Members(q) <= Members(q[1..]) + {q[0]}
  {
    assert q == q[..|q| - 1] + [q[|q| - 1]];
    assert q == [q[0]] + q[1..];
  }

  lemma MembersPush(q: seq<Pos>, n: Pos)
    ensures Members(q + [n]) == Members(q) + {n}
  {
  }

  /** The cells a search may ever hold: the open cells and the start. */
  ghost function Universe(open: set<Pos>, s: Pos): set<Pos>
  {
    open + {s}
  }

  /** A ranking that strictly decreases along parent links, so following
      them from any cell stops. */
  ghost predicate Ranked(parent: map<Pos, Pos>, depth: map<Pos, nat>)
  {
    forall p :: p in parent ==> p in depth && parent[p] in depth && depth[parent[p]] < depth[p]
  }

  /** A parent table as every search leaves it: its keys are open cells, the
      start has no entry, each entry points to a 4-neighbour that is the
      start or itself has an entry, and the links are acyclic. */
  ghost predicate ParentTree(open: set<Pos>, s: Pos, parent: map<Pos, Pos>, depth: map<Pos, nat>)
  {
    && s !in parent
    && Ranked(parent, depth)
    && forall p :: p in parent ==>
         p in open && Adjacent(parent[p], p) && (parent[p] == s || parent[p] in parent)
  }

  /** Discovery so far: `V` are the visited cells, `parent` has one entry
      per visited cell other than the start, and `depth[p]` counts the parent
      links from p back to the start, so it bounds the number of moves from
      the start to p. */
  ghost predicate Discovered(open: set<Pos>, s: Pos, V: set<Pos>, parent: map<Pos, Pos>, depth: map<Pos, nat>)
  {
    && s in V && V <= Universe(open, s)
    && depth.Keys == V && depth[s] == 0
    && (forall p :: p in V ==> Within(open, s, p, depth[p]))
    && parent.Keys == V - {s}
    && (forall p :: p in parent ==> parent[p] in V && Adjacent(parent[p], p) && depth[p] == depth[parent[p]] + 1)
  }

  /** How many cells a search may still discover: the measure by which
      every search loop terminates. */
  ghost function Unvisited(open: set<Pos>, s: Pos, V: set<Pos>): nat
  {
    |Universe(open, s) - V|
  }

  /** Visiting more cells of a finite universe leaves fewer unvisited. */
  lemma FewerUnvisited(open: set<Pos>, s: Pos, V0: set<Pos>, V: set<Pos>)
    requires V0 <= V <= Universe(open, s)
    ensures Unvisited(open, s, V) <= Unvisited(open, s, V0)
    ensures V != V0 ==> Unvisited(open, s, V) < Unvisited(open, s, V0)
  {
    var U := Universe(open, s);
    assert U - V0 == (U - V) + (V - V0);
    assert (U - V) * (V - V0) == {};
    if V != V0 {
      var n :| n in V && n !in V0;
      assert n in V - V0;
    }
  }

  /** The start alone: how every search begins. */
  lemma DiscoveredStart(open: set<Pos>, s: Pos)
    ensures Discovered(open, s, {s}, map[], map[s := 0])
  {
  }

  /** Discovering an unvisited open neighbour n of a visited cell c. */
  lemma DiscoverStep(open: set<Pos>, s: Pos, V: set<Pos>, parent: map<Pos, Pos>, depth: map<Pos, nat>,
                     c: Pos, n: Pos)
    requires Discovered(open, s, V, parent, depth)
    requires c in V && n in open && n !in V && Adjacent(c, n)
    ensures Discovered(open, s, V + {n}, parent[n := c], depth[n := depth[c] + 1])
  {
    WithinStep(open, s, c, depth[c], n);
  }

  lemma DiscoveredTree(open: set<Pos>, s: Pos, V: set<Pos>, parent: map<Pos, Pos>, depth: map<Pos, nat>)
    requires Discovered(open, s, V, parent, depth)
    ensures ParentTree(open, s, parent, depth)
  {
  }

  /** Every visited cell is reachable. */
  lemma DiscoveredReachable(open: set<Pos>, s: Pos, V: set<Pos>, parent: map<Pos, Pos>, depth: map<Pos, nat>, p: Pos)
    requires Discovered(open, s, V, parent, depth) && p in V
    ensures Reachable(open, s, p)
  {
  }

  /** The state of a visited-at-push search between two expansions:
      `closed` are the cells taken off the frontier and expanded, `W` the
      cells on the frontier. The target has not been taken off yet. */
  ghost predicate Searching(open: set<Pos>, s: Pos, t: Pos, V: set<Pos>, closed: set<Pos>, W: set<Pos>,
                            parent: map<Pos, Pos>, depth: map<Pos, nat>)
  {
    && Discovered(open, s, V, parent, depth)
    && closed <= V && W <= V && t !in closed
    && (forall p :: p in parent ==> parent[p] in closed)
    && (forall c :: c in closed ==> NeighboursIn(open, c, V))
    && V <= closed + W
  }

  /** The state while cell c, just taken off the frontier, has had its first
      i moves tried. */
  ghost predicate Expanding(open: set<Pos>, s: Pos, t: Pos, V: set<Pos>, closed: set<Pos>, W: set<Pos>,
                            parent: map<Pos, Pos>, depth: map<Pos, nat>,
                            c: Pos, moves: seq<(int, int)>, i: nat)
    requires i <= |moves|
  {
    && Discovered(open, s, V, parent, depth)
    && c in V && c != t
    && closed <= V && W <= V && t !in closed
    && (forall p :: p in parent ==> parent[p] in closed + {c})
    && (forall d :: d in closed ==> NeighboursIn(open, d, V))
    && V <= closed + W + {c}
    && MovesDone(open, c, moves, i, V)
  }

  lemma SearchingStart(open: set<Pos>, s: Pos, t: Pos)
    ensures Searching(open, s, t, {s}, {}, {s}, map[], map[s := 0])
  {
  }

  /** Taking c off the frontier starts its expansion. */
  lemma BeginExpand(open: set<Pos>, s: Pos, t: Pos, V: set<Pos>, closed: set<Pos>, W: set<Pos>, W': set<Pos>,
                    parent: map<Pos, Pos>, depth: map<Pos, nat>, c: Pos, moves: seq<(int, int)>)
    requires Searching(open, s, t, V, closed, W, parent, depth)
    requires c in W && c != t && W' <= W && W <= W' + {c}
    ensures Expanding(open, s, t, V, closed, W', parent, depth, c, moves, 0)
  {
  }

  /** Trying move i when it leads to a wall, outside the grid or a visited cell. */
  lemma SkipMove(open: set<Pos>, s: Pos, t: Pos, V: set<Pos>, closed: set<Pos>, W: set<Pos>,
                 parent: map<Pos, Pos>, depth: map<Pos, nat>, c: Pos, moves: seq<(int, int)>, i: nat, n: Pos)
    requires i < |moves| && n == Shift(c, moves[i])
    requires Expanding(open, s, t, V, closed, W, parent, depth, c, moves, i)
    requires n !in open || n in V
    ensures Expanding(open, s, t, V, closed, W, parent, depth, c, moves, i + 1)
  {
  }

  /** Trying move i when it leads to an unvisited open cell n: n is visited,
      given parent c and put on the frontier. */
  lemma PushMove(open: set<Pos>, s: Pos, t: Pos, V: set<Pos>, closed: set<Pos>, W: set<Pos>,
                 parent: map<Pos, Pos>, depth: map<Pos, nat>, c: Pos, moves: seq<(int, int)>, i: nat, n: Pos)
    requires IsMoveList(moves) && i < |moves| && n == Shift(c, moves[i])
    requires Expanding(open, s, t, V, closed, W, parent, depth, c, moves, i)
    requires n in open && n !in V
    ensures Expanding(open, s, t, V + {n}, closed, W + {n}, parent[n := c], depth[n := depth[c] + 1], c, moves, i + 1)
  {
    MoveIsNeighbour(moves, c, i);
    DiscoverStep(open, s, V, parent, depth, c, n);
    var V' := V + {n};
    forall d | d in closed ensures NeighboursIn(open, d, V') {
      assert NeighboursIn(open, d, V);
    }
  }

  /** All four moves tried: c joins the expanded cells. */
  lemma EndExpand(open: set<Pos>, s: Pos, t: Pos, V: set<Pos>, closed: set<Pos>, W: set<Pos>,
                  parent: map<Pos, Pos>, depth: map<Pos, nat>, c: Pos, moves: seq<(int, int)>)
    requires IsMoveList(moves)
    requires Expanding(open, s, t, V, closed, W, parent, depth, c, moves, |moves|)
    ensures Searching(open, s, t, V, closed + {c}, W, parent, depth)
  {
    AllMovesDone(open, c, moves, V);
  }

  /** An empty frontier means every visited cell is expanded, so the visited
      cells hold everything reachable; the target is not among them. */
  lemma ExhaustedUnreachable(open: set<Pos>, s: Pos, t: Pos, V: set<Pos>, closed: set<Pos>,
                             parent: map<Pos, Pos>, depth: map<Pos, nat>)
    requires Searching(open, s, t, V, closed, {}, parent, depth)
    ensures !Reachable(open, s, t)
  {
    assert closed == V;
    if Reachable(open, s, t) {
      ClosedContainsReachable(open, s, V, t);
    }
  }

  /** A visited target is reachable. */
  lemma FoundReachable(open: set<Pos>, s: Pos, t: Pos, V: set<Pos>, parent: map<Pos, Pos>, depth: map<Pos, nat>)
    requires Discovered(open, s, V, parent, depth) && t in V
    ensures Reachable(open, s, t)
  {
  }

  /** Taking the target off the frontier: the parent table is a tree over
      the pushed cells other than the start, and holds the target unless the
      target is the start. */
  lemma TargetFound(open: set<Pos>, s: Pos, t: Pos, V: set<Pos>, closed: set<Pos>, W: set<Pos>,
                    parent: map<Pos, Pos>, depth: map<Pos, nat>, pushes: seq<Pos>)
    requires Searching(open, s, t, V, closed, W, parent, depth) && PushLog(pushes, s, open, V)
    requires t in W
    ensures Reachable(open, s, t)
    ensures ParentTree(open, s, parent, depth)
    ensures t == s || t in parent
    ensures parent.Keys == Members(pushes) - {s}
  {
    DiscoveredTree(open, s, V, parent, depth);
    FoundReachable(open, s, t, V, parent, depth);
  }

  /** Visits recorded in push order, each cell once. */
  ghost predicate PushLog(pushes: seq<Pos>, s: Pos, open: set<Pos>, V: set<Pos>)
  {
    && |pushes| > 0 && pushes[0] == s
    && (forall i, j :: 0 <= i < j < |pushes| ==> pushes[i] != pushes[j])
    && (forall i :: 0 < i < |pushes| ==> pushes[i] in open)
    && (forall p :: p in V <==> p in pushes)
  }

  lemma PushLogStep(pushes: seq<Pos>, s: Pos, open: set<Pos>, V: set<Pos>, n: Pos)
    requires PushLog(pushes, s, open, V) && n !in V && n in open
    ensures PushLog(pushes + [n], s, open, V + {n})
  {
  }

  /** Following parent links from a cell that is the start or has an entry
      ends at the start, along a walk of open cells: the cell is reachable. */
  lemma {:induction false} TreeReaches(open: set<Pos>, s: Pos, parent: map<Pos, Pos>, depth: map<Pos, nat>, p: Pos)
    requires ParentTree(open, s, parent, depth)
    requires p == s || p in parent
    ensures Reachable(open, s, p)
    decreases if p in depth then depth[p] else 0
  {
    if p == s {
      assert Within(open, s, p, 0);
    } else {
      var q := parent[p];
      TreeReaches(open, s, parent, depth, q);
      var k: nat :| Within(open, s, q, k);
      WithinStep(open, s, q, k, p);
      assert Within(open, s, p, k + 1);
    }
  }

  /** A sequence read backwards, as `Vec::reverse` leaves it. */
  function Reverse<T>(s: seq<T>): (r: seq<T>)
    ensures |r| == |s|
    ensures forall i :: 0 <= i < |s| ==> r[i] == s[|s| - 1 - i]
  {
    if s == [] then [] else Reverse(s[1..]) + [s[0]]
  }
}
