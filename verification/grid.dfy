/** Cells of a maze, their four neighbours, the Manhattan heuristic and
    reachability through open cells. Shared by the TypeScript and the Rust
    searches: both walk a 4-connected grid of wall and open cells. */
module Grid {

  /** A cell: `x` is the column and `y` the row, as in both sources. */
  datatype Pos = Pos(x: int, y: int)

  function Abs(n: int): nat { if n < 0 then -n else n }

  function Up(p: Pos): Pos { Pos(p.x, p.y - 1) }
  function Down(p: Pos): Pos { Pos(p.x, p.y + 1) }
  function Left(p: Pos): Pos { Pos(p.x - 1, p.y) }
  function Right(p: Pos): Pos { Pos(p.x + 1, p.y) }

  predicate Adjacent(p: Pos, q: Pos) { Abs(p.x - q.x) + Abs(p.y - q.y) == 1 }

  /** Expansion order of every Rust search: (0,-1), (0,1), (-1,0), (1,0). */
  const RustMoves: seq<(int, int)> := [(0, -1), (0, 1), (-1, 0), (1, 0)]

  /** Expansion order of every TypeScript search: [0,1], [0,-1], [1,0], [-1,0]. */
  const TsMoves: seq<(int, int)> := [(0, 1), (0, -1), (1, 0), (-1, 0)]

  predicate IsMoveList(moves: seq<(int, int)>) { moves == RustMoves || moves == TsMoves }

  function Shift(p: Pos, m: (int, int)): Pos { Pos(p.x + m.0, p.y + m.1) }

  /** Every move of either list leads to one of the four neighbours. */
  lemma MoveIsNeighbour(moves: seq<(int, int)>, p: Pos, i: nat)
    requires IsMoveList(moves) && i < 4
    ensures Adjacent(p, Shift(p, moves[i]))
    ensures var q := Shift(p, moves[i]); q == Up(p) || q == Down(p) || q == Left(p) || q == Right(p)
  {
  }

  lemma AdjacentCases(p: Pos, q: Pos)
    ensures Adjacent(p, q) <==> (q == Up(p) || q == Down(p) || q == Left(p) || q == Right(p))
  {
  }

  /** The open neighbours of `c` all belong to `V`. */
  ghost predicate NeighboursIn(open: set<Pos>, c: Pos, V: set<Pos>)
  {
    && (Up(c) in open ==> Up(c) in V)
    && (Down(c) in open ==> Down(c) in V)
    && (Left(c) in open ==> Left(c) in V)
    && (Right(c) in open ==> Right(c) in V)
  }

  /** The first `i` moves out of `c` lead to cells that are walls or in `V`. */
  ghost predicate MovesDone(open: set<Pos>, c: Pos, moves: seq<(int, int)>, i: nat, V: set<Pos>)
    requires i <= |moves|
  {
    forall j :: 0 <= j < i ==> Shift(c, moves[j]) in open ==> Shift(c, moves[j]) in V
  }

  /** Having tried all four moves of either list covers all four neighbours. */
  lemma AllMovesDone(open: set<Pos>, c: Pos, moves: seq<(int, int)>, V: set<Pos>)
    requires IsMoveList(moves) && MovesDone(open, c, moves, 4, V)
    ensures NeighboursIn(open, c, V)
  {
    if moves == RustMoves {
      assert Shift(c, moves[0]) == Up(c) && Shift(c, moves[1]) == Down(c);
      assert Shift(c, moves[2]) == Left(c) && Shift(c, moves[3]) == Right(c);
    } else {
      assert Shift(c, moves[0]) == Down(c) && Shift(c, moves[1]) == Up(c);
      assert Shift(c, moves[2]) == Right(c) && Shift(c, moves[3]) == Left(c);
    }
  }

  /** `p` can be reached from `s` in at most `k` moves, every cell entered
      being open. The start itself need not be open: both sources start the
      search from it without looking at its cell. */
  ghost predicate Within(open: set<Pos>, s: Pos, p: Pos, k: nat)
    decreases k
  {
    || p == s
    || (k > 0 && p in open &&
        (|| Within(open, s, Up(p), k - 1)
         || Within(open, s, Down(p), k - 1)
         || Within(open, s, Left(p), k - 1)
         || Within(open, s, Right(p), k - 1)))
  }

  ghost predicate Reachable(open: set<Pos>, s: Pos, t: Pos)
  {
    exists k: nat :: Within(open, s, t, k)
  }

  /** One more move onto an open neighbour. */
  lemma WithinStep(open: set<Pos>, s: Pos, q: Pos, k: nat, p: Pos)
    requires Within(open, s, q, k) && p in open && Adjacent(q, p)
    ensures Within(open, s, p, k + 1)
  {
    AdjacentCases(p, q);
  }

  lemma {:induction false} WithinMono(open: set<Pos>, s: Pos, p: Pos, k: nat)
    requires Within(open, s, p, k)
    ensures Within(open, s, p, k + 1)
    decreases k
  {
    if p != s {
      if Within(open, s, Up(p), k - 1) {
        WithinMono(open, s, Up(p), k - 1);
      } else if Within(open, s, Down(p), k - 1) {
        WithinMono(open, s, Down(p), k - 1);
      } else if Within(open, s, Left(p), k - 1) {
        WithinMono(open, s, Left(p), k - 1);
      } else {
        WithinMono(open, s, Right(p), k - 1);
      }
    }
  }

  lemma {:induction false} WithinMonoLe(open: set<Pos>, s: Pos, p: Pos, k: nat, k': nat)
    requires Within(open, s, p, k) && k <= k'
    ensures Within(open, s, p, k')
    decreases k' - k
  {
    if k < k' {
      WithinMono(open, s, p, k);
      WithinMonoLe(open, s, p, k + 1, k');
    }
  }

  /** A set that holds the start and every open neighbour of its members
      holds everything reachable. */
  lemma {:induction false} ClosedContainsWithin(open: set<Pos>, s: Pos, C: set<Pos>, p: Pos, k: nat)
    requires s in C
    requires forall c :: c in C ==> NeighboursIn(open, c, C)
    requires Within(open, s, p, k)
    ensures p in C
    decreases k
  {
    if p != s {
      if Within(open, s, Up(p), k - 1) {
        ClosedContainsWithin(open, s, C, Up(p), k - 1);
        assert Down(Up(p)) == p;
      } else if Within(open, s, Down(p), k - 1) {
        ClosedContainsWithin(open, s, C, Down(p), k - 1);
        assert Up(Down(p)) == p;
      } else if Within(open, s, Left(p), k - 1) {
        ClosedContainsWithin(open, s, C, Left(p), k - 1);
        assert Right(Left(p)) == p;
      } else {
        ClosedContainsWithin(open, s, C, Right(p), k - 1);
        assert Left(Right(p)) == p;
      }
    }
  }

  lemma ClosedContainsReachable(open: set<Pos>, s: Pos, C: set<Pos>, t: Pos)
    requires s in C
    requires forall c :: c in C ==> NeighboursIn(open, c, C)
    requires Reachable(open, s, t)
    ensures t in C
  {
    var k: nat :| Within(open, s, t, k);
    ClosedContainsWithin(open, s, C, t, k);
  }

  /** Move i of walk `w` goes to an adjacent open cell. */
  ghost predicate WalkStep(open: set<Pos>, w: seq<Pos>, i: nat)
    requires i + 1 < |w|
  {
    Adjacent(w[i], w[i + 1]) && w[i + 1] in open
  }

  /** A walk: consecutive cells are 4-adjacent and every cell after the first is open. */
  ghost predicate IsWalk(open: set<Pos>, w: seq<Pos>)
  {
    |w| > 0 && forall i: nat :: i + 1 < |w| ==> WalkStep(open, w, i)
  }

  /** A walk of n cells reaches its last cell within n - 1 moves. */
  lemma {:induction false} WalkWithin(open: set<Pos>, w: seq<Pos>)
    requires IsWalk(open, w)
    ensures Within(open, w[0], w[|w| - 1], |w| - 1)
    decreases |w|
  {
    if |w| > 1 {
      var w' := w[..|w| - 1];
      assert forall i: nat :: i + 1 < |w'| ==> WalkStep(open, w', i) by {
        forall i: nat | i + 1 < |w'| ensures WalkStep(open, w', i) {
          assert WalkStep(open, w, i);
        }
      }
      assert WalkStep(open, w, |w| - 2);
      WalkWithin(open, w');
      WithinStep(open, w[0], w'[|w'| - 1], |w'| - 1, w[|w| - 1]);
    }
  }

  /** Conversely, being within k moves is witnessed by a walk of at most k + 1 cells. */
  lemma {:induction false} WithinHasWalk(open: set<Pos>, s: Pos, p: Pos, k: nat)
    requires Within(open, s, p, k)
    ensures exists w :: IsWalk(open, w) && w[0] == s && w[|w| - 1] == p && |w| <= k + 1
    decreases k
  {
    if p == s {
      assert IsWalk(open, [s]);
    } else {
      var q := if Within(open, s, Up(p), k - 1) then Up(p)
               else if Within(open, s, Down(p), k - 1) then Down(p)
               else if Within(open, s, Left(p), k - 1) then Left(p)
               else Right(p);
      WithinHasWalk(open, s, q, k - 1);
      var w :| IsWalk(open, w) && w[0] == s && w[|w| - 1] == q && |w| <= k;
      AdjacentCases(q, p);
      var w2 := w + [p];
      forall i: nat | i + 1 < |w2| ensures WalkStep(open, w2, i) {
        if i + 1 < |w| {
          assert WalkStep(open, w, i);
        }
      }
      assert w2[0] == s && w2[|w2| - 1] == p;
    }
  }

  lemma ReachableIffWalk(open: set<Pos>, s: Pos, t: Pos)
    ensures Reachable(open, s, t) <==>
            exists w :: IsWalk(open, w) && w[0] == s && w[|w| - 1] == t
  {
    if Reachable(open, s, t) {
      var k: nat :| Within(open, s, t, k);
      WithinHasWalk(open, s, t, k);
    }
    if exists w :: IsWalk(open, w) && w[0] == s && w[|w| - 1] == t {
      var w :| IsWalk(open, w) && w[0] == s && w[|w| - 1] == t;
      WalkWithin(open, w);
    }
  }

  /** The Manhattan distance |x2 - x1| + |y2 - y1| that every heuristic of
      both sources computes. */
  function Manhattan(node: Pos, target: Pos): nat
  {
    Abs(target.x - node.x) + Abs(target.y - node.y)
  }

  lemma ManhattanZeroIff(node: Pos, target: Pos)
    ensures Manhattan(node, target) == 0 <==> node == target
  {
  }

  lemma ManhattanSymmetric(a: Pos, b: Pos)
    ensures Manhattan(a, b) == Manhattan(b, a)
  {
  }

  /** One move changes the heuristic by at most one: it is consistent for unit-cost moves. */
  lemma ManhattanConsistent(p: Pos, q: Pos, target: Pos)
    requires Adjacent(p, q)
    ensures Manhattan(p, target) <= Manhattan(q, target) + 1
    ensures Manhattan(q, target) <= Manhattan(p, target) + 1
  {
  }

  lemma ManhattanTriangle(a: Pos, b: Pos, c: Pos)
    ensures Manhattan(a, c) <= Manhattan(a, b) + Manhattan(b, c)
  {
  }

  /** The heuristic never overestimates: a cell within k moves is at Manhattan distance at most k. */
  lemma {:induction false} ManhattanAdmissible(open: set<Pos>, s: Pos, p: Pos, k: nat)
    requires Within(open, s, p, k)
    ensures Manhattan(s, p) <= k
    decreases k
  {
    if p != s {
      var q := if Within(open, s, Up(p), k - 1) then Up(p)
               else if Within(open, s, Down(p), k - 1) then Down(p)
               else if Within(open, s, Left(p), k - 1) then Left(p)
               else Right(p);
      ManhattanAdmissible(open, s, q, k - 1);
      AdjacentCases(q, p);
      ManhattanSymmetric(s, p);
      ManhattanSymmetric(s, q);
      ManhattanConsistent(q, p, s);
    }
  }
}
