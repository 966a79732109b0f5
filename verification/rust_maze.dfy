/** `MazeState` of the Rust maze game: the parsed maze, the computer
    player's cell (where searches start), the target and the human player.
    The canvas context it also holds is only drawn on and is not modelled;
    neither is the colouring of cells or the delay between pushes. */
module RustMaze {
  import opened Wrappers
  import opened Grid
  import opened SearchCore
  import opened RustGrid
  import opened RustParse
  import opened RustBfs
  import opened Text

  /** `MAX_ATTEMPTS` of `generate_random_target`. */
  const MaxAttempts: nat := 50

  const NoPosition: string := "Failed to find a suitable position!"

  /** The cell `(rng.gen_range(0..cols), rng.gen_range(0..rows))` for one
      pair of raw random numbers: any value in range can come out. */
  function Drawn(grid: seq<seq<CellType>>, raw: (nat, nat)): (p: Pos)
    requires Rectangular(grid) && |grid[0]| > 0
    ensures InBounds(grid, p)
  {
    Pos(raw.0 % |grid[0]|, raw.1 % |grid|)
  }

  /** A drawn cell is taken when it is a path cell that neither the
      computer player nor the target occupies. */
  predicate Suitable(grid: seq<seq<CellType>>, computer: Pos, target: Pos, p: Pos)
    requires Rectangular(grid)
  {
    IsPath(grid, p.x, p.y) && p != computer && p != target
  }

  /** The cell `generate_random_target` answers with for a sequence of
      draws: the first drawn cell that is suitable, if any is. */
  function FirstSuitable(grid: seq<seq<CellType>>, computer: Pos, target: Pos, draws: seq<(nat, nat)>): (r: Option<Pos>)
    requires Rectangular(grid) && |grid[0]| > 0
    ensures r.None? <==> forall i :: 0 <= i < |draws| ==> !Suitable(grid, computer, target, Drawn(grid, draws[i]))
    ensures r.Some? ==> exists i :: 0 <= i < |draws| && r.value == Drawn(grid, draws[i])
                          && Suitable(grid, computer, target, r.value)
                          && forall j :: 0 <= j < i ==> !Suitable(grid, computer, target, Drawn(grid, draws[j]))
  {
    if |draws| == 0 then None
    else if Suitable(grid, computer, target, Drawn(grid, draws[0])) then Some(Drawn(grid, draws[0]))
    else
      var r := FirstSuitable(grid, computer, target, draws[1..]);
      assert forall i :: 0 < i < |draws| ==> draws[i] == draws[1..][i - 1];
      if r.Some? then
        var i :| 0 <= i < |draws[1..]| && r.value == Drawn(grid, draws[1..][i])
                 && Suitable(grid, computer, target, r.value)
                 && forall j :: 0 <= j < i ==> !Suitable(grid, computer, target, Drawn(grid, draws[1..][j]));
        assert forall j :: 0 < j < i + 1 ==> draws[j] == draws[1..][j - 1];
        r
      else r
  }

  /** The first suitable draw is the one at the first index whose cell is
      suitable. */
  lemma FirstSuitableAt(grid: seq<seq<CellType>>, computer: Pos, target: Pos, draws: seq<(nat, nat)>, i: nat)
    requires Rectangular(grid) && |grid[0]| > 0 && i < |draws|
    requires Suitable(grid, computer, target, Drawn(grid, draws[i]))
    requires forall j :: 0 <= j < i ==> !Suitable(grid, computer, target, Drawn(grid, draws[j]))
    ensures FirstSuitable(grid, computer, target, draws) == Some(Drawn(grid, draws[i]))
  {
    var r := FirstSuitable(grid, computer, target, draws);
    var k :| 0 <= k < |draws| && r.value == Drawn(grid, draws[k])
             && Suitable(grid, computer, target, r.value)
             && forall j :: 0 <= j < k ==> !Suitable(grid, computer, target, Drawn(grid, draws[j]));
    assert k == i;
  }

  /** The cells the two draws of `new` give: the target is the first
      suitable cell of `targetDraws` while both players are at (0, 0), then
      the computer player the first suitable cell of `computerDraws` with
      the target in place; `None` when either draw finds nothing. */
  function Placement(grid: seq<seq<CellType>>, targetDraws: seq<(nat, nat)>, computerDraws: seq<(nat, nat)>)
    : (r: Option<(Pos, Pos)>)
    requires Rectangular(grid) && |grid[0]| > 0
    ensures r.Some? ==> Placed(grid, r.value.0, r.value.1)
  {
    var t := FirstSuitable(grid, Pos(0, 0), Pos(0, 0), targetDraws);
    if t.None? then None
    else
      var c := FirstSuitable(grid, Pos(0, 0), t.value, computerDraws);
      if c.None? then None else Some((t.value, c.value))
  }

  /** Where `new` leaves the players: the target and the computer player on
      two different path cells, neither of them (0, 0), the cell both start
      at before they are drawn. */
  predicate Placed(grid: seq<seq<CellType>>, target: Pos, computer: Pos)
  {
    && Rectangular(grid)
    && IsPath(grid, target.x, target.y) && IsPath(grid, computer.x, computer.y)
    && target != Pos(0, 0) && computer != Pos(0, 0) && computer != target
  }

  /** The links `reconstruct_path` follows from the target: every cell of
      the chain has an entry, each is the parent of the one before, and the
      last one's parent has no entry. */
  ghost predicate Chain(parent: map<Pos, Pos>, target: Pos, chain: seq<Pos>)
  {
    && (|chain| == 0 <==> target !in parent)
    && (forall k :: 0 <= k < |chain| ==> chain[k] in parent)
    && (|chain| > 0 ==> chain[0] == target && parent[chain[|chain| - 1]] !in parent)
    && (forall k :: 0 <= k < |chain| - 1 ==> chain[k + 1] == parent[chain[k]])
  }

  /** On a breadth-first parent table, the chain from a found target closed
      by the start and read backwards is a walk from the start to the
      target with one cell more than the target's depth. */
  lemma {:induction false} ChainWalk(open: set<Pos>, s: Pos, parent: map<Pos, Pos>, depth: map<Pos, nat>,
                                     target: Pos, chain: seq<Pos>)
    requires ParentTree(open, s, parent, depth)
    requires s in depth && depth[s] == 0
    requires forall p :: p in parent ==> depth[p] == depth[parent[p]] + 1
    requires target == s || target in parent
    requires Chain(parent, target, chain)
    ensures target in depth
    ensures var w := Reverse(chain + [s]);
            IsWalk(open, w) && w[0] == s && w[|w| - 1] == target && |w| == depth[target] + 1
  {
    var c := chain + [s];
    var m := |chain|;
    if m > 0 {
      assert parent[chain[m - 1]] == s;
      // depth falls by one along the chain
      forall k | 0 <= k < m ensures depth[chain[k]] + k == depth[target] {
        ChainDepth(parent, depth, target, chain, k);
      }
      assert depth[chain[m - 1]] == 1;
    }
    var w := Reverse(c);
    forall i: nat | i + 1 < |w| ensures WalkStep(open, w, i) {
      var k := m - 1 - i;
      assert w[i] == c[k + 1] && w[i + 1] == c[k];
      assert c[k] == chain[k] && chain[k] in parent;
      assert c[k + 1] == parent[chain[k]];
    }
  }

  lemma {:induction false} ChainDepth(parent: map<Pos, Pos>, depth: map<Pos, nat>, target: Pos, chain: seq<Pos>, k: nat)
    requires forall p :: p in parent ==> p in depth && parent[p] in depth && depth[p] == depth[parent[p]] + 1
    requires Chain(parent, target, chain) && k < |chain|
    ensures depth[chain[k]] + k == depth[target]
  {
    if k > 0 {
      ChainDepth(parent, depth, target, chain, k - 1);
    }
  }

  class MazeState {
    var mazeGrid: seq<seq<CellType>>
    var computerPlayer: Pos
    var target: Pos
    var humanPlayer: Pos

    /** The struct literal of `new`: every player at (0, 0). */
    constructor (mazeGrid: seq<seq<CellType>>)
      ensures this.mazeGrid == mazeGrid
      ensures computerPlayer == Pos(0, 0) && target == Pos(0, 0) && humanPlayer == Pos(0, 0)
    {
      this.mazeGrid := mazeGrid;
      computerPlayer := Pos(0, 0);
      target := Pos(0, 0);
      humanPlayer := Pos(0, 0);
    }

    /** `new`: parses the maze, then draws the target and then the computer
        player's cell, each with `generate_random_target`; a parse error or a
        failed draw is the error returned. `targetDraws` and `computerDraws`
        are the random numbers the two draws consume. */
    static method New(mazeData: string, targetDraws: seq<(nat, nat)>, computerDraws: seq<(nat, nat)>)
      returns (r: Result<MazeState, string>)
      requires MazeOf(mazeData).Ok? ==> Rectangular(MazeOf(mazeData).value)
      requires |targetDraws| == MaxAttempts && |computerDraws| == MaxAttempts
      ensures MazeOf(mazeData).Err? ==> r == Err(MazeOf(mazeData).error)
      ensures r.Ok? ==> MazeOf(mazeData) == Ok(r.value.mazeGrid)
      ensures r.Ok? ==> Placed(r.value.mazeGrid, r.value.target, r.value.computerPlayer)
      ensures r.Ok? ==> r.value.humanPlayer == Pos(0, 0)
      ensures MazeOf(mazeData).Ok? ==>
                && |MazeOf(mazeData).value[0]| > 0
                && var p := Placement(MazeOf(mazeData).value, targetDraws, computerDraws);
                   && (r.Ok? <==> p.Some?)
                   && (r.Ok? ==> r.value.target == p.value.0 && r.value.computerPlayer == p.value.1)
                   && (r.Err? ==> r.error == NoPosition)
      ensures r.Ok? ==> fresh(r.value)
    {
      var parsed := ParseMaze(mazeData);
      if parsed.Err? {
        return Err(parsed.error);
      }
      RowsOfShape(Split(mazeData, '\n'));
      var state := new MazeState(parsed.value);
      var drawn := state.DrawPlayers(targetDraws, computerDraws);
      if drawn.Err? {
        return Err(drawn.error);
      }
      return Ok(state);
    }

    /** The two draws of `new`: the target first, then the computer player,
        each stored as soon as it is drawn. */
    method DrawPlayers(targetDraws: seq<(nat, nat)>, computerDraws: seq<(nat, nat)>) returns (r: Result<(), string>)
      requires Rectangular(mazeGrid) && |mazeGrid[0]| > 0
      requires |targetDraws| == MaxAttempts && |computerDraws| == MaxAttempts
      requires computerPlayer == Pos(0, 0) && target == Pos(0, 0)
      modifies this
      ensures mazeGrid == old(mazeGrid) && humanPlayer == old(humanPlayer)
      ensures var p := Placement(mazeGrid, targetDraws, computerDraws);
              && (r.Ok? <==> p.Some?)
              && (r.Ok? ==> target == p.value.0 && computerPlayer == p.value.1)
      ensures r.Ok? ==> Placed(mazeGrid, target, computerPlayer)
      ensures r.Err? ==> r.error == NoPosition
    {
      var t := GenerateRandomTarget(targetDraws);
      if t.Err? {
        return Err(t.error);
      }
      target := t.value;
      var c := GenerateRandomTarget(computerDraws);
      if c.Err? {
        return Err(c.error);
      }
      computerPlayer := c.value;
      return Ok(());
    }

    /** `generate_random_target`: the first of up to `MAX_ATTEMPTS` drawn
        cells that is a path cell not occupied by the computer player or the
        target; an error when none of them is. */
    method GenerateRandomTarget(draws: seq<(nat, nat)>) returns (r: Result<Pos, string>)
      requires Rectangular(mazeGrid) && |mazeGrid[0]| > 0 && |draws| == MaxAttempts
      ensures r == (var f := FirstSuitable(mazeGrid, computerPlayer, target, draws);
                    if f.Some? then Ok(f.value) else Err(NoPosition))
      ensures r.Err? <==> forall i :: 0 <= i < |draws| ==> !Suitable(mazeGrid, computerPlayer, target, Drawn(mazeGrid, draws[i]))
      ensures r.Err? ==> r.error == NoPosition
      ensures r.Ok? ==> Suitable(mazeGrid, computerPlayer, target, r.value)
      ensures r.Ok? ==> exists i :: 0 <= i < |draws| && r.value == Drawn(mazeGrid, draws[i])
                          && Suitable(mazeGrid, computerPlayer, target, r.value)
                          && forall j :: 0 <= j < i ==> !Suitable(mazeGrid, computerPlayer, target, Drawn(mazeGrid, draws[j]))
    {
      for i := 0 to MaxAttempts
        invariant forall j :: 0 <= j < i ==> !Suitable(mazeGrid, computerPlayer, target, Drawn(mazeGrid, draws[j]))
      {
        var x := draws[i].0 % |mazeGrid[0]|;
        var y := draws[i].1 % |mazeGrid|;
        if mazeGrid[y][x] == Path {
          if Pos(x, y) != computerPlayer && Pos(x, y) != target {
            assert Pos(x, y) == Drawn(mazeGrid, draws[i]);
            FirstSuitableAt(mazeGrid, computerPlayer, target, draws, i);
            return Ok(Pos(x, y));
          }
        }
      }
      return Err(NoPosition);
    }

    /** `reconstruct_path`: follows parent links from the target while the
        current cell has one, pushing each cell, then pushes the computer
        player and reverses. It never fails. The chain it followed is
        returned beside the path; `depth` ranks the table so the walk stops. */
    method ReconstructPath(parent: map<Pos, Pos>, target: Pos, ghost depth: map<Pos, nat>)
      returns (r: Result<seq<Pos>, string>, chain: seq<Pos>)
      requires Ranked(parent, depth)
      ensures Chain(parent, target, chain)
      ensures r == Ok(Reverse(chain + [computerPlayer]))
    {
      var path: seq<Pos> := [];
      var current := target;
      while current in parent
        invariant |path| == 0 ==> current == target
        invariant forall k :: 0 <= k < |path| ==> path[k] in parent
        invariant |path| > 0 ==> path[0] == target && current == parent[path[|path| - 1]]
        invariant forall k :: 0 <= k < |path| - 1 ==> path[k + 1] == parent[path[k]]
        decreases if current in depth then depth[current] else 0
      {
        path := path + [current];
        current := parent[current];
      }
      chain := path;
      path := path + [computerPlayer];
      path := Reverse(path);
      return Ok(path), chain;
    }

    /** `find_path_with_bfs`: breadth-first from the computer player; when
        the target comes off the queue the path is reconstructed and the
        answer is the found text, otherwise the not-reachable text with the
        maze size and the start. Beside the answer: the reconstructed path,
        which is a shortest walk to the target. */
    method FindPathWithBfs(delayMs: int) returns (r: Result<string, string>, path: seq<Pos>)
      requires Searchable(mazeGrid, computerPlayer)
      ensures Reachable(Open(mazeGrid), computerPlayer, target) ==> r == Ok(FoundAt(target, target))
      ensures !Reachable(Open(mazeGrid), computerPlayer, target) ==>
                r == Ok(NotReachableFrom(|mazeGrid|, |mazeGrid[0]|, computerPlayer))
      ensures Reachable(Open(mazeGrid), computerPlayer, target) ==>
                && IsWalk(Open(mazeGrid), path) && path[0] == computerPlayer && path[|path| - 1] == target
                && forall w :: IsWalk(Open(mazeGrid), w) && w[0] == computerPlayer && w[|w| - 1] == target ==> |path| <= |w|
    {
      var start, target := computerPlayer, this.target;
      var rows, cols := |mazeGrid|, |mazeGrid[0]|;
      var found, parent, depth, pushes := BreadthFirst(mazeGrid, start, target);
      if found {
        var reconstructed, chain := ReconstructPath(parent, target, depth);
        ChainWalk(Open(mazeGrid), start, parent, depth, target, chain);
        path := reconstructed.value;
        ShortestWalk(Open(mazeGrid), start, target, depth, path);
        return Ok(FoundAt(target, target)), path;
      }
      return Ok(NotReachableFrom(rows, cols, start)), [];
    }
  }

  /** A walk with one cell more than the exact depth of its last cell is as
      short as any walk to that cell. */
  lemma ShortestWalk(open: set<Pos>, s: Pos, t: Pos, depth: map<Pos, nat>, path: seq<Pos>)
    requires t in depth && Exact(open, s, depth, t) && |path| == depth[t] + 1
    ensures forall w :: IsWalk(open, w) && w[0] == s && w[|w| - 1] == t ==> |path| <= |w|
  {
    forall w | IsWalk(open, w) && w[0] == s && w[|w| - 1] == t ensures |path| <= |w| {
      WalkWithin(open, w);
      if |w| < |path| {
        WithinMonoLe(open, s, t, |w| - 1, depth[t] - 1);
      }
    }
  }
}
