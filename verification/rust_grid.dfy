/** How the Rust searches see the maze: a `Vec<Vec<CellType>>` of walls and
    paths, `rows` its length and `cols` the length of its first row, cells
    addressed `(x, y)` = (column, row). Also the Rust Manhattan heuristic,
    computed in `i32`, and the texts the searches answer with. */
module RustGrid {
  import opened Grid
  import opened Text

  datatype CellType = Wall | Path

  /** Every row as long as the first: the searches index `maze_grid[y][x]`
      for every `x < cols`, which panics on a shorter row. */
  predicate Rectangular(grid: seq<seq<CellType>>)
  {
    |grid| > 0 && forall y :: 0 <= y < |grid| ==> |grid[y]| == |grid[0]|
  }

  predicate InBounds(grid: seq<seq<CellType>>, p: Pos)
    requires |grid| > 0
  {
    0 <= p.x < |grid[0]| && 0 <= p.y < |grid|
  }

  /** What a search needs of its input: a rectangular grid whose sides fit
      the `i32` casts of the bounds test, and a start inside it (the search
      marks `visited[start.1][start.0]` first thing). */
  predicate Searchable(grid: seq<seq<CellType>>, start: Pos)
  {
    && Rectangular(grid)
    && |grid| < 0x8000_0000 && |grid[0]| < 0x8000_0000
    && InBounds(grid, start)
  }

  /** The neighbour test of every Rust search: both coordinates inside the
      grid, and the cell there a `Path`. */
  predicate IsPath(grid: seq<seq<CellType>>, x: int, y: int)
    requires Rectangular(grid)
  {
    0 <= x < |grid[0]| && 0 <= y < |grid| && grid[y][x] == Path
  }

  /** The cells a Rust search may enter. */
  ghost function Open(grid: seq<seq<CellType>>): set<Pos>
    requires Rectangular(grid)
  {
    set y, x | 0 <= y < |grid| && 0 <= x < |grid[0]| && grid[y][x] == Path :: Pos(x, y)
  }

  lemma OpenIff(grid: seq<seq<CellType>>, x: int, y: int)
    requires Rectangular(grid)
    ensures Pos(x, y) in Open(grid) <==> IsPath(grid, x, y)
  {
  }

  // ----- the heuristic of `pathfinding/mod.rs` and `AstarSolver` -----

  /** `n as i32` for an integer n: the low 32 bits read as two's complement;
      also the wrapping `i32` addition and subtraction of a release build. */
  function WrapI32(n: int): (r: int)
    ensures -0x8000_0000 <= r < 0x8000_0000
    ensures -0x8000_0000 <= n < 0x8000_0000 ==> r == n
    ensures (r - n) % 0x1_0000_0000 == 0
  {
    ((n + 0x8000_0000) % 0x1_0000_0000) - 0x8000_0000
  }

  /** `i32::abs` without overflow checks: `i32::MIN` stays `i32::MIN`. */
  function AbsI32(n: int): (r: int)
    requires -0x8000_0000 <= n < 0x8000_0000
    ensures -0x8000_0000 <= r < 0x8000_0000
    ensures n != -0x8000_0000 ==> r == Abs(n)
  {
    if n == -0x8000_0000 then n else Abs(n)
  }

  /** The Manhattan heuristic as the Rust code computes it: each coordinate
      cast to `i32`, the differences and their absolute values and the sum
      all in wrapping `i32` arithmetic, the result then widened to `f64`. */
  function RustHeuristic(node: Pos, target: Pos): int
  {
    WrapI32(AbsI32(WrapI32(WrapI32(target.x) - WrapI32(node.x)))
            + AbsI32(WrapI32(WrapI32(target.y) - WrapI32(node.y))))
  }

  /** Cells whose coordinates are below 2^30. */
  predicate Small(p: Pos)
  {
    0 <= p.x < 0x4000_0000 && 0 <= p.y < 0x4000_0000
  }

  /** Below 2^30 nothing wraps and the heuristic is the Manhattan distance. */
  lemma RustHeuristicExact(node: Pos, target: Pos)
    requires Small(node) && Small(target)
    ensures RustHeuristic(node, target) == Manhattan(node, target)
  {
    assert WrapI32(target.x) == target.x && WrapI32(node.x) == node.x;
    assert WrapI32(target.y) == target.y && WrapI32(node.y) == node.y;
    assert WrapI32(target.x - node.x) == target.x - node.x;
    assert WrapI32(target.y - node.y) == target.y - node.y;
  }

  /** At 2^30 apart in each coordinate the `i32` sum wraps: the heuristic is
      negative although the distance is 2^31. */
  lemma RustHeuristicWraps()
    ensures RustHeuristic(Pos(0, 0), Pos(0x4000_0000, 0x4000_0000)) == -0x8000_0000
    ensures Manhattan(Pos(0, 0), Pos(0x4000_0000, 0x4000_0000)) == 0x8000_0000
  {
    assert WrapI32(0x4000_0000) == 0x4000_0000;
    assert WrapI32(0) == 0;
    assert WrapI32(0x8000_0000) == -0x8000_0000;
  }

  // ----- the texts the searches answer with -----

  /** The found answer naming the current cell and the target, each as a
      debug-printed tuple. */
  function FoundAt(current: Pos, target: Pos): string
  {
    "Path found! --> current=>" + PairText(current.x, current.y) + "  target=> " + PairText(target.x, target.y) + " "
  }

  /** The found answer naming the delay. */
  function FoundAfter(delayMs: int): string
  {
    "Path found! --> " + IntToString(delayMs) + " "
  }

  /** The not-reachable answer naming the maze's rows and columns and the
      start. */
  function NotReachableFrom(rows: int, cols: int, start: Pos): string
  {
    "Target not reachable! --> " + IntToString(rows) + "  " + IntToString(cols) + " start: " + PairText(start.x, start.y)
  }

  const NotReachable: string := "Target not reachable!"

  /** The found texts and the not-found texts never coincide. */
  lemma FoundDiffers(current: Pos, target: Pos, delayMs: int, rows: int, cols: int, start: Pos)
    ensures FoundAt(current, target) != NotReachableFrom(rows, cols, start)
    ensures FoundAfter(delayMs) != NotReachableFrom(rows, cols, start)
    ensures FoundAt(current, target) != NotReachable && FoundAfter(delayMs) != NotReachable
  {
    assert FoundAt(current, target)[0] == 'P' && FoundAfter(delayMs)[0] == 'P';
    assert NotReachableFrom(rows, cols, start)[0] == 'T' && NotReachable[0] == 'T';
  }
}
