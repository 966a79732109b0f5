/** How the TypeScript searches read the maze: `maze_grid` is an array of
    rows of one-character strings, `rows` is its length and `cols` the length
    of its first row. Rows may be ragged (each line was trimmed), and reading
    past the end of a row gives `undefined`, which is not `' '`, so such a
    cell acts as a wall. */
module TsMaze {
  import opened Grid

  /** The test `new_x >= 0 && new_x < cols && new_y >= 0 && new_y < rows &&
      maze_grid[new_y][new_x] === ' '`. */
  predicate IsFree(grid: seq<seq<char>>, x: int, y: int)
    requires |grid| > 0
  {
    0 <= x < |grid[0]| && 0 <= y < |grid| && x < |grid[y]| && grid[y][x] == ' '
  }

  /** The cells a TypeScript search may enter. */
  ghost function Open(grid: seq<seq<char>>): set<Pos>
    requires |grid| > 0
  {
    set y, x | 0 <= y < |grid| && 0 <= x < |grid[0]| && x < |grid[y]| && grid[y][x] == ' ' :: Pos(x, y)
  }

  lemma OpenIff(grid: seq<seq<char>>, x: int, y: int)
    requires |grid| > 0
    ensures Pos(x, y) in Open(grid) <==> IsFree(grid, x, y)
  {
  }
}
