/** `BfsSolver::find_path` of the maze module: the same breadth-first loop
    as `find_path_with_bfs`, answering with the delay instead of the cells.
    The `MazeState` of the maze module is not part of this model: the solver
    reads the maze, the computer player and the target from the `MazeState`
    modelled here, and the answer the maze module's
    `reconstruct_path` gives comes in as a parameter. The pause between
    pushes only paces the animation. */
module RustBfsSolver {
  import opened Wrappers
  import opened Grid
  import opened SearchCore
  import opened RustGrid
  import opened RustBfs
  import opened RustMaze

  /** `Ok("Path found! --> <delay> ")` when the target is reachable from the
      computer player and `reconstruct_path` succeeds, its error when it
      fails, and `Ok("Target not reachable! --> ...")` when the queue runs
      empty. */
  method FindPath(state: MazeState, delayMs: int, reconstructed: Result<seq<Pos>, string>)
    returns (r: Result<string, string>)
    requires Searchable(state.mazeGrid, state.computerPlayer)
    ensures Reachable(Open(state.mazeGrid), state.computerPlayer, state.target) ==>
              r == (if reconstructed.Ok? then Ok(FoundAfter(delayMs)) else Err(reconstructed.error))
    ensures !Reachable(Open(state.mazeGrid), state.computerPlayer, state.target) ==>
              r == Ok(NotReachableFrom(|state.mazeGrid|, |state.mazeGrid[0]|, state.computerPlayer))
  {
    var start, target := state.computerPlayer, state.target;
    var rows, cols := |state.mazeGrid|, |state.mazeGrid[0]|;
    var found, parent, depth, pushes := BreadthFirst(state.mazeGrid, start, target);
    if found {
      if reconstructed.Err? {
        return Err(reconstructed.error);
      }
      return Ok(FoundAfter(delayMs));
    }
    return Ok(NotReachableFrom(rows, cols, start));
  }
}
