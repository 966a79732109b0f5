# Portfolio games, modelled in Dafny

This project models the game logic of a personal portfolio site, written in
TypeScript (React) and Rust (compiled to WebAssembly):

- **Maze path-finding, TypeScript side.**
  - A binary min-heap `PriorityQueue`.
  - Depth-first, best-first and A* searches over a grid of `' '` (free) and other (wall) characters.
  - The `TsImplementation` front end that picks an algorithm and rebuilds the path from the parent map.
  - The string helpers that parse a maze text and a `target`/`player` game-state string.
- **Maze path-finding, Rust side.**
  - `parse_maze` turns `'*'`/`' '` text into `Wall`/`Path` cells.
  - `MazeState` places the target and the computer player at random and finds a path by breadth-first search.
  - The breadth-first, depth-first, best-first and A* solvers, the last two over a `BinaryHeap` of `(f, (x, y))` entries, and the `i32` Manhattan heuristic.
- **Conway's Game of Life `Universe`** on a torus, with a second cell buffer, the set of cells the page must redraw, cell toggling and pattern loading.
- **The "evade duck" state** kept by the Rust side, and the page's unpacking of the `u32` that carries the duck's coordinates.
- **The duck of the revised duck-hunt game.** It is moved by three state updaters: key down, key up and one frame.
- **The résumé timeline helpers.** These cover month differences, fade-in visibility, the clamped scroll progress and the colour nearest to a scroll position.
- **The drawings carousel**, with its next and previous operations.

The model follows the code's own form:
- Classes whose methods update their fields stay classes:
  - `MinHeap.PriorityQueue`
  - `TsFindPath.TsImplementation`
  - `RustMaze.MazeState`
  - `Conway.Universe`, whose vectors become arrays
  - `EvadeDuck.DuckGame`
- Searches keep their loops and become methods with loop invariants.
- Pure code becomes functions and lemmas.

Each search is proved against a reachability specification. `Grid.Within(open, s, p, k)` says that `p` is reachable from `s` through open cells in at most `k` steps, and `Grid.Reachable` says that it is reachable at all. The searches share their invariants in `SearchCore`:
- every cell pushed is reachable;
- the parent map is a tree rooted at the start;
- an exhausted frontier means that every cell reachable from the start has been visited.

From these the searches prove that they find the target exactly when it is reachable. On top of that:
- the breadth-first search proves that its depths are shortest distances;
- A* proves that the target's `g` score is the shortest distance.

## Model

| member | source | states |
|---|---|---|
| Grid.ManhattanZeroIff | src/app/games/hello-wasm/src/pathfinding/mod.rs:21-26 | the Manhattan distance is zero exactly when the two cells coincide |
| Grid.ManhattanSymmetric | src/app/games/hello-wasm/src/pathfinding/mod.rs:21-26 | the distance does not depend on the order of its arguments |
| Grid.ManhattanConsistent | src/app/games/algorithms/helper/helper_function.ts:58-60 | one grid step changes the heuristic by at most one, so it is consistent for unit-cost moves |
| Grid.ManhattanTriangle | src/app/games/algorithms/helper/helper_function.ts:58-60 | the distance satisfies the triangle inequality |
| Grid.ManhattanAdmissible | src/app/games/algorithms/helper/helper_function.ts:58-60 | the heuristic never exceeds the length of any walk between the two cells |
| Grid.ReachableIffWalk | src/app/games/algorithms/dfs.ts:19-53 | a cell is reachable through four-neighbour moves over open cells exactly when a walk of open cells leads to it |
| Grid.ClosedContainsReachable | src/app/games/algorithms/dfs.ts:35-45 | a set that contains the start and every open neighbour of its members contains every reachable cell |
| SearchCore.ExhaustedUnreachable | src/app/games/algorithms/dfs.ts:21-54 | once the frontier is empty and the target was never popped, the target is unreachable |
| SearchCore.TargetFound | src/app/games/algorithms/dfs.ts:27-29 | the popped target is reachable; the parent map is an acyclic tree of open cells and neighbour links rooted at the start, it holds the target unless the target is the start, and its keys are the pushed cells other than the start |
| SearchCore.Reverse | src/app/games/hello-wasm/src/lib.rs:235 | the result has the same length, and element `i` is element `n-1-i` of the input |
| MinHeap.RootIsMin | src/app/games/algorithms/helper/priority_queue.ts:25-27 | in a heap, the root's priority is at most that of every entry |
| MinHeap.PriorityQueue.constructor | src/app/games/algorithms/helper/priority_queue.ts:4 | a new queue is an empty valid heap |
| MinHeap.PriorityQueue.Enqueue | src/app/games/algorithms/helper/priority_queue.ts:6-9 | the heap stays valid, and the multiset of entries gains exactly the new entry |
| MinHeap.PriorityQueue.Dequeue | src/app/games/algorithms/helper/priority_queue.ts:11-19 | an empty queue gives `null` and stays empty; otherwise it returns an item whose priority is at most every remaining one, removes exactly that entry, and stays a heap |
| MinHeap.PriorityQueue.IsEmpty | src/app/games/algorithms/helper/priority_queue.ts:21-23 | true exactly when the queue holds no entry |
| MinHeap.PriorityQueue.Peek | src/app/games/algorithms/helper/priority_queue.ts:25-27 | `null` exactly when empty, otherwise an item of least priority |
| MinHeap.PriorityQueue.Size | src/app/games/algorithms/helper/priority_queue.ts:29-31 | the number of entries held |
| MinHeap.PriorityQueue.Clear | src/app/games/algorithms/helper/priority_queue.ts:33-35 | afterwards the queue is a valid, empty heap |
| MinHeap.PriorityQueue.Swap | src/app/games/algorithms/helper/priority_queue.ts:37-39 | exchanges two entries and leaves the multiset unchanged |
| MinHeap.PriorityQueue.BubbleUp | src/app/games/algorithms/helper/priority_queue.ts:42-51 | a heap broken only at the last entry becomes a heap with the same entries |
| MinHeap.PriorityQueue.BubbleDown | src/app/games/algorithms/helper/priority_queue.ts:54-81 | a heap broken only at the root becomes a heap with the same entries |
| Text.Split | src/app/games/algorithms/helper/helper_function.ts:34 | `split(sep)` gives one more piece than there are separators, no piece contains the separator, and joining the pieces gives the text back |
| Text.SplitJoin | src/app/games/algorithms/helper/helper_function.ts:12-14 | splitting a join of separator-free pieces gives the pieces back |
| Text.Trim | src/app/games/algorithms/helper/helper_function.ts:35 | `trim()` is the slice with every leading and trailing white space removed; its ends are not white space |
| TsHelpers.Heuristic | src/app/games/algorithms/helper/helper_function.ts:58-60 | non-negative, zero exactly at the target, and equal to the Manhattan distance |
| TsHelpers.ParseInt | src/app/games/algorithms/helper/helper_function.ts:16-19 | `parseInt`: optional leading white space and sign, then the longest run of decimal digits, or `NaN` when there is none |
| TsHelpers.ParseIntString | src/app/games/algorithms/helper/helper_function.ts:16-19 | parsing the decimal text of any integer gives that integer back |
| TsHelpers.StringToMazeGrid | src/app/games/algorithms/helper/helper_function.ts:33-36 | one row per line, each row the trimmed line's characters |
| TsHelpers.FromStringToGameState | src/app/games/algorithms/helper/helper_function.ts:8-29 | `null` exactly when there is no `&`-separated second part or either part lacks a `:` followed by a `,`; otherwise the two coordinate pairs as `parseInt` reads them |
| TsHelpers.GameStateRoundTrip | src/app/games/algorithms/helper/helper_function.ts:8-29 | parsing the game-state string written for any four integers gives those integers back |
| TsMaze.OpenIff | src/app/games/algorithms/dfs.ts:35-41 | a cell is open to the TS searches exactly when it is inside the grid and holds `' '` |
| TsDfs.DfsAlgorithm | src/app/games/algorithms/dfs.ts:4-55 | returns a parent map exactly when the target is reachable; the map is a tree rooted at the start, containing the target unless the target is the start, and its keys are the pushed cells other than the start |
| TsBestFirst.KeyedAfterEnqueue | src/app/games/algorithms/best-first.ts:41-43 | every queued cell keeps its Manhattan distance to the target as its priority |
| TsBestFirst.BestFirstAlgorithm | src/app/games/algorithms/best-first.ts:5-54 | a parent map exactly when the target is reachable, with the same tree facts as the depth-first search |
| TsAStar.AStarAlgorithm | src/app/games/algorithms/astar.ts:5-65 | a parent map exactly when the target is reachable; besides the tree facts, the start has `g` 0, every linked cell has its parent's `g` plus one, and every cell can be reached from the start in at most its `g` moves |
| TsFindPath.ChainIsWalk | src/app/games/algorithms/find-path.ts:97-113 | on a search tree, the last parent link of the rebuilt path reaches the start, so the pushed cells read backwards are a walk from the start to the target |
| TsFindPath.TsImplementation.constructor | src/app/games/algorithms/find-path.ts:27-32 | stores the maze, the start and the target |
| TsFindPath.TsImplementation.ReconstructPath | src/app/games/algorithms/find-path.ts:97-113 | false with an empty path when there is no parent map; otherwise true, and the path holds the target and its ancestors while they have a parent entry, then the start pushed once |
| TsFindPath.TsImplementation.FindPath | src/app/games/algorithms/find-path.ts:35-47 | an invalid-algorithm answer exactly for an unknown name; for depth-first, best-first and A*, a path is reconstructed exactly when the target is reachable |
| RustGrid.OpenIff | src/app/games/hello-wasm/src/pathfinding/dfs.rs:44-49 | a cell is open to the Rust searches exactly when it is within the bounds and is a `Path` cell |
| RustGrid.WrapI32 | src/app/games/hello-wasm/src/pathfinding/astar.rs:75-80 | `as i32` and wrapping `i32` arithmetic: congruent to the exact value modulo 2^32, and equal to it when it fits |
| RustGrid.RustHeuristicExact | src/app/games/hello-wasm/src/pathfinding/astar.rs:75-80 | for coordinates below 2^30 the `i32` heuristic is the Manhattan distance |
| RustGrid.RustHeuristicWraps | src/app/games/hello-wasm/src/pathfinding/mod.rs:25 | for two cells 2^30 apart in each coordinate the `i32` sum wraps to a negative heuristic |
| RustGrid.FoundDiffers | src/app/games/hello-wasm/src/pathfinding/dfs.rs:33-36 | the "found" answers never coincide with the "not reachable" answers |
| RustParse.RowCellsOk | src/app/games/hello-wasm/src/lib.rs:286-294 | a line parses exactly when every character is `'*'` or `' '`, and `'*'` becomes `Wall` and `' '` becomes `Path` |
| RustParse.RowCellsErr | src/app/games/hello-wasm/src/lib.rs:291-292 | a bad line's error names its first character that is neither `'*'` nor `' '` |
| RustParse.RowsOfShape | src/app/games/hello-wasm/src/lib.rs:281-301 | every error begins with "Invalid maze data!", and every parsed row is non-empty because lines that are empty after trimming are skipped |
| RustParse.ParseMaze | src/app/games/hello-wasm/src/lib.rs:281-301 | the loop computes the maze `MazeOf` defines: the trimmed non-empty lines parsed cell by cell, or the first line's error |
| RustParse.ReadRow | src/app/games/hello-wasm/src/lib.rs:286-294 | the inner loop computes the row `RowCells` defines |
| RustParse.ParseMazeText | src/app/games/hello-wasm/src/lib.rs:281-301 | printing a grid whose rows begin and end with a wall and parsing the text gives the grid back |
| RustParse.EdgePathTrimmed | src/app/games/hello-wasm/src/lib.rs:284 | a path cell at the edge of a line is trimmed away: `" *"` parses as a single wall |
| RustBfs.BreadthFirst | src/app/games/hello-wasm/src/lib.rs:169-221 | finds the target exactly when it is reachable; the parent map is a tree rooted at the start whose depths are the exact shortest distances |
| RustMaze.ChainWalk | src/app/games/hello-wasm/src/lib.rs:226-237 | the chain from the target, closed by the start and reversed, is a walk from the start to the target that is one cell longer than the target's depth |
| RustMaze.ShortestWalk | src/app/games/hello-wasm/src/lib.rs:169-221 | a walk one cell longer than the exact depth of its end is as short as any walk to that cell |
| RustMaze.MazeState.constructor | src/app/games/hello-wasm/src/lib.rs:74-80 | the struct with the parsed maze and every player at (0, 0) |
| RustMaze.FirstSuitable | src/app/games/hello-wasm/src/lib.rs:117-132 | nothing exactly when no draw gives a free path cell; otherwise the cell of the first draw that does |
| RustMaze.Placement | src/app/games/hello-wasm/src/lib.rs:83-86 | when both draws succeed, the target and the computer player are on two different path cells, neither at (0, 0) |
| RustMaze.MazeState.New | src/app/games/hello-wasm/src/lib.rs:70-89 | a parse error is passed on; otherwise Ok exactly when both draws succeed, with the target the first suitable cell of its draws and the computer player the first suitable cell of its own draws given that target, and the "no suitable position" text when either fails |
| RustMaze.MazeState.DrawPlayers | src/app/games/hello-wasm/src/lib.rs:83-86 | draws the target, then the computer player given that target; Ok exactly when both draws find a suitable cell, and then the players are on those cells |
| RustMaze.MazeState.GenerateRandomTarget | src/app/games/hello-wasm/src/lib.rs:117-132 | the first suitable cell of the draws, or the "no suitable position" error exactly when none of the 50 draws is a free path cell |
| RustMaze.MazeState.ReconstructPath | src/app/games/hello-wasm/src/lib.rs:226-237 | follows the parent links from the target, appends the computer player and reverses |
| RustMaze.MazeState.FindPathWithBfs | src/app/games/hello-wasm/src/lib.rs:169-221 | the found text exactly when the target is reachable, else the not-reachable text; the reconstructed path is a walk from the computer player to the target that is no longer than any other |
| RustDfs.FindPath | src/app/games/hello-wasm/src/pathfinding/dfs.rs:9-63 | the found text exactly when the target is reachable, else the not-reachable text; on success the parent map is a tree rooted at the start that contains the target |
| RustBfsSolver.FindPath | src/app/games/hello-wasm/src/maze/pathfinding/bfs.rs:10-67 | when the target is reachable, the found text with the delay if `reconstruct_path` succeeds and its error if it fails; otherwise the not-reachable text |
| RustHeap.Pop | src/app/games/hello-wasm/src/maze/pathfinding/best_first.rs:38-39 | `BinaryHeap::pop` over reversed entries: `None` exactly when empty, otherwise the unique least entry, removed |
| RustHeap.ExistsLeast | src/app/games/hello-wasm/src/pathfinding/astar.rs:38-39 | every non-empty heap has a least entry in the lexicographic order of `(f, x, y)` |
| RustBestFirst.KeyedPop | src/app/games/hello-wasm/src/maze/pathfinding/best_first.rs:56-59 | every queued entry carries its cell's heuristic as the key, also after a pop |
| RustBestFirst.FindPath | src/app/games/hello-wasm/src/maze/pathfinding/best_first.rs:14-72 | when the target is reachable, the A* path's answer is passed on; otherwise "Target not reachable!" |
| RustAstar.ScoreStep | src/app/games/hello-wasm/src/pathfinding/astar.rs:55-61 | recording a better tentative score keeps every cell reachable within its score and strictly lowers the termination measure |
| RustAstar.ExhaustedUnreachable | src/app/games/hello-wasm/src/pathfinding/astar.rs:38-71 | once the heap is empty and every scored cell is relaxed, the target is unreachable |
| RustAstar.TargetOptimal | src/app/games/hello-wasm/src/pathfinding/astar.rs:39-42 | with sides up to 2^30, the target's `g` score when it is popped is its shortest distance from the start |
| RustAstar.FindPath | src/app/games/hello-wasm/src/pathfinding/astar.rs:15-73 | the path's answer exactly when the target is reachable, else "Target not reachable!"; every cell can be reached in at most its score's moves, every parent link goes to a neighbour with a smaller score, and for sides up to 2^30 the target's score is its shortest distance |
| Conway.IndexOnto | src/app/games/hello-wasm/src/conway_gol/mod.rs:54-56 | `get_index` is a bijection from the positions of the grid onto `0 .. width*height` |
| Conway.LiveAroundIsNeighbours | src/app/games/hello-wasm/src/conway_gol/mod.rs:58-75 | on a torus at least 3 by 3, the wrapped count is the number of distinct live neighbours |
| Conway.NextState | src/app/games/hello-wasm/src/conway_gol/mod.rs:118-133 | a cell lives next exactly when it has 3 live neighbours, or 2 live neighbours and is alive now |
| Conway.NextGenUnique | src/app/games/hello-wasm/src/conway_gol/mod.rs:111-156 | the next generation is determined by the current one |
| Conway.TouchedMeans | src/app/games/hello-wasm/src/conway_gol/mod.rs:136-148 | a position is marked changed exactly when it is a flipped cell or one of a flipped cell's neighbours |
| Conway.Universe.constructor | src/app/games/hello-wasm/src/conway_gol/mod.rs:81-109 | the given cells, an all-dead second buffer, and every position marked changed |
| Conway.Universe.AllCells | src/app/games/hello-wasm/src/conway_gol/mod.rs:96-100 | the nested loops insert every position of the grid |
| Conway.Universe.LiveNeighborCount | src/app/games/hello-wasm/src/conway_gol/mod.rs:58-75 | the wrapped count of live neighbours, at most 8 |
| Conway.Universe.Tick | src/app/games/hello-wasm/src/conway_gol/mod.rs:111-156 | the buffers are swapped, the current cells are the next generation of the old ones, and exactly the flipped cells and their neighbours are added to the changed set |
| Conway.Universe.ToggleCell | src/app/games/hello-wasm/src/conway_gol/mod.rs:184-202 | exactly the one cell is flipped, and it and its eight wrapped neighbours are marked changed |
| Conway.ToggleTwice | src/app/games/hello-wasm/src/conway_gol/mod.rs:184-189 | toggling a cell twice restores the grid |
| Conway.Universe.Clear | src/app/games/hello-wasm/src/conway_gol/mod.rs:205-216 | both buffers are all dead and every position is marked changed |
| Conway.Universe.ChangedCells | src/app/games/hello-wasm/src/conway_gol/mod.rs:174-181 | the flat list has two numbers per changed position and lists exactly the changed set |
| Conway.Universe.PlacePattern | src/app/games/hello-wasm/src/conway_gol/mod.rs:231-243 | the cells become the `Painted` grid: the pattern's cells inside the grid are set alive, and nothing else changes |
| Conway.PaintedShows | src/app/games/hello-wasm/src/conway_gol/mod.rs:231-243 | the painted grid shows every placed cell alive and keeps every other cell |
| Conway.Universe.LoadPatterns | src/app/games/hello-wasm/src/conway_gol/mod.rs:218-251 | the error exactly when the position list has odd length; the live cells are exactly the stamped pattern cells of the complete pairs; the second buffer is dead and every position is marked changed |
| EvadeDuck.WrapU16 | src/app/games/hello-wasm/src/evade_duck/mod.rs:54-61 | wrapping `u16` arithmetic: below 2^16, unchanged inside the range, with -1 wrapping to 65535 |
| EvadeDuck.PackCo | src/app/games/hello-wasm/src/evade_duck/mod.rs:37-43 | the shift and or of `get_duck_co` give `x * 2^16 + y`, a `u32` |
| EvadeDuck.Fall | src/app/games/hello-wasm/src/evade_duck/mod.rs:73-85 | the duck moves one step down and is held at `height - 50` once it reaches that line |
| EvadeDuck.LeftRight | src/app/games/hello-wasm/src/evade_duck/mod.rs:54-61 | a step left and a step right cancel, even across the wrap-around |
| EvadeDuck.DuckGame.constructor | src/app/games/hello-wasm/src/evade_duck/mod.rs:15-35 | the statics' initial values |
| EvadeDuck.DuckGame.SetCanvasDimensions | src/app/games/hello-wasm/src/evade_duck/mod.rs:18-23 | stores both sizes and changes nothing else |
| EvadeDuck.DuckGame.SetUserInput | src/app/games/hello-wasm/src/evade_duck/mod.rs:49-69 | code 1 steps left, 2 steps right, 3 only records the code, and any other code records 1; `y` never changes |
| EvadeDuck.DuckGame.ApplyGravity | src/app/games/hello-wasm/src/evade_duck/mod.rs:73-85 | `y` becomes `Fall(y, height)` and nothing else changes |
| EvadeDuck.DuckGame.GetDuckCo | src/app/games/hello-wasm/src/evade_duck/mod.rs:37-43 | applies gravity, then returns the packed coordinates |
| DuckCo.ExtractDuckCo | src/app/games/revised-duck-hunt/utils/helper_function.ts:15-19 | both halves are `u16` values, `y` is the low 16 bits, and for a `u32` the halves recombine to the input |
| DuckCo.ExtractPacked | src/app/games/revised-duck-hunt/utils/helper_function.ts:15-19 | unpacking what `get_duck_co` packs gives the duck's coordinates back |
| DuckCo.PackExtracted | src/app/games/revised-duck-hunt/utils/helper_function.ts:15-19 | packing what the page unpacked from a `u32` gives the `u32` back |
| DuckLogic.InitialDuck | src/app/games/revised-duck-hunt/hooks/useDuckLogic.ts:28-43 | the initial state is on the canvas, with no boost and no timeout |
| DuckLogic.KeyDown | src/app/games/revised-duck-hunt/hooks/useDuckLogic.ts:47-122 | a pending timeout is cleared; a double tap arms a burst and forgets the tap; another arrow is remembered and starts the sustained-press clock; any other key ends the boost; the motion is untouched |
| DuckLogic.BurstEnds | src/app/games/revised-duck-hunt/hooks/useDuckLogic.ts:83-90 | the timeout ends the boost and nothing else changes |
| DuckLogic.KeyUp | src/app/games/revised-duck-hunt/hooks/useDuckLogic.ts:125-149 | releasing an arrow ends a sustained boost, or a pending burst whose timeout it clears; otherwise the state is unchanged |
| DuckLogic.KeyUpIdempotent | src/app/games/revised-duck-hunt/hooks/useDuckLogic.ts:125-149 | releasing the same key twice acts like releasing it once |
| DuckLogic.NoTripleTap | src/app/games/revised-duck-hunt/hooks/useDuckLogic.ts:92-94 | a third quick tap after a double tap counts as a first tap, not as another double tap |
| DuckLogic.SustainedBoost | src/app/games/revised-duck-hunt/hooks/useDuckLogic.ts:184-190 | the boost turns on only when an arrow has been held for the threshold, and is never turned off here |
| DuckLogic.Relax | src/app/games/revised-duck-hunt/hooks/useDuckLogic.ts:234-235 | the incline moves towards level by `GRAVITY / 5` without crossing it |
| DuckLogic.Steer | src/app/games/revised-duck-hunt/hooks/useDuckLogic.ts:194-258 | space flaps with a fixed push and tilt; otherwise gravity pulls, the flap timer runs down, and the arrows set the direction and speed, which doubles while boosting |
| DuckLogic.ClampVelocityY | src/app/games/revised-duck-hunt/hooks/useDuckLogic.ts:261-262 | the vertical speed is clamped to [-5, 5] |
| DuckLogic.Bound | src/app/games/revised-duck-hunt/hooks/useDuckLogic.ts:265-292 | the position stays on the canvas, and leaving it stops that axis's velocity |
| DuckLogic.Sprite | src/app/games/revised-duck-hunt/hooks/useDuckLogic.ts:295-316 | while flapping the frame advances by one modulo 4 when the timer is a multiple of the period (15 while boosting, else 20) and stays otherwise; while gliding it is the glide frame of the direction |
| DuckLogic.UpdateDuck | src/app/games/revised-duck-hunt/hooks/useDuckLogic.ts:164-333 | the duck stays on the canvas with a bounded vertical speed; direction, animation and incline are the steering's; a left or right edge puts the duck on it, stops it and ends the boost; a top or bottom edge puts it on the edge with no vertical speed; the sprite advances on the new timer; the key tracking is untouched |
| DuckLogic.RestsOnFloor | src/app/games/revised-duck-hunt/hooks/useDuckLogic.ts:283-292 | a duck on the bottom edge that is not rising and has no key held stays on the edge with no vertical speed |
| DuckLogic.UpdatesKeepSane | src/app/games/revised-duck-hunt/hooks/useDuckLogic.ts:47-333 | every updater keeps the duck on the canvas with a valid sprite and bounded speed |
| Timeline.MonthDifference | src/app/resume/component/time-line.tsx:10-20 | the number of months between the two dates, with `'current'` meaning now |
| Timeline.MonthDifferenceDistance | src/app/resume/component/time-line.tsx:10-20 | zero from a date to itself, negated when the dates are swapped, and additive along a chain of dates |
| Timeline.Visibility | src/app/resume/component/time-line.tsx:134-144 | hidden above the top or beyond the threshold, fully shown inside the body, and fading linearly in between; always in [0, 1] |
| Timeline.VisibilityGrows | src/app/resume/component/time-line.tsx:134-144 | a taller body never makes an item less visible |
| Timeline.ScrollProgress | src/app/resume/component/time-line.tsx:90-95 | the scrolled share, clamped to [0, 1] |
| Timeline.ScrollProgressMonotone | src/app/resume/component/time-line.tsx:90-95 | scrolling further down never lowers the progress |
| Timeline.NearestIndex | src/app/resume/component/time-line.tsx:420-437 | a key at least as near as every key and strictly nearer than every earlier one |
| Timeline.GetColorForScroll | src/app/resume/component/time-line.tsx:420-437 | the default colour when there are no keys; otherwise the colour and height of the nearest key, ties going to the first |
| Carousel.NextImage | src/app/drawings/page.tsx:13-15 | the next index, wrapping from the last image to the first |
| Carousel.PrevImage | src/app/drawings/page.tsx:17-21 | the previous index, wrapping from the first image to the last |
| Carousel.NextPrevInverse | src/app/drawings/page.tsx:13-21 | next and previous undo each other |
| Carousel.FullCircle | src/app/drawings/page.tsx:13-15 | stepping forward once per image returns to the start |

## Left out

- The `MazeState` of `crate::maze`, which the maze-module solvers read, is not part of this model. `RustBfsSolver.FindPath` and `RustBestFirst.FindPath` read the fields they use (`maze_grid`, `computer_player` and `target`) from the `MazeState` modelled from `lib.rs`.
- The `reconstruct_path` of `crate::maze` is not part of this model. `RustBfsSolver.FindPath` takes the answer it would give as a parameter, so its failure is passed on as the source's `?` does.
- The TypeScript `./bfs` search is not part of this model, so `TsFindPath.TsImplementation.FindPath` takes its result as a parameter.
- `reconstruct_path_astar` is not part of this model. `RustBestFirst.FindPath` and `RustAstar.FindPath` take the answer it would give as a parameter.
- The Rust `visited` and `parent` grids (`Vec<Vec<bool>>` and `Vec<Vec<Option<(usize, usize)>>>`) are modelled as a set and a map of cells.
- Canvas drawing, cell colouring, console logging and the `sleep` between pushes are left out. The delay only appears in the answer text.
- Rust searches require a rectangular, non-empty grid, an in-bounds start and sides below 2^31. The code would panic or cast out of range otherwise.
- TypeScript searches require a non-empty grid, because `grid[0].length` would throw. Ragged rows are allowed, and a missing cell counts as a wall.
- `RustMaze.MazeState.New` requires that a parsed maze is rectangular, as the searches it feeds do.
- Random numbers come in as parameters: the draws of `generate_random_target` and the initial cells of `Universe::new`.
- `RustAstar.TargetOptimal`: optimality is proved only for sides up to 2^30. Beyond that the `i32` heuristic can wrap (`RustGrid.RustHeuristicWraps`).
- Floating-point `f64` scores and JavaScript numbers are modelled as exact integers or reals, with no rounding.
- `usize` overflow in Conway's `start + offset` and in `row * width` is not modelled.
- Conway.Universe.ToggleCell: a toggle at a position outside the grid panics in the source on the out-of-range index. The requires excludes that case, so the panic is not modelled.
- Conway's `width()`, `height()` and `cells()` getters are left out. They only expose fields.
- The `pattern_width` and `pattern_height` arguments of `load_multiple_patterns_flat` are unused by the code and therefore not modelled.
- The evade-duck `Mutex` and `LazyLock` globals are the fields of one object. Their locking is not modelled.
- The `u16` and `u32` wrap-around of the evade-duck module is that of a release build, where overflow checks are off.
- `DUCK_SPEED` in the evade-duck module is never read, so it is not modelled.
- `DuckLogic.KeyDown`: the clock, the timeout id and the incline angle `Math.PI / 10` are parameters. React's batching of state updates is not modelled.
- `DuckCo.ExtractDuckCo` handles only integer inputs. Fractional JavaScript numbers are left out.
- `Timeline.ScrollProgress` requires the two heights to differ. JavaScript would produce `NaN` or `Infinity` there.
- Timeline dates are reduced to year and month, with no date parsing and no time zones.
- The enumeration order of the colour keys is a parameter of `Timeline.GetColorForScroll`.
- The year-divider rendering, the scroll throttle and the component state of the timeline are left out.
- `Carousel.NextImage` and `Carousel.PrevImage` require at least one image.
- The `useInput` and `useGameLoop` hooks only forward browser events and animation frames, so they are left out.
