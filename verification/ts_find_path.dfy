/** `ts_implementation`: the object the maze page builds around one maze, a
    start and a target. `find_path` runs the search the page asked for and
    walks the returned parent table back from the target. The canvas it also
    holds is only drawn on and is not modelled. */
module TsFindPath {
  import opened Wrappers
  import opened Grid
  import opened SearchCore
  import opened TsMaze
  import opened TsDfs
  import opened TsBestFirst
  import opened TsAStar

  /** What `find_path` resolves to: the boolean of `recontruct_path`, or the
      string `'Invalid algorithm'`. */
  datatype FindResult = Reconstructed(found: bool) | InvalidAlgorithm

  /** The algorithm names `find_path` dispatches on. */
  predicate KnownAlgorithm(algorithm: string)
  {
    algorithm == "BFS" || algorithm == "DFS" || algorithm == "BestFirst" || algorithm == "AStar"
  }

  /** The cells of a reconstructed path as the loop pushes them: the target,
      then each parent in turn while the cell pushed last has an entry, and
      finally the start in place of the first cell without one. */
  ghost predicate ParentChain(parent: map<Pos, Pos>, target: Pos, start: Pos, path: seq<Pos>)
  {
    && |path| >= 1
    && path[|path| - 1] == start
    && (forall k :: 0 <= k < |path| - 1 ==> path[k] in parent)
    && (forall k :: 0 <= k < |path| - 2 ==> path[k + 1] == parent[path[k]])
    && (|path| == 1 ==> target !in parent)
    && (|path| >= 2 ==> path[0] == target && parent[path[|path| - 2]] !in parent)
  }

  /** On a parent table left by a search, the first cell without an entry is
      the start itself, so the pushed path, read backwards, is a walk of open
      cells from the start to the target. */
  lemma {:induction false} ChainIsWalk(open: set<Pos>, parent: map<Pos, Pos>, depth: map<Pos, nat>,
                                       target: Pos, start: Pos, path: seq<Pos>)
    requires ParentTree(open, start, parent, depth)
    requires target == start || target in parent
    requires ParentChain(parent, target, start, path)
    ensures |path| >= 2 ==> parent[path[|path| - 2]] == start
    ensures var w := Reverse(path); IsWalk(open, w) && w[0] == start && w[|w| - 1] == target
  {
    var w := Reverse(path);
    if |path| == 1 {
      assert w == [start] && target == start;
    } else {
      var m := |path| - 2;
      assert path[m] in parent && parent[path[m]] !in parent;
      assert parent[path[m]] == start;
      forall i: nat | i + 1 < |w| ensures WalkStep(open, w, i) {
        var k := m - i;
        assert w[i + 1] == path[k] && path[k] in parent;
        if i == 0 {
          assert w[i] == start;
        } else {
          assert w[i] == path[k + 1] == parent[path[k]];
        }
      }
    }
  }

  class TsImplementation {
    var mazeGrid: seq<seq<char>>
    var start: Pos
    var target: Pos

    constructor (mazeGrid: seq<seq<char>>, start: Pos, target: Pos)
      ensures this.mazeGrid == mazeGrid && this.start == start && this.target == target
    {
      this.mazeGrid := mazeGrid;
      this.start := start;
      this.target := target;
    }

    /** `recontruct_path`: false for a `null` table; otherwise follows parent
        links from the target while the current cell has an entry, pushing
        each cell, then pushes the start and answers true. The path it builds
        is returned beside the answer. `depth` ranks the table so the walk
        stops; every table a search returns has one. */
    method ReconstructPath(parent: Option<map<Pos, Pos>>, target: Pos, ghost depth: map<Pos, nat>)
      returns (ok: bool, path: seq<Pos>)
      requires parent.Some? ==> Ranked(parent.value, depth)
      ensures ok <==> parent.Some?
      ensures !ok ==> path == []
      ensures ok ==> ParentChain(parent.value, target, start, path)
    {
      if parent.None? {
        return false, [];
      }
      var links := parent.value;
      path := [];
      var current := target;
      while current in links
        invariant |path| > 0 ==> path[0] == target
        invariant |path| == 0 ==> current == target
        invariant |path| > 0 ==> path[|path| - 1] in links && current == links[path[|path| - 1]]
        invariant forall k :: 0 <= k < |path| - 1 ==> path[k] in links && path[k + 1] == links[path[k]]
        decreases if current in depth then depth[current] else 0
      {
        path := path + [current];
        current := links[current];
      }
      path := path + [start];
      return true, path;
    }

    /** `find_path`: dispatches on the algorithm name and reconstructs the
        path from the table the search returns. The BFS search is not part
        of this model: its result and a ranking of it come in as
        parameters. */
    method FindPath(algorithm: string, bfsResult: Option<map<Pos, Pos>>, ghost bfsDepth: map<Pos, nat>)
      returns (res: FindResult)
      requires algorithm == "DFS" || algorithm == "BestFirst" || algorithm == "AStar" ==> |mazeGrid| > 0
      requires algorithm == "BFS" && bfsResult.Some? ==> Ranked(bfsResult.value, bfsDepth)
      ensures res == InvalidAlgorithm <==> !KnownAlgorithm(algorithm)
      ensures algorithm == "BFS" ==> res == Reconstructed(bfsResult.Some?)
      ensures algorithm == "DFS" || algorithm == "BestFirst" || algorithm == "AStar" ==>
                (res == Reconstructed(true) <==> Reachable(Open(mazeGrid), start, target))
      ensures res.Reconstructed? ==> KnownAlgorithm(algorithm)
    {
      var parent: Option<map<Pos, Pos>>;
      ghost var depth: map<Pos, nat>;
      if algorithm == "BFS" {
        parent, depth := bfsResult, bfsDepth;
      } else if algorithm == "DFS" {
        ghost var pushes;
        parent, depth, pushes := DfsAlgorithm(mazeGrid, start, target);
      } else if algorithm == "BestFirst" {
        ghost var pushes;
        parent, depth, pushes := BestFirstAlgorithm(mazeGrid, start, target);
      } else if algorithm == "AStar" {
        ghost var pushes;
        parent, depth, pushes := AStarAlgorithm(mazeGrid, start, target);
      } else {
        return InvalidAlgorithm;
      }
      var ok, path := ReconstructPath(parent, target, depth);
      return Reconstructed(ok);
    }
  }
}
