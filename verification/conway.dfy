/** The Game of Life `Universe` of `conway_gol/mod.rs`: a toroidal grid of
    `width * height` cells stored row-major in a `Vec<Cell>`, a second buffer
    `next_cells` that `tick` fills from the current generation before the two
    are swapped, and the set `changed_cells` of positions the page has to
    redraw. The vectors are arrays here (their length never changes), the
    `HashSet` is a set. */
module Conway {
  import opened Wrappers
  import opened Arith

  /** `#[repr(u8)] enum Cell { Dead = 0, Alive = 1 }`. */
  datatype Cell = Dead | Alive

  /** `Position { row, column }`, also used for the `(row, col)` pairs of a
      flat `Vec<usize>`. */
  datatype Position = Position(row: nat, column: nat)

  /** `cell as u8`. */
  function Weight(c: Cell): (n: nat)
    ensures n <= 1 && (n == 1 <==> c == Alive)
  {
    match c
    case Dead => 0
    case Alive => 1
  }

  // ----- get_index -----

  /** `width * height`, the length of both cell vectors, built up row by row
      so that the solver sees only sums. */
  function Area(w: nat, h: nat): nat
  {
    if h == 0 then 0 else Area(w, h - 1) + w
  }

  /** `get_index(row, column) = row * width + column`: `row` full rows, then
      `column` cells. */
  function Index(w: nat, row: nat, column: nat): nat
  {
    Area(w, row) + column
  }

  lemma {:induction false} AreaIsProduct(w: nat, h: nat)
    ensures Area(w, h) == w * h
  {
    if h > 0 {
      AreaIsProduct(w, h - 1);
    }
  }

  /** A longer grid has at least one more row's worth of cells. */
  lemma {:induction false} AreaMono(w: nat, r: nat, h: nat)
    requires r < h
    ensures Area(w, r) + w <= Area(w, h)
  {
    if r < h - 1 {
      AreaMono(w, r, h - 1);
    }
  }

  /** A non-empty grid has at least one row and one column. */
  lemma {:induction false} AreaPositive(w: nat, h: nat)
    requires Area(w, h) > 0
    ensures w >= 1 && h >= 1
  {
    if w == 0 {
      AreaOfZero(h);
    }
  }

  lemma {:induction false} AreaOfZero(h: nat)
    ensures Area(0, h) == 0
  {
    if h > 0 {
      AreaOfZero(h - 1);
    }
  }

  /** Inside the grid the index lands in `[0, width*height)`. */
  lemma IndexInRange(w: nat, h: nat, row: nat, column: nat)
    requires row < h && column < w
    ensures Index(w, row, column) < Area(w, h)
  {
    AreaMono(w, row, h);
  }

  /** `get_index` is one-to-one on the grid. */
  lemma IndexInjective(w: nat, h: nat, r1: nat, c1: nat, r2: nat, c2: nat)
    requires r1 < h && c1 < w && r2 < h && c2 < w
    requires Index(w, r1, c1) == Index(w, r2, c2)
    ensures r1 == r2 && c1 == c2
  {
    if r1 < r2 {
      AreaMono(w, r1, r2);
    } else if r2 < r1 {
      AreaMono(w, r2, r1);
    }
  }

  /** Division by the width recovers row and column from an index. */
  lemma IndexDiv(w: nat, row: nat, column: nat)
    requires column < w
    ensures Index(w, row, column) / w == row && Index(w, row, column) % w == column
  {
    AreaIsProduct(w, row);
    DivMod(Index(w, row, column), w, row, column);
  }

  /** Every index below `width*height` is the index of exactly one in-grid
      position: the one its quotient and remainder by the width name. */
  lemma {:induction false} IndexOnto(w: nat, h: nat, i: nat)
    requires i < Area(w, h)
    ensures 0 < w && i / w < h && i % w < w && Index(w, i / w, i % w) == i
    decreases h
  {
    AreaPositive(w, h);
    if i < Area(w, h - 1) {
      IndexOnto(w, h - 1, i);
    } else {
      IndexDiv(w, h - 1, i - Area(w, h - 1));
    }
  }

  /** The cell at `(row, column)`: `cells[get_index(row, column)]`. */
  function CellAt(s: seq<Cell>, w: nat, h: nat, row: nat, column: nat): Cell
    requires |s| == Area(w, h) && row < h && column < w
  {
    IndexInRange(w, h, row, column);
    s[Index(w, row, column)]
  }

  // ----- live_neighbor_count -----

  /** `[n - 1, 0, 1]`: the unsigned offsets the loops add before `% n`. */
  function Deltas(n: nat): seq<nat>
    requires n >= 1
  {
    [n - 1, 0, 1]
  }

  /** What the pass with `delta_row = Deltas(h)[a]` and `delta_col =
      Deltas(w)[b]` adds: nothing when both offsets are 0, otherwise the
      wrapped neighbour `as u8`. */
  function Term(s: seq<Cell>, w: nat, h: nat, row: nat, column: nat, a: nat, b: nat): (n: nat)
    requires |s| == Area(w, h) && row < h && column < w && a < 3 && b < 3
    ensures n <= 1
  {
    var dr := Deltas(h)[a];
    var dc := Deltas(w)[b];
    if dr == 0 && dc == 0 then 0
    else Weight(CellAt(s, w, h, (row + dr) % h, (column + dc) % w))
  }

  /** The count added by the first `b` passes of the inner loop for the row
      offset `Deltas(h)[a]`. */
  function ColsCount(s: seq<Cell>, w: nat, h: nat, row: nat, column: nat, a: nat, b: nat): nat
    requires |s| == Area(w, h) && row < h && column < w && a < 3 && b <= 3
  {
    if b == 0 then 0 else ColsCount(s, w, h, row, column, a, b - 1) + Term(s, w, h, row, column, a, b - 1)
  }

  /** The count after the first `a` passes of the outer loop. */
  function RowsCount(s: seq<Cell>, w: nat, h: nat, row: nat, column: nat, a: nat): nat
    requires |s| == Area(w, h) && row < h && column < w && a <= 3
  {
    if a == 0 then 0 else RowsCount(s, w, h, row, column, a - 1) + ColsCount(s, w, h, row, column, a - 1, 3)
  }

  /** The value of `live_neighbor_count(row, column)`. */
  function LiveAround(s: seq<Cell>, w: nat, h: nat, row: nat, column: nat): nat
    requires |s| == Area(w, h) && row < h && column < w
  {
    RowsCount(s, w, h, row, column, 3)
  }

  /** The middle pass, offsets (0, 0), adds nothing. */
  lemma {:induction false} ColsBound(s: seq<Cell>, w: nat, h: nat, row: nat, column: nat, a: nat, b: nat)
    requires |s| == Area(w, h) && row < h && column < w && a < 3 && b <= 3
    ensures ColsCount(s, w, h, row, column, a, b) <= (if a == 1 && b > 1 then b - 1 else b)
  {
    if b > 0 {
      ColsBound(s, w, h, row, column, a, b - 1);
    }
  }

  lemma {:induction false} RowsBound(s: seq<Cell>, w: nat, h: nat, row: nat, column: nat, a: nat)
    requires |s| == Area(w, h) && row < h && column < w && a <= 3
    ensures RowsCount(s, w, h, row, column, a) <= (if a > 1 then 3 * a - 1 else 3 * a)
  {
    if a > 0 {
      RowsBound(s, w, h, row, column, a - 1);
      ColsBound(s, w, h, row, column, a - 1, 3);
    }
  }

  /** At most 8 neighbours are counted. */
  lemma LiveAroundBound(s: seq<Cell>, w: nat, h: nat, row: nat, column: nat)
    requires |s| == Area(w, h) && row < h && column < w
    ensures LiveAround(s, w, h, row, column) <= 8
  {
    RowsBound(s, w, h, row, column, 3);
  }

  /** The toroidal neighbour with signed offsets `a - 1` and `b - 1`;
      `(1, 1)` is the cell itself. */
  function Neighbour(w: nat, h: nat, row: nat, column: nat, a: nat, b: nat): Position
    requires w >= 1 && h >= 1
  {
    Position((row + a - 1) % h, (column + b - 1) % w)
  }

  predicate IsLive(s: seq<Cell>, w: nat, h: nat, p: Position)
    requires |s| == Area(w, h)
  {
    p.row < h && p.column < w && CellAt(s, w, h, p.row, p.column) == Alive
  }

  /** The live cells among the eight toroidal neighbours. */
  ghost function LiveNeighbours(s: seq<Cell>, w: nat, h: nat, row: nat, column: nat): set<Position>
    requires |s| == Area(w, h) && w >= 1 && h >= 1
  {
    set a: nat, b: nat | a < 3 && b < 3 && !(a == 1 && b == 1) && IsLive(s, w, h, Neighbour(w, h, row, column, a, b))
      :: Neighbour(w, h, row, column, a, b)
  }

  /** The live neighbours with row offset `a - 1` and column offset below
      `b - 1`, gathered in loop order. */
  ghost function LiveInRow(s: seq<Cell>, w: nat, h: nat, row: nat, column: nat, a: nat, b: nat): set<Position>
    requires |s| == Area(w, h) && w >= 1 && h >= 1
  {
    if b == 0 then {}
    else
      var p := Neighbour(w, h, row, column, a, b - 1);
      LiveInRow(s, w, h, row, column, a, b - 1) + (if !(a == 1 && b - 1 == 1) && IsLive(s, w, h, p) then {p} else {})
  }

  /** The live neighbours with row offset below `a - 1`. */
  ghost function LiveInRows(s: seq<Cell>, w: nat, h: nat, row: nat, column: nat, a: nat): set<Position>
    requires |s| == Area(w, h) && w >= 1 && h >= 1
  {
    if a == 0 then {} else LiveInRows(s, w, h, row, column, a - 1) + LiveInRow(s, w, h, row, column, a - 1, 3)
  }

  lemma {:induction false} LiveInRowMeans(s: seq<Cell>, w: nat, h: nat, row: nat, column: nat, a: nat, b: nat, p: Position)
    requires |s| == Area(w, h) && w >= 1 && h >= 1
    ensures p in LiveInRow(s, w, h, row, column, a, b) <==>
            exists b': nat :: b' < b && !(a == 1 && b' == 1) && IsLive(s, w, h, p) && p == Neighbour(w, h, row, column, a, b')
  {
    if b > 0 {
      LiveInRowMeans(s, w, h, row, column, a, b - 1, p);
    }
  }

  lemma {:induction false} LiveInRowsMeans(s: seq<Cell>, w: nat, h: nat, row: nat, column: nat, a: nat, p: Position)
    requires |s| == Area(w, h) && w >= 1 && h >= 1
    ensures p in LiveInRows(s, w, h, row, column, a) <==>
            exists a': nat, b': nat :: a' < a && b' < 3 && !(a' == 1 && b' == 1) && IsLive(s, w, h, p) && p == Neighbour(w, h, row, column, a', b')
  {
    if a > 0 {
      LiveInRowsMeans(s, w, h, row, column, a - 1, p);
      LiveInRowMeans(s, w, h, row, column, a - 1, 3, p);
    }
  }

  /** Adding `n - 1` modulo `n` steps back by one, and for `n >= 3` the
      three steps -1, 0, +1 reach three different cells. */
  lemma WrapSteps(i: nat, n: nat)
    requires i < n && n >= 3
    ensures (i + (n - 1)) % n == (i - 1) % n
    ensures (i + 0) % n == i
    ensures (i - 1) % n != i && (i + 1) % n != i && (i - 1) % n != (i + 1) % n
  {
    WrapBack(i, n);
    if i + 1 == n {
      DivMod(i + 1, n, 1, 0);
    } else {
      DivMod(i + 1, n, 0, i + 1);
    }
  }

  /** Adding `n - 1` modulo `n` is the signed step -1, and adding 0 leaves an
      in-range value alone. */
  lemma WrapBack(i: nat, n: nat)
    requires i < n
    ensures (i + (n - 1)) % n == (i - 1) % n == (if i == 0 then n - 1 else i - 1)
    ensures (i + 0) % n == i
  {
    DivMod(i, n, 0, i);
    if i == 0 {
      DivMod(n - 1, n, 0, n - 1);
      DivMod(-1, n, -1, n - 1);
    } else {
      DivMod(i + (n - 1), n, 1, i - 1);
      DivMod(i - 1, n, 0, i - 1);
    }
  }

  /** For `w, h >= 3` the pass `(a, b)` of the loops reads the toroidal
      neighbour with signed offsets `(a - 1, b - 1)`, and the middle pass
      reads nothing. */
  lemma TermIsNeighbour(s: seq<Cell>, w: nat, h: nat, row: nat, column: nat, a: nat, b: nat)
    requires |s| == Area(w, h) && row < h && column < w && a < 3 && b < 3 && w >= 3 && h >= 3
    ensures a == 1 && b == 1 ==> Term(s, w, h, row, column, a, b) == 0
    ensures !(a == 1 && b == 1) ==>
      Term(s, w, h, row, column, a, b) == (if IsLive(s, w, h, Neighbour(w, h, row, column, a, b)) then 1 else 0)
  {
    WrapSteps(row, h);
    WrapSteps(column, w);
  }

  /** For `w, h >= 3` different offsets reach different cells. */
  lemma NeighboursDistinct(w: nat, h: nat, row: nat, column: nat, a: nat, b: nat, a': nat, b': nat)
    requires row < h && column < w && w >= 3 && h >= 3 && a < 3 && b < 3 && a' < 3 && b' < 3
    requires a != a' || b != b'
    ensures Neighbour(w, h, row, column, a, b) != Neighbour(w, h, row, column, a', b')
  {
    WrapSteps(row, h);
    WrapSteps(column, w);
  }

  lemma AddFresh<T>(A: set<T>, p: T)
    requires p !in A
    ensures |A + {p}| == |A| + 1
  {
  }

  /** A neighbour is not among those gathered before its own pass. */
  lemma {:induction false} NotYetInRow(s: seq<Cell>, w: nat, h: nat, row: nat, column: nat, a: nat, k: nat, b: nat)
    requires |s| == Area(w, h) && row < h && column < w && w >= 3 && h >= 3 && a < 3 && k <= b < 3
    ensures Neighbour(w, h, row, column, a, b) !in LiveInRow(s, w, h, row, column, a, k)
  {
    if k > 0 {
      NotYetInRow(s, w, h, row, column, a, k - 1, b);
      NeighboursDistinct(w, h, row, column, a, k - 1, a, b);
    }
  }

  lemma {:induction false} NotYetInRows(s: seq<Cell>, w: nat, h: nat, row: nat, column: nat, k: nat, a: nat, b: nat)
    requires |s| == Area(w, h) && row < h && column < w && w >= 3 && h >= 3 && k <= a < 3 && b < 3
    ensures Neighbour(w, h, row, column, a, b) !in LiveInRows(s, w, h, row, column, k)
  {
    if k > 0 {
      NotYetInRows(s, w, h, row, column, k - 1, a, b);
      NeighboursDistinct(w, h, row, column, a, b, k - 1, 0);
      NeighboursDistinct(w, h, row, column, a, b, k - 1, 1);
      NeighboursDistinct(w, h, row, column, a, b, k - 1, 2);
      RowWithin(s, w, h, row, column, k - 1, 3);
    }
  }

  /** The live neighbours of pass `a` are among its three neighbours. */
  lemma {:induction false} RowWithin(s: seq<Cell>, w: nat, h: nat, row: nat, column: nat, a: nat, k: nat)
    requires |s| == Area(w, h) && w >= 1 && h >= 1 && k <= 3
    ensures LiveInRow(s, w, h, row, column, a, k) <=
      {Neighbour(w, h, row, column, a, 0), Neighbour(w, h, row, column, a, 1), Neighbour(w, h, row, column, a, 2)}
  {
    if k > 0 {
      RowWithin(s, w, h, row, column, a, k - 1);
    }
  }

  lemma {:induction false} LiveInRowCount(s: seq<Cell>, w: nat, h: nat, row: nat, column: nat, a: nat, b: nat)
    requires |s| == Area(w, h) && row < h && column < w && w >= 3 && h >= 3 && a < 3 && b <= 3
    ensures |LiveInRow(s, w, h, row, column, a, b)| == ColsCount(s, w, h, row, column, a, b)
  {
    if b > 0 {
      LiveInRowCount(s, w, h, row, column, a, b - 1);
      TermIsNeighbour(s, w, h, row, column, a, b - 1);
      NotYetInRow(s, w, h, row, column, a, b - 1, b - 1);
    }
  }

  lemma {:induction false} LiveInRowsCount(s: seq<Cell>, w: nat, h: nat, row: nat, column: nat, a: nat)
    requires |s| == Area(w, h) && row < h && column < w && w >= 3 && h >= 3 && a <= 3
    ensures |LiveInRows(s, w, h, row, column, a)| == RowsCount(s, w, h, row, column, a)
  {
    if a > 0 {
      LiveInRowsCount(s, w, h, row, column, a - 1);
      LiveInRowCount(s, w, h, row, column, a - 1, 3);
      var before := LiveInRows(s, w, h, row, column, a - 1);
      var added := LiveInRow(s, w, h, row, column, a - 1, 3);
      RowWithin(s, w, h, row, column, a - 1, 3);
      NotYetInRows(s, w, h, row, column, a - 1, a - 1, 0);
      NotYetInRows(s, w, h, row, column, a - 1, a - 1, 1);
      NotYetInRows(s, w, h, row, column, a - 1, a - 1, 2);
      assert before * added == {};
    }
  }

  /** On a torus at least 3 by 3, `live_neighbor_count` is the number of live
      cells among the eight toroidal neighbours: the offsets `n - 1` act as -1,
      and no cell is counted twice or counts itself. */
  lemma LiveAroundIsNeighbours(s: seq<Cell>, w: nat, h: nat, row: nat, column: nat)
    requires |s| == Area(w, h) && row < h && column < w && w >= 3 && h >= 3
    ensures LiveAround(s, w, h, row, column) == |LiveNeighbours(s, w, h, row, column)|
    ensures Position(row, column) !in LiveNeighbours(s, w, h, row, column)
  {
    LiveInRowsCount(s, w, h, row, column, 3);
    forall p ensures p in LiveNeighbours(s, w, h, row, column) <==> p in LiveInRows(s, w, h, row, column, 3) {
      LiveInRowsMeans(s, w, h, row, column, 3, p);
    }
    assert LiveNeighbours(s, w, h, row, column) == LiveInRows(s, w, h, row, column, 3);
    WrapSteps(row, h);
    WrapSteps(column, w);
    forall a: nat, b: nat | a < 3 && b < 3 && !(a == 1 && b == 1)
      ensures Neighbour(w, h, row, column, a, b) != Position(row, column)
    {
      NeighboursDistinct(w, h, row, column, a, b, 1, 1);
    }
  }

  // ----- the rules of tick -----

  /** The `match (cell, live_neighbors)` of `tick`. */
  function NextState(cell: Cell, n: nat): (next: Cell)
    ensures next == Alive <==> (cell == Alive && (n == 2 || n == 3)) || (cell == Dead && n == 3)
  {
    if cell == Alive && n < 2 then Dead
    else if cell == Alive && (n == 2 || n == 3) then Alive
    else if cell == Alive && n > 3 then Dead
    else if cell == Dead && n == 3 then Alive
    else cell
  }

  /** The next state of the cell at `(row, column)`, from generation `s`. */
  function NextCell(s: seq<Cell>, w: nat, h: nat, row: nat, column: nat): Cell
    requires |s| == Area(w, h) && row < h && column < w
  {
    NextState(CellAt(s, w, h, row, column), LiveAround(s, w, h, row, column))
  }

  /** `t` is the generation that follows `s`. */
  ghost predicate IsNextGen(s: seq<Cell>, t: seq<Cell>, w: nat, h: nat)
    requires |s| == Area(w, h)
  {
    |t| == Area(w, h) && forall r: nat, c: nat | r < h && c < w :: CellAt(t, w, h, r, c) == NextCell(s, w, h, r, c)
  }

  /** The next generation is determined cell by cell: two sequences that both
      follow `s` are equal. */
  lemma NextGenUnique(s: seq<Cell>, t1: seq<Cell>, t2: seq<Cell>, w: nat, h: nat)
    requires |s| == Area(w, h) && IsNextGen(s, t1, w, h) && IsNextGen(s, t2, w, h)
    ensures t1 == t2
  {
    forall i | 0 <= i < |t1| ensures t1[i] == t2[i] {
      IndexOnto(w, h, i);
      assert CellAt(t1, w, h, i / w, i % w) == CellAt(t2, w, h, i / w, i % w);
    }
  }

  /** `t` holds the next state of every cell before `(row, column)` in
      row-major order. */
  ghost predicate FilledBefore(t: seq<Cell>, s: seq<Cell>, w: nat, h: nat, row: nat, column: nat)
    requires |s| == Area(w, h)
  {
    |t| == Area(w, h) &&
    forall r: nat, c: nat | r < h && c < w && (r < row || (r == row && c < column)) ::
      CellAt(t, w, h, r, c) == NextCell(s, w, h, r, c)
  }

  /** Storing the next state of `(row, column)` extends the filled prefix. */
  lemma FillStep(t: seq<Cell>, s: seq<Cell>, w: nat, h: nat, row: nat, column: nat, v: Cell)
    requires |s| == Area(w, h) && row < h && column < w
    requires FilledBefore(t, s, w, h, row, column) && v == NextCell(s, w, h, row, column)
    ensures Index(w, row, column) < |t|
    ensures FilledBefore(t[Index(w, row, column) := v], s, w, h, row, column + 1)
  {
    IndexInRange(w, h, row, column);
    var t' := t[Index(w, row, column) := v];
    forall r: nat, c: nat | r < h && c < w && (r < row || (r == row && c < column + 1))
      ensures CellAt(t', w, h, r, c) == NextCell(s, w, h, r, c)
    {
      IndexInRange(w, h, r, c);
      if r != row || c != column {
        if Index(w, r, c) == Index(w, row, column) {
          IndexInjective(w, h, r, c, row, column);
        }
      }
    }
  }

  lemma FilledRow(t: seq<Cell>, s: seq<Cell>, w: nat, h: nat, row: nat)
    requires |s| == Area(w, h) && FilledBefore(t, s, w, h, row, w)
    ensures FilledBefore(t, s, w, h, row + 1, 0)
  {
  }

  lemma FilledAll(t: seq<Cell>, s: seq<Cell>, w: nat, h: nat)
    requires |s| == Area(w, h) && FilledBefore(t, s, w, h, h, 0)
    ensures IsNextGen(s, t, w, h)
  {
  }

  // ----- changed_cells -----

  /** The position the pass `(a, b)` of the marking loops inserts around
      `(row, column)`. */
  function Around(w: nat, h: nat, row: nat, column: nat, a: nat, b: nat): Position
    requires w >= 1 && h >= 1 && a < 3 && b < 3
  {
    Position((row + Deltas(h)[a]) % h, (column + Deltas(w)[b]) % w)
  }

  /** What the first `b` passes of the inner marking loop insert. */
  function AroundCols(w: nat, h: nat, row: nat, column: nat, a: nat, b: nat): set<Position>
    requires w >= 1 && h >= 1 && a < 3 && b <= 3
  {
    if b == 0 then {} else AroundCols(w, h, row, column, a, b - 1) + {Around(w, h, row, column, a, b - 1)}
  }

  /** What the first `a` passes of the outer marking loop insert. */
  function AroundRows(w: nat, h: nat, row: nat, column: nat, a: nat): set<Position>
    requires w >= 1 && h >= 1 && a <= 3
  {
    if a == 0 then {} else AroundRows(w, h, row, column, a - 1) + AroundCols(w, h, row, column, a - 1, 3)
  }

  /** What `tick` and `toggle_cell` insert for a cell: the cell and its
      wrapped 3 x 3 neighbourhood. */
  function Marked(w: nat, h: nat, row: nat, column: nat): set<Position>
    requires w >= 1 && h >= 1
  {
    {Position(row, column)} + AroundRows(w, h, row, column, 3)
  }

  /** The marked neighbourhood of an in-grid cell holds the cell and its
      eight toroidal neighbours. */
  lemma MarkedNeighbours(w: nat, h: nat, row: nat, column: nat)
    requires row < h && column < w
    ensures Position(row, column) in Marked(w, h, row, column)
    ensures forall a: nat, b: nat | a < 3 && b < 3 :: Neighbour(w, h, row, column, a, b) in Marked(w, h, row, column)
  {
    forall a: nat, b: nat | a < 3 && b < 3 ensures Neighbour(w, h, row, column, a, b) in Marked(w, h, row, column) {
      WrapBack(row, h);
      WrapBack(column, w);
      assert Neighbour(w, h, row, column, a, b) == Around(w, h, row, column, a, b);
      AroundHas(w, h, row, column, a, b, 3);
    }
  }

  lemma {:induction false} AroundHas(w: nat, h: nat, row: nat, column: nat, a: nat, b: nat, k: nat)
    requires w >= 1 && h >= 1 && a < k <= 3 && b < 3
    ensures Around(w, h, row, column, a, b) in AroundRows(w, h, row, column, k)
  {
    if a < k - 1 {
      AroundHas(w, h, row, column, a, b, k - 1);
    } else {
      AroundColsHas(w, h, row, column, a, b, 3);
    }
  }

  lemma {:induction false} AroundColsHas(w: nat, h: nat, row: nat, column: nat, a: nat, b: nat, k: nat)
    requires w >= 1 && h >= 1 && a < 3 && b < k <= 3
    ensures Around(w, h, row, column, a, b) in AroundCols(w, h, row, column, a, k)
  {
    if b < k - 1 {
      AroundColsHas(w, h, row, column, a, b, k - 1);
    }
  }

  /** Whether `tick` changes the cell at `(row, column)` of generation `s`. */
  predicate Flips(s: seq<Cell>, w: nat, h: nat, row: nat, column: nat)
    requires |s| == Area(w, h) && row < h && column < w
  {
    NextCell(s, w, h, row, column) != CellAt(s, w, h, row, column)
  }

  /** What `tick` inserts into `changed_cells` while visiting the cells before
      `(row, column)` in row-major order. */
  ghost function TouchedBefore(s: seq<Cell>, w: nat, h: nat, row: nat, column: nat): set<Position>
    requires |s| == Area(w, h) && row <= h && column <= w && (row == h ==> column == 0)
    decreases row, column
  {
    if column == 0 then
      if row == 0 then {} else TouchedBefore(s, w, h, row - 1, w)
    else
      TouchedBefore(s, w, h, row, column - 1)
      + (if Flips(s, w, h, row, column - 1) then Marked(w, h, row, column - 1) else {})
  }

  lemma UnionAssoc<T>(A: set<T>, B: set<T>, C: set<T>)
    ensures A + B + C == A + (B + C)
  {
  }

  /** Visiting `(row, column)` adds its marked neighbourhood when the cell
      flips, on top of whatever `changed_cells` held before `tick`. */
  lemma TouchStep(C: set<Position>, s: seq<Cell>, w: nat, h: nat, row: nat, column: nat)
    requires |s| == Area(w, h) && row < h && column < w
    ensures C + TouchedBefore(s, w, h, row, column + 1) ==
      C + TouchedBefore(s, w, h, row, column) + (if Flips(s, w, h, row, column) then Marked(w, h, row, column) else {})
  {
    UnionAssoc(C, TouchedBefore(s, w, h, row, column), if Flips(s, w, h, row, column) then Marked(w, h, row, column) else {});
  }

  /** Everything one `tick` inserts. */
  ghost function Touched(s: seq<Cell>, w: nat, h: nat): set<Position>
    requires |s| == Area(w, h)
  {
    TouchedBefore(s, w, h, h, 0)
  }

  ghost predicate MarksCell(s: seq<Cell>, w: nat, h: nat, p: Position, r: nat, c: nat)
    requires |s| == Area(w, h)
  {
    r < h && c < w && Flips(s, w, h, r, c) && p in Marked(w, h, r, c)
  }

  /** The neighbourhood of every flipping cell before `(row, column)` is in
      `TouchedBefore`. */
  lemma {:induction false} TouchedBeforeHas(s: seq<Cell>, w: nat, h: nat, row: nat, column: nat, p: Position, r: nat, c: nat)
    requires |s| == Area(w, h) && row <= h && column <= w && (row == h ==> column == 0)
    requires (r < row || (r == row && c < column)) && MarksCell(s, w, h, p, r, c)
    ensures p in TouchedBefore(s, w, h, row, column)
    decreases row, column
  {
    if column == 0 {
      TouchedBeforeHas(s, w, h, row - 1, w, p, r, c);
    } else if !(r == row && c == column - 1) {
      TouchedBeforeHas(s, w, h, row, column - 1, p, r, c);
    }
  }

  /** Nothing else is in `TouchedBefore`. */
  lemma {:induction false} TouchedBeforeFrom(s: seq<Cell>, w: nat, h: nat, row: nat, column: nat, p: Position)
    requires |s| == Area(w, h) && row <= h && column <= w && (row == h ==> column == 0)
    requires p in TouchedBefore(s, w, h, row, column)
    ensures exists r: nat, c: nat :: (r < row || (r == row && c < column)) && MarksCell(s, w, h, p, r, c)
    decreases row, column
  {
    if column == 0 {
      TouchedBeforeFrom(s, w, h, row - 1, w, p);
      var r: nat, c: nat :| (r < row - 1 || (r == row - 1 && c < w)) && MarksCell(s, w, h, p, r, c);
      assert r < row;
    } else if p in TouchedBefore(s, w, h, row, column - 1) {
      TouchedBeforeFrom(s, w, h, row, column - 1, p);
      var r: nat, c: nat :| (r < row || (r == row && c < column - 1)) && MarksCell(s, w, h, p, r, c);
      assert r < row || (r == row && c < column);
    } else {
      assert MarksCell(s, w, h, p, row, column - 1);
    }
  }

  /** What one `tick` inserts: exactly the marked neighbourhoods of the cells
      that flip. */
  lemma TouchedMeans(s: seq<Cell>, w: nat, h: nat, p: Position)
    requires |s| == Area(w, h)
    ensures p in Touched(s, w, h) <==> exists r: nat, c: nat :: MarksCell(s, w, h, p, r, c)
  {
    if p in Touched(s, w, h) {
      TouchedBeforeFrom(s, w, h, h, 0, p);
    }
    if exists r: nat, c: nat :: MarksCell(s, w, h, p, r, c) {
      var r: nat, c: nat :| MarksCell(s, w, h, p, r, c);
      TouchedBeforeHas(s, w, h, h, 0, p, r, c);
    }
  }

  /** After a `tick` every cell that changed is in `changed_cells`, together
      with its eight toroidal neighbours. */
  lemma TouchedCovers(s: seq<Cell>, w: nat, h: nat, r: nat, c: nat)
    requires |s| == Area(w, h) && r < h && c < w && Flips(s, w, h, r, c)
    ensures Marked(w, h, r, c) <= Touched(s, w, h)
    ensures forall a: nat, b: nat | a < 3 && b < 3 :: Neighbour(w, h, r, c, a, b) in Touched(s, w, h)
  {
    forall p | p in Marked(w, h, r, c) ensures p in Touched(s, w, h) {
      TouchedBeforeHas(s, w, h, h, 0, p, r, c);
    }
    MarkedNeighbours(w, h, r, c);
  }

  /** Every position of the grid. */
  ghost function AllPositions(w: nat, h: nat): set<Position>
  {
    set r: nat, c: nat | r < h && c < w :: Position(r, c)
  }

  lemma InAllPositions(w: nat, h: nat, r: nat, c: nat)
    requires r < h && c < w
    ensures AllPositions(w, h) + {Position(r, c)} == AllPositions(w, h)
  {
  }

  /** The positions the nested insertion loops have covered before
      `(row, column)`. */
  ghost function PositionsBefore(w: nat, row: nat, column: nat): set<Position>
  {
    (set r: nat, c: nat | r < row && c < w :: Position(r, c)) + (set c: nat | c < column :: Position(row, c))
  }

  /** The `(row, col)` pair at `q` of a flat `[row, col, row, col, ...]`
      vector. */
  function Pair(s: seq<nat>, q: nat): Position
    requires 2 * q + 1 < |s|
  {
    Position(s[2 * q], s[2 * q + 1])
  }

  /** The positions listed in a flat vector. */
  ghost function Listed(s: seq<nat>): set<Position>
  {
    set q: nat | q < |s| && 2 * q + 1 < |s| :: Pair(s, q)
  }

  lemma ListedAppend(s: seq<nat>, p: Position)
    requires |s| % 2 == 0
    ensures Listed(s + [p.row, p.column]) == Listed(s) + {p}
  {
    var s' := s + [p.row, p.column];
    forall q: nat | 2 * q + 1 < |s| ensures Pair(s', q) == Pair(s, q) {}
    assert Pair(s', |s| / 2) == p;
    forall x | x in Listed(s') ensures x in Listed(s) + {p} {
      var q: nat :| 2 * q + 1 < |s'| && Pair(s', q) == x;
      if 2 * q + 1 < |s| {
        assert x == Pair(s, q);
      }
    }
  }

  // ----- load_multiple_patterns_flat -----

  /** Where `(startRow, startCol)` moves a pattern cell. */
  function Placed(start: Position, offset: Position): Position
  {
    Position(start.row + offset.row, start.column + offset.column)
  }

  predicate Inside(w: nat, h: nat, p: Position)
  {
    p.row < h && p.column < w
  }

  /** The cells the first `j` complete pattern pairs set Alive when the
      pattern is placed at `start`: those that land inside, without wrapping. */
  function Stamp(w: nat, h: nat, pattern: seq<nat>, start: Position, j: nat): set<Position>
    requires 2 * j <= |pattern|
  {
    if j == 0 then {}
    else
      var p := Placed(start, Pair(pattern, j - 1));
      Stamp(w, h, pattern, start, j - 1) + (if Inside(w, h, p) then {p} else {})
  }

  /** The cells the first `k` complete placements set Alive; a placement
      whose start lies outside is skipped. */
  function Stamped(w: nat, h: nat, pattern: seq<nat>, starts: seq<nat>, k: nat): set<Position>
    requires 2 * k <= |starts|
  {
    if k == 0 then {}
    else
      var start := Pair(starts, k - 1);
      Stamped(w, h, pattern, starts, k - 1)
      + (if Inside(w, h, start) then Stamp(w, h, pattern, start, |pattern| / 2) else {})
  }

  ghost predicate Stamps(w: nat, h: nat, pattern: seq<nat>, starts: seq<nat>, k: nat, p: Position, q: nat, t: nat)
  {
    && q < k && 2 * q + 1 < |starts| && 2 * t + 1 < |pattern|
    && Inside(w, h, Pair(starts, q))
    && Inside(w, h, Placed(Pair(starts, q), Pair(pattern, t)))
    && p == Placed(Pair(starts, q), Pair(pattern, t))
  }

  lemma {:induction false} StampMeans(w: nat, h: nat, pattern: seq<nat>, start: Position, j: nat, p: Position)
    requires 2 * j <= |pattern|
    ensures p in Stamp(w, h, pattern, start, j) <==>
            exists t: nat :: t < j && Inside(w, h, Placed(start, Pair(pattern, t))) && p == Placed(start, Pair(pattern, t))
  {
    if j > 0 {
      StampMeans(w, h, pattern, start, j - 1, p);
    }
  }

  /** A cell is Alive after loading exactly when some complete placement with
      its start inside moves some complete pattern pair onto it. */
  lemma {:induction false} StampedMeans(w: nat, h: nat, pattern: seq<nat>, starts: seq<nat>, k: nat, p: Position)
    requires 2 * k <= |starts|
    ensures p in Stamped(w, h, pattern, starts, k) <==>
            exists q: nat, t: nat :: Stamps(w, h, pattern, starts, k, p, q, t)
  {
    if k > 0 {
      StampedMeans(w, h, pattern, starts, k - 1, p);
      var start := Pair(starts, k - 1);
      StampMeans(w, h, pattern, start, |pattern| / 2, p);
      if exists q: nat, t: nat :: Stamps(w, h, pattern, starts, k, p, q, t) {
        var q: nat, t: nat :| Stamps(w, h, pattern, starts, k, p, q, t);
        if q < k - 1 {
          assert Stamps(w, h, pattern, starts, k - 1, p, q, t);
        } else {
          assert t < |pattern| / 2;
        }
      }
      if p in Stamped(w, h, pattern, starts, k) && p !in Stamped(w, h, pattern, starts, k - 1) {
        var t: nat :| t < |pattern| / 2 && Inside(w, h, Placed(start, Pair(pattern, t))) && p == Placed(start, Pair(pattern, t));
        assert Stamps(w, h, pattern, starts, k, p, k - 1, t);
      }
      if p in Stamped(w, h, pattern, starts, k - 1) {
        var q: nat, t: nat :| Stamps(w, h, pattern, starts, k - 1, p, q, t);
        assert Stamps(w, h, pattern, starts, k, p, q, t);
      }
    }
  }

  /** Every stamped cell lies inside the grid. */
  lemma StampedInside(w: nat, h: nat, pattern: seq<nat>, starts: seq<nat>, k: nat, p: Position)
    requires 2 * k <= |starts| && p in Stamped(w, h, pattern, starts, k)
    ensures Inside(w, h, p)
  {
    StampedMeans(w, h, pattern, starts, k, p);
  }

  /** `a` shows exactly the cells of `S` as Alive. */
  ghost predicate Shows(a: seq<Cell>, w: nat, h: nat, S: set<Position>)
  {
    |a| == Area(w, h) && forall r: nat, c: nat | r < h && c < w :: CellAt(a, w, h, r, c) == (if Position(r, c) in S then Alive else Dead)
  }

  lemma ShowsSet(a: seq<Cell>, w: nat, h: nat, S: set<Position>, r: nat, c: nat)
    requires Shows(a, w, h, S) && r < h && c < w
    ensures Index(w, r, c) < |a|
    ensures Shows(a[Index(w, r, c) := Alive], w, h, S + {Position(r, c)})
  {
    IndexInRange(w, h, r, c);
    var a' := a[Index(w, r, c) := Alive];
    forall r': nat, c': nat | r' < h && c' < w
      ensures CellAt(a', w, h, r', c') == (if Position(r', c') in S + {Position(r, c)} then Alive else Dead)
    {
      IndexInRange(w, h, r', c');
      if Index(w, r', c') == Index(w, r, c) {
        IndexInjective(w, h, r', c', r, c);
      }
    }
  }

  /** The cells after the first `j` complete pattern pairs, placed at
      `start`, have been painted Alive onto `a`. */
  function Painted(a: seq<Cell>, w: nat, h: nat, pattern: seq<nat>, start: Position, j: nat): (t: seq<Cell>)
    requires |a| == Area(w, h) && 2 * j <= |pattern|
    ensures |t| == |a|
  {
    if j == 0 then a
    else
      var t := Painted(a, w, h, pattern, start, j - 1);
      var p := Placed(start, Pair(pattern, j - 1));
      if Inside(w, h, p) then
        IndexInRange(w, h, p.row, p.column);
        t[Index(w, p.row, p.column) := Alive]
      else t
  }

  /** Painting a pattern adds exactly its stamp to the picture. */
  lemma {:induction false} PaintedShows(a: seq<Cell>, w: nat, h: nat, S: set<Position>, pattern: seq<nat>, start: Position, j: nat)
    requires |a| == Area(w, h) && 2 * j <= |pattern|
    requires Shows(a, w, h, S)
    ensures Shows(Painted(a, w, h, pattern, start, j), w, h, S + Stamp(w, h, pattern, start, j))
  {
    if j > 0 {
      PaintedShows(a, w, h, S, pattern, start, j - 1);
      var t := Painted(a, w, h, pattern, start, j - 1);
      var p := Placed(start, Pair(pattern, j - 1));
      if Inside(w, h, p) {
        ShowsSet(t, w, h, S + Stamp(w, h, pattern, start, j - 1), p.row, p.column);
        UnionAssoc(S, Stamp(w, h, pattern, start, j - 1), {p});
      } else {
        assert S + Stamp(w, h, pattern, start, j) == S + Stamp(w, h, pattern, start, j - 1);
      }
    }
  }

  lemma ShowsEmpty(a: seq<Cell>, w: nat, h: nat)
    requires |a| == Area(w, h) && forall i | 0 <= i < |a| :: a[i] == Dead
    ensures Shows(a, w, h, {})
  {
    forall r: nat, c: nat | r < h && c < w ensures CellAt(a, w, h, r, c) == Dead {
      IndexInRange(w, h, r, c);
    }
  }

  // ----- the universe -----

  class Universe {
    const width: nat
    const height: nat
    var cells: array<Cell>
    var nextCells: array<Cell>
    var changed: set<Position>

    /** Both buffers hold `width * height` cells and are different vectors. */
    ghost predicate Valid()
      reads this
    {
      cells.Length == Area(width, height) && nextCells.Length == Area(width, height) && cells != nextCells
    }

    /** `Universe::new(width, height)`, with the cells the random draws chose
        passed in: `next_cells` all Dead and every position marked changed. */
    constructor (width: nat, height: nat, initial: seq<Cell>)
      requires |initial| == Area(width, height)
      ensures Valid() && this.width == width && this.height == height
      ensures cells[..] == initial && forall i | 0 <= i < nextCells.Length :: nextCells[i] == Dead
      ensures changed == AllPositions(width, height)
      ensures fresh(cells) && fresh(nextCells)
    {
      this.width := width;
      this.height := height;
      cells := new Cell[Area(width, height)](i requires 0 <= i < Area(width, height) => initial[i]);
      nextCells := new Cell[Area(width, height)](_ => Dead);
      var all := AllCells(width, height);
      changed := all;
    }

    /** The nested `for row in 0..height { for column in 0..width { insert } }`
        of `new` and `clear`. */
    static method AllCells(width: nat, height: nat) returns (all: set<Position>)
      ensures all == AllPositions(width, height)
    {
      all := {};
      for row := 0 to height
        invariant all == PositionsBefore(width, row, 0)
      {
        for column := 0 to width
          invariant all == PositionsBefore(width, row, column)
        {
          all := all + {Position(row, column)};
        }
        assert PositionsBefore(width, row, width) == PositionsBefore(width, row + 1, 0);
      }
      assert PositionsBefore(width, height, 0) == AllPositions(width, height);
    }

    /** `live_neighbor_count(row, column)`. */
    method LiveNeighborCount(row: nat, column: nat) returns (count: nat)
      requires Valid() && row < height && column < width
      ensures count == LiveAround(cells[..], width, height, row, column)
      ensures count <= 8
    {
      ghost var s := cells[..];
      count := 0;
      for a := 0 to 3
        invariant count == RowsCount(s, width, height, row, column, a)
      {
        for b := 0 to 3
          invariant count == RowsCount(s, width, height, row, column, a) + ColsCount(s, width, height, row, column, a, b)
        {
          var deltaRow := Deltas(height)[a];
          var deltaCol := Deltas(width)[b];
          if !(deltaRow == 0 && deltaCol == 0) {
            var neighborRow := (row + deltaRow) % height;
            var neighborCol := (column + deltaCol) % width;
            IndexInRange(width, height, neighborRow, neighborCol);
            count := count + Weight(cells[Index(width, neighborRow, neighborCol)]);
          }
        }
      }
      LiveAroundBound(s, width, height, row, column);
    }

    /** The loops of `tick` and `toggle_cell` that insert the wrapped 3 x 3
        neighbourhood of `(row, column)`. */
    method MarkAround(row: nat, column: nat)
      requires Valid() && width >= 1 && height >= 1
      modifies this
      ensures Valid() && cells == old(cells) && nextCells == old(nextCells)
      ensures changed == old(changed) + AroundRows(width, height, row, column, 3)
    {
      for a := 0 to 3
        invariant Valid() && cells == old(cells) && nextCells == old(nextCells)
        invariant changed == old(changed) + AroundRows(width, height, row, column, a)
      {
        for b := 0 to 3
          invariant Valid() && cells == old(cells) && nextCells == old(nextCells)
          invariant changed == old(changed) + AroundRows(width, height, row, column, a) + AroundCols(width, height, row, column, a, b)
        {
          var neighborRow := (row + Deltas(height)[a]) % height;
          var neighborCol := (column + Deltas(width)[b]) % width;
          changed := changed + {Position(neighborRow, neighborCol)};
        }
      }
    }

    /** The body of the loops of `tick` for one cell: its next state from
        the current generation goes to `next_cells`, and a cell that flips is
        marked with its neighbourhood. */
    method TickCell(row: nat, column: nat, ghost s: seq<Cell>)
      requires Valid() && cells[..] == s && row < height && column < width
      modifies this, nextCells
      ensures Valid() && cells == old(cells) && nextCells == old(nextCells) && cells[..] == s
      ensures Index(width, row, column) < nextCells.Length
      ensures nextCells[..] == old(nextCells[..])[Index(width, row, column) := NextCell(s, width, height, row, column)]
      ensures changed == old(changed) + (if Flips(s, width, height, row, column) then Marked(width, height, row, column) else {})
    {
      IndexInRange(width, height, row, column);
      var idx := Index(width, row, column);
      var cell := cells[idx];
      var liveNeighbors := LiveNeighborCount(row, column);
      var nextCell := NextState(cell, liveNeighbors);
      if cell != nextCell {
        changed := changed + {Position(row, column)};
        MarkAround(row, column);
      }
      nextCells[idx] := nextCell;
    }

    /** `tick`: every next state is computed from the current generation into
        `next_cells`, then the two buffers are swapped; every cell that changes
        is marked with its neighbourhood. */
    method Tick()
      requires Valid()
      modifies this, nextCells
      ensures Valid()
      ensures cells == old(nextCells) && nextCells == old(cells)
      ensures IsNextGen(old(cells[..]), cells[..], width, height)
      ensures changed == old(changed) + Touched(old(cells[..]), width, height)
    {
      ghost var s := cells[..];
      for row := 0 to height
        invariant Valid() && cells == old(cells) && nextCells == old(nextCells)
        invariant cells[..] == s
        invariant FilledBefore(nextCells[..], s, width, height, row, 0)
        invariant changed == old(changed) + TouchedBefore(s, width, height, row, 0)
      {
        for column := 0 to width
          invariant Valid() && cells == old(cells) && nextCells == old(nextCells)
          invariant cells[..] == s
          invariant FilledBefore(nextCells[..], s, width, height, row, column)
          invariant changed == old(changed) + TouchedBefore(s, width, height, row, column)
        {
          FillStep(nextCells[..], s, width, height, row, column, NextCell(s, width, height, row, column));
          TouchStep(old(changed), s, width, height, row, column);
          TickCell(row, column, s);
        }
        FilledRow(nextCells[..], s, width, height, row);
      }
      FilledAll(nextCells[..], s, width, height);
      cells, nextCells := nextCells, cells;
    }

    /** `toggle_cell(row, column)`: flips the one cell at `get_index(row,
        column)` (the index must be inside the vector) and marks the position
        with its wrapped neighbourhood. */
    method ToggleCell(row: nat, column: nat)
      requires Valid() && Index(width, row, column) < Area(width, height)
      modifies this, cells
      ensures Valid() && cells == old(cells) && nextCells == old(nextCells)
      ensures width >= 1 && height >= 1
      ensures cells[..] == Toggled(old(cells[..]), Index(width, row, column))
      ensures changed == old(changed) + Marked(width, height, row, column)
    {
      AreaPositive(width, height);
      var idx := Index(width, row, column);
      cells[idx] := match cells[idx] {
        case Alive => Dead
        case Dead => Alive
      };
      changed := changed + {Position(row, column)};
      MarkAround(row, column);
    }

    /** `clear`: two fresh all-Dead buffers and every position marked. */
    method Clear()
      requires Valid()
      modifies this
      ensures Valid() && fresh(cells) && fresh(nextCells)
      ensures forall i | 0 <= i < cells.Length :: cells[i] == Dead
      ensures forall i | 0 <= i < nextCells.Length :: nextCells[i] == Dead
      ensures changed == AllPositions(width, height)
    {
      cells := new Cell[Area(width, height)](_ => Dead);
      nextCells := new Cell[Area(width, height)](_ => Dead);
      var all := AllCells(width, height);
      changed := all;
    }

    /** `changed_cells()`: every marked position as a `row, column` pair, in
        the set's iteration order. */
    method ChangedCells() returns (flat: seq<nat>)
      ensures |flat| == 2 * |changed|
      ensures Listed(flat) == changed
    {
      flat := [];
      var rest := changed;
      while rest != {}
        invariant |flat| % 2 == 0 && |flat| == 2 * (|changed| - |rest|)
        invariant rest <= changed && Listed(flat) == changed - rest
        decreases |rest|
      {
        var p :| p in rest;
        ListedAppend(flat, p);
        flat := flat + [p.row, p.column];
        rest := rest - {p};
      }
    }

    /** `load_multiple_patterns_flat`: clears the universe, then for each
        complete `(row, col)` start inside the grid sets Alive the cells of the
        pattern's complete pairs that land inside; a trailing odd element ends
        the load with an error, the placements before it kept. */
    /** The inner loop of `load_multiple_patterns_flat`: every complete
        pair of the pattern, shifted by `start`, that lands inside the
        universe is set Alive and marked. */
    method PlacePattern(patternData: seq<nat>, start: Position)
      requires Valid() && Inside(width, height, start)
      requires changed == AllPositions(width, height)
      modifies this, cells
      ensures Valid() && cells == old(cells) && nextCells == old(nextCells)
      ensures cells[..] == Painted(old(cells[..]), width, height, patternData, start, |patternData| / 2)
      ensures changed == AllPositions(width, height)
    {
      for j := 0 to |patternData| / 2
        invariant Valid() && cells == old(cells) && nextCells == old(nextCells)
        invariant cells[..] == Painted(old(cells[..]), width, height, patternData, start, j)
        invariant changed == AllPositions(width, height)
      {
        var universeRow := start.row + patternData[2 * j];
        var universeCol := start.column + patternData[2 * j + 1];
        if universeRow < height && universeCol < width {
          var idx := Index(width, universeRow, universeCol);
          IndexInRange(width, height, universeRow, universeCol);
          InAllPositions(width, height, universeRow, universeCol);
          if idx < cells.Length {
            cells[idx] := Alive;
            changed := changed + {Position(universeRow, universeCol)};
          }
        }
      }
    }

    method LoadPatterns(patternData: seq<nat>, patternWidth: nat, patternHeight: nat, flatPositions: seq<nat>)
      returns (r: Result<string, string>)
      requires Valid()
      modifies this
      ensures Valid() && fresh(cells) && fresh(nextCells)
      ensures r == (if |flatPositions| % 2 == 0 then Ok("Patterns loaded successfully!")
                    else Err("Pattern placement is out of bounds"))
      ensures Shows(cells[..], width, height, Stamped(width, height, patternData, flatPositions, |flatPositions| / 2))
      ensures forall i | 0 <= i < nextCells.Length :: nextCells[i] == Dead
      ensures changed == AllPositions(width, height)
    {
      Clear();
      ShowsEmpty(cells[..], width, height);
      var k := 0;
      while 2 * k < |flatPositions|
        invariant 2 * k <= |flatPositions| + 1 && (2 * k == |flatPositions| + 1 ==> false)
        invariant Valid() && fresh(cells) && fresh(nextCells)
        invariant Shows(cells[..], width, height, Stamped(width, height, patternData, flatPositions, k))
        invariant forall i | 0 <= i < nextCells.Length :: nextCells[i] == Dead
        invariant changed == AllPositions(width, height)
        decreases |flatPositions| - 2 * k
      {
        if 2 * k + 1 == |flatPositions| {
          assert k == |flatPositions| / 2;
          return Err("Pattern placement is out of bounds");
        }
        var start := Pair(flatPositions, k);
        if start.row < height && start.column < width {
          ghost var a := cells[..];
          PlacePattern(patternData, start);
          PaintedShows(a, width, height, Stamped(width, height, patternData, flatPositions, k), patternData, start, |patternData| / 2);
        }
        k := k + 1;
      }
      assert k == |flatPositions| / 2;
      return Ok("Patterns loaded successfully!");
    }
  }

  /** The cells after flipping the one at `i`. */
  function Toggled(s: seq<Cell>, i: nat): (t: seq<Cell>)
    requires i < |s|
    ensures |t| == |s| && t[i] != s[i]
    ensures forall j | 0 <= j < |s| && j != i :: t[j] == s[j]
  {
    s[i := if s[i] == Alive then Dead else Alive]
  }

  /** Toggling the same cell twice restores the universe. */
  lemma ToggleTwice(s: seq<Cell>, i: nat)
    requires i < |s|
    ensures Toggled(Toggled(s, i), i) == s
  {
  }
}
