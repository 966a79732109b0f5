/** `parse_maze`: the maze text, one line per row, becomes rows of cells:
    `'*'` a wall, `' '` a path. Each line first loses its trailing `'\r'`s
    and then its surrounding white space; a line that is empty after that is
    skipped, and any other character ends the parse with an error naming it. */
module RustParse {
  import opened Wrappers
  import opened Text
  import opened RustGrid

  /** The `match cell` of one character. */
  function CellOf(c: char): Option<CellType>
  {
    if c == '*' then Some(Wall) else if c == ' ' then Some(Path) else None
  }

  /** The cells of a maze: `'*'` or `' '`. */
  predicate IsMazeChar(c: char) { c == '*' || c == ' ' }

  /** `format!("Invalid maze data!--->{}", cell)`. */
  function InvalidCell(c: char): string
  {
    "Invalid maze data!--->" + [c]
  }

  /** `trim_end_matches(c)`: s without its run of trailing c. */
  function TrimEndMatches(s: string, c: char): (r: string)
    ensures |r| <= |s| && r == s[..|r|]
    ensures |r| == 0 || r[|r| - 1] != c
    ensures forall i :: |r| <= i < |s| ==> s[i] == c
  {
    if |s| > 0 && s[|s| - 1] == c then TrimEndMatches(s[..|s| - 1], c) else s
  }

  /** A line as `parse_maze` reads it: `row.trim_end_matches('\r').trim()`. */
  function TrimmedRow(row: string): string
  {
    Trim(TrimEndMatches(row, '\r'), RustSpace)
  }

  /** The cells of one trimmed line, read left to right; the first character
      that is neither `'*'` nor `' '` gives the error. */
  function RowCells(t: string): Result<seq<CellType>, string>
  {
    if |t| == 0 then Ok([])
    else
      match RowCells(t[..|t| - 1])
      case Err(e) => Err(e)
      case Ok(cells) =>
        match CellOf(t[|t| - 1])
        case None => Err(InvalidCell(t[|t| - 1]))
        case Some(cell) => Ok(cells + [cell])
  }

  /** The rows of a sequence of lines, read top to bottom. */
  function RowsOf(lines: seq<string>): Result<seq<seq<CellType>>, string>
  {
    if |lines| == 0 then Ok([])
    else AddRow(RowsOf(lines[..|lines| - 1]), TrimmedRow(lines[|lines| - 1]))
  }

  /** One more trimmed line: its cells are read and kept unless the line is
      empty; an earlier error stays. */
  function AddRow(rows: Result<seq<seq<CellType>>, string>, t: string): Result<seq<seq<CellType>>, string>
  {
    match rows
    case Err(e) => Err(e)
    case Ok(grid) =>
      match RowCells(t)
      case Err(e) => Err(e)
      case Ok(cells) => Ok(if |t| == 0 then grid else grid + [cells])
  }

  /** What `parse_maze` returns for a text. */
  function MazeOf(mazeData: string): Result<seq<seq<CellType>>, string>
  {
    RowsOf(Split(mazeData, '\n'))
  }

  /** A line of maze characters reads as one cell per character, `'*'` as a
      wall and `' '` as a path; a line with any other character is refused. */
  lemma {:induction false} RowCellsOk(t: string)
    ensures RowCells(t).Ok? <==> forall i :: 0 <= i < |t| ==> IsMazeChar(t[i])
    ensures RowCells(t).Ok? ==>
              && |RowCells(t).value| == |t|
              && forall i :: 0 <= i < |t| ==> (RowCells(t).value[i] == Wall <==> t[i] == '*')
    decreases |t|
  {
    if |t| > 0 {
      var u := t[..|t| - 1];
      RowCellsOk(u);
      assert forall i :: 0 <= i < |u| ==> u[i] == t[i];
    }
  }

  /** The error names the first character that is not a maze character. */
  lemma {:induction false} RowCellsErr(t: string)
    requires RowCells(t).Err?
    ensures exists i :: 0 <= i < |t| && !IsMazeChar(t[i]) && RowCells(t).error == InvalidCell(t[i])
              && forall j :: 0 <= j < i ==> IsMazeChar(t[j])
    decreases |t|
  {
    var u := t[..|t| - 1];
    assert forall j :: 0 <= j < |u| ==> u[j] == t[j];
    if RowCells(u).Err? {
      RowCellsErr(u);
      var i :| 0 <= i < |u| && !IsMazeChar(u[i]) && RowCells(u).error == InvalidCell(u[i])
              && forall j :: 0 <= j < i ==> IsMazeChar(u[j]);
    } else {
      RowCellsOk(u);
    }
  }

  /** An error in a prefix of a line is the error of the whole line. */
  lemma {:induction false} RowCellsErrStays(t: string, k: nat)
    requires k <= |t| && RowCells(t[..k]).Err?
    ensures RowCells(t) == RowCells(t[..k])
    decreases |t| - k
  {
    if k < |t| {
      assert t[..k + 1][..k] == t[..k];
      RowCellsErrStays(t, k + 1);
    } else {
      assert t[..k] == t;
    }
  }

  /** An error in the first lines is the error of the whole text. */
  lemma {:induction false} RowsOfErrStays(lines: seq<string>, k: nat)
    requires k <= |lines| && RowsOf(lines[..k]).Err?
    ensures RowsOf(lines) == RowsOf(lines[..k])
    decreases |lines| - k
  {
    if k < |lines| {
      assert lines[..k + 1][..k] == lines[..k];
      RowsOfErrStays(lines, k + 1);
    } else {
      assert lines[..k] == lines;
    }
  }

  /** Every error is an "Invalid maze data!" error; every row of a parsed
      maze is non-empty, and there are no more rows than lines. */
  ghost predicate RowsShape(rows: Result<seq<seq<CellType>>, string>, n: nat)
  {
    match rows
    case Err(e) => "Invalid maze data!" <= e
    case Ok(grid) => |grid| <= n && forall r :: 0 <= r < |grid| ==> |grid[r]| > 0
  }

  lemma AddRowShape(rows: Result<seq<seq<CellType>>, string>, n: nat, t: string)
    requires RowsShape(rows, n)
    ensures RowsShape(AddRow(rows, t), n + 1)
  {
    if rows.Ok? && RowCells(t).Err? {
      RowCellsErr(t);
    }
  }

  lemma {:induction false} RowsOfShape(lines: seq<string>)
    ensures RowsShape(RowsOf(lines), |lines|)
    decreases |lines|
  {
    if |lines| > 0 {
      RowsOfShape(lines[..|lines| - 1]);
      AddRowShape(RowsOf(lines[..|lines| - 1]), |lines| - 1, TrimmedRow(lines[|lines| - 1]));
    }
  }

  /** One more line read. */
  lemma RowsOfStep(lines: seq<string>, i: nat)
    requires i < |lines|
    ensures RowsOf(lines[..i + 1]) == AddRow(RowsOf(lines[..i]), TrimmedRow(lines[i]))
  {
    assert lines[..i + 1][..i] == lines[..i];
  }

  /** `parse_maze`: the loop over lines, pushing each row that is not
      empty. */
  method ParseMaze(mazeData: string) returns (r: Result<seq<seq<CellType>>, string>)
    ensures r == MazeOf(mazeData)
  {
    var lines := Split(mazeData, '\n');
    var mazeGrid: seq<seq<CellType>> := [];
    for i := 0 to |lines|
      invariant RowsOf(lines[..i]) == Ok(mazeGrid)
    {
      var trimmedRow := TrimmedRow(lines[i]);
      var rowCells := ReadRow(trimmedRow);
      RowsOfStep(lines, i);
      if rowCells.Err? {
        RowsOfErrStays(lines, i + 1);
        return Err(rowCells.error);
      }
      if |trimmedRow| != 0 {
        mazeGrid := mazeGrid + [rowCells.value];
      }
    }
    assert lines[..|lines|] == lines;
    return Ok(mazeGrid);
  }

  /** The loop over the characters of one trimmed line. */
  method ReadRow(trimmedRow: string) returns (r: Result<seq<CellType>, string>)
    ensures r == RowCells(trimmedRow)
  {
    var rowCells: seq<CellType> := [];
    for j := 0 to |trimmedRow|
      invariant RowCells(trimmedRow[..j]) == Ok(rowCells)
    {
      var cell := trimmedRow[j];
      assert trimmedRow[..j + 1][..j] == trimmedRow[..j];
      if cell == '*' {
        rowCells := rowCells + [Wall];
      } else if cell == ' ' {
        rowCells := rowCells + [Path];
      } else {
        RowCellsErrStays(trimmedRow, j + 1);
        return Err(InvalidCell(cell));
      }
    }
    assert trimmedRow[..|trimmedRow|] == trimmedRow;
    return Ok(rowCells);
  }

  // ----- writing a maze back as text -----

  function RowText(cells: seq<CellType>): (t: string)
    ensures |t| == |cells|
    ensures forall i :: 0 <= i < |cells| ==> t[i] == (if cells[i] == Wall then '*' else ' ')
  {
    if |cells| == 0 then [] else RowText(cells[..|cells| - 1]) + [if cells[|cells| - 1] == Wall then '*' else ' ']
  }

  /** The text of each row, in order. */
  function Lines(grid: seq<seq<CellType>>): (lines: seq<string>)
    ensures |lines| == |grid|
    ensures forall r :: 0 <= r < |grid| ==> lines[r] == RowText(grid[r])
  {
    if |grid| == 0 then [] else Lines(grid[..|grid| - 1]) + [RowText(grid[|grid| - 1])]
  }

  /** A maze as text: one line per row, joined by `'\n'`. */
  function MazeText(grid: seq<seq<CellType>>): string
  {
    Join(Lines(grid), '\n')
  }

  /** A maze whose rows each begin and end with a wall: trimming cannot eat
      a path cell at either end. */
  predicate WalledRows(grid: seq<seq<CellType>>)
  {
    forall r :: 0 <= r < |grid| ==> |grid[r]| > 0 && grid[r][0] == Wall && grid[r][|grid[r]| - 1] == Wall
  }

  lemma RowTextTrimmed(cells: seq<CellType>)
    requires |cells| > 0 && cells[0] == Wall && cells[|cells| - 1] == Wall
    ensures TrimmedRow(RowText(cells)) == RowText(cells)
  {
    var t := RowText(cells);
    assert TrimEndMatches(t, '\r') == t;
    assert Lead(t, RustSpace) == 0;
    assert t[0..] == t;
    assert Trail(t, RustSpace) == 0;
  }

  /** Reading the text of a row gives the row back. */
  lemma {:induction false} RowCellsText(cells: seq<CellType>)
    ensures RowCells(RowText(cells)) == Ok(cells)
    decreases |cells|
  {
    if |cells| > 0 {
      var t := RowText(cells);
      var c' := cells[..|cells| - 1];
      assert t[..|t| - 1] == RowText(c');
      RowCellsText(c');
      assert c' + [cells[|cells| - 1]] == cells;
    }
  }

  lemma {:induction false} RowsOfText(grid: seq<seq<CellType>>)
    requires WalledRows(grid)
    ensures RowsOf(Lines(grid)) == Ok(grid)
    decreases |grid|
  {
    if |grid| > 0 {
      var g' := grid[..|grid| - 1];
      assert g' + [grid[|grid| - 1]] == grid;
      assert WalledRows(g');
      RowsOfText(g');
      LinesLast(grid);
      RowsOfStep(Lines(grid), |grid| - 1);
      assert Lines(grid)[..|grid|] == Lines(grid);
      AddRowText(g', grid[|grid| - 1]);
    }
  }

  lemma LinesLast(grid: seq<seq<CellType>>)
    requires |grid| > 0
    ensures Lines(grid)[..|grid| - 1] == Lines(grid[..|grid| - 1])
    ensures Lines(grid)[|grid| - 1] == RowText(grid[|grid| - 1])
  {
  }

  /** The text of a walled row, read after the rows before it, adds it. */
  lemma AddRowText(rows: seq<seq<CellType>>, cells: seq<CellType>)
    requires |cells| > 0 && cells[0] == Wall && cells[|cells| - 1] == Wall
    ensures AddRow(Ok(rows), TrimmedRow(RowText(cells))) == Ok(rows + [cells])
  {
    RowTextTrimmed(cells);
    RowCellsText(cells);
  }

  /** A non-empty maze whose rows are walled at both ends reads back from its
      own text. */
  lemma ParseMazeText(grid: seq<seq<CellType>>)
    requires |grid| > 0 && WalledRows(grid)
    ensures MazeOf(MazeText(grid)) == Ok(grid)
  {
    var lines := Lines(grid);
    assert forall r :: 0 <= r < |lines| ==> '\n' !in lines[r];
    SplitJoin(lines, '\n');
    RowsOfText(grid);
  }

  /** A path cell at the edge of a row is trimmed away: the row `" *"` reads
      as a single wall. */
  lemma EdgePathTrimmed()
    ensures MazeOf(MazeText([[Path, Wall]])) == Ok([[Wall]])
  {
    EdgeText();
    SplitNoSep(" *", '\n');
    EdgeRows();
  }

  lemma EdgeText()
    ensures MazeText([[Path, Wall]]) == " *"
  {
    var row := [Path, Wall];
    assert RowText(row[..1]) == " ";
    assert Lines([row]) == [RowText(row)] by {
      var none: seq<seq<CellType>> := [];
      assert [row][..0] == none;
    }
  }

  lemma EdgeRows()
    ensures RowsOf([" *"]) == Ok([[Wall]])
  {
    var t := " *";
    var wall := [Wall];
    var noLines: seq<string> := [];
    var noRows: seq<seq<CellType>> := [];
    assert [t][..0] == noLines;
    assert [t][..1] == [t];
    assert noRows + [wall] == [wall];
    assert RowText(wall) == "*";
    RowsOfStep([t], 0);
    EdgeRowTrimmed();
    RowCellsText(wall);
  }

  lemma EdgeRowTrimmed()
    ensures TrimmedRow(" *") == "*"
  {
    var t := " *";
    assert TrimEndMatches(t, '\r') == t;
    assert Lead(t, RustSpace) == 1;
    assert t[1..] == "*";
    assert Trail("*", RustSpace) == 0;
  }
}
