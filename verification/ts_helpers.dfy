/** The pure helpers of the TypeScript maze game: the Manhattan heuristic,
    the maze-text splitter `string_to_maze_grid` and the parser of the
    `"target:(x, y)&computer_player:(x, y)"` game-state string, with the
    pieces of the JavaScript string library they use (`split` on one
    character, `trim`, `replace` of a one-character pattern, `parseInt` in
    base 10). */
module TsHelpers {
  import opened Wrappers
  import opened Grid
  import opened Text

  /** `heuristic`: the Manhattan distance between two cells. */
  function Heuristic(current: Pos, target: Pos): (h: int)
    ensures h >= 0
    ensures h == 0 <==> current == target
    ensures h == Manhattan(target, current) && h == Manhattan(current, target)
  {
    Abs(target.x - current.x) + Abs(target.y - current.y)
  }

  // ----- replace -----

  /** The first position of c in s. */
  function IndexOf(s: string, c: char): (i: nat)
    requires c in s
    ensures i < |s| && s[i] == c && c !in s[..i]
  {
    if s[0] == c then 0
    else
      var i := 1 + IndexOf(s[1..], c);
      assert s[..i] == [s[0]] + s[1..][..i - 1];
      i
  }

  /** `s.replace(c, '')` with a one-character pattern: the first occurrence
      of c, if any, is removed and nothing else changes. */
  function RemoveFirst(s: string, c: char): (r: string)
    ensures c !in s ==> r == s
    ensures c in s ==> |r| + 1 == |s|
    ensures c in s ==> exists i :: 0 <= i < |s| && s[i] == c && c !in s[..i] && r == s[..i] + s[i + 1..]
  {
    if c in s then
      var i := IndexOf(s, c);
      s[..i] + s[i + 1..]
    else s
  }

  // ----- parseInt -----

  /** A JavaScript number as `parseInt` produces it: an integer or NaN. */
  datatype Num = Int(value: int) | NaN

  /** The length of the run of decimal digits s starts with. */
  function DigitRun(s: string): (k: nat)
    ensures k <= |s| && AllDigits(s[..k])
    ensures k < |s| ==> !IsDigit(s[k])
  {
    if |s| > 0 && IsDigit(s[0]) then
      var k := 1 + DigitRun(s[1..]);
      assert s[..k] == [s[0]] + s[1..][..k - 1];
      k
    else 0
  }

  /** `parseInt(s, 10)`: leading white space is skipped, then an optional
      sign, then the longest run of decimal digits is read; with no digit the
      result is NaN, and whatever follows the run is ignored. */
  function ParseInt(s: string): (r: Num)
    ensures var t := s[Lead(s, JsSpace)..];
            var u := if |t| > 0 && (t[0] == '-' || t[0] == '+') then t[1..] else t;
            && (r.NaN? <==> DigitRun(u) == 0)
            && (r.Int? ==> Abs(r.value) == DigitsValue(u[..DigitRun(u)]))
            && (r.Int? && r.value != 0 ==> (r.value < 0 <==> t[0] == '-'))
  {
    var t := s[Lead(s, JsSpace)..];
    var negative := |t| > 0 && t[0] == '-';
    var u := if |t| > 0 && (t[0] == '-' || t[0] == '+') then t[1..] else t;
    var k := DigitRun(u);
    if k == 0 then NaN
    else
      var v: int := DigitsValue(u[..k]);
      Int(if negative then -v else v)
  }

  /** Reading back a written integer gives it back. */
  lemma ParseIntString(i: int)
    ensures ParseInt(IntToString(i)) == Int(i)
  {
    if i < 0 {
      ParseNegative(-i);
    } else {
      ParseNatural(i);
    }
  }

  lemma ParseNatural(n: nat)
    ensures ParseInt(NatToString(n)) == Int(n)
  {
    var s := NatToString(n);
    assert s[..|s|] == s;
    assert Lead(s, JsSpace) == 0;
    assert s[0..] == s;
  }

  lemma ParseNegative(n: nat)
    requires n > 0
    ensures ParseInt("-" + NatToString(n)) == Int(-(n as int))
  {
    var d := NatToString(n);
    var s := "-" + d;
    assert s[1..] == d;
    assert d[..|d|] == d;
    assert Lead(s, JsSpace) == 0;
    assert s[0..] == s;
  }

  // ----- the two parsers -----

  /** `string_to_maze_grid`: one row per line of the text, each the trimmed
      line split into its characters. */
  function StringToMazeGrid(mazeData: string): (grid: seq<seq<char>>)
    ensures |grid| == Count(mazeData, '\n') + 1
    ensures forall i :: 0 <= i < |grid| ==> grid[i] == Trim(Split(mazeData, '\n')[i], JsSpace)
    ensures forall i :: 0 <= i < |grid| && |grid[i]| > 0 ==>
              !IsSpace(JsSpace, grid[i][0]) && !IsSpace(JsSpace, grid[i][|grid[i]| - 1])
  {
    var rows := Split(mazeData, '\n');
    seq(|rows|, i requires 0 <= i < |rows| => Trim(rows[i], JsSpace))
  }

  /** `MazeInfo`: the target and the computer player's cell as two numbers
      each. */
  datatype MazeInfo = MazeInfo(target: (Num, Num), computerPlayer: (Num, Num))

  /** One coordinate pair: the part after the first ':', split at ','; the
      first number loses its '(' and the second its ')'. None where the
      source reads a missing array element and throws. */
  function ParsePair(part: string): (r: Option<(Num, Num)>)
    ensures r.None? <==> ':' !in part || ',' !in Split(part, ':')[1]
  {
    var fields := Split(part, ':');
    if |fields| < 2 then None
    else
      var tuple := Split(fields[1], ',');
      if |tuple| < 2 then None
      else Some((ParseInt(Trim(RemoveFirst(tuple[0], '('), JsSpace)), ParseInt(Trim(RemoveFirst(tuple[1], ')'), JsSpace))))
  }

  /** `from_string_to_game_state`: the text before the first '&' gives the
      target, the text after it the computer player. Every element the
      source reads from a too-short array throws, and the `catch` turns
      that into `null`, here None. */
  function FromStringToGameState(mazeData: string): (r: Option<MazeInfo>)
    ensures '&' !in mazeData ==> r.None?
    ensures ':' !in Split(mazeData, '&')[0] ==> r.None?
    ensures r.None? <==> |Split(mazeData, '&')| < 2 || ParsePair(Split(mazeData, '&')[0]).None?
                         || ParsePair(Split(mazeData, '&')[1]).None?
    ensures r.Some? ==> var parts := Split(mazeData, '&');
              && ParsePair(parts[0]) == Some(r.value.target)
              && ParsePair(parts[1]) == Some(r.value.computerPlayer)
  {
    var parts := Split(mazeData, '&');
    var target := ParsePair(parts[0]);
    if target.None? || |parts| < 2 then None
    else
      var player := ParsePair(parts[1]);
      if player.None? then None
      else Some(MazeInfo(target.value, player.value))
  }

  /** The game-state text for a target t and a computer player c:
      `target:(tx, ty)&computer_player:(cx, cy)`. */
  function GameStateString(t: Pos, c: Pos): string
  {
    Labelled("target", t) + ['&'] + Labelled("computer_player", c)
  }

  function Labelled(name: string, p: Pos): string
  {
    name + [':'] + PairText(p.x, p.y)
  }

  lemma NoMark(i: int, c: char)
    requires !IsDigit(c) && c != '-'
    ensures c !in IntToString(i)
  {
  }

  lemma RemoveOpen(x: string)
    requires '(' !in x
    ensures RemoveFirst("(" + x, '(') == x
  {
    var s := "(" + x;
    assert s[0] == '(';
    assert IndexOf(s, '(') == 0;
    assert s[1..] == x;
  }

  lemma RemoveClose(y: string)
    requires ')' !in y
    ensures RemoveFirst(" " + y + ")", ')') == " " + y
  {
    var s := " " + y + ")";
    var i := IndexOf(s, ')');
    assert s[..|s| - 1] == " " + y;
    assert i == |s| - 1;
    assert s[..i] == " " + y;
  }

  lemma TrimNumber(i: int)
    ensures Trim(IntToString(i), JsSpace) == IntToString(i)
    ensures Trim(" " + IntToString(i), JsSpace) == IntToString(i)
  {
    var y := IntToString(i);
    TrimPlain(y, JsSpace);
    var s := " " + y;
    assert s[1..] == y;
    assert Lead(s, JsSpace) == 1 + Lead(y, JsSpace);
    assert Lead(y, JsSpace) == 0;
  }

  /** A pair written as "(x, y)" after a name reads back as x and y. */
  lemma ParsePairString(name: string, p: Pos)
    requires ':' !in name
    ensures ParsePair(Labelled(name, p)) == Some((Int(p.x), Int(p.y)))
  {
    var x, y := IntToString(p.x), IntToString(p.y);
    NoMark(p.x, ':'); NoMark(p.y, ':');
    NoMark(p.x, ','); NoMark(p.y, ',');
    NoMark(p.x, '('); NoMark(p.y, ')');
    var first, second := "(" + x, " " + y + ")";
    SplitTwo(name, PairText(p.x, p.y), ':');
    SplitTwo(first, second, ',');
    RemoveOpen(x);
    RemoveClose(y);
    TrimNumber(p.x);
    TrimNumber(p.y);
    ParseIntString(p.x);
    ParseIntString(p.y);
  }

  lemma TargetPair(t: Pos)
    ensures ParsePair(Labelled("target", t)) == Some((Int(t.x), Int(t.y)))
  {
    ParsePairString("target", t);
  }

  lemma PlayerPair(c: Pos)
    ensures ParsePair(Labelled("computer_player", c)) == Some((Int(c.x), Int(c.y)))
  {
    ParsePairString("computer_player", c);
  }

  /** The parser reads back what the game-state text says. */
  lemma GameStateRoundTrip(t: Pos, c: Pos)
    ensures FromStringToGameState(GameStateString(t, c)) ==
            Some(MazeInfo((Int(t.x), Int(t.y)), (Int(c.x), Int(c.y))))
  {
    GameStateParts(t, c);
    TargetPair(t);
    PlayerPair(c);
    ReadParts(GameStateString(t, c), Labelled("target", t), Labelled("computer_player", c));
  }

  /** The game-state text splits at its one '&' into the two labelled pairs. */
  lemma GameStateParts(t: Pos, c: Pos)
    ensures Split(GameStateString(t, c), '&') == [Labelled("target", t), Labelled("computer_player", c)]
  {
    NotInLabelled("target", t, '&');
    NotInLabelled("computer_player", c, '&');
    SplitTwo(Labelled("target", t), Labelled("computer_player", c), '&');
  }

  lemma NotInLabelled(name: string, p: Pos, m: char)
    requires m !in name && m !in ":(, )" && !IsDigit(m) && m != '-'
    ensures m !in Labelled(name, p)
  {
    NoMark(p.x, m);
    NoMark(p.y, m);
    var x, y := IntToString(p.x), IntToString(p.y);
    assert Labelled(name, p) == name + [':'] + ("(" + x) + [','] + (" " + y + ")");
  }

  /** Two parts that both read as pairs give the game state. */
  lemma ReadParts(mazeData: string, a: string, b: string)
    requires Split(mazeData, '&') == [a, b] && ParsePair(a).Some? && ParsePair(b).Some?
    ensures FromStringToGameState(mazeData) == Some(MazeInfo(ParsePair(a).value, ParsePair(b).value))
  {
  }
}
