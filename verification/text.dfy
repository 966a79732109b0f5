/** Strings as both sources handle them: splitting at one character,
    trimming white space (ECMAScript's set for the TypeScript code, Unicode
    White_Space for the Rust code), and decimal digits. */
module Text {
  // ----- split -----

  function Count(s: string, c: char): nat
  {
    if |s| == 0 then 0 else (if s[0] == c then 1 else 0) + Count(s[1..], c)
  }

  /** The pieces joined back with the separator between them. */
  function Join(parts: seq<string>, sep: char): string
  {
    if |parts| == 0 then ""
    else if |parts| == 1 then parts[0]
    else parts[0] + [sep] + Join(parts[1..], sep)
  }

  /** `s.split(sep)` for a one-character separator: the maximal pieces
      between occurrences of `sep`, one more than there are occurrences; the
      empty string gives one empty piece. */
  function Split(s: string, sep: char): (r: seq<string>)
    ensures |r| == Count(s, sep) + 1
    ensures forall i :: 0 <= i < |r| ==> sep !in r[i]
    ensures Join(r, sep) == s
    decreases |s|
  {
    if |s| == 0 then [""]
    else
      var rest := Split(s[1..], sep);
      if s[0] == sep then
        assert Join([""] + rest, sep) == [sep] + Join(rest, sep) by {
          assert ([""] + rest)[1..] == rest;
        }
        [""] + rest
      else
        var r := [[s[0]] + rest[0]] + rest[1..];
        assert Join(r, sep) == [s[0]] + Join(rest, sep) by {
          if |rest| > 1 {
            assert r[1..] == rest[1..];
          }
        }
        assert s == [s[0]] + s[1..];
        r
  }

  lemma {:induction false} SplitNoSep(a: string, sep: char)
    requires sep !in a
    ensures Split(a, sep) == [a]
    decreases |a|
  {
    if |a| > 0 {
      assert sep !in a[1..];
      SplitNoSep(a[1..], sep);
      assert [a[0]] + a[1..] == a;
    }
  }

  /** A separator-free piece, the separator, then the rest: the piece comes
      first and the rest splits on its own. */
  lemma {:induction false} SplitCons(a: string, b: string, sep: char)
    requires sep !in a
    ensures Split(a + [sep] + b, sep) == [a] + Split(b, sep)
    decreases |a|
  {
    var s := a + [sep] + b;
    if |a| == 0 {
      assert s[1..] == b;
    } else {
      assert s[1..] == a[1..] + [sep] + b;
      assert sep !in a[1..];
      SplitCons(a[1..], b, sep);
      assert [a[0]] + a[1..] == a;
    }
  }

  /** Two separator-free pieces with one separator between them split back. */
  lemma SplitTwo(a: string, b: string, sep: char)
    requires sep !in a && sep !in b
    ensures Split(a + [sep] + b, sep) == [a, b]
  {
    SplitCons(a, b, sep);
    SplitNoSep(b, sep);
  }

  /** Joining separator-free pieces and splitting again gives the pieces back. */
  lemma {:induction false} SplitJoin(parts: seq<string>, sep: char)
    requires |parts| > 0 && forall i :: 0 <= i < |parts| ==> sep !in parts[i]
    ensures Split(Join(parts, sep), sep) == parts
    decreases |parts|
  {
    if |parts| == 1 {
      SplitNoSep(parts[0], sep);
    } else {
      SplitJoin(parts[1..], sep);
      SplitCons(parts[0], Join(parts[1..], sep), sep);
      assert parts == [parts[0]] + parts[1..];
    }
  }

  // ----- trim -----

  /** Whose notion of white space a trim uses. */
  datatype Whitespace = JsSpace | RustSpace

  predicate IsSpace(ws: Whitespace, c: char)
  {
    match ws
    case JsSpace => IsJsSpace(c)
    case RustSpace => IsRustSpace(c)
  }

  /** The characters `String.prototype.trim` removes: ECMAScript white space
      and line terminators. */
  predicate IsJsSpace(c: char)
  {
    || c == '\t' || c == '\n' || c == '\U{B}' || c == '\U{C}' || c == '\r' || c == ' '
    || c == '\U{A0}' || c == '\U{1680}' || ('\U{2000}' <= c <= '\U{200A}')
    || c == '\U{2028}' || c == '\U{2029}' || c == '\U{202F}' || c == '\U{205F}'
    || c == '\U{3000}' || c == '\U{FEFF}'
  }

  /** The characters Rust's `str::trim` removes: Unicode White_Space. */
  predicate IsRustSpace(c: char)
  {
    || ('\t' <= c <= '\r') || c == ' ' || c == '\U{85}' || c == '\U{A0}' || c == '\U{1680}'
    || ('\U{2000}' <= c <= '\U{200A}') || c == '\U{2028}' || c == '\U{2029}' || c == '\U{202F}'
    || c == '\U{205F}' || c == '\U{3000}'
  }

  /** The number of leading white-space characters. */
  function Lead(s: string, ws: Whitespace): (k: nat)
    ensures k <= |s|
    ensures forall i :: 0 <= i < k ==> IsSpace(ws, s[i])
    ensures k < |s| ==> !IsSpace(ws, s[k])
  {
    if |s| > 0 && IsSpace(ws, s[0]) then 1 + Lead(s[1..], ws) else 0
  }

  /** The number of trailing white-space characters. */
  function Trail(s: string, ws: Whitespace): (k: nat)
    ensures k <= |s|
    ensures forall i :: |s| - k <= i < |s| ==> IsSpace(ws, s[i])
    ensures k < |s| ==> !IsSpace(ws, s[|s| - 1 - k])
  {
    if |s| > 0 && IsSpace(ws, s[|s| - 1]) then 1 + Trail(s[..|s| - 1], ws) else 0
  }

  /** `trim`: the slice of s left after removing its leading and its
      trailing white space; a string of white space only trims to "". */
  function Trim(s: string, ws: Whitespace): (r: string)
    ensures Lead(s, ws) + |r| <= |s| && r == s[Lead(s, ws)..Lead(s, ws) + |r|]
    ensures forall i :: Lead(s, ws) + |r| <= i < |s| ==> IsSpace(ws, s[i])
    ensures |r| > 0 ==> !IsSpace(ws, r[0]) && !IsSpace(ws, r[|r| - 1])
  {
    var k := Lead(s, ws);
    var t := s[k..];
    var m := Trail(t, ws);
    if m == |t| then "" else t[..|t| - m]
  }

  lemma TrimPlain(s: string, ws: Whitespace)
    requires |s| > 0 && forall i :: 0 <= i < |s| ==> !IsSpace(ws, s[i])
    ensures Trim(s, ws) == s
  {
  }

  // ----- decimal digits -----

  predicate IsDigit(c: char) { '0' <= c <= '9' }

  predicate AllDigits(s: string) { forall i :: 0 <= i < |s| ==> IsDigit(s[i]) }

  /** The value of a string of decimal digits, most significant first. */
  function DigitsValue(d: string): nat
    requires AllDigits(d)
  {
    if |d| == 0 then 0 else 10 * DigitsValue(d[..|d| - 1]) + (d[|d| - 1] as int - '0' as int)
  }

  /** Decimal digits of n, most significant first, no leading zero. */
  function NatToString(n: nat): (s: string)
    ensures |s| > 0 && AllDigits(s) && DigitsValue(s) == n
    ensures |s| > 1 ==> s[0] != '0'
  {
    var d := ['0' + (n % 10) as char];
    if n < 10 then d
    else
      var s := NatToString(n / 10) + d;
      assert s[..|s| - 1] == NatToString(n / 10);
      s
  }

  /** How an integer is written in decimal, with a '-' when negative. */
  function IntToString(i: int): (s: string)
    ensures |s| > 0
    ensures forall k :: 0 <= k < |s| ==> IsDigit(s[k]) || s[k] == '-'
  {
    if i < 0 then "-" + NatToString(-i) else NatToString(i)
  }


  /** A pair of integers as Rust's debug format writes a tuple: `(x, y)`, here
      grouped at its comma. */
  function PairText(x: int, y: int): string
  {
    ("(" + IntToString(x)) + [','] + (" " + IntToString(y) + ")")
  }
}
