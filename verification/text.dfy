/** The text rendering of a maze: three lines of statistics, then one line per
    row of cells, with '+' for a cell on the path, ' ' for a free cell and '█'
    for a blocked one. */
module Text {
  import opened Grid
  import opened Arith

  const PathGlyph: char := '+'
  const FreeGlyph: char := ' '
  const WallGlyph: char := '█'

  /** The character of one cell. */
  function Glyph(cell: Cell, onPath: bool): (ch: char)
    ensures ch == PathGlyph <==> onPath
    ensures ch == FreeGlyph <==> !onPath && cell.free
    ensures ch == WallGlyph <==> !onPath && !cell.free
    ensures ch != '\n'
  {
    if onPath then PathGlyph else if cell.free then FreeGlyph else WallGlyph
  }

  /** Go's map lookup: a missing key reads as `false`. */
  function Lookup<T(==)>(m: map<T, bool>, key: T): bool {
    key in m && m[key]
  }

  /** `sliceIntoBooleanMap`: every element of `s` maps to `true`, and nothing
      else is a key. */
  method SliceIntoBooleanMap<T(==)>(s: seq<T>) returns (elementMap: map<T, bool>)
    ensures forall x :: x in elementMap <==> x in s
    ensures forall x :: x in elementMap ==> elementMap[x]
  {
    elementMap := map[];
    var k := 0;
    while k < |s|
      invariant 0 <= k <= |s|
      invariant forall x :: x in elementMap <==> x in s[..k]
      invariant forall x :: x in elementMap ==> elementMap[x]
    {
      elementMap := elementMap[s[k] := true];
      assert s[..k + 1] == s[..k] + [s[k]];
      k := k + 1;
    }
    assert s[..k] == s;
  }

  /** `includes`: scan `s` left to right for `e`. */
  method Includes<T(==)>(s: seq<T>, e: T) returns (found: bool)
    ensures found <==> e in s
  {
    var k := 0;
    while k < |s|
      invariant 0 <= k <= |s|
      invariant e !in s[..k]
    {
      if s[k] == e {
        return true;
      }
      assert s[..k + 1] == s[..k] + [s[k]];
      k := k + 1;
    }
    assert s[..k] == s;
    return false;
  }

  /** `stringifyLine`: one character per cell of row `row`, then a newline. */
  method StringifyLine(cells: array2<Cell>, row: nat, pathMap: map<Position, bool>) returns (s: string)
    requires row < cells.Length0
    ensures |s| == cells.Length1 + 1 && s[cells.Length1] == '\n'
    ensures forall k :: 0 <= k < cells.Length1 ==>
              s[k] == Glyph(cells[row, k], Lookup(pathMap, cells[row, k].position))
  {
    s := "";
    var k := 0;
    while k < cells.Length1
      invariant 0 <= k <= cells.Length1
      invariant |s| == k
      invariant forall k' :: 0 <= k' < k ==> s[k'] == Glyph(cells[row, k'], Lookup(pathMap, cells[row, k'].position))
    {
      var cell := cells[row, k];
      if Lookup(pathMap, cell.position) {
        s := s + "+";
      } else if cell.free {
        s := s + " ";
      } else {
        s := s + "█";
      }
      k := k + 1;
    }
    s := s + "\n";
  }

  /** The line of row `row` when the cells at `marked` are on the path. */
  ghost function LineText(cells: array2<Cell>, row: nat, marked: set<Position>): string
    requires row < cells.Length0
    reads cells
  {
    seq(cells.Length1, k requires 0 <= k < cells.Length1 reads cells =>
      Glyph(cells[row, k], cells[row, k].position in marked)) + "\n"
  }

  /** The lines of the first `rows` rows. */
  ghost function GridText(cells: array2<Cell>, marked: set<Position>, rows: nat): string
    requires rows <= cells.Length0
    reads cells
  {
    if rows == 0 then "" else GridText(cells, marked, rows - 1) + LineText(cells, rows - 1, marked)
  }

  /** The character for column `k` of row `i`: a newline after the last column. */
  ghost function CharAt(cells: array2<Cell>, marked: set<Position>, i: int, k: int): char
    reads cells
  {
    if 0 <= i < cells.Length0 && 0 <= k < cells.Length1 then Glyph(cells[i, k], cells[i, k].position in marked)
    else '\n'
  }

  /** The grid text is `rows` lines of `width + 1` characters: character `n`
      belongs to row `n / (width + 1)` and shows column `n % (width + 1)`. */
  lemma {:induction false} GridTextAt(cells: array2<Cell>, marked: set<Position>, rows: nat)
    requires rows <= cells.Length0
    ensures |GridText(cells, marked, rows)| == rows * (cells.Length1 + 1)
    ensures forall n :: 0 <= n < |GridText(cells, marked, rows)| ==>
              n / (cells.Length1 + 1) < rows &&
              GridText(cells, marked, rows)[n] == CharAt(cells, marked, n / (cells.Length1 + 1), n % (cells.Length1 + 1))
  {
    if rows > 0 {
      var w := cells.Length1 + 1;
      var before := GridText(cells, marked, rows - 1);
      var line := LineText(cells, rows - 1, marked);
      GridTextAt(cells, marked, rows - 1);
      assert |before| == (rows - 1) * w;
      assert rows * w == (rows - 1) * w + w;
      assert GridText(cells, marked, rows) == before + line;
      forall n | 0 <= n < |GridText(cells, marked, rows)|
        ensures n / w < rows && GridText(cells, marked, rows)[n] == CharAt(cells, marked, n / w, n % w)
      {
        if n < |before| {
          assert GridText(cells, marked, rows)[n] == before[n];
        } else {
          var k := n - |before|;
          DivModOf(rows - 1, w, k);
          assert n == (rows - 1) * w + k;
          assert GridText(cells, marked, rows)[n] == line[k];
        }
      }
    }
  }

  /** The number of newlines in `s`. */
  function NewlineCount(s: string): nat {
    if s == [] then 0 else NewlineCount(s[..|s| - 1]) + (if s[|s| - 1] == '\n' then 1 else 0)
  }

  lemma {:induction false} NewlineCountConcat(a: string, b: string)
    ensures NewlineCount(a + b) == NewlineCount(a) + NewlineCount(b)
    decreases |b|
  {
    if b != [] {
      assert (a + b)[..|a + b| - 1] == a + b[..|b| - 1];
      assert (a + b)[|a + b| - 1] == b[|b| - 1];
      NewlineCountConcat(a, b[..|b| - 1]);
    } else {
      assert a + b == a;
    }
  }

  /** A text without a newline counts none. */
  lemma {:induction false} NoNewline(s: string)
    requires '\n' !in s
    ensures NewlineCount(s) == 0
    decreases |s|
  {
    if s != [] {
      NoNewline(s[..|s| - 1]);
    }
  }

  /** The grid text has one line per row. */
  lemma {:induction false} GridTextLines(cells: array2<Cell>, marked: set<Position>, rows: nat)
    requires rows <= cells.Length0
    ensures NewlineCount(GridText(cells, marked, rows)) == rows
  {
    if rows > 0 {
      var glyphs := seq(cells.Length1, k requires 0 <= k < cells.Length1 reads cells =>
        Glyph(cells[rows - 1, k], cells[rows - 1, k].position in marked));
      assert LineText(cells, rows - 1, marked) == glyphs + "\n";
      NoNewline(glyphs);
      NewlineCountConcat(glyphs, "\n");
      GridTextLines(cells, marked, rows - 1);
      NewlineCountConcat(GridText(cells, marked, rows - 1), LineText(cells, rows - 1, marked));
    }
  }

  /** The decimal digit `d`. */
  function DigitChar(d: int): char
    requires 0 <= d < 10
  {
    ('0' as int + d) as char
  }

  predicate IsDigit(c: char) {
    '0' <= c <= '9'
  }

  /** Decimal digits of `n`, most significant first, without leading zeros. */
  function NatText(n: nat): (s: string)
    ensures |s| >= 1 && forall i :: 0 <= i < |s| ==> IsDigit(s[i])
    ensures s[0] == '0' ==> n == 0
  {
    if n < 10 then [DigitChar(n)] else NatText(n / 10) + [DigitChar(n % 10)]
  }

  /** `fmt.Sprint` of an integer: an optional minus sign, then decimal digits. */
  function Sprint(n: int): (s: string)
    ensures '\n' !in s
  {
    if n < 0 then "-" + NatText(-n) else NatText(n)
  }

  /** The value of the decimal digit `c`. */
  function DigitValue(c: char): nat
    requires IsDigit(c)
  {
    c as int - '0' as int
  }

  /** The value of a string of decimal digits. */
  function ParseNat(s: string): nat
    requires forall i :: 0 <= i < |s| ==> IsDigit(s[i])
  {
    if s == [] then 0 else 10 * ParseNat(s[..|s| - 1]) + DigitValue(s[|s| - 1])
  }

  /** The value of an optionally negative decimal. */
  function ParseInt(s: string): int
    requires |s| >= 1
    requires forall i :: (if s[0] == '-' then 1 else 0) <= i < |s| ==> IsDigit(s[i])
  {
    if s[0] == '-' then 0 - ParseNat(s[1..]) else ParseNat(s)
  }

  lemma {:induction false} NatTextRoundTrip(n: nat)
    ensures ParseNat(NatText(n)) == n
  {
    if n >= 10 {
      var s := NatText(n);
      assert s[..|s| - 1] == NatText(n / 10);
      NatTextRoundTrip(n / 10);
    }
  }

  /** The decimal text of an integer reads back as that integer, so distinct
      integers print differently. */
  lemma SprintRoundTrip(n: int)
    ensures ParseInt(Sprint(n)) == n
  {
    if n < 0 {
      assert Sprint(n)[1..] == NatText(-n);
      NatTextRoundTrip(-n);
    } else {
      NatTextRoundTrip(n);
    }
  }

  /** `stringifyMazeStats`: the dimension, the start and the finish, one line
      each: three lines, the last one ended by a newline. */
  function StatsText(m: Maze): (s: string)
    ensures NewlineCount(s) == 3 && s[|s| - 1] == '\n'
  {
    var a, b, c := DimensionLine(m), StartLine(m), FinishLine(m);
    OneLine(a);
    OneLine(b);
    OneLine(c);
    NewlineCountConcat(a + "\n", b + "\n");
    NewlineCountConcat((a + "\n") + (b + "\n"), c + "\n");
    (a + "\n") + (b + "\n") + (c + "\n")
  }

  function DimensionLine(m: Maze): (line: string)
    ensures '\n' !in line
  {
    "Dimensions (w x h): " + Sprint(m.dimension.width) + " x " + Sprint(m.dimension.height)
  }

  function StartLine(m: Maze): (line: string)
    ensures '\n' !in line
  {
    "Start Position (x,y): (" + Sprint(m.start.x) + "," + Sprint(m.start.y) + ")"
  }

  function FinishLine(m: Maze): (line: string)
    ensures '\n' !in line
  {
    "Finish Position (x,y): (" + Sprint(m.finish.x) + "," + Sprint(m.finish.y) + ")"
  }

  /** A newline-free text followed by a newline is one line. */
  lemma OneLine(s: string)
    requires '\n' !in s
    ensures NewlineCount(s + "\n") == 1
  {
    NoNewline(s);
    NewlineCountConcat(s, "\n");
  }

  /** The positions on a path. */
  ghost function PathSet(path: seq<Position>): set<Position> {
    set p | p in path
  }

  /** Appending the lines of the rows from `row` on, with the cells of `pathMap`
      on the path; the loop shared by both `String` methods. */
  method AppendLines(s0: string, cells: array2<Cell>, pathMap: map<Position, bool>, ghost marked: set<Position>)
    returns (s: string)
    requires forall p :: Lookup(pathMap, p) <==> p in marked
    ensures s == s0 + GridText(cells, marked, cells.Length0)
  {
    s := s0;
    var i := 0;
    while i < cells.Length0
      invariant 0 <= i <= cells.Length0
      invariant s == s0 + GridText(cells, marked, i)
    {
      var line := StringifyLine(cells, i, pathMap);
      assert line == LineText(cells, i, marked);
      s := s + line;
      i := i + 1;
    }
  }

  /** `Maze.String`: the statistics, then every row with no cell on the path. */
  method MazeString(m: Maze) returns (s: string)
    ensures s == StatsText(m) + GridText(m.cells, {}, m.cells.Length0)
  {
    var pathMap := SliceIntoBooleanMap<Position>([]);
    s := AppendLines(StatsText(m), m.cells, pathMap, {});
  }

  /** `SolvedMaze.String`: the statistics, then every row with the cells of
      the path marked. */
  method SolvedMazeString(sm: SolvedMaze) returns (s: string)
    ensures s == StatsText(sm.maze) + GridText(sm.maze.cells, PathSet(sm.path), sm.maze.cells.Length0)
  {
    var pathMap := SliceIntoBooleanMap(sm.path);
    s := AppendLines(StatsText(sm.maze), sm.maze.cells, pathMap, PathSet(sm.path));
  }

  /** The text of a maze has three lines of statistics and one line per row. */
  lemma MazeTextLines(m: Maze, marked: set<Position>)
    ensures NewlineCount(StatsText(m) + GridText(m.cells, marked, m.cells.Length0)) == 3 + m.cells.Length0
  {
    GridTextLines(m.cells, marked, m.cells.Length0);
    NewlineCountConcat(StatsText(m), GridText(m.cells, marked, m.cells.Length0));
  }
}
