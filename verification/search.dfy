/** The path search engine: depth-first search over the cell matrix, marking
    cells visited in place and never unmarking them. */
module Search {
  import opened Grid

  /** `isInRange`: the position lies inside the matrix, so the matrix has a
      first row (the source reads `len(cells[0])` only after the row check). */
  function InRange(cells: array2<Cell>, p: Position): (inside: bool)
    ensures inside ==> cells.Length0 > 0 && cells.Length1 > 0
  {
    0 <= p.y < cells.Length0 && 0 <= p.x < cells.Length1
  }

  /** `getCell`: the cell stored at row `p.y`, column `p.x`. */
  function GetCell(cells: array2<Cell>, p: Position): Cell
    requires InRange(cells, p)
    reads cells
  {
    cells[p.y, p.x]
  }

  /** In a matrix whose cells sit at their own indices, `getCell` finds the
      cell of a position, and looking up the position of any cell gives that
      cell back. */
  lemma GetCellByPosition(cells: array2<Cell>)
    requires AtOwnIndices(cells)
    ensures forall p :: InRange(cells, p) ==> GetCell(cells, p).position == p
    ensures forall i, j :: 0 <= i < cells.Length0 && 0 <= j < cells.Length1 ==>
              InRange(cells, cells[i, j].position) && GetCell(cells, cells[i, j].position) == cells[i, j]
  {
  }

  function Abs(n: int): nat {
    if n < 0 then -n else n
  }

  /** One 4-directional step: the positions differ by one unit on one axis. */
  predicate Adjacent(a: Position, b: Position) {
    Abs(a.x - b.x) + Abs(a.y - b.y) == 1
  }

  /** The neighbour candidates of `getUnvisitedNeighbors`, in its fixed order:
      west, south, east, north. */
  function Candidates(p: Position): seq<Position> {
    [Position(p.x - 1, p.y), Position(p.x, p.y + 1), Position(p.x + 1, p.y), Position(p.x, p.y - 1)]
  }

  /** A candidate the search may step to: in range, free and not yet visited. */
  predicate Eligible(cells: array2<Cell>, q: Position)
    reads cells
  {
    InRange(cells, q) && GetCell(cells, q).free && !GetCell(cells, q).visited
  }

  /** The eligible elements of `qs`, in the order of `qs`. */
  function Eligibles(cells: array2<Cell>, qs: seq<Position>): seq<Position>
    reads cells
  {
    if qs == [] then []
    else Eligibles(cells, qs[..|qs| - 1]) + (if Eligible(cells, qs[|qs| - 1]) then [qs[|qs| - 1]] else [])
  }

  /** `[q]` when `q` is eligible, `[]` otherwise. */
  function Keep(cells: array2<Cell>, q: Position): seq<Position>
    reads cells
  {
    if Eligible(cells, q) then [q] else []
  }

  /** What `getUnvisitedNeighbors` returns. */
  function UnvisitedNeighbors(cells: array2<Cell>, p: Position): seq<Position>
    reads cells
  {
    Eligibles(cells, Candidates(p))
  }

  /** The four candidates are exactly the positions one step away. */
  lemma CandidatesAreAdjacent(p: Position, q: Position)
    ensures q in Candidates(p) <==> Adjacent(p, q)
  {
  }

  /** Filtering a sequence extended by one element. */
  lemma EligiblesSnoc(cells: array2<Cell>, qs: seq<Position>, q: Position)
    ensures Eligibles(cells, qs + [q]) == Eligibles(cells, qs) + Keep(cells, q)
  {
    assert (qs + [q])[..|qs|] == qs;
  }

  /** The neighbours are the eligible positions one step away, at most four of
      them, in the order west, south, east, north. */
  lemma UnvisitedNeighborsSpec(cells: array2<Cell>, p: Position)
    ensures UnvisitedNeighbors(cells, p) ==
              Keep(cells, Position(p.x - 1, p.y)) + Keep(cells, Position(p.x, p.y + 1)) +
              Keep(cells, Position(p.x + 1, p.y)) + Keep(cells, Position(p.x, p.y - 1))
    ensures |UnvisitedNeighbors(cells, p)| <= 4
    ensures forall q :: q in UnvisitedNeighbors(cells, p) <==> Adjacent(p, q) && Eligible(cells, q)
  {
    var c := Candidates(p);
    var w, so, e, n := c[0], c[1], c[2], c[3];
    assert c == [] + [w] + [so] + [e] + [n];
    EligiblesSnoc(cells, [], w);
    EligiblesSnoc(cells, [w], so);
    EligiblesSnoc(cells, [w, so], e);
    assert [w] + [so] == [w, so] && [w, so] + [e] == [w, so, e];
    EligiblesSnoc(cells, [w, so, e], n);
    forall q ensures q in c <==> Adjacent(p, q) {
      CandidatesAreAdjacent(p, q);
    }
  }

  /** `getUnvisitedNeighbors`: scan the four candidates and keep the eligible ones. */
  method GetUnvisitedNeighbors(cells: array2<Cell>, position: Position) returns (available: seq<Position>)
    ensures available == UnvisitedNeighbors(cells, position)
  {
    var positions := Candidates(position);
    available := [];
    var k := 0;
    while k < |positions|
      invariant 0 <= k <= |positions|
      invariant available == Eligibles(cells, positions[..k])
    {
      var q := positions[k];
      if InRange(cells, q) && GetCell(cells, q).free && !GetCell(cells, q).visited {
        available := available + [q];
      }
      assert positions[..k + 1][..k] == positions[..k];
      k := k + 1;
    }
    assert positions[..k] == positions;
  }

  /** The cell with its visited flag set. */
  function Marked(c: Cell): Cell {
    Cell(c.position, true, c.free)
  }

  /** The two flags of a cell the search reads. */
  datatype Flag = VisitedFlag | FreeFlag

  predicate HasFlag(c: Cell, f: Flag) {
    if f == VisitedFlag then c.visited else c.free
  }

  /** `q` lies in rows `0 .. rows - 2`, or in the first `cols` columns of row
      `rows - 1`. */
  predicate InPrefix(rows: int, cols: int, q: Position) {
    q.y < rows - 1 || (q.y == rows - 1 && q.x < cols)
  }

  /** The positions of the cells with flag `f` in that prefix, collected row by
      row. */
  ghost function CellsWith(cells: array2<Cell>, f: Flag, rows: nat, cols: nat): set<Position>
    requires rows <= cells.Length0 && cols <= cells.Length1
    reads cells
    decreases rows, cols
  {
    if rows == 0 then {}
    else if cols == 0 then CellsWith(cells, f, rows - 1, cells.Length1)
    else CellsWith(cells, f, rows, cols - 1) +
         (if HasFlag(cells[rows - 1, cols - 1], f) then {Position(cols - 1, rows - 1)} else {})
  }

  lemma {:induction false} CellsWithMember(cells: array2<Cell>, f: Flag, rows: nat, cols: nat, q: Position)
    requires rows <= cells.Length0 && cols <= cells.Length1
    ensures q in CellsWith(cells, f, rows, cols) <==>
              InRange(cells, q) && InPrefix(rows, cols, q) && HasFlag(GetCell(cells, q), f)
    decreases rows, cols
  {
    if rows == 0 {
    } else if cols == 0 {
      CellsWithMember(cells, f, rows - 1, cells.Length1, q);
    } else {
      CellsWithMember(cells, f, rows, cols - 1, q);
    }
  }

  /** The positions of the visited cells. */
  ghost function Visited(cells: array2<Cell>): set<Position>
    reads cells
  {
    CellsWith(cells, VisitedFlag, cells.Length0, cells.Length1)
  }

  /** The positions of the free cells. */
  ghost function FreeSet(cells: array2<Cell>): set<Position>
    reads cells
  {
    CellsWith(cells, FreeFlag, cells.Length0, cells.Length1)
  }

  lemma VisitedMember(cells: array2<Cell>)
    ensures forall q :: q in Visited(cells) <==> InRange(cells, q) && GetCell(cells, q).visited
  {
    forall q ensures q in Visited(cells) <==> InRange(cells, q) && GetCell(cells, q).visited {
      CellsWithMember(cells, VisitedFlag, cells.Length0, cells.Length1, q);
    }
  }

  lemma FreeMember(cells: array2<Cell>)
    ensures forall q :: q in FreeSet(cells) <==> InRange(cells, q) && GetCell(cells, q).free
  {
    forall q ensures q in FreeSet(cells) <==> InRange(cells, q) && GetCell(cells, q).free {
      CellsWithMember(cells, FreeFlag, cells.Length0, cells.Length1, q);
    }
  }

  /** The search changes only `visited` flags, and only from false to true:
      positions and free flags are kept (and an `array2` keeps its extent). */
  twostate predicate MarksOnly(cells: array2<Cell>)
    reads cells
  {
    forall i, j :: 0 <= i < cells.Length0 && 0 <= j < cells.Length1 ==>
      cells[i, j].position == old(cells[i, j].position) &&
      cells[i, j].free == old(cells[i, j].free) &&
      (old(cells[i, j].visited) ==> cells[i, j].visited)
  }

  /** What the search must keep: the position and the free flag of every cell,
      row by row. */
  ghost function Layout(cells: array2<Cell>): seq<seq<(Position, bool)>>
    reads cells
  {
    seq(cells.Length0, i requires 0 <= i < cells.Length0 reads cells =>
      seq(cells.Length1, j requires 0 <= j < cells.Length1 reads cells => (cells[i, j].position, cells[i, j].free)))
  }

  /** A kept layout and a grown visited set are exactly `MarksOnly`; `v0` is
      the visited set of the old state. */
  twostate lemma LayoutKeptMarksOnly(cells: array2<Cell>, new v0: set<Position>)
    requires forall q :: q in v0 <==> InRange(cells, q) && old(cells[q.y, q.x].visited)
    requires Layout(cells) == old(Layout(cells))
    requires v0 <= Visited(cells)
    ensures MarksOnly(cells)
  {
    VisitedMember(cells);
    forall i, j | 0 <= i < cells.Length0 && 0 <= j < cells.Length1
      ensures cells[i, j].position == old(cells[i, j].position) && cells[i, j].free == old(cells[i, j].free)
      ensures old(cells[i, j].visited) ==> cells[i, j].visited
    {
      assert Layout(cells)[i][j] == old(Layout(cells))[i][j];
      if old(cells[i, j].visited) {
        assert Position(j, i) in v0;
      }
    }
  }

  /** A walk from `s` to `e`: 4-directional steps, and every position after the
      first is free and outside `avoid`. */
  ghost predicate IsWalk(free: set<Position>, avoid: set<Position>, s: Position, e: Position, w: seq<Position>) {
    |w| >= 1 && w[0] == s && w[|w| - 1] == e &&
    (forall k :: 0 <= k < |w| - 1 ==> Adjacent(w[k], w[k + 1])) &&
    (forall k :: 1 <= k < |w| ==> w[k] in free && w[k] !in avoid)
  }

  /** No position occurs twice. */
  ghost predicate NoRepeats(w: seq<Position>) {
    forall i, j :: 0 <= i < j < |w| ==> w[i] != w[j]
  }

  /** Some walk leads from `s` to `e` through free positions outside `avoid`. */
  ghost predicate Reachable(free: set<Position>, avoid: set<Position>, s: Position, e: Position) {
    exists w :: IsWalk(free, avoid, s, e, w)
  }

  /** Every free neighbour of `c` is in `v`. */
  ghost predicate Closed(free: set<Position>, v: set<Position>, c: Position) {
    forall q :: q in free && Adjacent(c, q) ==> q in v
  }

  /** Every position of `v` outside `v0` has all its free neighbours in `v`. */
  ghost predicate ClosedBeyond(free: set<Position>, v0: set<Position>, v: set<Position>) {
    forall c :: c in v && c !in v0 ==> Closed(free, v, c)
  }

  /** What a successful search returns: `path`, then a repeat-free walk from
      `s` to `e` through free positions outside `v0`. */
  ghost predicate FoundWalk(free: set<Position>, v0: set<Position>, s: Position, e: Position,
                            path: seq<Position>, result: seq<Position>) {
    |result| > |path| && result[..|path|] == path &&
    IsWalk(free, v0, s, e, result[|path|..]) && NoRepeats(result[|path|..])
  }

  /** A walk that starts inside a set closed under free steps (`s` and every
      position added since `v0`) never leaves it. */
  lemma {:induction false} WalkStaysInside(free: set<Position>, v0: set<Position>, v1: set<Position>,
                                           s: Position, e: Position, w: seq<Position>, k: nat)
    requires IsWalk(free, v0, s, e, w)
    requires s in v1 && Closed(free, v1, s) && ClosedBeyond(free, v0, v1)
    requires k < |w|
    ensures w[k] in v1 && Closed(free, v1, w[k])
  {
    if k > 0 {
      WalkStaysInside(free, v0, v1, s, e, w, k - 1);
      assert Adjacent(w[k - 1], w[k]);
      assert w[k] in free && w[k] !in v0;
    }
  }

  /** Hence an `e` outside that set (or already avoided) cannot be reached. */
  lemma NoEscape(free: set<Position>, v0: set<Position>, v1: set<Position>, s: Position, e: Position)
    requires s != e
    requires s in v1 && Closed(free, v1, s) && ClosedBeyond(free, v0, v1)
    requires e !in v1 || e in v0
    ensures !Reachable(free, v0, s, e)
  {
    if Reachable(free, v0, s, e) {
      var w :| IsWalk(free, v0, s, e, w);
      if e !in v0 {
        WalkStaysInside(free, v0, v1, s, e, w, |w| - 1);
      }
    }
  }

  /** Prefixing a walk from `n` with a step from `s` gives a walk from `s`. */
  lemma ExtendWalk(free: set<Position>, v0: set<Position>, vc: set<Position>,
                   s: Position, n: Position, e: Position, w: seq<Position>)
    requires IsWalk(free, vc, n, e, w) && NoRepeats(w)
    requires Adjacent(s, n) && n in free && n !in v0
    requires v0 <= vc && s in vc
    ensures IsWalk(free, v0, s, e, [s] + w) && NoRepeats([s] + w)
  {
    var w' := [s] + w;
    forall i, j | 0 <= i < j < |w'| ensures w'[i] != w'[j] {
      if i == 0 {
        assert w'[j] == w[j - 1];
        if j - 1 == 0 {
          assert n != s;
        } else {
          assert w[j - 1] !in vc;
        }
      }
    }
  }

  /** The number of unvisited cells in the prefix of `CellsWith`. */
  ghost function UnvisitedIn(cells: array2<Cell>, rows: nat, cols: nat): nat
    requires rows <= cells.Length0 && cols <= cells.Length1
    reads cells
    decreases rows, cols
  {
    if rows == 0 then 0
    else if cols == 0 then UnvisitedIn(cells, rows - 1, cells.Length1)
    else UnvisitedIn(cells, rows, cols - 1) + (if cells[rows - 1, cols - 1].visited then 0 else 1)
  }

  /** The number of unvisited cells. */
  ghost function UnvisitedCount(cells: array2<Cell>): nat
    reads cells
  {
    UnvisitedIn(cells, cells.Length0, cells.Length1)
  }

  /** The termination measure of `Dfs`: twice the number of unvisited cells,
      plus one when `start` is a visited cell. */
  ghost function SearchMeasure(cells: array2<Cell>, start: Position): nat
    reads cells
  {
    2 * UnvisitedCount(cells) + (if InRange(cells, start) && GetCell(cells, start).visited then 1 else 0)
  }

  /** A walk found from neighbour `n` with `path + [start]` in front is, after
      `path`, a walk from `start`. */
  lemma FoundThroughNeighbor(free: set<Position>, v0: set<Position>, vc: set<Position>,
                             start: Position, n: Position, end: Position,
                             path: seq<Position>, p: seq<Position>)
    requires FoundWalk(free, vc, n, end, path + [start], p)
    requires Adjacent(start, n) && n in free && n !in v0
    requires v0 <= vc && start in vc
    ensures FoundWalk(free, v0, start, end, path, p)
  {
    assert p[..|path| + 1][..|path|] == path;
    assert p[|path|..] == [start] + p[|path| + 1..];
    ExtendWalk(free, v0, vc, start, n, end, p[|path| + 1..]);
  }

  /** After a failed branch from `n`, every position marked since `start` was
      marked still has all its free neighbours marked. */
  lemma ClosureKept(free: set<Position>, v1: set<Position>, vBefore: set<Position>,
                    vAfter: set<Position>, n: Position)
    requires vBefore <= vAfter && n in vAfter
    requires ClosedBeyond(free, v1, vBefore) && ClosedBeyond(free, vBefore, vAfter)
    requires n in vBefore || Closed(free, vAfter, n)
    ensures ClosedBeyond(free, v1, vAfter)
  {
    forall c | c in vAfter && c !in v1
      ensures Closed(free, vAfter, c)
    {
      if c in vBefore {
        assert Closed(free, vBefore, c);
      }
    }
  }

  /** Once every neighbour listed at the snapshot is marked, so is every free
      neighbour of `start`, and the marks since entry are closed. */
  lemma StartClosed(free: set<Position>, v0: set<Position>, v1: set<Position>, vNow: set<Position>,
                    start: Position, neighbors: seq<Position>)
    requires v1 <= vNow && start in v1 && forall q :: q in v1 && q !in v0 ==> q == start
    requires forall q :: q in neighbors <==> Adjacent(start, q) && q in free && q !in v1
    requires forall j :: 0 <= j < |neighbors| ==> neighbors[j] in vNow
    requires ClosedBeyond(free, v1, vNow)
    ensures Closed(free, vNow, start) && ClosedBeyond(free, v0, vNow)
  {
    forall q | q in free && Adjacent(start, q)
      ensures q in vNow
    {
      if q !in v1 {
        assert q in neighbors;
      }
    }
  }

  /** The snapshot of `getUnvisitedNeighbors` in set terms. */
  lemma NeighborsSnapshot(cells: array2<Cell>, start: Position, neighbors: seq<Position>)
    requires neighbors == UnvisitedNeighbors(cells, start)
    ensures forall q :: q in neighbors <==> Adjacent(start, q) && q in FreeSet(cells) && q !in Visited(cells)
    ensures forall q :: q in neighbors ==> InRange(cells, q)
  {
    UnvisitedNeighborsSpec(cells, start);
    VisitedMember(cells);
    FreeMember(cells);
  }

  /** The one change marking `start` makes: its cell gets the visited flag,
      every other cell is as before. */
  twostate predicate MarkedOnlyAt(cells: array2<Cell>, start: Position)
    reads cells
  {
    forall i, j :: 0 <= i < cells.Length0 && 0 <= j < cells.Length1 ==>
      cells[i, j] == if i == start.y && j == start.x then Marked(old(cells[i, j])) else old(cells[i, j])
  }

  /** Marking `start` adds it to the cells with the visited flag of any prefix
      that holds it, unless it was marked already, and lowers the unvisited count
      of that prefix accordingly. */
  twostate lemma {:induction false} MarkedPrefix(cells: array2<Cell>, new f: Flag, new rows: nat, new cols: nat, new start: Position)
    requires rows <= cells.Length0 && cols <= cells.Length1 && InRange(cells, start)
    requires MarkedOnlyAt(cells, start)
    ensures CellsWith(cells, f, rows, cols) ==
              old(CellsWith(cells, f, rows, cols)) +
              (if f == VisitedFlag && InPrefix(rows, cols, start) && !old(GetCell(cells, start)).visited then {start} else {})
    ensures UnvisitedIn(cells, rows, cols) +
              (if InPrefix(rows, cols, start) && !old(GetCell(cells, start)).visited then 1 else 0) ==
            old(UnvisitedIn(cells, rows, cols))
    decreases rows, cols
  {
    if rows == 0 {
    } else if cols == 0 {
      MarkedPrefix(cells, f, rows - 1, cells.Length1, start);
    } else {
      MarkedPrefix(cells, f, rows, cols - 1, start);
    }
  }

  /** Marking `start` adds it to the visited set, lowers the unvisited count by
      one if it was unvisited, and keeps the layout. */
  twostate lemma MarkedStart(cells: array2<Cell>, new start: Position)
    requires InRange(cells, start)
    requires MarkedOnlyAt(cells, start)
    ensures start in Visited(cells)
    ensures Visited(cells) == old(Visited(cells)) + (if old(GetCell(cells, start)).visited then {} else {start})
    ensures UnvisitedCount(cells) + (if old(GetCell(cells, start)).visited then 0 else 1) == old(UnvisitedCount(cells))
    ensures FreeSet(cells) == old(FreeSet(cells))
    ensures Layout(cells) == old(Layout(cells))
  {
    MarkedPrefix(cells, VisitedFlag, cells.Length0, cells.Length1, start);
    MarkedPrefix(cells, FreeFlag, cells.Length0, cells.Length1, start);
    VisitedMember(cells);
    assert forall i :: 0 <= i < cells.Length0 ==> Layout(cells)[i] == old(Layout(cells))[i];
  }

  /** `dfs`. On success the result is `path` followed by a walk from `start` to
      `end` whose later positions are free, were unvisited on entry and do not
      repeat; on failure it is empty and no such walk exists at all. The search
      keeps every position and free flag and only adds marks, never on `end`.
      The neighbour list is taken once, after `start` is marked, and every
      neighbour in it is searched even if an earlier failed branch has visited
      it since. */
  method Dfs(cells: array2<Cell>, start: Position, end: Position, path: seq<Position>)
    returns (found: bool, result: seq<Position>)
    requires start == end || InRange(cells, start)
    modifies cells
    ensures Layout(cells) == old(Layout(cells))
    ensures FreeSet(cells) == old(FreeSet(cells))
    ensures old(Visited(cells)) <= Visited(cells)
    ensures UnvisitedCount(cells) <= old(UnvisitedCount(cells))
    ensures Visited(cells) != old(Visited(cells)) ==> UnvisitedCount(cells) < old(UnvisitedCount(cells))
    ensures end in Visited(cells) <==> end in old(Visited(cells))
    ensures start == end ==> found && result == path + [end] && unchanged(cells)
    ensures start != end ==> start in Visited(cells)
    ensures found ==> FoundWalk(FreeSet(cells), old(Visited(cells)), start, end, path, result)
    ensures !found ==> result == [] && !Reachable(FreeSet(cells), old(Visited(cells)), start, end)
    ensures !found ==> Closed(FreeSet(cells), Visited(cells), start) &&
                       ClosedBeyond(FreeSet(cells), old(Visited(cells)), Visited(cells))
    decreases SearchMeasure(cells, start)
  {
    if start == end {
      return true, path + [end];
    }
    ghost var v0 := Visited(cells);
    ghost var free := FreeSet(cells);
    ghost var layout := Layout(cells);
    ghost var c0 := UnvisitedCount(cells);

    cells[start.y, start.x] := Marked(cells[start.y, start.x]);
    var pathHere := path + [start];
    MarkedStart(cells, start);
    ghost var v1 := Visited(cells);
    ghost var c1 := UnvisitedCount(cells);

    var neighbors := GetUnvisitedNeighbors(cells, start);
    NeighborsSnapshot(cells, start, neighbors);

    ghost var vis := v1;
    var k := 0;
    while k < |neighbors|
      invariant 0 <= k <= |neighbors|
      invariant Layout(cells) == layout && FreeSet(cells) == free && Visited(cells) == vis
      invariant v1 <= vis
      invariant UnvisitedCount(cells) <= c1 && (vis != v1 ==> UnvisitedCount(cells) < c1)
      invariant end in vis <==> end in v0
      invariant forall j :: 0 <= j < k ==> neighbors[j] in vis
      invariant ClosedBeyond(free, v1, vis)
    {
      var n := neighbors[k];
      assert n in neighbors;
      ghost var vBefore := vis;
      assert n in vis <==> InRange(cells, n) && GetCell(cells, n).visited by {
        VisitedMember(cells);
      }
      var t, p := Dfs(cells, n, end, pathHere);
      if t {
        FoundThroughNeighbor(free, v0, vBefore, start, n, end, path, p);
        return t, p;
      }
      vis := Visited(cells);
      assert vBefore <= vis && n in vis;
      assert forall j :: 0 <= j <= k ==> neighbors[j] in vis;
      ClosureKept(free, v1, vBefore, vis, n);
      k := k + 1;
    }
    StartClosed(free, v0, v1, vis, start, neighbors);
    NoEscape(free, v0, vis, start, end);
    return false, [];
  }

  /** A freshly built maze has no visited cell. */
  lemma BuiltMazeUnvisited(m: Maze)
    requires WellFormed(m)
    ensures Visited(m.cells) == {}
  {
    VisitedMember(m.cells);
  }

  /** `solveMaze`: search from start to finish with an empty path so far. The
      path is non-empty exactly when some walk joins start to finish through free
      cells that were unvisited on entry, and is then such a walk without repeats;
      on a freshly built maze nothing is visited, so any free walk counts. */
  method SolveMaze(m: Maze) returns (solved: SolvedMaze)
    requires m.start == m.finish || InRange(m.cells, m.start)
    modifies m.cells
    ensures solved.maze == m
    ensures MarksOnly(m.cells)
    ensures m.start == m.finish ==> solved.path == [m.start]
    ensures solved.path != [] <==> Reachable(FreeSet(m.cells), old(Visited(m.cells)), m.start, m.finish)
    ensures solved.path != [] ==>
              IsWalk(FreeSet(m.cells), old(Visited(m.cells)), m.start, m.finish, solved.path) &&
              NoRepeats(solved.path)
    ensures old(WellFormed(m)) ==>
              (solved.path != [] <==> Reachable(FreeSet(m.cells), {}, m.start, m.finish))
  {
    ghost var v0 := Visited(m.cells);
    VisitedMember(m.cells);
    if WellFormed(m) {
      BuiltMazeUnvisited(m);
    }
    var found, path := Dfs(m.cells, m.start, m.finish, []);
    LayoutKeptMarksOnly(m.cells, v0);
    assert found ==> path[0..] == path;
    solved := SolvedMaze(m, path);
  }
}
