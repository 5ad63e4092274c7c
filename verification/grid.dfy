/** The grid data model and the grid builder: an image becomes a matrix of cells
    with a start in the first row and a finish in the last row. */
module Grid {
  import opened Pixels

  /** A cell coordinate: `x` is the column, `y` the row. */
  datatype Position = Position(x: int, y: int)

  datatype Dimension = Dimension(width: nat, height: nat)

  /** One cell: its position, the transient `visited` flag of the search and the
      `free` (passable) flag derived from its pixel. */
  datatype Cell = Cell(position: Position, visited: bool, free: bool)

  /** The maze. `cells[i, j]` is the cell of row `i`, column `j`; the matrix is
      shared (Go copies the slice header, not the rows), so a search through one
      `Maze` value marks the cells every copy sees. */
  datatype Maze = Maze(start: Position, finish: Position, dimension: Dimension, cells: array2<Cell>)

  /** A maze with the path the search returned (empty when it failed). */
  datatype SolvedMaze = SolvedMaze(maze: Maze, path: seq<Position>)

  datatype Option<T> = None | Some(value: T)

  /** The panics of the builder: indexing the first row of an image without rows,
      and a boundary row without a free cell. */
  datatype MazeError = EmptyImage | NoEntryPoint(row: nat)

  datatype Result<T> = Ok(value: T) | Err(error: MazeError)

  /** Go's zero `Cell{}`. */
  const ZeroCell := Cell(Position(0, 0), false, false)

  /** `img.At(x, y)`: pixels outside the image read as the zero colour. */
  function PixelAt(img: array2<Rgba>, x: int, y: int): Rgba
    reads img
  {
    if 0 <= y < img.Length0 && 0 <= x < img.Length1 then img[y, x] else Rgba(0, 0, 0, 0)
  }

  /** `getCellFromPixel`: a pixel is free when it is not black. A point
      outside the image reads as the zero colour, which is black; a pixel on
      the 16-bit scale is free exactly when its average reaches the threshold. */
  function FreePixel(img: array2<Rgba>, x: int, y: int): (free: bool)
    reads img
    ensures !(0 <= y < img.Length0 && 0 <= x < img.Length1) ==> !free
    ensures 0 <= y < img.Length0 && 0 <= x < img.Length1 &&
            img[y, x].r as int <= ChannelMax && img[y, x].g as int <= ChannelMax && img[y, x].b as int <= ChannelMax ==>
              (free <==> (img[y, x].r as int + img[y, x].g as int + img[y, x].b as int) / 3 >= Threshold)
  {
    !IsBlackPixel(PixelAt(img, x, y))
  }

  /** `getImageDimensions`: the extent of the image (its origin is (0, 0)):
      `width` columns and `height` rows, and every point of that extent is a
      pixel of the image. */
  function GetImageDimensions(img: array2<Rgba>): (dimension: Dimension)
    ensures dimension.width == img.Length1 && dimension.height == img.Length0
    ensures forall x, y :: 0 <= x < dimension.width && 0 <= y < dimension.height ==> PixelAt(img, x, y) == img[y, x]
  {
    Dimension(img.Length1, img.Length0)
  }

  /** Column `j` holds the first free cell of row `row`. */
  predicate IsFirstFree(cells: array2<Cell>, row: nat, j: int)
    requires row < cells.Length0
    reads cells
  {
    0 <= j < cells.Length1 && cells[row, j].free &&
    forall k :: 0 <= k < j ==> !cells[row, k].free
  }

  /** `p` is the position of the first free cell of row `row`. */
  predicate IsFirstFreePosition(cells: array2<Cell>, row: nat, p: Position)
    requires row < cells.Length0
    reads cells
  {
    exists j :: 0 <= j < cells.Length1 && IsFirstFree(cells, row, j) && p == cells[row, j].position
  }

  /** The shape and content `getImageCells` gives: cell (i, j) sits at (x = j, y = i),
      is unvisited, and is free exactly when its pixel is not black. */
  predicate CellsOfImage(img: array2<Rgba>, cells: array2<Cell>)
    reads img, cells
  {
    forall i, j :: 0 <= i < cells.Length0 && 0 <= j < cells.Length1 ==>
      cells[i, j] == Cell(Position(j, i), false, FreePixel(img, j, i))
  }

  /** `initCellMatrix`: `height` rows of `width` zero cells. */
  method InitCellMatrix(dimension: Dimension) returns (matrix: array2<Cell>)
    ensures fresh(matrix)
    ensures matrix.Length0 == dimension.height && matrix.Length1 == dimension.width
    ensures forall i, j :: 0 <= i < matrix.Length0 && 0 <= j < matrix.Length1 ==> matrix[i, j] == ZeroCell
  {
    matrix := new Cell[dimension.height, dimension.width];
    var i := 0;
    while i < dimension.height
      invariant 0 <= i <= dimension.height
      invariant forall i', j' :: 0 <= i' < i && 0 <= j' < dimension.width ==> matrix[i', j'] == ZeroCell
    {
      var j := 0;
      while j < dimension.width
        invariant 0 <= j <= dimension.width
        invariant forall i', j' :: 0 <= i' < i && 0 <= j' < dimension.width ==> matrix[i', j'] == ZeroCell
        invariant forall j' :: 0 <= j' < j ==> matrix[i, j'] == ZeroCell
      {
        matrix[i, j] := ZeroCell;
        j := j + 1;
      }
      i := i + 1;
    }
  }

  /** `getImageCells`: classify every pixel of the `dimension` extent. */
  method GetImageCells(img: array2<Rgba>, dimension: Dimension) returns (cells: array2<Cell>)
    ensures fresh(cells)
    ensures cells.Length0 == dimension.height && cells.Length1 == dimension.width
    ensures CellsOfImage(img, cells)
  {
    cells := InitCellMatrix(dimension);
    var i := 0;
    while i < cells.Length0
      invariant 0 <= i <= cells.Length0
      invariant forall i', j' :: 0 <= i' < i && 0 <= j' < cells.Length1 ==>
                  cells[i', j'] == Cell(Position(j', i'), false, FreePixel(img, j', i'))
    {
      var j := 0;
      while j < cells.Length1
        invariant 0 <= j <= cells.Length1
        invariant forall i', j' :: 0 <= i' < i && 0 <= j' < cells.Length1 ==>
                    cells[i', j'] == Cell(Position(j', i'), false, FreePixel(img, j', i'))
        invariant forall j' :: 0 <= j' < j ==> cells[i, j'] == Cell(Position(j', i), false, FreePixel(img, j', i))
      {
        var px := PixelAt(img, j, i);
        cells[i, j] := Cell(Position(j, i), false, !IsBlack(px.r, px.g, px.b, px.a));
        j := j + 1;
      }
      i := i + 1;
    }
  }

  /** `getFreePosition`: the position of the first free cell of a row, scanning
      left to right; `None` where the source panics. */
  method GetFreePosition(cells: array2<Cell>, row: nat) returns (r: Option<Position>)
    requires row < cells.Length0
    ensures r.None? <==> RowFull(cells, row)
    ensures r.Some? ==> IsFirstFreePosition(cells, row, r.value)
  {
    var j := 0;
    while j < cells.Length1
      invariant 0 <= j <= cells.Length1
      invariant forall k :: 0 <= k < j ==> !cells[row, k].free
    {
      if cells[row, j].free {
        assert IsFirstFree(cells, row, j);
        return Some(cells[row, j].position);
      }
      j := j + 1;
    }
    return None;
  }

  /** Every cell sits at its own index: cell (i, j) has position (x = j, y = i). */
  predicate AtOwnIndices(cells: array2<Cell>)
    reads cells
  {
    forall i, j :: 0 <= i < cells.Length0 && 0 <= j < cells.Length1 ==> cells[i, j].position == Position(j, i)
  }

  /** The grid invariants of a built maze: the dimension is the matrix extent,
      every cell is unvisited and sits at its own index, start is the first free
      cell of row 0 and finish the first free cell of the last row. */
  predicate WellFormed(m: Maze)
    reads m.cells
  {
    m.dimension == Dimension(m.cells.Length1, m.cells.Length0) &&
    m.cells.Length0 > 0 &&
    AtOwnIndices(m.cells) &&
    (forall i, j :: 0 <= i < m.cells.Length0 && 0 <= j < m.cells.Length1 ==> !m.cells[i, j].visited) &&
    m.start.y == 0 && IsFirstFree(m.cells, 0, m.start.x) &&
    m.finish.y == m.cells.Length0 - 1 && IsFirstFree(m.cells, m.cells.Length0 - 1, m.finish.x)
  }

  /** No pixel of row `row` is free. */
  predicate RowBlocked(img: array2<Rgba>, row: int)
    reads img
  {
    forall j :: 0 <= j < img.Length1 ==> !FreePixel(img, j, row)
  }

  /** No cell of row `row` is free. */
  predicate RowFull(cells: array2<Cell>, row: nat)
    requires row < cells.Length0
    reads cells
  {
    forall j :: 0 <= j < cells.Length1 ==> !cells[row, j].free
  }

  /** A row of cells built from an image has no free cell exactly when the
      image row has no free pixel. */
  lemma RowBlockedCells(img: array2<Rgba>, cells: array2<Cell>, row: nat)
    requires CellsOfImage(img, cells) && cells.Length1 == img.Length1 && row < cells.Length0
    ensures RowBlocked(img, row) <==> RowFull(cells, row)
  {
    assert forall j :: 0 <= j < cells.Length1 ==> cells[row, j].free == FreePixel(img, j, row);
  }

  /** The cells of an image, with start and finish at the first free cells of
      the first and last rows, make a well-formed maze. */
  lemma BuiltMazeWellFormed(img: array2<Rgba>, cells: array2<Cell>, sx: int, fx: int)
    requires CellsOfImage(img, cells) && cells.Length0 > 0
    requires IsFirstFree(cells, 0, sx) && IsFirstFree(cells, cells.Length0 - 1, fx)
    ensures WellFormed(Maze(Position(sx, 0), Position(fx, cells.Length0 - 1),
                            Dimension(cells.Length1, cells.Length0), cells))
  {
  }

  /** The index of the last row. */
  function LastRow(cells: array2<Cell>): nat
    requires cells.Length0 > 0
  {
    cells.Length0 - 1
  }

  /** Lines 134-137 of `imageToMaze`: start is the first free cell of the first
      row, finish the first free cell of the last row; the first row is scanned first. */
  method GetEntryPoints(cells: array2<Cell>) returns (r: Result<(Position, Position)>)
    requires cells.Length0 > 0
    ensures RowFull(cells, 0) ==> r == Err(NoEntryPoint(0))
    ensures !RowFull(cells, 0) && RowFull(cells, LastRow(cells)) ==> r == Err(NoEntryPoint(LastRow(cells)))
    ensures !RowFull(cells, 0) && !RowFull(cells, LastRow(cells)) ==>
              r.Ok? && IsFirstFreePosition(cells, 0, r.value.0) &&
              IsFirstFreePosition(cells, LastRow(cells), r.value.1)
  {
    var last := LastRow(cells);
    var start := GetFreePosition(cells, 0);
    if start.None? {
      return Err(NoEntryPoint(0));
    }
    var finish := GetFreePosition(cells, last);
    if finish.None? {
      return Err(NoEntryPoint(last));
    }
    return Ok((start.value, finish.value));
  }

  /** `imageToMaze`: the cells of the image, with start and finish at the first
      free cells of the first and the last row; each panic of the source is an error. */
  method ImageToMaze(img: array2<Rgba>) returns (r: Result<Maze>)
    ensures img.Length0 == 0 ==> r == Err(EmptyImage)
    ensures img.Length0 > 0 && RowBlocked(img, 0) ==> r == Err(NoEntryPoint(0))
    ensures img.Length0 > 0 && !RowBlocked(img, 0) && RowBlocked(img, img.Length0 - 1) ==>
              r == Err(NoEntryPoint(img.Length0 - 1))
    ensures img.Length0 > 0 && !RowBlocked(img, 0) && !RowBlocked(img, img.Length0 - 1) ==>
              r.Ok? && fresh(r.value.cells) && WellFormed(r.value) && CellsOfImage(img, r.value.cells) &&
              r.value.cells.Length0 == img.Length0 && r.value.cells.Length1 == img.Length1 &&
              r.value.dimension == GetImageDimensions(img)
  {
    var dimension := GetImageDimensions(img);
    var cells := GetImageCells(img, dimension);
    if dimension.height == 0 {
      return Err(EmptyImage);
    }
    var entries := GetEntryPoints(cells);
    RowBlockedCells(img, cells, 0);
    RowBlockedCells(img, cells, cells.Length0 - 1);
    if entries.Err? {
      return Err(entries.error);
    }
    var (start, finish) := entries.value;
    ghost var sx :| IsFirstFree(cells, 0, sx) && start == cells[0, sx].position;
    ghost var fx :| IsFirstFree(cells, cells.Length0 - 1, fx) && finish == cells[cells.Length0 - 1, fx].position;
    BuiltMazeWellFormed(img, cells, sx, fx);
    r := Ok(Maze(start, finish, dimension, cells));
  }
}
