/** The raster output: every cell becomes a square block of `resolution`
    pixels a side, painted white (free) or black (blocked), and the cells of
    the path are painted over in shades of red. */
module Raster {
  import opened Grid
  import opened Search
  import opened Arith

  /** Go's `uint8`. */
  newtype uint8 = x: int | 0 <= x < 256

  /** `color.RGBA`: four 8-bit channels. */
  datatype Rgba8 = Rgba8(r: uint8, g: uint8, b: uint8, a: uint8)

  /** `image.Point`. */
  datatype Point = Point(x: int, y: int)

  const White := Rgba8(255, 255, 255, 255)
  const Black := Rgba8(0, 0, 0, 255)

  /** The colour of every pixel of a new image. */
  const Transparent := Rgba8(0, 0, 0, 0)

  /** `getMazeCellColor`: opaque white for a free cell, opaque black otherwise. */
  function GetMazeCellColor(cell: Cell): (color: Rgba8)
    ensures color.a == 255
    ensures color == White <==> cell.free
    ensures color == Black <==> !cell.free
  {
    if cell.free then White else Black
  }

  /** Pixel `(x, y)` lies in the rectangle with inclusive corners `p0` and `p1`. */
  predicate InRect(x: int, y: int, p0: Point, p1: Point) {
    p0.x <= x <= p1.x && p0.y <= y <= p1.y
  }

  /** The cell whose block holds pixel `(x, y)`. */
  function CellOf(x: int, y: int, resolution: int): Position
    requires resolution >= 1
  {
    Position(x / resolution, y / resolution)
  }

  /** `getPointWithResolution`: the top-left and bottom-right pixels of the
      block of cell `p`; for a positive resolution both sides hold `resolution`
      pixels. */
  function GetPointWithResolution(p: Point, resolution: int): (corners: (Point, Point))
    ensures resolution >= 1 ==>
              corners.1.x - corners.0.x + 1 == resolution && corners.1.y - corners.0.y + 1 == resolution
  {
    (Point(p.x * resolution, p.y * resolution),
     Point((p.x + 1) * resolution - 1, (p.y + 1) * resolution - 1))
  }

  /** The block of cell `p` holds exactly the pixels whose cell is `p`. */
  lemma BlockOfCell(p: Point, resolution: int)
    requires resolution >= 1
    ensures forall x, y ::
              InRect(x, y, GetPointWithResolution(p, resolution).0, GetPointWithResolution(p, resolution).1) <==>
              CellOf(x, y, resolution) == Position(p.x, p.y)
  {
    forall x, y
      ensures InRect(x, y, GetPointWithResolution(p, resolution).0, GetPointWithResolution(p, resolution).1) <==>
              CellOf(x, y, resolution) == Position(p.x, p.y)
    {
      DivBlock(x, resolution, p.x);
      DivBlock(y, resolution, p.y);
    }
  }

  /** The blocks of two different cells share no pixel. */
  lemma BlocksDisjoint(p: Point, q: Point, resolution: int, x: int, y: int)
    requires resolution >= 1 && p != q
    requires InRect(x, y, GetPointWithResolution(p, resolution).0, GetPointWithResolution(p, resolution).1)
    ensures !InRect(x, y, GetPointWithResolution(q, resolution).0, GetPointWithResolution(q, resolution).1)
  {
    BlockOfCell(p, resolution);
    BlockOfCell(q, resolution);
  }

  /** `img.Set`: `img[y, x]` is the pixel at column `x` of row `y`; a point
      outside the image is ignored. */
  method Set(img: array2<Rgba8>, x: int, y: int, color: Rgba8)
    modifies img
    ensures forall i, j :: 0 <= i < img.Length0 && 0 <= j < img.Length1 ==>
              img[i, j] == if i == y && j == x then color else old(img[i, j])
  {
    if 0 <= y < img.Length0 && 0 <= x < img.Length1 {
      img[y, x] := color;
    }
  }

  /** `drawRect`: column by column, every pixel of the inclusive rectangle
      gets `color`; every other pixel is kept. */
  method DrawRect(img: array2<Rgba8>, p0: Point, p1: Point, color: Rgba8)
    modifies img
    ensures forall i, j :: 0 <= i < img.Length0 && 0 <= j < img.Length1 ==>
              img[i, j] == if InRect(j, i, p0, p1) then color else old(img[i, j])
  {
    var x := p0.x;
    while x <= p1.x
      invariant p0.x <= x && (x <= p1.x + 1 || x == p0.x)
      invariant forall i, j :: 0 <= i < img.Length0 && 0 <= j < img.Length1 ==>
                  img[i, j] == if p0.x <= j < x && p0.y <= i <= p1.y then color else old(img[i, j])
      decreases p1.x - x
    {
      var y := p0.y;
      while y <= p1.y
        invariant p0.y <= y && (y <= p1.y + 1 || y == p0.y)
        invariant forall i, j :: 0 <= i < img.Length0 && 0 <= j < img.Length1 ==>
                    img[i, j] == if (p0.x <= j < x && p0.y <= i <= p1.y) || (j == x && p0.y <= i < y)
                                 then color else old(img[i, j])
        decreases p1.y - y
      {
        Set(img, x, y, color);
        y := y + 1;
      }
      x := x + 1;
    }
  }

  /** `newImage`: an image of `width * resolution` by `height * resolution`
      pixels, all transparent black. */
  method NewImage(dimension: Dimension, resolution: nat) returns (img: array2<Rgba8>)
    ensures fresh(img)
    ensures img.Length0 == dimension.height * resolution && img.Length1 == dimension.width * resolution
    ensures forall i, j :: 0 <= i < img.Length0 && 0 <= j < img.Length1 ==> img[i, j] == Transparent
  {
    img := new Rgba8[dimension.height * resolution, dimension.width * resolution]((i, j) => Transparent);
  }

  /** Cell `c` comes before cell `(j, i)` in row-major order. */
  predicate Before(c: Position, i: int, j: int) {
    c.y < i || (c.y == i && c.x < j)
  }

  /** The colour the base pass gives pixel `(x, y)`: that of its cell, when
      its cell is in the matrix. */
  function BaseColor(cells: array2<Cell>, x: int, y: int, resolution: int, otherwise: Rgba8): Rgba8
    requires resolution >= 1
    reads cells
  {
    var c := CellOf(x, y, resolution);
    if InRange(cells, c) then GetMazeCellColor(GetCell(cells, c)) else otherwise
  }

  /** The first loop of `toImage`: the block of every cell is painted in the
      colour of the cell, row by row; pixels of no cell are kept. */
  method PaintCells(img: array2<Rgba8>, cells: array2<Cell>, resolution: int)
    requires resolution >= 1
    modifies img
    ensures forall i, j :: 0 <= i < img.Length0 && 0 <= j < img.Length1 ==>
              img[i, j] == BaseColor(cells, j, i, resolution, old(img[i, j]))
  {
    var i := 0;
    while i < cells.Length0
      invariant 0 <= i <= cells.Length0
      invariant forall y, x :: 0 <= y < img.Length0 && 0 <= x < img.Length1 ==>
                  img[y, x] == if Before(CellOf(x, y, resolution), i, 0)
                               then BaseColor(cells, x, y, resolution, old(img[y, x])) else old(img[y, x])
    {
      var j := 0;
      while j < cells.Length1
        invariant 0 <= j <= cells.Length1
        invariant forall y, x :: 0 <= y < img.Length0 && 0 <= x < img.Length1 ==>
                    img[y, x] == if Before(CellOf(x, y, resolution), i, j)
                                 then BaseColor(cells, x, y, resolution, old(img[y, x])) else old(img[y, x])
      {
        var corners := GetPointWithResolution(Point(j, i), resolution);
        BlockOfCell(Point(j, i), resolution);
        DrawRect(img, corners.0, corners.1, GetMazeCellColor(cells[i, j]));
        j := j + 1;
      }
      i := i + 1;
    }
  }

  /** The index of the last occurrence of `e` in `s`. */
  function LastIndexOf(s: seq<Position>, e: Position): (k: nat)
    requires e in s
    ensures k < |s| && s[k] == e
    ensures forall m :: k < m < |s| ==> s[m] != e
  {
    if s[|s| - 1] == e then |s| - 1 else LastIndexOf(s[..|s| - 1], e)
  }

  /** `uint8(50 + 150*p)` for `p = i / n`, the shade of the green and blue
      channels of the `i`-th of `n` path cells, rounded down; it grows from 50
      towards 200 along the path. */
  function PathShade(i: nat, n: nat): (shade: uint8)
    requires i < n
    ensures 50 <= shade < 200
    ensures i == 0 ==> shade == 50
  {
    assert 50 * n + 150 * i < 200 * n;
    DivMonotone(50 * n, 50 * n + 150 * i, n);
    DivMonotone(50 * n + 150 * i, 200 * n - 1, n);
    DivBlock(200 * n - 1, n, 199);
    DivBlock(50 * n, n, 50);
    ((50 * n + 150 * i) / n) as uint8
  }

  /** Later path cells are never darker than earlier ones. */
  lemma PathShadeMonotone(i: nat, j: nat, n: nat)
    requires i <= j < n
    ensures PathShade(i, n) <= PathShade(j, n)
  {
    DivMonotone(50 * n + 150 * i, 50 * n + 150 * j, n);
  }

  /** `getPathCellColor`: opaque red, with green and blue at the path shade. */
  function PathColor(i: nat, n: nat): (color: Rgba8)
    requires i < n
    ensures color.r == 255 && color.a == 255 && color.g == color.b == PathShade(i, n)
  {
    var x := PathShade(i, n);
    Rgba8(255, x, x, 255)
  }

  /** The colour the path overlay gives pixel `(x, y)`: that of the last
      occurrence of its cell in the path, when its cell is on the path. */
  function OverlayColor(path: seq<Position>, x: int, y: int, resolution: int, otherwise: Rgba8): Rgba8
    requires resolution >= 1
  {
    var c := CellOf(x, y, resolution);
    if c in path then PathColor(LastIndexOf(path, c), |path|) else otherwise
  }

  lemma LastIndexOfPrefix(path: seq<Position>, k: nat, c: Position)
    requires k < |path| && c in path[..k + 1]
    ensures LastIndexOf(path[..k + 1], c) == if path[k] == c then k else LastIndexOf(path[..k], c)
  {
    assert path[..k + 1][..k] == path[..k];
  }

  /** The second loop of `toImage`: the block of the `k`-th path cell is painted
      in the `k`-th shade, so a cell that occurs twice shows its last shade. */
  method PaintPath(img: array2<Rgba8>, path: seq<Position>, resolution: int)
    requires resolution >= 1
    modifies img
    ensures forall i, j :: 0 <= i < img.Length0 && 0 <= j < img.Length1 ==>
              img[i, j] == OverlayColor(path, j, i, resolution, old(img[i, j]))
  {
    var k := 0;
    while k < |path|
      invariant 0 <= k <= |path|
      invariant forall y, x :: 0 <= y < img.Length0 && 0 <= x < img.Length1 ==>
                  img[y, x] == if CellOf(x, y, resolution) in path[..k]
                               then PathColor(LastIndexOf(path[..k], CellOf(x, y, resolution)), |path|)
                               else old(img[y, x])
    {
      var cell := path[k];
      var corners := GetPointWithResolution(Point(cell.x, cell.y), resolution);
      BlockOfCell(Point(cell.x, cell.y), resolution);
      DrawRect(img, corners.0, corners.1, PathColor(k, |path|));
      forall y, x | 0 <= y < img.Length0 && 0 <= x < img.Length1 && CellOf(x, y, resolution) in path[..k + 1]
        ensures LastIndexOf(path[..k + 1], CellOf(x, y, resolution)) ==
                  if cell == CellOf(x, y, resolution) then k else LastIndexOf(path[..k], CellOf(x, y, resolution))
      {
        LastIndexOfPrefix(path, k, CellOf(x, y, resolution));
      }
      assert forall c :: c in path[..k + 1] <==> c in path[..k] || c == cell;
      k := k + 1;
    }
    assert path[..k] == path;
  }

  /** The colour of pixel `(x, y)` in the image of `sm`: the shade of its cell's
      last place on the path, else the colour of its cell, else transparent. */
  function PixelColor(sm: SolvedMaze, x: int, y: int, resolution: int): Rgba8
    requires resolution >= 1
    reads sm.maze.cells
  {
    OverlayColor(sm.path, x, y, resolution, BaseColor(sm.maze.cells, x, y, resolution, Transparent))
  }

  /** `toImage`: a new image of the maze's dimension times `resolution`, the
      cells painted first and the path over them. */
  method ToImage(sm: SolvedMaze, resolution: int) returns (img: array2<Rgba8>)
    requires resolution >= 1
    ensures fresh(img)
    ensures img.Length0 == sm.maze.dimension.height * resolution
    ensures img.Length1 == sm.maze.dimension.width * resolution
    ensures forall i, j :: 0 <= i < img.Length0 && 0 <= j < img.Length1 ==>
              img[i, j] == PixelColor(sm, j, i, resolution)
  {
    img := NewImage(sm.maze.dimension, resolution);
    PaintCells(img, sm.maze.cells, resolution);
    PaintPath(img, sm.path, resolution);
  }

  /** When the dimension is the matrix extent, every pixel of the image belongs
      to a cell of the matrix: a pixel off the path is white exactly when its
      cell is free and black otherwise, and a pixel on the path is red. */
  lemma PixelColorOfCell(sm: SolvedMaze, x: int, y: int, resolution: int)
    requires resolution >= 1
    requires sm.maze.dimension == Dimension(sm.maze.cells.Length1, sm.maze.cells.Length0)
    requires 0 <= y < sm.maze.dimension.height * resolution && 0 <= x < sm.maze.dimension.width * resolution
    ensures InRange(sm.maze.cells, CellOf(x, y, resolution))
    ensures CellOf(x, y, resolution) !in sm.path ==>
              (PixelColor(sm, x, y, resolution) == White <==> GetCell(sm.maze.cells, CellOf(x, y, resolution)).free) &&
              (PixelColor(sm, x, y, resolution) == Black <==> !GetCell(sm.maze.cells, CellOf(x, y, resolution)).free)
    ensures CellOf(x, y, resolution) in sm.path ==>
              PixelColor(sm, x, y, resolution).r == 255 && 50 <= PixelColor(sm, x, y, resolution).g < 200
  {
    var w, h := sm.maze.cells.Length1, sm.maze.cells.Length0;
    DivMonotone(0, x, resolution);
    DivMonotone(0, y, resolution);
    DivMonotone(x, w * resolution - 1, resolution);
    DivMonotone(y, h * resolution - 1, resolution);
    DivBlock(w * resolution - 1, resolution, w - 1);
    DivBlock(h * resolution - 1, resolution, h - 1);
  }
}
