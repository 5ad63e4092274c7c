# Maze solver model

A Dafny model of `solve-maze.go`, a program that reads a black-and-white
picture of a maze, turns it into a grid of cells, finds a way from the
entrance in the top row to the exit in the bottom row by depth-first search,
and renders the result as text and as a picture.

The model has six modules:

- `Pixels` (`pixels.dfy`): the pixel classifier `isBlack`. It works on the
  16-bit channels of Go's `RGBA()`, with the `uint32` sum wrapping as in Go.
- `Grid` (`grid.dfy`): the cell record, the maze and the grid builder. This
  covers `initCellMatrix`, `getImageCells`, `getFreePosition` and
  `imageToMaze`. The input image is an `array2<Rgba>` indexed `[y, x]`. The
  cell matrix is an `array2<Cell>` indexed `[row, column]`. The panics of the
  builder are modelled as errors: an image without rows, and a first or last
  row without a free cell.
- `Search` (`search.dfy`): the search engine. This covers `isInRange`,
  `getCell`, `getUnvisitedNeighbors`, `dfs` and `solveMaze`.
  - `Dfs` marks cells in place in the shared matrix.
  - It takes the neighbour list once, after marking `start`, and searches
    every listed neighbour, even one that a failed earlier branch has marked
    since.
  - Its termination measure is twice the number of unvisited cells, plus one
    when `start` is already visited.
  - It is proved sound: a found path is a walk through free, previously
    unvisited cells, with no repeats.
  - It is proved complete: when it fails, no such walk exists.
  - It changes only `visited` flags, and only from false to true.
- `Raster` (`raster.dfy`): the picture output. This covers
  `getPointWithResolution`, `drawRect`, `getMazeCellColor`,
  `getPathCellColor` and `toImage`. The output image is an `array2<Rgba8>`
  indexed `[y, x]`. `Set` ignores points outside the image, as
  `image.RGBA.Set` does.
- `Text` (`text.dfy`): the text output. This covers `stringifyLine`,
  `sliceIntoBooleanMap`, `includes`, `stringifyMazeStats` and the two
  `String` methods. It includes a decimal `Sprint` for integers with its
  read-back.
- `Arith` (`arith.dfy`) holds the division facts that the block and
  line-index proofs share.

`isInRange` and `getCell` are `Search.InRange` and `Search.GetCell`.
`Search.GetCellByPosition` states that, in a matrix whose cells sit at their
own indices, `getCell` finds the cell of a position. How the search uses them
is stated by `Search.UnvisitedNeighborsSpec` and `Search.NeighborsSnapshot`.

`isBlack` follows the code: a pixel is black when the integer average of
its 16-bit channels is below 127. That is far below half of the channel
range, so only very dark pixels are walls.

## Model

| member | source | states |
|---|---|---|
| Pixels.IsBlack | solve-maze.go:73-76 | when the `uint32` channel sum does not wrap, the pixel is black exactly when r+g+b < 3·127 |
| Pixels.BlackIffDarkAverage | solve-maze.go:73-76 | for 16-bit channels, black exactly when the integer average is below 127, whatever the alpha |
| Pixels.ThresholdBoundary | solve-maze.go:73-76 | average 126 is black; averages 127 and 0x7FFF are not |
| Grid.GetImageDimensions | solve-maze.go:95-97 | the width is the image's column count and the height its row count; every point of that extent is a pixel of the image |
| Grid.FreePixel | solve-maze.go:99-101 | a point outside the image is never free (it reads as the zero colour, which is black); a 16-bit pixel is free exactly when its channel average is at least 127 |
| Grid.InitCellMatrix | solve-maze.go:59-71 | a fresh matrix of `height` rows and `width` columns, every cell the zero cell |
| Grid.GetImageCells | solve-maze.go:99-115 | a fresh `height`×`width` matrix; cell (i, j) has position (x=j, y=i), is unvisited, and is free exactly when pixel (j, i) is not black |
| Grid.GetFreePosition | solve-maze.go:117-125 | `None` exactly when the row has no free cell (the panic); otherwise the position of the first free cell from the left |
| Grid.GetEntryPoints | solve-maze.go:134-137 | row 0 is checked first; the error names the first row without a free cell; otherwise start and finish are the first free cells of the first and last rows |
| Grid.ImageToMaze | solve-maze.go:127-140 | an image without rows is `EmptyImage`; a blocked first row, then a blocked last row, is `NoEntryPoint(row)`; otherwise a fresh, well-formed maze built from the image's cells, with as many rows and columns as the image and the dimension `getImageDimensions` gives, so finish lies in the image's last row |
| Grid.BuiltMazeWellFormed | solve-maze.go:127-140 | image cells with the first free cells of the first and last rows make a maze whose dimension is the matrix extent, with unvisited cells at their own indices |
| Search.InRange | solve-maze.go:237-239 | a position in range implies the matrix has a first row and a column, so the source's `len(cells[0])` is only read when it exists |
| Search.GetCellByPosition | solve-maze.go:241-243 | when cells sit at their own indices, the cell `getCell` returns for an in-range position has that position, and looking up any cell's position returns that cell |
| Search.CandidatesAreAdjacent | solve-maze.go:245-249 | the four candidates are exactly the positions one 4-directional step away |
| Search.UnvisitedNeighborsSpec | solve-maze.go:245-258 | the neighbours are the eligible (in range, free, unvisited) cells among west, south, east, north, in that order; at most 4; membership iff adjacent and eligible |
| Search.GetUnvisitedNeighbors | solve-maze.go:245-258 | the loop returns exactly the filtered candidate list of `UnvisitedNeighborsSpec` |
| Search.NeighborsSnapshot | solve-maze.go:268 | the snapshot holds exactly the adjacent free unvisited positions, all in range |
| Search.MarkedStart | solve-maze.go:265 | marking `start` adds exactly `start` to the visited set, lowers the unvisited count by one if it was unvisited, and keeps positions and free flags |
| Search.Dfs | solve-maze.go:260-279 | `start == end`: found, `path + [end]`, nothing changed; success: `path` then a repeat-free walk of adjacent steps through free cells unvisited on entry; failure: empty result and no such walk exists; only visited flags change, false to true, never at `end` |
| Search.BuiltMazeUnvisited | solve-maze.go:103-115 | a freshly built maze has no visited cell |
| Search.SolveMaze | solve-maze.go:281-290 | the result carries the maze; only visited marks are added; the path is non-empty exactly when start and finish are joined by a walk through free, unvisited cells (any free walk on a fresh maze), and it is then such a walk with no repeats; `[start]` when start is finish |
| Raster.GetMazeCellColor | solve-maze.go:150-156 | opaque; white exactly when the cell is free, black exactly when it is blocked |
| Raster.GetPointWithResolution | solve-maze.go:163-168 | both sides of the block span exactly `resolution` pixels |
| Raster.BlockOfCell | solve-maze.go:163-168 | the block of cell p holds exactly the pixels (x, y) with x / resolution = p.x and y / resolution = p.y |
| Raster.BlocksDisjoint | solve-maze.go:173-178 | blocks of different cells share no pixel |
| Raster.Set | solve-maze.go:90 | exactly the one pixel (x, y) gets the colour when it is inside the image; all others are kept |
| Raster.DrawRect | solve-maze.go:87-93 | exactly the pixels of the inclusive rectangle get the colour; all others are kept |
| Raster.NewImage | solve-maze.go:142-148 | a fresh (height·resolution)×(width·resolution) image, every pixel transparent black |
| Raster.PaintCells | solve-maze.go:173-178 | every pixel whose cell is in the matrix gets that cell's colour (white iff free); other pixels are kept |
| Raster.LastIndexOf | solve-maze.go:180-183 | the returned index holds the element, and no later index does |
| Raster.PathShade | solve-maze.go:158-161 | the green/blue shade lies in [50, 200) and is 50 for the first path cell |
| Raster.PathShadeMonotone | solve-maze.go:180-183 | shades never decrease along the path |
| Raster.PathColor | solve-maze.go:158-161 | opaque, full red, green and blue equal to the path shade |
| Raster.PaintPath | solve-maze.go:180-183 | every pixel of a path cell gets the shade of that cell's last index in the path; others are kept |
| Raster.ToImage | solve-maze.go:170-186 | an image of the maze dimension times the resolution; each pixel shows its cell's last path shade if the cell is on the path, else the cell colour, else transparent |
| Raster.PixelColorOfCell | solve-maze.go:170-186 | when the dimension is the matrix extent, every pixel maps to a cell; a pixel off the path is white iff its cell is free and black iff it is blocked; a pixel on the path is red |
| Text.Glyph | solve-maze.go:191-197 | '+' exactly on the path, ' ' exactly for a free cell off it, '█' exactly for a blocked cell off it; never a newline |
| Text.SliceIntoBooleanMap | solve-maze.go:39-47 | the keys are exactly the elements of the slice, and each maps to true |
| Text.Includes | solve-maze.go:49-57 | true exactly when the element occurs in the slice |
| Text.StringifyLine | solve-maze.go:188-203 | one character per cell, each the glyph of its cell with the path-map lookup, then a newline |
| Text.GridTextAt | solve-maze.go:218-220 | the grid text has rows·(width+1) characters; character n is in row n/(width+1) and shows the glyph of column n mod (width+1), or a newline after the last column |
| Text.GridTextLines | solve-maze.go:188-203 | the grid text has exactly one newline per row |
| Text.NatText | solve-maze.go:207-209 | at least one decimal digit, with no leading zero unless the number is 0 |
| Text.Sprint | solve-maze.go:207-209 | the decimal text of an integer never contains a newline |
| Text.SprintRoundTrip | solve-maze.go:207-209 | the printed integer reads back as itself, so distinct numbers print differently |
| Text.StatsText | solve-maze.go:205-212 | the dimension, start and finish lines: exactly three newlines, the text ending in one |
| Text.AppendLines | solve-maze.go:230-232 | appends the lines of every row, with the cells of the path map marked |
| Text.MazeString | solve-maze.go:214-223 | the statistics followed by the lines of all rows, with no cell marked |
| Text.SolvedMazeString | solve-maze.go:225-235 | the statistics followed by the lines of all rows, with exactly the path's cells marked |
| Text.MazeTextLines | solve-maze.go:214-235 | the text of a maze has 3 + rows lines |

## Left out

- Reading the input picture (`getImage`), writing the output (`png.Encode`, `os.Create`) and the time-stamped file name in `main`. These are file I/O and a clock. `main` itself, which chains these with `imageToMaze`, `solveMaze`, `String` and `toImage(12)`, is not modelled.
- Go's image library. The input is an array indexed `[y, x]` with its origin at (0, 0), as `getImageDimensions` assumes. `img.At` outside the image reads as the zero colour.
- Search.Dfs: a start outside the matrix is excluded by the precondition instead of being modelled as the source's index panic. A maze built by `ImageToMaze` always meets it.
- Search.SolveMaze: the same precondition as `Dfs`.
- Raster.PathShade: the shade is computed exactly, as the floor of (50·n + 150·i) / n. The source converts a `float32` product to `uint8`, so its rounding at a block boundary is not modelled.
- Raster.ToImage: it requires a positive resolution. A zero resolution (an empty picture) and a negative one (a panic in `image.NewRGBA`) are not modelled.
- Raster.PaintCells: it requires a positive resolution, as `ToImage` does.
- Raster.PaintPath: it requires a positive resolution, as `ToImage` does.
- Text: a string is a sequence of characters, so '█' is one character where Go's string holds its three UTF-8 bytes.
- Text.Sprint: only the integer case of `fmt.Sprint` is modelled, since it is the only one the statistics use.
- Go slice aliasing is not modelled. Paths are immutable sequences, whereas `append` in `dfs` may share a backing array between branches.
- Grid.GetFreePosition: it takes the matrix and a row index instead of a `Line` slice.
- Text.StringifyLine: it takes the matrix and a row index instead of a `Line` slice.
