# txt2vtk terrain ingestion, modelled in Dafny

`txt2vtk.py` reads an altitude file. The first line is a `height width`
header, and the data lines that follow hold `height` rows of `width`
elevations. For every cell, in row-major order, it:

- decides whether the cell is *lake*: its elevation lies within a threshold
  (1e-6) of the mean elevation of the in-bounds cells, other than the cell
  itself, in the square of radius 2 around it;
- appends a scalar: 0 for lake, the raw elevation otherwise;
- appends a point: the raw elevation projected from the interpolated
  latitude/longitude onto a sphere of radius `RADIUS_EARTH + z`;
- keeps a running `maxAltitude`.

The points and scalars are handed to a structured grid of dimensions
`(width, height, 1)`.

The model follows the code closely.

- The Python exceptions are explicit `Failure` values, raised in the order
  the code raises them:
  - `ValueError` from `int()` (`InvalidLiteral`) comes before `ValueError`
    from tuple unpacking (`UnpackMismatch`), because the list comprehension
    runs first;
  - `ZeroDivisionError` comes from the spacing when a size is 1;
  - `IndexError` comes from `is_lake` when an in-bounds neighbour was never
    read;
  - `ZeroDivisionError` comes from `is_lake` when a cell has no neighbour.
- `is_lake` tests bounds against the *declared* `height`/`width` but indexes
  the rows as actually read. The model keeps both.
- `readline()` past the end of the file gives an empty line, so a missing
  data line is an empty row (`Terrain.LineAt`).
- Modules:
  - `Failures`: error kinds and `Result`.
  - `Header`: `int()` on a token, and the header unpack.
  - `Geo`: constants, spacing and interpolation; the projection is a
    parameter.
  - `Terrain`: grid construction and row-major order.
  - `Lake`: `is_lake`, as two prefix folds plus the nested loops as a method.
  - `Mesh`: the emit loop and the whole conversion.
  - `Conversion`: what a run produces on well-formed and malformed input,
    plus a stricter loader.

Behaviours of the code worth knowing:

- **Radius 0.** With radius 0, `is_lake` has no neighbour and divides by
  zero (`Lake.RadiusZeroRaises`). The conversion always uses radius 2, so
  this never happens there.
- **Short and missing data lines.** These do not raise a parse or truncation
  error while the grid is built.
  - If the grid holds some values, a read cell next to the gap raises
    `IndexError` inside `is_lake` (`Conversion.ShortRowRaises`).
  - If the grid holds no values at all, a mesh with no points is produced
    (see Findings).
- **Long data lines.** Extra values beyond `width` are read and emitted. A
  value two or more columns past the declared width has no in-bounds
  neighbour, so `is_lake` divides by zero on it
  (`Conversion.FarRightDividesByZero`).
- **Lake geometry.** There is no option to flatten lake geometry: the point
  of a lake cell is always built from its raw elevation (`Mesh.PointOf`,
  `Conversion.ConvertRowMajor`).

## Model

| member | source | states |
|---|---|---|
| Header.ParseInt | txt2vtk.py:32 | `int(token)` succeeds exactly on an integer literal (`Header.IntLiteral`: an optional sign, then ASCII digits with single underscores allowed between two digits) and raises ValueError on every other token; the value is the sign times the decimal value of the digits |
| Header.ParseIntShape | txt2vtk.py:32 | an accepted token ends in a digit, has only digits and underscores after its first character, and gives a negative value only with a leading `-` |
| Header.MalformedTokensRaise | txt2vtk.py:32 | `x5`, `1__2`, `+_5` and a bare `-` raise ValueError, and so does the header `x5 3` |
| Header.WellFormedTokensParse | txt2vtk.py:32 | `007` reads as 7, `-12` as -12 and `1_000` as 1000 |
| Header.ParseIntRoundTrip | txt2vtk.py:32 | `int(str(n)) == n` for every integer n |
| Header.ParseAll | txt2vtk.py:32 | the comprehension succeeds exactly when every token converts; it then yields one value per token, in order; otherwise ValueError |
| Header.ParseHeader | txt2vtk.py:32 | succeeds exactly when there are two tokens and both are integers, bound as (height, width) in that order; ValueError for a bad token whatever the token count; an unpack error exactly when all tokens are integers but there are not two |
| Header.HeaderRoundTrip | txt2vtk.py:32 | a header written as `str(h) str(w)` reads back as (h, w) |
| Header.NonNumericHeaderRaises | txt2vtk.py:32 | a non-numeric header raises rather than defaulting |
| Geo.Spacing | txt2vtk.py:40-41 | the step raises ZeroDivisionError exactly when the size is 1; otherwise n-1 steps lead from the lower to the upper bound, and the step is positive exactly when n > 1 (for lo < hi) |
| Geo.InterpolationBounds | txt2vtk.py:78-79 | row/column 0 maps to the lower bound, row/column n-1 to the upper bound, and the coordinate strictly increases with the index |
| Terrain.LoadRow | txt2vtk.py:70-71 | one row holds one cell per value read, with `row[x] == (x, y, value x)` |
| Terrain.Load | txt2vtk.py:66-71 | `max(height, 0)` rows; row y is as long as data line y; `points[y][x]` stores x as the column index, y as the row index and the raw value |
| Terrain.FlattenVisitsAll | txt2vtk.py:73-74 | the emit loop visits every stored cell |
| Terrain.FlattenMembers | txt2vtk.py:73-74 | every visited cell is stored at `points[c.y][c.x]`, so `is_lake(points, x, y)` reads that cell |
| Terrain.FlattenEmpty | txt2vtk.py:73-74 | a grid of empty rows emits nothing |
| Terrain.RowMajor | txt2vtk.py:73-74 | on a height x width grid the loop visits height*width cells, the k-th being `points[k / width][k % width]` |
| Terrain.RowMajorAt | txt2vtk.py:73-74 | the same at one index k |
| Lake.Visit | txt2vtk.py:51-58 | one step of the inner loop raises IndexError exactly when the offset is a non-centre, in-bounds cell that was never read |
| Lake.Column | txt2vtk.py:50-58 | the inner loop raises IndexError exactly when some visited offset is missing |
| Lake.Block | txt2vtk.py:49-58 | the outer loop raises IndexError exactly when some offset in the square is missing |
| Lake.IsLake | txt2vtk.py:43-62 | the only exceptions are IndexError and ZeroDivisionError; IndexError is raised exactly when an in-bounds neighbour within the radius was never read |
| Lake.ColumnCount | txt2vtk.py:50-57 | the inner loop counts the in-bounds rows of its column, less the centre |
| Lake.BlockCount | txt2vtk.py:49-57 | the outer loop counts in-bounds columns times in-bounds rows, less the centre |
| Lake.NeighbourCount | txt2vtk.py:49-57 | for a cell of the declared grid the neighbour count is exactly (in-bounds columns x in-bounds rows) - 1 |
| Lake.NeighbourBounds | txt2vtk.py:49-60 | the neighbour count is at most (2r+1)^2 - 1, and at least 1 when r >= 1 and the grid has two cells, so the division is safe |
| Lake.RadiusZeroRaises | txt2vtk.py:46-60 | with radius 0, `is_lake` always raises ZeroDivisionError |
| Lake.RectangularNeverRaises | txt2vtk.py:49-62 | on a complete grid of at least 2 x 2, `is_lake` with radius >= 1 never raises, for any cell of the grid |
| Lake.ColumnTotal | txt2vtk.py:50-58 | the inner loop adds the elevations of the in-bounds rows of its column, less the centre |
| Lake.BlockTotal | txt2vtk.py:49-58 | the outer loop adds the elevations of the clipped square, less the centre |
| Lake.NeighbourTotal | txt2vtk.py:49-58 | `total_height` is exactly `Lake.NeighbourSum`: the sum over the square of radius r clipped to the declared grid, less the centre, defined independently of the loops |
| Lake.IsLakeMeanTest | txt2vtk.py:43-62 | for a centre inside the declared grid, `is_lake` answers `abs(z - NeighbourSum / n) <= threshold`, where n = (in-bounds columns x in-bounds rows) - 1 > 0 is the size of the same neighbour set |
| Lake.BlockBetween | txt2vtk.py:49-58 | when every neighbour lies in [lo, hi], the running sum lies between count*lo and count*hi |
| Lake.MeanBetween | txt2vtk.py:60 | when every neighbour lies in [lo, hi], so does their mean |
| Lake.FlatNeighbourhoodIsLake | txt2vtk.py:60-62 | a level neighbourhood is lake for every elevation and every threshold >= 0 |
| Lake.OutlierIsTerrain | txt2vtk.py:60-62 | a cell more than the threshold above or below all its neighbours is not lake |
| Lake.LakeLoop | txt2vtk.py:43-62 | the nested `for` loops as written compute IsLake, raising in the same cases |
| Terrain.Flatten | txt2vtk.py:73-74 | the order in which the nested `for` visits the stored cells; its meaning is stated by `Terrain.RowMajor`, `Terrain.FlattenVisitsAll` and `Terrain.FlattenMembers` |
| Geo.Interpolate | txt2vtk.py:78-79 | `MIN + index * step`; its endpoints and monotonicity are stated by `Geo.InterpolationBounds` |
| Mesh.LakeAt | txt2vtk.py:76 | the call `is_lake(points, x, y)` with the default threshold 1e-6 and radius 2, on the grid as read and the declared size; stated by `Mesh.EmitContents` and `Conversion.ConvertRowMajor` |
| Mesh.PointOf | txt2vtk.py:78-82 | the projection of `RADIUS_EARTH + z` (raw z) at the interpolated latitude and longitude; stated by `Mesh.EmitContents` and `Conversion.ConvertRowMajor` |
| Mesh.Emit | txt2vtk.py:73-84 | the emit loop over all visited cells: one scalar and one point per visited cell; contents stated by `Mesh.EmitContents`, `Mesh.EmitTop` and `Mesh.EmitFirstFailure` |
| Mesh.Assemble | txt2vtk.py:89-92 | `SetDimensions(width, height, 1)` with the emitted points and scalars; stated by `Conversion.ConvertRectangular` |
| Mesh.EmitPrefix | txt2vtk.py:73-84 | after n cells there are n scalars and n points; the loop raises exactly when some cell's classification raises |
| Mesh.EmitContents | txt2vtk.py:73-84 | scalar k is 0 when cell k is lake and its raw elevation otherwise; point k is the projection of cell k with its raw elevation; classification reads the grid as read, never emitted scalars |
| Mesh.EmitMaxAltitude | txt2vtk.py:64-75 | maxAltitude is at least 0 and at least every visited elevation, and is either 0 or one of them |
| Mesh.EmitTop | txt2vtk.py:64-75 | the same over the whole visited grid |
| Mesh.EmitFirstFailure | txt2vtk.py:73-76 | a failing loop reports the exception of the first cell whose classification raises |
| Mesh.Convert | txt2vtk.py:32-90 | header errors propagate; a size of 1 raises ZeroDivisionError; a result has the header's dimensions with depth 1, and one point and one scalar per cell read |
| Conversion.ConvertUnfold | txt2vtk.py:40-90 | with sizes >= 2, the run is the emit loop over the grid as read, in the frame the header determines |
| Conversion.ConvertRectangular | txt2vtk.py:66-90 | a well-formed file converts without raising into dimensions (width, height, 1) with height*width points and height*width scalars |
| Conversion.ConvertRowMajor | txt2vtk.py:73-84 | on a well-formed file, for every k < height*width, scalar k and point k both belong to cell (row k / width, column k % width): the scalar is 0 when that cell is lake and its raw elevation otherwise, and the point is the projection of its raw elevation at latitude `MIN_LAT + row*step` and longitude `MIN_LON + column*step` |
| Conversion.ConvertMaxAltitude | txt2vtk.py:64-75 | on a well-formed file, maxAltitude is `max(0, every elevation)` |
| Conversion.GridCellVisited | txt2vtk.py:66-74 | each value of a complete grid is visited by the emit loop |
| Conversion.NoZeroDivisionInside | txt2vtk.py:49-60 | inside the declared grid, with two columns or more, the classification never divides by zero |
| Conversion.FarRightDividesByZero | txt2vtk.py:49-60 | a value two or more columns right of the declared width makes `is_lake` divide by zero |
| Conversion.MissingRaises | txt2vtk.py:56-58 | a missing in-bounds neighbour within radius 2 makes the classification raise IndexError |
| Conversion.CellMissingNeighbour | txt2vtk.py:56-71 | a short or missing line, together with a line holding values, leaves some read cell whose classification raises IndexError |
| Conversion.EmitRaisesIndex | txt2vtk.py:73-76 | if one cell raises IndexError and none divides by zero, the loop raises IndexError |
| Conversion.ShortRowRaises | txt2vtk.py:66-76 | with no line longer than width, one short line and one line holding values, the conversion raises IndexError |
| Conversion.EmptyDataYieldsEmptyMesh | txt2vtk.py:66-90 | a header followed by no values produces a mesh of dimensions (width, height, 1) with no points |
| Conversion.HeaderOnlyFile | txt2vtk.py:32-90 | the file holding only `2 2` converts into a 2 x 2 x 1 mesh with zero points |
| Conversion.ConvertStrict | txt2vtk.py:66-90 | the loader as intended: it succeeds only on data lines forming the declared grid, and then has width*height points and scalars and agrees with Convert |
| Conversion.StrictAgreesOnWellFormed | txt2vtk.py:66-90 | on well-formed input `ConvertStrict` and `Convert` agree |
| Conversion.StrictRefusesEmptyData | txt2vtk.py:66-71 | the strict loader refuses a header followed by no data |

## Left out

- `helpers.spherical_to_cartesian` is floating-point trigonometry. It is the
  parameter `proj` (`Geo.Projection`), so the model states which arguments
  each point is built from and nothing about the trigonometry itself.
- `main.py`, which only configures VTK rendering, is not part of this model.
  Neither are the remaining constants of `constants.py` (camera distance,
  sea level, centre).
- File I/O is not modelled. The header arrives as the tokens of its line,
  and the data as one sequence of reals per line.
- VTK objects are not modelled. `vtkPoints`, `vtkFloatArray`,
  `vtkStructuredGrid` and the writer are replaced by the sequences and
  dimensions they receive.
- Console prints, the `.txt` suffix check and the `output.vtk` default are
  not modelled.
- `float(z)` on elevation tokens is not modelled, so neither is the
  ValueError a non-numeric data token raises. The data lines are given as
  reals.
- Floating-point rounding is not modelled. Elevations, the mean, the
  threshold test and the spacings are exact reals.
- Header.ParseInt: Unicode digits and surrounding whitespace are not
  modelled. `int()` accepts both, but `str.split()` tokens never carry
  whitespace.
- Lake.IsLake: its own contract pins down the IndexError case exactly. The
  answer is characterised by `Lake.IsLakeMeanTest`, and only for a centre
  inside the declared grid. When ZeroDivisionError is raised follows from
  `Lake.NeighbourBounds`, `Lake.RadiusZeroRaises` and
  `Conversion.FarRightDividesByZero` rather than from its own ensures.
- Mesh.Convert: its own contract gives only the error cases, the dimensions
  and the lengths. The contents are stated by `Conversion.ConvertRowMajor`
  and `Conversion.ConvertMaxAltitude` for well-formed input.
- Conversion.ShortRowRaises: it covers files with no line longer than the
  declared width. With longer lines, a far-right value can divide by zero
  before the short line is reached (`Conversion.FarRightDividesByZero`), and
  which exception comes first depends on the order of the cells.
- The radius of `is_lake` is a natural number. The code only ever uses the
  default 2, and a negative radius makes both loops empty.

## Findings

| source | as written | input that shows it | evidently intended | confidence | as-written member | corrected member |
|---|---|---|---|---|---|---|
| txt2vtk.py:66-90 | the rows are built from whatever `readline()` returns, with no check against the header; when no data values follow the header, no cell is visited, so no `is_lake` call can raise | a file holding only the line `2 2` | a file whose data does not fill the declared height x width grid is refused, not turned into a structured grid of dimensions 2 x 2 x 1 holding zero points | not executed; medium (the mesh it writes is inconsistent with its own dimensions) | Conversion.HeaderOnlyFile | Conversion.ConvertStrict |
