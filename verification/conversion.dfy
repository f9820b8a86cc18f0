/** What a whole run produces: the well-formed case, the ways it raises, and
    a stricter loader that rejects data lines disagreeing with the header. */
module Conversion {
  import opened Failures
  import opened Header
  import opened Geo
  import opened Terrain
  import opened Lake
  import opened Mesh

  /** A header of two integers >= 2 followed by at least `height` lines of
      exactly `width` values each. */
  predicate WellFormedInput(header: seq<string>, lines: seq<seq<real>>, height: int, width: int) {
    && ParseHeader(header) == Success((height, width))
    && 2 <= height && 2 <= width
    && RectangularLines(lines, height, width)
  }

  /** At least `height` data lines, the first `height` of `width` values each. */
  predicate RectangularLines(lines: seq<seq<real>>, height: int, width: int) {
    height <= |lines| && forall y :: 0 <= y < height ==> |lines[y]| == width
  }

  lemma LoadRectangular(lines: seq<seq<real>>, height: int, width: int)
    requires 0 <= height && RectangularLines(lines, height, width)
    ensures Rectangular(Load(lines, height), height, width) && Indexed(Load(lines, height))
    ensures forall y, x :: 0 <= y < height && 0 <= x < width ==> Load(lines, height)[y][x] == Cell(x, y, lines[y][x])
  {
    LoadIndexed(lines, height);
  }

  /** The frame the emit loop runs in for a header (height, width) of sizes >= 2. */
  function GridFrame(height: int, width: int): Frame
    requires 2 <= height && 2 <= width
  {
    Frame(height, width, (MaxLat - MinLat) / (height - 1) as real, (MaxLon - MinLon) / (width - 1) as real)
  }

  /** Once the header has given two sizes >= 2, the run is the emit loop
      over the grid as read, on whatever lines follow. */
  lemma ConvertUnfold(header: seq<string>, lines: seq<seq<real>>, proj: Projection, height: int, width: int)
    requires ParseHeader(header) == Success((height, width)) && 2 <= height && 2 <= width
    ensures Indexed(Load(lines, height))
    ensures var out := Emit(Load(lines, height), GridFrame(height, width), proj);
      Convert(header, lines, proj) == if out.Success? then Success(Assemble(width, height, out.value)) else Failure(out.error)
  {
    LoadIndexed(lines, height);
    assert Spacing(MinLat, MaxLat, height) == Success(GridFrame(height, width).latStep);
    assert Spacing(MinLon, MaxLon, width) == Success(GridFrame(height, width).lonStep);
  }

  /** On a rectangular grid of sizes >= 2 no classification raises. */
  lemma RectangularEmits(points: Points, height: int, width: int, proj: Projection)
    requires 2 <= height && 2 <= width
    requires Rectangular(points, height, width) && Indexed(points)
    ensures Emit(points, GridFrame(height, width), proj).Success?
  {
    var f := GridFrame(height, width);
    FlattenMembers(points);
    var cells := Flatten(points);
    forall k | 0 <= k < |cells|
      ensures LakeAt(points, f, cells[k]).Success?
    {
      var c := cells[k];
      assert c in cells;
      assert Member(points, c);
      RectangularNeverRaises(points, WindowAt(f, c), Threshold);
    }
  }

  /** On well-formed input the run is the emit loop over the grid as read,
      and that loop does not raise. */
  lemma WellFormedEmits(header: seq<string>, lines: seq<seq<real>>, proj: Projection, height: int, width: int)
    requires WellFormedInput(header, lines, height, width)
    ensures Rectangular(Load(lines, height), height, width) && Indexed(Load(lines, height))
    ensures Emit(Load(lines, height), GridFrame(height, width), proj).Success?
    ensures Convert(header, lines, proj) ==
              Success(Assemble(width, height, Emit(Load(lines, height), GridFrame(height, width), proj).value))
  {
    LoadRectangular(lines, height, width);
    RectangularEmits(Load(lines, height), height, width, proj);
    ConvertUnfold(header, lines, proj, height, width);
  }

  /** A well-formed file converts without raising into a mesh of dimensions
      (width, height, 1) with height * width points and as many scalars. */
  lemma ConvertRectangular(header: seq<string>, lines: seq<seq<real>>, proj: Projection, height: int, width: int)
    requires WellFormedInput(header, lines, height, width)
    ensures Convert(header, lines, proj).Success?
    ensures var m := Convert(header, lines, proj).value;
      && m.width == width && m.height == height && m.depth == 1
      && |m.points| == height * width && |m.scalars| == height * width
  {
    WellFormedEmits(header, lines, proj, height, width);
    RowMajor(Load(lines, height), height, width);
  }

  /** Entry k of the mesh belongs to the cell in row k / width and column
      k % width: the scalar is 0 when that cell is lake and its raw elevation
      otherwise, the point is the projection of the raw elevation at the
      interpolated latitude and longitude. */
  predicate EmittedAt(m: TerrainMesh, lines: seq<seq<real>>, proj: Projection, height: int, width: int, k: int)
    requires 2 <= height && 2 <= width
  {
    ScalarAt(m, lines, height, width, k) && PointAt(m, lines, proj, height, width, k)
  }

  /** The scalar half of `EmittedAt`. */
  predicate ScalarAt(m: TerrainMesh, lines: seq<seq<real>>, height: int, width: int, k: int)
    requires 2 <= height && 2 <= width
  {
    var y, x := k / width, k % width;
    && 0 <= k < |m.scalars|
    && 0 <= y < height && y < |lines| && x < |lines[y]|
    && var lake := IsLake(Load(lines, height), Window(height, width, x, y, NeighbourRange), Threshold);
       && lake.Success?
       && m.scalars[k] == (if lake.value then 0.0 else lines[y][x])
  }

  /** The point half of `EmittedAt`. */
  predicate PointAt(m: TerrainMesh, lines: seq<seq<real>>, proj: Projection, height: int, width: int, k: int)
    requires 2 <= height && 2 <= width
  {
    var y, x := k / width, k % width;
    && 0 <= k < |m.points|
    && 0 <= y < height && y < |lines| && x < |lines[y]|
    && m.points[k] == proj(RadiusEarth + lines[y][x],
                           Interpolate(MinLat, (MaxLat - MinLat) / (height - 1) as real, y),
                           Interpolate(MinLon, (MaxLon - MinLon) / (width - 1) as real, x))
  }

  /** The k-th visited cell of a rectangular grid, as read from the file. */
  lemma CellAtIndex(lines: seq<seq<real>>, height: int, width: int, k: int)
    requires 2 <= height && 2 <= width && RectangularLines(lines, height, width)
    requires 0 <= k < height * width
    ensures 0 <= k / width < height && k < |Flatten(Load(lines, height))|
    ensures Flatten(Load(lines, height))[k] == Cell(k % width, k / width, lines[k / width][k % width])
  {
    var points := Load(lines, height);
    assert Rectangular(points, height, width) by {
      LoadRectangular(lines, height, width);
    }
    RowMajorAt(points, height, width, k);
    var y, x := k / width, k % width;
    assert points[y][x] == Cell(x, y, lines[y][x]) by {
      LoadRectangular(lines, height, width);
    }
  }

  /** What the emit loop produced for the k-th visited cell. */
  lemma EmittedCell(points: Points, f: Frame, proj: Projection, k: int)
    requires Indexed(points) && Emit(points, f, proj).Success?
    requires 0 <= k < |Flatten(points)|
    ensures Member(points, Flatten(points)[k])
    ensures var c, out := Flatten(points)[k], Emit(points, f, proj).value;
      && LakeAt(points, f, c).Success?
      && out.scalars[k] == (if LakeAt(points, f, c).value then 0.0 else c.z)
      && out.points[k] == PointOf(f, proj, c)
  {
    var cells := Flatten(points);
    FlattenMembers(points);
    assert cells[k] in cells;
    EmitContents(points, f, proj, cells, |cells|);
  }

  lemma EntryAt(lines: seq<seq<real>>, proj: Projection, height: int, width: int, k: int)
    requires 2 <= height && 2 <= width && RectangularLines(lines, height, width)
    requires Indexed(Load(lines, height))
    requires Emit(Load(lines, height), GridFrame(height, width), proj).Success?
    requires 0 <= k < height * width
    ensures EmittedAt(Assemble(width, height, Emit(Load(lines, height), GridFrame(height, width), proj).value),
                      lines, proj, height, width, k)
  {
    ScalarEntryAt(lines, proj, height, width, k);
    PointEntryAt(lines, proj, height, width, k);
  }

  lemma ScalarEntryAt(lines: seq<seq<real>>, proj: Projection, height: int, width: int, k: int)
    requires 2 <= height && 2 <= width && RectangularLines(lines, height, width)
    requires Indexed(Load(lines, height))
    requires Emit(Load(lines, height), GridFrame(height, width), proj).Success?
    requires 0 <= k < height * width
    ensures ScalarAt(Assemble(width, height, Emit(Load(lines, height), GridFrame(height, width), proj).value),
                     lines, height, width, k)
  {
    var points, f := Load(lines, height), GridFrame(height, width);
    var out := Emit(points, f, proj).value;
    var y, x := k / width, k % width;
    CellAtIndex(lines, height, width, k);
    var c := Flatten(points)[k];
    EmittedCell(points, f, proj, k);
    assert WindowAt(f, c) == Window(height, width, x, y, NeighbourRange);
  }

  lemma PointEntryAt(lines: seq<seq<real>>, proj: Projection, height: int, width: int, k: int)
    requires 2 <= height && 2 <= width && RectangularLines(lines, height, width)
    requires Indexed(Load(lines, height))
    requires Emit(Load(lines, height), GridFrame(height, width), proj).Success?
    requires 0 <= k < height * width
    ensures PointAt(Assemble(width, height, Emit(Load(lines, height), GridFrame(height, width), proj).value),
                    lines, proj, height, width, k)
  {
    var points, f := Load(lines, height), GridFrame(height, width);
    var out := Emit(points, f, proj).value;
    var y, x := k / width, k % width;
    assert 0 <= y < height && k < |Flatten(points)| by {
      CellAtIndex(lines, height, width, k);
    }
    var z := lines[y][x];
    var m := Assemble(width, height, out);
    assert k < |m.points| && m.points[k] == PointOf(f, proj, Cell(x, y, z)) by {
      CellAtIndex(lines, height, width, k);
      EmittedCell(points, f, proj, k);
    }
    PointAtIntro(m, lines, proj, height, width, k);
  }

  lemma PointAtIntro(m: TerrainMesh, lines: seq<seq<real>>, proj: Projection, height: int, width: int, k: int)
    requires 2 <= height && 2 <= width && 0 <= k
    requires k / width < height && k / width < |lines| && k % width < |lines[k / width]|
    requires k < |m.points|
    requires m.points[k] == PointOf(GridFrame(height, width), proj, Cell(k % width, k / width, lines[k / width][k % width]))
    ensures PointAt(m, lines, proj, height, width, k)
  {
  }

  /** Emission is row-major: every entry k < height * width is the scalar and
      the point of cell (k / width, k % width). */
  lemma ConvertRowMajor(header: seq<string>, lines: seq<seq<real>>, proj: Projection, height: int, width: int)
    requires WellFormedInput(header, lines, height, width)
    ensures Convert(header, lines, proj).Success?
    ensures forall k :: 0 <= k < height * width ==>
              EmittedAt(Convert(header, lines, proj).value, lines, proj, height, width, k)
  {
    WellFormedEmits(header, lines, proj, height, width);
    forall k | 0 <= k < height * width
      ensures EmittedAt(Convert(header, lines, proj).value, lines, proj, height, width, k)
    {
      EntryAt(lines, proj, height, width, k);
    }
  }

  /** maxAltitude is max(0, every elevation of the grid). */
  lemma ConvertMaxAltitude(header: seq<string>, lines: seq<seq<real>>, proj: Projection, height: int, width: int)
    requires WellFormedInput(header, lines, height, width)
    ensures Convert(header, lines, proj).Success?
    ensures var top := Convert(header, lines, proj).value.maxAltitude;
      && 0.0 <= top
      && (forall y, x :: 0 <= y < height && 0 <= x < width ==> lines[y][x] <= top)
      && (top == 0.0 || exists y, x :: 0 <= y < height && 0 <= x < width && top == lines[y][x])
  {
    WellFormedEmits(header, lines, proj, height, width);
    MaxAltitudeBound(lines, proj, height, width);
    MaxAltitudeAttained(lines, proj, height, width);
  }

  lemma MaxAltitudeBound(lines: seq<seq<real>>, proj: Projection, height: int, width: int)
    requires 2 <= height && 2 <= width && RectangularLines(lines, height, width)
    requires Indexed(Load(lines, height))
    requires Emit(Load(lines, height), GridFrame(height, width), proj).Success?
    ensures var top := Emit(Load(lines, height), GridFrame(height, width), proj).value.maxAltitude;
      && 0.0 <= top
      && forall y, x :: 0 <= y < height && 0 <= x < width ==> lines[y][x] <= top
  {
    EmitTop(Load(lines, height), GridFrame(height, width), proj);
    GridBelow(lines, height, width, Emit(Load(lines, height), GridFrame(height, width), proj).value.maxAltitude);
  }

  /** A bound on every visited cell bounds every value of the grid. */
  lemma GridBelow(lines: seq<seq<real>>, height: int, width: int, top: real)
    requires 0 <= height && RectangularLines(lines, height, width)
    requires forall c :: c in Flatten(Load(lines, height)) ==> c.z <= top
    ensures forall y, x :: 0 <= y < height && 0 <= x < width ==> lines[y][x] <= top
  {
    forall y, x | 0 <= y < height && 0 <= x < width
      ensures lines[y][x] <= top
    {
      GridCellVisited(lines, height, width, y, x);
    }
  }

  /** The cell read at row y, column x is one of the cells the emit loop visits. */
  lemma GridCellVisited(lines: seq<seq<real>>, height: int, width: int, y: int, x: int)
    requires 0 <= height && RectangularLines(lines, height, width)
    requires 0 <= y < height && 0 <= x < width
    ensures Cell(x, y, lines[y][x]) in Flatten(Load(lines, height))
  {
    var points := Load(lines, height);
    assert points[y][x] == Cell(x, y, lines[y][x]) by {
      LoadRectangular(lines, height, width);
    }
    FlattenVisitsAll(points);
  }

  lemma MaxAltitudeAttained(lines: seq<seq<real>>, proj: Projection, height: int, width: int)
    requires 2 <= height && 2 <= width && RectangularLines(lines, height, width)
    requires Indexed(Load(lines, height))
    requires Emit(Load(lines, height), GridFrame(height, width), proj).Success?
    ensures var top := Emit(Load(lines, height), GridFrame(height, width), proj).value.maxAltitude;
      top == 0.0 || exists y, x :: 0 <= y < height && 0 <= x < width && top == lines[y][x]
  {
    var top := Emit(Load(lines, height), GridFrame(height, width), proj).value.maxAltitude;
    EmitTop(Load(lines, height), GridFrame(height, width), proj);
    if top != 0.0 {
      GridAttained(lines, height, width, top);
    }
  }

  /** A value of a visited cell is a value of the grid. */
  lemma GridAttained(lines: seq<seq<real>>, height: int, width: int, top: real)
    requires 0 <= height && RectangularLines(lines, height, width)
    requires exists c :: c in Flatten(Load(lines, height)) && top == c.z
    ensures exists y, x :: 0 <= y < height && 0 <= x < width && top == lines[y][x]
  {
    var points := Load(lines, height);
    var c: Cell :| c in Flatten(points) && top == c.z;
    assert Member(points, c) by {
      LoadIndexed(lines, height);
      FlattenMembers(points);
    }
    LoadRectangular(lines, height, width);
    assert lines[c.y][c.x] == top;
  }

  // ---------------------------------------------------------------------------
  // Short and missing data lines

  /** Between a non-empty line a and an empty line b there is a non-empty
      line p right next to an empty line q. */
  lemma EmptyBesideNonEmpty(lines: seq<seq<real>>, a: int, b: int) returns (p: int, q: int)
    requires 0 < |LineAt(lines, a)| && |LineAt(lines, b)| == 0
    ensures q == p + 1 || q == p - 1
    ensures 0 < |LineAt(lines, p)| && |LineAt(lines, q)| == 0
    ensures (a <= p <= b && a <= q <= b) || (b <= p <= a && b <= q <= a)
    decreases if a < b then b - a else a - b
  {
    var next := if a < b then a + 1 else a - 1;
    if next == b || |LineAt(lines, next)| == 0 {
      p, q := a, next;
    } else {
      p, q := EmptyBesideNonEmpty(lines, next, b);
    }
  }

  /** Inside the declared grid, with radius 2 and two columns or more, the
      classification never divides by zero. */
  lemma NoZeroDivisionInside(points: Points, f: Frame, c: Cell)
    requires Member(points, c)
    requires 0 <= c.x < f.width && 0 <= c.y < f.height && 2 <= f.width
    ensures LakeAt(points, f, c) != Failure(ZeroDivision)
  {
    var w := WindowAt(f, c);
    if Block(points, w, w.radius + 1).Success? {
      NeighbourBounds(points, w);
    }
  }

  /** A value read two or more columns right of the declared width has no
      in-bounds neighbour at all: its classification divides by zero. */
  lemma FarRightDividesByZero(points: Points, f: Frame, c: Cell)
    requires Member(points, c)
    requires 0 <= c.y < f.height && f.width + NeighbourRange <= c.x
    ensures LakeAt(points, f, c) == Failure(ZeroDivision)
  {
    var w := WindowAt(f, c);
    assert !Block(points, w, w.radius + 1).Failure?;
    BlockCount(points, w, w.radius + 1);
    assert Overlap(w.x - w.radius, w.x + w.radius + 1, 0, w.width) == 0;
  }

  /** A missing neighbour within radius 2 makes the classification raise IndexError. */
  lemma MissingRaises(points: Points, f: Frame, c: Cell, i: int, j: int)
    requires Member(points, c)
    requires -2 <= i <= 2 && -2 <= j <= 2
    requires Missing(points, WindowAt(f, c), i, j)
    ensures LakeAt(points, f, c) == Failure(IndexOutOfRange)
  {
  }

  /** The last value of a line shorter than the declared width misses its
      right-hand neighbour. */
  lemma MissingAfterLastValue(points: Points, f: Frame, y: int) returns (c: Cell)
    requires Indexed(points) && 0 <= y < |points| && y < f.height
    requires 0 < |points[y]| < f.width
    ensures Member(points, c) && LakeAt(points, f, c) == Failure(IndexOutOfRange)
  {
    c := points[y][|points[y]| - 1];
    assert Missing(points, WindowAt(f, c), 1, 0);
    MissingRaises(points, f, c, 1, 0);
  }

  /** The first value of a line next to an empty line misses its neighbour
      in that line. */
  lemma MissingInEmptyLine(points: Points, f: Frame, p: int, q: int) returns (c: Cell)
    requires Indexed(points) && 0 <= p < |points| && 0 <= q < |points| && q < f.height && 0 < f.width
    requires q == p + 1 || q == p - 1
    requires 0 < |points[p]| && |points[q]| == 0
    ensures Member(points, c) && LakeAt(points, f, c) == Failure(IndexOutOfRange)
  {
    c := points[p][0];
    assert Missing(points, WindowAt(f, c), 0, q - p);
    MissingRaises(points, f, c, 0, q - p);
  }

  /** A short line next to (or after the last value of) a read line leaves
      some read cell with an in-bounds neighbour that was never read. */
  lemma CellMissingNeighbour(lines: seq<seq<real>>, height: int, width: int, short: int, nonEmpty: int)
    returns (c: Cell)
    requires 2 <= height && 2 <= width
    requires 0 <= short < height && |LineAt(lines, short)| < width
    requires 0 <= nonEmpty < height && 0 < |LineAt(lines, nonEmpty)|
    ensures Member(Load(lines, height), c)
    ensures LakeAt(Load(lines, height), GridFrame(height, width), c) == Failure(IndexOutOfRange)
  {
    var points := Load(lines, height);
    LoadIndexed(lines, height);
    if 0 < |LineAt(lines, short)| {
      c := MissingAfterLastValue(points, GridFrame(height, width), short);
    } else {
      var p, q := EmptyBesideNonEmpty(lines, nonEmpty, short);
      c := MissingInEmptyLine(points, GridFrame(height, width), p, q);
    }
  }

  /** When one cell raises IndexError and none divides by zero, the emit
      loop raises IndexError. */
  lemma EmitRaisesIndex(points: Points, f: Frame, proj: Projection, c: Cell)
    requires Indexed(points) && c in Flatten(points)
    requires Member(points, c) && LakeAt(points, f, c) == Failure(IndexOutOfRange)
    requires forall d :: d in Flatten(points) ==> Member(points, d) && LakeAt(points, f, d) != Failure(ZeroDivision)
    ensures Emit(points, f, proj) == Failure(IndexOutOfRange)
  {
    var cells := Flatten(points);
    var out := EmitPrefix(points, f, proj, cells, |cells|);
    assert out.Failure?;
    EmitFirstFailure(points, f, proj, cells, |cells|);
    var k :| 0 <= k < |cells| && LakeAt(points, f, cells[k]) == Failure(out.error);
    assert cells[k] in cells;
  }

  /** No read cell lies right of the declared width, so none divides by zero. */
  lemma NoZeroDivisionWithinWidth(lines: seq<seq<real>>, height: int, width: int)
    requires 2 <= height && 2 <= width
    requires forall y :: 0 <= y < height ==> |LineAt(lines, y)| <= width
    ensures forall d :: d in Flatten(Load(lines, height)) ==>
              Member(Load(lines, height), d) && LakeAt(Load(lines, height), GridFrame(height, width), d) != Failure(ZeroDivision)
  {
    var points := Load(lines, height);
    LoadIndexed(lines, height);
    FlattenMembers(points);
    forall d | d in Flatten(points)
      ensures LakeAt(points, GridFrame(height, width), d) != Failure(ZeroDivision)
    {
      NoZeroDivisionInside(points, GridFrame(height, width), d);
    }
  }

  /** With no data line longer than `width`, one line shorter than `width`
      and one line holding values, the run raises IndexError: some cell has
      an in-bounds neighbour that was never read, and no cell divides by zero
      before it. */
  lemma ShortRowRaises(header: seq<string>, lines: seq<seq<real>>, proj: Projection,
                       height: int, width: int, short: int, nonEmpty: int)
    requires ParseHeader(header) == Success((height, width)) && 2 <= height && 2 <= width
    requires forall y :: 0 <= y < height ==> |LineAt(lines, y)| <= width
    requires 0 <= short < height && |LineAt(lines, short)| < width
    requires 0 <= nonEmpty < height && 0 < |LineAt(lines, nonEmpty)|
    ensures Convert(header, lines, proj) == Failure(IndexOutOfRange)
  {
    var points := Load(lines, height);
    ConvertUnfold(header, lines, proj, height, width);
    var c := CellMissingNeighbour(lines, height, width, short, nonEmpty);
    assert c in Flatten(points) by {
      FlattenVisitsAll(points);
    }
    NoZeroDivisionWithinWidth(lines, height, width);
    EmitRaisesIndex(points, GridFrame(height, width), proj, c);
  }

  /** A file holding only its header, or blank lines where the data should
      be, is converted into a mesh with no points at all although its
      declared dimensions are width x height x 1. */
  lemma EmptyDataYieldsEmptyMesh(header: seq<string>, lines: seq<seq<real>>, proj: Projection, height: int, width: int)
    requires ParseHeader(header) == Success((height, width)) && 2 <= height && 2 <= width
    requires forall y :: 0 <= y < height ==> |LineAt(lines, y)| == 0
    ensures Convert(header, lines, proj) == Success(TerrainMesh(width, height, 1, [], [], 0.0))
  {
    ConvertUnfold(header, lines, proj, height, width);
    FlattenEmpty(Load(lines, height));
  }

  /** The smallest instance: the file "2 2" and nothing else. */
  lemma HeaderOnlyFile(proj: Projection)
    ensures Convert(["2", "2"], [], proj) == Success(TerrainMesh(2, 2, 1, [], [], 0.0))
  {
    HeaderRoundTrip(2, 2);
    assert IntToString(2) == "2";
    EmptyDataYieldsEmptyMesh(["2", "2"], [], proj, 2, 2);
  }

  // ---------------------------------------------------------------------------
  // The loader as evidently intended

  /** Convert, but refusing a file whose data lines do not form the declared
      height x width grid (missing lines, short lines, extra values) or whose
      declared sizes are not positive, instead of emitting a mesh whose point
      count disagrees with its dimensions. */
  function ConvertStrict(header: seq<string>, lines: seq<seq<real>>, proj: Projection): (r: Result<TerrainMesh>)
    ensures r.Success? ==> RectangularLines(lines, r.value.height, r.value.width)
    ensures r.Success? ==>
              && |r.value.points| == r.value.width * r.value.height
              && |r.value.scalars| == r.value.width * r.value.height
    ensures r.Success? ==> r == Convert(header, lines, proj)
  {
    var dims :- ParseHeader(header);
    var height, width := dims.0, dims.1;
    if height <= 0 || width <= 0 || !RectangularLines(lines, height, width) then Failure(MalformedGrid)
    else
      var r := Convert(header, lines, proj);
      if r.Success? then
        LoadRectangular(lines, height, width);
        RowMajor(Load(lines, height), height, width);
        r
      else r
  }

  /** On well-formed input `ConvertStrict` and `Convert` agree. */
  lemma StrictAgreesOnWellFormed(header: seq<string>, lines: seq<seq<real>>, proj: Projection, height: int, width: int)
    requires WellFormedInput(header, lines, height, width)
    ensures ConvertStrict(header, lines, proj) == Convert(header, lines, proj)
  {
  }

  /** The header-only file is refused by the strict loader. */
  lemma StrictRefusesEmptyData(header: seq<string>, lines: seq<seq<real>>, proj: Projection, height: int, width: int)
    requires ParseHeader(header) == Success((height, width)) && 1 <= height && 1 <= width
    requires forall y :: 0 <= y < height ==> |LineAt(lines, y)| == 0
    ensures ConvertStrict(header, lines, proj) == Failure(MalformedGrid)
  {
    if height <= |lines| {
      assert |LineAt(lines, 0)| == 0;
      assert !RectangularLines(lines, height, width);
    }
  }
}
