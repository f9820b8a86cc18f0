/** The emit loop and the whole conversion: header, spacings, grid
    construction, then one row-major pass that appends a scalar and a point
    per cell and keeps the running maximum altitude. */
module Mesh {
  import opened Failures
  import opened Header
  import opened Geo
  import opened Terrain
  import opened Lake

  /** is_lake's default arguments, the ones the emit loop uses. */
  const Threshold: real := 0.000001
  const NeighbourRange: nat := 2

  /** What the emit loop reads besides the grid: declared size and spacings. */
  datatype Frame = Frame(height: int, width: int, latStep: real, lonStep: real)

  /** What the loop hands to vtkFloatArray and vtkPoints, and maxAltitude. */
  datatype Emitted = Emitted(scalars: seq<real>, points: seq<Point3>, maxAltitude: real)

  /** The structured grid: dimensions (width, height, depth), points, scalars,
      and the maximum altitude reported on the console. */
  datatype TerrainMesh =
    TerrainMesh(width: int, height: int, depth: int, points: seq<Point3>, scalars: seq<real>, maxAltitude: real)

  function WindowAt(f: Frame, c: Cell): Window {
    Window(f.height, f.width, c.x, c.y, NeighbourRange)
  }

  /** The classification the loop asks for, on the grid as read. */
  function LakeAt(points: Points, f: Frame, c: Cell): Result<bool>
    requires Member(points, c)
  {
    IsLake(points, WindowAt(f, c), Threshold)
  }

  /** The point of a cell: always from the raw elevation, lake or not. */
  function PointOf(f: Frame, proj: Projection, c: Cell): Point3 {
    proj(RadiusEarth + c.z, Interpolate(MinLat, f.latStep, c.y), Interpolate(MinLon, f.lonStep, c.x))
  }

  /** The emit loop over the first n visited cells. It stops at the first
      cell whose classification raises. */
  function EmitPrefix(points: Points, f: Frame, proj: Projection, cells: seq<Cell>, n: nat): (r: Result<Emitted>)
    requires n <= |cells|
    requires forall c :: c in cells ==> Member(points, c)
    ensures r.Success? ==> |r.value.scalars| == n && |r.value.points| == n
    ensures r.Failure? <==> exists k :: 0 <= k < n && LakeAt(points, f, cells[k]).Failure?
  {
    if n == 0 then Success(Emitted([], [], 0.0))
    else
      var done :- EmitPrefix(points, f, proj, cells, n - 1);
      var c := cells[n - 1];
      var top := if c.z > done.maxAltitude then c.z else done.maxAltitude;
      var lake :- LakeAt(points, f, c);
      var scalar := if lake then 0.0 else c.z;
      Success(Emitted(done.scalars + [scalar], done.points + [PointOf(f, proj, c)], top))
  }

  /** The k-th scalar and the k-th point both come from the k-th visited
      cell: the scalar is 0 for lake and the raw elevation otherwise, the
      point always uses the raw elevation. The classification reads the grid
      as read from the file, never scalars already emitted. */
  lemma {:induction false} EmitContents(points: Points, f: Frame, proj: Projection, cells: seq<Cell>, n: nat)
    requires n <= |cells|
    requires forall c :: c in cells ==> Member(points, c)
    requires EmitPrefix(points, f, proj, cells, n).Success?
    ensures var out := EmitPrefix(points, f, proj, cells, n).value;
      forall k :: 0 <= k < n ==>
        && LakeAt(points, f, cells[k]).Success?
        && out.scalars[k] == (if LakeAt(points, f, cells[k]).value then 0.0 else cells[k].z)
        && out.points[k] == PointOf(f, proj, cells[k])
  {
    if n > 0 {
      EmitContents(points, f, proj, cells, n - 1);
    }
  }

  /** maxAltitude is max(0, every elevation visited): at least 0, at least
      every elevation, and either 0 or one of them. */
  lemma {:induction false} EmitMaxAltitude(points: Points, f: Frame, proj: Projection, cells: seq<Cell>, n: nat)
    requires n <= |cells|
    requires forall c :: c in cells ==> Member(points, c)
    requires EmitPrefix(points, f, proj, cells, n).Success?
    ensures var top := EmitPrefix(points, f, proj, cells, n).value.maxAltitude;
      && 0.0 <= top
      && (forall k :: 0 <= k < n ==> cells[k].z <= top)
      && (top == 0.0 || exists k :: 0 <= k < n && top == cells[k].z)
  {
    if n > 0 {
      EmitMaxAltitude(points, f, proj, cells, n - 1);
    }
  }

  /** A failing loop reports the exception of the first cell whose
      classification raises. */
  lemma {:induction false} EmitFirstFailure(points: Points, f: Frame, proj: Projection, cells: seq<Cell>, n: nat)
    requires n <= |cells|
    requires forall c :: c in cells ==> Member(points, c)
    requires EmitPrefix(points, f, proj, cells, n).Failure?
    ensures exists k ::
      && 0 <= k < n
      && LakeAt(points, f, cells[k]) == Failure(EmitPrefix(points, f, proj, cells, n).error)
      && forall k' :: 0 <= k' < k ==> LakeAt(points, f, cells[k']).Success?
  {
    var r := EmitPrefix(points, f, proj, cells, n);
    if EmitPrefix(points, f, proj, cells, n - 1).Failure? {
      EmitFirstFailure(points, f, proj, cells, n - 1);
    } else {
      assert forall k' :: 0 <= k' < n - 1 ==> LakeAt(points, f, cells[k']).Success?;
      assert LakeAt(points, f, cells[n - 1]) == Failure(r.error);
    }
  }

  /** `for line in points: for x, y, z in line: ...` over the whole grid. */
  function Emit(points: Points, f: Frame, proj: Projection): (r: Result<Emitted>)
    requires Indexed(points)
    ensures r.Success? ==> |r.value.scalars| == |Flatten(points)| && |r.value.points| == |Flatten(points)|
  {
    var cells := Flatten(points);
    FlattenMembers(points);
    EmitPrefix(points, f, proj, cells, |cells|)
  }

  /** Over the whole grid, maxAltitude is max(0, every visited elevation). */
  lemma EmitTop(points: Points, f: Frame, proj: Projection)
    requires Indexed(points) && Emit(points, f, proj).Success?
    ensures var top := Emit(points, f, proj).value.maxAltitude;
      && 0.0 <= top
      && (forall c :: c in Flatten(points) ==> c.z <= top)
      && (top == 0.0 || exists c :: c in Flatten(points) && top == c.z)
  {
    var cells := Flatten(points);
    FlattenMembers(points);
    EmitMaxAltitude(points, f, proj, cells, |cells|);
    var top := Emit(points, f, proj).value.maxAltitude;
    if top != 0.0 {
      var k :| 0 <= k < |cells| && top == cells[k].z;
      assert cells[k] in cells;
    }
  }

  lemma LoadIndexed(lines: seq<seq<real>>, height: int)
    ensures Indexed(Load(lines, height))
  {
  }

  /** The whole conversion of txt2vtk: header, spacings, grid, emit loop. */
  function Convert(header: seq<string>, lines: seq<seq<real>>, proj: Projection): (r: Result<TerrainMesh>)
    ensures ParseHeader(header).Failure? ==> r == Failure(ParseHeader(header).error)
    ensures var dims := ParseHeader(header);
      dims.Success? && (dims.value.0 == 1 || dims.value.1 == 1) ==> r == Failure(ZeroDivision)
    ensures r.Success? ==> ParseHeader(header) == Success((r.value.height, r.value.width)) && r.value.depth == 1
    ensures r.Success? ==>
              && |r.value.points| == |Flatten(Load(lines, r.value.height))|
              && |r.value.scalars| == |Flatten(Load(lines, r.value.height))|
  {
    var dims :- ParseHeader(header);
    var height, width := dims.0, dims.1;
    var latStep :- Spacing(MinLat, MaxLat, height);
    var lonStep :- Spacing(MinLon, MaxLon, width);
    var points := Load(lines, height);
    LoadIndexed(lines, height);
    FlattenMembers(points);
    var out :- Emit(points, Frame(height, width, latStep, lonStep), proj);
    Success(Assemble(width, height, out))
  }

  /** vtkStructuredGrid with SetDimensions(width, height, 1), the points and the scalars. */
  function Assemble(width: int, height: int, out: Emitted): TerrainMesh {
    TerrainMesh(width, height, 1, out.points, out.scalars, out.maxAltitude)
  }
}
