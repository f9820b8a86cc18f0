/** Geographic configuration and the latitude/longitude grid spacing. The
    spherical-to-Cartesian conversion is trigonometry on floats; it enters the
    model as a function parameter, so the model says exactly which arguments
    each point is built from and nothing about the trigonometry itself. */
module Geo {
  import opened Failures

  /** Mean Earth radius in metres, and the region's bounding box in degrees. */
  const RadiusEarth: real := 6371009.0
  const MinLat: real := 45.0
  const MaxLat: real := 47.5
  const MinLon: real := 5.0
  const MaxLon: real := 7.5

  datatype Point3 = Point3(x: real, y: real, z: real)

  /** spherical_to_cartesian(radius, latitude, longitude). */
  type Projection = (real, real, real) -> Point3

  /** `(hi - lo) / (n - 1)`: the step between consecutive rows (or columns)
      of an n-sample axis, raising ZeroDivisionError when n is 1. */
  function Spacing(lo: real, hi: real, n: int): (r: Result<real>)
    ensures r.Failure? <==> n == 1
    ensures r.Failure? ==> r.error == ZeroDivision
    ensures r.Success? ==> lo + (n - 1) as real * r.value == hi
    ensures r.Success? && lo < hi ==> (0.0 < r.value <==> 1 < n)
  {
    if n - 1 == 0 then Failure(ZeroDivision) else Success((hi - lo) / (n - 1) as real)
  }

  /** `lo + i * step`: the coordinate of sample i. */
  function Interpolate(lo: real, step: real, i: int): real
  {
    lo + i as real * step
  }

  /** Sample 0 lies on the lower bound, sample n - 1 on the upper bound, and
      coordinates strictly increase with the index when lo < hi. */
  lemma InterpolationBounds(lo: real, hi: real, n: int, step: real)
    requires Spacing(lo, hi, n) == Success(step)
    ensures Interpolate(lo, step, 0) == lo
    ensures Interpolate(lo, step, n - 1) == hi
    ensures lo < hi && 1 < n ==>
              forall i, j :: i < j ==> Interpolate(lo, step, i) < Interpolate(lo, step, j)
  {
    if lo < hi && 1 < n {
      forall i, j | i < j
        ensures Interpolate(lo, step, i) < Interpolate(lo, step, j)
      {
        assert Interpolate(lo, step, j) - Interpolate(lo, step, i) == (j - i) as real * step;
      }
    }
  }
}
