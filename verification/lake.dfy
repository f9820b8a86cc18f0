/** The lake test: a cell is lake when its elevation is within `threshold` of
    the mean elevation of its in-bounds neighbours in the square of radius
    `neighbor_range` around it (the centre excluded). The neighbourhood is
    walked with i (column offset) outer and j (row offset) inner; the walk is
    modelled as two prefix folds, Column for the inner loop and Block for the
    outer loop, so that the loops of LakeLoop can be read against them. */
module Lake {
  import opened Failures
  import opened Terrain

  /** One call of is_lake: the declared grid size (from the header), the
      centre cell and the neighbourhood radius. */
  datatype Window = Window(height: int, width: int, x: int, y: int, radius: nat)

  /** The running neighbor_count and total_height. */
  datatype Tally = Tally(count: nat, total: real)

  function Abs(v: real): (a: real)
    ensures 0.0 <= a && (a == v || a == -v)
  {
    if v < 0.0 then -v else v
  }

  /** The bounds test is against the DECLARED height and width, not the
      lengths of the rows actually read. */
  predicate InBounds(w: Window, nx: int, ny: int) {
    0 <= nx < w.width && 0 <= ny < w.height
  }

  /** Offset (i, j) is an in-bounds neighbour that was never read from the file. */
  predicate Missing(points: Points, w: Window, i: int, j: int) {
    && !(i == 0 && j == 0)
    && InBounds(w, w.x + i, w.y + j)
    && !Present(points, w.x + i, w.y + j)
  }

  /** (nx, ny) is one of the cells the centre's mean is taken over. */
  predicate IsNeighbour(w: Window, nx: int, ny: int) {
    && -(w.radius as int) <= nx - w.x <= w.radius
    && -(w.radius as int) <= ny - w.y <= w.radius
    && !(nx == w.x && ny == w.y)
    && InBounds(w, nx, ny)
  }

  /** One step of the inner loop body, at offset (i, j). */
  function Visit(points: Points, w: Window, i: int, j: int, acc: Tally): (t: Result<Tally>)
    ensures t.Failure? <==> Missing(points, w, i, j)
    ensures t.Failure? ==> t.error == IndexOutOfRange
  {
    var nx, ny := w.x + i, w.y + j;
    if i == 0 && j == 0 then Success(acc)
    else if InBounds(w, nx, ny) then
      if Present(points, nx, ny) then Success(Tally(acc.count + 1, acc.total + points[ny][nx].z))
      else Failure(IndexOutOfRange)
    else Success(acc)
  }

  /** The inner loop for column offset i, over row offsets -radius <= j < jEnd,
      starting from `acc`. */
  function Column(points: Points, w: Window, acc: Tally, i: int, jEnd: int): (t: Result<Tally>)
    requires -(w.radius as int) <= jEnd <= w.radius + 1
    ensures t.Failure? <==> exists j :: -(w.radius as int) <= j < jEnd && Missing(points, w, i, j)
    ensures t.Failure? ==> t.error == IndexOutOfRange
    decreases jEnd + w.radius
  {
    if jEnd == -(w.radius as int) then Success(acc)
    else
      var t :- Column(points, w, acc, i, jEnd - 1);
      Visit(points, w, i, jEnd - 1, t)
  }

  /** The outer loop over column offsets -radius <= i < iEnd. */
  function Block(points: Points, w: Window, iEnd: int): (t: Result<Tally>)
    requires -(w.radius as int) <= iEnd <= w.radius + 1
    ensures t.Failure? <==>
              exists i, j :: -(w.radius as int) <= i < iEnd && -(w.radius as int) <= j <= w.radius && Missing(points, w, i, j)
    ensures t.Failure? ==> t.error == IndexOutOfRange
    decreases iEnd + w.radius
  {
    if iEnd == -(w.radius as int) then Success(Tally(0, 0.0))
    else
      var t :- Block(points, w, iEnd - 1);
      Column(points, w, t, iEnd - 1, w.radius + 1)
  }

  /** is_lake(points, x, y, threshold, neighbor_range): IndexError when an
      in-bounds neighbour is missing, ZeroDivisionError when there is no
      neighbour at all, otherwise `abs(z - average_height) <= threshold`. */
  function IsLake(points: Points, w: Window, threshold: real): (r: Result<bool>)
    requires Present(points, w.x, w.y)
    ensures r.Failure? ==> r.error == IndexOutOfRange || r.error == ZeroDivision
    ensures r == Failure(IndexOutOfRange) <==>
              exists i, j :: -(w.radius as int) <= i <= w.radius && -(w.radius as int) <= j <= w.radius && Missing(points, w, i, j)
  {
    var t :- Block(points, w, w.radius + 1);
    if t.count == 0 then Failure(ZeroDivision)
    else Success(Abs(points[w.y][w.x].z - t.total / t.count as real) <= threshold)
  }

  // ---------------------------------------------------------------------------
  // How many neighbours are counted

  function Max(a: int, b: int): int { if a < b then b else a }
  function Min(a: int, b: int): int { if a < b then a else b }

  /** The number of integers t with lo <= t < hi and a <= t < b. */
  function Overlap(lo: int, hi: int, a: int, b: int): (n: nat)
    ensures n <= Max(hi - lo, 0) && n <= Max(b - a, 0)
  {
    var l, u := Max(lo, a), Min(hi, b);
    if l < u then u - l else 0
  }

  lemma OverlapStep(lo: int, hi: int, a: int, b: int)
    requires lo <= hi
    ensures Overlap(lo, hi + 1, a, b) == Overlap(lo, hi, a, b) + (if a <= hi < b then 1 else 0)
  {
  }

  /** The inner loop counts the in-bounds rows of its column, less the centre. */
  lemma {:induction false} ColumnCount(points: Points, w: Window, acc: Tally, i: int, jEnd: int)
    requires -(w.radius as int) <= jEnd <= w.radius + 1
    requires 0 <= w.y < w.height
    requires Column(points, w, acc, i, jEnd).Success?
    ensures Column(points, w, acc, i, jEnd).value.count ==
              acc.count +
              if 0 <= w.x + i < w.width
              then Overlap(w.y - w.radius, w.y + jEnd, 0, w.height) - (if i == 0 && 0 < jEnd then 1 else 0)
              else 0
    decreases jEnd + w.radius
  {
    if jEnd != -(w.radius as int) {
      ColumnCount(points, w, acc, i, jEnd - 1);
      OverlapStep(w.y - w.radius, w.y + jEnd - 1, 0, w.height);
    }
  }

  /** The outer loop counts in-bounds columns times in-bounds rows, less the centre. */
  lemma {:induction false} BlockCount(points: Points, w: Window, iEnd: int)
    requires -(w.radius as int) <= iEnd <= w.radius + 1
    requires 0 <= w.y < w.height
    requires Block(points, w, iEnd).Success?
    ensures Block(points, w, iEnd).value.count ==
              Overlap(w.x - w.radius, w.x + iEnd, 0, w.width) * Overlap(w.y - w.radius, w.y + w.radius + 1, 0, w.height)
              - (if 0 < iEnd && 0 <= w.x < w.width then 1 else 0)
    decreases iEnd + w.radius
  {
    if iEnd != -(w.radius as int) {
      var prev := Block(points, w, iEnd - 1).value;
      var a: int := Overlap(w.x - w.radius, w.x + iEnd - 1, 0, w.width);
      var h: int := Overlap(w.y - w.radius, w.y + w.radius + 1, 0, w.height);
      var inside := 0 <= w.x + iEnd - 1 < w.width;
      assert prev.count == a * h - (if 0 < iEnd - 1 && 0 <= w.x < w.width then 1 else 0) by {
        BlockCount(points, w, iEnd - 1);
      }
      assert Block(points, w, iEnd).value.count ==
               prev.count + (if inside then h - (if iEnd - 1 == 0 then 1 else 0) else 0) by {
        ColumnCount(points, w, prev, iEnd - 1, w.radius + 1);
      }
      var b: int := Overlap(w.x - w.radius, w.x + iEnd, 0, w.width);
      assert b == a + (if inside then 1 else 0) by {
        OverlapStep(w.x - w.radius, w.x + iEnd - 1, 0, w.width);
      }
      assert b * h == a * h + (if inside then h else 0) by {
        AddColumn(a, h, inside);
      }
    }
  }

  lemma AddColumn(a: int, h: int, inside: bool)
    ensures (a + (if inside then 1 else 0)) * h == a * h + (if inside then h else 0)
  {
  }

  lemma MulBounds(a: int, b: int, c: int, d: int)
    requires 0 <= a <= c && 0 <= b <= d
    ensures a * b <= c * d
  {
    MulMonotone(a, c, b + 1);
    assert a * b <= c * b;
    assert c * b <= c * d by {
      assert c * d - c * b == c * (d - b);
    }
  }

  /** For a cell of the declared grid whose scan succeeds, the count is the
      number of in-bounds cells of the square, less the centre. */
  lemma NeighbourCount(points: Points, w: Window)
    requires InBounds(w, w.x, w.y)
    requires Block(points, w, w.radius + 1).Success?
    ensures Block(points, w, w.radius + 1).value.count ==
              Overlap(w.x - w.radius, w.x + w.radius + 1, 0, w.width)
              * Overlap(w.y - w.radius, w.y + w.radius + 1, 0, w.height) - 1
  {
    BlockCount(points, w, w.radius + 1);
  }

  /** At most (2r+1)^2 - 1 neighbours, and at least one whenever r >= 1 and
      the grid has two cells or more, so the division is then safe. */
  lemma NeighbourBounds(points: Points, w: Window)
    requires InBounds(w, w.x, w.y)
    requires Block(points, w, w.radius + 1).Success?
    ensures Block(points, w, w.radius + 1).value.count <= (2 * w.radius + 1) * (2 * w.radius + 1) - 1
    ensures 1 <= w.radius && (2 <= w.width || 2 <= w.height) ==> 1 <= Block(points, w, w.radius + 1).value.count
  {
    NeighbourCount(points, w);
    var cols := Overlap(w.x - w.radius, w.x + w.radius + 1, 0, w.width);
    var rows := Overlap(w.y - w.radius, w.y + w.radius + 1, 0, w.height);
    MulBounds(cols, rows, 2 * w.radius + 1, 2 * w.radius + 1);
    if 1 <= w.radius && (2 <= w.width || 2 <= w.height) {
      assert 1 <= cols && 1 <= rows;
      if 2 <= w.width {
        assert 2 <= cols;
        MulBounds(2, 1, cols, rows);
      } else {
        assert 2 <= rows;
        MulBounds(1, 2, cols, rows);
      }
    }
  }

  // ---------------------------------------------------------------------------
  // What is summed

  /** The elevation stored at (x, y), or 0 where nothing was read. */
  function CellZ(points: Points, x: int, y: int): real {
    if Present(points, x, y) then points[y][x].z else 0.0
  }

  /** The elevations of column x over rows lo <= y < hi. */
  function ColumnSum(points: Points, x: int, lo: int, hi: int): real
    decreases hi - lo
  {
    if hi <= lo then 0.0 else ColumnSum(points, x, lo, hi - 1) + CellZ(points, x, hi - 1)
  }

  /** The elevations of the rectangle of columns xlo <= x < xhi and rows
      ylo <= y < yhi. */
  function RectSum(points: Points, xlo: int, xhi: int, ylo: int, yhi: int): real
    decreases xhi - xlo
  {
    if xhi <= xlo then 0.0 else RectSum(points, xlo, xhi - 1, ylo, yhi) + ColumnSum(points, xhi - 1, ylo, yhi)
  }

  /** The sum is_lake is meant to take: every cell of the square of radius r
      around the centre clipped to the declared grid, less the centre itself. */
  function NeighbourSum(points: Points, w: Window): real {
    RectSum(points, Max(w.x - w.radius, 0), Min(w.x + w.radius + 1, w.width),
                    Max(w.y - w.radius, 0), Min(w.y + w.radius + 1, w.height))
    - (if InBounds(w, w.x, w.y) then CellZ(points, w.x, w.y) else 0.0)
  }

  /** Extending a clipped range [max(a - r, 0), min(a + e, n)) by one step
      adds the new index exactly when it lies in [0, n). */
  lemma ColumnSumStep(points: Points, x: int, a: int, r: int, e: int, n: int)
    requires -r <= e
    ensures ColumnSum(points, x, Max(a - r, 0), Min(a + e + 1, n)) ==
            ColumnSum(points, x, Max(a - r, 0), Min(a + e, n)) + (if 0 <= a + e < n then CellZ(points, x, a + e) else 0.0)
  {
  }

  lemma RectSumStep(points: Points, a: int, r: int, e: int, n: int, ylo: int, yhi: int)
    requires -r <= e
    ensures RectSum(points, Max(a - r, 0), Min(a + e + 1, n), ylo, yhi) ==
            RectSum(points, Max(a - r, 0), Min(a + e, n), ylo, yhi) + (if 0 <= a + e < n then ColumnSum(points, a + e, ylo, yhi) else 0.0)
  {
  }

  /** The inner loop adds the in-bounds cells of its column, less the centre. */
  lemma {:induction false} ColumnTotal(points: Points, w: Window, acc: Tally, i: int, jEnd: int)
    requires -(w.radius as int) <= jEnd <= w.radius + 1
    requires Column(points, w, acc, i, jEnd).Success?
    ensures Column(points, w, acc, i, jEnd).value.total ==
              acc.total +
              if 0 <= w.x + i < w.width
              then ColumnSum(points, w.x + i, Max(w.y - w.radius, 0), Min(w.y + jEnd, w.height))
                   - (if i == 0 && 0 < jEnd && 0 <= w.y < w.height then CellZ(points, w.x, w.y) else 0.0)
              else 0.0
    decreases jEnd + w.radius
  {
    if jEnd != -(w.radius as int) {
      ColumnTotal(points, w, acc, i, jEnd - 1);
      ColumnSumStep(points, w.x + i, w.y, w.radius, jEnd - 1, w.height);
    }
  }

  /** The outer loop adds the in-bounds cells of the clipped square, less the centre. */
  lemma {:induction false} BlockTotal(points: Points, w: Window, iEnd: int)
    requires -(w.radius as int) <= iEnd <= w.radius + 1
    requires Block(points, w, iEnd).Success?
    ensures Block(points, w, iEnd).value.total ==
              RectSum(points, Max(w.x - w.radius, 0), Min(w.x + iEnd, w.width),
                              Max(w.y - w.radius, 0), Min(w.y + w.radius + 1, w.height))
              - (if 0 < iEnd && InBounds(w, w.x, w.y) then CellZ(points, w.x, w.y) else 0.0)
    decreases iEnd + w.radius
  {
    if iEnd != -(w.radius as int) {
      var prev := Block(points, w, iEnd - 1).value;
      BlockTotal(points, w, iEnd - 1);
      ColumnTotal(points, w, prev, iEnd - 1, w.radius + 1);
      RectSumStep(points, w.x, w.radius, iEnd - 1, w.width,
                  Max(w.y - w.radius, 0), Min(w.y + w.radius + 1, w.height));
    }
  }

  /** is_lake sums exactly the neighbour set: the clipped square less the centre. */
  lemma NeighbourTotal(points: Points, w: Window)
    requires Block(points, w, w.radius + 1).Success?
    ensures Block(points, w, w.radius + 1).value.total == NeighbourSum(points, w)
  {
    BlockTotal(points, w, w.radius + 1);
  }

  /** For a centre inside the declared grid, is_lake's answer is the mean test
      over the neighbour set: |z - NeighbourSum / (cells of the clipped square
      - 1)| <= threshold. */
  lemma IsLakeMeanTest(points: Points, w: Window, threshold: real)
    requires Present(points, w.x, w.y) && InBounds(w, w.x, w.y)
    requires IsLake(points, w, threshold).Success?
    ensures var n := Overlap(w.x - w.radius, w.x + w.radius + 1, 0, w.width)
                     * Overlap(w.y - w.radius, w.y + w.radius + 1, 0, w.height) - 1;
      && 0 < n
      && IsLake(points, w, threshold).value ==
           (Abs(points[w.y][w.x].z - NeighbourSum(points, w) / n as real) <= threshold)
  {
    NeighbourCount(points, w);
    NeighbourTotal(points, w);
  }

  /** Radius 0 has no neighbours: is_lake always divides by zero. */
  lemma RadiusZeroRaises(points: Points, w: Window, threshold: real)
    requires Present(points, w.x, w.y) && w.radius == 0
    ensures IsLake(points, w, threshold) == Failure(ZeroDivision)
  {
    assert Block(points, w, 0) == Success(Tally(0, 0.0));
    assert Column(points, w, Tally(0, 0.0), 0, 0) == Success(Tally(0, 0.0));
  }

  /** A rectangular grid of the declared size never makes is_lake raise for
      radius >= 1 once it has two rows and two columns. */
  lemma RectangularNeverRaises(points: Points, w: Window, threshold: real)
    requires Rectangular(points, w.height, w.width)
    requires InBounds(w, w.x, w.y)
    requires 1 <= w.radius && 2 <= w.height && 2 <= w.width
    ensures IsLake(points, w, threshold).Success?
  {
    assert forall i, j :: !Missing(points, w, i, j);
    NeighbourBounds(points, w);
  }

  // ---------------------------------------------------------------------------
  // What the mean can be

  /** Every neighbour that was read lies in [lo, hi]. */
  ghost predicate NeighboursBetween(points: Points, w: Window, lo: real, hi: real) {
    forall nx, ny :: IsNeighbour(w, nx, ny) && Present(points, nx, ny) ==> lo <= points[ny][nx].z <= hi
  }

  predicate TallyBetween(t: Tally, lo: real, hi: real) {
    t.count as real * lo <= t.total <= t.count as real * hi
  }

  lemma VisitBetween(points: Points, w: Window, lo: real, hi: real, acc: Tally, i: int, j: int)
    requires -(w.radius as int) <= i <= w.radius && -(w.radius as int) <= j <= w.radius
    requires NeighboursBetween(points, w, lo, hi) && TallyBetween(acc, lo, hi)
    requires Visit(points, w, i, j, acc).Success?
    ensures TallyBetween(Visit(points, w, i, j, acc).value, lo, hi)
  {
    var nx, ny := w.x + i, w.y + j;
    if !(i == 0 && j == 0) && InBounds(w, nx, ny) {
      assert IsNeighbour(w, nx, ny);
      var c := acc.count as real;
      assert (acc.count + 1) as real == c + 1.0;
      assert (c + 1.0) * lo == c * lo + lo;
      assert (c + 1.0) * hi == c * hi + hi;
    }
  }

  lemma {:induction false} ColumnBetween(points: Points, w: Window, lo: real, hi: real, acc: Tally, i: int, jEnd: int)
    requires -(w.radius as int) <= i <= w.radius
    requires -(w.radius as int) <= jEnd <= w.radius + 1
    requires NeighboursBetween(points, w, lo, hi) && TallyBetween(acc, lo, hi)
    requires Column(points, w, acc, i, jEnd).Success?
    ensures TallyBetween(Column(points, w, acc, i, jEnd).value, lo, hi)
    decreases jEnd + w.radius
  {
    if jEnd != -(w.radius as int) {
      ColumnBetween(points, w, lo, hi, acc, i, jEnd - 1);
      VisitBetween(points, w, lo, hi, Column(points, w, acc, i, jEnd - 1).value, i, jEnd - 1);
    }
  }

  lemma {:induction false} BlockBetween(points: Points, w: Window, lo: real, hi: real, iEnd: int)
    requires -(w.radius as int) <= iEnd <= w.radius + 1
    requires NeighboursBetween(points, w, lo, hi)
    requires Block(points, w, iEnd).Success?
    ensures TallyBetween(Block(points, w, iEnd).value, lo, hi)
    decreases iEnd + w.radius
  {
    if iEnd != -(w.radius as int) {
      BlockBetween(points, w, lo, hi, iEnd - 1);
      ColumnBetween(points, w, lo, hi, Block(points, w, iEnd - 1).value, iEnd - 1, w.radius + 1);
    }
  }

  lemma DivideBetween(total: real, c: real, lo: real, hi: real)
    requires 0.0 < c && c * lo <= total <= c * hi
    ensures lo <= total / c <= hi
  {
    var m := total / c;
    assert m * c == total;
    assert (m - lo) * c == total - c * lo;
    assert (hi - m) * c == c * hi - total;
  }

  /** When every neighbour lies in [lo, hi], so does their mean. */
  lemma MeanBetween(points: Points, w: Window, lo: real, hi: real)
    requires NeighboursBetween(points, w, lo, hi)
    requires Block(points, w, w.radius + 1).Success?
    requires Block(points, w, w.radius + 1).value.count > 0
    ensures var t := Block(points, w, w.radius + 1).value;
      lo <= t.total / t.count as real <= hi
  {
    BlockBetween(points, w, lo, hi, w.radius + 1);
    var t := Block(points, w, w.radius + 1).value;
    DivideBetween(t.total, t.count as real, lo, hi);
  }

  /** A perfectly level neighbourhood is lake whatever its elevation, for any
      threshold >= 0, whenever is_lake does not raise. */
  lemma FlatNeighbourhoodIsLake(points: Points, w: Window, threshold: real)
    requires Present(points, w.x, w.y)
    requires NeighboursBetween(points, w, points[w.y][w.x].z, points[w.y][w.x].z)
    requires 0.0 <= threshold
    requires IsLake(points, w, threshold).Success?
    ensures IsLake(points, w, threshold) == Success(true)
  {
    var z := points[w.y][w.x].z;
    MeanBetween(points, w, z, z);
  }

  /** A cell more than `threshold` above every neighbour, or below every
      neighbour, is terrain. */
  lemma OutlierIsTerrain(points: Points, w: Window, threshold: real, lo: real, hi: real)
    requires Present(points, w.x, w.y)
    requires NeighboursBetween(points, w, lo, hi)
    requires hi < points[w.y][w.x].z - threshold || points[w.y][w.x].z + threshold < lo
    requires IsLake(points, w, threshold).Success?
    ensures IsLake(points, w, threshold) == Success(false)
  {
    MeanBetween(points, w, lo, hi);
  }

  // ---------------------------------------------------------------------------
  // The nested loops as written

  /** is_lake as the two nested `for` loops, shown to compute IsLake. */
  method LakeLoop(points: Points, w: Window, threshold: real) returns (r: Result<bool>)
    requires Present(points, w.x, w.y)
    ensures r == IsLake(points, w, threshold)
  {
    var z := points[w.y][w.x].z;
    var count: nat := 0;
    var total := 0.0;
    var i := -(w.radius as int);
    while i <= w.radius
      invariant -(w.radius as int) <= i <= w.radius + 1
      invariant Block(points, w, i) == Success(Tally(count, total))
    {
      ghost var start := Tally(count, total);
      var j := -(w.radius as int);
      while j <= w.radius
        invariant -(w.radius as int) <= j <= w.radius + 1
        invariant Column(points, w, start, i, j) == Success(Tally(count, total))
      {
        if !(i == 0 && j == 0) {
          var nx, ny := w.x + i, w.y + j;
          if 0 <= nx < w.width && 0 <= ny < w.height {
            if !(0 <= ny < |points| && 0 <= nx < |points[ny]|) {
              assert Missing(points, w, i, j);
              return Failure(IndexOutOfRange);
            }
            count := count + 1;
            total := total + points[ny][nx].z;
          }
        }
        j := j + 1;
      }
      i := i + 1;
    }
    if count == 0 {
      return Failure(ZeroDivision);
    }
    var average := total / count as real;
    r := Success(Abs(z - average) <= threshold);
  }
}
