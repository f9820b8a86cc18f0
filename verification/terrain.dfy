/** The in-memory grid: the data lines turned into rows of (x, y, z) cells,
    and the row-major order in which the cells are later visited. */
module Terrain {

  /** The tuple `(x, y, z)` stored for one elevation token: its column, its
      row and the elevation it denotes. */
  datatype Cell = Cell(x: int, y: int, z: real)

  type Points = seq<seq<Cell>>

  /** Data line y, already split and converted; past the end of the file
      readline() yields an empty line, hence no values. */
  function LineAt(lines: seq<seq<real>>, y: int): seq<real>
  {
    if 0 <= y < |lines| then lines[y] else []
  }

  /** The cell at column nx of row ny exists (Python would not raise IndexError). */
  predicate Present(points: Points, nx: int, ny: int) {
    0 <= ny < |points| && 0 <= nx < |points[ny]|
  }

  /** Cell c is stored at its own coordinates. */
  predicate Member(points: Points, c: Cell) {
    Present(points, c.x, c.y) && points[c.y][c.x] == c
  }

  /** Every stored cell records its own column and row. */
  predicate Indexed(points: Points) {
    forall y, x :: 0 <= y < |points| && 0 <= x < |points[y]| ==>
      points[y][x].x == x && points[y][x].y == y
  }

  /** `height` rows of exactly `width` cells each. */
  predicate Rectangular(points: Points, height: int, width: int) {
    |points| == height && forall y :: 0 <= y < |points| ==> |points[y]| == width
  }

  /** The inner loop of the construction: `for x, z in enumerate(values)`
      appends (x, y, z). */
  function LoadRow(values: seq<real>, y: int): (row: seq<Cell>)
    ensures |row| == |values|
    ensures forall x :: 0 <= x < |row| ==> row[x] == Cell(x, y, values[x])
  {
    if |values| == 0 then []
    else LoadRow(values[..|values| - 1], y) + [Cell(|values| - 1, y, values[|values| - 1])]
  }

  /** The outer loop: one row per declared line, `for y in range(height)`. */
  function Load(lines: seq<seq<real>>, height: int): (points: Points)
    ensures |points| == if height > 0 then height else 0
    ensures forall y :: 0 <= y < |points| ==> |points[y]| == |LineAt(lines, y)|
    ensures forall y, x :: 0 <= y < |points| && 0 <= x < |points[y]| ==>
              points[y][x] == Cell(x, y, LineAt(lines, y)[x])
  {
    if height <= 0 then []
    else Load(lines, height - 1) + [LoadRow(LineAt(lines, height - 1), height - 1)]
  }

  /** The cells in the order `for line in points: for cell in line` visits them. */
  function Flatten(points: Points): seq<Cell>
  {
    if |points| == 0 then [] else Flatten(points[..|points| - 1]) + points[|points| - 1]
  }

  /** Every stored cell is visited. */
  lemma {:induction false} FlattenVisitsAll(points: Points)
    ensures forall y, x :: 0 <= y < |points| && 0 <= x < |points[y]| ==> points[y][x] in Flatten(points)
  {
    if |points| > 0 {
      var init := points[..|points| - 1];
      FlattenVisitsAll(init);
      assert forall y :: 0 <= y < |init| ==> init[y] == points[y];
    }
  }

  /** Only stored cells are visited, and on an indexed grid each sits at its
      own coordinates. */
  lemma {:induction false} FlattenMembers(points: Points)
    requires Indexed(points)
    ensures forall c :: c in Flatten(points) ==> Member(points, c)
  {
    if |points| > 0 {
      var init := points[..|points| - 1];
      FlattenMembers(init);
      assert forall c :: Member(init, c) ==> Member(points, c);
    }
  }

  /** Nothing is visited exactly when every row is empty. */
  lemma {:induction false} FlattenEmpty(points: Points)
    ensures |Flatten(points)| == 0 <==> forall y :: 0 <= y < |points| ==> |points[y]| == 0
  {
    if |points| > 0 {
      FlattenEmpty(points[..|points| - 1]);
    }
  }

  lemma DivModUnique(k: int, w: int, q: int, m: int)
    requires 0 < w && 0 <= m < w && k == q * w + m
    ensures k / w == q && k % w == m
  {
    var q', m' := k / w, k % w;
    assert k == q' * w + m';
    var d := q - q';
    assert d * w == m' - m by {
      assert q * w - q' * w == (q - q') * w;
    }
    if d > 0 {
      assert d * w >= w by { MulAtLeast(d, w); }
    } else if d < 0 {
      assert (-d) * w >= w by { MulAtLeast(-d, w); }
    }
  }

  lemma MulAtLeast(a: int, w: int)
    requires a >= 1 && w > 0
    ensures a * w >= w
  {
    assert a * w == (a - 1) * w + w;
  }

  lemma MulMonotone(a: int, b: int, w: int)
    requires a <= b && 0 < w
    ensures a * w <= b * w
  {
    assert b * w - a * w == (b - a) * w;
  }

  /** An index below n * w falls in one of the first n rows of width w. */
  lemma RowOfIndex(k: int, w: int, n: int)
    requires 0 <= k < n * w && 0 < w
    ensures 0 <= k / w < n && 0 <= k % w < w
  {
    if k / w >= n {
      MulMonotone(n, k / w, w);
    }
  }

  /** On a rectangular grid the k-th visited cell is the one in row k / width
      and column k % width, and there are height * width of them. */
  lemma {:induction false} RowMajor(points: Points, height: nat, width: nat)
    requires Rectangular(points, height, width)
    ensures |Flatten(points)| == height * width
    ensures width > 0 ==>
              forall k :: 0 <= k < height * width ==>
                && 0 <= k / width < height
                && Flatten(points)[k] == points[k / width][k % width]
  {
    if height > 0 {
      var init := points[..height - 1];
      RowMajor(init, height - 1, width);
      var cells := Flatten(points);
      var base := (height - 1) * width;
      assert base + width == height * width;
      assert cells == Flatten(init) + points[height - 1];
      if width > 0 {
        forall k | 0 <= k < height * width
          ensures 0 <= k / width < height && cells[k] == points[k / width][k % width]
        {
          if k < base {
            RowOfIndex(k, width, height - 1);
            assert cells[k] == Flatten(init)[k];
          } else {
            DivModUnique(k, width, height - 1, k - base);
          }
        }
      }
    }
  }

  /** RowMajor at one index. */
  lemma RowMajorAt(points: Points, height: nat, width: nat, k: int)
    requires Rectangular(points, height, width) && 0 < width
    requires 0 <= k < height * width
    ensures 0 <= k / width < height && 0 <= k % width < width && k < |Flatten(points)|
    ensures Flatten(points)[k] == points[k / width][k % width]
  {
    RowMajor(points, height, width);
  }
}
