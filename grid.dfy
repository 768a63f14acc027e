/** Coordinate axes of a raster and nearest-cell lookup (`find_index_nearest`,
    `find_closest_cell` and `inside_matrix` in scripts/functions.py). */
module Grid {
  import opened Common

  /** A raster's coordinates: either one latitude per row and one longitude
      per column, or a latitude and a longitude for every pixel. */
  datatype Coords =
    | Axes(lat: seq<real>, lon: seq<real>)
    | Mesh(latGrid: seq<seq<real>>, lonGrid: seq<seq<real>>)
  {
    function Rows(): nat
    {
      if Axes? then |lat| else |latGrid|
    }

    function Cols(): nat
    {
      if Axes? then |lon| else if |latGrid| == 0 then 0 else |latGrid[0]|
    }

    /** Both arrays non-empty; per-pixel arrays rectangular and of one shape. */
    predicate Valid()
    {
      match this
      case Axes(la, lo) => |la| > 0 && |lo| > 0
      case Mesh(la, lo) =>
        |la| > 0 && |la[0]| > 0 && |lo| == |la| &&
        (forall i :: 0 <= i < |la| ==> |la[i]| == |la[0]| && |lo[i]| == |la[0]|)
    }
  }

  function Abs(x: real): real
  {
    if x < 0.0 then -x else x
  }

  function Sq(x: real): real
  {
    x * x
  }

  /** `d[k]` is the first least element of `d`: what numpy's `argmin` returns. */
  predicate FirstMin(d: seq<real>, k: nat)
  {
    k < |d| &&
    (forall i :: 0 <= i < |d| ==> d[k] <= d[i]) &&
    (forall i :: 0 <= i < k ==> d[i] > d[k])
  }

  /** The scan behind `argmin`: `best` is the first least element of `d[..i]`. */
  function ArgMinFrom(d: seq<real>, best: nat, i: nat): (k: nat)
    requires best < i <= |d|
    requires forall j :: 0 <= j < i ==> d[best] <= d[j]
    requires forall j :: 0 <= j < best ==> d[j] > d[best]
    ensures FirstMin(d, k)
    decreases |d| - i
  {
    if i == |d| then best
    else ArgMinFrom(d, if d[i] < d[best] then i else best, i + 1)
  }

  function ArgMin(d: seq<real>): (k: nat)
    requires |d| > 0
    ensures FirstMin(d, k)
  {
    ArgMinFrom(d, 0, 1)
  }

  /** `find_index_nearest(array, value)`: the first index of `array` closest to
      `value`; numpy refuses an empty array. */
  function IndexNearest(a: seq<real>, v: real): (r: Option<nat>)
    ensures r.None? <==> |a| == 0
    ensures r.Some? ==> r.value < |a|
    ensures r.Some? ==> forall i :: 0 <= i < |a| ==> Abs(a[r.value] - v) <= Abs(a[i] - v)
    ensures r.Some? ==> forall i :: 0 <= i < r.value ==> Abs(a[i] - v) > Abs(a[r.value] - v)
  {
    if |a| == 0 then None
    else
      var d := seq(|a|, i requires 0 <= i < |a| => Abs(a[i] - v));
      var k := ArgMin(d);
      assert forall i :: 0 <= i < |a| ==> d[i] == Abs(a[i] - v);
      Some(k)
  }

  /** A matrix row after row, as numpy's flat index sees it. */
  function Flatten(m: seq<seq<real>>): (f: seq<real>)
  {
    if m == [] then [] else m[0] + Flatten(m[1..])
  }

  predicate Rect(m: seq<seq<real>>, cols: nat)
  {
    forall i :: 0 <= i < |m| ==> |m[i]| == cols
  }

  lemma {:induction false} FlattenLength(m: seq<seq<real>>, cols: nat)
    requires Rect(m, cols)
    ensures |Flatten(m)| == |m| * cols
  {
    if m != [] {
      FlattenLength(m[1..], cols);
      assert |m| * cols == (|m| - 1) * cols + cols;
    }
  }

  /** Flat index `k` is row `k / cols`, column `k % cols` (Python's `divmod`). */
  lemma {:induction false} FlattenAt(m: seq<seq<real>>, cols: nat, k: nat)
    requires cols > 0 && Rect(m, cols)
    requires k < |m| * cols
    ensures |Flatten(m)| == |m| * cols
    ensures k / cols < |m| && Flatten(m)[k] == m[k / cols][k % cols]
  {
    FlattenLength(m, cols);
    if k < cols {
      DivModUnique(k, cols, 0, k);
    } else {
      FlattenLength(m[1..], cols);
      assert |m| * cols == (|m| - 1) * cols + cols;
      FlattenAt(m[1..], cols, k - cols);
      DivModStep(k, cols);
    }
  }

  lemma DivModStep(k: nat, cols: nat)
    requires 0 < cols <= k
    ensures (k - cols) / cols == k / cols - 1 && (k - cols) % cols == k % cols
  {
    var q, r := (k - cols) / cols, (k - cols) % cols;
    assert k == (q + 1) * cols + r;
    DivModUnique(k, cols, q + 1, r);
  }

  lemma DivModUnique(k: nat, cols: nat, q: int, r: int)
    requires cols > 0 && 0 <= r < cols && k == q * cols + r
    ensures k / cols == q && k % cols == r
  {
    var q', r' := k / cols, k % cols;
    assert k == q' * cols + r';
    assert (q - q') * cols == r' - r;
    if q > q' {
      MulAtLeast(q - q', cols);
    } else if q < q' {
      MulAtLeast(q' - q, cols);
    }
  }

  lemma MulAtLeast(a: int, b: nat)
    requires a >= 1
    ensures a * b >= b
  {
  }

  /** Row-major order of cells: `(i, j)` comes before `(row, col)`. */
  lemma RowMajorBefore(i: nat, j: nat, row: nat, col: nat, cols: nat)
    requires j < cols && col < cols
    requires i < row || (i == row && j < col)
    ensures i * cols + j < row * cols + col
  {
    if i < row {
      MulAtLeast(row - i, cols);
      assert (row - i) * cols == row * cols - i * cols;
    }
  }

  /** The distance `find_closest_cell` minimises over per-pixel arrays: the
      squared Euclidean distance, squared once more. */
  function MeshDist(lat: seq<seq<real>>, lon: seq<seq<real>>, y: real, x: real, i: nat, j: nat): real
    requires i < |lat| && i < |lon| && j < |lat[i]| && j < |lon[i]|
  {
    var s := Sq(lat[i][j] - y) + Sq(lon[i][j] - x);
    s * s
  }

  /** `divmod(argmin(d), cols)`: the cell of the first least element of a
      rectangular array, flattened row by row. */
  function FlatArgMin(d: seq<seq<real>>, cols: nat): (c: Cell)
    requires cols > 0 && |d| > 0 && Rect(d, cols)
    ensures c.row < |d| && c.col < cols
  {
    FlattenLength(d, cols);
    MulAtLeast(|d|, cols);
    var k := ArgMin(Flatten(d));
    FlattenAt(d, cols, k);
    DivMod(k, cols);
    Cell(k / cols, k % cols)
  }

  /** The array of `MeshDist` values `find_closest_cell` takes the argmin of. */
  function MeshDists(la: seq<seq<real>>, lo: seq<seq<real>>, y: real, x: real): (d: seq<seq<real>>)
    requires Mesh(la, lo).Valid()
    ensures |d| == |la| && Rect(d, |la[0]|)
  {
    var cols := |la[0]|;
    seq(|la|, i requires 0 <= i < |la| =>
      seq(cols, j requires 0 <= j < cols => MeshDist(la, lo, y, x, i, j)))
  }

  /** `find_closest_cell(y_arr, x_arr, y, x)`: on separate axes the nearest
      row and the nearest column independently; on per-pixel arrays `divmod`
      of the first flat argmin of `MeshDist`. */
  function ClosestCell(g: Coords, y: real, x: real): (c: Cell)
    requires g.Valid()
    ensures c.row < g.Rows() && c.col < g.Cols()
  {
    match g
    case Axes(la, lo) => Cell(IndexNearest(la, y).value, IndexNearest(lo, x).value)
    case Mesh(la, lo) => FlatArgMin(MeshDists(la, lo, y, x), |la[0]|)
  }

  /** On separate axes the row is the first latitude nearest `y` and the
      column the first longitude nearest `x`. */
  lemma ClosestCellAxes(g: Coords, y: real, x: real)
    requires g.Valid() && g.Axes?
    ensures var c := ClosestCell(g, y, x);
      FirstMin(seq(|g.lat|, i requires 0 <= i < |g.lat| => Abs(g.lat[i] - y)), c.row) &&
      FirstMin(seq(|g.lon|, j requires 0 <= j < |g.lon| => Abs(g.lon[j] - x)), c.col)
  {
  }

  /** The cell at `divmod` of a first flat argmin is a first least cell in
      row-major order. */
  lemma FlatArgMinCell(d: seq<seq<real>>, cols: nat, i: nat, j: nat)
    requires cols > 0 && |d| > 0 && Rect(d, cols)
    requires i < |d| && j < cols
    ensures var c := FlatArgMin(d, cols);
      d[c.row][c.col] <= d[i][j] &&
      (i < c.row || (i == c.row && j < c.col) ==> d[c.row][c.col] < d[i][j])
  {
    var f := Flatten(d);
    FlattenLength(d, cols);
    MulAtLeast(|d|, cols);
    var k := ArgMin(f);
    assert FirstMin(f, k);
    DivMod(k, cols);
    var r: nat, c: nat := k / cols, k % cols;
    assert FlatArgMin(d, cols) == Cell(r, c);
    FlattenAt(d, cols, k);
    assert f[k] == d[r][c];
    MulNat(i, cols);
    var k': nat := i * cols + j;
    RowMajorBefore(i, j, |d|, 0, cols);
    DivModUnique(k', cols, i, j);
    FlattenAt(d, cols, k');
    assert f[k'] == d[i][j];
    if i < r || (i == r && j < c) {
      RowMajorBefore(i, j, r, c, cols);
      assert k' < k;
    }
  }

  lemma MulNat(a: nat, b: nat)
    ensures a * b >= 0
  {
  }

  lemma DivMod(k: nat, cols: nat)
    requires cols > 0
    ensures k == (k / cols) * cols + k % cols && 0 <= k % cols < cols
    ensures 0 <= k / cols
  {
  }

  /** On per-pixel arrays no cell is strictly closer than the chosen one, and
      every cell before it in row-major order is strictly farther. */
  lemma ClosestCellMesh(g: Coords, y: real, x: real, i: nat, j: nat)
    requires g.Valid() && g.Mesh?
    requires i < g.Rows() && j < g.Cols()
    ensures var c := ClosestCell(g, y, x);
      MeshDist(g.latGrid, g.lonGrid, y, x, c.row, c.col) <= MeshDist(g.latGrid, g.lonGrid, y, x, i, j) &&
      (i < c.row || (i == c.row && j < c.col) ==>
         MeshDist(g.latGrid, g.lonGrid, y, x, c.row, c.col) < MeshDist(g.latGrid, g.lonGrid, y, x, i, j))
  {
    var la, lo := g.latGrid, g.lonGrid;
    var d := MeshDists(la, lo, y, x);
    FlatArgMinCell(d, |la[0]|, i, j);
    var c := ClosestCell(g, y, x);
    assert d[c.row][c.col] == MeshDist(la, lo, y, x, c.row, c.col);
    assert d[i][j] == MeshDist(la, lo, y, x, i, j);
  }

  /** Ordering by `MeshDist` is ordering by squared Euclidean distance, so the
      chosen cell is also a nearest cell in the plane. */
  lemma MeshDistOrder(lat: seq<seq<real>>, lon: seq<seq<real>>, y: real, x: real, i1: nat, j1: nat, i2: nat, j2: nat)
    requires i1 < |lat| && i1 < |lon| && j1 < |lat[i1]| && j1 < |lon[i1]|
    requires i2 < |lat| && i2 < |lon| && j2 < |lat[i2]| && j2 < |lon[i2]|
    ensures MeshDist(lat, lon, y, x, i1, j1) <= MeshDist(lat, lon, y, x, i2, j2) <==>
            Sq(lat[i1][j1] - y) + Sq(lon[i1][j1] - x) <= Sq(lat[i2][j2] - y) + Sq(lon[i2][j2] - x)
  {
    var a := Sq(lat[i1][j1] - y) + Sq(lon[i1][j1] - x);
    var b := Sq(lat[i2][j2] - y) + Sq(lon[i2][j2] - x);
    SquareOrder(a, b);
  }

  lemma SquareOrder(a: real, b: real)
    requires a >= 0.0 && b >= 0.0
    ensures a * a <= b * b <==> a <= b
  {
    assert b * b - a * a == (b - a) * (b + a);
    if a <= b {
      assert (b - a) * (b + a) >= 0.0;
    } else {
      MulPos(a - b, b + a);
    }
  }

  lemma MulPos(p: real, q: real)
    requires p > 0.0 && q > 0.0
    ensures p * q > 0.0
  {
  }

  function SeqMin(s: seq<real>): (m: real)
    requires |s| > 0
    ensures m in s && forall i :: 0 <= i < |s| ==> m <= s[i]
  {
    if |s| == 1 then s[0]
    else
      var rest := SeqMin(s[1..]);
      if s[0] <= rest then s[0] else rest
  }

  function SeqMax(s: seq<real>): (m: real)
    requires |s| > 0
    ensures m in s && forall i :: 0 <= i < |s| ==> s[i] <= m
  {
    if |s| == 1 then s[0]
    else
      var rest := SeqMax(s[1..]);
      if s[0] >= rest then s[0] else rest
  }

  /** Every latitude of the raster, as `np.min` / `np.max` see them. */
  function AllLat(g: Coords): (s: seq<real>)
    requires g.Valid()
    ensures |s| > 0
  {
    match g
    case Axes(la, _) => la
    case Mesh(la, _) =>
      FlattenLength(la, |la[0]|);
      MulAtLeast(|la|, |la[0]|);
      Flatten(la)
  }

  /** Every longitude of the raster. */
  function AllLon(g: Coords): (s: seq<real>)
    requires g.Valid()
    ensures |s| > 0
  {
    match g
    case Axes(_, lo) => lo
    case Mesh(la, lo) =>
      FlattenLength(lo, |la[0]|);
      MulAtLeast(|lo|, |la[0]|);
      Flatten(lo)
  }

  /** `np.min(s) < v < np.max(s)`. */
  predicate Between(s: seq<real>, v: real)
    requires |s| > 0
  {
    SeqMin(s) < v < SeqMax(s)
  }

  /** A value is strictly between the least and the greatest element iff
      some element is smaller and some element is larger. */
  lemma BetweenIff(s: seq<real>, v: real)
    requires |s| > 0
    ensures Between(s, v) <==>
      (exists i :: 0 <= i < |s| && s[i] < v) && (exists i :: 0 <= i < |s| && v < s[i])
  {
    var a :| 0 <= a < |s| && s[a] == SeqMin(s);
    var b :| 0 <= b < |s| && s[b] == SeqMax(s);
  }

  /** `inside_matrix(point, lat, lon)`: the point lies strictly inside the
      envelope of the raster's coordinates. */
  predicate InsideMatrix(p: Point, g: Coords)
    requires g.Valid()
  {
    Between(AllLon(g), p.x) && Between(AllLat(g), p.y)
  }

  /** The coordinates of pixel `(i, j)`: `np.meshgrid(lon, lat)` on separate
      axes, the per-pixel arrays otherwise. */
  function PixelPoint(g: Coords, i: nat, j: nat): Point
    requires g.Valid() && i < g.Rows() && j < g.Cols()
  {
    match g
    case Axes(la, lo) => Point(lo[j], la[i])
    case Mesh(la, lo) => Point(lo[i][j], la[i][j])
  }
}
