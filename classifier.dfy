/** Water and river classification (`classify_water`, `get_start_end` and
    `classify_river` in scripts/functions.py).  The geometry library's work is
    an input here: the type of the intersection between the river line and the
    raster's boundary rectangle, and containment in the buffered river polygon
    as a predicate on points. */
module Classifier {
  import opened Common
  import opened Grid

  /** A pixel is water when it is a number that is not below the threshold;
      the threshold is applied only when it is a non-negative integer (the
      case in which its text is numeric), otherwise it is ignored. */
  predicate IsWater(x: Option<real>, threshold: Option<nat>)
  {
    x.Some? && (threshold.None? || x.value >= threshold.value as real)
  }

  /** `classify_water(matrix, threshold)`: a fresh boolean mask of the
      matrix's shape. */
  method ClassifyWater(m: Matrix, threshold: Option<nat>) returns (mask: array2<bool>)
    requires forall i :: 0 <= i < |m| ==> |m[i]| == |m[0]|
    ensures fresh(mask)
    ensures mask.Length0 == |m| && mask.Length1 == (if |m| == 0 then 0 else |m[0]|)
    ensures forall i, j :: 0 <= i < mask.Length0 && 0 <= j < mask.Length1 ==>
              mask[i, j] == IsWater(m[i][j], threshold)
  {
    var cols := if |m| == 0 then 0 else |m[0]|;
    mask := new bool[|m|, cols];
    var i := 0;
    while i < |m|
      invariant 0 <= i <= |m|
      invariant forall i', j :: 0 <= i' < i && 0 <= j < cols ==> mask[i', j] == IsWater(m[i'][j], threshold)
    {
      var j := 0;
      while j < cols
        invariant 0 <= j <= cols
        invariant forall i', j' :: 0 <= i' < i && 0 <= j' < cols ==> mask[i', j'] == IsWater(m[i'][j'], threshold)
        invariant forall j' :: 0 <= j' < j ==> mask[i, j'] == IsWater(m[i][j'], threshold)
      {
        var x := m[i][j];
        if threshold.Some? && x.Some? && x.value < threshold.value as real {
          x := None;
        }
        mask[i, j] := x.Some?;
        j := j + 1;
      }
      i := i + 1;
    }
  }

  /** Walking from `a` to `b` heads in compass direction `d` (rows grow
      southward, columns eastward); standing still qualifies. */
  predicate Heads(a: Cell, b: Cell, d: string)
  {
    (d == "N" ==> a.row >= b.row) && (d == "S" ==> a.row <= b.row) &&
    (d == "E" ==> a.col <= b.col) && (d == "W" ==> a.col >= b.col)
  }

  predicate IsDirection(d: string)
  {
    d == "N" || d == "S" || d == "E" || d == "W"
  }

  /** `get_start_end(y1, x1, y2, x2, direction)`: the two cells ordered so
      that the path runs in the requested direction; an unknown direction is
      refused. */
  function StartEnd(a: Cell, b: Cell, d: string): (r: Result<(Cell, Cell)>)
    ensures r.Err? <==> !IsDirection(d)
    ensures r.Err? ==> r.error == UnknownDirection(d)
    ensures r.Ok? ==> r.value == (a, b) || r.value == (b, a)
    ensures r.Ok? ==> Heads(r.value.0, r.value.1, d)
    ensures r.Ok? && Heads(a, b, d) ==> r.value == (a, b)
  {
    if !IsDirection(d) then Err(UnknownDirection(d))
    else if d == "N" && b.row > a.row then Ok((b, a))
    else if d == "S" && b.row < a.row then Ok((b, a))
    else if d == "E" && b.col < a.col then Ok((b, a))
    else if d == "W" && b.col > a.col then Ok((b, a))
    else Ok((a, b))
  }

  /** The type of `river.intersection(boundary)` as the code tells them apart. */
  datatype Intersection =
    | PointHit(p: Point)             // "Point"
    | MultiPointHit(ps: seq<Point>)  // "MultiPoint"
    | Collection                     // "GeometryCollection" (the empty intersection among them)
    | OtherShape                     // "LineString" and every other type

  /** The reference river centre line; a line string has two vertices or more. */
  datatype RiverLine = RiverLine(vertices: seq<Point>)
  {
    predicate Valid()
    {
      |vertices| >= 2
    }

    /** `l2.boundary` unpacked as `s, e`: the two end vertices; a closed line
        has an empty boundary and the unpacking fails. */
    function Ends(): (r: Result<(Point, Point)>)
      requires Valid()
      ensures r.Ok? <==> vertices[0] != vertices[|vertices| - 1]
      ensures r.Ok? ==> r.value == (vertices[0], vertices[|vertices| - 1])
      ensures r.Err? ==> r.error == ClosedRiver
    {
      var s, e := vertices[0], vertices[|vertices| - 1];
      if s == e then Err(ClosedRiver) else Ok((s, e))
    }
  }

  function Nearest(g: Coords, p: Point): (c: Cell)
    requires g.Valid()
    ensures c.row < g.Rows() && c.col < g.Cols()
  {
    ClosestCell(g, p.y, p.x)
  }

  /** The two boundary cells `classify_river` picks, before ordering. */
  function BoundaryCells(g: Coords, river: RiverLine, it: Intersection): (r: Result<(Cell, Cell)>)
    requires g.Valid() && river.Valid()
    ensures r.Ok? ==> r.value.0.row < g.Rows() && r.value.0.col < g.Cols()
    ensures r.Ok? ==> r.value.1.row < g.Rows() && r.value.1.col < g.Cols()
    ensures r.Err? <==> (it.OtherShape? || (it.MultiPointHit? && |it.ps| < 2) ||
                         ((it.Collection? || it.PointHit?) && river.Ends().Err?))
    ensures it.PointHit? && r.Ok? ==>
              var (s, e) := river.Ends().value;
              r.value.0 == Nearest(g, it.p) &&
              r.value.1 == (if InsideMatrix(s, g) then Nearest(g, s) else Nearest(g, e))
    ensures it.MultiPointHit? && r.Ok? ==>
              r.value == (Nearest(g, it.ps[|it.ps| - 2]), Nearest(g, it.ps[|it.ps| - 1]))
    ensures it.Collection? && r.Ok? ==>
              r.value == (Nearest(g, river.vertices[0]), Nearest(g, river.vertices[|river.vertices| - 1]))
  {
    match it
    case Collection =>
      (match river.Ends()
       case Err(e) => Err(e)
       case Ok((s, e)) => Ok((Nearest(g, s), Nearest(g, e))))
    case PointHit(p) =>
      (match river.Ends()
       case Err(e) => Err(e)
       case Ok((s, e)) =>
         var second := if InsideMatrix(s, g) then Nearest(g, s) else Nearest(g, e);
         Ok((Nearest(g, p), second)))
    case MultiPointHit(ps) =>
      if |ps| < 2 then Err(TooFewIntersections)
      else Ok((Nearest(g, ps[|ps| - 2]), Nearest(g, ps[|ps| - 1])))
    case OtherShape => Err(EndpointsUnbound)
  }

  /** The start and end cells `classify_river` returns. */
  function Endpoints(g: Coords, river: RiverLine, it: Intersection, d: string): (r: Result<(Cell, Cell)>)
    requires g.Valid() && river.Valid()
    ensures r.Ok? ==> Heads(r.value.0, r.value.1, d) && IsDirection(d)
    ensures r.Ok? ==> r.value.0.row < g.Rows() && r.value.0.col < g.Cols()
    ensures r.Ok? ==> r.value.1.row < g.Rows() && r.value.1.col < g.Cols()
    ensures r.Err? <==> BoundaryCells(g, river, it).Err? || !IsDirection(d)
    ensures r.Ok? ==> BoundaryCells(g, river, it).Ok?
    ensures r.Ok? ==>
      var b := BoundaryCells(g, river, it).value;
      (r.value == b || r.value == (b.1, b.0)) && (Heads(b.0, b.1, d) ==> r.value == b)
  {
    match BoundaryCells(g, river, it)
    case Err(e) => Err(e)
    case Ok((a, b)) => StartEnd(a, b, d)
  }

  /** `matrix[matrix] = grid`: every water pixel outside the buffered river
      polygon becomes false; the other pixels keep their value. */
  method NarrowMask(mask: array2<bool>, g: Coords, inBuffer: Point -> bool)
    requires g.Valid()
    requires mask.Length0 == g.Rows() && mask.Length1 == g.Cols()
    modifies mask
    ensures forall i, j :: 0 <= i < mask.Length0 && 0 <= j < mask.Length1 ==>
              mask[i, j] == (old(mask[i, j]) && inBuffer(PixelPoint(g, i, j)))
  {
    var i := 0;
    while i < mask.Length0
      invariant 0 <= i <= mask.Length0
      invariant forall i', j :: 0 <= i' < i && 0 <= j < mask.Length1 ==>
                  mask[i', j] == (old(mask[i', j]) && inBuffer(PixelPoint(g, i', j)))
      invariant forall i', j :: i <= i' < mask.Length0 && 0 <= j < mask.Length1 ==>
                  mask[i', j] == old(mask[i', j])
    {
      NarrowRow(mask, g, inBuffer, i);
      i := i + 1;
    }
  }

  /** `NarrowMask` on row `i` alone. */
  method NarrowRow(mask: array2<bool>, g: Coords, inBuffer: Point -> bool, i: nat)
    requires g.Valid()
    requires mask.Length0 == g.Rows() && mask.Length1 == g.Cols() && i < mask.Length0
    modifies mask
    ensures forall j :: 0 <= j < mask.Length1 ==>
              mask[i, j] == (old(mask[i, j]) && inBuffer(PixelPoint(g, i, j)))
    ensures forall i', j :: 0 <= i' < mask.Length0 && i' != i && 0 <= j < mask.Length1 ==>
              mask[i', j] == old(mask[i', j])
  {
    var j := 0;
    while j < mask.Length1
      invariant 0 <= j <= mask.Length1
      invariant forall j' :: 0 <= j' < j ==> mask[i, j'] == (old(mask[i, j']) && inBuffer(PixelPoint(g, i, j')))
      invariant forall j' :: j <= j' < mask.Length1 ==> mask[i, j'] == old(mask[i, j'])
      invariant forall i', j' :: 0 <= i' < mask.Length0 && i' != i && 0 <= j' < mask.Length1 ==>
                  mask[i', j'] == old(mask[i', j'])
    {
      if mask[i, j] {
        mask[i, j] := inBuffer(PixelPoint(g, i, j));
      }
      j := j + 1;
    }
  }

  /** `classify_river(matrix, lat, lon, river, buffer, direction)`: finds the
      start and end cells and, only when that succeeds, narrows the caller's
      mask in place to the water pixels inside the buffered river polygon. */
  method ClassifyRiver(mask: array2<bool>, g: Coords, river: RiverLine, it: Intersection,
                       inBuffer: Point -> bool, d: string)
    returns (r: Result<(Cell, Cell)>)
    requires g.Valid() && river.Valid()
    requires mask.Length0 == g.Rows() && mask.Length1 == g.Cols()
    modifies mask
    ensures r == Endpoints(g, river, it, d)
    ensures r.Err? ==> forall i, j :: 0 <= i < mask.Length0 && 0 <= j < mask.Length1 ==>
              mask[i, j] == old(mask[i, j])
    ensures r.Ok? ==> forall i, j :: 0 <= i < mask.Length0 && 0 <= j < mask.Length1 ==>
              mask[i, j] == (old(mask[i, j]) && inBuffer(PixelPoint(g, i, j)))
  {
    r := Endpoints(g, river, it, d);
    if r.Ok? {
      NarrowMask(mask, g, inBuffer);
    }
  }
}
