/** Values shared by the river-track model: optional values standing for NaN,
    error results standing for the exceptions the scripts raise, raster cells,
    coordinate-space points and raster matrices. */
module Common {

  /** `None` plays the part of a floating-point NaN (or of an absent value). */
  datatype Option<+T> = None | Some(value: T)

  /** The exceptions the modelled code can raise. */
  datatype Error =
    | UnknownDirection(token: string)   // ValueError raised by get_start_end
    | EndpointsUnbound                  // intersection of a type no branch handles: start/end never bound
    | TooFewIntersections               // a MultiPoint with fewer than two members: it[-2] fails
    | ClosedRiver                       // a closed river line has an empty boundary: `s, e = l2.boundary` fails
    | FloatRange                        // range() called with a float bound
    | RhowUnbound                       // no scene: the table is built from a name never bound (NameError)

  datatype Result<+T> = Ok(value: T) | Err(error: Error)

  /** A raster cell `(row, col)`; rows grow southward, columns eastward. */
  datatype Cell = Cell(row: nat, col: nat)

  /** A point in coordinate space: `x` is the longitude, `y` the latitude. */
  datatype Point = Point(x: real, y: real)

  /** A raster of a geophysical variable, row by row; `None` is a NaN pixel. */
  type Matrix = seq<seq<Option<real>>>

  predicate InBounds(m: Matrix, c: Cell)
  {
    c.row < |m| && c.col < |m[c.row]|
  }
}
