/** Small shared vocabulary: optional values, results with an error value,
    integer points and rectangles in screen or view coordinates. */
module Common {

  /** A value that may be absent (JavaScript `undefined` / `null`). */
  datatype Option<+T> = None | Some(value: T)

  /** The outcome of an operation that can throw. */
  datatype Result<+R, +E> = Success(value: R) | Failure(error: E)

  /** A pointer position. */
  datatype Point = Point(x: int, y: int)

  /** An axis-aligned rectangle: left/top corner and extent. */
  datatype Rect = Rect(x: int, y: int, width: int, height: int)
  {
    function Right(): int { x + width }
    function Bottom(): int { y + height }
  }

  /** Screen bounds of a window. The horizontal origin is kept doubled
      (`twiceX`) because centring over a dock item halves an odd width and
      the JavaScript passes the fractional value on unrounded. */
  datatype Bounds = Bounds(twiceX: int, y: int, width: int, height: int)

  /** `inner` lies within `outer` (edges may touch). */
  predicate Within(inner: Rect, outer: Rect)
  {
    && outer.x <= inner.x && inner.Right() <= outer.Right()
    && outer.y <= inner.y && inner.Bottom() <= outer.Bottom()
  }

  /** The half-open rectangles `a` and `b` share no point. */
  predicate Disjoint(a: Rect, b: Rect)
  {
    a.Right() <= b.x || b.Right() <= a.x || a.Bottom() <= b.y || b.Bottom() <= a.y
  }

  /** The point (px, py) lies in the half-open rectangle `r`. */
  predicate Holds(r: Rect, px: int, py: int)
  {
    r.x <= px < r.Right() && r.y <= py < r.Bottom()
  }
}
