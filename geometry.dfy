/**
 * Core Graphics value types, with `CGFloat` as `real` (no rounding).
 */
module Geometry {

  datatype CGPoint = CGPoint(x: real, y: real)

  datatype CGSize = CGSize(width: real, height: real)

  datatype CGRect = CGRect(origin: CGPoint, size: CGSize)

  /** `UIEdgeInsets(top:left:bottom:right:)`. */
  datatype UIEdgeInsets = UIEdgeInsets(top: real, left: real, bottom: real, right: real)

  const Zero: UIEdgeInsets := UIEdgeInsets(0.0, 0.0, 0.0, 0.0)

  function Rect(x: real, y: real, w: real, h: real): CGRect
  {
    CGRect(CGPoint(x, y), CGSize(w, h))
  }

  function Min(a: real, b: real): real { if a <= b then a else b }

  function Max(a: real, b: real): real { if a <= b then b else a }

  /** `CGRect.contains(_:)`: the half-open box between the rect's edges, whatever
    * the sign of its size (Core Graphics standardizes the rect first). */
  predicate Contains(r: CGRect, p: CGPoint)
  {
    var x0 := r.origin.x;
    var x1 := r.origin.x + r.size.width;
    var y0 := r.origin.y;
    var y1 := r.origin.y + r.size.height;
    Min(x0, x1) <= p.x < Max(x0, x1) && Min(y0, y1) <= p.y < Max(y0, y1)
  }
}
