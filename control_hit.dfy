/**
 * UIControl+Ex.swift: the enlarged hit area of `point(inside:with:)` and the
 * tap throttle of `clickAction`.
 */
module ControlHit {
  import opened Geometry
  import Throttle

  /** `bounds.inset(by:)`: each edge moves inwards by its inset, outwards for a
    * negative one. */
  function Inset(r: CGRect, e: UIEdgeInsets): (s: CGRect)
    ensures s.origin.x == r.origin.x + e.left && s.origin.x + s.size.width == r.origin.x + r.size.width - e.right
    ensures s.origin.y == r.origin.y + e.top && s.origin.y + s.size.height == r.origin.y + r.size.height - e.bottom
  {
    Rect(r.origin.x + e.left, r.origin.y + e.top,
      r.size.width - e.left - e.right, r.size.height - e.top - e.bottom)
  }

  /** Insets none of which is positive only make a standardized rect larger. */
  lemma NonPositiveInsetsEnlarge(r: CGRect, e: UIEdgeInsets, p: CGPoint)
    requires r.size.width >= 0.0 && r.size.height >= 0.0
    requires e.top <= 0.0 && e.left <= 0.0 && e.bottom <= 0.0 && e.right <= 0.0
    requires Contains(r, p)
    ensures Contains(Inset(r, e), p)
  {
  }

  /** The part of a `UIControl` the extension reads and writes. */
  class Control {
    var bounds: CGRect
    var hitEdgeInsets: UIEdgeInsets
    var isEnabled: bool
    var isUserInteractionEnabled: bool
    var alpha: real
    var isHidden: bool
    var clickLastTime: real
    var clickInterval: real

    /** A control with no stored state reads the defaults: no extra hit area, no
      * tap yet, a one-second interval. */
    constructor (bounds: CGRect)
      ensures this.bounds == bounds && hitEdgeInsets == Zero
      ensures isEnabled && isUserInteractionEnabled && alpha == 1.0 && !isHidden
      ensures clickLastTime == Throttle.DefaultLastTime && clickInterval == Throttle.DefaultInterval
    {
      this.bounds := bounds;
      hitEdgeInsets := Zero;
      isEnabled := true;
      isUserInteractionEnabled := true;
      alpha := 1.0;
      isHidden := false;
      clickLastTime := Throttle.DefaultLastTime;
      clickInterval := Throttle.DefaultInterval;
    }

    /** The guard of `point(inside:with:)`: an extra hit area that is set, on a
      * control that can be touched. */
    predicate UsesHitArea()
      reads this
    {
      hitEdgeInsets != Zero && isEnabled && isUserInteractionEnabled && alpha > 0.01 && !isHidden
    }

    /** `point(inside:with:)`; `superResult` is what `super.point(inside:with:)`
      * answers. */
    function PointInside(point: CGPoint, superResult: bool): (hit: bool)
      reads this
      ensures !UsesHitArea() ==> hit == superResult
      ensures UsesHitArea() ==> (hit <==> Contains(Inset(bounds, hitEdgeInsets), point))
    {
      if !UsesHitArea() then superResult
      else Contains(Inset(bounds, hitEdgeInsets), point)
    }

    /** `clickAction(_:)`: a tap inside the interval is ignored; any other one
      * becomes the last tap and runs the stored action, if there is one. */
    method ClickAction(now: real, hasAction: bool) returns (fired: bool)
      modifies this`clickLastTime
      ensures !Throttle.Accepts(old(clickLastTime), clickInterval, now) ==>
        !fired && clickLastTime == old(clickLastTime)
      ensures Throttle.Accepts(old(clickLastTime), clickInterval, now) ==>
        fired == hasAction && clickLastTime == now
    {
      if now - clickLastTime < clickInterval {
        return false;
      }
      clickLastTime := now;
      fired := hasAction;
    }
  }
}
