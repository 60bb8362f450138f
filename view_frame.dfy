/**
 * UIView+Ex.swift: the frame accessors of `view.kc` (`x` ... `right`,
 * `centerX`/`centerY`, `midX`/`midY`), the strips `viewBorder` lays along one
 * edge, the tap throttle of `addTapGesture`'s `clickMethod`, and
 * `seekSuperView(of:)`.
 *
 * `center` is taken to be the middle of `frame`, which is what UIKit keeps it at
 * for a view without a transform.
 */
module ViewFrame {
  import opened Wrappers
  import opened Geometry
  import opened ViewTree
  import Throttle

  /** The part of a `UIView` these extensions read and write: its frame, and the
    * associated `clickLastTime` and `clickInterval`. */
  class View {
    var frame: CGRect
    var clickLastTime: real
    var clickInterval: real

    /** A view with no stored throttle state reads the defaults. */
    constructor (frame: CGRect)
      ensures this.frame == frame
      ensures clickLastTime == Throttle.DefaultLastTime && clickInterval == Throttle.DefaultInterval
    {
      this.frame := frame;
      clickLastTime := Throttle.DefaultLastTime;
      clickInterval := Throttle.DefaultInterval;
    }

    function X(): real reads this { frame.origin.x }
    function Y(): real reads this { frame.origin.y }
    function Width(): real reads this { frame.size.width }
    function Height(): real reads this { frame.size.height }

    /** `top` and `left` are `y` and `x`. */
    function Top(): real reads this { Y() }
    function Left(): real reads this { X() }

    function Bottom(): real reads this { Y() + Height() }
    function Right(): real reads this { X() + Width() }

    /** `center`: the middle of the frame. */
    function CenterX(): real reads this { X() + Width() / 2.0 }
    function CenterY(): real reads this { Y() + Height() / 2.0 }

    /** `minX` ... `maxY` of the frame, Core Graphics standardizing it. */
    function MinX(): real reads this { Min(X(), X() + Width()) }
    function MaxX(): real reads this { Max(X(), X() + Width()) }
    function MinY(): real reads this { Min(Y(), Y() + Height()) }
    function MaxY(): real reads this { Max(Y(), Y() + Height()) }

    /** `midX(_:)`: the offset that centres something `width` wide across the
      * view. */
    function MidX(width: real): (m: real)
      reads this
      ensures m + width + m == Width()
    {
      (Width() - width) * 0.5
    }

    /** `midY(_:)`: the offset that centres something `height` tall. */
    function MidY(height: real): (m: real)
      reads this
      ensures m + height + m == Height()
    {
      (Height() - height) * 0.5
    }

    /** The standardized edges bound the frame in either direction. */
    lemma EdgesOrdered()
      ensures MinX() <= X() <= MaxX() && MinX() <= Right() <= MaxX()
      ensures Width() >= 0.0 ==> MinX() == X() && MaxX() == Right()
      ensures MinY() <= Y() <= MaxY() && MinY() <= Bottom() <= MaxY()
      ensures Height() >= 0.0 ==> MinY() == Y() && MaxY() == Bottom()
    {
    }

    method SetX(value: real)
      modifies this`frame
      ensures frame == Rect(value, old(Y()), old(Width()), old(Height()))
    {
      frame := Rect(value, Y(), Width(), Height());
    }

    method SetY(value: real)
      modifies this`frame
      ensures frame == Rect(old(X()), value, old(Width()), old(Height()))
    {
      frame := Rect(X(), value, Width(), Height());
    }

    method SetWidth(value: real)
      modifies this`frame
      ensures frame == Rect(old(X()), old(Y()), value, old(Height()))
    {
      frame := Rect(X(), Y(), value, Height());
    }

    method SetHeight(value: real)
      modifies this`frame
      ensures frame == Rect(old(X()), old(Y()), old(Width()), value)
    {
      frame := Rect(X(), Y(), Width(), value);
    }

    method SetOrigin(value: CGPoint)
      modifies this`frame
      ensures frame == CGRect(value, old(frame.size))
    {
      frame := CGRect(value, frame.size);
    }

    method SetSize(value: CGSize)
      modifies this`frame
      ensures frame == CGRect(old(frame.origin), value)
    {
      frame := CGRect(frame.origin, value);
    }

    /** Setting `top` sets `y`. */
    method SetTop(value: real)
      modifies this`frame
      ensures Top() == value && frame == Rect(old(X()), value, old(Width()), old(Height()))
    {
      SetY(value);
    }

    /** Setting `left` sets `x`. */
    method SetLeft(value: real)
      modifies this`frame
      ensures Left() == value && frame == Rect(value, old(Y()), old(Width()), old(Height()))
    {
      SetX(value);
    }

    /** Setting `bottom` moves the view up or down, keeping its height, until its
      * bottom edge is at `value`. */
    method SetBottom(value: real)
      modifies this`frame
      ensures Bottom() == value && Height() == old(Height())
      ensures X() == old(X()) && Width() == old(Width())
    {
      SetY(value - Height());
    }

    /** Setting `right` moves the view sideways, keeping its width. */
    method SetRight(value: real)
      modifies this`frame
      ensures Right() == value && Width() == old(Width())
      ensures Y() == old(Y()) && Height() == old(Height())
    {
      SetX(value - Width());
    }

    /** Setting `centerX` moves the centre sideways and leaves `centerY` and the
      * size as they were. */
    method SetCenterX(value: real)
      modifies this`frame
      ensures CenterX() == value && CenterY() == old(CenterY())
      ensures frame.size == old(frame.size)
    {
      var cy := CenterY();
      frame := CGRect(CGPoint(value - Width() / 2.0, cy - Height() / 2.0), frame.size);
    }

    /** Setting `centerY` leaves `centerX` and the size as they were. */
    method SetCenterY(value: real)
      modifies this`frame
      ensures CenterY() == value && CenterX() == old(CenterX())
      ensures frame.size == old(frame.size)
    {
      var cx := CenterX();
      frame := CGRect(CGPoint(cx - Width() / 2.0, value - Height() / 2.0), frame.size);
    }

    /** `clickMethod(_:)`: a tap inside the interval is ignored; any other tap
      * becomes the last one, and runs the action only if the gesture was
      * recognized. */
    method ClickMethod(now: real, recognized: bool) returns (fired: bool)
      modifies this`clickLastTime
      ensures !Throttle.Accepts(old(clickLastTime), clickInterval, now) ==>
        !fired && clickLastTime == old(clickLastTime)
      ensures Throttle.Accepts(old(clickLastTime), clickInterval, now) ==>
        fired == recognized && clickLastTime == now
    {
      if now - clickLastTime < clickInterval {
        return false;
      }
      clickLastTime := now;
      fired := recognized;
    }
  }

  /** `UIView.BorderPosition`. */
  datatype BorderPosition = All | Top | Left | Bottom | Right

  /** The frame of the border layer `viewBorder(width:color:position:)` adds to
    * a view of size `size`; `.all` sets the layer's own border instead. */
  function BorderStrip(size: CGSize, width: real, position: BorderPosition): (r: Option<CGRect>)
    ensures r == None <==> position == All
    ensures position in {Top, Bottom} ==> r.value.origin.x == 0.0 && r.value.size == CGSize(size.width, width)
    ensures position in {Left, Right} ==> r.value.origin.y == 0.0 && r.value.size == CGSize(width, size.height)
    ensures position == Top ==> r.value.origin.y == 0.0
    ensures position == Bottom ==> r.value.origin.y + r.value.size.height == size.height
    ensures position == Left ==> r.value.origin.x == 0.0
    ensures position == Right ==> r.value.origin.x + r.value.size.width == size.width
  {
    match position
    case All => None
    case Top => Some(Rect(0.0, 0.0, size.width, width))
    case Left => Some(Rect(0.0, 0.0, width, size.height))
    case Bottom => Some(Rect(0.0, size.height - width, size.width, width))
    case Right => Some(Rect(size.width - width, 0.0, width, size.height))
  }

  /** A strip no thicker than the view lies inside the view's bounds. */
  lemma BorderStripInside(size: CGSize, width: real, position: BorderPosition)
    requires 0.0 <= width && width <= size.width && width <= size.height
    requires position != All
    ensures var r := BorderStrip(size, width, position).value;
      0.0 <= r.origin.x && r.origin.x + r.size.width <= size.width &&
      0.0 <= r.origin.y && r.origin.y + r.size.height <= size.height
  {
  }

  // ---------------------------------------------------------------------------
  // seekSuperView(of:)
  // ---------------------------------------------------------------------------

  /** The step of `sequence(first: base.superview, next: { $0?.superview })` as
    * written: `first` is a `UIView?`, so `next` must return `UIView??`, and
    * `$0?.superview` is always wrapped as a present value, `nil` included.
    * The sequence never ends. */
  function SeekNextAsWritten(t: Tree, element: Option<ViewId>): (r: Option<Option<ViewId>>)
    ensures r.Some?
  {
    Some(match element case None => None case Some(v) => Superview(t, v))
  }

  /** The `k`-th element of that sequence. */
  function SeekElementAsWritten(t: Tree, v: ViewId, k: nat): Option<ViewId>
  {
    if k == 0 then Superview(t, v) else SeekNextAsWritten(t, SeekElementAsWritten(t, v, k - 1)).value
  }

  /** The elements are the strict ancestors of the view, then `nil` for ever. */
  lemma {:induction false} SeekElementAsWrittenOnChain(t: Tree, v: ViewId, k: nat)
    requires Valid(t)
    ensures SeekElementAsWritten(t, v, k) == if k + 1 < |Chain(t, v)| then Some(Chain(t, v)[k + 1]) else None
  {
    var c := Chain(t, v);
    if k > 0 {
      SeekElementAsWrittenOnChain(t, v, k - 1);
      if k < |c| {
        assert Superview(t, c[k - 1 + 1]) == if k + 1 < |c| then Some(c[k + 1]) else None;
      }
    } else if v in t.superview {
      assert c[1] == t.superview[v];
    }
  }

  /** When no strict ancestor has the type, `for view in sequence(...)` never
    * finds one and never runs out of elements: the call does not return. */
  lemma SeekSuperViewAsWrittenNeverEnds(t: Tree, v: ViewId, ofType: set<ViewId>, k: nat)
    requires Valid(t)
    requires forall i :: 1 <= i < |Chain(t, v)| ==> Chain(t, v)[i] !in ofType
    ensures SeekNextAsWritten(t, SeekElementAsWritten(t, v, k)).Some?
    ensures SeekElementAsWritten(t, v, k) == None || SeekElementAsWritten(t, v, k).value !in ofType
  {
    SeekElementAsWrittenOnChain(t, v, k);
  }

  /** `seekSuperView(of:)` as intended: up the superview chain, the nearest
    * strict ancestor that is an instance of the type (`ofType` holds those
    * views), or `nil` at the root. */
  method SeekSuperView(t: Tree, v: ViewId, ofType: set<ViewId>) returns (r: Option<ViewId>)
    requires Valid(t)
    ensures r == FirstIn(Chain(t, v)[1..], ofType)
    ensures r.Some? ==> r.value in ofType && r.value in Chain(t, v)[1..]
    ensures r == None <==> forall i :: 1 <= i < |Chain(t, v)| ==> Chain(t, v)[i] !in ofType
  {
    var view := Superview(t, v);
    if view.Some? {
      assert Chain(t, v)[1..] == Chain(t, view.value);
    }
    while view.Some?
      invariant Valid(t)
      invariant FirstIn(Chain(t, v)[1..], ofType) == if view.Some? then FirstIn(Chain(t, view.value), ofType) else None
      decreases if view.Some? then view.value + 1 else 0
    {
      FirstInChainStep(t, view.value, ofType);
      if view.value in ofType {
        return view;
      }
      view := Superview(t, view.value);
    }
    r := None;
  }
}
