/**
 * Geometry values and the swap-chain readiness latch of gfx/gfx.h.
 *
 * `Size`, `Point` and `Rect` are the values held by the C++ classes SizeF,
 * PointF and RectF; the operators that return a new object are functions
 * on those values. The classes `SizeF`, `PointF` and `RectF` below are the
 * C++ objects themselves, with their fields, and carry the compound
 * assignments that update those fields in place. Coordinates are reals.
 */
module Gfx {

  datatype Size = Size(width: real, height: real)
  datatype Point = Point(x: real, y: real)
  /** A rectangle stored by its four edges, as D2D1_RECT_F does. */
  datatype Rect = Rect(left: real, top: real, right: real, bottom: real)

  // ------------------------------------------------------------------
  // SizeF values
  // ------------------------------------------------------------------

  /** `SizeF()`: delegates to `SizeF(0, 0)`. */
  function DefaultSize(): (r: Size)
    ensures r.width == 0.0 && r.height == 0.0
  {
    Size(0.0, 0.0)
  }

  /** `SizeF + SizeF`. */
  function SizeAdd(a: Size, b: Size): (r: Size)
    ensures SizeSub(r, b) == a
  {
    Size(a.width + b.width, a.height + b.height)
  }

  /** `SizeF + float` adds the value to both dimensions. */
  function SizeAddValue(a: Size, v: real): (r: Size)
    ensures r == SizeAdd(a, Size(v, v))
    ensures SizeSubValue(r, v) == a
  {
    Size(a.width + v, a.height + v)
  }

  /** `SizeF - SizeF`. */
  function SizeSub(a: Size, b: Size): Size {
    Size(a.width - b.width, a.height - b.height)
  }

  /** `SizeF - float` subtracts the value from both dimensions. */
  function SizeSubValue(a: Size, v: real): (r: Size)
    ensures r == SizeSub(a, Size(v, v))
  {
    Size(a.width - v, a.height - v)
  }

  /** `SizeF == SizeF` compares both dimensions. */
  function SizeEq(a: Size, b: Size): (r: bool)
    ensures r <==> a == b
  {
    a.width == b.width && a.height == b.height
  }

  /** `SizeF != SizeF` is the negation of `==`. */
  function SizeNe(a: Size, b: Size): (r: bool)
    ensures r <==> a != b
  {
    !SizeEq(a, b)
  }

  /** `a - b + b == a` and `a + b - b == a`: the two operators are inverse; the default size is their identity. */
  lemma SizeAddSubInverse(a: Size, b: Size)
    ensures SizeAdd(SizeSub(a, b), b) == a
    ensures SizeSub(SizeAdd(a, b), b) == a
    ensures SizeAdd(DefaultSize(), a) == a && SizeSub(a, DefaultSize()) == a
  {
  }

  // ------------------------------------------------------------------
  // PointF values
  // ------------------------------------------------------------------

  /** `PointF()`: delegates to `PointF(0, 0)`. */
  function DefaultPoint(): (r: Point)
    ensures r.x == 0.0 && r.y == 0.0
  {
    Point(0.0, 0.0)
  }

  /** `PointF + SizeF` moves the point by the size. */
  function PointAdd(p: Point, s: Size): (r: Point)
    ensures PointSub(r, s) == p
  {
    Point(p.x + s.width, p.y + s.height)
  }

  /** `PointF - SizeF`. */
  function PointSub(p: Point, s: Size): Point {
    Point(p.x - s.width, p.y - s.height)
  }

  /** `PointF == PointF` compares both coordinates. */
  function PointEq(a: Point, b: Point): (r: bool)
    ensures r <==> a == b
  {
    a.x == b.x && a.y == b.y
  }

  /** `PointF != PointF`. */
  function PointNe(a: Point, b: Point): (r: bool)
    ensures r <==> a != b
  {
    !PointEq(a, b)
  }

  lemma PointAddSubInverse(p: Point, s: Size)
    ensures PointAdd(PointSub(p, s), s) == p
    ensures PointSub(PointAdd(p, s), s) == p
  {
  }

  // ------------------------------------------------------------------
  // RectF values
  // ------------------------------------------------------------------

  function Width(r: Rect): real { r.right - r.left }
  function Height(r: Rect): real { r.bottom - r.top }
  function Origin(r: Rect): Point { Point(r.left, r.top) }
  function BottomRight(r: Rect): Point { Point(r.right, r.bottom) }
  function SizeOf(r: Rect): Size { Size(Width(r), Height(r)) }

  /** `RectF::empty()`. */
  function Empty(r: Rect): bool { Width(r) <= 0.0 || Height(r) <= 0.0 }

  /** `RectF::Contains`: left and top edges inside, right and bottom edges outside. */
  function Contains(r: Rect, p: Point): bool {
    p.x >= r.left && p.x < r.right && p.y >= r.top && p.y < r.bottom
  }

  /** `RectF()`: delegates to `RectF(0, 0, 0, 0)`. */
  function DefaultRect(): (r: Rect)
    ensures Origin(r) == DefaultPoint() && SizeOf(r) == DefaultSize()
  {
    var zero: real := 0.0; Rect(zero, zero, zero, zero)
  }

  /** `RectF(origin, bottom_right)`. */
  function RectFromPoints(origin: Point, bottomRight: Point): (r: Rect)
    ensures Origin(r) == origin && BottomRight(r) == bottomRight
  {
    Rect(origin.x, origin.y, bottomRight.x, bottomRight.y)
  }

  /** `RectF(origin, size)`, built as `RectF(origin, origin + size)`. */
  function RectFromOriginSize(origin: Point, size: Size): (r: Rect)
    ensures Origin(r) == origin && SizeOf(r) == size
  {
    RectFromPoints(origin, PointAdd(origin, size))
  }

  /**
   * `RectF + SizeF` as the source writes it: left, top and right move
   * outwards, but the bottom edge moves up by the height, like the top.
   */
  function RectAddAsWritten(r: Rect, s: Size): (q: Rect)
    ensures Width(q) == Width(r) + 2.0 * s.width
    ensures Height(q) == Height(r)
    ensures q.bottom == RectAdd(r, s).bottom - 2.0 * s.height
  {
    Rect(r.left - s.width, r.top - s.height, r.right + s.width, r.bottom - s.height)
  }

  /**
   * `RectF + SizeF` as evidently intended, and as `operator+=` does it:
   * every edge moves outwards by the size.
   */
  function RectAdd(r: Rect, s: Size): (q: Rect)
    ensures Width(q) == Width(r) + 2.0 * s.width
    ensures Height(q) == Height(r) + 2.0 * s.height
    ensures RectSub(q, s) == r
  {
    Rect(r.left - s.width, r.top - s.height, r.right + s.width, r.bottom + s.height)
  }

  /** `RectF - SizeF`: every edge moves inwards by the size. */
  function RectSub(r: Rect, s: Size): (q: Rect)
    ensures Width(q) == Width(r) - 2.0 * s.width
    ensures Height(q) == Height(r) - 2.0 * s.height
    ensures Origin(q) == PointAdd(Origin(r), s)
    ensures BottomRight(q) == PointSub(BottomRight(r), s)
  {
    Rect(r.left + s.width, r.top + s.height, r.right - s.width, r.bottom - s.height)
  }

  /** `RectF + float`, through `SizeF(value, value)`. */
  function RectAddValue(r: Rect, v: real): (q: Rect)
    ensures RectSubValue(q, v) == r
  {
    RectAdd(r, Size(v, v))
  }

  /** `RectF - float`, through `SizeF(value, value)`. */
  function RectSubValue(r: Rect, v: real): (q: Rect)
    ensures Width(q) == Width(r) - 2.0 * v && Height(q) == Height(r) - 2.0 * v
  {
    RectSub(r, Size(v, v))
  }

  /** `RectF == RectF` compares the four edges. */
  function RectEq(a: Rect, b: Rect): (r: bool)
    ensures r <==> a == b
  {
    a.left == b.left && a.top == b.top && a.right == b.right && a.bottom == b.bottom
  }

  /** `RectF != RectF`. */
  function RectNe(a: Rect, b: Rect): (r: bool)
    ensures r <==> a != b
  {
    !RectEq(a, b)
  }

  /** `RectF::Offset`: the same size at the origin moved by the size. */
  function Offset(r: Rect, s: Size): (q: Rect)
    ensures SizeOf(q) == SizeOf(r)
    ensures Origin(q) == PointAdd(Origin(r), s)
    ensures forall p: Point {:trigger Contains(q, p)} :: Contains(q, p) <==> Contains(r, PointSub(p, s))
  {
    RectFromOriginSize(PointAdd(Origin(r), s), SizeOf(r))
  }

  /** The written `operator+` leaves the height unchanged: growing the unit square by (1, 1) gives height 1, not 3. */
  lemma RectAddAsWrittenCounterexample()
    ensures Height(RectAddAsWritten(Rect(0.0, 0.0, 1.0, 1.0), Size(1.0, 1.0))) == 1.0
    ensures Height(RectAdd(Rect(0.0, 0.0, 1.0, 1.0), Size(1.0, 1.0))) == 3.0
    ensures RectSub(RectAddAsWritten(Rect(0.0, 0.0, 1.0, 1.0), Size(1.0, 1.0)), Size(1.0, 1.0)) != Rect(0.0, 0.0, 1.0, 1.0)
  {
  }

  /** Contains is half-open: the origin is inside exactly when the rectangle is not empty, the bottom-right corner never is. */
  lemma ContainsHalfOpen(r: Rect)
    ensures Contains(r, Origin(r)) <==> !Empty(r)
    ensures !Contains(r, BottomRight(r))
    ensures forall y: real {:trigger Point(r.right, y)} :: !Contains(r, Point(r.right, y))
    ensures forall x: real {:trigger Point(x, r.bottom)} :: !Contains(r, Point(x, r.bottom))
  {
  }

  /** `empty()` holds exactly when no point is contained. */
  lemma EmptyIffNoPoint(r: Rect)
    ensures Empty(r) <==> forall p: Point {:trigger Contains(r, p)} :: !Contains(r, p)
  {
    if !Empty(r) {
      assert Contains(r, Origin(r));
    }
  }

  // ------------------------------------------------------------------
  // The objects and their in-place operators
  // ------------------------------------------------------------------

  /** A SizeF object: `size_.width`, `size_.height`. */
  class SizeF {
    var width: real
    var height: real

    function Value(): Size reads this { Size(width, height) }

    constructor (w: real, h: real)
      ensures Value() == Size(w, h)
    {
      width, height := w, h;
    }

    /** `operator=(float)` sets both dimensions. */
    method AssignValue(v: real)
      modifies this
      ensures Value() == Size(v, v)
    {
      width, height := v, v;
    }

    /** `operator+=(SizeF)`. */
    method AddAssign(other: Size)
      modifies this
      ensures Value() == SizeAdd(old(Value()), other)
    {
      width := width + other.width;
      height := height + other.height;
    }

    /** `operator+=(float)`. */
    method AddAssignValue(v: real)
      modifies this
      ensures Value() == SizeAddValue(old(Value()), v)
    {
      width := width + v;
      height := height + v;
    }

    /** `operator-=(SizeF)` as the source writes it: it adds. */
    method SubAssign(other: Size)
      modifies this
      ensures Value() == SizeAdd(old(Value()), other)
    {
      width := width + other.width;
      height := height + other.height;
    }

    /** `operator-=(SizeF)` as evidently intended, matching `operator-`. */
    method SubAssignCorrected(other: Size)
      modifies this
      ensures Value() == SizeSub(old(Value()), other)
    {
      width := width - other.width;
      height := height - other.height;
    }

    /** `operator-=(float)`. */
    method SubAssignValue(v: real)
      modifies this
      ensures Value() == SizeSubValue(old(Value()), v)
    {
      width := width - v;
      height := height - v;
    }
  }

  /**
   * The written `-=` disagrees with `operator-` for every non-zero operand:
   * `(1, 1) -= (1, 1)` leaves width 2, where `operator-` gives width 0.
   */
  lemma SizeSubAssignAsWrittenCounterexample(s: Size, o: Size)
    requires o.width != 0.0 || o.height != 0.0
    ensures SizeAdd(s, o) != SizeSub(s, o)
    ensures SizeAdd(Size(1.0, 1.0), Size(1.0, 1.0)).width == 2.0
    ensures SizeSub(Size(1.0, 1.0), Size(1.0, 1.0)).width == 0.0
  {
    if o.width != 0.0 {
      assert SizeAdd(s, o).width != SizeSub(s, o).width;
    } else {
      assert SizeAdd(s, o).height != SizeSub(s, o).height;
    }
  }

  /** With the corrected `-=`, `s += o; s -= o` restores `s`. */
  method SizeAddThenSubAssign(s: SizeF, o: Size)
    modifies s
    ensures s.Value() == old(s.Value())
  {
    s.AddAssign(o);
    s.SubAssignCorrected(o);
  }

  /** A PointF object: `point_.x`, `point_.y`. */
  class PointF {
    var x: real
    var y: real

    function Value(): Point reads this { Point(x, y) }

    constructor (x0: real, y0: real)
      ensures Value() == Point(x0, y0)
    {
      x, y := x0, y0;
    }

    /** `operator=(float)`. */
    method AssignValue(v: real)
      modifies this
      ensures Value() == Point(v, v)
    {
      x, y := v, v;
    }

    /** `operator+=(SizeF)`. */
    method AddAssign(s: Size)
      modifies this
      ensures Value() == PointAdd(old(Value()), s)
    {
      x := x + s.width;
      y := y + s.height;
    }

    /** `operator+=(float)`. */
    method AddAssignValue(v: real)
      modifies this
      ensures Value() == PointAdd(old(Value()), Size(v, v))
    {
      x := x + v;
      y := y + v;
    }

    /** `operator-=(SizeF)`. */
    method SubAssign(s: Size)
      modifies this
      ensures Value() == PointSub(old(Value()), s)
    {
      x := x - s.width;
      y := y - s.height;
    }

    /** `operator-=(float)`. */
    method SubAssignValue(v: real)
      modifies this
      ensures Value() == PointSub(old(Value()), Size(v, v))
    {
      x := x - v;
      y := y - v;
    }
  }

  /** A RectF object: the four edges of `rect_`. */
  class RectF {
    var left: real
    var top: real
    var right: real
    var bottom: real

    function Value(): Rect reads this { Rect(left, top, right, bottom) }

    constructor (l: real, t: real, r: real, b: real)
      ensures Value() == Rect(l, t, r, b)
    {
      left, top, right, bottom := l, t, r, b;
    }

    /** `operator+=(SizeF)`: every edge moves outwards. */
    method AddAssign(s: Size)
      modifies this
      ensures Value() == RectAdd(old(Value()), s)
    {
      left := left - s.width;
      top := top - s.height;
      right := right + s.width;
      bottom := bottom + s.height;
    }

    /** `operator+=(float)`, through `SizeF(value, value)`. */
    method AddAssignValue(v: real)
      modifies this
      ensures Value() == RectAddValue(old(Value()), v)
    {
      AddAssign(Size(v, v));
    }

    /** `operator-=(SizeF)`: every edge moves inwards. */
    method SubAssign(s: Size)
      modifies this
      ensures Value() == RectSub(old(Value()), s)
    {
      left := left + s.width;
      top := top + s.height;
      right := right - s.width;
      bottom := bottom - s.height;
    }

    /** `operator-=(float)`, through `SizeF(value, value)`. */
    method SubAssignValue(v: real)
      modifies this
      ensures Value() == RectSubValue(old(Value()), v)
    {
      SubAssign(Size(v, v));
    }

    /** `set_origin` moves the rectangle and keeps its size. */
    method SetOrigin(origin: Point)
      modifies this
      ensures Origin(Value()) == origin
      ensures SizeOf(Value()) == SizeOf(old(Value()))
    {
      var size := SizeOf(Value());
      left := origin.x;
      top := origin.y;
      right := left + size.width;
      bottom := top + size.height;
    }

    /** `set_size` keeps left and top and sets the width and height. */
    method SetSize(size: Size)
      modifies this
      ensures Origin(Value()) == Origin(old(Value()))
      ensures SizeOf(Value()) == size
    {
      right := left + size.width;
      bottom := top + size.height;
    }
  }

  // ------------------------------------------------------------------
  // SwapChain readiness latch
  // ------------------------------------------------------------------

  /** What `WaitForSingleObject(waitable, 0)` reports. */
  datatype WaitResult = WaitObject0 | WaitTimeout | WaitOther(code: int)

  /**
   * The `is_ready_` latch of SwapChain. The device and the waitable handle
   * are outside this model; the result the OS wait would report is passed
   * to `IsReady`.
   */
  class SwapChain {
    var isReady: bool

    constructor ()
      ensures !isReady
    {
      isReady := false;
    }

    /**
     * Once latched, answers true and does not look at the wait; otherwise
     * a signalled wait latches and answers true, and a timed-out (or any
     * other) wait answers false and leaves the latch clear.
     */
    method IsReady(wait: WaitResult) returns (ready: bool)
      modifies this
      ensures old(isReady) ==> ready && isReady
      ensures !old(isReady) ==> (ready <==> wait == WaitObject0)
      ensures isReady == ready
    {
      if isReady {
        return true;
      }
      match wait {
        case WaitObject0 =>
          isReady := true;
          return true;
        case WaitTimeout =>
          return false;
        case WaitOther(_) =>
      }
      return false;
    }

    /** `Present` clears the latch. */
    method Present()
      modifies this
      ensures !isReady
    {
      isReady := false;
    }
  }
}
