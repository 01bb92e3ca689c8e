/** The viewer's zoom and pan arithmetic (`Kodex`): the pinch handler that
    runs once per gesture frame, the double-tap toggle and the vertical
    overflow padding. Float values are modelled as reals, so rounding is not
    part of the model. The pointer-input scope's size is an `IntSize`, and
    `size.width / 2` in the source is integer division. */
module Viewport {
  import opened Results

  const MinScale: real := 1.0
  const MaxScale: real := 3.0
  const DoubleTapMaxScale: real := 2.0

  datatype IntSize = IntSize(width: nat, height: nat)

  datatype Offset = Offset(x: real, y: real)

  /** The three animated values (`scale`, `offsetX`, `verticalOverflow`) and
      the two handler-local variables: the pinch handler's `offsetY` and the
      double-tap handler's `targetScroll`. */
  datatype View = View(scale: real, offsetX: real, overflow: real, offsetY: real, targetScroll: real)

  /** The view after a handler ran, and the amount it asked the list to
      scroll by, if it did. */
  datatype Frame = Frame(view: View, scrolled: Option<real>)

  function Abs(x: real): real {
    if x >= 0.0 then x else -x
  }

  /** Kotlin's `coerceIn(lo, hi)`, which throws on an empty range. */
  function Clamp(x: real, lo: real, hi: real): (r: real)
    requires lo <= hi
    ensures lo <= r <= hi
    ensures lo <= x <= hi ==> r == x
  {
    if x < lo then lo else if x > hi then hi else x
  }

  /** The clamped value is the point of the range nearest to the input. */
  lemma ClampIsNearest(x: real, lo: real, hi: real, y: real)
    requires lo <= hi && lo <= y <= hi
    ensures Abs(Clamp(x, lo, hi) - x) <= Abs(y - x)
  {
  }

  /** Kotlin `Int / 2` on a non-negative size. */
  function Half(n: nat): nat {
    n / 2
  }

  /** How far the content may be translated either way at a given scale:
      half of the extra length the scaling adds. */
  function MaxOffset(len: nat, scale: real): real {
    (len as real * scale - len as real) / 2.0
  }

  lemma MaxOffsetNonNegative(len: nat, scale: real)
    requires scale >= MinScale
    ensures MaxOffset(len, scale) >= 0.0
    ensures scale == MinScale ==> MaxOffset(len, scale) == 0.0
  {
    assert len as real * scale - len as real == len as real * (scale - 1.0);
  }

  /** `computeVerticalOverflow`: the vertical padding that keeps the scaled
      list's first and last page reachable. */
  function VerticalOverflow(height: nat, scale: real): real
    requires scale > 0.0
  {
    ((height as real * scale - height as real) / 2.0) / scale
  }

  /** The padding is zero at the minimum scale, never negative above it,
      always below half the height, and grows with the scale. */
  lemma VerticalOverflowBounds(height: nat, s: real, t: real)
    requires MinScale <= s <= t
    ensures VerticalOverflow(height, MinScale) == 0.0
    ensures 0.0 <= VerticalOverflow(height, s) <= VerticalOverflow(height, t)
    ensures height > 0 ==> VerticalOverflow(height, s) < height as real / 2.0
  {
    var h := height as real;
    OverflowClosedForm(height, s);
    OverflowClosedForm(height, t);
    assert 1.0 / t <= 1.0 / s;
    assert 0.0 < 1.0 / s <= 1.0;
    assert h / 2.0 * (1.0 - 1.0 / s) <= h / 2.0 * (1.0 - 1.0 / t);
  }

  lemma OverflowClosedForm(height: nat, s: real)
    requires s > 0.0
    ensures VerticalOverflow(height, s) == height as real / 2.0 * (1.0 - 1.0 / s)
  {
    var h := height as real;
    assert (h * s - h) / 2.0 == h / 2.0 * s - h / 2.0;
    assert (h / 2.0 * s - h / 2.0) / s == h / 2.0 - (h / 2.0) / s;
    assert (h / 2.0) / s == h / 2.0 * (1.0 / s);
  }

  lemma UnitRatio(a: real, b: real)
    requires b > 0.0
    ensures a / b == 1.0 <==> a == b
  {
    if a / b == 1.0 {
      assert a == (a / b) * b;
    }
  }

  /** Where a layer scaled by `scale` about `pivot`, then shifted by
      `offset`, draws the content point `u`, given as its distance from the
      pivot before scaling (`graphicsLayer` with `scaleX` and `translationX`).
      The handlers measure from `size / 2` in integer division, which is the
      pivot used here. */
  function Drawn(pivot: real, scale: real, offset: real, u: real): real {
    pivot + u * scale + offset
  }

  /** The content point drawn at screen position `x`. */
  function Under(pivot: real, scale: real, offset: real, x: real): (u: real)
    requires scale > 0.0
    ensures Drawn(pivot, scale, offset, u) == x
  {
    (x - pivot - offset) / scale
  }

  /** Each content point is drawn at one place only, so `Under` inverts
      `Drawn`. */
  lemma UnderDrawn(pivot: real, scale: real, offset: real, u: real)
    requires scale > 0.0
    ensures Under(pivot, scale, offset, Drawn(pivot, scale, offset, u)) == u
  {
    assert (u * scale) / scale == u;
  }

  /** Where the list draws the point `y` unscaled pixels down its content
      when it is scrolled by `scroll`. The padding `overflow` puts the
      list's top that far down the view, and the layer scales the padded
      list by `scale` about its own middle, which is the middle of the view.
      Nothing translates the list vertically: the handlers move it with
      `scrollBy`, in the list's own unscaled pixels, and the padding. */
  function ListDrawn(height: nat, scale: real, overflow: real, scroll: real, y: real): real {
    var mid := height as real / 2.0;
    mid + (overflow + (y - scroll) - mid) * scale
  }

  /** The point of the list's content drawn at height `d`. */
  function ListUnder(height: nat, scale: real, overflow: real, scroll: real, d: real): (y: real)
    requires scale > 0.0
    ensures ListDrawn(height, scale, overflow, scroll, y) == d
  {
    var mid := height as real / 2.0;
    assert ((d - mid) / scale) * scale == d - mid;
    scroll + mid - overflow + (d - mid) / scale
  }

  /** With the padding that matches the scale, the padding cancels the
      pivot: the list draws a point at `scale` times its distance below the
      top of the scrolled content. */
  lemma ListDrawnClosedForm(height: nat, scale: real, scroll: real, y: real)
    requires scale > 0.0
    ensures ListDrawn(height, scale, VerticalOverflow(height, scale), scroll, y) == scale * (y - scroll)
  {
    var mid := height as real / 2.0;
    var ov := VerticalOverflow(height, scale);
    OverflowClosedForm(height, scale);
    assert ov - mid == -(mid / scale);
    assert (mid / scale) * scale == mid;
    assert (ov + (y - scroll) - mid) * scale == (ov - mid) * scale + (y - scroll) * scale;
  }

  /** A change of scale from `scale` to `target` together with a scroll by
      `d` draws the content point that was at height `cy` at
      `target * (cy / scale - d)`. */
  lemma ListPinch(height: nat, scale: real, target: real, scroll: real, d: real, cy: real)
    requires scale > 0.0 && target > 0.0
    ensures var y := ListUnder(height, scale, VerticalOverflow(height, scale), scroll, cy);
            ListDrawn(height, target, VerticalOverflow(height, target), scroll + d, y) == target * (cy / scale - d)
  {
    var y := ListUnder(height, scale, VerticalOverflow(height, scale), scroll, cy);
    ListDrawnClosedForm(height, scale, scroll, y);
    ListDrawnClosedForm(height, target, scroll + d, y);
    assert scale * (y - scroll) == cy;
    assert y - scroll == cy / scale;
  }

  /** The scroll that keeps the content point at height `cy` where it is
      while the scale changes from `scale` to `target`. */
  function FocalScroll(scale: real, target: real, cy: real): (d: real)
    requires scale > 0.0 && target > 0.0
    ensures target * (cy / scale - d) == cy
    ensures scale == target ==> d == 0.0
  {
    assert target * (cy / target) == cy;
    cy / scale - cy / target
  }

  /** `FocalScroll` is the only scroll that keeps the point under the
      centroid, whatever the list's scroll position and the view's height. */
  lemma FocalScrollKeepsFocalPoint(height: nat, scale: real, target: real, scroll: real, d: real, cy: real)
    requires scale > 0.0 && target > 0.0
    ensures var y := ListUnder(height, scale, VerticalOverflow(height, scale), scroll, cy);
            (ListDrawn(height, target, VerticalOverflow(height, target), scroll + d, y) == cy <==> d == FocalScroll(scale, target, cy))
  {
    ListPinch(height, scale, target, scroll, d, cy);
    var x := cy / scale - d;
    if target * x == cy {
      assert x == (target * x) / target;
    }
  }

  /** The scale stays in the range both handlers clamp it to. */
  predicate InRange(v: View) {
    MinScale <= v.scale <= MaxScale
  }

  /** The horizontal translation never shows past the scaled content's edge,
      and the padding matches the scale. */
  predicate Consistent(v: View, size: IntSize)
    requires InRange(v)
  {
    && Abs(v.offsetX) <= MaxOffset(size.width, v.scale)
    && v.overflow == VerticalOverflow(size.height, v.scale)
  }

  /** The state the composable starts with. */
  const Initial: View := View(MinScale, 0.0, 0.0, 0.0, 0.0)

  lemma InitialIsConsistent(size: IntSize)
    ensures InRange(Initial) && Consistent(Initial, size)
  {
    MaxOffsetNonNegative(size.width, MinScale);
  }

  /** The new scale of a pinch frame. */
  function PinchScale(scale: real, zoom: real): (s: real)
    ensures MinScale <= s <= MaxScale
    ensures MinScale <= scale * zoom <= MaxScale ==> s == scale * zoom
  {
    Clamp(scale * zoom, MinScale, MaxScale)
  }

  /** The horizontal target of a pinch frame before clamping: the pan plus
      the focal adjustment around the centroid. */
  function PinchX(v: View, size: IntSize, centroid: Offset, pan: Offset, target: real): real
    requires InRange(v)
  {
    var scaleChange := target / v.scale;
    var centroidX := (centroid.x - Half(size.width) as real) * target;
    v.offsetX + pan.x + (centroidX - v.offsetX) * (1.0 - scaleChange)
  }

  /** Without a change of scale, the horizontal target moves by the pan. */
  lemma PinchXWithoutZoom(v: View, size: IntSize, centroid: Offset, pan: Offset)
    requires InRange(v)
    ensures PinchX(v, size, centroid, pan, v.scale) == v.offsetX + pan.x
  {
    assert v.scale / v.scale == 1.0;
  }

  /** About the view's centre, a pinch scales the translation with the
      content and adds the pan. */
  lemma PinchXAboutCentre(v: View, size: IntSize, centroid: Offset, pan: Offset, target: real)
    requires InRange(v) && centroid.x == Half(size.width) as real
    ensures PinchX(v, size, centroid, pan, target) == v.offsetX * (target / v.scale) + pan.x
  {
  }

  /** Where the content point that was under the centroid is drawn after a
      pinch as written: off the centroid (plus the pan) by the centroid's
      distance from the centre times `(1 - target / scale) * (target - 1)`,
      so it stays put only about the centre, without a change of scale, or
      when the frame ends at scale 1. */
  lemma PinchXDrift(v: View, size: IntSize, centroid: Offset, pan: Offset, target: real)
    requires InRange(v)
    ensures var p := Half(size.width) as real;
            Drawn(p, target, PinchX(v, size, centroid, pan, target), Under(p, v.scale, v.offsetX, centroid.x))
              == centroid.x + pan.x + (centroid.x - p) * (1.0 - target / v.scale) * (target - 1.0)
  {
    var p := Half(size.width) as real;
    var k := target / v.scale;
    var c := centroid.x - p;
    var u := Under(p, v.scale, v.offsetX, centroid.x);
    assert u * target == (c - v.offsetX) * k;
  }

  /** The horizontal target with the focal adjustment written without the
      factor `target` on the centroid: the content point under the centroid
      stays under it, moved by the pan. */
  function FocalPinchX(v: View, size: IntSize, centroid: Offset, pan: Offset, target: real): (x: real)
    requires InRange(v) && target > 0.0
    ensures var p := Half(size.width) as real;
            Drawn(p, target, x, Under(p, v.scale, v.offsetX, centroid.x)) == centroid.x + pan.x
  {
    var p := Half(size.width) as real;
    var scaleChange := target / v.scale;
    var centroidX := centroid.x - p;
    var u := Under(p, v.scale, v.offsetX, centroid.x);
    assert u * target == (centroidX - v.offsetX) * scaleChange;
    v.offsetX + pan.x + (centroidX - v.offsetX) * (1.0 - scaleChange)
  }

  /** A pinch from 2x to 3x, 25 pixels right of the centre of a 100-pixel
      view, draws the content point that was under the fingers at the
      centre instead: as written the offset becomes -37.5 where keeping the
      point needs -12.5, which is within the bound at 3x. */
  lemma PinchDriftsAsWritten()
    ensures var size := IntSize(100, 100);
            var v := View(2.0, 0.0, VerticalOverflow(100, 2.0), 0.0, 0.0);
            var c := Offset(75.0, 50.0);
            var r := GestureFrameAsWritten(v, size, c, Offset(0.0, 0.0), 1.5);
            var u := Under(50.0, 2.0, 0.0, 75.0);
            && InRange(v) && Consistent(v, size)
            && r.view.scale == 3.0 && r.view.offsetX == -37.5
            && Drawn(50.0, 3.0, r.view.offsetX, u) == 50.0
            && FocalPinchX(v, size, c, Offset(0.0, 0.0), 3.0) == -12.5
            && Abs(-12.5) <= MaxOffset(size.width, 3.0)
  {
    var size := IntSize(100, 100);
    var v := View(2.0, 0.0, VerticalOverflow(100, 2.0), 0.0, 0.0);
    var c := Offset(75.0, 50.0);
    assert PinchScale(2.0, 1.5) == 3.0;
    assert PinchX(v, size, c, Offset(0.0, 0.0), 3.0) == -37.5;
  }

  /** The vertical target of a pinch frame before clamping: the pan plus the
      focal adjustment around the centroid. */
  function PinchYTarget(v: View, size: IntSize, centroid: Offset, pan: Offset, target: real): real
    requires InRange(v)
  {
    var scaleChange := target / v.scale;
    var centroidY := centroid.y - Half(size.height) as real;
    v.offsetY + pan.y + (centroidY - v.offsetY) * (1.0 - scaleChange)
  }

  /** Without a change of scale, the vertical target moves by the pan. */
  lemma PinchYWithoutZoom(v: View, size: IntSize, centroid: Offset, pan: Offset)
    requires InRange(v)
    ensures PinchYTarget(v, size, centroid, pan, v.scale) == v.offsetY + pan.y
  {
    assert v.scale / v.scale == 1.0;
  }

  /** About the view's centre, a pinch scales the vertical offset with the
      content and adds the pan. */
  lemma PinchYAboutCentre(v: View, size: IntSize, centroid: Offset, pan: Offset, target: real)
    requires InRange(v) && centroid.y == Half(size.height) as real
    ensures PinchYTarget(v, size, centroid, pan, target) == v.offsetY * (target / v.scale) + pan.y
  {
  }

  /** The vertical target of a pinch frame, clamped with the bound of the
      scale the frame started from. */
  function PinchY(v: View, size: IntSize, centroid: Offset, pan: Offset, target: real): (y: real)
    requires InRange(v)
    ensures Abs(y) <= MaxOffset(size.height, v.scale)
    ensures Abs(PinchYTarget(v, size, centroid, pan, target)) <= MaxOffset(size.height, v.scale) ==> y == PinchYTarget(v, size, centroid, pan, target)
  {
    MaxOffsetNonNegative(size.height, v.scale);
    var maxY := MaxOffset(size.height, v.scale);
    Clamp(PinchYTarget(v, size, centroid, pan, target), -maxY, maxY)
  }

  /** One `onGesture` frame as the source writes it: both offsets are
      clamped with the bounds of the scale the frame started from. The list
      scrolls by the opposite of the vertical offset's change, and only when
      the scale changed. */
  function GestureFrameAsWritten(v: View, size: IntSize, centroid: Offset, pan: Offset, zoom: real): (r: Frame)
    requires InRange(v)
    ensures InRange(r.view)
    ensures r.view.scale == PinchScale(v.scale, zoom)
    ensures Abs(r.view.offsetX) <= MaxOffset(size.width, v.scale)
    ensures Abs(r.view.offsetY) <= MaxOffset(size.height, v.scale)
    ensures r.view.overflow == VerticalOverflow(size.height, r.view.scale)
    ensures r.scrolled.Some? <==> r.view.scale != v.scale
    ensures r.scrolled.Some? ==> r.scrolled.value == v.offsetY - r.view.offsetY
    ensures r.view.targetScroll == v.targetScroll
  {
    MaxOffsetNonNegative(size.width, v.scale);
    var target := PinchScale(v.scale, zoom);
    var maxX := MaxOffset(size.width, v.scale);
    var x := Clamp(PinchX(v, size, centroid, pan, target), -maxX, maxX);
    var y := PinchY(v, size, centroid, pan, target);
    var scaleChange := target / v.scale;
    UnitRatio(target, v.scale);
    Frame(View(target, x, VerticalOverflow(size.height, target), y, v.targetScroll),
          if scaleChange != 1.0 then Some(-(y - v.offsetY)) else None)
  }

  /** A pinch frame that zooms out clamps the translation with the old,
      larger bound: zooming from 3x to 1x around the centre of a 100-pixel
      view, with the content pushed to its right edge, leaves a third of the
      view translated at a scale that allows no translation at all. */
  lemma GestureOverrunsBoundAsWritten()
    ensures var size := IntSize(100, 100);
            var v := View(3.0, 100.0, VerticalOverflow(100, 3.0), 0.0, 0.0);
            var r := GestureFrameAsWritten(v, size, Offset(50.0, 50.0), Offset(0.0, 0.0), 1.0 / 3.0);
            && InRange(v) && Consistent(v, size)
            && r.view.scale == 1.0
            && r.view.offsetX == 100.0 / 3.0
            && MaxOffset(size.width, r.view.scale) == 0.0
            && !Consistent(r.view, size)
  {
    var size := IntSize(100, 100);
    var v := View(3.0, 100.0, VerticalOverflow(100, 3.0), 0.0, 0.0);
    assert PinchScale(3.0, 1.0 / 3.0) == 1.0;
    assert PinchX(v, size, Offset(50.0, 50.0), Offset(0.0, 0.0), 1.0) == 100.0 / 3.0;
  }

  /** Where a pinch frame as written draws the content point that was drawn
      at the centroid's height, for a list scrolled by `scroll` whose padding
      matched the scale. The frame scrolls by the change of `offsetY`,
      computed as if the list were translated like the horizontal layer, so
      the point stays under the centroid only when that scroll happens to be
      `FocalScroll`. */
  lemma PinchYListDrift(v: View, size: IntSize, centroid: Offset, pan: Offset, zoom: real, scroll: real)
    requires InRange(v) && v.overflow == VerticalOverflow(size.height, v.scale)
    ensures var r := GestureFrameAsWritten(v, size, centroid, pan, zoom);
            var y := ListUnder(size.height, v.scale, v.overflow, scroll, centroid.y);
            r.scrolled.Some? ==>
              && ListDrawn(size.height, r.view.scale, r.view.overflow, scroll + r.scrolled.value, y)
                   == r.view.scale * (centroid.y / v.scale - r.scrolled.value)
              && (ListDrawn(size.height, r.view.scale, r.view.overflow, scroll + r.scrolled.value, y) == centroid.y <==> r.scrolled.value == FocalScroll(v.scale, r.view.scale, centroid.y))
  {
    var r := GestureFrameAsWritten(v, size, centroid, pan, zoom);
    var t := r.view.scale;
    assert t >= MinScale && r.view.overflow == VerticalOverflow(size.height, t);
    if r.scrolled.Some? {
      ScrollMovesFocalPoint(size.height, v.scale, t, r.view.overflow, scroll, r.scrolled.value, centroid.y);
    }
  }

  lemma ScrollMovesFocalPoint(height: nat, scale: real, target: real, overflow: real, scroll: real, d: real, cy: real)
    requires scale > 0.0 && target > 0.0 && overflow == VerticalOverflow(height, target)
    ensures var y := ListUnder(height, scale, VerticalOverflow(height, scale), scroll, cy);
            && ListDrawn(height, target, overflow, scroll + d, y) == target * (cy / scale - d)
            && (ListDrawn(height, target, overflow, scroll + d, y) == cy <==> d == FocalScroll(scale, target, cy))
  {
    ListPinch(height, scale, target, scroll, d, cy);
    FocalScrollKeepsFocalPoint(height, scale, target, scroll, d, cy);
  }

  /** A pinch from 2x to 3x at the bottom edge of a 100-pixel view scrolls
      the list by 25 pixels, which draws the content point that was under
      the fingers 25 pixels higher; keeping it needs a scroll of 50/3. */
  lemma PinchYDriftsAsWritten()
    ensures var size := IntSize(100, 100);
            var v := View(2.0, 0.0, VerticalOverflow(100, 2.0), 0.0, 0.0);
            var r := GestureFrameAsWritten(v, size, Offset(50.0, 100.0), Offset(0.0, 0.0), 1.5);
            var y := ListUnder(100, 2.0, VerticalOverflow(100, 2.0), 0.0, 100.0);
            && InRange(v) && Consistent(v, size)
            && r.view.scale == 3.0 && r.scrolled == Some(25.0)
            && ListDrawn(100, 3.0, r.view.overflow, 25.0, y) == 75.0
            && FocalScroll(2.0, 3.0, 100.0) == 50.0 / 3.0
  {
    var size := IntSize(100, 100);
    var v := View(2.0, 0.0, VerticalOverflow(100, 2.0), 0.0, 0.0);
    assert PinchScale(2.0, 1.5) == 3.0;
    assert PinchYTarget(v, size, Offset(50.0, 100.0), Offset(0.0, 0.0), 3.0) == -25.0;
    ListPinch(100, 2.0, 3.0, 0.0, 25.0, 100.0);
  }

  /** The pinch frame with the horizontal focal adjustment of `FocalPinchX`
      and the horizontal offset clamped to the bound of the scale the frame
      ends at, so the content's edge never comes into view; when the scale
      changes, the list scrolls by `FocalScroll`. The vertical drag itself
      is left to the list. `offsetY` is kept as written but no longer sizes
      the scroll. The rest of the model uses this definition. */
  function GestureFrame(v: View, size: IntSize, centroid: Offset, pan: Offset, zoom: real): (r: Frame)
    requires InRange(v)
    ensures InRange(r.view) && Consistent(r.view, size)
    ensures r.view.scale == PinchScale(v.scale, zoom)
    ensures Abs(r.view.offsetY) <= MaxOffset(size.height, v.scale)
    ensures r.scrolled.Some? <==> r.view.scale != v.scale
    ensures r.scrolled.Some? ==> r.scrolled.value == FocalScroll(v.scale, r.view.scale, centroid.y)
    ensures r.view.targetScroll == v.targetScroll
    ensures Abs(FocalPinchX(v, size, centroid, pan, r.view.scale)) <= MaxOffset(size.width, r.view.scale) ==> r.view.offsetX == FocalPinchX(v, size, centroid, pan, r.view.scale)
    ensures var w := GestureFrameAsWritten(v, size, centroid, pan, zoom);
            w.view == r.view.(offsetX := w.view.offsetX) && (w.scrolled.Some? <==> r.scrolled.Some?)
  {
    var target := PinchScale(v.scale, zoom);
    MaxOffsetNonNegative(size.width, target);
    var maxX := MaxOffset(size.width, target);
    var x := Clamp(FocalPinchX(v, size, centroid, pan, target), -maxX, maxX);
    var y := PinchY(v, size, centroid, pan, target);
    var scaleChange := target / v.scale;
    UnitRatio(target, v.scale);
    Frame(View(target, x, VerticalOverflow(size.height, target), y, v.targetScroll),
          if scaleChange != 1.0 then Some(FocalScroll(v.scale, target, centroid.y)) else None)
  }

  /** The corrected frame keeps the content point under the centroid under
      it vertically, wherever the list is scrolled, and horizontally, moved
      by the pan, whenever the horizontal bound allows it. */
  lemma GestureFrameKeepsFocalPoint(v: View, size: IntSize, centroid: Offset, pan: Offset, zoom: real, scroll: real)
    requires InRange(v) && v.overflow == VerticalOverflow(size.height, v.scale)
    ensures var r := GestureFrame(v, size, centroid, pan, zoom);
            var y := ListUnder(size.height, v.scale, v.overflow, scroll, centroid.y);
            && (r.scrolled.Some? ==> ListDrawn(size.height, r.view.scale, r.view.overflow, scroll + r.scrolled.value, y) == centroid.y)
            && (Abs(FocalPinchX(v, size, centroid, pan, r.view.scale)) <= MaxOffset(size.width, r.view.scale) ==>
                  var p := Half(size.width) as real;
                  Drawn(p, r.view.scale, r.view.offsetX, Under(p, v.scale, v.offsetX, centroid.x)) == centroid.x + pan.x)
  {
    var r := GestureFrame(v, size, centroid, pan, zoom);
    if r.scrolled.Some? {
      FocalScrollKeepsFocalPoint(size.height, v.scale, r.view.scale, scroll, r.scrolled.value, centroid.y);
    }
  }

  /** A frame with no zoom, no pan and a translation already within bounds
      changes nothing and scrolls nothing. */
  lemma StillFrameIsIdle(v: View, size: IntSize, centroid: Offset)
    requires InRange(v) && Consistent(v, size)
    requires Abs(v.offsetY) <= MaxOffset(size.height, v.scale)
    ensures GestureFrame(v, size, centroid, Offset(0.0, 0.0), 1.0) == Frame(v, None)
  {
    assert PinchScale(v.scale, 1.0) == v.scale;
    assert v.scale / v.scale == 1.0;
  }

  /** The scale a double tap animates to: back to the minimum from any zoom,
      otherwise to twice the size. */
  function DoubleTapScale(scale: real): (s: real)
    ensures MinScale <= s <= MaxScale
    ensures s == MinScale || s == DoubleTapMaxScale
    ensures s == MinScale <==> scale > MinScale
  {
    if scale > MinScale then MinScale else DoubleTapMaxScale
  }

  /** `onDoubleTap` as the source writes it. Zooming in centres the tapped
      point and scrolls it towards the middle plus the new padding; zooming
      out resets the translation and scrolls back by the opposite of the
      remembered scroll. The pinch handler's `offsetY` is not touched. */
  function DoubleTapAsWritten(v: View, size: IntSize, tap: Offset): (r: Frame)
    requires InRange(v)
    ensures InRange(r.view) && r.view.scale == DoubleTapScale(v.scale)
    ensures r.view.overflow == VerticalOverflow(size.height, r.view.scale)
    ensures r.view.scale == MinScale ==> r.view.offsetX == 0.0 && r.view.targetScroll == -v.targetScroll
    ensures r.view.scale == DoubleTapMaxScale ==>
              && r.view.offsetX == -((tap.x - Half(size.width) as real) * DoubleTapMaxScale)
              && r.view.targetScroll == (tap.y - Half(size.height) as real) + r.view.overflow
    ensures r.scrolled == Some(r.view.targetScroll) && r.view.offsetY == v.offsetY
  {
    var target := DoubleTapScale(v.scale);
    var overflow := VerticalOverflow(size.height, target);
    var x := if target == MinScale then 0.0 else -((tap.x - Half(size.width) as real) * target);
    var scroll := if target == MinScale then -v.targetScroll else (tap.y - Half(size.height) as real) + overflow;
    Frame(View(target, x, overflow, v.offsetY, scroll), Some(scroll))
  }

  /** Zooming in from the unzoomed view draws the tapped content point at
      the view's horizontal centre and, through the list's scroll, at its
      vertical middle (half a pixel above it for an odd height, from the
      integer half). */
  lemma DoubleTapCentresTappedPoint(v: View, size: IntSize, tap: Offset, scroll: real)
    requires InRange(v) && Consistent(v, size) && v.scale == MinScale
    ensures var r := DoubleTapAsWritten(v, size, tap);
            var p := Half(size.width) as real;
            && Drawn(p, r.view.scale, r.view.offsetX, Under(p, v.scale, v.offsetX, tap.x)) == p
            && ListDrawn(size.height, r.view.scale, r.view.overflow, scroll + r.scrolled.value, ListUnder(size.height, v.scale, v.overflow, scroll, tap.y))
                 == 2.0 * Half(size.height) as real - size.height as real / 2.0
  {
    MaxOffsetNonNegative(size.width, MinScale);
    assert v.offsetX == 0.0;
    var r := DoubleTapAsWritten(v, size, tap);
    var y := ListUnder(size.height, v.scale, v.overflow, scroll, tap.y);
    ListDrawnClosedForm(size.height, MinScale, scroll, y);
    ListDrawnClosedForm(size.height, DoubleTapMaxScale, scroll + r.scrolled.value, y);
    OverflowClosedForm(size.height, DoubleTapMaxScale);
  }

  /** Zooming in on a tap at the right edge of a 100-pixel view translates
      the content by 100 pixels, twice what 2x allows: the right half of the
      view shows nothing. */
  lemma DoubleTapOverrunsBoundAsWritten()
    ensures var size := IntSize(100, 100);
            var r := DoubleTapAsWritten(Initial, size, Offset(100.0, 50.0));
            && r.view.scale == 2.0
            && r.view.offsetX == -100.0
            && MaxOffset(size.width, r.view.scale) == 50.0
            && !Consistent(r.view, size)
  {
  }

  /** `onDoubleTap` with the zoom-in translation clamped to the bound of the
      doubled scale. The rest of the model uses this definition. */
  function DoubleTap(v: View, size: IntSize, tap: Offset): (r: Frame)
    requires InRange(v)
    ensures InRange(r.view) && Consistent(r.view, size)
    ensures r.view.scale == DoubleTapScale(v.scale)
    ensures r.view.scale == MinScale ==> r.view.offsetX == 0.0 && r.view.targetScroll == -v.targetScroll
    ensures r.scrolled == Some(r.view.targetScroll) && r.view.offsetY == v.offsetY
    ensures var w := DoubleTapAsWritten(v, size, tap);
            && r.view == w.view.(offsetX := r.view.offsetX)
            && (Abs(w.view.offsetX) <= MaxOffset(size.width, w.view.scale) ==> r == w)
  {
    var target := DoubleTapScale(v.scale);
    MaxOffsetNonNegative(size.width, target);
    var overflow := VerticalOverflow(size.height, target);
    var maxX := MaxOffset(size.width, target);
    var x := if target == MinScale then 0.0 else Clamp(-((tap.x - Half(size.width) as real) * target), -maxX, maxX);
    var scroll := if target == MinScale then -v.targetScroll else (tap.y - Half(size.height) as real) + overflow;
    Frame(View(target, x, overflow, v.offsetY, scroll), Some(scroll))
  }

  /** Two double taps from the unzoomed view come back to it: the scale is
      the minimum again, the translation and padding are zero, and the two
      scrolls cancel. */
  lemma DoubleTapTwiceRestores(v: View, size: IntSize, first: Offset, second: Offset)
    requires InRange(v) && v.scale == MinScale
    ensures var a := DoubleTap(v, size, first);
            var b := DoubleTap(a.view, size, second);
            && a.view.scale == DoubleTapMaxScale
            && b.view.scale == MinScale && b.view.offsetX == 0.0 && b.view.overflow == 0.0
            && a.scrolled.value + b.scrolled.value == 0.0
            && b.view.offsetY == v.offsetY
  {
    var a := DoubleTap(v, size, first);
    VerticalOverflowBounds(size.height, MinScale, MinScale);
  }

  /** What the user can do to the viewer. */
  datatype Input = Pinch(centroid: Offset, pan: Offset, zoom: real) | Tap(at: Offset)

  function Handle(v: View, size: IntSize, i: Input): (r: Frame)
    requires InRange(v)
    ensures InRange(r.view) && Consistent(r.view, size)
  {
    match i
    case Pinch(c, p, z) => GestureFrame(v, size, c, p, z)
    case Tap(t) => DoubleTap(v, size, t)
  }

  /** Replaying any sequence of pinch frames and double taps, one after the
      other, keeps the scale in range and the content's edge out of view. */
  function Replay(v: View, size: IntSize, inputs: seq<Input>): (r: View)
    requires InRange(v)
    ensures InRange(r) && (|inputs| > 0 || Consistent(v, size) ==> Consistent(r, size))
    decreases |inputs|
  {
    if |inputs| == 0 then v
    else Replay(Handle(v, size, inputs[0]).view, size, inputs[1..])
  }

  /** A pinch frame or a double tap, as the source writes each handler. */
  function HandleAsWritten(v: View, size: IntSize, i: Input): (r: Frame)
    requires InRange(v)
    ensures InRange(r.view) && r.view.overflow == VerticalOverflow(size.height, r.view.scale)
  {
    match i
    case Pinch(c, p, z) => GestureFrameAsWritten(v, size, c, p, z)
    case Tap(t) => DoubleTapAsWritten(v, size, t)
  }

  /** Replaying inputs through the handlers as written: the scale stays in
      range and the padding matches it, although the horizontal offset may
      leave its bound. */
  function ReplayAsWritten(v: View, size: IntSize, inputs: seq<Input>): (r: View)
    requires InRange(v)
    ensures InRange(r)
    ensures |inputs| > 0 || v.overflow == VerticalOverflow(size.height, v.scale) ==> r.overflow == VerticalOverflow(size.height, r.scale)
    decreases |inputs|
  {
    if |inputs| == 0 then v
    else ReplayAsWritten(HandleAsWritten(v, size, inputs[0]).view, size, inputs[1..])
  }

  /** Two views that differ at most in the horizontal offset are handled
      alike, by the handlers as written and as corrected, in everything but
      that offset and the amount a pinch scrolls the list: both scroll on
      the same frames, and a double tap scrolls by the same amount. */
  lemma HandlersAgreeOffOffsetX(v: View, w: View, size: IntSize, i: Input)
    requires InRange(v) && w == v.(offsetX := w.offsetX)
    ensures var a := HandleAsWritten(v, size, i);
            var b := Handle(w, size, i);
            && (a.scrolled.Some? <==> b.scrolled.Some?) && (i.Tap? ==> a.scrolled == b.scrolled)
            && a.view == b.view.(offsetX := a.view.offsetX)
  {
    match i
    case Pinch(c, p, z) => PinchAgreesOffOffsetX(v, w, size, c, p, z);
    case Tap(t) =>
  }

  lemma PinchAgreesOffOffsetX(v: View, w: View, size: IntSize, c: Offset, p: Offset, z: real)
    requires InRange(v) && w == v.(offsetX := w.offsetX)
    ensures var a := GestureFrameAsWritten(v, size, c, p, z);
            var b := GestureFrame(w, size, c, p, z);
            (a.scrolled.Some? <==> b.scrolled.Some?) && a.view == b.view.(offsetX := a.view.offsetX)
  {
    var t := PinchScale(v.scale, z);
    assert PinchYTarget(v, size, c, p, t) == PinchYTarget(w, size, c, p, t);
    var a := GestureFrameAsWritten(v, size, c, p, z);
    var aw := GestureFrameAsWritten(w, size, c, p, z);
    assert a.view.offsetY == aw.view.offsetY;
    assert a.scrolled == aw.scrolled;
  }

  /** The corrections change nothing but the horizontal offset: over any
      sequence of inputs, the scale, padding, vertical offset and scroll
      target of the replay as written are those of the corrected replay. */
  lemma {:induction false} CorrectedReplayOnlyMovesOffsetX(v: View, w: View, size: IntSize, inputs: seq<Input>)
    requires InRange(v) && w == v.(offsetX := w.offsetX)
    ensures ReplayAsWritten(v, size, inputs) == Replay(w, size, inputs).(offsetX := ReplayAsWritten(v, size, inputs).offsetX)
    decreases |inputs|
  {
    if |inputs| > 0 {
      HandlersAgreeOffOffsetX(v, w, size, inputs[0]);
      CorrectedReplayOnlyMovesOffsetX(HandleAsWritten(v, size, inputs[0]).view, Handle(w, size, inputs[0]).view, size, inputs[1..]);
    }
  }
}
