/** The transform detector behind the viewer's pinch handler
    (`detectTransformGesturesWithoutConsume`): within one gesture it
    accumulates zoom, rotation and pan until one of them moves further than
    the touch slop, and from then on reports every frame that changes
    something. Float values are modelled as reals; the pan distance is
    compared through its square, which is what `getDistance() > touchSlop`
    decides for reals. */
module TouchSlop {
  import opened Results
  import Viewport

  /** `PI.toFloat()`: the single-precision value nearest to pi, written out exactly. */
  const PiFloat: real := 3.1415927410125732421875

  /** What one pointer event contributes, as the detector's helper
      functions compute it from the pointers. */
  datatype Event = Event(
    zoomChange: real,
    rotationChange: real,
    panChange: Viewport.Offset,
    centroidSize: real,
    centroid: Viewport.Offset,
    anyPressed: bool)

  /** The loop's local variables. */
  datatype Slop = Slop(zoom: real, rotation: real, pan: Viewport.Offset, pastTouchSlop: bool, lockedToPanZoom: bool)

  /** The arguments of one `onGesture` call. */
  datatype Notice = Notice(centroid: Viewport.Offset, pan: Viewport.Offset, zoom: real, rotation: real)

  const Start: Slop := Slop(1.0, 0.0, Viewport.Offset(0.0, 0.0), false, false)

  function Add(a: Viewport.Offset, b: Viewport.Offset): Viewport.Offset {
    Viewport.Offset(a.x + b.x, a.y + b.y)
  }

  /** `pan.getDistance() > touchSlop`, without the square root. */
  predicate PanBeyond(pan: Viewport.Offset, touchSlop: real) {
    touchSlop < 0.0 || pan.x * pan.x + pan.y * pan.y > touchSlop * touchSlop
  }

  function RotationMotion(rotation: real, centroidSize: real): real {
    Viewport.Abs(rotation * PiFloat * centroidSize / 180.0)
  }

  predicate BeyondSlop(zoom: real, rotation: real, pan: Viewport.Offset, centroidSize: real, touchSlop: real) {
    || Viewport.Abs(1.0 - zoom) * centroidSize > touchSlop
    || RotationMotion(rotation, centroidSize) > touchSlop
    || PanBeyond(pan, touchSlop)
  }

  /** One iteration of the `do ... while` body. */
  function Step(s: Slop, e: Event, touchSlop: real, panZoomLock: bool): (r: (Slop, Option<Notice>))
    ensures s.pastTouchSlop ==> r.0 == s
    ensures !s.pastTouchSlop ==>
              && r.0.zoom == s.zoom * e.zoomChange
              && r.0.rotation == s.rotation + e.rotationChange
              && r.0.pan == Add(s.pan, e.panChange)
    ensures r.0.lockedToPanZoom ==> s.lockedToPanZoom || panZoomLock
    ensures r.1.Some? <==> r.0.pastTouchSlop && ((!r.0.lockedToPanZoom && e.rotationChange != 0.0) || e.zoomChange != 1.0 || e.panChange != Viewport.Offset(0.0, 0.0))
    ensures r.1.Some? ==> r.1.value.centroid == e.centroid && r.1.value.pan == e.panChange && r.1.value.zoom == e.zoomChange
    ensures r.1.Some? ==> r.1.value.rotation == (if r.0.lockedToPanZoom then 0.0 else e.rotationChange)
  {
    var s1 :=
      if s.pastTouchSlop then s
      else
        var zoom := s.zoom * e.zoomChange;
        var rotation := s.rotation + e.rotationChange;
        var pan := Add(s.pan, e.panChange);
        if BeyondSlop(zoom, rotation, pan, e.centroidSize, touchSlop) then
          Slop(zoom, rotation, pan, true, panZoomLock && RotationMotion(rotation, e.centroidSize) < touchSlop)
        else
          Slop(zoom, rotation, pan, false, s.lockedToPanZoom);
    var effectiveRotation := if s1.lockedToPanZoom then 0.0 else e.rotationChange;
    if s1.pastTouchSlop && (effectiveRotation != 0.0 || e.zoomChange != 1.0 || e.panChange != Viewport.Offset(0.0, 0.0)) then
      (s1, Some(Notice(e.centroid, e.panChange, e.zoomChange, effectiveRotation)))
    else
      (s1, None)
  }

  /** Before the slop is crossed, an event crosses it exactly when the
      accumulated zoom, rotation or pan, weighted by the pointers' spread,
      moves further than the slop. */
  lemma StepCrossesSlop(s: Slop, e: Event, touchSlop: real, panZoomLock: bool)
    requires !s.pastTouchSlop
    ensures var r := Step(s, e, touchSlop, panZoomLock).0;
            r.pastTouchSlop <==> BeyondSlop(s.zoom * e.zoomChange, s.rotation + e.rotationChange, Add(s.pan, e.panChange), e.centroidSize, touchSlop)
  {
  }

  /** The state after processing every event of `events` in order, whatever
      their pressed flags. */
  function Fold(s: Slop, events: seq<Event>, touchSlop: real, panZoomLock: bool): Slop
    decreases |events|
  {
    if |events| == 0 then s else Fold(Step(s, events[0], touchSlop, panZoomLock).0, events[1..], touchSlop, panZoomLock)
  }

  function ZoomProduct(events: seq<Event>): real
    decreases |events|
  {
    if |events| == 0 then 1.0 else ZoomProduct(events[..|events| - 1]) * events[|events| - 1].zoomChange
  }

  function RotationSum(events: seq<Event>): real
    decreases |events|
  {
    if |events| == 0 then 0.0 else RotationSum(events[..|events| - 1]) + events[|events| - 1].rotationChange
  }

  function PanSum(events: seq<Event>): Viewport.Offset
    decreases |events|
  {
    if |events| == 0 then Viewport.Offset(0.0, 0.0) else Add(PanSum(events[..|events| - 1]), events[|events| - 1].panChange)
  }

  lemma {:induction false} FoldAppend(s: Slop, events: seq<Event>, e: Event, touchSlop: real, panZoomLock: bool)
    ensures Fold(s, events + [e], touchSlop, panZoomLock) == Step(Fold(s, events, touchSlop, panZoomLock), e, touchSlop, panZoomLock).0
    decreases |events|
  {
    if |events| > 0 {
      assert (events + [e])[1..] == events[1..] + [e];
      FoldAppend(Step(s, events[0], touchSlop, panZoomLock).0, events[1..], e, touchSlop, panZoomLock);
    }
  }

  /** Once past the slop, the flag stays set and the accumulators freeze. */
  lemma {:induction false} PastSlopIsSticky(s: Slop, events: seq<Event>, touchSlop: real, panZoomLock: bool)
    requires s.pastTouchSlop
    ensures Fold(s, events, touchSlop, panZoomLock) == s
    decreases |events|
  {
    if |events| > 0 {
      PastSlopIsSticky(s, events[1..], touchSlop, panZoomLock);
    }
  }

  /** While the slop has not been crossed, the accumulated zoom is the
      product of the zoom changes seen so far. */
  lemma {:induction false} ZoomBeforeSlop(events: seq<Event>, touchSlop: real, panZoomLock: bool)
    requires !Fold(Start, events, touchSlop, panZoomLock).pastTouchSlop
    ensures Fold(Start, events, touchSlop, panZoomLock).zoom == ZoomProduct(events)
    decreases |events|
  {
    if |events| > 0 {
      FoldLast(Start, events, touchSlop, panZoomLock);
      ZoomBeforeSlop(events[..|events| - 1], touchSlop, panZoomLock);
    }
  }

  /** While the slop has not been crossed, the accumulated rotation is the
      sum of the rotation changes seen so far. */
  lemma {:induction false} RotationBeforeSlop(events: seq<Event>, touchSlop: real, panZoomLock: bool)
    requires !Fold(Start, events, touchSlop, panZoomLock).pastTouchSlop
    ensures Fold(Start, events, touchSlop, panZoomLock).rotation == RotationSum(events)
    decreases |events|
  {
    if |events| > 0 {
      FoldLast(Start, events, touchSlop, panZoomLock);
      RotationBeforeSlop(events[..|events| - 1], touchSlop, panZoomLock);
    }
  }

  /** While the slop has not been crossed, the accumulated pan is the sum
      of the pan changes seen so far, and nothing is locked. */
  lemma {:induction false} PanBeforeSlop(events: seq<Event>, touchSlop: real, panZoomLock: bool)
    requires !Fold(Start, events, touchSlop, panZoomLock).pastTouchSlop
    ensures Fold(Start, events, touchSlop, panZoomLock).pan == PanSum(events)
    ensures !Fold(Start, events, touchSlop, panZoomLock).lockedToPanZoom
    decreases |events|
  {
    if |events| > 0 {
      FoldLast(Start, events, touchSlop, panZoomLock);
      PanBeforeSlop(events[..|events| - 1], touchSlop, panZoomLock);
    }
  }

  /** The last event, in terms of the state before it. */
  lemma FoldLast(s: Slop, events: seq<Event>, touchSlop: real, panZoomLock: bool)
    requires |events| > 0
    ensures var a := Fold(s, events[..|events| - 1], touchSlop, panZoomLock);
            var b := Fold(s, events, touchSlop, panZoomLock);
            var e := events[|events| - 1];
            && (a.pastTouchSlop ==> b == a)
            && (!b.pastTouchSlop ==> !a.pastTouchSlop && b.lockedToPanZoom == a.lockedToPanZoom)
            && (!a.pastTouchSlop ==>
                  && b.zoom == a.zoom * e.zoomChange
                  && b.rotation == a.rotation + e.rotationChange
                  && b.pan == Add(a.pan, e.panChange))
  {
    var init := events[..|events| - 1];
    assert events == init + [events[|events| - 1]];
    FoldAppend(s, init, events[|events| - 1], touchSlop, panZoomLock);
  }

  /** The gesture: events are processed until the first one with no pointer
      pressed, that one included. Returns the notices in order and how many
      events were consumed. */
  function Run(s: Slop, events: seq<Event>, touchSlop: real, panZoomLock: bool): (r: (seq<Notice>, nat))
    ensures r.1 <= |events|
    ensures |events| > 0 ==> r.1 >= 1
    ensures forall i :: 0 <= i < r.1 - 1 ==> events[i].anyPressed
    ensures r.1 == |events| || !events[r.1 - 1].anyPressed
    ensures |r.0| <= r.1
    decreases |events|
  {
    if |events| == 0 then ([], 0)
    else
      var (s1, notice) := Step(s, events[0], touchSlop, panZoomLock);
      var here := if notice.Some? then [notice.value] else [];
      if !events[0].anyPressed then (here, 1)
      else
        var (rest, n) := Run(s1, events[1..], touchSlop, panZoomLock);
        (here + rest, n + 1)
  }

  /** Without the pan-zoom lock (the viewer's setting) the detector never
      locks, so every notice carries its event's own rotation change. */
  lemma {:induction false} NoLockNeverLocks(s: Slop, events: seq<Event>, touchSlop: real)
    requires !s.lockedToPanZoom
    ensures !Fold(s, events, touchSlop, false).lockedToPanZoom
    decreases |events|
  {
    if |events| > 0 {
      NoLockNeverLocks(Step(s, events[0], touchSlop, false).0, events[1..], touchSlop);
    }
  }

  /** A gesture that never leaves the slop notifies nothing. */
  lemma {:induction false} WithinSlopIsSilent(events: seq<Event>, touchSlop: real, panZoomLock: bool)
    requires !Fold(Start, events, touchSlop, panZoomLock).pastTouchSlop
    ensures Run(Start, events, touchSlop, panZoomLock).0 == []
  {
    RunSilentPrefix(Start, events, touchSlop, panZoomLock);
  }

  lemma {:induction false} RunSilentPrefix(s: Slop, events: seq<Event>, touchSlop: real, panZoomLock: bool)
    requires !Fold(s, events, touchSlop, panZoomLock).pastTouchSlop
    ensures Run(s, events, touchSlop, panZoomLock).0 == []
    decreases |events|
  {
    if |events| > 0 {
      var s1 := Step(s, events[0], touchSlop, panZoomLock).0;
      if s1.pastTouchSlop {
        PastSlopIsSticky(s1, events[1..], touchSlop, panZoomLock);
        assert false;
      }
      if events[0].anyPressed {
        RunSilentPrefix(s1, events[1..], touchSlop, panZoomLock);
      }
    }
  }

  /** Feeding a gesture's notices to the pinch handler, one frame each. */
  function Drive(v: Viewport.View, size: Viewport.IntSize, notices: seq<Notice>): (r: Viewport.View)
    requires Viewport.InRange(v) && Viewport.Consistent(v, size)
    ensures Viewport.InRange(r) && Viewport.Consistent(r, size)
    decreases |notices|
  {
    if |notices| == 0 then v
    else
      var n := notices[0];
      Drive(Viewport.GestureFrame(v, size, n.centroid, n.pan, n.zoom).view, size, notices[1..])
  }
}
