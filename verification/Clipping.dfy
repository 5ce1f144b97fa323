/** Liang-Barsky clipping of a segment against a longitude/latitude rectangle.
    Coordinates are exact reals; floating-point error is not modelled. */
module Clipping {
  import opened Common

  datatype Point = Point(x: real, y: real)

  datatype Segment = Segment(start: Point, end: Point)

  datatype Bounds = Bounds(west: real, south: real, east: real, north: real)

  /** The half-plane of all parameters t with t * direction <= distance. */
  datatype HalfPlane = HalfPlane(direction: real, distance: real)

  datatype Window = Window(lower: real, upper: real)

  predicate Inside(p: Point, b: Bounds) {
    b.west <= p.x <= b.east && b.south <= p.y <= b.north
  }

  function At(s: Segment, t: real): Point {
    Point(s.start.x + t * (s.end.x - s.start.x), s.start.y + t * (s.end.y - s.start.y))
  }

  function Reversed(s: Segment): Segment {
    Segment(s.end, s.start)
  }

  function Intersection(a: Bounds, b: Bounds): Bounds {
    Bounds(Max(a.west, b.west), Max(a.south, b.south), Min(a.east, b.east), Min(a.north, b.north))
  }

  function Max(a: real, b: real): real { if a >= b then a else b }

  function Min(a: real, b: real): real { if a <= b then a else b }

  /** West, east, south and north edge, in the order the loop visits them. */
  function Edges(s: Segment, b: Bounds): seq<HalfPlane> {
    var dx := s.end.x - s.start.x;
    var dy := s.end.y - s.start.y;
    [HalfPlane(-dx, s.start.x - b.west), HalfPlane(dx, b.east - s.start.x),
     HalfPlane(-dy, s.start.y - b.south), HalfPlane(dy, b.north - s.start.y)]
  }

  /** One pass of the loop body; None is the early return. */
  function Narrow(w: Window, h: HalfPlane): Option<Window> {
    if h.direction == 0.0 then
      if h.distance < 0.0 then None else Some(w)
    else
      var ratio := h.distance / h.direction;
      var n := if h.direction < 0.0 then Window(Max(w.lower, ratio), w.upper)
               else Window(w.lower, Min(w.upper, ratio));
      if n.lower > n.upper then None else Some(n)
  }

  function NarrowAll(w: Window, hs: seq<HalfPlane>): Option<Window>
    decreases |hs|
  {
    if hs == [] then Some(w)
    else match Narrow(w, hs[0])
      case None => None
      case Some(n) => NarrowAll(n, hs[1..])
  }

  function VisibleWindow(s: Segment, b: Bounds): Option<Window> {
    NarrowAll(Window(0.0, 1.0), Edges(s, b))
  }

  function Clip(s: Segment, b: Bounds): Option<Segment> {
    match VisibleWindow(s, b)
    case None => None
    case Some(w) => Some(Segment(At(s, w.lower), At(s, w.upper)))
  }

  /** The loop of `clip_segment`, early returns included. */
  method ClipSegment(s: Segment, b: Bounds) returns (r: Option<Segment>)
    ensures r == Clip(s, b)
  {
    var edges := Edges(s, b);
    var lower, upper := 0.0, 1.0;
    for i := 0 to |edges|
      invariant NarrowAll(Window(lower, upper), edges[i..]) == VisibleWindow(s, b)
    {
      assert edges[i..][1..] == edges[i+1..];
      var direction, distance := edges[i].direction, edges[i].distance;
      if direction == 0.0 {
        if distance < 0.0 {
          return None;
        }
        continue;
      }
      var ratio := distance / direction;
      if direction < 0.0 {
        lower := Max(lower, ratio);
      } else {
        upper := Min(upper, ratio);
      }
      if lower > upper {
        return None;
      }
    }
    return Some(Segment(At(s, lower), At(s, upper)));
  }

  // ----- exactness -----

  /** What clipping has to compute, with no reference to how: the parameters of the segment
      whose points lie in the rectangle. */
  ghost predicate IsVisibleWindow(s: Segment, b: Bounds, r: Option<Window>) {
    match r
    case None => forall t | 0.0 <= t <= 1.0 :: !Inside(At(s, t), b)
    case Some(w) =>
      && 0.0 <= w.lower <= w.upper <= 1.0
      && forall t | 0.0 <= t <= 1.0 :: Inside(At(s, t), b) <==> w.lower <= t <= w.upper
  }

  predicate Admits(h: HalfPlane, t: real) {
    t * h.direction <= h.distance
  }

  lemma AdmitsByRatio(h: HalfPlane, t: real)
    requires h.direction != 0.0
    ensures h.direction > 0.0 ==> (Admits(h, t) <==> t <= h.distance / h.direction)
    ensures h.direction < 0.0 ==> (Admits(h, t) <==> t >= h.distance / h.direction)
  {
  }

  /** Narrowing by a list of half-planes keeps exactly the parameters that all of them admit. */
  lemma {:induction false} NarrowAllExact(w: Window, hs: seq<HalfPlane>, t: real)
    requires w.lower <= w.upper
    ensures NarrowAll(w, hs).Some? ==>
              w.lower <= NarrowAll(w, hs).value.lower <= NarrowAll(w, hs).value.upper <= w.upper
    ensures (w.lower <= t <= w.upper && forall h | h in hs :: Admits(h, t))
       <==> (NarrowAll(w, hs).Some? && NarrowAll(w, hs).value.lower <= t <= NarrowAll(w, hs).value.upper)
    decreases |hs|
  {
    if hs != [] {
      var h := hs[0];
      if h.direction != 0.0 {
        AdmitsByRatio(h, t);
      }
      match Narrow(w, h)
      case None =>
        assert h in hs;
      case Some(n) =>
        NarrowAllExact(n, hs[1..], t);
    }
  }

  lemma AxisAdmits(c: real, d: real, lo: real, hi: real, t: real)
    ensures (lo <= c + t * d <= hi) <==> Admits(HalfPlane(-d, c - lo), t) && Admits(HalfPlane(d, hi - c), t)
  {
  }

  lemma InsideIsAdmitted(s: Segment, b: Bounds, t: real)
    ensures Inside(At(s, t), b) <==> forall h | h in Edges(s, b) :: Admits(h, t)
  {
    var dx, dy := s.end.x - s.start.x, s.end.y - s.start.y;
    AxisAdmits(s.start.x, dx, b.west, b.east, t);
    AxisAdmits(s.start.y, dy, b.south, b.north, t);
    assert Inside(At(s, t), b) <==>
      b.west <= s.start.x + t * dx <= b.east && b.south <= s.start.y + t * dy <= b.north;
  }

  /** The four-edge loop computes exactly the visible part of every segment, degenerate segments and
      empty rectangles included. */
  lemma ClipExact(s: Segment, b: Bounds)
    ensures IsVisibleWindow(s, b, VisibleWindow(s, b))
  {
    NarrowAllExact(Window(0.0, 1.0), Edges(s, b), 0.0);
    forall t | 0.0 <= t <= 1.0
      ensures Inside(At(s, t), b) <==>
              VisibleWindow(s, b).Some? && VisibleWindow(s, b).value.lower <= t <= VisibleWindow(s, b).value.upper
    {
      NarrowAllExact(Window(0.0, 1.0), Edges(s, b), t);
      InsideIsAdmitted(s, b, t);
    }
  }

  /** Exactness determines the answer. */
  lemma VisibleWindowUnique(s: Segment, b: Bounds, r: Option<Window>)
    requires IsVisibleWindow(s, b, r)
    ensures r == VisibleWindow(s, b)
  {
    ClipExact(s, b);
    var v := VisibleWindow(s, b);
    if v.Some? {
      assert Inside(At(s, v.value.lower), b) && Inside(At(s, v.value.upper), b);
    }
    if r.Some? {
      assert Inside(At(s, r.value.lower), b) && Inside(At(s, r.value.upper), b);
    }
  }

  // ----- consequences -----

  /** A segment whose two ends are inside is returned unchanged (rectangles are convex). */
  lemma InsideUnclipped(s: Segment, b: Bounds)
    requires Inside(s.start, b) && Inside(s.end, b)
    ensures Clip(s, b) == Some(s)
  {
    ClipExact(s, b);
    assert At(s, 0.0) == s.start && At(s, 1.0) == s.end;
  }

  lemma ClipInside(s: Segment, b: Bounds)
    requires Clip(s, b).Some?
    ensures Inside(Clip(s, b).value.start, b) && Inside(Clip(s, b).value.end, b)
  {
    ClipExact(s, b);
  }

  lemma ClipIdempotent(s: Segment, b: Bounds)
    requires Clip(s, b).Some?
    ensures Clip(Clip(s, b).value, b) == Clip(s, b)
  {
    ClipInside(s, b);
    InsideUnclipped(Clip(s, b).value, b);
  }

  lemma AtReversed(s: Segment, t: real)
    ensures At(Reversed(s), t) == At(s, 1.0 - t)
  {
  }

  /** Clipping commutes with reversing the segment. */
  lemma ClipReversed(s: Segment, b: Bounds)
    ensures Clip(Reversed(s), b) ==
            match Clip(s, b) case None => None case Some(c) => Some(Reversed(c))
  {
    ClipExact(s, b);
    var v := VisibleWindow(s, b);
    var r := match v case None => None case Some(w) => Some(Window(1.0 - w.upper, 1.0 - w.lower));
    forall t | 0.0 <= t <= 1.0
      ensures Inside(At(Reversed(s), t), b) <==> r.Some? && r.value.lower <= t <= r.value.upper
    {
      AtReversed(s, t);
    }
    VisibleWindowUnique(Reversed(s), b, r);
    if v.Some? {
      AtReversed(s, r.value.lower);
      AtReversed(s, r.value.upper);
    }
  }

  /** The parameter on the whole segment of the point at u on the part that w selects. */
  function Along(w: Window, u: real): real {
    w.lower + u * (w.upper - w.lower)
  }

  /** A point of a sub-segment is the point of the segment at the composed parameter. */
  lemma AtSubsegment(s: Segment, w: Window, u: real)
    ensures At(Segment(At(s, w.lower), At(s, w.upper)), u) == At(s, Along(w, u))
  {
    AffineCompose(s.start.x, s.end.x - s.start.x, w, u);
    AffineCompose(s.start.y, s.end.y - s.start.y, w, u);
  }

  lemma AffineCompose(c: real, d: real, w: Window, u: real)
    ensures (c + w.lower * d) + u * ((c + w.upper * d) - (c + w.lower * d))
         == c + (w.lower + u * (w.upper - w.lower)) * d
  {
  }

  /** The window of a sub-segment of positive length, stretched back onto the whole segment. */
  function Stretch(w: Window, v: Option<Window>): Option<Window> {
    match v
    case None => None
    case Some(x) => Some(Window(Along(w, x.lower), Along(w, x.upper)))
  }

  lemma AlongOrder(w: Window, a: real, b: real)
    requires w.lower < w.upper
    ensures a <= b <==> Along(w, a) <= Along(w, b)
  {
  }

  lemma AlongInverse(w: Window, t: real) returns (u: real)
    requires w.lower < w.upper
    ensures Along(w, u) == t
  {
    u := (t - w.lower) / (w.upper - w.lower);
  }

  lemma SubsegmentPoint(s: Segment, a: Bounds, b: Bounds, w: Window, v: Option<Window>, t: real)
    requires 0.0 <= t <= 1.0 && w.lower < w.upper
    requires Inside(At(s, t), a) <==> w.lower <= t <= w.upper
    requires IsVisibleWindow(Segment(At(s, w.lower), At(s, w.upper)), b, v)
    ensures Inside(At(s, t), Intersection(a, b)) <==>
            Stretch(w, v).Some? && Stretch(w, v).value.lower <= t <= Stretch(w, v).value.upper
  {
    var u := AlongInverse(w, t);
    AtSubsegment(s, w, u);
    AlongOrder(w, 0.0, u);
    AlongOrder(w, u, 1.0);
    if v.Some? {
      AlongOrder(w, v.value.lower, u);
      AlongOrder(w, u, v.value.upper);
    }
  }

  /** The visible window for a smaller rectangle, read off from clipping the already clipped segment. */
  lemma SubsegmentWindow(s: Segment, a: Bounds, b: Bounds, w: Window)
    requires VisibleWindow(s, a) == Some(w) && w.lower < w.upper
    ensures VisibleWindow(s, Intersection(a, b)) ==
            Stretch(w, VisibleWindow(Segment(At(s, w.lower), At(s, w.upper)), b))
  {
    var c := Segment(At(s, w.lower), At(s, w.upper));
    var v := VisibleWindow(c, b);
    ClipExact(s, a);
    ClipExact(c, b);
    var r := Stretch(w, v);
    if v.Some? {
      AlongOrder(w, 0.0, v.value.lower);
      AlongOrder(w, v.value.lower, v.value.upper);
      AlongOrder(w, v.value.upper, 1.0);
    }
    forall t | 0.0 <= t <= 1.0
      ensures Inside(At(s, t), Intersection(a, b)) <==> r.Some? && r.value.lower <= t <= r.value.upper
    {
      SubsegmentPoint(s, a, b, w, v, t);
    }
    VisibleWindowUnique(s, Intersection(a, b), r);
  }

  /** Clipping to one rectangle and then to another is clipping to their intersection. */
  lemma ClipIntersection(s: Segment, a: Bounds, b: Bounds)
    ensures Clip(s, Intersection(a, b)) ==
            match Clip(s, a) case None => None case Some(c) => Clip(c, b)
  {
    ClipExact(s, a);
    match VisibleWindow(s, a)
    case None =>
      VisibleWindowUnique(s, Intersection(a, b), None);
    case Some(w) =>
      var c := Segment(At(s, w.lower), At(s, w.upper));
      if w.lower < w.upper {
        SubsegmentWindow(s, a, b, w);
        var v := VisibleWindow(c, b);
        if v.Some? {
          AtSubsegment(s, w, v.value.lower);
          AtSubsegment(s, w, v.value.upper);
        }
      } else {
        PointClip(s, a, b, w);
      }
  }

  /** The case in which only one point of the segment is inside the first rectangle. */
  lemma PointClip(s: Segment, a: Bounds, b: Bounds, w: Window)
    requires VisibleWindow(s, a) == Some(w) && w.lower == w.upper
    ensures Clip(s, Intersection(a, b)) == Clip(Segment(At(s, w.lower), At(s, w.upper)), b)
  {
    var c := Segment(At(s, w.lower), At(s, w.upper));
    ClipExact(s, a);
    assert forall u :: At(c, u) == At(s, w.lower);
    if Inside(At(s, w.lower), b) {
      VisibleWindowUnique(s, Intersection(a, b), Some(w));
      InsideUnclipped(c, b);
    } else {
      VisibleWindowUnique(s, Intersection(a, b), None);
      VisibleWindowUnique(c, b, None);
    }
  }
}
