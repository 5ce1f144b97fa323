/** Stitching of clipped, rounded segments into polylines. */
module Stitching {
  import opened Common
  import opened Clipping

  type Polyline = seq<Point>

  // ----- rounding to five decimals, ties to even -----

  const GRID := 100000.0

  function RoundHalfEven(x: real): int {
    var n := x.Floor;
    var fraction := x - n as real;
    if fraction < 0.5 then n
    else if fraction > 0.5 then n + 1
    else if n % 2 == 0 then n else n + 1
  }

  function Round5(x: real): real {
    RoundHalfEven(x * GRID) as real / GRID
  }

  function RoundPoint(p: Point): Point {
    Point(Round5(p.x), Round5(p.y))
  }

  predicate OnGrid(x: real) {
    (x * GRID).Floor as real == x * GRID
  }

  predicate GridBounds(b: Bounds) {
    OnGrid(b.west) && OnGrid(b.south) && OnGrid(b.east) && OnGrid(b.north)
  }

  lemma RoundHalfEvenMonotone(x: real, y: real)
    requires x <= y
    ensures RoundHalfEven(x) <= RoundHalfEven(y)
  {
  }

  lemma Round5Monotone(x: real, y: real)
    requires x <= y
    ensures Round5(x) <= Round5(y)
  {
    RoundHalfEvenMonotone(x * GRID, y * GRID);
  }

  lemma Round5OnGrid(x: real)
    requires OnGrid(x)
    ensures Round5(x) == x
  {
  }

  function Distance(x: real, y: real): real {
    if x <= y then y - x else x - y
  }

  /** Rounding gives the nearest multiple of 0.00001, of two equally near ones the even multiple. */
  lemma Round5Nearest(x: real, m: int) returns (n: int)
    ensures Round5(x) == n as real / 100000.0 && Distance(Round5(x), x) <= 0.000005
    ensures Distance(Round5(x), x) <= Distance(m as real / 100000.0, x)
    ensures Distance(Round5(x), x) == Distance(m as real / 100000.0, x) && m != n ==> n % 2 == 0
  {
    n := RoundHalfEven(x * GRID);
    HalfEvenNearest(x * GRID, m);
    DistanceScaled(n, x);
    DistanceScaled(m, x);
    hide RoundHalfEven, Distance;
  }

  lemma HalfEvenNearest(y: real, m: int)
    ensures var n := RoundHalfEven(y);
      && Distance(n as real, y) <= 0.5 && Distance(n as real, y) <= Distance(m as real, y)
      && (Distance(n as real, y) == Distance(m as real, y) && m != n ==> n % 2 == 0)
  {
    var f := y.Floor;
    EvenOrNext(f);
    if m <= f {
      assert m == f || Distance(m as real, y) >= 1.0 + (y - f as real);
    } else {
      assert m == f + 1 || Distance(m as real, y) >= 1.0 + (f as real + 1.0 - y);
    }
  }

  lemma EvenOrNext(f: int)
    ensures f % 2 != 0 ==> (f + 1) % 2 == 0
  {
  }

  lemma DistanceScaled(n: int, x: real)
    ensures Distance(n as real / 100000.0, x) == Distance(n as real, x * 100000.0) / 100000.0
  {
  }

  /** Within 0.000005 in each coordinate. */
  predicate Near(p: Point, q: Point) {
    -0.000005 <= p.x - q.x <= 0.000005 && -0.000005 <= p.y - q.y <= 0.000005
  }

  lemma RoundPointNear(p: Point)
    ensures Near(RoundPoint(p), p)
  {
    var _ := Round5Nearest(p.x, 0);
    var _ := Round5Nearest(p.y, 0);
    hide Round5;
  }

  /** Rounding never moves a point out of a rectangle whose edges are multiples of 1e-5. */
  lemma RoundPointInside(p: Point, b: Bounds)
    requires GridBounds(b) && Inside(p, b)
    ensures Inside(RoundPoint(p), b)
  {
    Round5Monotone(b.west, p.x);
    Round5Monotone(p.x, b.east);
    Round5Monotone(b.south, p.y);
    Round5Monotone(p.y, b.north);
    Round5OnGrid(b.west);
    Round5OnGrid(b.east);
    Round5OnGrid(b.south);
    Round5OnGrid(b.north);
    hide Round5, OnGrid;
  }

  // ----- the accumulator -----

  datatype Stitch = Stitch(clipped: seq<Polyline>, current: Polyline)

  function Flushed(st: Stitch): seq<Polyline> {
    if |st.current| >= 2 then st.clipped + [st.current] else st.clipped
  }

  /** The effect of one input segment on the two accumulators. */
  function Step(st: Stitch, segment: Option<Segment>): Stitch {
    match segment
    case None => Stitch(Flushed(st), [])
    case Some(s) =>
      var start, end := RoundPoint(s.start), RoundPoint(s.end);
      if st.current != [] && st.current[|st.current| - 1] == start then
        if st.current[|st.current| - 1] != end then st.(current := st.current + [end]) else st
      else
        Stitch(Flushed(st), if start != end then [start, end] else [])
  }

  /** The accumulators after the first n vertices of a line. */
  function StitchPrefix(clipped: seq<Polyline>, line: Polyline, b: Bounds, n: nat): Stitch
    requires n <= |line|
  {
    if n <= 1 then Stitch(clipped, [])
    else Step(StitchPrefix(clipped, line, b, n - 1), Clip(Segment(line[n - 2], line[n - 1]), b))
  }

  function StitchLine(clipped: seq<Polyline>, line: Polyline, b: Bounds): seq<Polyline> {
    Flushed(StitchPrefix(clipped, line, b, |line|))
  }

  function StitchLines(lines: seq<Polyline>, b: Bounds): seq<Polyline> {
    if lines == [] then []
    else StitchLine(StitchLines(lines[..|lines| - 1], b), lines[|lines| - 1], b)
  }

  /** `clipped_lines`: two nested loops over one accumulator per level. */
  method ClippedLines(lines: seq<Polyline>, b: Bounds) returns (clipped: seq<Polyline>)
    ensures clipped == StitchLines(lines, b)
  {
    hide Clip, RoundPoint;
    clipped := [];
    for k := 0 to |lines|
      invariant clipped == StitchLines(lines[..k], b)
    {
      assert lines[..k+1][..k] == lines[..k];
      var line := lines[k];
      ghost var before := clipped;
      var current: Polyline := [];
      var index := 1;
      while index < |line|
        invariant 1 <= index && (|line| >= 1 ==> index <= |line|)
        invariant Stitch(clipped, current) == StitchPrefix(before, line, b, if index <= |line| then index else |line|)
      {
        var segment := ClipSegment(Segment(line[index - 1], line[index]), b);
        index := index + 1;
        if segment == None {
          if |current| >= 2 {
            clipped := clipped + [current];
          }
          current := [];
          continue;
        }
        var start, end := RoundPoint(segment.value.start), RoundPoint(segment.value.end);
        if current != [] && current[|current| - 1] == start {
          if current[|current| - 1] != end {
            current := current + [end];
          }
        } else {
          if |current| >= 2 {
            clipped := clipped + [current];
          }
          current := if start != end then [start, end] else [];
        }
      }
      if |current| >= 2 {
        clipped := clipped + [current];
      }
    }
    assert lines[..|lines|] == lines;
  }

  // ----- conservation of edges -----

  /** The consecutive-vertex edges of one polyline. */
  function EdgesOf(l: Polyline): seq<Segment> {
    if |l| < 2 then [] else EdgesOf(l[..|l| - 1]) + [Segment(l[|l| - 2], l[|l| - 1])]
  }

  function AllEdges(ls: seq<Polyline>): seq<Segment> {
    if ls == [] then [] else AllEdges(ls[..|ls| - 1]) + EdgesOf(ls[|ls| - 1])
  }

  /** The part of one clipped segment that has to survive: its rounded ends, dropped when they
      coincide. */
  function Piece(segment: Option<Segment>): seq<Segment> {
    match segment
    case None => []
    case Some(s) =>
      if RoundPoint(s.start) == RoundPoint(s.end) then [] else [Segment(RoundPoint(s.start), RoundPoint(s.end))]
  }

  function Pieces(line: Polyline, b: Bounds): seq<Segment> {
    if |line| < 2 then []
    else Pieces(line[..|line| - 1], b) + Piece(Clip(Segment(line[|line| - 2], line[|line| - 1]), b))
  }

  function AllPieces(lines: seq<Polyline>, b: Bounds): seq<Segment> {
    if lines == [] then [] else AllPieces(lines[..|lines| - 1], b) + Pieces(lines[|lines| - 1], b)
  }

  /** The edges of both accumulators. */
  function StitchEdges(st: Stitch): seq<Segment> {
    AllEdges(st.clipped) + EdgesOf(st.current)
  }

  predicate Proper(l: Polyline) {
    |l| >= 2 && forall i | 0 <= i < |l| - 1 :: l[i] != l[i + 1]
  }

  predicate AllProper(st: Stitch) {
    (forall l | l in st.clipped :: Proper(l)) && (st.current == [] || Proper(st.current))
  }

  /** Appending a vertex to the open polyline adds one edge. */
  lemma ExtendConserves(st: Stitch, end: Point)
    requires AllProper(st) && st.current != [] && st.current[|st.current| - 1] != end
    ensures AllProper(st.(current := st.current + [end]))
    ensures StitchEdges(st.(current := st.current + [end])) ==
            StitchEdges(st) + [Segment(st.current[|st.current| - 1], end)]
  {
  }

  /** Closing the open polyline and starting another adds the edges of the new one. */
  lemma RestartConserves(st: Stitch, next: Polyline)
    requires AllProper(st) && (next == [] || Proper(next))
    ensures AllProper(Stitch(Flushed(st), next))
    ensures StitchEdges(Stitch(Flushed(st), next)) == StitchEdges(st) + EdgesOf(next)
  {
  }

  lemma OneEdge(start: Point, end: Point)
    ensures EdgesOf([start, end]) == [Segment(start, end)]
  {
    assert [start, end][..1] == [start];
  }

  /** One step adds exactly the edge that has to survive, at the end. */
  lemma StepConserves(st: Stitch, segment: Option<Segment>)
    requires AllProper(st)
    ensures AllProper(Step(st, segment))
    ensures StitchEdges(Step(st, segment)) == StitchEdges(st) + Piece(segment)
  {
    hide RoundPoint, AllProper, StitchEdges;
    match segment
    case None =>
      RestartConserves(st, []);
    case Some(s) =>
      var start, end := RoundPoint(s.start), RoundPoint(s.end);
      if st.current != [] && st.current[|st.current| - 1] == start {
        if start != end {
          ExtendConserves(st, end);
        }
      } else if start != end {
        OneEdge(start, end);
        RestartConserves(st, [start, end]);
      } else {
        RestartConserves(st, []);
      }
  }

  lemma LastPiece(line: Polyline, b: Bounds, n: nat)
    requires 1 < n <= |line|
    ensures Pieces(line[..n], b) == Pieces(line[..n - 1], b) + Piece(Clip(Segment(line[n - 2], line[n - 1]), b))
  {
    assert line[..n][..n - 1] == line[..n - 1];
  }

  lemma {:induction false} PrefixConserves(clipped: seq<Polyline>, line: Polyline, b: Bounds, n: nat)
    requires n <= |line|
    requires forall l | l in clipped :: Proper(l)
    ensures AllProper(StitchPrefix(clipped, line, b, n))
    ensures StitchEdges(StitchPrefix(clipped, line, b, n)) == AllEdges(clipped) + Pieces(line[..n], b)
  {
    if n > 1 {
      hide Clip, Step, Piece, AllProper, StitchEdges, AllEdges;
      var st := StitchPrefix(clipped, line, b, n - 1);
      var segment := Clip(Segment(line[n - 2], line[n - 1]), b);
      PrefixConserves(clipped, line, b, n - 1);
      StepConserves(st, segment);
      LastPiece(line, b, n);
      hide Pieces, StitchPrefix;
      Associates(AllEdges(clipped), Pieces(line[..n - 1], b), Piece(segment));
    }
  }

  /** No visible edge is lost, duplicated, reordered or invented, and every output polyline has at
      least two vertices and no repeated neighbour. */
  lemma {:induction false} EdgesConserved(lines: seq<Polyline>, b: Bounds)
    ensures AllEdges(StitchLines(lines, b)) == AllPieces(lines, b)
    ensures forall l | l in StitchLines(lines, b) :: Proper(l)
  {
    if lines != [] {
      var k := |lines| - 1;
      EdgesConserved(lines[..k], b);
      var before := StitchLines(lines[..k], b);
      PrefixConserves(before, lines[k], b, |lines[k]|);
      assert lines[k][..|lines[k]|] == lines[k];
    }
  }

  // ----- every vertex stays in the rectangle -----

  predicate Within(l: Polyline, b: Bounds) {
    forall p | p in l :: Inside(p, b)
  }

  lemma {:induction false} PrefixWithin(clipped: seq<Polyline>, line: Polyline, b: Bounds, n: nat)
    requires n <= |line| && GridBounds(b)
    requires forall l | l in clipped :: Within(l, b)
    ensures var st := StitchPrefix(clipped, line, b, n);
      Within(st.current, b) && forall l | l in st.clipped :: Within(l, b)
  {
    if n > 1 {
      PrefixWithin(clipped, line, b, n - 1);
      var s := Segment(line[n - 2], line[n - 1]);
      if Clip(s, b).Some? {
        ClipInside(s, b);
        RoundPointInside(Clip(s, b).value.start, b);
        RoundPointInside(Clip(s, b).value.end, b);
      }
    }
  }

  lemma {:induction false} VerticesWithin(lines: seq<Polyline>, b: Bounds)
    requires GridBounds(b)
    ensures forall l | l in StitchLines(lines, b) :: Within(l, b)
  {
    if lines != [] {
      var k := |lines| - 1;
      VerticesWithin(lines[..k], b);
      PrefixWithin(StitchLines(lines[..k], b), lines[k], b, |lines[k]|);
    }
  }

  // ----- every vertex is a rounded end of a clipped segment -----

  /** v is one of the rounded ends of what is visible of the segment that ends at vertex i. */
  predicate EndOf(v: Point, line: Polyline, b: Bounds, i: nat)
    requires 0 < i < |line|
  {
    var visible := Clip(Segment(line[i - 1], line[i]), b);
    visible.Some? && (v == RoundPoint(visible.value.start) || v == RoundPoint(visible.value.end))
  }

  predicate FromLine(v: Point, line: Polyline, b: Bounds) {
    exists i: nat | 0 < i < |line| :: EndOf(v, line, b, i)
  }

  predicate FromLines(v: Point, lines: seq<Polyline>, b: Bounds) {
    exists line | line in lines :: FromLine(v, line, b)
  }

  lemma {:induction false} PrefixFromLine(clipped: seq<Polyline>, line: Polyline, b: Bounds, n: nat)
    requires n <= |line|
    ensures var st := StitchPrefix(clipped, line, b, n);
      && (forall v | v in st.current :: FromLine(v, line, b))
      && (forall l | l in st.clipped :: l in clipped || forall v | v in l :: FromLine(v, line, b))
  {
    hide Clip, RoundPoint;
    if n > 1 {
      PrefixFromLine(clipped, line, b, n - 1);
      var visible := Clip(Segment(line[n - 2], line[n - 1]), b);
      if visible.Some? {
        assert EndOf(RoundPoint(visible.value.start), line, b, n - 1);
        assert EndOf(RoundPoint(visible.value.end), line, b, n - 1);
      }
      hide FromLine;
    }
  }

  lemma VertexOfLine(clipped: seq<Polyline>, line: Polyline, b: Bounds, l: Polyline)
    requires l in StitchLine(clipped, line, b)
    ensures l in clipped || forall v | v in l :: FromLine(v, line, b)
  {
    hide FromLine;
    PrefixFromLine(clipped, line, b, |line|);
  }

  lemma {:induction false} VerticesFromLines(lines: seq<Polyline>, b: Bounds)
    ensures forall l | l in StitchLines(lines, b) :: forall v | v in l :: FromLines(v, lines, b)
  {
    if lines != [] {
      var k := |lines| - 1;
      var before := StitchLines(lines[..k], b);
      VerticesFromLines(lines[..k], b);
      hide FromLine, StitchPrefix, StitchLine;
      assert lines[k] in lines;
      forall l, v | l in StitchLine(before, lines[k], b) && v in l ensures FromLines(v, lines, b) {
        VertexOfLine(before, lines[k], b, l);
        if l in before {
          var line :| line in lines[..k] && FromLine(v, line, b);
          assert line in lines;
        }
      }
    }
  }

  predicate NearEnd(v: Point, line: Polyline, b: Bounds, i: nat)
    requires 0 < i < |line|
  {
    var visible := Clip(Segment(line[i - 1], line[i]), b);
    visible.Some? && (Near(v, visible.value.start) || Near(v, visible.value.end))
  }

  /** Every output vertex lies within 0.000005 per coordinate of an end of a clipped segment. */
  lemma VerticesNear(lines: seq<Polyline>, b: Bounds, l: Polyline, v: Point) returns (k: nat, i: nat)
    requires l in StitchLines(lines, b) && v in l
    ensures k < |lines| && 0 < i < |lines[k]| && NearEnd(v, lines[k], b, i)
  {
    hide RoundPoint, Near, StitchLines, Clip;
    VerticesFromLines(lines, b);
    var line :| line in lines && FromLine(v, line, b);
    k :| k < |lines| && lines[k] == line;
    i :| 0 < i < |line| && EndOf(v, line, b, i);
    var visible := Clip(Segment(line[i - 1], line[i]), b).value;
    RoundPointNear(visible.start);
    RoundPointNear(visible.end);
  }

  // ----- a line wholly inside -----

  /** Removes every vertex equal to the one before it. */
  function Dedup(l: Polyline): Polyline {
    if |l| <= 1 then l
    else if l[|l| - 1] == l[|l| - 2] then Dedup(l[..|l| - 1])
    else Dedup(l[..|l| - 1]) + [l[|l| - 1]]
  }

  function RoundLine(l: Polyline): Polyline {
    seq(|l|, i requires 0 <= i < |l| => RoundPoint(l[i]))
  }

  lemma {:induction false} DedupLast(l: Polyline)
    requires l != []
    ensures Dedup(l) != [] && Dedup(l)[|Dedup(l)| - 1] == l[|l| - 1]
  {
    if |l| > 1 {
      DedupLast(l[..|l| - 1]);
    }
  }

  /** The accumulators after visible vertices that round to l. */
  function Unbroken(clipped: seq<Polyline>, l: Polyline): Stitch {
    Stitch(clipped, if |Dedup(l)| >= 2 then Dedup(l) else [])
  }

  lemma InsideStep(clipped: seq<Polyline>, l: Polyline, s: Segment)
    requires l != [] && l[|l| - 1] == RoundPoint(s.start)
    ensures Step(Unbroken(clipped, l), Some(s)) == Unbroken(clipped, l + [RoundPoint(s.end)])
  {
    hide RoundPoint;
    DedupLast(l);
    assert (l + [RoundPoint(s.end)])[..|l|] == l;
  }

  lemma {:induction false} PrefixInside(clipped: seq<Polyline>, line: Polyline, b: Bounds, n: nat)
    requires 1 <= n <= |line| && Within(line, b)
    ensures StitchPrefix(clipped, line, b, n) == Unbroken(clipped, RoundLine(line[..n]))
  {
    hide Clip, RoundPoint, Step, Dedup;
    if n > 1 {
      PrefixInside(clipped, line, b, n - 1);
      var before := RoundLine(line[..n - 1]);
      assert RoundLine(line[..n]) == before + [RoundPoint(line[n - 1])];
      InsideUnclipped(Segment(line[n - 2], line[n - 1]), b);
      InsideStep(clipped, before, Segment(line[n - 2], line[n - 1]));
    } else {
      Singleton(RoundLine(line[..1]));
    }
  }

  lemma Singleton(l: Polyline)
    requires |l| == 1
    ensures |Dedup(l)| == 1
  {
  }

  /** A line that never leaves the rectangle comes back as one polyline, its rounded vertices without
      consecutive repeats; it disappears exactly when all its vertices round to one point. */
  lemma InsideLineKept(clipped: seq<Polyline>, line: Polyline, b: Bounds)
    requires Within(line, b)
    ensures var d := Dedup(RoundLine(line));
      StitchLine(clipped, line, b) == if |d| >= 2 then clipped + [d] else clipped
    ensures |Dedup(RoundLine(line))| < 2 <==>
            forall i, j | 0 <= i < |line| && 0 <= j < |line| :: RoundPoint(line[i]) == RoundPoint(line[j])
  {
    if line != [] {
      PrefixInside(clipped, line, b, |line|);
      assert line[..|line|] == line;
      DedupShort(RoundLine(line));
      assert forall i | 0 <= i < |line| :: RoundLine(line)[i] == RoundPoint(line[i]);
    }
  }

  lemma {:induction false} DedupShort(l: Polyline)
    requires l != []
    ensures |Dedup(l)| >= 1
    ensures |Dedup(l)| == 1 <==> forall i, j | 0 <= i < |l| && 0 <= j < |l| :: l[i] == l[j]
  {
    if |l| > 1 {
      var init := l[..|l| - 1];
      DedupShort(init);
    }
  }
}
