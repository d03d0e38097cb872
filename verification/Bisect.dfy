/**
  Cutting polylines in two where another line crosses them, over exact real numbers. The
  intersection test is the one of Ericson, "Real-Time Collision Detection", section 5.1.9.1.
*/
module Bisect {
  import opened Wrappers

  datatype Point = Point(x: real, y: real)

  /** Twice the signed area of a triangle. */
  function TriangleArea(pt1: Point, pt2: Point, pt3: Point): real {
    (pt1.x - pt3.x) * (pt2.y - pt3.y) - (pt1.y - pt3.y) * (pt2.x - pt3.x)
  }

  /** The point that divides the segment from a to b in the ratio t : 1 - t. */
  function At(a: Point, b: Point, t: real): Point {
    Point(a.x + t * (b.x - a.x), a.y + t * (b.y - a.y))
  }

  ghost predicate Inside(q: Point, a: Point, b: Point) {
    exists t: real :: 0.0 < t < 1.0 && q == At(a, b, t)
  }

  ghost predicate OnSegment(q: Point, a: Point, b: Point) {
    exists t: real :: 0.0 <= t <= 1.0 && q == At(a, b, t)
  }

  /** The cross product of the two directions; zero for parallel segments. */
  ghost function Cross(a: Point, b: Point, c: Point, d: Point): real {
    (b.x - a.x) * (d.y - c.y) - (b.y - a.y) * (d.x - c.x)
  }

  /** Two segments that are not parallel meet in a point inside both. */
  ghost predicate ProperlyCross(a: Point, b: Point, c: Point, d: Point) {
    Cross(a, b, c, d) != 0.0 && exists q :: Inside(q, a, b) && Inside(q, c, d)
  }

  // ----- signed areas -----

  lemma {:induction false} AreaDifference(a: Point, b: Point, c: Point, d: Point)
    ensures TriangleArea(a, b, d) - TriangleArea(a, b, c) == Cross(a, b, c, d)
    ensures TriangleArea(c, d, a) - TriangleArea(c, d, b) == Cross(a, b, c, d)
  {}

  lemma {:induction false} Rearrange(t: real, D: real, x: real)
    ensures (t * D) * (D * x) == (D * D) * (t * x)
  {
    assert t * D * D * x == (t * D) * (D * x);
  }

  lemma {:induction false} SignOfProduct(t: real, x: real)
    requires x == t - 1.0
    ensures t * x < 0.0 <==> 0.0 < t < 1.0
  {
    if 0.0 < t < 1.0 { assert t * x < 0.0; }
    if t <= 0.0 { assert t * x >= 0.0; }
    if t >= 1.0 { assert t * x >= 0.0; }
  }

  lemma {:induction false} PositiveProduct(m: real, n: real)
    requires m > 0.0 && n > 0.0
    ensures m * n > 0.0
  {}

  lemma {:induction false} Associate(a: real, b: real, c: real)
    ensures (a * b) * c == a * (b * c)
  {}

  lemma {:induction false} SquareTimesPositive(D: real, u: real)
    requires D > 0.0 && u > 0.0
    ensures (D * D) * u > 0.0
  {
    PositiveProduct(D, u);
    PositiveProduct(D, D * u);
    Associate(D, D, u);
  }

  lemma {:induction false} SquareFactor(D: real, u: real)
    requires D != 0.0
    ensures (D * D) * u < 0.0 <==> u < 0.0
  {
    var m := if D < 0.0 then -D else D;
    if u < 0.0 {
      SquareTimesPositive(m, -u);
      assert (m * m) * -u == -((D * D) * u);
    } else if u > 0.0 {
      SquareTimesPositive(m, u);
      assert (m * m) * u == (D * D) * u;
    }
  }

  lemma {:induction false} LessOne(t: real, D: real)
    ensures D * (t - 1.0) == t * D - D
  {}

  /** The products of areas are negative exactly for parameters inside the segment. */
  lemma {:induction false} Products(t: real, D: real, n: real)
    requires D != 0.0 && n == t * D
    ensures n * (n - D) < 0.0 <==> 0.0 < t < 1.0
  {
    LessOne(t, D);
    Rearrange(t, D, t - 1.0);
    SignOfProduct(t, t - 1.0);
    SquareFactor(D, t * (t - 1.0));
  }

  /** Where two lines meet is determined by the areas. */
  lemma {:induction false} MeetingParameters(a: Point, b: Point, c: Point, d: Point, t: real, s: real)
    requires At(a, b, t) == At(c, d, s)
    ensures t * Cross(a, b, c, d) == TriangleArea(c, d, a)
    ensures s * Cross(a, b, c, d) == -TriangleArea(a, b, c)
  {
    var (ux, uy, vx, vy) := (b.x - a.x, b.y - a.y, d.x - c.x, d.y - c.y);
    var (wx, wy) := (a.x - c.x, a.y - c.y);
    assert wx + t * ux == s * vx && wy + t * uy == s * vy;
    assert (wx + t * ux) * vy - (wy + t * uy) * vx == (s * vx) * vy - (s * vy) * vx == 0.0;
    assert (wx + t * ux) * uy - (wy + t * uy) * ux == (s * vx) * uy - (s * vy) * ux;
  }

  /** And they do meet there, unless they are parallel. */
  lemma {:induction false} MeetingPoint(a: Point, b: Point, c: Point, d: Point, t: real, s: real)
    requires Cross(a, b, c, d) != 0.0
    requires t * Cross(a, b, c, d) == TriangleArea(c, d, a)
    requires s * Cross(a, b, c, d) == -TriangleArea(a, b, c)
    ensures At(a, b, t) == At(c, d, s)
  {
    var D := Cross(a, b, c, d);
    var (ux, uy, vx, vy) := (b.x - a.x, b.y - a.y, d.x - c.x, d.y - c.y);
    var (wx, wy) := (a.x - c.x, a.y - c.y);
    var (ex, ey) := (wx + t * ux - s * vx, wy + t * uy - s * vy);
    assert D * ex == D * wx + (t * D) * ux - (s * D) * vx;
    assert D * ey == D * wy + (t * D) * uy - (s * D) * vy;
    assert D * wx + TriangleArea(c, d, a) * ux + TriangleArea(a, b, c) * vx == 0.0;
    assert D * wy + TriangleArea(c, d, a) * uy + TriangleArea(a, b, c) * vy == 0.0;
    assert D * ex == 0.0 && D * ey == 0.0;
    assert ex == 0.0 && ey == 0.0;
  }

  lemma {:induction false} MeetingUnique(a: Point, b: Point, c: Point, d: Point, t: real, s: real, t': real, s': real)
    requires Cross(a, b, c, d) != 0.0 && At(a, b, t') == At(c, d, s')
    requires t * Cross(a, b, c, d) == TriangleArea(c, d, a) && s * Cross(a, b, c, d) == -TriangleArea(a, b, c)
    ensures t == t' && s == s'
  {
    MeetingParameters(a, b, c, d, t', s');
    SameQuotient(t, t', Cross(a, b, c, d), TriangleArea(c, d, a));
    SameQuotient(s, s', Cross(a, b, c, d), -TriangleArea(a, b, c));
  }

  lemma {:induction false} SameQuotient(t: real, s: real, D: real, n: real)
    requires D != 0.0 && t * D == n && s * D == n
    ensures t == s
  {
    SameFactor(t, s, D);
  }

  lemma {:induction false} CrossingIff(a: Point, b: Point, c: Point, d: Point, t: real, s: real)
    requires Cross(a, b, c, d) != 0.0
    requires t * Cross(a, b, c, d) == TriangleArea(c, d, a) && s * Cross(a, b, c, d) == -TriangleArea(a, b, c)
    ensures ProperlyCross(a, b, c, d) <==> 0.0 < t < 1.0 && 0.0 < s < 1.0
  {
    MeetingPoint(a, b, c, d, t, s);
    if ProperlyCross(a, b, c, d) {
      var q :| Inside(q, a, b) && Inside(q, c, d);
      var t' :| 0.0 < t' < 1.0 && q == At(a, b, t');
      var s' :| 0.0 < s' < 1.0 && q == At(c, d, s');
      MeetingUnique(a, b, c, d, t, s, t', s');
    }
    if 0.0 < t < 1.0 && 0.0 < s < 1.0 {
      assert Inside(At(a, b, t), a, b) && Inside(At(c, d, s), c, d);
    }
  }

  lemma {:induction false} Quotient(n: real, D: real)
    requires D != 0.0
    ensures (n / D) * D == n
  {}

  /** The test of the source: proper crossing, decided by four signed areas. */
  lemma {:induction false} TestIsCrossing(a: Point, b: Point, c: Point, d: Point)
    ensures var area1 := TriangleArea(a, b, d);
            var area2 := TriangleArea(a, b, c);
            var area3 := TriangleArea(c, d, a);
            var area4 := area3 + area2 - area1;
            && (area1 * area2 < 0.0 && area3 * area4 < 0.0 <==> ProperlyCross(a, b, c, d))
            && (area1 * area2 < 0.0 ==> area1 != area2 && area1 != 0.0 && area2 != 0.0 && area3 != area4)
  {
    AreaDifference(a, b, c, d);
    TestOnAreas(a, b, c, d, TriangleArea(a, b, d), TriangleArea(a, b, c), TriangleArea(c, d, a), Cross(a, b, c, d));
  }

  lemma {:induction false} TestOnAreas(a: Point, b: Point, c: Point, d: Point, area1: real, area2: real, area3: real, D: real)
    requires area1 - area2 == D == Cross(a, b, c, d)
    requires area2 == TriangleArea(a, b, c) && area3 == TriangleArea(c, d, a)
    ensures area1 * area2 < 0.0 && area3 * (area3 - D) < 0.0 <==> ProperlyCross(a, b, c, d)
    ensures area1 * area2 < 0.0 ==> D != 0.0 && area1 != 0.0 && area2 != 0.0
  {
    if D == 0.0 {
      if area1 != 0.0 { SameSign(area1); }
    } else {
      var (t, s) := (area3 / D, -area2 / D);
      Quotient(area3, D);
      Quotient(-area2, D);
      Products(t, D, area3);
      Products(s, D, -area2);
      Opposite(area1, area2, D);
      CrossingIff(a, b, c, d, t, s);
    }
  }

  lemma {:induction false} SameSign(a: real)
    requires a != 0.0
    ensures a * a >= 0.0
  {}

  lemma {:induction false} Opposite(area1: real, area2: real, D: real)
    requires area1 - area2 == D
    ensures area1 * area2 == -area2 * (-area2 - D)
  {
    assert -area2 - D == -area1;
  }

  lemma {:induction false} SameFactor(t: real, s: real, D: real)
    requires D != 0.0 && t * D == s * D
    ensures t == s
  {
    assert (t - s) * D == 0.0;
  }

  /** The point that the source computes is the only common point inside both segments. */
  lemma {:induction false} CrossingPoint(a: Point, b: Point, c: Point, d: Point, t: real, q: Point)
    requires ProperlyCross(a, b, c, d) && t * Cross(a, b, c, d) == TriangleArea(c, d, a)
    ensures Inside(At(a, b, t), a, b) && Inside(At(a, b, t), c, d)
    ensures Inside(q, a, b) && Inside(q, c, d) ==> q == At(a, b, t)
  {
    var D := Cross(a, b, c, d);
    var p :| Inside(p, a, b) && Inside(p, c, d);
    InsideParameter(a, b, c, d, t, p);
    if Inside(q, a, b) && Inside(q, c, d) { InsideParameter(a, b, c, d, t, q); }
  }

  lemma {:induction false} InsideParameter(a: Point, b: Point, c: Point, d: Point, t: real, q: Point)
    requires Cross(a, b, c, d) != 0.0 && t * Cross(a, b, c, d) == TriangleArea(c, d, a)
    requires Inside(q, a, b) && Inside(q, c, d)
    ensures q == At(a, b, t)
  {
    var t' :| 0.0 < t' < 1.0 && q == At(a, b, t');
    var s' :| 0.0 < s' < 1.0 && q == At(c, d, s');
    MeetingParameters(a, b, c, d, t', s');
    SameQuotient(t, t', Cross(a, b, c, d), TriangleArea(c, d, a));
  }

  // ----- intersection -----

  /** The cut line properly crosses the segment at this position. */
  ghost predicate CrossedAt(polyline: seq<Point>, cutLine: seq<Point>, j: int)
    requires cutLine != []
  {
    0 <= j < |polyline| - 1 && ProperlyCross(cutLine[0], cutLine[|cutLine| - 1], polyline[j], polyline[j + 1])
  }

  ghost predicate CrossedBefore(polyline: seq<Point>, cutLine: seq<Point>, n: int)
    requires cutLine != []
  {
    exists j :: j < n && CrossedAt(polyline, cutLine, j)
  }

  /** The first segment that the cut line properly crosses, and the point where it does. */
  method Intersection(polyline: seq<Point>, cutLine: seq<Point>) returns (result: Option<(nat, Point)>)
    requires cutLine != []
    ensures result.None? ==> !CrossedBefore(polyline, cutLine, |polyline|)
    ensures result.Some? ==>
      var (i, q) := result.value;
      && CrossedAt(polyline, cutLine, i) && !CrossedBefore(polyline, cutLine, i)
      && Inside(q, cutLine[0], cutLine[|cutLine| - 1]) && Inside(q, polyline[i], polyline[i + 1])
  {
    var pt1, pt2 := cutLine[0], cutLine[|cutLine| - 1];
    var i := 0;
    while i < |polyline| - 1
      invariant 0 <= i && !CrossedBefore(polyline, cutLine, i)
    {
      var pt3, pt4 := polyline[i], polyline[i + 1];
      var area1 := TriangleArea(pt1, pt2, pt4);
      var area2 := TriangleArea(pt1, pt2, pt3);
      TestIsCrossing(pt1, pt2, pt3, pt4);
      if area1 != 0.0 && area2 != 0.0 && area1 * area2 < 0.0 {
        var area3 := TriangleArea(pt3, pt4, pt1);
        var area4 := area3 + area2 - area1;
        if area3 * area4 < 0.0 {
          var t := area3 / (area3 - area4);
          AreaDifference(pt1, pt2, pt3, pt4);
          CrossingPoint(pt1, pt2, pt3, pt4, t, pt1);
          return Some((i, At(pt1, pt2, t)));
        }
      }
      i := i + 1;
    }
    result := None;
  }

  // ----- split -----

  datatype Kind = LaneEdge | CenterLine

  /** A lane edge or a center line; the flags are the lane rules that a center line has. */
  class RoadItem {
    const kind: Kind
    /** The marking of a lane edge; 'c' for every center line. */
    var lineType: char
    var polyline: seq<Point>
    var sectionId: int
    var index: int
    var flags: seq<bool>

    /** A new item of the kind of another one, with its attributes. */
    constructor (polyline: seq<Point>, orig: RoadItem)
      ensures this.polyline == polyline && kind == orig.kind && sectionId == orig.sectionId
      ensures lineType == if orig.kind.LaneEdge? then orig.lineType else 'c'
      ensures index == orig.index && flags == orig.flags
    {
      this.polyline := polyline;
      lineType := if orig.kind.LaneEdge? then orig.lineType else 'c';
      kind, sectionId, index, flags := orig.kind, orig.sectionId, orig.index, orig.flags;
    }
  }

  class RoadNetwork {
    var laneEdges: seq<RoadItem>
    var laneCenterLines: seq<RoadItem>

    constructor ()
      ensures laneEdges == [] && laneCenterLines == []
    {
      laneEdges, laneCenterLines := [], [];
    }
  }

  /** The item keeps the points up to the index, a new one gets the rest; both have the new point. */
  method Split(item: RoadItem, lastIndex: nat, newPoint: Point, network: RoadNetwork) returns (newEdge: RoadItem)
    requires lastIndex < |item.polyline|
    modifies item`polyline, network
    ensures fresh(newEdge) && newEdge.kind == item.kind && newEdge.sectionId == item.sectionId
    ensures newEdge.index == item.index && newEdge.flags == item.flags
    ensures newEdge.lineType == if item.kind.LaneEdge? then item.lineType else 'c'
    ensures item.polyline == old(item.polyline)[..lastIndex + 1] + [newPoint]
    ensures newEdge.polyline == [newPoint] + old(item.polyline)[lastIndex + 1..]
    ensures network.laneEdges == old(network.laneEdges) + (if item.kind.LaneEdge? then [newEdge] else [])
    ensures network.laneCenterLines == old(network.laneCenterLines) + (if item.kind.CenterLine? then [newEdge] else [])
  {
    var entire := item.polyline;
    item.polyline := entire[..lastIndex + 1] + [newPoint];
    newEdge := new RoadItem([newPoint] + entire[lastIndex + 1..], item);
    if item.kind.LaneEdge? {
      network.laneEdges := network.laneEdges + [newEdge];
    } else {
      network.laneCenterLines := network.laneCenterLines + [newEdge];
    }
  }

  // ----- the two pieces cover the polyline -----

  ghost predicate OnPolyline(p: Point, polyline: seq<Point>) {
    exists i :: Piece(p, polyline, i)
  }

  ghost predicate Piece(p: Point, polyline: seq<Point>, i: int) {
    0 <= i < |polyline| - 1 && OnSegment(p, polyline[i], polyline[i + 1])
  }

  /** A point inside a segment cuts it into two that together have the same points. */
  lemma {:induction false} SegmentSplits(p: Point, a: Point, b: Point, q: Point)
    requires Inside(q, a, b)
    ensures OnSegment(p, a, b) <==> OnSegment(p, a, q) || OnSegment(p, q, b)
  {
    var s: real :| 0.0 < s < 1.0 && q == At(a, b, s);
    if OnSegment(p, a, b) {
      var t: real :| 0.0 <= t <= 1.0 && p == At(a, b, t);
      PartOfSegment(p, a, b, s, t);
    }
    if OnSegment(p, a, q) {
      var u: real :| 0.0 <= u <= 1.0 && p == At(a, q, u);
      LowerInWhole(p, a, b, s, u);
    }
    if OnSegment(p, q, b) {
      var u: real :| 0.0 <= u <= 1.0 && p == At(q, b, u);
      UpperInWhole(p, a, b, s, u);
    }
  }

  lemma {:induction false} LowerInWhole(p: Point, a: Point, b: Point, s: real, u: real)
    requires 0.0 < s < 1.0 && 0.0 <= u <= 1.0 && p == At(a, At(a, b, s), u)
    ensures OnSegment(p, a, b)
  {
    LowerPart(a, b, s, u);
    var t := Scaled(u, s);
    assert p == At(a, b, t);
  }

  lemma {:induction false} UpperInWhole(p: Point, a: Point, b: Point, s: real, u: real)
    requires 0.0 < s < 1.0 && 0.0 <= u <= 1.0 && p == At(At(a, b, s), b, u)
    ensures OnSegment(p, a, b)
  {
    UpperPart(a, b, s, u);
    var t := Scaled(u, 1.0 - s);
    assert p == At(a, b, s + t);
  }

  lemma {:induction false} PartOfSegment(p: Point, a: Point, b: Point, s: real, t: real)
    requires 0.0 < s < 1.0 && 0.0 <= t <= 1.0 && p == At(a, b, t)
    ensures OnSegment(p, a, At(a, b, s)) || OnSegment(p, At(a, b, s), b)
  {
    if t <= s {
      var u := Ratio(t, s);
      LowerPart(a, b, s, u);
    } else {
      var u := Ratio(t - s, 1.0 - s);
      UpperPart(a, b, s, u);
    }
  }

  lemma {:induction false} Ratio(n: real, d: real) returns (u: real)
    requires 0.0 <= n <= d && d > 0.0
    ensures 0.0 <= u <= 1.0 && u * d == n
  {
    u := n / d;
  }

  lemma {:induction false} Scaled(u: real, s: real) returns (t: real)
    requires 0.0 <= u <= 1.0 && 0.0 < s < 1.0
    ensures t == u * s && 0.0 <= t <= s
  {
    t := u * s;
    assert (1.0 - u) * s >= 0.0;
  }

  lemma {:induction false} LowerPart(a: Point, b: Point, s: real, u: real)
    ensures At(a, At(a, b, s), u) == At(a, b, u * s)
  {
    Shrink(a.x, b.x - a.x, s, u);
    Shrink(a.y, b.y - a.y, s, u);
  }

  lemma {:induction false} Shrink(a: real, d: real, s: real, u: real)
    ensures a + u * (a + s * d - a) == a + (u * s) * d
  {
    Associate(u, s, d);
    assert a + s * d - a == s * d;
  }

  lemma {:induction false} UpperPart(a: Point, b: Point, s: real, u: real)
    ensures At(At(a, b, s), b, u) == At(a, b, s + u * (1.0 - s))
  {
    Blend(a.x, b.x, b.x - a.x, s, u);
    Blend(a.y, b.y, b.y - a.y, s, u);
  }

  lemma {:induction false} Blend(a: real, b: real, d: real, s: real, u: real)
    requires d == b - a
    ensures (a + s * d) + u * (b - (a + s * d)) == a + (s + u * (1.0 - s)) * d
  {
    var r := 1.0 - s;
    assert b - (a + s * d) == r * d;
    Associate(u, r, d);
    assert (s + u * r) * d == s * d + (u * r) * d;
  }

  /** Cutting at a point inside segment i changes neither the shape nor the order of the points. */
  lemma {:induction false} PiecesCover(p: Point, polyline: seq<Point>, i: nat, q: Point)
    requires i + 1 < |polyline| && Inside(q, polyline[i], polyline[i + 1])
    ensures OnPolyline(p, polyline) <==>
            OnPolyline(p, polyline[..i + 1] + [q]) || OnPolyline(p, [q] + polyline[i + 1..])
  {
    var (first, second) := (polyline[..i + 1] + [q], [q] + polyline[i + 1..]);
    SegmentSplits(p, polyline[i], polyline[i + 1], q);
    if OnPolyline(p, polyline) {
      var j :| Piece(p, polyline, j);
      if j < i {
        assert Piece(p, first, j);
      } else if j > i {
        assert Piece(p, second, j - i);
      } else {
        assert Piece(p, first, i) || Piece(p, second, 0);
      }
    }
    if OnPolyline(p, first) {
      var j :| Piece(p, first, j);
      assert Piece(p, polyline, j);
    }
    if OnPolyline(p, second) {
      var j :| Piece(p, second, j);
      assert Piece(p, polyline, j + i);
    }
  }

  /**
    The polyline was cut at the first segment that the cut line properly crosses, in a point inside
    this segment and the cut line. Both pieces have this point, and together they cover the polyline.
  */
  ghost predicate IsCut(was: seq<Point>, cutLine: seq<Point>, first: seq<Point>, second: seq<Point>)
    requires cutLine != []
  {
    && |first| >= 2 && |second| >= 2 && first[|first| - 1] == second[0]
    && first[..|first| - 1] + second[1..] == was
    && Inside(second[0], cutLine[0], cutLine[|cutLine| - 1]) && Inside(second[0], first[|first| - 2], second[1])
    && ProperlyCross(cutLine[0], cutLine[|cutLine| - 1], first[|first| - 2], second[1])
    && !CrossedBefore(was, cutLine, |first| - 2)
    && forall p :: OnPolyline(p, was) <==> OnPolyline(p, first) || OnPolyline(p, second)
  }

  lemma {:induction false} CutAt(was: seq<Point>, cutLine: seq<Point>, i: nat, q: Point)
    requires cutLine != [] && i + 1 < |was|
    requires Inside(q, cutLine[0], cutLine[|cutLine| - 1]) && Inside(q, was[i], was[i + 1])
    requires CrossedAt(was, cutLine, i) && !CrossedBefore(was, cutLine, i)
    ensures IsCut(was, cutLine, was[..i + 1] + [q], [q] + was[i + 1..])
  {
    var (first, second) := (was[..i + 1] + [q], [q] + was[i + 1..]);
    assert first[..|first| - 1] == was[..i + 1] && second[1..] == was[i + 1..];
    forall p ensures OnPolyline(p, was) <==> OnPolyline(p, first) || OnPolyline(p, second) {
      PiecesCover(p, was, i, q);
    }
  }

  /** A new item with the attributes of another one; a center line has no marking of its own. */
  predicate SameAttributes(item: RoadItem, newEdge: RoadItem)
    reads item, newEdge
  {
    && newEdge.kind == item.kind && newEdge.sectionId == item.sectionId && newEdge.index == item.index
    && newEdge.flags == item.flags && newEdge.lineType == if item.kind.LaneEdge? then item.lineType else 'c'
  }

  /**
    One edge of cut: None stands for the failure to unpack the missing intersection, exactly if the
    cut line properly crosses no segment. Otherwise the item keeps the first piece, and the road
    network gets a new item with the second one.
  */
  method Cut(item: RoadItem, cutLine: seq<Point>, network: RoadNetwork) returns (result: Option<RoadItem>)
    requires cutLine != []
    modifies item`polyline, network
    ensures result.None? <==> !CrossedBefore(old(item.polyline), cutLine, |old(item.polyline)|)
    ensures result.None? ==> item.polyline == old(item.polyline)
    ensures result.None? ==> unchanged(network)
    ensures result.Some? ==> fresh(result.value) && SameAttributes(item, result.value)
    ensures result.Some? ==> network.laneEdges == old(network.laneEdges) + if item.kind.LaneEdge? then [result.value] else []
    ensures result.Some? ==>
      network.laneCenterLines == old(network.laneCenterLines) + if item.kind.CenterLine? then [result.value] else []
    ensures result.Some? ==> IsCut(old(item.polyline), cutLine, item.polyline, result.value.polyline)
  {
    var found := Intersection(item.polyline, cutLine);
    if found.None? {
      return None;
    }
    var (i, q) := found.value;
    CutAt(item.polyline, cutLine, i, q);
    var newEdge := Split(item, i, q, network);
    result := Some(newEdge);
  }
}
