/** Hit-testing geometry of the graph view: `distanceLink` and the scan in
    `onClick` that picks the link nearest to a click. */
module Geometry {
  import opened Basics

  datatype Point = Point(x: real, y: real)

  /** Links farther than this from a click (as `distanceLink` reports it) are
      never selected. */
  const LINK_RADIUS_SELECT: real := 12.0

  /** The square of the Euclidean distance (the inner `distance` of
      `distanceLink`). */
  function SqDist(a: Point, b: Point): (d: real)
    ensures a == b ==> d == 0.0
  {
    (a.x - b.x) * (a.x - b.x) + (a.y - b.y) * (a.y - b.y)
  }

  lemma SqDistNonNegative(a: Point, b: Point)
    ensures SqDist(a, b) >= 0.0
  {
  }

  /** Equal points are at distance zero. */
  lemma SqDistSelf(a: Point)
    ensures SqDist(a, a) == 0.0
  {
  }

  lemma MulPos(a: real, b: real)
    requires a > 0.0 && b > 0.0
    ensures a * b > 0.0
  {
  }

  lemma MulNonNeg(a: real, b: real)
    requires a >= 0.0 && b >= 0.0
    ensures a * b >= 0.0
  {
  }

  lemma SquareNonNeg(a: real)
    ensures a * a >= 0.0
  {
  }

  /** On non-negative reals, squaring keeps the order. */
  lemma SquareMonotone(a: real, b: real)
    requires a >= 0.0 && b >= 0.0
    ensures a < b <==> a * a < b * b
  {
    if a < b {
      MulPos(b - a, b + a);
    } else {
      MulNonNeg(a - b, a + b);
    }
  }

  /** A non-negative JavaScript number held exactly: `Plain(v)` is `v` itself and
      `Root(s)` is `Math.sqrt(s)`. */
  datatype Dist = Plain(v: real) | Root(s: real)

  predicate NonNegative(d: Dist)
  {
    match d
    case Plain(v) => v >= 0.0
    case Root(s) => s >= 0.0
  }

  /** The square of the number `d` stands for. */
  function Square(d: Dist): real
  {
    match d
    case Plain(v) => v * v
    case Root(s) => s
  }

  /** The real `r` is the (non-negative) number `d` stands for. */
  ghost predicate Denotes(d: Dist, r: real)
  {
    r >= 0.0 &&
    match d
    case Plain(v) => r == v
    case Root(s) => r * r == s
  }

  /** `d1 < d2` on the numbers they stand for, compared through their squares. */
  predicate Less(d1: Dist, d2: Dist)
  {
    Square(d1) < Square(d2)
  }

  lemma DenotesSquare(d: Dist, r: real)
    requires Denotes(d, r)
    ensures Square(d) == r * r
  {
  }

  /** `Less` is exactly JavaScript's `<` on the non-negative numbers two
      distances stand for. */
  lemma LessIsNumericOrder(d1: Dist, r1: real, d2: Dist, r2: real)
    requires Denotes(d1, r1) && Denotes(d2, r2)
    ensures Less(d1, d2) <==> r1 < r2
  {
    DenotesSquare(d1, r1);
    DenotesSquare(d2, r2);
    SquareMonotone(r1, r2);
  }

  /** The point of the segment from `a` to `b` at parameter `s`. */
  function Along(a: Point, b: Point, s: real): Point
  {
    Point(a.x + s * (b.x - a.x), a.y + s * (b.y - a.y))
  }

  /** `(p - a) . (b - a)`. */
  function Dot(p: Point, a: Point, b: Point): real
  {
    (p.x - a.x) * (b.x - a.x) + (p.y - a.y) * (b.y - a.y)
  }

  /** `distanceLink(p, a, b)`. The degenerate and the clamped cases return the
      SQUARED distance; only the interior case takes the square root. */
  function DistanceLink(p: Point, a: Point, b: Point): (r: Dist)
    ensures NonNegative(r)
    ensures SqDist(a, b) == 0.0 ==> r == Plain(SqDist(p, a))
    ensures SqDist(a, b) != 0.0 ==>
      var t := Dot(p, a, b) / SqDist(a, b);
      && (t < 0.0 ==> r == Plain(SqDist(p, a)))
      && (t > 1.0 ==> r == Plain(SqDist(p, b)))
      && (0.0 <= t <= 1.0 ==> r == Root(SqDist(p, Along(a, b, t))))
  {
    var l2 := SqDist(a, b);
    if l2 == 0.0 then SqDistNonNegative(p, a); Plain(SqDist(p, a))
    else
      var t := Dot(p, a, b) / l2;
      if t < 0.0 then SqDistNonNegative(p, a); Plain(SqDist(p, a))
      else if t > 1.0 then SqDistNonNegative(p, b); Plain(SqDist(p, b))
      else SqDistNonNegative(p, Along(a, b, t)); Root(SqDist(p, Along(a, b, t)))
  }

  /** A segment whose end points coincide is measured from `a`, squared. */
  lemma DistanceLinkPointSegment(p: Point, a: Point)
    ensures DistanceLink(p, a, a) == Plain(SqDist(p, a))
  {
    SqDistSelf(a);
  }

  function Clamp01(u: real): (t: real)
    ensures 0.0 <= t <= 1.0
  {
    if u < 0.0 then 0.0 else if u > 1.0 then 1.0 else u
  }

  /** Where on the segment the point nearest to `p` lies: the projection of `p`
      onto the line through `a` and `b`, clamped to the segment. */
  function NearestParameter(p: Point, a: Point, b: Point): (t: real)
    ensures 0.0 <= t <= 1.0
  {
    if SqDist(a, b) == 0.0 then 0.0 else Clamp01(Dot(p, a, b) / SqDist(a, b))
  }

  /** `e0 - 2 x dot + x^2 c`: the squared distance from `p` to the point at
      parameter `x`, with `e0 = |pa|^2`, `dot = (p - a).(b - a)`, `c = |ab|^2`. */
  function Quadratic(e0: real, dot: real, c: real, x: real): real
  {
    e0 - 2.0 * x * dot + x * x * c
  }

  /** Over `[0, 1]`, an upward parabola is smallest at its vertex clamped to the
      interval. */
  lemma QuadraticClampedMinimum(e0: real, dot: real, c: real, s: real)
    requires c > 0.0 && 0.0 <= s <= 1.0
    ensures Quadratic(e0, dot, c, Clamp01(dot / c)) <= Quadratic(e0, dot, c, s)
  {
    var u := dot / c;
    assert dot == u * c;
    if u < 0.0 {
      MulPos(-u, c);
      MulNonNeg(s, c);
      MulNonNeg(s, s * c - 2.0 * dot);
      assert Quadratic(e0, dot, c, s) - Quadratic(e0, dot, c, 0.0) == s * (s * c - 2.0 * dot);
    } else if u > 1.0 {
      MulPos(u - 1.0, c);
      MulNonNeg(1.0 - s, c);
      MulNonNeg(1.0 - s, 2.0 * dot - (1.0 + s) * c);
      assert Quadratic(e0, dot, c, s) - Quadratic(e0, dot, c, 1.0) == (1.0 - s) * (2.0 * dot - (1.0 + s) * c);
    } else {
      SquareNonNeg(s - u);
      MulNonNeg(c, (s - u) * (s - u));
      assert Quadratic(e0, dot, c, s) - Quadratic(e0, dot, c, u) == c * ((s - u) * (s - u));
    }
  }

  /** One coordinate of the quadratic: `(w - s d)^2 = w^2 - 2 s (w d) + s^2 d^2`,
      where `w` is the coordinate of `p - a` and `d` that of `b - a`. */
  lemma CoordinateExpansion(w: real, d: real, s: real)
    ensures (w - s * d) * (w - s * d) == Quadratic(w * w, w * d, d * d, s)
  {
  }

  lemma Distribute(k: real, u: real, v: real)
    ensures k * (u + v) == k * u + k * v
  {
  }

  /** Quadratics in the same parameter add coefficient by coefficient. */
  lemma QuadraticAdd(e1: real, d1: real, c1: real, e2: real, d2: real, c2: real, s: real)
    ensures Quadratic(e1, d1, c1, s) + Quadratic(e2, d2, c2, s) == Quadratic(e1 + e2, d1 + d2, c1 + c2, s)
  {
    Distribute(2.0 * s, d1, d2);
    Distribute(s * s, c1, c2);
  }

  /** The squared distance to a point of the segment is a quadratic in its
      parameter. */
  lemma AlongSqDist(p: Point, a: Point, b: Point, s: real)
    ensures SqDist(p, Along(a, b, s)) == Quadratic(SqDist(p, a), Dot(p, a, b), SqDist(a, b), s)
  {
    var wx, dx := p.x - a.x, b.x - a.x;
    var wy, dy := p.y - a.y, b.y - a.y;
    CoordinateExpansion(wx, dx, s);
    CoordinateExpansion(wy, dy, s);
    QuadraticAdd(wx * wx, wx * dx, dx * dx, wy * wy, wy * dy, dy * dy, s);
  }

  /** No point of the segment is nearer to `p` than the one at
      `NearestParameter`. */
  lemma NearestParameterIsNearest(p: Point, a: Point, b: Point, s: real)
    requires a == b || SqDist(a, b) != 0.0
    requires 0.0 <= s <= 1.0
    ensures SqDist(p, Along(a, b, NearestParameter(p, a, b))) <= SqDist(p, Along(a, b, s))
  {
    if a == b {
      assert Along(a, b, s) == a;
      assert Along(a, b, NearestParameter(p, a, b)) == a;
    } else {
      SqDistNonNegative(a, b);
      AlongSqDist(p, a, b, s);
      AlongSqDist(p, a, b, NearestParameter(p, a, b));
      QuadraticClampedMinimum(SqDist(p, a), Dot(p, a, b), SqDist(a, b), s);
    }
  }

  /** What `distanceLink` reports about the nearest point `q` of the segment:
      when the perpendicular from `p` meets the segment strictly inside or at
      its ends from within, the Euclidean distance |pq|; when `q` is clamped to
      an end point (or the segment is a point), the squared distance |pq|^2. */
  lemma DistanceLinkMeasuresNearest(p: Point, a: Point, b: Point)
    ensures var q := Along(a, b, NearestParameter(p, a, b));
      match DistanceLink(p, a, b)
      case Root(s) => s == SqDist(p, q)
      case Plain(v) => v == SqDist(p, q) && (q == a || q == b)
  {
    var t := NearestParameter(p, a, b);
    var q := Along(a, b, t);
    if SqDist(a, b) == 0.0 || Dot(p, a, b) / SqDist(a, b) < 0.0 {
      assert t == 0.0;
      assert q == a;
    } else if Dot(p, a, b) / SqDist(a, b) > 1.0 {
      assert t == 1.0;
      assert q == b;
    }
  }

  /** Measured as `distanceLink` is written, a click 4 units beyond the end
      of a link misses it, though it lies within `LINK_RADIUS_SELECT` of the
      link; 4 units from the middle of the same link it hits. */
  lemma DistanceLinkMissesNearEnd()
    ensures var a, b := Point(0.0, 0.0), Point(10.0, 0.0);
      && SqDist(Point(-4.0, 0.0), a) < LINK_RADIUS_SELECT * LINK_RADIUS_SELECT
      && !Less(DistanceLink(Point(-4.0, 0.0), a, b), Plain(LINK_RADIUS_SELECT))
      && Less(DistanceLink(Point(5.0, 4.0), a, b), Plain(LINK_RADIUS_SELECT))
  {
    var a, b := Point(0.0, 0.0), Point(10.0, 0.0);
    var near, mid := Point(-4.0, 0.0), Point(5.0, 4.0);
    assert SqDist(a, b) == 100.0;
    assert Dot(near, a, b) == -40.0;
    assert Dot(mid, a, b) == 50.0;
    assert -40.0 / 100.0 == -0.4;
    assert 50.0 / 100.0 == 0.5;
    assert SqDist(near, a) == 16.0;
    assert DistanceLink(near, a, b) == Plain(16.0);
    assert Along(a, b, 0.5) == Point(5.0, 0.0);
    assert SqDist(mid, Point(5.0, 0.0)) == 16.0;
    assert DistanceLink(mid, a, b) == Root(16.0);
  }

  /** `distanceLink` as evidently intended: the Euclidean distance to the
      nearest point of the segment in every case. */
  function EuclideanLink(p: Point, a: Point, b: Point): (r: Dist)
    ensures r.Root? && r.s >= 0.0
  {
    var q := Along(a, b, NearestParameter(p, a, b));
    SqDistNonNegative(p, q);
    Root(SqDist(p, q))
  }

  /** Measured that way, a click is within `radius` of a link exactly when
      some point of the link is. */
  lemma EuclideanLinkWithin(p: Point, a: Point, b: Point, radius: real)
    requires a == b || SqDist(a, b) != 0.0
    requires radius >= 0.0
    ensures Less(EuclideanLink(p, a, b), Plain(radius)) <==>
      exists s | 0.0 <= s <= 1.0 :: SqDist(p, Along(a, b, s)) < radius * radius
  {
    var t := NearestParameter(p, a, b);
    var d := SqDist(p, Along(a, b, t));
    var r2 := radius * radius;
    assert Less(EuclideanLink(p, a, b), Plain(radius)) <==> d < r2;
    if exists s | 0.0 <= s <= 1.0 :: SqDist(p, Along(a, b, s)) < r2 {
      var s :| 0.0 <= s <= 1.0 && SqDist(p, Along(a, b, s)) < r2;
      NearestParameterIsNearest(p, a, b, s);
    }
    if d < r2 {
      assert 0.0 <= t <= 1.0 && SqDist(p, Along(a, b, t)) < r2;
    }
  }

  /** How the scan in `onClick` measures a link: as `distanceLink` is written,
      or with the Euclidean distance it evidently intends. */
  datatype Measure = AsWritten | Euclidean

  function HitDistance(p: Point, a: Point, b: Point, m: Measure): Dist
  {
    match m
    case AsWritten => DistanceLink(p, a, b)
    case Euclidean => EuclideanLink(p, a, b)
  }

  /** The distance of the i-th segment. */
  function SegmentDistance(p: Point, segments: seq<(Point, Point)>, i: nat, m: Measure): Dist
    requires i < |segments|
  {
    HitDistance(p, segments[i].0, segments[i].1, m)
  }

  /** `closest` is what the scan in `onClick` must pick: no segment when none
      is nearer than `LINK_RADIUS_SELECT`; otherwise one nearer than that, no
      farther than any other, and strictly nearer than every segment before it
      (the first of equally near segments wins). */
  predicate PicksNearest(p: Point, segments: seq<(Point, Point)>, m: Measure, closest: Option<nat>)
  {
    && (closest.None? <==>
          forall i | 0 <= i < |segments| :: !Less(SegmentDistance(p, segments, i, m), Plain(LINK_RADIUS_SELECT)))
    && (closest.Some? ==>
          && closest.value < |segments|
          && Less(SegmentDistance(p, segments, closest.value, m), Plain(LINK_RADIUS_SELECT))
          && (forall i | 0 <= i < |segments| ::
                !Less(SegmentDistance(p, segments, i, m), SegmentDistance(p, segments, closest.value, m)))
          && (forall i | 0 <= i < closest.value ::
                Less(SegmentDistance(p, segments, closest.value, m), SegmentDistance(p, segments, i, m))))
  }

  /** There is only one right answer. */
  lemma PicksNearestUnique(p: Point, segments: seq<(Point, Point)>, m: Measure, c1: Option<nat>, c2: Option<nat>)
    requires PicksNearest(p, segments, m, c1) && PicksNearest(p, segments, m, c2)
    ensures c1 == c2
  {
    if c1.Some? && c2.Some? {
      var k1, k2 := c1.value, c2.value;
      assert !Less(SegmentDistance(p, segments, k1, m), SegmentDistance(p, segments, k2, m));
      assert !Less(SegmentDistance(p, segments, k2, m), SegmentDistance(p, segments, k1, m));
    }
  }

  /** The scan over `intLinks` in `onClick`: keep the first segment whose
      distance is below the radius, and shrink the radius to it. */
  method NearestLink(p: Point, segments: seq<(Point, Point)>, m: Measure) returns (closest: Option<nat>)
    ensures PicksNearest(p, segments, m, closest)
  {
    closest := None;
    var radius := Plain(LINK_RADIUS_SELECT);
    for i := 0 to |segments|
      invariant closest.None? ==> radius == Plain(LINK_RADIUS_SELECT)
      invariant closest.Some? ==>
        && closest.value < i
        && radius == SegmentDistance(p, segments, closest.value, m)
        && Less(radius, Plain(LINK_RADIUS_SELECT))
        && (forall j | 0 <= j < closest.value :: Less(radius, SegmentDistance(p, segments, j, m)))
      invariant forall j | 0 <= j < i :: !Less(SegmentDistance(p, segments, j, m), radius)
    {
      var distance := HitDistance(p, segments[i].0, segments[i].1, m);
      if Less(distance, radius) {
        closest := Some(i);
        radius := distance;
      }
    }
  }
}
