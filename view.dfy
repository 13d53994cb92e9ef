/** The camera of the graph view: the transform `moveTo` animates towards and
    the places `resetView`, `selectNode` and `selectLink` ask it to focus on. */
module View {
  import opened Basics
  import opened Geometry

  const ZOOM_MIN: real := 0.125
  const ZOOM_MAX: real := 3.0

  /** While the simulation is hotter than this, a move that is not forced waits. */
  const MOVE_ALPHA_LIMIT: real := 0.3

  /** A zoom transform: a graph point `p` is drawn at `(x + k p.x, y + k p.y)`. */
  datatype Transform = Transform(x: real, y: real, k: real)

  function Apply(t: Transform, p: Point): Point
  {
    Point(t.x + t.k * p.x, t.y + t.k * p.y)
  }

  /** What `moveTo` does: retry later, or animate towards `end`. */
  datatype MoveRequest = Deferred | Animate(end: Transform)

  /** `moveTo([x, y, k], forceMove)` on a canvas of the given size while the
      simulation runs at `alpha`. */
  function MoveTo(x: real, y: real, k: real, forceMove: bool, alpha: real, width: real, height: real): (m: MoveRequest)
    ensures m.Deferred? <==> !forceMove && alpha > MOVE_ALPHA_LIMIT
    ensures m.Animate? ==> m.end.k == k && Apply(m.end, Point(x, y)) == Point(width / 2.0, height / 2.0)
  {
    if !forceMove && alpha > MOVE_ALPHA_LIMIT then Deferred
    else Animate(Transform(width / 2.0 - x * k, height / 2.0 - y * k, k))
  }

  /** At a given zoom there is exactly one transform that puts a graph point in
      the middle of the canvas, and it is the one `moveTo` picks. */
  lemma {:induction false} MoveToTargetUnique(x: real, y: real, k: real, alpha: real, width: real, height: real, t: Transform)
    requires t.k == k && Apply(t, Point(x, y)) == Point(width / 2.0, height / 2.0)
    ensures MoveTo(x, y, k, true, alpha, width, height) == Animate(t)
  {
    assert t.x == width / 2.0 - k * x;
    assert t.y == height / 2.0 - k * y;
  }

  /** A request to centre the camera on `center` at zoom `k`. */
  datatype Focus = Focus(center: Point, k: real, forceMove: bool)

  predicate ZoomInRange(k: real)
  {
    ZOOM_MIN <= k <= ZOOM_MAX
  }

  /** `resetView`: the origin, halfway between the smallest zoom and 1, forced. */
  function ResetFocus(): (f: Focus)
    ensures f.center == Point(0.0, 0.0) && f.forceMove
    ensures f.k == (ZOOM_MIN + 1.0) / 2.0 && f.k == 0.5625
    ensures ZoomInRange(f.k) && f.k < 1.0
  {
    Focus(Point(0.0, 0.0), (ZOOM_MIN + 1.0) / 2.0, true)
  }

  /** `selectNode`: unless Ctrl or Meta is held, the node, halfway between 1 and
      the largest zoom. */
  function NodeFocus(node: Point, modifier: bool): (f: Option<Focus>)
    ensures f.None? <==> modifier
    ensures f.Some? ==> f.value.center == node && ZoomInRange(f.value.k) && f.value.k > 1.0 && !f.value.forceMove
    ensures f.Some? ==> f.value.k == (ZOOM_MAX + 1.0) / 2.0 && f.value.k == 2.0
  {
    if modifier then None else Some(Focus(node, (ZOOM_MAX + 1.0) / 2.0, false))
  }

  /** `selectLink`: unless Ctrl or Meta is held, the middle of the link. */
  function LinkFocus(source: Point, target: Point, modifier: bool): (f: Option<Focus>)
    ensures f.None? <==> modifier
    ensures f.Some? ==>
      && f.value.center == Along(source, target, 0.5)
      && ZoomInRange(f.value.k) && f.value.k > 1.0 && !f.value.forceMove
    ensures f.Some? ==> f.value.k == ZOOM_MAX / 2.0 + ZOOM_MIN && f.value.k == 1.625
  {
    if modifier then None
    else Some(Focus(Point((source.x + target.x) / 2.0, (source.y + target.y) / 2.0), (ZOOM_MAX / 2.0) + ZOOM_MIN, false))
  }

  /** The centre of a link focus is as far from one end as from the other. */
  lemma LinkFocusEquidistant(source: Point, target: Point)
    ensures var c := Along(source, target, 0.5); SqDist(c, source) == SqDist(c, target)
  {
    var c := Along(source, target, 0.5);
    var dx, dy := (target.x - source.x) / 2.0, (target.y - source.y) / 2.0;
    assert c.x - source.x == dx && c.x - target.x == -dx;
    assert c.y - source.y == dy && c.y - target.y == -dy;
    NegSquare(dx);
    NegSquare(dy);
  }

  lemma NegSquare(a: real)
    ensures (-a) * (-a) == a * a
  {
  }

  /** The move a focus request becomes. */
  function FocusMove(f: Focus, alpha: real, width: real, height: real): MoveRequest
  {
    MoveTo(f.center.x, f.center.y, f.k, f.forceMove, alpha, width, height)
  }

  /** Resetting the view always moves the camera at once, to a transform that
      shows the origin in the middle of the canvas. */
  lemma ResetViewMovesNow(alpha: real, width: real, height: real)
    ensures var m := FocusMove(ResetFocus(), alpha, width, height);
      m.Animate? && Apply(m.end, Point(0.0, 0.0)) == Point(width / 2.0, height / 2.0)
  {
  }
}
