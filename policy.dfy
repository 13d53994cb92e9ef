/** The rest length and the strength the force layout gives a link, as
    functions of the link's two quality figures `tr` and `tq`. */
module LinkPolicy {

  /** `limitFloat(v, lo, hi)` (defined outside the modelled file): `v` clamped to
      `[lo, hi]`. */
  function LimitFloat(v: real, lo: real, hi: real): (r: real)
    requires lo <= hi
    ensures lo <= r <= hi
    ensures lo <= v <= hi ==> r == v
    ensures v < lo ==> r == lo
    ensures v > hi ==> r == hi
  {
    if v < lo then lo else if v > hi then hi else v
  }

  /** `1 / tq` in JavaScript, as far as the clamp below can tell: `1 / 0` is
      `+Infinity`, which any upper limit replaces by that limit. */
  datatype Reciprocal = Finite(value: real) | PositiveInfinity

  function Inverse(tq: real): Reciprocal
  {
    if tq == 0.0 then PositiveInfinity else Finite(1.0 / tq)
  }

  function LimitReciprocal(q: Reciprocal, lo: real, hi: real): real
    requires lo <= hi
  {
    match q
    case Finite(v) => LimitFloat(v, lo, hi)
    case PositiveInfinity => hi
  }

  const TREE_THRESHOLD: real := 0.5
  const TREE_DISTANCE: real := 0.0
  const LINK_DISTANCE: real := 75.0
  const TREE_STRENGTH: real := 0.02
  const STRENGTH_MIN: real := 0.5
  const STRENGTH_MAX: real := 1.0

  /** Links whose `tr` exceeds one half are tree links. */
  predicate IsTreeLink(tr: real)
  {
    tr > TREE_THRESHOLD
  }

  /** The `distance` accessor of `forceLink`. */
  function LinkDistance(tr: real): (r: real)
    ensures IsTreeLink(tr) ==> r == TREE_DISTANCE
    ensures !IsTreeLink(tr) ==> r == LINK_DISTANCE
  {
    if tr > TREE_THRESHOLD then TREE_DISTANCE else LINK_DISTANCE
  }

  /** The `strength` accessor of `forceLink`. */
  function LinkStrength(tr: real, tq: real): (r: real)
    ensures r == TREE_STRENGTH <==> IsTreeLink(tr)
    ensures !IsTreeLink(tr) ==> STRENGTH_MIN <= r <= STRENGTH_MAX
  {
    if tr > TREE_THRESHOLD then TREE_STRENGTH
    else LimitReciprocal(Inverse(tq), STRENGTH_MIN, STRENGTH_MAX)
  }

  /** Among links that are not tree links, a worse (larger) positive `tq`
      never pulls harder. */
  lemma LinkStrengthAntitone(tr: real, tq1: real, tq2: real)
    requires !IsTreeLink(tr)
    requires 0.0 < tq1 <= tq2
    ensures LinkStrength(tr, tq2) <= LinkStrength(tr, tq1)
  {
    assert 1.0 / tq2 <= 1.0 / tq1 by {
      ReciprocalAntitone(tq1, tq2);
    }
  }

  lemma ReciprocalAntitone(a: real, b: real)
    requires 0.0 < a <= b
    ensures 1.0 / b <= 1.0 / a
  {
    var ia, ib := 1.0 / a, 1.0 / b;
    assert ia * a == 1.0 && ib * b == 1.0;
    if ib > ia {
      assert ib * b >= ib * a;
      assert ib * a > ia * a;
    }
  }

  /** A link whose `tq` is at most 1 (and positive) or zero is held at full
      strength; one whose `tq` is 2 or more, or negative, at the minimum. */
  lemma LinkStrengthExtremes(tr: real, tq: real)
    requires !IsTreeLink(tr)
    ensures (tq == 0.0 || 0.0 < tq <= 1.0) ==> LinkStrength(tr, tq) == STRENGTH_MAX
    ensures (tq >= 2.0 || tq < 0.0) ==> LinkStrength(tr, tq) == STRENGTH_MIN
  {
    if 0.0 < tq <= 1.0 {
      ReciprocalAntitone(tq, 1.0);
    } else if tq >= 2.0 {
      ReciprocalAntitone(2.0, tq);
    } else if tq < 0.0 {
      assert 1.0 / tq < 0.0;
    }
  }
}
