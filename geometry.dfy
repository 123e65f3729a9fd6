/** What the clearing engine receives from the geometry library: the kind of the
    intersection of the two polylines and its coordinates. The intersection itself is
    computed outside the model and enters as an `Intersector`. */
module Geometry {
  import opened Orders
  import opened Rounding

  /** A shapely `Point`, `LineString` or `MultiPoint`, or a geometry of any other kind
      (a `GeometryCollection`, an empty result). */
  datatype Intersection =
    | Point(x: real, y: real)
    | Line(coords: Polyline)
    | Multi(coords: Polyline)
    | Other

  /** `sell_line.intersection(purchase_line)` */
  type Intersector = (Polyline, Polyline) -> Intersection

  /** A line or multipoint result carries at least one coordinate (`min` of it does not raise). */
  predicate HasCoords(g: Intersection) {
    (g.Line? || g.Multi?) ==> |g.coords| > 0
  }

  /** A result kind that the first analyzer's branches assign `smv` and `smp` for. */
  predicate Handled(g: Intersection) {
    !g.Other? && HasCoords(g)
  }

  /** `sell_line.intersection(purchase_line)` for one hour: the sell curve against the purchase curve. */
  function Intersect(df: seq<Order>, hour: string, meet: Intersector): Intersection {
    meet(Curve(CurveOrders(df, hour, Sell)), Curve(CurveOrders(df, hour, Purchase)))
  }

  /** `min(intersection.coords.xy[0])`: the least volume coordinate. */
  function MinX(ps: Polyline): (m: real)
    requires |ps| > 0
    ensures exists i :: 0 <= i < |ps| && ps[i].0 == m
    ensures forall i :: 0 <= i < |ps| ==> m <= ps[i].0
  {
    if |ps| == 1 then ps[0].0
    else
      var rest := MinX(ps[1..]);
      assert forall i :: 1 <= i < |ps| ==> ps[i] == ps[1..][i - 1];
      if ps[0].0 <= rest then ps[0].0 else rest
  }

  /** `min(intersection.coords.xy[1])`: the least price coordinate. */
  function MinY(ps: Polyline): (m: real)
    requires |ps| > 0
    ensures exists i :: 0 <= i < |ps| && ps[i].1 == m
    ensures forall i :: 0 <= i < |ps| ==> m <= ps[i].1
  {
    if |ps| == 1 then ps[0].1
    else
      var rest := MinY(ps[1..]);
      assert forall i :: 1 <= i < |ps| ==> ps[i] == ps[1..][i - 1];
      if ps[0].1 <= rest then ps[0].1 else rest
  }

  /** `m` is the least volume coordinate of `ps`. */
  ghost predicate IsMinX(ps: Polyline, m: real) {
    (exists i :: 0 <= i < |ps| && ps[i].0 == m) && forall i :: 0 <= i < |ps| ==> m <= ps[i].0
  }

  /** `m` is the least price coordinate of `ps`. */
  ghost predicate IsMinY(ps: Polyline, m: real) {
    (exists i :: 0 <= i < |ps| && ps[i].1 == m) && forall i :: 0 <= i < |ps| ==> m <= ps[i].1
  }

  /** `(smv, smp)` is the clearing read off an intersection: a point rounded to one and two
      decimals, the two separate minima of a line or multipoint; no other kind has one. */
  ghost predicate IsClearing(g: Intersection, smv: real, smp: real) {
    match g
    case Point(x, y) => RoundsTo(x, 1, smv) && RoundsTo(y, 2, smp)
    case Line(ps) => IsMinX(ps, smv) && IsMinY(ps, smp)
    case Multi(ps) => IsMinX(ps, smv) && IsMinY(ps, smp)
    case Other => false
  }

  /** The branches on the result kind (python/sensitivity.py:45-55,
      python/sensitivity_opt.py:40-44): rounding of a point, minima of a line or multipoint. */
  function Clearing(g: Intersection): (r: (real, real))
    requires Handled(g)
    ensures IsClearing(g, r.0, r.1)
  {
    match g
    case Line(ps) => (MinX(ps), MinY(ps))
    case Multi(ps) => (MinX(ps), MinY(ps))
    case Point(x, y) =>
      RoundMeetsRule(x, 1);
      RoundMeetsRule(y, 2);
      (Round(x, 1), Round(y, 2))
  }

  /** An intersection has at most one clearing. */
  lemma ClearingIsUnique(g: Intersection, smv: real, smp: real, smv': real, smp': real)
    requires IsClearing(g, smv, smp) && IsClearing(g, smv', smp')
    ensures smv == smv' && smp == smp'
  {
    match g
    case Point(x, y) =>
      RoundRuleIsUnique(x, 1, smv);
      RoundRuleIsUnique(x, 1, smv');
      RoundRuleIsUnique(y, 2, smp);
      RoundRuleIsUnique(y, 2, smp');
    case Line(ps) =>
      MinimaAgree(ps, smv, smp, smv', smp');
    case Multi(ps) =>
      MinimaAgree(ps, smv, smp, smv', smp');
  }

  lemma MinimaAgree(ps: Polyline, smv: real, smp: real, smv': real, smp': real)
    requires IsMinX(ps, smv) && IsMinY(ps, smp) && IsMinX(ps, smv') && IsMinY(ps, smp')
    ensures smv == smv' && smp == smp'
  {
    var i :| 0 <= i < |ps| && ps[i].0 == smv;
    var i' :| 0 <= i' < |ps| && ps[i'].0 == smv';
    var j :| 0 <= j < |ps| && ps[j].1 == smp;
    var j' :| 0 <= j' < |ps| && ps[j'].1 == smp';
  }

  /** The two minima are taken independently, so the pair they form need not be a
      coordinate of the intersection: here the result (0, 0) lies on neither vertex. */
  lemma MinimaNeedNotFormAVertex()
    ensures var ps := [(0.0, 1.0), (1.0, 0.0)];
      MinX(ps) == 0.0 && MinY(ps) == 0.0 && (MinX(ps), MinY(ps)) !in ps
  {
    var ps := [(0.0, 1.0), (1.0, 0.0)];
    assert ps[1..] == [(1.0, 0.0)];
  }

  /** Along a flat price tier shared by the two curves (every coordinate has the same
      price) the pair of minima is the tier's left end, a coordinate of the result. */
  lemma {:induction false} FlatTierClearsAtLeftEnd(ps: Polyline, p: real)
    requires |ps| > 0
    requires forall i :: 0 <= i < |ps| ==> ps[i].1 == p
    ensures MinY(ps) == p
    ensures (MinX(ps), MinY(ps)) in ps
  {
    var i :| 0 <= i < |ps| && ps[i].0 == MinX(ps);
    assert ps[i] == (MinX(ps), p);
  }
}
