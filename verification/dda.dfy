/**
 * The stroke-connecting walk of the painting engine (a 3D DDA-style
 * stepping between the previous and the current stroke sample).
 *
 * Every axis keeps a threshold that starts at `step`, is lowered by the
 * axis delta once per iteration and, when it drops below zero, is RESET
 * to `step` (not raised by `step`) while the coordinate advances by the
 * axis increment. Because of the reset, an axis with delta `d` advances
 * exactly once every `step / d + 1` iterations, which gives the walk the
 * closed form `WalkAt` below.
 */
module Dda {
  import opened Grid
  import opened Order

  /** Per-axis `|point - prev| + 1`, per-axis direction, and the walk length. */
  datatype Plan = Plan(delta: Point, inc: Point, step: int)

  function Abs(v: int): nat {
    if v < 0 then -v else v
  }

  /** A plan whose deltas lie in `[1, step]` and whose increments are unit steps. */
  predicate WellFormed(plan: Plan) {
    forall a: Axis ::
      1 <= Coord(plan.delta, a) <= plan.step
      && (Coord(plan.inc, a) == 1 || Coord(plan.inc, a) == -1)
  }

  function AxisDelta(from: int, to: int): int {
    (if to - from < 0 then from - to else to - from) + 1
  }

  function AxisInc(from: int, to: int): int {
    if to - from < 0 then -1 else 1
  }

  /** The walk parameters for a stroke segment from `prev` to `point`. */
  function MakePlan(prev: Point, point: Point): (plan: Plan)
    ensures WellFormed(plan)
    ensures forall a: Axis :: Coord(plan.delta, a) == Abs(Coord(point, a) - Coord(prev, a)) + 1
    ensures forall a: Axis :: Coord(plan.inc, a) == if Coord(point, a) < Coord(prev, a) then -1 else 1
    ensures exists a: Axis :: plan.step == Coord(plan.delta, a)
  {
    var delta := Point(AxisDelta(prev.x, point.x), AxisDelta(prev.y, point.y), AxisDelta(prev.z, point.z));
    var inc := Point(AxisInc(prev.x, point.x), AxisInc(prev.y, point.y), AxisInc(prev.z, point.z));
    var step := Max(Max(delta.x, delta.y), delta.z);
    assert Coord(delta, X) == delta.x && Coord(delta, Y) == delta.y && Coord(delta, Z) == delta.z;
    Plan(delta, inc, step)
  }

  /** Number of iterations between two advances of an axis with delta `d`. */
  function Period(d: int, step: int): int
    requires 1 <= d <= step
  {
    step / d + 1
  }

  /** How many times axis `a` has advanced before iteration `s`. */
  function Moves(plan: Plan, a: Axis, s: nat): nat
    requires WellFormed(plan)
  {
    s / Period(Coord(plan.delta, a), plan.step)
  }

  /** The threshold of axis `a` at the start of iteration `s`. */
  function Threshold(plan: Plan, a: Axis, s: nat): int
    requires WellFormed(plan)
  {
    plan.step - (s % Period(Coord(plan.delta, a), plan.step)) * Coord(plan.delta, a)
  }

  /** The lattice point written by iteration `s` of a walk that starts at `start`. */
  function WalkAt(plan: Plan, start: Point, s: nat): Point
    requires WellFormed(plan)
  {
    Point(start.x + plan.inc.x * Moves(plan, X, s),
          start.y + plan.inc.y * Moves(plan, Y, s),
          start.z + plan.inc.z * Moves(plan, Z, s))
  }

  /**
   * One axis of one iteration: lower the threshold by the axis delta; when
   * it drops below zero, reset it to `step` and advance the coordinate.
   */
  function AdvanceAxis(thresh: int, delta: int, step: int, coord: int, inc: int): (int, int) {
    var t := thresh - delta;
    if t < 0 then (step, coord + inc) else (t, coord)
  }

  /**
   * The threshold/coordinate update of one iteration keeps every axis on
   * the closed form: after it, the threshold and the coordinate are those
   * of iteration `s + 1`.
   */
  lemma {:induction false} AdvanceFollowsClosedForm(plan: Plan, a: Axis, origin: int, s: nat)
    requires WellFormed(plan)
    ensures AdvanceAxis(Threshold(plan, a, s), Coord(plan.delta, a), plan.step,
                        origin + Coord(plan.inc, a) * Moves(plan, a, s), Coord(plan.inc, a))
         == (Threshold(plan, a, s + 1), origin + Coord(plan.inc, a) * Moves(plan, a, s + 1))
  {
    var d, step := Coord(plan.delta, a), plan.step;
    PeriodStep(d, step, s);
  }

  /**
   * Arithmetic of the reset threshold: at iteration `s` the threshold is
   * `step - (s % p) * d`; lowering it by `d` makes it negative exactly when
   * iteration `s + 1` starts a new period.
   */
  lemma PeriodStep(d: int, step: int, s: nat)
    requires 1 <= d <= step
    ensures var p := Period(d, step);
      && step - (s % p) * d >= 0
      && (step - (s % p) * d - d < 0 <==> (s + 1) % p == 0)
      && ((s + 1) % p == 0 ==> (s + 1) / p == s / p + 1)
      && ((s + 1) % p != 0 ==> (s + 1) / p == s / p && (s + 1) % p == s % p + 1)
  {
    var p := Period(d, step);
    var m := step / d;
    var q, r := s / p, s % p;
    assert step == m * d + step % d;
    assert r <= m;
    MulLeft(r, m, d);
    if r + 1 == p {
      DivModUnique(s + 1, p, q + 1, 0);
      MulLeft(m + 1, r + 1, d);
    } else {
      DivModUnique(s + 1, p, q, r + 1);
      MulLeft(r + 1, m, d);
    }
  }

  /** Every iteration moves each coordinate by 0 or by the axis increment. */
  lemma {:induction false} WalkUnitSteps(plan: Plan, start: Point, s: nat, a: Axis)
    requires WellFormed(plan)
    ensures Coord(WalkAt(plan, start, s + 1), a) - Coord(WalkAt(plan, start, s), a) in {0, Coord(plan.inc, a)}
  {
    var inc := Coord(plan.inc, a);
    var m0, m1 := Moves(plan, a, s), Moves(plan, a, s + 1);
    PeriodStep(Coord(plan.delta, a), plan.step, s);
    assert m1 == m0 || m1 == m0 + 1;
    assert Coord(WalkAt(plan, start, s + 1), a) - Coord(WalkAt(plan, start, s), a) == inc * (m1 - m0);
  }

  /**
   * During the `step + 1` iterations an axis advances at most
   * `delta - 1` times, which is the distance between the two samples.
   */
  lemma {:induction false} MovesBounded(plan: Plan, a: Axis, s: nat)
    requires WellFormed(plan)
    requires s <= plan.step
    ensures Moves(plan, a, s) <= Coord(plan.delta, a) - 1
  {
    var d, step := Coord(plan.delta, a), plan.step;
    DivMonotone(s, step, Period(d, step));
    QuotientBelowDelta(d, step);
  }

  /** `step / (step / d + 1) < d`: the whole walk contains fewer than `d` periods. */
  lemma QuotientBelowDelta(d: int, step: int)
    requires 1 <= d <= step
    ensures step / Period(d, step) < d
  {
    var p := Period(d, step);
    var m := step / d;
    var q := step / p;
    assert step == m * d + step % d;
    assert q * p <= step;
    assert d * p == m * d + d;
    MulMono(d, q, p);
  }

  lemma DivMonotone(a: nat, b: nat, n: int)
    requires a <= b && n > 0
    ensures a / n <= b / n
  {
    var qa, qb := a / n, b / n;
    assert qa * n <= a;
    assert b < (qb + 1) * n;
    MulMono(qb + 1, qa, n);
  }

  /**
   * A walk for the segment `prev -> point` never overshoots: on every axis
   * the visited coordinate stays between the start and the start shifted
   * by `point - prev`.
   */
  lemma {:induction false} WalkWithinSegment(prev: Point, point: Point, start: Point, s: nat, a: Axis)
    requires s <= MakePlan(prev, point).step
    ensures var c := Coord(WalkAt(MakePlan(prev, point), start, s), a);
      var lo := Coord(start, a);
      var hi := Coord(start, a) + Coord(point, a) - Coord(prev, a);
      (lo <= hi ==> lo <= c <= hi) && (hi <= lo ==> hi <= c <= lo)
  {
    var plan := MakePlan(prev, point);
    MovesBounded(plan, a, s);
  }

  /** When the two samples coincide the walk has length 1 and never leaves its start. */
  lemma {:induction false} StationaryWalk(p: Point, start: Point, s: nat)
    requires s <= MakePlan(p, p).step
    ensures MakePlan(p, p).step == 1
    ensures WalkAt(MakePlan(p, p), start, s) == start
  {
    var plan := MakePlan(p, p);
    assert Coord(plan.delta, X) == 1;
  }

  /**
   * On the dominant axis (delta equal to `step`) the walk advances only every
   * second iteration, so it ends `step / 2` voxels from its start instead of
   * `step - 1`.
   */
  lemma {:induction false} DominantAxisHalfway(plan: Plan, a: Axis)
    requires WellFormed(plan)
    requires Coord(plan.delta, a) == plan.step
    ensures Moves(plan, a, plan.step) == plan.step / 2
  {
    assert Period(plan.step, plan.step) == 2;
  }

  /**
   * Samples `(0,0,0)` then `(3,0,0)`: the walk from the origin ends at
   * `(2,0,0)` and never visits `(3,0,0)`.
   */
  lemma StopsShortExample()
    ensures var plan := MakePlan(Point(0, 0, 0), Point(3, 0, 0));
      && plan.step == 4
      && WalkAt(plan, Point(0, 0, 0), 4) == Point(2, 0, 0)
      && forall s: nat :: s <= 4 ==> WalkAt(plan, Point(0, 0, 0), s) != Point(3, 0, 0)
  {
    var plan := MakePlan(Point(0, 0, 0), Point(3, 0, 0));
    assert plan.step == 4;
    forall s: nat | s <= 4
      ensures WalkAt(plan, Point(0, 0, 0), s) != Point(3, 0, 0)
    {
      MovesBounded(plan, X, s);
      DominantAxisHalfway(plan, X);
      DivMonotone(s, 4, 2);
    }
  }
}
