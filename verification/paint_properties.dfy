/**
 * Properties of one `paint` call and of `paintRectangle`: the brush box
 * covers the in-volume part of the ellipsoid, a stationary stroke stamps
 * exactly the ellipsoid, every painted voxel is a brush voxel swept along
 * the stroke segment, and the rectangle fill is exact, symmetric and
 * idempotent.
 */
module PaintProperties {
  import opened Wrappers
  import opened Grid
  import opened Dda
  import opened PaintWorker
  import opened Order

  predicate Between(c: int, a: int, b: int) {
    (a <= b ==> a <= c <= b) && (b <= a ==> b <= c <= a)
  }

  /** A quotient whose square is at most 1 bounds the numerator by the divisor. */
  lemma QuotientBound(rel: real, r: real, other: real)
    requires r > 0.0 && other >= 0.0
    requires (rel / r) * (rel / r) + other <= 1.0
    ensures -r <= rel <= r
  {
    var q := rel / r;
    assert rel == q * r;
    assert -1.0 <= q <= 1.0;
  }

  lemma RangeCovers(n: nat, c: int, r: real, v: int)
    requires 0 <= v < n
    requires c as real - r <= v as real <= c as real + r
    ensures InRange(BrushRange(n, c, r), v)
  {
  }

  /**
   * On every unlocked axis the brush box contains each in-volume voxel
   * that passes the ellipsoid test, so clamping loses nothing.
   */
  lemma {:induction false} PaintBoxCoversEllipsoid(dims: Dims, center: Point, radius: Radius, mode: SlicingMode, v: Point)
    requires Positive(radius)
    requires InBounds(dims, v) && InEllipsoid(center, radius, v)
    ensures var b := PaintBox(dims, center, radius, mode);
      && (mode != SliceX ==> InRange(b.x, v.x))
      && (mode != SliceY ==> InRange(b.y, v.y))
      && (mode != SliceZ ==> InRange(b.z, v.z))
  {
    var iv := (v.x - center.x) as real / radius.rx;
    var jv := (v.y - center.y) as real / radius.ry;
    var kv := (v.z - center.z) as real / radius.rz;
    QuotientBound((v.x - center.x) as real, radius.rx, jv * jv + kv * kv);
    QuotientBound((v.y - center.y) as real, radius.ry, iv * iv + kv * kv);
    QuotientBound((v.z - center.z) as real, radius.rz, iv * iv + jv * jv);
    RangeCovers(dims.nx, center.x, radius.rx, v.x);
    RangeCovers(dims.ny, center.y, radius.ry, v.y);
    RangeCovers(dims.nz, center.z, radius.rz, v.z);
  }

  /** The seed `(i, j, k)` of the box writes `v`: the nested-loop predicates unfold to one witness. */
  lemma PaintedByWitness(st: Stroke, v: Point, i: int, j: int, k: int, s: nat)
    requires WellFormed(st.plan)
    requires InBox(st.box, Point(i, j, k)) && InEllipsoid(st.center, st.radius, Point(i, j, k))
    requires s <= st.plan.step && WalkAt(st.plan, Origin(st, i, j, k), s) == v
    ensures Painted(st, v)
  {
    assert WalkHitsBefore(st.plan, Origin(st, i, j, k), v, st.plan.step + 1);
    assert SeedHits(st, v, i, j, k);
    assert ColumnHits(st, v, i, j, Stop(st.box.z));
    assert PlaneHits(st, v, i, Stop(st.box.y));
  }

  /** A painted voxel has a seed in the box, passing the ellipsoid test, whose walk writes it. */
  lemma PaintedWitness(st: Stroke, v: Point) returns (i: int, j: int, k: int, s: nat)
    requires WellFormed(st.plan)
    requires Painted(st, v)
    ensures InBox(st.box, Point(i, j, k)) && InEllipsoid(st.center, st.radius, Point(i, j, k))
    ensures s <= st.plan.step && WalkAt(st.plan, Origin(st, i, j, k), s) == v
  {
    i :| st.box.x.lo <= i < Stop(st.box.x) && PlaneHits(st, v, i, Stop(st.box.y));
    j :| st.box.y.lo <= j < Stop(st.box.y) && ColumnHits(st, v, i, j, Stop(st.box.z));
    k :| st.box.z.lo <= k < Stop(st.box.z) && SeedHits(st, v, i, j, k);
    s :| s < st.plan.step + 1 && WalkAt(st.plan, Origin(st, i, j, k), s) == v;
  }

  /**
   * When the previous sample equals the current point (in particular on
   * the first paint after `start`) every walk stays on its seed, so the
   * painted voxels are exactly the box voxels inside the ellipsoid.
   */
  lemma {:induction false} StationaryPaintStampsEllipsoid(session: Session, point: Point, radius: Radius, v: Point)
    requires session.prevPoint == None || session.prevPoint == Some(point)
    ensures var st := MakeStroke(session, point, radius);
      Painted(st, v) <==> InBox(st.box, v) && InEllipsoid(point, radius, v)
  {
    var st := MakeStroke(session, point, radius);
    assert st.prev == point;
    if Painted(st, v) {
      var i, j, k, s := PaintedWitness(st, v);
      StationaryWalk(point, Origin(st, i, j, k), s);
    }
    if InBox(st.box, v) && InEllipsoid(point, radius, v) {
      StationaryWalk(point, Origin(st, v.x, v.y, v.z), 0);
      PaintedByWitness(st, v, v.x, v.y, v.z, 0);
    }
  }

  /**
   * The first paint of a stroke writes exactly the in-volume voxels of the
   * ellipsoid, restricted to the center's slice on a locked axis.
   */
  lemma {:induction false} FirstPaintExact(session: Session, point: Point, radius: Radius, v: Point)
    requires session.prevPoint == None || session.prevPoint == Some(point)
    requires Positive(radius)
    requires InBounds(session.dimensions, v)
    ensures Painted(MakeStroke(session, point, radius), v)
      <==> && InEllipsoid(point, radius, v)
           && (session.slicingMode == SliceX ==> v.x == point.x)
           && (session.slicingMode == SliceY ==> v.y == point.y)
           && (session.slicingMode == SliceZ ==> v.z == point.z)
  {
    StationaryPaintStampsEllipsoid(session, point, radius, v);
    if InEllipsoid(point, radius, v) {
      PaintBoxCoversEllipsoid(session.dimensions, point, radius, session.slicingMode, v);
    }
  }

  /**
   * Every painted voxel is a brush voxel `q` (in the box and in the
   * ellipsoid) translated by a displacement that lies, axis by axis,
   * between `prev - point` and zero: the brush is swept along the stroke
   * segment and never past either sample.
   */
  lemma {:induction false} PaintedIsSweptBrush(st: Stroke, v: Point)
    requires st.plan == MakePlan(st.prev, st.center)
    requires Painted(st, v)
    ensures exists q: Point ::
      && InBox(st.box, q) && InEllipsoid(st.center, st.radius, q)
      && Between(v.x - q.x + st.center.x, st.prev.x, st.center.x)
      && Between(v.y - q.y + st.center.y, st.prev.y, st.center.y)
      && Between(v.z - q.z + st.center.z, st.prev.z, st.center.z)
  {
    var i, j, k, s := PaintedWitness(st, v);
    var origin := Origin(st, i, j, k);
    WalkWithinSegment(st.prev, st.center, origin, s, X);
    WalkWithinSegment(st.prev, st.center, origin, s, Y);
    WalkWithinSegment(st.prev, st.center, origin, s, Z);
    var q := Point(i, j, k);
    assert InEllipsoid(st.center, st.radius, q);
  }

  /**
   * With the Z slicing mode, the painted voxels keep `z` between the
   * previous and the current sample; the walk can therefore leave the
   * center's slice when the stroke moves along Z.
   */
  lemma {:induction false} SliceZPaintStaysBetweenSamples(session: Session, point: Point, radius: Radius, v: Point)
    requires session.slicingMode == SliceZ
    requires Painted(MakeStroke(session, point, radius), v)
    ensures Between(v.z, session.prevPoint.GetOr(point).z, point.z)
  {
    var st := MakeStroke(session, point, radius);
    PaintedIsSweptBrush(st, v);
    var q :| InBox(st.box, q) && Between(v.z - q.z + st.center.z, st.prev.z, st.center.z);
    assert q.z == point.z;
  }

  /**
   * A brush of radius 0.5 centred on a voxel, on the first paint of a
   * stroke, paints that voxel and nothing else.
   */
  lemma {:induction false} HalfVoxelBrushPaintsCenter(session: Session, point: Point, v: Point)
    requires session.prevPoint == None
    requires InBounds(session.dimensions, v) && InBounds(session.dimensions, point)
    ensures Painted(MakeStroke(session, point, Radius(0.5, 0.5, 0.5)), v) <==> v == point
  {
    var radius := Radius(0.5, 0.5, 0.5);
    FirstPaintExact(session, point, radius, v);
    HalfVoxelEllipsoid(point, v);
  }

  /** The ellipsoid of radius 0.5 about an integer point holds that point only. */
  lemma HalfVoxelEllipsoid(center: Point, v: Point)
    ensures InEllipsoid(center, Radius(0.5, 0.5, 0.5), v) <==> v == center
  {
    HalfRadiusTerm(v.x - center.x);
    HalfRadiusTerm(v.y - center.y);
    HalfRadiusTerm(v.z - center.z);
    if v.x == center.x && v.y == center.y && v.z == center.z {
      assert v == center;
    }
  }

  /** With radius 0.5 an integer offset contributes 0 when it is 0 and at least 4 otherwise. */
  lemma HalfRadiusTerm(d: int)
    ensures var t := (d as real) / 0.5; t * t >= 0.0 && (d == 0 <==> t * t == 0.0) && (d != 0 ==> t * t >= 4.0)
  {
    var t := (d as real) / 0.5;
    assert t == 2.0 * (d as real);
    assert t * t == 4.0 * ((d * d) as real);
    SquareAtLeastOne(d);
  }

  lemma SquareAtLeastOne(d: int)
    ensures d * d >= 0
    ensures d != 0 ==> d * d >= 1
  {
    if d >= 1 {
      MulLeft(1, d, d);
    } else if d <= -1 {
      MulLeft(1, -d, -d as nat);
    }
  }

  // ---------------------------------------------------------------------
  // paintRectangle
  // ---------------------------------------------------------------------

  /** The corner order of a rectangle request does not matter. */
  lemma RectBoxSymmetric(dims: Dims, p1: Point, p2: Point)
    ensures RectBox(dims, p1, p2) == RectBox(dims, p2, p1)
  {
  }

  /** Filling a box twice leaves the buffer as filling it once. */
  lemma RectangleIdempotent(buf: seq<int>, dims: Dims, p1: Point, p2: Point)
    requires |buf| == Size(dims)
    ensures var b := RectBox(dims, p1, p2);
      BoxFill(BoxFill(buf, dims, b), dims, b) == BoxFill(buf, dims, b)
  {
  }

  /**
   * In terms of voxel coordinates: `paintRectangle` sets exactly the entries
   * `i + j*nx + k*nx*ny` whose coordinates lie in the clamped ranges
   * `max(min, 0) .. min(max, dim - 1)`, and keeps all others.
   */
  lemma {:induction false} RectangleExactIndices(buf: seq<int>, dims: Dims, p1: Point, p2: Point, v: Point)
    requires |buf| == Size(dims)
    requires InBounds(dims, v)
    ensures var r := BoxFill(buf, dims, RectBox(dims, p1, p2));
      r[Index(dims, v)] == if && Max(Min(p1.x, p2.x), 0) <= v.x <= Min(Max(p1.x, p2.x), dims.nx - 1)
                              && Max(Min(p1.y, p2.y), 0) <= v.y <= Min(Max(p1.y, p2.y), dims.ny - 1)
                              && Max(Min(p1.z, p2.z), 0) <= v.z <= Min(Max(p1.z, p2.z), dims.nz - 1)
                           then 1 else buf[Index(dims, v)]
  {
    VoxelAtIndex(dims, v);
  }

  /** A rectangle whose clamped range is empty on some axis writes nothing. */
  lemma {:induction false} EmptyRectangleWritesNothing(buf: seq<int>, dims: Dims, p1: Point, p2: Point)
    requires |buf| == Size(dims)
    requires var b := RectBox(dims, p1, p2); b.x.lo > b.x.hi || b.y.lo > b.y.hi || b.z.lo > b.z.hi
    ensures BoxFill(buf, dims, RectBox(dims, p1, p2)) == buf
  {
    var r := BoxFill(buf, dims, RectBox(dims, p1, p2));
    forall idx | 0 <= idx < |buf|
      ensures r[idx] == buf[idx]
    {
    }
  }

  /**
   * Lines 123-124 as written, on a 4x4x4 volume with corners `(-10,0,0)`
   * and `(-20,0,0)`: the clamped x-range `0 .. -10` is empty, yet the fill's
   * end position `-9` counts from the end of the buffer, so entries 0..54
   * all become 1 (entry 54 is voxel `(2,1,3)`, outside the box) and only
   * 55..63 stay 0.
   */
  lemma FillRowAsWrittenWrapsAround()
    ensures var dims := Dims(4, 4, 4);
      var b := RectBox(dims, Point(-10, 0, 0), Point(-20, 0, 0));
      var r := FillRowAsWritten(seq(64, _ => 0), dims, b.x, 0, 0);
      && b == Box(Range(0, -10), Range(0, 0), Range(0, 0))
      && VoxelAt(dims, 54) == Point(2, 1, 3) && !InBox(b, Point(2, 1, 3))
      && |r| == 64
      && forall i :: 0 <= i < 64 ==> r[i] == if i <= 54 then 1 else 0
  {
    var dims := Dims(4, 4, 4);
    assert Index(dims, Point(2, 1, 3)) == 54;
    VoxelAtIndex(dims, Point(2, 1, 3));
  }

  /** The guarded row fill agrees with the fill as written whenever the end position is not negative. */
  lemma {:induction false} FillRowMatchesAsWritten(buf: seq<int>, dims: Dims, x: Range, j: int, k: int)
    requires |buf| == Size(dims)
    requires 0 <= j < dims.ny && 0 <= k < dims.nz
    requires 0 <= x.lo && -1 <= x.hi < dims.nx
    ensures FillRow(buf, dims, x, j, k) == FillRowAsWritten(buf, dims, x, j, k)
  {
    if x.lo > x.hi {
      var index := j * dims.nx + k * (dims.nx * dims.ny);
      assert index >= 0 by {
        MulMono(0, j, dims.nx);
        MulMono(0, k, dims.nx * dims.ny);
      }
      FillEmpty(buf, 1, index + x.lo, index + x.hi + 1);
    }
  }

  /** A fill whose end is not negative and not after its start writes nothing. */
  lemma FillEmpty(a: seq<int>, value: int, start: int, end: int)
    requires 0 <= end <= start
    ensures Fill(a, value, start, end) == a
  {
    assert RelativeIndex(end, |a|) <= RelativeIndex(start, |a|);
  }
}
