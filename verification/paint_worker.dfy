/**
 * The labelmap painting worker: a session holding a flat voxel buffer,
 * the volume dimensions, the previous stroke sample and the slicing mode;
 * the `start` operation that (re)initialises it; `paint`, which stamps an
 * ellipsoid brush swept along the stroke segment by the DDA walk; and
 * `paintRectangle`, which fills the rows of an axis-aligned box.
 */
module PaintWorker {
  import opened Wrappers
  import opened Grid
  import opened Dda
  import opened Order

  /**
   * The slicing constraint. `Unlocked` stands for no mode and for every
   * mode value other than the X, Y and Z slicing modes, none of which
   * changes the bounding box.
   */
  datatype SlicingMode = Unlocked | SliceX | SliceY | SliceZ

  /** Per-axis ellipsoid radii. */
  datatype Radius = Radius(rx: real, ry: real, rz: real)

  predicate Positive(r: Radius) {
    r.rx > 0.0 && r.ry > 0.0 && r.rz > 0.0
  }

  /** An inclusive integer range `lo..hi`; empty when `lo > hi`. */
  datatype Range = Range(lo: int, hi: int)

  datatype Box = Box(x: Range, y: Range, z: Range)

  predicate InRange(r: Range, v: int) {
    r.lo <= v <= r.hi
  }

  predicate InBox(b: Box, p: Point) {
    InRange(b.x, p.x) && InRange(b.y, p.y) && InRange(b.z, p.z)
  }

  /** The value a `for (v = lo; v <= hi; v++)` loop variable has when the loop exits. */
  function Stop(r: Range): int {
    if r.lo <= r.hi then r.hi + 1 else r.lo
  }

  /** The worker's session state: the labelmap, its dimensions, the previous sample and the slicing mode. */
  datatype Session = Session(buffer: seq<int>, dimensions: Dims, prevPoint: Option<Point>, slicingMode: SlicingMode)

  /** The buffer holds one entry per voxel. */
  predicate Valid(s: Session) {
    |s.buffer| == Size(s.dimensions)
  }

  /** The state before any `start`: no buffer (modelled as empty), zero dimensions, no previous sample. */
  const Idle: Session := Session([], Dims(0, 0, 0), None, Unlocked)

  /** The `start` operation: a zeroed buffer with one entry per voxel, and a fresh stroke. */
  function Start(dims: Dims, mode: SlicingMode): (s: Session)
    ensures Valid(s)
    ensures |s.buffer| == dims.nx * dims.ny * dims.nz
    ensures forall i :: 0 <= i < |s.buffer| ==> s.buffer[i] == 0
    ensures s.prevPoint == None
    ensures s.dimensions == dims && s.slicingMode == mode
  {
    Session(seq(Size(dims), _ => 0), dims, None, mode)
  }

  // ---------------------------------------------------------------------
  // Brush geometry
  // ---------------------------------------------------------------------

  /** `floor(min(n - 1, max(0, v)))`. */
  function ClampFloor(n: nat, v: real): int {
    MinReal((n as int - 1) as real, MaxReal(0.0, v)).Floor
  }

  /** The bounding range of the brush on one unlocked axis. */
  function BrushRange(n: nat, c: int, r: real): Range {
    Range(ClampFloor(n, c as real - r), ClampFloor(n, c as real + r))
  }

  /**
   * The bounding box of the brush: each axis clamped to the volume, then
   * the locked axis of an X/Y/Z slicing mode replaced by the raw center
   * coordinate (neither floored nor clamped).
   */
  function PaintBox(dims: Dims, center: Point, radius: Radius, mode: SlicingMode): (b: Box)
    ensures mode == SliceX ==> b.x == Range(center.x, center.x)
    ensures mode == SliceY ==> b.y == Range(center.y, center.y)
    ensures mode == SliceZ ==> b.z == Range(center.z, center.z)
    ensures mode != SliceX && dims.nx >= 1 ==> 0 <= b.x.lo && b.x.hi <= dims.nx - 1
    ensures mode != SliceY && dims.ny >= 1 ==> 0 <= b.y.lo && b.y.hi <= dims.ny - 1
    ensures mode != SliceZ && dims.nz >= 1 ==> 0 <= b.z.lo && b.z.hi <= dims.nz - 1
    ensures mode != SliceX && radius.rx >= 0.0 && dims.nx >= 1 ==> b.x.lo <= b.x.hi
    ensures mode != SliceY && radius.ry >= 0.0 && dims.ny >= 1 ==> b.y.lo <= b.y.hi
    ensures mode != SliceZ && radius.rz >= 0.0 && dims.nz >= 1 ==> b.z.lo <= b.z.hi
  {
    var b := Box(BrushRange(dims.nx, center.x, radius.rx),
                 BrushRange(dims.ny, center.y, radius.ry),
                 BrushRange(dims.nz, center.z, radius.rz));
    match mode
    case Unlocked => b
    case SliceX => b.(x := Range(center.x, center.x))
    case SliceY => b.(y := Range(center.y, center.y))
    case SliceZ => b.(z := Range(center.z, center.z))
  }

  /**
   * The membership test `((i-x)/rx)^2 + ((j-y)/ry)^2 + ((k-z)/rz)^2 <= 1`.
   * A zero radius makes a quotient infinite or NaN, and the comparison
   * then fails, so no voxel passes.
   */
  predicate InEllipsoid(center: Point, radius: Radius, p: Point) {
    radius.rx != 0.0 && radius.ry != 0.0 && radius.rz != 0.0 &&
    var iv := (p.x - center.x) as real / radius.rx;
    var jv := (p.y - center.y) as real / radius.ry;
    var kv := (p.z - center.z) as real / radius.rz;
    iv * iv + jv * jv + kv * kv <= 1.0
  }

  // ---------------------------------------------------------------------
  // What one `paint` call writes
  // ---------------------------------------------------------------------

  /** Everything one `paint` call computes before its voxel loops. */
  datatype Stroke = Stroke(dims: Dims, center: Point, radius: Radius, prev: Point, box: Box, plan: Plan)

  /** The previous sample defaults to the current one on the first paint of a stroke. */
  function MakeStroke(s: Session, point: Point, radius: Radius): (st: Stroke)
    ensures WellFormed(st.plan)
  {
    var prev := s.prevPoint.GetOr(point);
    Stroke(s.dimensions, point, radius, prev,
           PaintBox(s.dimensions, point, radius, s.slicingMode), MakePlan(prev, point))
  }

  /** Where the walk seeded by brush voxel `(i, j, k)` starts: its offset from the center, applied to `prev`. */
  function Origin(st: Stroke, i: int, j: int, k: int): Point {
    Point(i - st.center.x + st.prev.x, j - st.center.y + st.prev.y, k - st.center.z + st.prev.z)
  }

  /** Iteration `s < n` of the walk from `start` writes voxel `v`. */
  ghost predicate WalkHitsBefore(plan: Plan, start: Point, v: Point, n: int)
    requires WellFormed(plan)
  {
    exists s: nat :: s < n && WalkAt(plan, start, s) == v
  }

  /** Some iteration of the walk from `start` writes voxel `v`. */
  ghost predicate WalkHits(plan: Plan, start: Point, v: Point)
    requires WellFormed(plan)
  {
    WalkHitsBefore(plan, start, v, plan.step + 1)
  }

  /** Brush voxel `(i, j, k)` passes the ellipsoid test and its walk writes `v`. */
  ghost predicate SeedHits(st: Stroke, v: Point, i: int, j: int, k: int)
    requires WellFormed(st.plan)
  {
    InEllipsoid(st.center, st.radius, Point(i, j, k)) && WalkHits(st.plan, Origin(st, i, j, k), v)
  }

  /** Some seed `(i, j, k)` with `k` below `kEnd` writes `v`. */
  ghost predicate ColumnHits(st: Stroke, v: Point, i: int, j: int, kEnd: int)
    requires WellFormed(st.plan)
  {
    exists k :: st.box.z.lo <= k < kEnd && SeedHits(st, v, i, j, k)
  }

  /** Some seed `(i, j, k)` with `j` below `jEnd` writes `v`. */
  ghost predicate PlaneHits(st: Stroke, v: Point, i: int, jEnd: int)
    requires WellFormed(st.plan)
  {
    exists j :: st.box.y.lo <= j < jEnd && ColumnHits(st, v, i, j, Stop(st.box.z))
  }

  /** Some seed with `i` below `iEnd` writes `v`. */
  ghost predicate BoxHits(st: Stroke, v: Point, iEnd: int)
    requires WellFormed(st.plan)
  {
    exists i :: st.box.x.lo <= i < iEnd && PlaneHits(st, v, i, Stop(st.box.y))
  }

  /** Voxel `v` is written by the `paint` call described by `st`. */
  ghost predicate Painted(st: Stroke, v: Point)
    requires WellFormed(st.plan)
  {
    BoxHits(st, v, Stop(st.box.x))
  }

  // ---------------------------------------------------------------------
  // paint
  // ---------------------------------------------------------------------

  /**
   * One DDA walk: `step + 1` iterations, each writing 1 at the current
   * point when it is inside the volume and then advancing every axis by
   * its threshold rule. Exactly the in-bounds points of the walk are set.
   */
  method StampWalk(buffer: seq<int>, dims: Dims, plan: Plan, start: Point) returns (r: seq<int>)
    requires |buffer| == Size(dims)
    requires WellFormed(plan)
    ensures |r| == |buffer|
    ensures forall idx :: 0 <= idx < |r| ==>
      r[idx] == if WalkHits(plan, start, VoxelAt(dims, idx)) then 1 else buffer[idx]
  {
    r := buffer;
    var pt := start;
    var thresh := Point(plan.step, plan.step, plan.step);
    var s := 0;
    while s <= plan.step
      invariant 0 <= s <= plan.step + 1
      invariant |r| == |buffer|
      invariant pt == WalkAt(plan, start, s)
      invariant thresh == Point(Threshold(plan, X, s), Threshold(plan, Y, s), Threshold(plan, Z, s))
      invariant forall idx :: 0 <= idx < |r| ==>
        r[idx] == if WalkHitsBefore(plan, start, VoxelAt(dims, idx), s) then 1 else buffer[idx]
    {
      if InBounds(dims, pt) {
        r := r[Index(dims, pt) := 1];
      }
      forall idx | 0 <= idx < |r|
        ensures r[idx] == if WalkHitsBefore(plan, start, VoxelAt(dims, idx), s + 1) then 1 else buffer[idx]
      {
        WalkHitsBeforeNext(plan, start, VoxelAt(dims, idx), s);
        if InBounds(dims, pt) {
          VoxelAtIndex(dims, pt);
        }
      }
      var ax := AdvanceAxis(thresh.x, plan.delta.x, plan.step, pt.x, plan.inc.x);
      var ay := AdvanceAxis(thresh.y, plan.delta.y, plan.step, pt.y, plan.inc.y);
      var az := AdvanceAxis(thresh.z, plan.delta.z, plan.step, pt.z, plan.inc.z);
      AdvanceFollowsClosedForm(plan, X, start.x, s);
      AdvanceFollowsClosedForm(plan, Y, start.y, s);
      AdvanceFollowsClosedForm(plan, Z, start.z, s);
      thresh := Point(ax.0, ay.0, az.0);
      pt := Point(ax.1, ay.1, az.1);
      s := s + 1;
    }
  }

  lemma WalkHitsBeforeNext(plan: Plan, start: Point, v: Point, n: nat)
    requires WellFormed(plan)
    ensures WalkHitsBefore(plan, start, v, n + 1) <==> WalkHitsBefore(plan, start, v, n) || WalkAt(plan, start, n) == v
  {
    if WalkHitsBefore(plan, start, v, n + 1) {
      var s: nat :| s < n + 1 && WalkAt(plan, start, s) == v;
      if s < n {
        assert WalkHitsBefore(plan, start, v, n);
      }
    }
    if WalkAt(plan, start, n) == v {
      assert WalkHitsBefore(plan, start, v, n + 1);
    }
  }

  /**
   * The `paint` operation. Each brush voxel of the bounding box that passes
   * the ellipsoid test seeds a walk from `prev` plus its offset; exactly the
   * in-bounds voxels of those walks become 1, every other entry is kept,
   * and the current point becomes the previous sample.
   */
  method Paint(session: Session, point: Point, radius: Radius) returns (next: Session)
    requires Valid(session)
    ensures Valid(next)
    ensures next.dimensions == session.dimensions && next.slicingMode == session.slicingMode
    ensures next.prevPoint == Some(point)
    ensures |next.buffer| == |session.buffer|
    ensures forall idx :: 0 <= idx < |next.buffer| ==>
      next.buffer[idx] == if Painted(MakeStroke(session, point, radius), VoxelAt(session.dimensions, idx))
                          then 1 else session.buffer[idx]
    ensures forall idx :: 0 <= idx < |next.buffer| ==> next.buffer[idx] == 1 || next.buffer[idx] == session.buffer[idx]
  {
    var st := MakeStroke(session, point, radius);
    var dims := session.dimensions;
    var buf := session.buffer;
    var i := st.box.x.lo;
    while i <= st.box.x.hi
      invariant st.box.x.lo <= i <= Stop(st.box.x)
      invariant |buf| == |session.buffer|
      invariant forall idx :: 0 <= idx < |buf| ==>
        buf[idx] == if BoxHits(st, VoxelAt(dims, idx), i) then 1 else session.buffer[idx]
    {
      var j := st.box.y.lo;
      while j <= st.box.y.hi
        invariant st.box.y.lo <= j <= Stop(st.box.y)
        invariant |buf| == |session.buffer|
        invariant forall idx :: 0 <= idx < |buf| ==>
          buf[idx] == if BoxHits(st, VoxelAt(dims, idx), i) || PlaneHits(st, VoxelAt(dims, idx), i, j)
                      then 1 else session.buffer[idx]
      {
        var k := st.box.z.lo;
        while k <= st.box.z.hi
          invariant st.box.z.lo <= k <= Stop(st.box.z)
          invariant |buf| == |session.buffer|
          invariant forall idx :: 0 <= idx < |buf| ==>
            buf[idx] == if BoxHits(st, VoxelAt(dims, idx), i) || PlaneHits(st, VoxelAt(dims, idx), i, j)
                           || ColumnHits(st, VoxelAt(dims, idx), i, j, k)
                        then 1 else session.buffer[idx]
        {
          if InEllipsoid(st.center, st.radius, Point(i, j, k)) {
            buf := StampWalk(buf, dims, st.plan, Origin(st, i, j, k));
          }
          forall idx | 0 <= idx < |buf|
            ensures buf[idx] == if BoxHits(st, VoxelAt(dims, idx), i) || PlaneHits(st, VoxelAt(dims, idx), i, j)
                                   || ColumnHits(st, VoxelAt(dims, idx), i, j, k + 1)
                                then 1 else session.buffer[idx]
          {
            ColumnHitsNext(st, VoxelAt(dims, idx), i, j, k);
          }
          k := k + 1;
        }
        forall idx | 0 <= idx < |buf|
          ensures buf[idx] == if BoxHits(st, VoxelAt(dims, idx), i) || PlaneHits(st, VoxelAt(dims, idx), i, j + 1)
                              then 1 else session.buffer[idx]
        {
          PlaneHitsNext(st, VoxelAt(dims, idx), i, j);
        }
        j := j + 1;
      }
      forall idx | 0 <= idx < |buf|
        ensures buf[idx] == if BoxHits(st, VoxelAt(dims, idx), i + 1) then 1 else session.buffer[idx]
      {
        BoxHitsNext(st, VoxelAt(dims, idx), i);
      }
      i := i + 1;
    }
    next := Session(buf, dims, Some(point), session.slicingMode);
  }

  lemma ColumnHitsNext(st: Stroke, v: Point, i: int, j: int, k: int)
    requires WellFormed(st.plan)
    requires st.box.z.lo <= k
    ensures ColumnHits(st, v, i, j, k + 1) <==> ColumnHits(st, v, i, j, k) || SeedHits(st, v, i, j, k)
  {
    if ColumnHits(st, v, i, j, k + 1) {
      var k' :| st.box.z.lo <= k' < k + 1 && SeedHits(st, v, i, j, k');
      if k' < k {
        assert ColumnHits(st, v, i, j, k);
      }
    }
  }

  lemma PlaneHitsNext(st: Stroke, v: Point, i: int, j: int)
    requires WellFormed(st.plan)
    requires st.box.y.lo <= j
    ensures PlaneHits(st, v, i, j + 1) <==> PlaneHits(st, v, i, j) || ColumnHits(st, v, i, j, Stop(st.box.z))
  {
    if PlaneHits(st, v, i, j + 1) {
      var j' :| st.box.y.lo <= j' < j + 1 && ColumnHits(st, v, i, j', Stop(st.box.z));
      if j' < j {
        assert PlaneHits(st, v, i, j);
      }
    }
  }

  lemma BoxHitsNext(st: Stroke, v: Point, i: int)
    requires WellFormed(st.plan)
    requires st.box.x.lo <= i
    ensures BoxHits(st, v, i + 1) <==> BoxHits(st, v, i) || PlaneHits(st, v, i, Stop(st.box.y))
  {
    if BoxHits(st, v, i + 1) {
      var i' :| st.box.x.lo <= i' < i + 1 && PlaneHits(st, v, i', Stop(st.box.y));
      if i' < i {
        assert BoxHits(st, v, i);
      }
    }
  }

  // ---------------------------------------------------------------------
  // paintRectangle
  // ---------------------------------------------------------------------

  /** One axis of the rectangle: `max(min(a, b), 0) .. min(max(a, b), n - 1)`. */
  function RectRange(n: nat, a: int, b: int): Range {
    Range(Max(Min(a, b), 0), Min(Max(a, b), n - 1))
  }

  /** The box of a rectangle request, clamped to the volume on every axis. */
  function RectBox(dims: Dims, p1: Point, p2: Point): (b: Box)
    ensures 0 <= b.x.lo && b.x.hi < dims.nx
    ensures 0 <= b.y.lo && b.y.hi < dims.ny
    ensures 0 <= b.z.lo && b.z.hi < dims.nz
  {
    Box(RectRange(dims.nx, p1.x, p2.x), RectRange(dims.ny, p1.y, p2.y), RectRange(dims.nz, p1.z, p2.z))
  }

  /** A typed-array position argument: negative counts from the end, then clamped to `[0, len]`. */
  function RelativeIndex(rel: int, len: nat): nat {
    if rel < 0 then (if len + rel < 0 then 0 else len + rel)
    else if rel < len then rel else len
  }

  /** `TypedArray.prototype.fill(value, start, end)` with integer positions. */
  function Fill(a: seq<int>, value: int, start: int, end: int): (r: seq<int>)
    ensures |r| == |a|
    ensures forall i :: 0 <= i < |a| ==>
      r[i] == if RelativeIndex(start, |a|) <= i < RelativeIndex(end, |a|) then value else a[i]
  {
    seq(|a|, i requires 0 <= i < |a| =>
      if RelativeIndex(start, |a|) <= i < RelativeIndex(end, |a|) then value else a[i])
  }

  /**
   * Lines 123-124 as written: fill the buffer from `index + xstart` to
   * `index + xend + 1`, where `index` is the position of voxel `(0, j, k)`.
   */
  function FillRowAsWritten(buf: seq<int>, dims: Dims, x: Range, j: int, k: int): seq<int> {
    var index := j * dims.nx + k * (dims.nx * dims.ny);
    Fill(buf, 1, index + x.lo, index + x.hi + 1)
  }

  /**
   * The row fill of `paintRectangle` with an empty x-range skipped: it sets
   * exactly the voxels `(x, j, k)` of the range and keeps every other entry.
   */
  function FillRow(buf: seq<int>, dims: Dims, x: Range, j: int, k: int): (r: seq<int>)
    requires |buf| == Size(dims)
    requires 0 <= j < dims.ny && 0 <= k < dims.nz
    requires 0 <= x.lo && x.hi < dims.nx
    ensures |r| == |buf|
    ensures forall idx :: 0 <= idx < |r| ==>
      r[idx] == if RowVoxel(VoxelAt(dims, idx), x, j, k) then 1 else buf[idx]
  {
    if x.lo <= x.hi then
      RowSpan(dims, j, k, x.lo, x.hi);
      FillRowAsWritten(buf, dims, x, j, k)
    else
      buf
  }

  /** `v` is one of the voxels `(x, j, k)` with `x` in the range. */
  predicate RowVoxel(v: Point, x: Range, j: int, k: int) {
    v.y == j && v.z == k && InRange(x, v.x)
  }

  /** The buffer after setting every voxel of `b` to 1. */
  function BoxFill(buf: seq<int>, dims: Dims, b: Box): (r: seq<int>)
    requires |buf| == Size(dims)
    ensures |r| == |buf|
  {
    seq(|buf|, idx requires 0 <= idx < |buf| => if InBox(b, VoxelAt(dims, idx)) then 1 else buf[idx])
  }

  /** Voxel `v` is in the box and in a row `(j', k')` filled before row `(j, k)`. */
  predicate RowsDone(b: Box, v: Point, k: int, j: int) {
    InBox(b, v) && (v.z < k || (v.z == k && v.y < j))
  }

  /**
   * The `paintRectangle` operation: for every `(j, k)` of the clamped box,
   * fill the row segment `xstart..xend`. Exactly the voxels of the box
   * become 1; nothing else in the session changes.
   */
  method PaintRectangle(session: Session, p1: Point, p2: Point) returns (next: Session)
    requires Valid(session)
    ensures Valid(next)
    ensures next.dimensions == session.dimensions && next.slicingMode == session.slicingMode
    ensures next.prevPoint == session.prevPoint
    ensures |next.buffer| == |session.buffer|
    ensures forall idx :: 0 <= idx < |next.buffer| ==>
      next.buffer[idx] == if InBox(RectBox(session.dimensions, p1, p2), VoxelAt(session.dimensions, idx))
                          then 1 else session.buffer[idx]
    ensures next.buffer == BoxFill(session.buffer, session.dimensions, RectBox(session.dimensions, p1, p2))
  {
    var dims := session.dimensions;
    var b := RectBox(dims, p1, p2);
    var buf := session.buffer;
    var k := b.z.lo;
    while k <= b.z.hi
      invariant b.z.lo <= k <= Stop(b.z)
      invariant |buf| == |session.buffer|
      invariant forall idx :: 0 <= idx < |buf| ==>
        buf[idx] == if RowsDone(b, VoxelAt(dims, idx), k, b.y.lo) then 1 else session.buffer[idx]
    {
      var j := b.y.lo;
      while j <= b.y.hi
        invariant b.y.lo <= j <= Stop(b.y)
        invariant |buf| == |session.buffer|
        invariant forall idx :: 0 <= idx < |buf| ==>
          buf[idx] == if RowsDone(b, VoxelAt(dims, idx), k, j) then 1 else session.buffer[idx]
      {
        buf := FillRow(buf, dims, b.x, j, k);
        j := j + 1;
      }
      k := k + 1;
    }
    next := session.(buffer := buf);
  }

  /**
   * For a non-empty range, the positions `fill` covers for row `(j, k)`
   * are exactly the indices of the voxels `(x, j, k)` with `lo <= x <= hi`.
   */
  lemma RowSpan(dims: Dims, j: int, k: int, lo: int, hi: int)
    requires 0 <= j < dims.ny && 0 <= k < dims.nz
    requires 0 <= lo <= hi < dims.nx
    ensures var base := j * dims.nx + k * (dims.nx * dims.ny);
      forall idx :: 0 <= idx < Size(dims) ==>
        ((RelativeIndex(base + lo, Size(dims)) <= idx < RelativeIndex(base + hi + 1, Size(dims)))
         <==> RowVoxel(VoxelAt(dims, idx), Range(lo, hi), j, k))
  {
    var base := Index(dims, Point(0, j, k));
    var n := Size(dims);
    RowShift(dims, hi, j, k);
    assert RelativeIndex(base + hi + 1, n) == base + hi + 1;
    assert RelativeIndex(base + lo, n) == base + lo;
    forall idx | 0 <= idx < n
      ensures (base + lo <= idx < base + hi + 1) <==> RowVoxel(VoxelAt(dims, idx), Range(lo, hi), j, k)
    {
      var v := VoxelAt(dims, idx);
      if RowVoxel(v, Range(lo, hi), j, k) {
        RowShift(dims, v.x, j, k);
      }
      if base + lo <= idx < base + hi + 1 {
        RowMember(dims, j, k, base, idx);
      }
    }
  }

  lemma RowMember(dims: Dims, j: int, k: int, base: int, idx: int)
    requires 0 <= j < dims.ny && 0 <= k < dims.nz
    requires 0 <= idx < Size(dims)
    requires base == Index(dims, Point(0, j, k))
    requires base <= idx < base + dims.nx
    ensures VoxelAt(dims, idx) == Point(idx - base, j, k)
  {
    var p := Point(idx - base, j, k);
    RowShift(dims, idx - base, j, k);
    VoxelAtIndex(dims, p);
  }

  /** Within one row, the index grows with `x` from the row's first voxel. */
  lemma RowShift(dims: Dims, x: int, j: int, k: int)
    requires InBounds(dims, Point(x, j, k))
    ensures Index(dims, Point(x, j, k)) == x + Index(dims, Point(0, j, k))
  {
  }
}
