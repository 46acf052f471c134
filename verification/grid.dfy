/**
 * Voxel lattice of the labelmap: points, volume dimensions and the
 * flat-buffer index `x + y*nx + z*nx*ny` used by the painting engine,
 * together with its inverse.
 */
module Grid {

  /** A lattice point, or a per-axis integer vector, in voxel-index space. */
  datatype Point = Point(x: int, y: int, z: int)

  datatype Axis = X | Y | Z

  /** The coordinate of `p` on axis `a`. */
  function Coord(p: Point, a: Axis): int {
    match a
    case X => p.x
    case Y => p.y
    case Z => p.z
  }

  /** Volume dimensions (voxels per axis). */
  datatype Dims = Dims(nx: nat, ny: nat, nz: nat)

  /** Number of voxels, which is the labelmap buffer length. */
  function Size(d: Dims): nat {
    d.nx * d.ny * d.nz
  }

  predicate InBounds(d: Dims, p: Point) {
    0 <= p.x < d.nx && 0 <= p.y < d.ny && 0 <= p.z < d.nz
  }

  /** Linear buffer index of an in-bounds voxel. */
  function Index(d: Dims, p: Point): (idx: nat)
    requires InBounds(d, p)
    ensures idx < Size(d)
  {
    IndexBound(d, p);
    p.x + p.y * d.nx + p.z * (d.nx * d.ny)
  }

  /** The voxel stored at buffer position `idx`. */
  function VoxelAt(d: Dims, idx: int): (p: Point)
    requires 0 <= idx < Size(d)
    ensures InBounds(d, p)
    ensures Index(d, p) == idx
  {
    VoxelAtSound(d, idx);
    Point(idx % d.nx, (idx / d.nx) % d.ny, (idx / d.nx) / d.ny)
  }

  /** Distinct in-bounds voxels have distinct indices: decoding an index gives the voxel back. */
  lemma VoxelAtIndex(d: Dims, p: Point)
    requires InBounds(d, p)
    ensures VoxelAt(d, Index(d, p)) == p
  {
    var q := p.y + p.z * d.ny;
    assert Index(d, p) == p.x + q * d.nx by {
      assert p.z * (d.nx * d.ny) == (p.z * d.ny) * d.nx;
    }
    DivModUnique(Index(d, p), d.nx, q, p.x);
    DivModUnique(q, d.ny, p.z, p.y);
  }

  /** Two in-bounds voxels share an index only if they are the same voxel. */
  lemma IndexInjective(d: Dims, p: Point, q: Point)
    requires InBounds(d, p) && InBounds(d, q)
    ensures Index(d, p) == Index(d, q) <==> p == q
  {
    if Index(d, p) == Index(d, q) {
      VoxelAtIndex(d, p);
      VoxelAtIndex(d, q);
    }
  }

  lemma IndexBound(d: Dims, p: Point)
    requires InBounds(d, p)
    ensures p.x + p.y * d.nx + p.z * (d.nx * d.ny) < Size(d)
  {
    var area := d.nx * d.ny;
    assert p.x + p.y * d.nx < area by {
      assert p.y * d.nx <= (d.ny - 1) * d.nx by { MulLeft(p.y, d.ny - 1, d.nx); }
    }
    assert p.z * area <= (d.nz - 1) * area by { MulLeft(p.z, d.nz - 1, area); }
    assert Size(d) == area * d.nz;
  }

  lemma VoxelAtSound(d: Dims, idx: int)
    requires 0 <= idx < Size(d)
    ensures d.nx > 0 && d.ny > 0
    ensures var p := Point(idx % d.nx, (idx / d.nx) % d.ny, (idx / d.nx) / d.ny);
      InBounds(d, p) && p.x + p.y * d.nx + p.z * (d.nx * d.ny) == idx
  {
    var nx, ny, nz := d.nx, d.ny, d.nz;
    PositiveFactors(nx, ny, nz);
    var q := idx / nx;
    assert idx < nx * (ny * nz) by { MulAssoc(nx, ny, nz); }
    DivBound(idx, nx, ny * nz);
    var z := q / ny;
    DivBound(q, ny, nz);
    Recompose(idx, nx, ny, q, z);
  }

  lemma PositiveFactors(a: nat, b: nat, c: nat)
    requires 0 < a * b * c
    ensures a > 0 && b > 0 && c > 0
  {
  }

  lemma MulAssoc(a: int, b: int, c: int)
    ensures a * b * c == a * (b * c)
  {
  }

  /** A number below `n*m` has quotient below `m` when divided by `n`. */
  lemma DivBound(a: int, n: int, m: int)
    requires 0 <= a < n * m && n > 0
    ensures a / n < m
  {
    if a / n >= m {
      MulLeft(m, a / n, n);
    }
  }

  lemma Recompose(idx: int, nx: int, ny: int, q: int, z: int)
    requires nx > 0 && ny > 0 && q == idx / nx && z == q / ny
    ensures idx % nx + (q % ny) * nx + z * (nx * ny) == idx
  {
    assert idx == q * nx + idx % nx;
    assert q == z * ny + q % ny;
    calc {
      (q % ny) * nx + z * (nx * ny);
      (q % ny) * nx + (z * ny) * nx;
      { Distrib(q % ny, z * ny, nx); }
      (q % ny + z * ny) * nx;
      q * nx;
    }
  }

  lemma Distrib(a: int, b: int, n: int)
    ensures a * n + b * n == (a + b) * n
  {
  }

  /** Multiplication by a natural number is monotone. */
  lemma MulLeft(a: int, b: int, n: nat)
    requires a <= b
    ensures a * n <= b * n
  {
  }

  /** Multiplication by a natural number is monotone, stated as an implication. */
  lemma MulMono(a: int, b: int, n: nat)
    ensures a <= b ==> a * n <= b * n
  {
    if a <= b {
      MulLeft(a, b, n);
    }
  }

  /** Euclidean division is unique: `a == q*n + r` with `0 <= r < n` fixes `a / n` and `a % n`. */
  lemma DivModUnique(a: int, n: int, q: int, r: int)
    requires n > 0 && 0 <= r < n && a == q * n + r
    ensures a / n == q && a % n == r
  {
    var q', r' := a / n, a % n;
    assert (q - q') * n == r' - r;
    if q > q' {
      MulLeft(1, q - q', n);
    } else if q < q' {
      MulLeft(1, q' - q, n);
    }
  }
}
