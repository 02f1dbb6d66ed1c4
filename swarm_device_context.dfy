/** The device-side view of a swarm: liveness, removal marks and destination indices of
    particle slots, read and written one slot at a time through borrowed arrays, and the
    computation of the neighbouring block a particle has moved into. */
module SwarmContext {

  /** Destination index meaning "the particle stays on the current mesh block". */
  const ThisBlock: int := -1

  /** Destination index written when a position cannot be resolved to a neighbour. */
  const InvalidIndex: int := -2

  /** Outcome of a neighbour lookup: the table entry, or the fatal out-of-bounds failure. */
  datatype NeighborResult = Neighbor(index: int) | OutOfBounds

  /** The value a lookup leaves in the particle's destination slot. */
  function StoredIndex(r: NeighborResult): int
  {
    match r
    case Neighbor(v) => v
    case OutOfBounds => InvalidIndex
  }

  /** C++ `static_cast<int>` of a floating-point value: truncation toward zero, which is
      the floor for non-negative values and the ceiling for negative ones. */
  function CastToInt(t: real): (n: int)
    ensures 0.0 <= t ==> n as real <= t < n as real + 1.0
    ensures t < 0.0 ==> n as real - 1.0 < t <= n as real
  {
    if t >= 0.0 then t.Floor else -((-t).Floor)
  }

  /** Width of one of the two halves a block is cut into along an axis. */
  function HalfWidth(lo: real, hi: real): real
  {
    (hi - lo) / 2.0
  }

  /** Bucket of position `p` along an axis whose block bounds are `lo < hi`: one more than
      the offset from `lo` in half widths, truncated toward zero. */
  function Bucket(p: real, lo: real, hi: real): (b: int)
    requires lo < hi
    ensures 0.0 <= (p - lo) / HalfWidth(lo, hi) ==>
      (b - 1) as real <= (p - lo) / HalfWidth(lo, hi) < b as real
    ensures (p - lo) / HalfWidth(lo, hi) < 0.0 ==>
      (b - 2) as real < (p - lo) / HalfWidth(lo, hi) <= (b - 1) as real
  {
    CastToInt((p - lo) / HalfWidth(lo, hi)) + 1
  }

  /** Positions whose bucket lies in the 4-wide neighbour table: one full block width below
      `lo` up to half a block width above `hi`, both ends open. */
  predicate Resolvable(p: real, lo: real, hi: real)
    requires lo < hi
  {
    lo - 2.0 * HalfWidth(lo, hi) < p < hi + HalfWidth(lo, hi)
  }

  /** A bucket that indexes the 4x4x4 neighbour table. */
  predicate InTable(b: int)
  {
    0 <= b <= 3
  }

  /** `CastToInt(t) + 1` falls in each of the four table buckets on exactly one interval of `t`. */
  lemma CastBuckets(t: real)
    ensures CastToInt(t) + 1 == 0 <==> -2.0 < t <= -1.0
    ensures CastToInt(t) + 1 == 1 <==> -1.0 < t < 1.0
    ensures CastToInt(t) + 1 == 2 <==> 1.0 <= t < 2.0
    ensures CastToInt(t) + 1 == 3 <==> 2.0 <= t < 3.0
    ensures InTable(CastToInt(t) + 1) <==> -2.0 < t < 3.0
  {
  }

  /** The buckets in terms of positions, with h the half width: bucket 0 is (lo-2h, lo-h],
      bucket 1 is (lo-h, lo+h), bucket 2 is [lo+h, hi) and bucket 3 is [hi, hi+h). Because the
      cast truncates toward zero, bucket 1 also takes the half block width just below `lo`. */
  lemma BucketIntervals(p: real, lo: real, hi: real)
    requires lo < hi
    ensures Bucket(p, lo, hi) == 0 <==> lo - 2.0 * HalfWidth(lo, hi) < p <= lo - HalfWidth(lo, hi)
    ensures Bucket(p, lo, hi) == 1 <==> lo - HalfWidth(lo, hi) < p < lo + HalfWidth(lo, hi)
    ensures Bucket(p, lo, hi) == 2 <==> lo + HalfWidth(lo, hi) <= p < hi
    ensures Bucket(p, lo, hi) == 3 <==> hi <= p < hi + HalfWidth(lo, hi)
    ensures InTable(Bucket(p, lo, hi)) <==> Resolvable(p, lo, hi)
  {
    var h := HalfWidth(lo, hi);
    var t := (p - lo) / h;
    CastBuckets(t);
    Rescaled(p, lo, h, -2.0);
    Rescaled(p, lo, h, -1.0);
    Rescaled(p, lo, h, 1.0);
    Rescaled(p, lo, h, 2.0);
    Rescaled(p, lo, h, 3.0);
  }

  /** Comparing a position with `lo + c * h` is comparing its scaled offset with `c`. */
  lemma Rescaled(p: real, lo: real, h: real, c: real)
    requires h > 0.0
    ensures p < lo + c * h <==> (p - lo) / h < c
    ensures p <= lo + c * h <==> (p - lo) / h <= c
  {
    var t := (p - lo) / h;
    assert p - lo == t * h;
    if t < c {
      assert (c - t) * h > 0.0;
    } else {
      assert (t - c) * h >= 0.0;
    }
  }

  /** A position inside the block, `lo <= p < hi`, is in bucket 1 or 2 and never fails. */
  lemma BucketInsideBlock(p: real, lo: real, hi: real)
    requires lo < hi
    requires lo <= p < hi
    ensures Bucket(p, lo, hi) == 1 || Bucket(p, lo, hi) == 2
    ensures Resolvable(p, lo, hi)
  {
    BucketIntervals(p, lo, hi);
  }

  /** Buckets along the axis of a block spanning [0, 1]: positions inside the block fall in
      buckets 1 and 2, a position three quarters below in bucket 0, a quarter above in
      bucket 3, and half a width above is outside the table. The quarter width just below
      the block is the case `LowerHaloMisplaced` states. */
  lemma UnitBlockBuckets()
    ensures Bucket(0.1, 0.0, 1.0) == 1 && Bucket(0.9, 0.0, 1.0) == 2
    ensures Bucket(-0.75, 0.0, 1.0) == 0
    ensures Bucket(1.25, 0.0, 1.0) == 3 && !InTable(Bucket(1.5, 0.0, 1.0))
  {
    BucketIntervals(0.1, 0.0, 1.0);
    BucketIntervals(0.9, 0.0, 1.0);
    BucketIntervals(-0.75, 0.0, 1.0);
    BucketIntervals(1.25, 0.0, 1.0);
    BucketIntervals(1.5, 0.0, 1.0);
  }

  /** The bucket the halo layout calls for, with the floor in place of truncation. */
  function FloorBucket(p: real, lo: real, hi: real): int
    requires lo < hi
  {
    ((p - lo) / HalfWidth(lo, hi)).Floor + 1
  }

  /** With the floor every bucket is a half-open interval of width h: bucket 0 is the lower
      halo [lo-h, lo), buckets 1 and 2 are the two halves of [lo, hi), bucket 3 is the upper
      halo [hi, hi+h), and the table is reached exactly on [lo-h, hi+h). */
  lemma FloorBucketIntervals(p: real, lo: real, hi: real)
    requires lo < hi
    ensures FloorBucket(p, lo, hi) == 0 <==> lo - HalfWidth(lo, hi) <= p < lo
    ensures FloorBucket(p, lo, hi) == 1 <==> lo <= p < lo + HalfWidth(lo, hi)
    ensures FloorBucket(p, lo, hi) == 2 <==> lo + HalfWidth(lo, hi) <= p < hi
    ensures FloorBucket(p, lo, hi) == 3 <==> hi <= p < hi + HalfWidth(lo, hi)
    ensures InTable(FloorBucket(p, lo, hi)) <==> lo - HalfWidth(lo, hi) <= p < hi + HalfWidth(lo, hi)
  {
    var h := HalfWidth(lo, hi);
    var t := (p - lo) / h;
    var n := t.Floor;
    assert n as real <= t < n as real + 1.0;
    assert n == -1 <==> -1.0 <= t < 0.0;
    assert n == 0 <==> 0.0 <= t < 1.0;
    assert n == 1 <==> 1.0 <= t < 2.0;
    assert n == 2 <==> 2.0 <= t < 3.0;
    assert -1 <= n <= 2 <==> -1.0 <= t < 3.0;
    Rescaled(p, lo, h, -1.0);
    Rescaled(p, lo, h, 0.0);
    Rescaled(p, lo, h, 1.0);
    Rescaled(p, lo, h, 2.0);
    Rescaled(p, lo, h, 3.0);
  }

  /** Just below the lower face the two rules part: a quarter block width below [0, 1] the
      truncating bucket is the interior bucket 1, the floor bucket the lower halo 0. */
  lemma LowerHaloMisplaced()
    ensures Bucket(-0.25, 0.0, 1.0) == 1
    ensures FloorBucket(-0.25, 0.0, 1.0) == 0
  {
    BucketIntervals(-0.25, 0.0, 1.0);
    FloorBucketIntervals(-0.25, 0.0, 1.0);
  }

  /** The device context: a snapshot of the block geometry and the dimensionality, with views
      over the swarm's mask, removal-mark and destination-index arrays and over the 4x4x4
      table of neighbour indices. The views are fixed; the array contents are mutable. */
  class SwarmDeviceContext {
    const xMin: real
    const xMax: real
    const yMin: real
    const yMax: real
    const zMin: real
    const zMax: real
    const mask: array<bool>
    const markedForRemoval: array<bool>
    const blockIndex: array<int>
    /** Indexed (k, j, i) by the buckets along z, y and x. */
    const neighborIndices: array3<int>
    const ndim: int

    /** Every block has positive extent along each axis, the mesh has 1 to 3 dimensions, the
        table is 4x4x4, and the per-slot arrays are distinct and cover the same pool. */
    ghost predicate Valid()
    {
      xMin < xMax && yMin < yMax && zMin < zMax &&
      1 <= ndim <= 3 &&
      neighborIndices.Length0 == 4 && neighborIndices.Length1 == 4 && neighborIndices.Length2 == 4 &&
      mask.Length == markedForRemoval.Length == blockIndex.Length &&
      mask != markedForRemoval
    }

    constructor (xMin: real, xMax: real, yMin: real, yMax: real, zMin: real, zMax: real,
                 mask: array<bool>, markedForRemoval: array<bool>, blockIndex: array<int>,
                 neighborIndices: array3<int>, ndim: int)
      requires xMin < xMax && yMin < yMax && zMin < zMax
      requires 1 <= ndim <= 3
      requires neighborIndices.Length0 == 4 && neighborIndices.Length1 == 4 && neighborIndices.Length2 == 4
      requires mask.Length == markedForRemoval.Length == blockIndex.Length
      requires mask != markedForRemoval
      ensures Valid()
      ensures this.mask == mask && this.markedForRemoval == markedForRemoval
      ensures this.blockIndex == blockIndex && this.neighborIndices == neighborIndices
      ensures this.xMin == xMin && this.xMax == xMax && this.yMin == yMin
      ensures this.yMax == yMax && this.zMin == zMin && this.zMax == zMax
      ensures this.ndim == ndim
    {
      this.xMin, this.xMax := xMin, xMax;
      this.yMin, this.yMax := yMin, yMax;
      this.zMin, this.zMax := zMin, zMax;
      this.mask, this.markedForRemoval := mask, markedForRemoval;
      this.blockIndex, this.neighborIndices := blockIndex, neighborIndices;
      this.ndim := ndim;
    }

    /** Whether slot `n` holds a live particle. */
    predicate IsActive(n: int)
      requires 0 <= n < mask.Length
      reads mask
      ensures IsActive(n) <==> mask[n]
    {
      mask[n]
    }

    /** Whether the particle in slot `n` stays on this block: its destination is the
        this-block sentinel. */
    predicate IsOnCurrentMeshBlock(n: int)
      requires 0 <= n < blockIndex.Length
      reads blockIndex
      ensures IsOnCurrentMeshBlock(n) <==> blockIndex[n] == ThisBlock
    {
      blockIndex[n] == ThisBlock
    }

    /** Whether the particle in slot `n` has been marked for removal. */
    predicate IsMarkedForRemoval(n: int)
      requires 0 <= n < markedForRemoval.Length
      reads markedForRemoval
      ensures IsMarkedForRemoval(n) <==> markedForRemoval[n]
    {
      markedForRemoval[n]
    }

    /** Marks slot `n` for removal; no other slot and no other array changes, and marking an
        already marked slot changes nothing. */
    method MarkParticleForRemoval(n: int)
      requires Valid()
      requires 0 <= n < markedForRemoval.Length
      modifies markedForRemoval
      ensures markedForRemoval[..] == old(markedForRemoval[..])[n := true]
      ensures old(markedForRemoval[n]) ==> markedForRemoval[..] == old(markedForRemoval[..])
      ensures IsMarkedForRemoval(n)
      ensures unchanged(mask) && unchanged(blockIndex)
    {
      markedForRemoval[n] := true;
    }

    /** The table entry a position selects, or the failure when a bucket that the
        dimensionality uses falls outside the table. */
    function Lookup(x: real, y: real, z: real): (r: NeighborResult)
      requires Valid()
      reads neighborIndices
      ensures r.OutOfBounds? <==>
        !InTable(Bucket(x, xMin, xMax)) ||
        (ndim > 1 && !InTable(Bucket(y, yMin, yMax))) ||
        (ndim > 2 && !InTable(Bucket(z, zMin, zMax)))
      ensures r.Neighbor? ==>
        r.index == neighborIndices[if ndim > 2 then Bucket(z, zMin, zMax) else 0,
                                   if ndim > 1 then Bucket(y, yMin, yMax) else 0,
                                   Bucket(x, xMin, xMax)]
    {
      var i := Bucket(x, xMin, xMax);
      var j := Bucket(y, yMin, yMax);
      var k := Bucket(z, zMin, zMax);
      if !InTable(i) || (!InTable(j) && ndim > 1) || (!InTable(k) && ndim > 2) then
        OutOfBounds
      else if ndim == 1 then
        Neighbor(neighborIndices[0, 0, i])
      else if ndim == 2 then
        Neighbor(neighborIndices[0, j, i])
      else
        Neighbor(neighborIndices[k, j, i])
    }

    /** Computes the neighbour index of the particle in slot `n` at position (x, y, z) and
        stores it as the slot's destination. On failure the slot gets `InvalidIndex` before
        the failure is reported. Only slot `n` of the destination array changes. */
    method GetNeighborBlockIndex(n: int, x: real, y: real, z: real) returns (r: NeighborResult)
      requires Valid()
      requires 0 <= n < blockIndex.Length
      modifies blockIndex
      ensures r == Lookup(x, y, z)
      ensures blockIndex[..] == old(blockIndex[..])[n := StoredIndex(r)]
      ensures r.Neighbor? ==> r.index == blockIndex[n]
      ensures unchanged(mask) && unchanged(markedForRemoval)
    {
      var i := Bucket(x, xMin, xMax);
      var j := Bucket(y, yMin, yMax);
      var k := Bucket(z, zMin, zMax);
      if i < 0 || i > 3 || ((j < 0 || j > 3) && ndim > 1) || ((k < 0 || k > 3) && ndim > 2) {
        blockIndex[n] := InvalidIndex;
        return OutOfBounds;
      }
      if ndim == 1 {
        blockIndex[n] := neighborIndices[0, 0, i];
      } else if ndim == 2 {
        blockIndex[n] := neighborIndices[0, j, i];
      } else {
        blockIndex[n] := neighborIndices[k, j, i];
      }
      r := Neighbor(blockIndex[n]);
    }
  }

  /** The lookup fails exactly when the position is unresolvable along x, or along y in two or
      more dimensions, or along z in three; the unused axes are never checked. */
  lemma LookupFailsIffUnresolvable(ctx: SwarmDeviceContext, x: real, y: real, z: real)
    requires ctx.Valid()
    ensures ctx.Lookup(x, y, z).OutOfBounds? <==>
      !Resolvable(x, ctx.xMin, ctx.xMax) ||
      (ctx.ndim > 1 && !Resolvable(y, ctx.yMin, ctx.yMax)) ||
      (ctx.ndim > 2 && !Resolvable(z, ctx.zMin, ctx.zMax))
  {
    BucketIntervals(x, ctx.xMin, ctx.xMax);
    BucketIntervals(y, ctx.yMin, ctx.yMax);
    BucketIntervals(z, ctx.zMin, ctx.zMax);
  }

  /** On resolvable positions the lookup returns the table entry (0, 0, i) in one dimension,
      (0, j, i) in two and (k, j, i) in three, with i, j, k the buckets of x, y, z. */
  lemma LookupEntry(ctx: SwarmDeviceContext, x: real, y: real, z: real)
    requires ctx.Valid()
    ensures ctx.ndim == 1 && Resolvable(x, ctx.xMin, ctx.xMax) ==>
      ctx.Lookup(x, y, z) == Neighbor(ctx.neighborIndices[0, 0, Bucket(x, ctx.xMin, ctx.xMax)])
    ensures ctx.ndim == 2 && Resolvable(x, ctx.xMin, ctx.xMax) && Resolvable(y, ctx.yMin, ctx.yMax) ==>
      ctx.Lookup(x, y, z) ==
        Neighbor(ctx.neighborIndices[0, Bucket(y, ctx.yMin, ctx.yMax), Bucket(x, ctx.xMin, ctx.xMax)])
    ensures ctx.ndim == 3 && Resolvable(x, ctx.xMin, ctx.xMax) && Resolvable(y, ctx.yMin, ctx.yMax) &&
            Resolvable(z, ctx.zMin, ctx.zMax) ==>
      ctx.Lookup(x, y, z) ==
        Neighbor(ctx.neighborIndices[Bucket(z, ctx.zMin, ctx.zMax), Bucket(y, ctx.yMin, ctx.yMax),
                                     Bucket(x, ctx.xMin, ctx.xMax)])
  {
    BucketIntervals(x, ctx.xMin, ctx.xMax);
    BucketIntervals(y, ctx.yMin, ctx.yMax);
    BucketIntervals(z, ctx.zMin, ctx.zMax);
  }

  /** A particle inside its block along every axis the dimensionality uses never fails the
      lookup, and each used bucket is one of the two interior halves. */
  lemma LookupInsideBlock(ctx: SwarmDeviceContext, x: real, y: real, z: real)
    requires ctx.Valid()
    requires ctx.xMin <= x < ctx.xMax
    requires ctx.ndim > 1 ==> ctx.yMin <= y < ctx.yMax
    requires ctx.ndim > 2 ==> ctx.zMin <= z < ctx.zMax
    ensures ctx.Lookup(x, y, z).Neighbor?
    ensures Bucket(x, ctx.xMin, ctx.xMax) in {1, 2}
    ensures ctx.ndim > 1 ==> Bucket(y, ctx.yMin, ctx.yMax) in {1, 2}
    ensures ctx.ndim > 2 ==> Bucket(z, ctx.zMin, ctx.zMax) in {1, 2}
  {
    BucketInsideBlock(x, ctx.xMin, ctx.xMax);
    if ctx.ndim > 1 {
      BucketInsideBlock(y, ctx.yMin, ctx.yMax);
    }
    if ctx.ndim > 2 {
      BucketInsideBlock(z, ctx.zMin, ctx.zMax);
    }
  }

  /** The one-dimensional lookup ignores y and z, the two-dimensional one ignores z. */
  lemma LookupIgnoresUnusedAxes(ctx: SwarmDeviceContext, x: real, y: real, z: real, y': real, z': real)
    requires ctx.Valid()
    ensures ctx.ndim == 1 ==> ctx.Lookup(x, y, z) == ctx.Lookup(x, y', z')
    ensures ctx.ndim == 2 ==> ctx.Lookup(x, y, z) == ctx.Lookup(x, y, z')
  {
  }
}
