# Swarm device context and migration-round state

A model of the logic that `src/interface/swarm.hpp` implements inline for a particle
swarm living on one mesh block:

- `SwarmContext` (`swarm_device_context.dfy`) models `SwarmDeviceContext`, the view that
  parallel kernels use per particle slot. It is a class whose fields are the block bounds,
  the dimensionality and fixed views over the swarm's `mask`, `markedForRemoval` and
  `blockIndex` arrays and the 4x4x4 `neighborIndices` table. Liveness, locality and
  removal-mark reads are predicates. `MarkParticleForRemoval` and `GetNeighborBlockIndex`
  are methods that write one slot of their array in place. The neighbour computation is
  specified by the pure function `Lookup`, and the lemmas state what it does in terms of
  positions. Each axis is cut into two halves of width h, plus one halo bucket on each side.
  C++ `static_cast<int>` truncates toward zero, so the buckets are:
  - bucket 0: (lo-2h, lo-h]
  - bucket 1: (lo-h, lo+h)
  - bucket 2: [lo+h, hi)
  - bucket 3: [hi, hi+h)

  The lower halo is therefore shifted: with the floor, (lo-h, lo) would be bucket 0, but
  truncation puts it in bucket 1, the same bucket as the lower interior half, while the
  upper halo [hi, hi+h) is bucket 3 as expected (`BucketIntervals`, `LowerHaloMisplaced`).
  `GetNeighborBlockIndex` models the code as written; the floor-based bucket is stated
  beside it (`FloorBucketIntervals`, see "## Findings").
- `Swarms` (`swarm.dfy`) models the inline members of `Swarm`: the pool counters and the
  doubling request of `increasePoolMax`, the packing efficiency, and the migration-round
  fields that `StartCommunication` resets and `SillyUpdate` polls. The round fields are
  also given as a value, `Round`. The pure functions `Started`, `Polled` and `PollMany`
  specify the two methods, and the lemmas about those functions state what any sequence
  of polls does.

Positions are mathematical reals and the computation is exact; floating-point rounding
is abstracted. `MPI_Allreduce` with `MPI_SUM` is modelled as this rank's value plus the
values the other ranks contribute (`peers`). With one rank, or a build without MPI,
`peers` is empty and the reduced count is 3.

## Model

| member | source | states |
|---|---|---|
| `SwarmContext.CastToInt` | src/interface/swarm.hpp:61-63 | `static_cast<int>` truncates toward zero: the result is the floor for non-negative values and the ceiling for negative ones, within distance 1 of the input |
| `SwarmContext.Bucket` | src/interface/swarm.hpp:61-63 | the bucket along one axis is the offset from the lower bound in half widths, truncated toward zero, plus 1: for a non-negative offset t it is the b with b-1 <= t < b, for a negative one the b with b-2 < t <= b-1; its position intervals are in `BucketIntervals` |
| `SwarmContext.BucketIntervals` | src/interface/swarm.hpp:61-63 | the exact position interval of each bucket 0..3 along an axis, and that a bucket is in the table exactly when the position lies in (lo-2h, hi+h) |
| `SwarmContext.BucketInsideBlock` | src/interface/swarm.hpp:61-63 | a position in [lo, hi) gets bucket 1 or 2 and never fails on that axis |
| `SwarmContext.FloorBucketIntervals` | src/interface/swarm.hpp:61-63 | the floor-based bucket: [lo-h, lo) is bucket 0, the halves of [lo, hi) are 1 and 2, [hi, hi+h) is 3, and the table is reached exactly on [lo-h, hi+h) |
| `SwarmContext.LowerHaloMisplaced` | src/interface/swarm.hpp:61 | a quarter width below the block [0, 1] the code gives the interior bucket 1 where the floor gives the halo bucket 0 |
| `SwarmContext.UnitBlockBuckets` | src/interface/swarm.hpp:61 | concrete buckets on the block [0, 1]: 0.1 gives 1, 0.9 gives 2, -0.75 gives 0, 1.25 gives 3, and 1.5 is outside the table; the quarter width below the block is in `LowerHaloMisplaced` |
| `SwarmContext.SwarmDeviceContext.constructor` | src/interface/swarm.hpp:94-114 | the context holds the given bounds, dimensionality, array views and 4x4x4 table |
| `SwarmContext.SwarmDeviceContext.IsActive` | src/interface/swarm.hpp:45-46 | true exactly when slot n's mask entry is set |
| `SwarmContext.SwarmDeviceContext.IsOnCurrentMeshBlock` | src/interface/swarm.hpp:48-49 | true exactly when slot n's destination is the this-block sentinel -1 |
| `SwarmContext.SwarmDeviceContext.IsMarkedForRemoval` | src/interface/swarm.hpp:54-55 | true exactly when slot n's removal mark is set |
| `SwarmContext.SwarmDeviceContext.MarkParticleForRemoval` | src/interface/swarm.hpp:51-52 | sets mark n to true and nothing else: other slots, the mask and the destinations are unchanged; marking a marked slot changes nothing; afterwards `IsMarkedForRemoval(n)` holds |
| `SwarmContext.SwarmDeviceContext.GetNeighborBlockIndex` | src/interface/swarm.hpp:57-91 | returns `Lookup(x, y, z)`; only slot n of the destinations changes, to the returned entry on success and to -2 on failure; on success the return value equals the new `blockIndex[n]` |
| `SwarmContext.SwarmDeviceContext.Lookup` | src/interface/swarm.hpp:65-90 | fails exactly when the x bucket, the y bucket with ndim > 1, or the z bucket with ndim > 2 lies outside 0..3; otherwise gives table entry (0,0,i) in 1-D, (0,j,i) in 2-D and (k,j,i) in 3-D |
| `SwarmContext.LookupFailsIffUnresolvable` | src/interface/swarm.hpp:65-73 | the call fails exactly when x is unresolvable, or y is with ndim > 1, or z is with ndim > 2; unused axes are never checked |
| `SwarmContext.LookupEntry` | src/interface/swarm.hpp:75-90 | on resolvable positions the result is table entry (0,0,i) in 1-D, (0,j,i) in 2-D and (k,j,i) in 3-D, with i, j, k the buckets of x, y, z |
| `SwarmContext.LookupInsideBlock` | src/interface/swarm.hpp:61-73 | a particle inside its block on every used axis never fails, and each used bucket is 1 or 2 |
| `SwarmContext.LookupIgnoresUnusedAxes` | src/interface/swarm.hpp:75-82 | the 1-D result does not depend on y or z, and the 2-D result does not depend on z |
| `Swarms.TruncDiv` | src/interface/swarm.hpp:189 | C++ integer division: the remainder is smaller than the divisor in magnitude and never has the sign opposite to the dividend's |
| `Swarms.Swarm.constructor` | src/interface/swarm.hpp:282-283 | a new swarm has `num_active_ == 0` and `max_active_index_ == 0`, so its packing efficiency is 0 |
| `Swarms.Swarm.IncreasePoolMax` | src/interface/swarm.hpp:172-173 | requests twice the current capacity, which is strictly more for a positive capacity |
| `Swarms.Swarm.GetMaxActiveIndex` | src/interface/swarm.hpp:181-182 | a plain read of `max_active_index_` |
| `Swarms.Swarm.GetNumActive` | src/interface/swarm.hpp:184-185 | a plain read of `num_active_` |
| `Swarms.Swarm.GetPackingEfficiency` | src/interface/swarm.hpp:187-189 | the value is integral; within `0 <= num_active_ <= max_active_index_ + 1` it is 0 or 1, and 1 exactly when the pool is fully packed |
| `Swarms.Swarm.PackingRatio` | src/interface/swarm.hpp:187-189 | the live share of the used index span: times the span it gives `num_active_`, it lies in (0, 1] for a non-empty pool, and it is 1 exactly when fully packed |
| `Swarms.PackingEfficiencyDropsFraction` | src/interface/swarm.hpp:189 | with 2 live particles and `max_active_index_ == 2`, the code gives 0 where the ratio is 2/3 |
| `Swarms.AllReduceSum` | src/interface/swarm.hpp:243-246 | the sum reduction: this rank's value when there are no other ranks, and otherwise the reduction over all but the last other rank plus that rank's value, so this rank's value plus `Sum(peers)` |
| `Swarms.SumConstant` | src/interface/swarm.hpp:243-246 | a sum over ranks that each contribute c is c times the number of ranks |
| `Swarms.UniformReduction` | src/interface/swarm.hpp:240-246 | when every rank seeds 3, the reduced incomplete count is 3 times the number of ranks |
| `Swarms.Swarm.StartCommunication` | src/interface/swarm.hpp:236-253 | always returns true; leaves the status false, the local completed count 0 and the incomplete count equal to the reduction of 3 (3 with one rank); the pool counters are unchanged |
| `Swarms.Swarm.SillyUpdate` | src/interface/swarm.hpp:254-265 | returns the old status; with the status set it changes nothing, otherwise it adds exactly one to the local completed count and changes nothing else |
| `Swarms.PollManyCounts` | src/interface/swarm.hpp:254-265 | m polls of a round with a clear status add exactly m to the completed count and change nothing else; polls of a round with a set status change nothing |
| `Swarms.StartThenPoll` | src/interface/swarm.hpp:236-265 | after StartCommunication and m polls the completed count is m, the incomplete count is unchanged, and no poll reports completion |

## Findings

| source | as written | input that shows it | evidently intended | confidence | as-written member | corrected member |
|---|---|---|---|---|---|---|
| src/interface/swarm.hpp:61-63 | `static_cast<int>` truncates the scaled offset toward zero, so a position in (lo-h, lo) gets bucket 1, the lower interior half, and the lower halo bucket 0 is (lo-2h, lo-h] | on the block [0, 1], x = -0.25 (just across the lower face) gives bucket 1 and resolves to an interior table entry | the floor, giving each halo bucket the half width next to its face: [lo-h, lo) is bucket 0 like [hi, hi+h) is bucket 3 | medium; not executed | `SwarmContext.BucketIntervals` (with `SwarmContext.LowerHaloMisplaced`) | `SwarmContext.FloorBucketIntervals` |
| src/interface/swarm.hpp:187-189 | `num_active_ / (max_active_index_ + 1)` divides two `int`s and converts the truncated quotient to `Real` | `num_active_ == 2`, `max_active_index_ == 2` gives 0, not 2/3; any gap gives 0 | the fraction described by the comment ("1 is perfectly organized, < 1 indicates gaps") | high; not executed | `Swarms.Swarm.GetPackingEfficiency` (with `Swarms.PackingEfficiencyDropsFraction`) | `Swarms.Swarm.PackingRatio` |

## Left out

- Pool management is only declared in this header, and its bodies are not part of this model: `AddEmptyParticles`, `RemoveMarkedParticles`, `Defrag`, `setPoolMax`, `ResizeParArray`, `AllocateCopy`, `allocateComms` and `SetupPersistentMPI`. No free-list, compaction or growth behaviour is modelled. As a result the pool invariant `num_active <= max_active_index + 1 <= nmax_pool` is a hypothesis of the packing-efficiency contracts, not an invariant the model maintains.
- Swarms.Swarm.IncreasePoolMax: returns the capacity it passes to `setPoolMax` instead of changing the pool, because the body of `setPoolMax` is not part of this model.
- The transport side of migration is left out: `Send`, `Receive`, `FinishCommunication`, `vbvar->StartReceiving` (a foreign call) and the `BoundarySwarm` channels. So is the `BoundaryCommSubset` phase argument, which only that call uses.
- `MPI_Allreduce` is replaced by a sum over this rank's value and the explicit `peers` parameter. `MPI_Request` and the public counters that no inline code touches (`swarm_num_incomplete_`, `global_num_completed_`, `num_particles_sent_`, `finished_transport`) belong to the transport side and are left out with it.
- The `printf` diagnostics are left out because they are output only. `PARTHENON_FAIL` is modelled as the `OutOfBounds` result, returned after the -2 write; program termination is not modelled.
- `GetBlockPointer`/`SetBlockPointer` (weak-pointer lifetime), `GetDeviceContext` (its body is not part of this model; the context constructor takes the fields directly), variable registration and typed access (`Add`, `Remove`, `GetReal`, `GetInteger`), labels, info and metadata, `GetParticleDataSize`, and the variable-packing functions are left out. They are container plumbing over code that is not part of this model.
- The context's global-domain bounds and `neighbor_send_index_`, and the `PARTICLE_STATUS` enum, are left out because no inline code reads them.
- Kokkos parallel execution is not modelled: each accessor is a sequential operation on one slot.
- Floating point is not modelled: positions are exact reals, and `static_cast<int>` is exact truncation toward zero. The undefined behaviour of a cast out of `int` range is not modelled.
- The model assumes a block with positive extent on every axis, `ndim` between 1 and 3, a 4x4x4 table, and equal-length per-slot arrays (`SwarmDeviceContext.Valid`). It excludes configurations a mesh block does not produce: a zero extent (where the source divides by zero), a negative extent, and `ndim` of 4 or more (which the source treats like 3-D).
- Swarms.Swarm.GetPackingEfficiency: requires `max_active_index_ + 1 != 0`, so the model excludes `max_active_index_ == -1`, on which the source divides an `int` by zero (undefined behaviour); the same holds for `Swarms.Swarm.PackingRatio`.
- C++ `int` overflow (undefined behaviour) is not modelled: counters and `2 * nmax_pool_` are unbounded integers.
- The constructor's body, beyond the default initialisers `max_active_index_ = 0` and `num_active_ = 0`, is not part of this model. The other fields of a new swarm are left unspecified.
- The repeated computation of i, j, k inside each dimension branch gives the same values as the first computation, so it is modelled once.
