/** The host-side swarm: its pool counters, the packing efficiency derived from them, and the
    state of a migration round that StartCommunication opens and SillyUpdate polls. */
module Swarms {

  function Abs(a: int): nat
  {
    if a < 0 then -a else a
  }

  /** C++ integer division `a / b`, which truncates toward zero: the remainder is smaller
      than the divisor in magnitude and never has the opposite sign of the dividend. */
  function TruncDiv(a: int, b: int): (q: int)
    requires b != 0
    ensures Abs(a - q * b) < Abs(b)
    ensures 0 <= a ==> 0 <= a - q * b
    ensures a <= 0 ==> a - q * b <= 0
  {
    TruncDivRemainder(a, b);
    if (a < 0) == (b < 0) then Abs(a) / Abs(b) else -(Abs(a) / Abs(b))
  }

  /** The remainder of truncating division is the remainder of the magnitudes, carrying the
      sign of the dividend. */
  lemma TruncDivRemainder(a: int, b: int)
    requires b != 0
    ensures var q := if (a < 0) == (b < 0) then Abs(a) / Abs(b) else -(Abs(a) / Abs(b));
            Abs(a - q * b) < Abs(b) && (0 <= a ==> 0 <= a - q * b) && (a <= 0 ==> a - q * b <= 0)
  {
    var q0, r0 := Abs(a) / Abs(b), Abs(a) % Abs(b);
    assert Abs(a) == q0 * Abs(b) + r0 && 0 <= r0 < Abs(b);
    if b < 0 {
      assert q0 * b == -(q0 * Abs(b));
    } else {
      assert q0 * b == q0 * Abs(b);
    }
  }

  /** Sum of a sequence of integers. */
  function Sum(s: seq<int>): int
  {
    if s == [] then 0 else Sum(s[..|s| - 1]) + s[|s| - 1]
  }

  /** An all-rank sum reduction: this rank's value together with the values every other
      rank contributes. With a single rank, or without MPI, `peers` is empty. */
  function AllReduceSum(local: int, peers: seq<int>): (r: int)
    ensures peers == [] ==> r == local
    ensures peers != [] ==> r == AllReduceSum(local, peers[..|peers| - 1]) + peers[|peers| - 1]
  {
    local + Sum(peers)
  }

  /** A sequence whose elements all equal `c` sums to `c` times its length. */
  lemma {:induction false} SumConstant(s: seq<int>, c: int)
    requires forall i :: 0 <= i < |s| ==> s[i] == c
    ensures Sum(s) == c * |s|
  {
    if s != [] {
      SumConstant(s[..|s| - 1], c);
    }
  }

  /** When every rank seeds the reduction with 3, as each rank running StartCommunication
      does, the reduced count of incomplete ranks is 3 times the number of ranks. */
  lemma UniformReduction(peers: seq<int>)
    requires forall i :: 0 <= i < |peers| ==> peers[i] == 3
    ensures AllReduceSum(3, peers) == 3 * (|peers| + 1)
  {
    SumConstant(peers, 3);
  }

  /** The migration-round fields of a swarm. */
  datatype Round = Round(mpiStatus: bool, globalNumIncomplete: int, localNumCompleted: int)

  /** The round StartCommunication opens: status cleared, nothing completed locally, and the
      incomplete count reduced over all ranks from this rank's seed of 3. */
  function Started(peers: seq<int>): Round
  {
    Round(false, AllReduceSum(3, peers), 0)
  }

  /** One SillyUpdate poll: a round whose status is set is left alone, otherwise the local
      completed count goes up by one. */
  function Polled(r: Round): Round
  {
    if r.mpiStatus then r else r.(localNumCompleted := r.localNumCompleted + 1)
  }

  /** The round after `m` polls. */
  function PollMany(r: Round, m: nat): Round
  {
    if m == 0 then r else Polled(PollMany(r, m - 1))
  }

  /** Polling a round whose status is clear counts every poll and leaves the rest; polling
      a round whose status is set changes nothing. */
  lemma {:induction false} PollManyCounts(r: Round, m: nat)
    ensures !r.mpiStatus ==> PollMany(r, m) == r.(localNumCompleted := r.localNumCompleted + m)
    ensures r.mpiStatus ==> PollMany(r, m) == r
  {
    if m > 0 {
      PollManyCounts(r, m - 1);
    }
  }

  /** After StartCommunication and `m` polls the local completed count is `m`, the reduced
      incomplete count is what StartCommunication set, and no poll has reported completion. */
  lemma {:induction false} StartThenPoll(peers: seq<int>, m: nat)
    ensures PollMany(Started(peers), m) == Round(false, AllReduceSum(3, peers), m)
    ensures !PollMany(Started(peers), m).mpiStatus
  {
    PollManyCounts(Started(peers), m);
  }

  /** A swarm's counters and migration-round state. The pool storage itself, and the
      operations that fill, empty, compact and resize it, are not part of this model. */
  class Swarm {
    var nmaxPool: int
    var maxActiveIndex: int
    var numActive: int
    var mpiStatus: bool
    var globalNumIncomplete: int
    var localNumCompleted: int

    /** A new swarm: both counters start at 0; the other fields are set elsewhere. */
    constructor ()
      ensures numActive == 0 && maxActiveIndex == 0
      ensures GetPackingEfficiency() == 0.0
    {
      maxActiveIndex := 0;
      numActive := 0;
    }

    /** The migration-round fields as one value. */
    function RoundState(): Round
      reads this
    {
      Round(mpiStatus, globalNumIncomplete, localNumCompleted)
    }

    /** The capacity that doubling growth requests from setPoolMax. */
    method IncreasePoolMax() returns (requested: int)
      ensures requested == 2 * nmaxPool
      ensures nmaxPool > 0 ==> requested > nmaxPool
    {
      requested := 2 * nmaxPool;
    }

    /** The highest slot index in use. */
    function GetMaxActiveIndex(): (r: int)
      reads this
      ensures r == maxActiveIndex
    {
      maxActiveIndex
    }

    /** The number of live particles. */
    function GetNumActive(): (r: int)
      reads this
      ensures r == numActive
    {
      numActive
    }

    /** Packing efficiency as written: an integer division of the counters, converted to a
        real afterwards. For counters within the pool invariant it is 1 when the pool is
        fully packed and 0 as soon as there is a single gap. */
    function GetPackingEfficiency(): (e: real)
      reads this
      requires maxActiveIndex + 1 != 0
      ensures e == e.Floor as real
      ensures 0 <= numActive <= maxActiveIndex + 1 ==> (e == 0.0 || e == 1.0)
      ensures 0 <= numActive <= maxActiveIndex + 1 ==> (e == 1.0 <==> numActive == maxActiveIndex + 1)
    {
      var q := TruncDiv(numActive, maxActiveIndex + 1);
      assert 0 <= numActive <= maxActiveIndex + 1 ==> q == 0 || q == 1;
      q as real
    }

    /** Packing efficiency as the comment on get_packing_efficiency describes it: the share of
        the used index span that holds live particles, in (0, 1] for a non-empty pool and 1
        exactly when fully packed. */
    function PackingRatio(): (e: real)
      reads this
      requires maxActiveIndex + 1 != 0
      ensures 0 < numActive <= maxActiveIndex + 1 ==> 0.0 < e <= 1.0
      ensures e == 1.0 <==> numActive == maxActiveIndex + 1
      ensures e * (maxActiveIndex + 1) as real == numActive as real
    {
      numActive as real / (maxActiveIndex + 1) as real
    }

    /** Opens a migration round: clears the status, resets the local completed count and sets
        the incomplete count to the all-rank reduction of this rank's 3. Always succeeds. */
    method StartCommunication(peers: seq<int>) returns (ok: bool)
      modifies this
      ensures ok
      ensures RoundState() == Started(peers)
      ensures peers == [] ==> globalNumIncomplete == 3
      ensures nmaxPool == old(nmaxPool) && maxActiveIndex == old(maxActiveIndex)
      ensures numActive == old(numActive)
    {
      mpiStatus := false;
      globalNumIncomplete := 3;
      localNumCompleted := 0;
      globalNumIncomplete := globalNumIncomplete + Sum(peers);
      return true;
    }

    /** One poll of the round: reports true and changes nothing once the status is set,
        otherwise counts one more local completion and reports false. */
    method SillyUpdate() returns (done: bool)
      modifies this
      ensures done == old(mpiStatus)
      ensures RoundState() == Polled(old(RoundState()))
      ensures old(mpiStatus) ==> RoundState() == old(RoundState())
      ensures !old(mpiStatus) ==> localNumCompleted == old(localNumCompleted) + 1
      ensures nmaxPool == old(nmaxPool) && maxActiveIndex == old(maxActiveIndex)
      ensures numActive == old(numActive)
    {
      if mpiStatus {
        return true;
      }
      localNumCompleted := localNumCompleted + 1;
      return false;
    }
  }

  /** The integer division in get_packing_efficiency drops the fraction: two live particles
      over an index span of three give 0 rather than two thirds. */
  lemma PackingEfficiencyDropsFraction(s: Swarm)
    requires s.numActive == 2 && s.maxActiveIndex == 2
    ensures s.GetPackingEfficiency() == 0.0
    ensures s.PackingRatio() == 2.0 / 3.0
  {
  }
}
