// src/global/node/ring.rs: the multi-node ring on whole tensors, cut along their longest axis before the
// cycles and joined again after the barrier.
module NodeRingTensor {
  import opened Wrappers
  import opened Layout
  import opened RingMath
  import opened LocalRing
  import R = NodeRing

  datatype RingError = RingReduceImpossible | NoSuchSlice(range: Range)

  ghost predicate IsPiece<E>(tensor: seq<E>, range: Range, piece: seq<E>) {
    IsSlice(range, |tensor|) && piece == tensor[range.start..range.end]
  }

  // One node's slices of its tensor. An axis shorter than the number of nodes is refused; a
  // slice that the axis does not have is the backend's to refuse.
  method SliceTensor<E>(tensor: seq<E>, n: nat) returns (slices: Result<seq<seq<E>>, RingError>)
    requires n > 0
    ensures |tensor| < n <==> slices == Err(RingReduceImpossible)
    ensures slices.Ok? <==> |tensor| >= n && (n - 1) * CeilDiv(|tensor|, n) <= |tensor|
    ensures slices.Ok? ==> Partitions(SliceRanges(|tensor|, n), |tensor|) && |slices.value| == n
    ensures slices.Ok? ==> forall c | 0 <= c < n :: IsPiece(tensor, SliceRanges(|tensor|, n)[c], slices.value[c])
    ensures slices.Err? && slices.error.NoSuchSlice? ==>
      slices.error.range in SliceRanges(|tensor|, n) && !IsSlice(slices.error.range, |tensor|)
  {
    if |tensor| < n { return Err(RingReduceImpossible); }
    var ranges := GetRingReduceSliceRanges(|tensor|, n);
    FittingSlices(|tensor|, n);
    SlicesPartitionExactlyWhenTheyFit(|tensor|, n);
    var bad := FirstBadSlice(ranges, |tensor|);
    if bad.Some? { return Err(NoSuchSlice(bad.value)); }
    return Ok(Cut(tensor, ranges));
  }

  ghost predicate Sliceable<E>(x: seq<seq<E>>, s: nat) {
    |x| > 0 && (forall r | 0 <= r < |x| :: |x[r]| == s) && s >= |x| && (|x| - 1) * CeilDiv(s, |x|) <= s
  }

  lemma SliceableFacts<E>(x: seq<seq<E>>, s: nat)
    requires Sliceable(x, s)
    ensures Partitions(SliceRanges(s, |x|), s) && forall c | 0 <= c < |x| :: IsSlice(SliceRanges(s, |x|)[c], s)
  {
    FittingSlices(s, |x|);
    SlicesPartitionExactlyWhenTheyFit(s, |x|);
  }

  // The ring the nodes run: node r's slices of tensor x[r].
  ghost function RingOf<E(!new)>(op: (E, E) -> E, x: seq<seq<E>>, s: nat): (ring: R.Ring<seq<E>>)
    requires Sliceable(x, s)
    ensures ring.Size() == |x| && ring.op == Zip(op) && ring.Valid()
  {
    SliceableFacts(x, s);
    R.Ring(seq(|x|, r requires 0 <= r < |x| => Cut(x[r], SliceRanges(s, |x|))), Zip(op), slice => |slice|)
  }

  lemma FoldsJoin<E(!new)>(op: (E, E) -> E, x: seq<seq<E>>, s: nat, slices: seq<seq<E>>)
    requires Sliceable(x, s) && |slices| == |x|
    requires forall c | 0 <= c < |x| :: slices[c] == RingFold(Zip(op), Column(RingOf(op, x, s).x, c), c, |x| - 1)
    ensures Partitions(SliceRanges(s, |x|), s) && Concatenated(slices) == RingTotal(op, x, SliceRanges(s, |x|), s)
  {
    SliceableFacts(x, s);
    JoinSlices(op, x, RingOf(op, x, s).x, SliceRanges(s, |x|), s, slices);
  }

  // In every run every node that ran both phases has, joined, the ring total of the whole tensors.
  lemma FinishedNodesHoldTheTotal<E(!new)>(op: (E, E) -> E, x: seq<seq<E>>, s: nat, run: seq<R.State<seq<E>>>, i: nat, p: nat)
    requires Sliceable(x, s) && R.IsRun(RingOf(op, x, s), run) && i < |run| && p < |x|
    ensures |run[i].nodes| == |x| && !run[i].nodes[p].failed && Partitions(SliceRanges(s, |x|), s)
    ensures run[i].nodes[p].counter == RingOf(op, x, s).Transfers() ==>
      Concatenated(run[i].nodes[p].slices) == RingTotal(op, x, SliceRanges(s, |x|), s)
  {
    var ring := RingOf(op, x, s);
    R.FinishedNodesHoldEverySum(ring, run, i, p);
    SliceableFacts(x, s);
    if run[i].nodes[p].counter == ring.Transfers() { FoldsJoin(op, x, s, run[i].nodes[p].slices); }
  }

  // With an associative and commutative addition it is the sum of the tensors, element by element.
  lemma FinishedNodesHoldTheSum<E(!new)>(op: (E, E) -> E, x: seq<seq<E>>, s: nat, run: seq<R.State<seq<E>>>, i: nat, p: nat, e: nat)
    requires Sliceable(x, s) && R.IsRun(RingOf(op, x, s), run) && i < |run| && p < |x|
    requires |run[i].nodes| == |x| && run[i].nodes[p].counter == RingOf(op, x, s).Transfers()
    requires Associative(op) && Commutative(op) && e < s
    ensures |Concatenated(run[i].nodes[p].slices)| == s && Concatenated(run[i].nodes[p].slices)[e] == LeftFold(op, Column(x, e))
  {
    FinishedNodesHoldTheTotal(op, x, s, run, i, p);
    RingTotalIsSum(op, x, SliceRanges(s, |x|), s, e);
  }
}
