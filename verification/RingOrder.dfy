// src/in_process/collective/reduction.rs, src/in_process/native.rs and src/local/all_reduce/ring.rs: in
// which order each ring adds up an element, rank by rank and without the schedules that bring it about.
module RingOrder {
  import opened Numbers
  import opened Layout
  import opened RingMath
  import opened InProcessRing
  import LocalRing

  // x[from] + (x[from - 1] + (... + x[from - count])), around the ring.
  function Backward<T>(op: (T, T) -> T, x: seq<T>, from: nat, count: nat): T
    requires from < |x|
    decreases count
  {
    if count == 0 then x[from] else op(x[from], Backward(op, x, if from == 0 then |x| - 1 else from - 1, count - 1))
  }

  lemma {:induction false} FoldIsBackward<T>(op: (T, T) -> T, x: seq<T>, origin: nat, k: nat, from: nat)
    requires origin < |x| && k < |x| && from == if origin + k < |x| then origin + k else origin + k - |x|
    ensures RingFold(op, x, origin, k) == Backward(op, x, from, k)
  {
    WrapOnce(origin + k, |x|);
    if k > 0 { FoldIsBackward(op, x, origin, k - 1, if from == 0 then |x| - 1 else from - 1); }
  }

  // In process, an element of chunk c ends as its rank c's value plus what rank c - 1 had made of it.
  lemma InProcessOrder<T>(op: (T, T) -> T, x: seq<seq<T>>, length: nat, c: nat, e: nat)
    requires World(x, length) && c < |x| && Balanced(length, |x|)[c].start <= e < Balanced(length, |x|)[c].end && e < length
    ensures AllReduced(op, x, length)[e] == Backward(op, Column(x, e), c, |x| - 1)
  {
    BalancedPartitions(length, |x|);
    assert ChunkOf(Balanced(length, |x|), length, e) == c by { ChunkIs(Balanced(length, |x|), length, c); }
    FoldIsBackward(op, Column(x, e), Origin(|x|, c), |x| - 1, c);
  }

  // Natively and locally it starts with rank c itself, and rank c - 1 adds last.
  lemma LocalOrder<T>(op: (T, T) -> T, x: seq<seq<T>>, ranges: seq<Range>, s: nat, c: nat, e: nat)
    requires |x| > 0 && |ranges| == |x| && Partitions(ranges, s) && forall r | 0 <= r < |x| :: |x[r]| == s
    requires c < |x| && ranges[c].start <= e < ranges[c].end && e < s
    ensures LocalRing.RingTotal(op, x, ranges, s)[e] == Backward(op, Column(x, e), if c == 0 then |x| - 1 else c - 1, |x| - 1)
  {
    ChunkIs(ranges, s, c);
    FoldIsBackward(op, Column(x, e), c, |x| - 1, if c == 0 then |x| - 1 else c - 1);
  }
}
