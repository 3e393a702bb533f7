// src/in_process/native.rs: the device-resident ring, expressed through one primitive of the device.
module NativeRing {
  import opened Layout
  import opened Numbers
  import opened RingMath
  import InProcessRing
  import LocalRing

  ghost predicate World<T>(x: seq<seq<T>>, length: nat) {
    InProcessRing.World(x, length)
  }

  // The device's contract: every rank's range goes to its successor, all sends before any write, and
  // is added to or written over what the successor holds there.
  function Exchange<T>(op: (T, T) -> T, work: seq<seq<T>>, ranges: seq<Range>, reduce: bool): (next: seq<seq<T>>)
    requires |ranges| == |work| > 0 && forall r, q | 0 <= r < |work| && 0 <= q < |work| :: |work[r]| == |work[q]|
    ensures |next| == |work|
    ensures forall r | 0 <= r < |work| :: |next[r]| == |work[r]| && forall e | 0 <= e < |work[r]| ::
      next[r][e] == ExchangedAt(op, work, ranges, reduce, r, e)
  {
    seq(|work|, r requires 0 <= r < |work| =>
      seq(|work[r]|, e requires 0 <= e < |work[r]| => ExchangedAt(op, work, ranges, reduce, r, e)))
  }

  function ExchangedAt<T>(op: (T, T) -> T, work: seq<seq<T>>, ranges: seq<Range>, reduce: bool, r: nat, e: nat): T
    requires |ranges| == |work| && r < |work| && forall r, q | 0 <= r < |work| && 0 <= q < |work| :: |work[r]| == |work[q]|
    requires e < |work[r]|
  {
    var p := Previous(|work|, r);
    if !(ranges[p].start <= e < ranges[p].end) then work[r][e]
    else if reduce then op(work[r][e], work[p][e])
    else work[p][e]
  }

  function SendChunk(n: nat, r: nat, step: nat, reduce: bool): (c: nat)
    requires r < n && step + 1 < n
    ensures c < n
  {
    if reduce then (r + n - step) % n else (r + 1 + n - step) % n
  }

  lemma ScheduleFacts(n: nat, r: nat, step: nat, c: nat)
    requires r < n && step + 1 < n && c < n
    ensures c == SendChunk(n, Previous(n, r), step, true) <==> Hops(n, c, r) == step + 1
    ensures c == SendChunk(n, Previous(n, r), step, false) <==> Hops(n, Owner(n, c), r) == step + 1
  {
    var p := Previous(n, r);
    WrapOnce(p + n - step, n);
    if p + 1 + n - step < 2 * n {
      WrapOnce(p + 1 + n - step, n);
    } else {
      assert p + 1 + n - step == 2 * n;
      ModUnique(2 * n, n, 2, 0);
    }
  }

  // Element e of rank r after `step` steps of a phase: chunk c leaves rank c first.
  ghost function PhaseAt<T>(op: (T, T) -> T, x: seq<seq<T>>, chunks: seq<Range>, length: nat, reduce: bool, step: nat, r: nat, e: nat): T
    requires World(x, length) && Partitions(chunks, length) && |chunks| == |x| && r < |x| && e < length
  {
    var c := ChunkOf(chunks, length, e);
    if reduce then Reduced(op, Column(x, e), c, step, r)
    else Gathered(Column(x, e), Owner(|x|, c), step, r)
  }

  ghost predicate AtStep<T>(op: (T, T) -> T, x: seq<seq<T>>, chunks: seq<Range>, length: nat, reduce: bool, step: nat, y: seq<seq<T>>)
    requires World(x, length) && Partitions(chunks, length) && |chunks| == |x|
  {
    World(y, length) && |y| == |x| &&
    forall r, e | 0 <= r < |x| && 0 <= e < length :: y[r][e] == PhaseAt(op, x, chunks, length, reduce, step, r, e)
  }

  lemma PhaseStart<T>(op: (T, T) -> T, x: seq<seq<T>>, chunks: seq<Range>, length: nat, reduce: bool)
    requires World(x, length) && Partitions(chunks, length) && |chunks| == |x|
    ensures AtStep(op, x, chunks, length, reduce, 0, x)
  {
    forall r, e | 0 <= r < |x| && 0 <= e < length ensures x[r][e] == PhaseAt(op, x, chunks, length, reduce, 0, r, e) {
      var c := ChunkOf(chunks, length, e);
      ReducedStep(op, Column(x, e), c, 0, r);
      GatheredStep(Column(x, e), Owner(|x|, c), 0, r);
    }
  }

  lemma PhaseStep<T>(op: (T, T) -> T, x: seq<seq<T>>, chunks: seq<Range>, length: nat, reduce: bool, step: nat,
                     y: seq<seq<T>>, ranges: seq<Range>)
    requires World(x, length) && Partitions(chunks, length) && |chunks| == |x| == |ranges| && step + 1 < |x|
    requires AtStep(op, x, chunks, length, reduce, step, y)
    requires forall r | 0 <= r < |x| :: ranges[r] == chunks[SendChunk(|x|, r, step, reduce)]
    ensures AtStep(op, x, chunks, length, reduce, step + 1, Exchange(op, y, ranges, reduce))
  {
    forall r, e | 0 <= r < |x| && 0 <= e < length
      ensures ExchangedAt(op, y, ranges, reduce, r, e) == PhaseAt(op, x, chunks, length, reduce, step + 1, r, e)
    {
      ElementStep(op, x, chunks, length, reduce, step, y, ranges, r, e);
    }
  }

  lemma ElementStep<T>(op: (T, T) -> T, x: seq<seq<T>>, chunks: seq<Range>, length: nat, reduce: bool, step: nat,
                       y: seq<seq<T>>, ranges: seq<Range>, r: nat, e: nat)
    requires World(x, length) && Partitions(chunks, length) && |chunks| == |x| == |ranges| && step + 1 < |x|
    requires AtStep(op, x, chunks, length, reduce, step, y) && r < |x| && e < length
    requires forall q | 0 <= q < |x| :: ranges[q] == chunks[SendChunk(|x|, q, step, reduce)]
    ensures ExchangedAt(op, y, ranges, reduce, r, e) == PhaseAt(op, x, chunks, length, reduce, step + 1, r, e)
  {
    var c, p := ChunkOf(chunks, length, e), Previous(|x|, r);
    ScheduleFacts(|x|, r, step, c);
    ChunkIs(chunks, length, SendChunk(|x|, p, step, reduce));
    assert y[r][e] == PhaseAt(op, x, chunks, length, reduce, step, r, e);
    assert y[p][e] == PhaseAt(op, x, chunks, length, reduce, step, p, e);
    if reduce {
      ReducedStep(op, Column(x, e), c, step, r);
    } else {
      GatheredStep(Column(x, e), Owner(|x|, c), step, r);
    }
  }

  lemma BothPhases<T>(op: (T, T) -> T, x: seq<seq<T>>, y: seq<seq<T>>, z: seq<seq<T>>, chunks: seq<Range>, length: nat, r: nat)
    requires World(x, length) && Partitions(chunks, length) && |chunks| == |x| && r < |x|
    requires AtStep(op, x, chunks, length, true, |x| - 1, y)
    requires AtStep(op, y, chunks, length, false, |x| - 1, z)
    ensures z[r] == LocalRing.RingTotal(op, x, chunks, length)
  {
    var total := LocalRing.RingTotal(op, x, chunks, length);
    forall e | 0 <= e < length ensures z[r][e] == total[e] {
      var c := ChunkOf(chunks, length, e);
      var col := Column(x, e);
      OwnerFinished(op, col, c);
      GatheredStep(Column(y, e), Owner(|x|, c), 0, r);
      assert z[r][e] == y[Owner(|x|, c)][e];
    }
  }

  method Phase<T>(inputs: seq<seq<T>>, chunks: seq<Range>, length: nat, op: (T, T) -> T, reduce: bool) returns (work: seq<seq<T>>)
    requires World(inputs, length) && Partitions(chunks, length) && |chunks| == |inputs|
    ensures AtStep(op, inputs, chunks, length, reduce, |inputs| - 1, work)
  {
    var world := |inputs|;
    work := inputs;
    PhaseStart(op, inputs, chunks, length, reduce);
    for step := 0 to world - 1
      invariant AtStep(op, inputs, chunks, length, reduce, step, work)
    {
      var ranges := seq(world, rank requires 0 <= rank < world => chunks[SendChunk(world, rank, step, reduce)]);
      PhaseStep(op, inputs, chunks, length, reduce, step, work, ranges);
      work := Exchange(op, work, ranges, reduce);
    }
  }

  // Reducing, then overwriting. The final mean scaling is the device's.
  method RingAllReduce<T>(inputs: seq<seq<T>>, length: nat, op: (T, T) -> T) returns (work: seq<seq<T>>)
    requires World(inputs, length)
    ensures Partitions(Balanced(length, |inputs|), length)
    ensures |work| == |inputs|
    ensures forall r | 0 <= r < |work| :: work[r] == LocalRing.RingTotal(op, inputs, Balanced(length, |inputs|), length)
  {
    var chunks := BalancedRanges(length, |inputs|);
    var reduced := Phase(inputs, chunks, length, op, true);
    work := Phase(reduced, chunks, length, op, false);
    forall r | 0 <= r < |work| ensures work[r] == LocalRing.RingTotal(op, inputs, chunks, length) {
      BothPhases(op, inputs, reduced, work, chunks, length, r);
    }
  }

  // ---- the schedules against each other ----------------------------------------------------------

  // Where the world divides the axis the local ring slices as the native one does, so by their
  // contracts both give every rank the very same row.
  lemma LocalSlicesAreNativeChunks(s: nat, n: nat)
    requires n > 0 && s % n == 0
    ensures LocalRing.SliceRanges(s, n) == Balanced(s, n)
  {
    var size := s / n;
    assert n * size == s;
    forall i | 0 <= i < n ensures LocalRing.SliceRanges(s, n)[i] == Balanced(s, n)[i] {
      BalancedStartClosed(size, 0, i);
      BalancedStartClosed(size, 0, i + 1);
      assert (i + 1) * size == i * size + size;
      if i == n - 1 { assert (i + 1) * size == s; }
    }
  }

  function Rotate<T>(x: seq<T>): (y: seq<T>)
    requires |x| > 0
    ensures |y| == |x|
  {
    x[1..] + [x[0]]
  }

  lemma {:induction false} FoldShift<T>(op: (T, T) -> T, x: seq<T>, origin: nat, k: nat)
    requires origin < |x| && k < |x|
    ensures RingFold(op, Rotate(x), origin, k) == RingFold(op, x, InProcessRing.Origin(|x|, origin), k)
  {
    var n, shifted := |x|, InProcessRing.Origin(|x|, origin);
    WrapOnce(origin + k, n);
    WrapOnce(shifted + k, n);
    if k > 0 {
      FoldShift(op, x, origin, k - 1);
      assert Rotate(x)[(origin + k) % n] == x[(shifted + k) % n];
    }
  }

  // The in-process schedule is the native one with every rank renamed to its predecessor.
  lemma InProcessIsNativeShiftedByOne<T>(op: (T, T) -> T, x: seq<seq<T>>, length: nat)
    requires World(x, length)
    ensures Partitions(Balanced(length, |x|), length)
    ensures InProcessRing.AllReduced(op, x, length) == LocalRing.RingTotal(op, Rotate(x), Balanced(length, |x|), length)
  {
    BalancedPartitions(length, |x|);
    var native := LocalRing.RingTotal(op, Rotate(x), Balanced(length, |x|), length);
    forall e | 0 <= e < length ensures InProcessRing.AllReduced(op, x, length)[e] == native[e] {
      FoldShift(op, Column(x, e), ChunkOf(Balanced(length, |x|), length, e), |x| - 1);
      assert Column(Rotate(x), e) == Rotate(Column(x, e));
    }
  }
}
