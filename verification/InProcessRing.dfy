// src/in_process/collective: collectives over one buffer per rank, staged through the host.
module InProcessRing {
  import opened Wrappers
  import opened Numbers
  import opened Layout
  import opened RingMath

  const U32_MAX: nat := 0xFFFF_FFFF

  datatype Error = EmptyWorld | WrongCommunicator | InvalidLength | Overflow

  datatype Stats = Stats(steps: nat, launches: nat, transferredBytes: nat)

  // One device buffer per rank.
  datatype DistributedBuffer<T> = DistributedBuffer(communicatorId: nat, buffers: seq<array<T>>, lengthPerRank: nat) {
    ghost predicate Valid() {
      Disjoint(buffers) && forall r | 0 <= r < |buffers| :: buffers[r].Length == lengthPerRank
    }
  }

  ghost predicate Disjoint<T>(buffers: seq<array<T>>) {
    forall i, j | 0 <= i < j < |buffers| :: buffers[i] != buffers[j]
  }

  ghost function Contents<T>(buffers: seq<array<T>>): (x: seq<seq<T>>)
    reads buffers
    ensures |x| == |buffers|
    ensures forall r | 0 <= r < |buffers| :: x[r] == buffers[r][..]
  {
    if buffers == [] then [] else Contents(buffers[..|buffers| - 1]) + [buffers[|buffers| - 1][..]]
  }

  ghost predicate World<T>(x: seq<seq<T>>, length: nat) {
    |x| > 0 && forall r | 0 <= r < |x| :: |x[r]| == length
  }

  // ---- device operations -------------------------------------------------------------------------

  method CopyFromDeviceAt<T>(buffer: array<T>, offset: nat, length: nat) returns (values: seq<T>)
    requires offset + length <= buffer.Length
    ensures values == buffer[..][offset..offset + length]
  {
    values := buffer[offset..offset + length];
  }

  method CopyToDeviceAt<T>(buffer: array<T>, offset: nat, values: seq<T>)
    requires offset + |values| <= buffer.Length
    modifies buffer
    ensures forall e | 0 <= e < buffer.Length ::
      buffer[e] == if offset <= e < offset + |values| then values[e - offset] else old(buffer[e])
  {
    forall i | 0 <= i < |values| { buffer[offset + i] := values[i]; }
  }

  // Reduce the first `length` elements of source into destination, starting at `offset`.
  method LaunchReduction<T>(kernel: (T, T) -> T, length: nat, offset: nat, source: array<T>, destination: array<T>)
    requires length <= source.Length && offset + length <= destination.Length && source != destination
    modifies destination
    ensures forall e | 0 <= e < destination.Length ::
      destination[e] == if offset <= e < offset + length then kernel(old(destination[e]), source[e - offset])
                        else old(destination[e])
  {
    forall i | 0 <= i < length { destination[offset + i] := kernel(destination[offset + i], source[i]); }
  }

  // ---- the schedule ------------------------------------------------------------------------------

  // Reducing phase: the chunk rank r receives in step `step`, and the one it sends.
  function ReceiveChunk(n: nat, r: nat, step: nat): (c: nat)
    requires r < n && step + 1 < n
    ensures c < n
  {
    (r + n - step - 2) % n
  }

  function SendChunk(n: nat, r: nat, step: nat): (c: nat)
    requires r < n && step + 1 < n
    ensures c < n
  {
    (r + n - step - 1) % n
  }

  // Chunk c starts its journey at rank c + 1.
  function Origin(n: nat, c: nat): (o: nat)
    requires c < n
    ensures o < n
  {
    Successor(n, c)
  }

  // Gathering phase: the chunk rank r sends. It receives the chunk it sent one reducing step earlier.
  function GatherChunk(n: nat, r: nat, step: nat): (c: nat)
    requires r < n && step + 1 < n
    ensures c < n
  {
    (r + n - step) % n
  }

  lemma PreviousIs(n: nat, r: nat)
    requires r < n
    ensures (r + n - 1) % n == Previous(n, r)
  {
    WrapOnce(r + n - 1, n);
  }

  lemma ChunksLieBehind(n: nat, r: nat, step: nat)
    requires r < n && step + 1 < n
    ensures ReceiveChunk(n, r, step) == Behind(n, r, step + 2)
    ensures SendChunk(n, r, step) == Behind(n, r, step + 1)
    ensures GatherChunk(n, r, step) == Behind(n, r, step)
  {
    WrapOnce(r + n - step - 2, n);
    WrapOnce(r + n - step - 1, n);
    WrapOnce(r + n - step, n);
  }

  lemma BehindFacts(n: nat, r: nat, step: nat, c: nat)
    requires r < n && step + 1 < n && c < n
    ensures Behind(n, Previous(n, r), step + 1) == Behind(n, r, step + 2)
    ensures Behind(n, Previous(n, r), step) == Behind(n, r, step + 1)
    ensures c == Behind(n, r, step + 2) <==> Hops(n, Successor(n, c), r) == step + 1
    ensures c == Behind(n, r, step + 1) <==> Hops(n, c, r) == step + 1
  {
  }

  lemma ScheduleFacts(n: nat, r: nat, step: nat, c: nat)
    requires r < n && step + 1 < n && c < n
    ensures SendChunk(n, Previous(n, r), step) == ReceiveChunk(n, r, step)
    ensures c == ReceiveChunk(n, r, step) <==> Hops(n, Origin(n, c), r) == step + 1
    // the gathering phase receives what its predecessor holds and finished one step earlier
    ensures c == SendChunk(n, r, step) <==> Hops(n, c, r) == step + 1
    ensures Owner(n, Origin(n, c)) == c
    ensures GatherChunk(n, Previous(n, r), step) == SendChunk(n, r, step)
  {
    ChunksLieBehind(n, r, step);
    ChunksLieBehind(n, Previous(n, r), step);
    BehindFacts(n, r, step, c);
  }

  // Stage every rank's outgoing range before any rank's buffer changes.
  method Stage<T>(buffers: seq<array<T>>, ranges: seq<Range>) returns (staged: seq<seq<T>>)
    requires |ranges| == |buffers|
    requires forall r | 0 <= r < |buffers| :: ranges[r].start <= ranges[r].end <= buffers[r].Length
    ensures |staged| == |buffers|
    ensures forall r | 0 <= r < |buffers| :: staged[r] == buffers[r][..][ranges[r].start..ranges[r].end]
  {
    staged := [];
    for rank := 0 to |buffers|
      invariant |staged| == rank
      invariant forall r | 0 <= r < rank :: staged[r] == buffers[r][..][ranges[r].start..ranges[r].end]
    {
      var values := CopyFromDeviceAt(buffers[rank], ranges[rank].start, ranges[rank].end - ranges[rank].start);
      staged := staged + [values];
    }
  }

  ghost predicate Ready<T>(buffers: seq<array<T>>, scratch: seq<array<T>>, chunks: seq<Range>, length: nat) {
    && |buffers| == |scratch| == |chunks| > 0
    && Disjoint(buffers)
    && (forall i, j | 0 <= i < |buffers| && 0 <= j < |scratch| :: buffers[i] != scratch[j])
    && Partitions(chunks, length)
    && (forall r | 0 <= r < |buffers| :: buffers[r].Length == length)
    && (forall r, c | 0 <= r < |scratch| && 0 <= c < |chunks| :: chunks[c].end - chunks[c].start <= scratch[r].Length)
  }

  // Rank r's buffer after one simultaneous step of the reducing phase.
  ghost function ReducedRow<T>(op: (T, T) -> T, x: seq<seq<T>>, chunks: seq<Range>, length: nat, step: nat, r: nat): (row: seq<T>)
    requires World(x, length) && Partitions(chunks, length) && |chunks| == |x| && r < |x| && step + 1 < |x|
    ensures |row| == length
  {
    seq(length, e requires 0 <= e < length =>
      if ChunkOf(chunks, length, e) == ReceiveChunk(|x|, r, step) then op(x[r][e], x[Previous(|x|, r)][e]) else x[r][e])
  }

  method ReceiveAndReduce<T>(kernel: (T, T) -> T, range: Range, values: seq<T>, scratch: array<T>, destination: array<T>)
    requires scratch != destination && range.start <= range.end <= destination.Length
    requires |values| == range.end - range.start <= scratch.Length
    modifies scratch, destination
    ensures forall e | 0 <= e < destination.Length ::
      destination[e] == if range.start <= e < range.end then kernel(old(destination[e]), values[e - range.start])
                        else old(destination[e])
  {
    CopyToDeviceAt(scratch, 0, values);
    LaunchReduction(kernel, range.end - range.start, range.start, scratch, destination);
  }

  // How many of the ranks below `rank` receive a chunk below m when everyone's chunk is shifted by k.
  function ReceiversBelow(n: nat, k: nat, m: nat, rank: nat): (count: int)
    requires k < n && m <= n && rank <= n
  {
    if rank + k <= n then Max(0, Min(m, rank + k) - k) else Max(0, m - k) + Min(m, rank + k - n)
  }

  function Max(a: int, b: int): int { if a < b then b else a }

  lemma ReceiversStep(n: nat, k: nat, m: nat, rank: nat)
    requires k < n && m <= n && rank < n
    ensures ReceiversBelow(n, k, m, 0) == 0 && ReceiversBelow(n, k, m, n) == m
    ensures ReceiversBelow(n, k, m, rank + 1) == ReceiversBelow(n, k, m, rank) + if (rank + k) % n < m then 1 else 0
  {
    WrapOnce(rank + k, n);
  }

  // Whether a rank launches the kernel depends on the chunk it receives.
  lemma OneMoreLaunch(chunks: seq<Range>, n: nat, k: nat, filled: nat, step: nat, rank: nat)
    requires |chunks| == n && Filled(chunks, filled) && step + 1 < n && rank < n && k == n - step - 2
    ensures var range := chunks[ReceiveChunk(n, rank, step)];
      ReceiversBelow(n, k, filled, rank + 1) == ReceiversBelow(n, k, filled, rank) + if range.start != range.end then 1 else 0
    ensures ReceiversBelow(n, k, filled, n) == filled
  {
    ReceiversStep(n, k, filled, rank);
  }

  // One rank's half of a step: `values` is what its predecessor staged.
  method RankReduceStep<T>(kernel: (T, T) -> T, ghost x: seq<seq<T>>, chunks: seq<Range>, length: nat, step: nat, rank: nat,
                           values: seq<T>, scratch: array<T>, buffer: array<T>)
    returns (launched: bool)
    requires World(x, length) && Partitions(chunks, length) && |chunks| == |x| && rank < |x| && step + 1 < |x|
    requires scratch != buffer && buffer[..] == x[rank]
    requires forall c | 0 <= c < |chunks| :: chunks[c].start <= chunks[c].end <= chunks[c].start + scratch.Length
    requires var s := chunks[SendChunk(|x|, Previous(|x|, rank), step)]; s.end <= length && values == x[Previous(|x|, rank)][s.start..s.end]
    modifies scratch, buffer
    ensures buffer[..] == ReducedRow(kernel, x, chunks, length, step, rank)
    ensures var range := chunks[ReceiveChunk(|x|, rank, step)]; launched <==> range.start != range.end
  {
    var receive := ReceiveChunk(|chunks|, rank, step);
    var range := chunks[receive];
    ScheduleFacts(|x|, rank, step, receive);
    ChunkIs(chunks, length, receive);
    launched := range.start != range.end;
    if launched {
      ReceiveAndReduce(kernel, range, values, scratch, buffer);
    }
  }

  ghost predicate Filled(chunks: seq<Range>, filled: nat) {
    filled <= |chunks| && forall c | 0 <= c < |chunks| :: chunks[c].start != chunks[c].end <==> c < filled
  }

  // The ranks below `rank` have done their half of the step, the others' buffers are as before it.
  ghost predicate ReducedBelow<T>(buffers: seq<array<T>>, op: (T, T) -> T, before: seq<seq<T>>, chunks: seq<Range>, length: nat, step: nat, rank: nat)
    requires World(before, length) && Partitions(chunks, length) && |chunks| == |before| == |buffers| && step + 1 < |before|
    reads buffers
  {
    && (forall r | 0 <= r < |buffers| && r < rank :: buffers[r][..] == ReducedRow(op, before, chunks, length, step, r))
    && (forall r | 0 <= r < |buffers| && rank <= r :: buffers[r][..] == before[r])
  }

  // What each rank staged is its outgoing chunk, and every chunk has room in a scratch buffer.
  ghost predicate StagedChunks<T>(staged: seq<seq<T>>, before: seq<seq<T>>, chunks: seq<Range>, length: nat, step: nat)
    requires World(before, length) && |chunks| == |before| == |staged| && step + 1 < |before|
  {
    forall r | 0 <= r < |before| :: IsChunk(staged[r], before[r], chunks[SendChunk(|before|, r, step)])
  }

  ghost predicate IsChunk<T>(values: seq<T>, row: seq<T>, range: Range) {
    range.start <= range.end <= |row| && values == row[range.start..range.end]
  }

  method ReduceRank<T>(buffers: seq<array<T>>, scratch: array<T>, chunks: seq<Range>, length: nat, kernel: (T, T) -> T, step: nat,
                       ghost before: seq<seq<T>>, staged: seq<seq<T>>, rank: nat)
    returns (launched: bool)
    requires World(before, length) && Partitions(chunks, length) && |chunks| == |before| == |staged| == |buffers| && step + 1 < |before|
    requires Disjoint(buffers) && scratch !in buffers && rank < |buffers|
    requires forall c | 0 <= c < |chunks| :: chunks[c].start <= chunks[c].end <= chunks[c].start + scratch.Length
    requires StagedChunks(staged, before, chunks, length, step) && ReducedBelow(buffers, kernel, before, chunks, length, step, rank)
    modifies buffers[rank], scratch
    ensures ReducedBelow(buffers, kernel, before, chunks, length, step, rank + 1)
    ensures var range := chunks[ReceiveChunk(|buffers|, rank, step)]; launched <==> range.start != range.end
  {
    var source := (rank + |buffers| - 1) % |buffers|;
    PreviousIs(|buffers|, rank);
    assert IsChunk(staged[source], before[source], chunks[SendChunk(|before|, source, step)]);
    launched := RankReduceStep(kernel, before, chunks, length, step, rank, staged[source], scratch, buffers[rank]);
  }

  method ReduceRanks<T>(buffers: seq<array<T>>, scratch: seq<array<T>>, chunks: seq<Range>, length: nat, ghost filled: nat,
                        kernel: (T, T) -> T, step: nat, ghost before: seq<seq<T>>, staged: seq<seq<T>>)
    returns (launches: nat)
    requires Ready(buffers, scratch, chunks, length) && step + 1 < |buffers| && Filled(chunks, filled)
    requires World(before, length) && |before| == |staged| == |buffers|
    requires StagedChunks(staged, before, chunks, length, step) && ReducedBelow(buffers, kernel, before, chunks, length, step, 0)
    modifies buffers, scratch
    ensures ReducedBelow(buffers, kernel, before, chunks, length, step, |buffers|)
    ensures launches == filled
  {
    var n := |buffers|;
    launches := 0;
    PartitionBounds(chunks, length);
    ghost var k: nat := n - step - 2;
    ReceiversStep(n, k, filled, 0);
    for rank := 0 to n
      invariant launches == ReceiversBelow(n, k, filled, rank)
      invariant ReducedBelow(buffers, kernel, before, chunks, length, step, rank)
    {
      var launched := ReduceRank(buffers, scratch[rank], chunks, length, kernel, step, before, staged, rank);
      if launched { launches := launches + 1; }
      OneMoreLaunch(chunks, n, k, filled, step, rank);
    }
  }

  // One step of the reducing phase over all ranks. The first `filled` chunks are the non-empty ones.
  method ReduceStep<T>(buffers: seq<array<T>>, scratch: seq<array<T>>, chunks: seq<Range>, length: nat, ghost filled: nat,
                       kernel: (T, T) -> T, step: nat)
    returns (launches: nat)
    requires Ready(buffers, scratch, chunks, length) && step + 1 < |buffers| && Filled(chunks, filled)
    modifies buffers, scratch
    ensures forall r | 0 <= r < |buffers| ::
      buffers[r][..] == ReducedRow(kernel, old(Contents(buffers)), chunks, length, step, r)
    ensures launches == filled
  {
    var n := |buffers|;
    PartitionBounds(chunks, length);
    var staged := Stage(buffers, seq(n, r requires 0 <= r < n => chunks[SendChunk(n, r, step)]));
    launches := ReduceRanks(buffers, scratch, chunks, length, filled, kernel, step, Contents(buffers), staged);
  }

  // Rank r's whole buffer after `step` steps of the reducing phase, as a function of the inputs.
  ghost function ReducePhaseRow<T>(op: (T, T) -> T, x: seq<seq<T>>, chunks: seq<Range>, length: nat, step: nat, r: nat): (row: seq<T>)
    requires World(x, length) && Partitions(chunks, length) && |chunks| == |x| && r < |x|
    ensures |row| == length
  {
    seq(length, e requires 0 <= e < length =>
      Reduced(op, Column(x, e), Origin(|x|, ChunkOf(chunks, length, e)), step, r))
  }

  lemma ReducePhaseStart<T>(op: (T, T) -> T, x: seq<seq<T>>, chunks: seq<Range>, length: nat, r: nat)
    requires World(x, length) && Partitions(chunks, length) && |chunks| == |x| && r < |x|
    ensures ReducePhaseRow(op, x, chunks, length, 0, r) == x[r]
  {
    forall e | 0 <= e < length ensures ReducePhaseRow(op, x, chunks, length, 0, r)[e] == x[r][e] {
      ReducedStep(op, Column(x, e), Origin(|x|, ChunkOf(chunks, length, e)), 0, r);
    }
  }

  // One simultaneous step carries the closed form from `step` to `step + 1`.
  lemma ReducePhaseStep<T>(op: (T, T) -> T, x: seq<seq<T>>, y: seq<seq<T>>, chunks: seq<Range>, length: nat, step: nat, r: nat)
    requires World(x, length) && World(y, length) && |y| == |x| && Partitions(chunks, length) && |chunks| == |x|
    requires r < |x| && step + 1 < |x|
    requires forall q | 0 <= q < |x| :: y[q] == ReducePhaseRow(op, x, chunks, length, step, q)
    ensures ReducedRow(op, y, chunks, length, step, r) == ReducePhaseRow(op, x, chunks, length, step + 1, r)
  {
    var p := Previous(|x|, r);
    forall e | 0 <= e < length
      ensures ReducedRow(op, y, chunks, length, step, r)[e] == ReducePhaseRow(op, x, chunks, length, step + 1, r)[e]
    {
      var c := ChunkOf(chunks, length, e);
      ScheduleFacts(|x|, r, step, c);
      ReducedStep(op, Column(x, e), Origin(|x|, c), step, r);
      assert y[r][e] == Reduced(op, Column(x, e), Origin(|x|, c), step, r);
      assert y[p][e] == Reduced(op, Column(x, e), Origin(|x|, c), step, p);
    }
  }

  // All world - 1 reducing steps: every partial fold is in its closed form.
  method ReducePhase<T>(buffers: seq<array<T>>, scratch: seq<array<T>>, chunks: seq<Range>, length: nat, ghost filled: nat,
                        kernel: (T, T) -> T)
    returns (steps: nat, launches: nat)
    requires Ready(buffers, scratch, chunks, length) && Filled(chunks, filled)
    modifies buffers, scratch
    ensures forall r | 0 <= r < |buffers| ::
      buffers[r][..] == ReducePhaseRow(kernel, old(Contents(buffers)), chunks, length, |buffers| - 1, r)
    ensures steps == |buffers| - 1 && launches == (|buffers| - 1) * filled
  {
    ghost var x := Contents(buffers);
    var n := |buffers|;
    steps, launches := 0, 0;
    forall r | 0 <= r < n ensures buffers[r][..] == ReducePhaseRow(kernel, x, chunks, length, 0, r) {
      ReducePhaseStart(kernel, x, chunks, length, r);
    }
    for step := 0 to n - 1
      invariant steps == step && launches == step * filled
      invariant forall r | 0 <= r < n :: buffers[r][..] == ReducePhaseRow(kernel, x, chunks, length, step, r)
    {
      ghost var y := Contents(buffers);
      var launched := ReduceStep(buffers, scratch, chunks, length, filled, kernel, step);
      forall r | 0 <= r < n ensures buffers[r][..] == ReducePhaseRow(kernel, x, chunks, length, step + 1, r) {
        ReducePhaseStep(kernel, x, y, chunks, length, step, r);
      }
      steps, launches := steps + 1, launches + launched;
      MulSuccessor(step, filled);
    }
  }

  // ---- the gathering phase -----------------------------------------------------------------------

  ghost predicate GatherReady<T>(buffers: seq<array<T>>, chunks: seq<Range>, length: nat) {
    && |buffers| == |chunks| > 0
    && Disjoint(buffers)
    && Partitions(chunks, length)
    && forall r | 0 <= r < |buffers| :: buffers[r].Length == length
  }

  // Rank r's buffer after one simultaneous step of the gathering phase.
  ghost function GatheredRow<T>(x: seq<seq<T>>, chunks: seq<Range>, length: nat, step: nat, r: nat): (row: seq<T>)
    requires World(x, length) && Partitions(chunks, length) && |chunks| == |x| && r < |x| && step + 1 < |x|
    ensures |row| == length
  {
    seq(length, e requires 0 <= e < length =>
      if ChunkOf(chunks, length, e) == SendChunk(|x|, r, step) then x[Previous(|x|, r)][e] else x[r][e])
  }

  method RankGatherStep<T>(ghost x: seq<seq<T>>, chunks: seq<Range>, length: nat, step: nat, rank: nat,
                           values: seq<T>, buffer: array<T>)
    requires World(x, length) && Partitions(chunks, length) && |chunks| == |x| && rank < |x| && step + 1 < |x|
    requires buffer[..] == x[rank]
    requires var s := chunks[GatherChunk(|x|, Previous(|x|, rank), step)]; s.start <= s.end <= length && values == x[Previous(|x|, rank)][s.start..s.end]
    modifies buffer
    ensures buffer[..] == GatheredRow(x, chunks, length, step, rank)
  {
    var receive := SendChunk(|chunks|, rank, step);
    var range := chunks[receive];
    ScheduleFacts(|x|, rank, step, receive);
    ChunkIs(chunks, length, receive);
    if range.start != range.end {
      CopyToDeviceAt(buffer, range.start, values);
    }
  }

  function GatherRanges(chunks: seq<Range>, step: nat): (ranges: seq<Range>)
    requires step + 1 < |chunks|
    ensures |ranges| == |chunks| && forall r | 0 <= r < |ranges| :: ranges[r] == chunks[GatherChunk(|chunks|, r, step)]
  {
    seq(|chunks|, r requires 0 <= r < |chunks| => chunks[GatherChunk(|chunks|, r, step)])
  }

  method GatherStep<T>(buffers: seq<array<T>>, chunks: seq<Range>, length: nat, step: nat)
    requires GatherReady(buffers, chunks, length) && step + 1 < |buffers|
    modifies buffers
    ensures forall r | 0 <= r < |buffers| :: buffers[r][..] == GatheredRow(old(Contents(buffers)), chunks, length, step, r)
  {
    var n := |buffers|;
    PartitionBounds(chunks, length);
    var staged := Stage(buffers, GatherRanges(chunks, step));
    GatherRanks(buffers, chunks, length, step, Contents(buffers), staged);
  }

  method GatherRanks<T>(buffers: seq<array<T>>, chunks: seq<Range>, length: nat, step: nat, ghost before: seq<seq<T>>, staged: seq<seq<T>>)
    requires GatherReady(buffers, chunks, length) && step + 1 < |buffers|
    requires |before| == |staged| == |buffers|
    requires forall r | 0 <= r < |buffers| :: before[r] == buffers[r][..]
    requires forall r | 0 <= r < |buffers| :: var s := chunks[GatherChunk(|buffers|, r, step)];
      s.start <= s.end <= length && staged[r] == before[r][s.start..s.end]
    modifies buffers
    ensures forall r | 0 <= r < |buffers| :: buffers[r][..] == GatheredRow(before, chunks, length, step, r)
  {
    var n := |buffers|;
    for rank := 0 to n
      invariant forall r | 0 <= r < rank :: buffers[r][..] == GatheredRow(before, chunks, length, step, r)
      invariant forall r | rank <= r < n :: buffers[r][..] == before[r]
    {
      var source := (rank + n - 1) % n;
      PreviousIs(n, rank);
      RankGatherStep(before, chunks, length, step, rank, staged[source], buffers[rank]);
    }
  }

  ghost function GatherPhaseRow<T>(x: seq<seq<T>>, chunks: seq<Range>, length: nat, step: nat, r: nat): (row: seq<T>)
    requires World(x, length) && Partitions(chunks, length) && |chunks| == |x| && r < |x|
    ensures |row| == length
  {
    seq(length, e requires 0 <= e < length => Gathered(Column(x, e), ChunkOf(chunks, length, e), step, r))
  }

  lemma GatherPhaseEnds<T>(x: seq<seq<T>>, chunks: seq<Range>, length: nat, r: nat)
    requires World(x, length) && Partitions(chunks, length) && |chunks| == |x| && r < |x|
    ensures GatherPhaseRow(x, chunks, length, 0, r) == x[r]
    ensures forall e | 0 <= e < length ::
      GatherPhaseRow(x, chunks, length, |x| - 1, r)[e] == x[ChunkOf(chunks, length, e)][e]
  {
    forall e | 0 <= e < length
      ensures GatherPhaseRow(x, chunks, length, 0, r)[e] == x[r][e]
      ensures GatherPhaseRow(x, chunks, length, |x| - 1, r)[e] == x[ChunkOf(chunks, length, e)][e]
    {
      GatheredStep(Column(x, e), ChunkOf(chunks, length, e), 0, r);
    }
  }

  lemma GatherPhaseStep<T>(x: seq<seq<T>>, y: seq<seq<T>>, chunks: seq<Range>, length: nat, step: nat, r: nat)
    requires World(x, length) && World(y, length) && |y| == |x| && Partitions(chunks, length) && |chunks| == |x|
    requires r < |x| && step + 1 < |x|
    requires forall q | 0 <= q < |x| :: y[q] == GatherPhaseRow(x, chunks, length, step, q)
    ensures GatheredRow(y, chunks, length, step, r) == GatherPhaseRow(x, chunks, length, step + 1, r)
  {
    var p := Previous(|x|, r);
    forall e | 0 <= e < length
      ensures GatheredRow(y, chunks, length, step, r)[e] == GatherPhaseRow(x, chunks, length, step + 1, r)[e]
    {
      var c := ChunkOf(chunks, length, e);
      ScheduleFacts(|x|, r, step, c);
      GatheredStep(Column(x, e), c, step, r);
      assert y[r][e] == Gathered(Column(x, e), c, step, r);
      assert y[p][e] == Gathered(Column(x, e), c, step, p);
    }
  }

  // Afterwards every rank holds, for each chunk c, exactly what rank c held before.
  method GatherPhase<T>(buffers: seq<array<T>>, chunks: seq<Range>, length: nat)
    returns (steps: nat)
    requires GatherReady(buffers, chunks, length)
    modifies buffers
    ensures forall r, e | 0 <= r < |buffers| && 0 <= e < length ::
      buffers[r][e] == old(Contents(buffers))[ChunkOf(chunks, length, e)][e]
    ensures steps == |buffers| - 1
  {
    ghost var x := Contents(buffers);
    var n := |buffers|;
    steps := 0;
    forall r | 0 <= r < n ensures buffers[r][..] == GatherPhaseRow(x, chunks, length, 0, r) {
      GatherPhaseEnds(x, chunks, length, r);
    }
    for step := 0 to n - 1
      invariant steps == step
      invariant forall r | 0 <= r < n :: buffers[r][..] == GatherPhaseRow(x, chunks, length, step, r)
    {
      ghost var y := Contents(buffers);
      GatherStep(buffers, chunks, length, step);
      forall r | 0 <= r < n ensures buffers[r][..] == GatherPhaseRow(x, chunks, length, step + 1, r) {
        GatherPhaseStep(x, y, chunks, length, step, r);
      }
      steps := steps + 1;
    }
    forall r, e | 0 <= r < n && 0 <= e < length ensures buffers[r][e] == x[ChunkOf(chunks, length, e)][e] {
      GatherPhaseEnds(x, chunks, length, r);
      assert buffers[r][..][e] == buffers[r][e];
    }
  }

  // ---- the collectives ---------------------------------------------------------------------------

  // The buffer every rank ends with: chunk c is x[c] + (x[c-1] + (... + x[c+1])), with no law assumed.
  ghost function AllReduced<T>(op: (T, T) -> T, x: seq<seq<T>>, length: nat): (row: seq<T>)
    requires World(x, length)
    ensures |row| == length
  {
    BalancedPartitions(length, |x|);
    seq(length, e requires 0 <= e < length =>
      RingFold(op, Column(x, e), Origin(|x|, ChunkOf(Balanced(length, |x|), length, e)), |x| - 1))
  }

  // Block r of that buffer.
  ghost function Block<T>(op: (T, T) -> T, x: seq<seq<T>>, length: nat, r: nat): (row: seq<T>)
    requires World(x, length) && r < |x|
  {
    BalancedPartitions(length, |x|);
    PartitionBound(Balanced(length, |x|), length, r);
    var chunk := Balanced(length, |x|)[r];
    AllReduced(op, x, length)[chunk.start..chunk.end]
  }

  // What reduce-scatter leaves: block r on rank r.
  ghost function Scattered<T>(op: (T, T) -> T, x: seq<seq<T>>, length: nat): (y: seq<seq<T>>)
    requires World(x, length)
    ensures |y| == |x|
  {
    seq(|x|, r requires 0 <= r < |x| => Block(op, x, length, r))
  }

  // All-reduce is all-gather after reduce-scatter, bit for bit and with no law assumed.
  lemma AllReduceIsGatherOfScatter<T>(op: (T, T) -> T, x: seq<seq<T>>, length: nat)
    requires World(x, length)
    ensures Concatenated(Scattered(op, x, length)) == AllReduced(op, x, length)
  {
    var chunks, y, row := Balanced(length, |x|), Scattered(op, x, length), AllReduced(op, x, length);
    BalancedPartitions(length, |x|);
    PartitionBounds(chunks, length);
    WholeConcatenation(row, chunks, y);
  }

  // With an associative and commutative kernel every element is the plain sum over ranks, whatever
  // chunk it fell into.
  lemma AllReducedIsSum<T(!new)>(op: (T, T) -> T, x: seq<seq<T>>, length: nat, e: nat)
    requires World(x, length) && e < length && Associative(op) && Commutative(op)
    ensures AllReduced(op, x, length)[e] == LeftFold(op, Column(x, e))
  {
    BalancedPartitions(length, |x|);
    RingFoldIsSum(op, Column(x, e), Origin(|x|, ChunkOf(Balanced(length, |x|), length, e)));
  }

  // checked_mul twice: a product that leaves usize is an error even if a later factor is zero.
  function TransferredBytes(transfers: nat, elements: nat, elementBytes: nat): Result<nat, Error> {
    if transfers * elements > USIZE_MAX || transfers * elements * elementBytes > USIZE_MAX then Err(Overflow)
    else Ok(transfers * elements * elementBytes)
  }

  function SaturatingMul(a: nat, b: nat): nat {
    if a * b > USIZE_MAX then USIZE_MAX else a * b
  }

  lemma FilledWide(base: nat, remainder: nat, n: nat)
    requires base > 0
    ensures Filled(RangesFrom(base, remainder, n), n)
  {
    if n > 0 { RangesPartition(base, remainder, n); }
  }

  lemma FilledNarrow(remainder: nat, n: nat)
    requires remainder < n
    ensures Filled(RangesFrom(0, remainder, n), remainder)
  {
    RangesPartition(0, remainder, n);
  }

  // The longer chunks come first, so the non-empty ones do.
  lemma FilledChunks(length: nat, n: nat) returns (filled: nat)
    requires n > 0
    ensures Filled(Balanced(length, n), filled)
    ensures filled == Min(n, length)
  {
    filled := if length < n then length else n;
    Quotient(length, n);
    if length < n { FilledNarrow(length, n); } else { FilledWide(length / n, length % n, n); }
  }

  method LongestRange(chunks: seq<Range>) returns (longest: nat)
    requires forall c | 0 <= c < |chunks| :: chunks[c].start <= chunks[c].end
    ensures forall c | 0 <= c < |chunks| :: chunks[c].end - chunks[c].start <= longest
  {
    longest := 0;
    for i := 0 to |chunks|
      invariant forall c | 0 <= c < i :: chunks[c].end - chunks[c].start <= longest
    {
      if longest < chunks[i].end - chunks[i].start { longest := chunks[i].end - chunks[i].start; }
    }
  }

  method Allocate<T(0)>(count: nat, length: nat) returns (buffers: seq<array<T>>)
    ensures |buffers| == count && Disjoint(buffers)
    ensures forall r | 0 <= r < count :: fresh(buffers[r]) && buffers[r].Length == length
  {
    buffers := [];
    for rank := 0 to count
      invariant |buffers| == rank && Disjoint(buffers)
      invariant forall r | 0 <= r < rank :: fresh(buffers[r]) && buffers[r].Length == length
    {
      var buffer := new T[length];
      buffers := buffers + [buffer];
    }
  }

  // Gathering each chunk from its owner picks up exactly the finished folds.
  lemma AllReducedFromPhases<T>(op: (T, T) -> T, x: seq<seq<T>>, y: seq<seq<T>>, row: seq<T>, length: nat)
    requires World(x, length) && World(y, length) && |x| == |y| && |row| == length
    requires Partitions(Balanced(length, |x|), length)
    requires forall r | 0 <= r < |x| :: y[r] == ReducePhaseRow(op, x, Balanced(length, |x|), length, |x| - 1, r)
    requires forall e | 0 <= e < length :: row[e] == y[ChunkOf(Balanced(length, |x|), length, e)][e]
    ensures row == AllReduced(op, x, length)
  {
    forall e | 0 <= e < length ensures row[e] == AllReduced(op, x, length)[e] {
      var c := ChunkOf(Balanced(length, |x|), length, e);
      OwnerFinished(op, Column(x, e), Origin(|x|, c));
      assert Owner(|x|, Origin(|x|, c)) == c;
    }
  }

  lemma EveryRowReduced<T>(op: (T, T) -> T, x: seq<seq<T>>, y: seq<seq<T>>, z: seq<seq<T>>, length: nat)
    requires World(x, length) && World(y, length) && World(z, length) && |x| == |y| == |z|
    requires Partitions(Balanced(length, |x|), length)
    requires forall r | 0 <= r < |x| :: y[r] == ReducePhaseRow(op, x, Balanced(length, |x|), length, |x| - 1, r)
    requires forall r, e | 0 <= r < |x| && 0 <= e < length :: z[r][e] == y[ChunkOf(Balanced(length, |x|), length, e)][e]
    ensures forall r | 0 <= r < |x| :: z[r] == AllReduced(op, x, length)
  {
    forall r | 0 <= r < |x| ensures z[r] == AllReduced(op, x, length) {
      AllReducedFromPhases(op, x, y, z[r], length);
    }
  }

  method Prepare<T(0)>(buffers: seq<array<T>>, length: nat)
    returns (chunks: seq<Range>, scratch: seq<array<T>>, ghost filled: nat)
    requires |buffers| > 0 && Disjoint(buffers) && forall r | 0 <= r < |buffers| :: buffers[r].Length == length
    ensures chunks == Balanced(length, |buffers|) && Ready(buffers, scratch, chunks, length)
    ensures Filled(chunks, filled) && filled == Min(|buffers|, length)
    ensures forall r | 0 <= r < |scratch| :: fresh(scratch[r])
  {
    chunks := BalancedRanges(length, |buffers|);
    PartitionBounds(chunks, length);
    var longest := LongestRange(chunks);
    scratch := Allocate<T>(|buffers|, if longest > 1 then longest else 1);
    filled := FilledChunks(length, |buffers|);
  }

  method ReduceThenGather<T>(buffers: seq<array<T>>, scratch: seq<array<T>>, chunks: seq<Range>, length: nat, ghost filled: nat,
                             kernel: (T, T) -> T)
    returns (steps: nat, launches: nat)
    requires Ready(buffers, scratch, chunks, length) && Filled(chunks, filled) && chunks == Balanced(length, |buffers|)
    modifies buffers, scratch
    ensures World(old(Contents(buffers)), length)
    ensures forall r | 0 <= r < |buffers| :: buffers[r][..] == AllReduced(kernel, old(Contents(buffers)), length)
    ensures steps == 2 * (|buffers| - 1) && launches == (|buffers| - 1) * filled
  {
    ghost var x := Contents(buffers);
    steps, launches := ReducePhase(buffers, scratch, chunks, length, filled, kernel);
    ghost var y := Contents(buffers);
    var gatherSteps := GatherPhase(buffers, chunks, length);
    steps := steps + gatherSteps;
    EveryRowReduced(kernel, x, y, Contents(buffers), length);
  }

  // Both phases over two or more ranks.
  method RingAllReduce<T(0)>(buffers: seq<array<T>>, length: nat, kernel: (T, T) -> T) returns (steps: nat, launches: nat)
    requires |buffers| > 1 && Disjoint(buffers) && forall r | 0 <= r < |buffers| :: buffers[r].Length == length
    modifies buffers
    ensures World(old(Contents(buffers)), length)
    ensures forall r | 0 <= r < |buffers| :: buffers[r][..] == AllReduced(kernel, old(Contents(buffers)), length)
    ensures steps == 2 * (|buffers| - 1) && launches == (|buffers| - 1) * Min(|buffers|, length)
  {
    var chunks, scratch, filled := Prepare(buffers, length);
    steps, launches := ReduceThenGather(buffers, scratch, chunks, length, filled, kernel);
  }

  lemma OwnElementFinished<T>(op: (T, T) -> T, x: seq<seq<T>>, chunks: seq<Range>, length: nat, r: nat, e: nat)
    requires World(x, length) && r < |x| && e < length && chunks == Balanced(length, |x|) && Partitions(chunks, length)
    requires ChunkOf(chunks, length, e) == r
    ensures ReducePhaseRow(op, x, chunks, length, |x| - 1, r)[e] == AllReduced(op, x, length)[e]
  {
    OwnerFinished(op, Column(x, e), Origin(|x|, r));
    assert Owner(|x|, Origin(|x|, r)) == r;
  }

  lemma SamePart<T>(a: seq<T>, b: seq<T>, from: nat, to: nat)
    requires from <= to <= |a| && to <= |b| && forall e | from <= e < to :: a[e] == b[e]
    ensures a[from..to] == b[from..to]
  {
  }

  // After the reducing phase rank r's own block is finished.
  lemma OwnBlockFinished<T>(op: (T, T) -> T, x: seq<seq<T>>, chunks: seq<Range>, length: nat, r: nat)
    requires World(x, length) && r < |x| && chunks == Balanced(length, |x|) && Partitions(chunks, length)
    ensures chunks[r].start <= chunks[r].end <= length
    ensures ReducePhaseRow(op, x, chunks, length, |x| - 1, r)[chunks[r].start..chunks[r].end] == Block(op, x, length, r)
  {
    ChunkIs(chunks, length, r);
    var row, whole := ReducePhaseRow(op, x, chunks, length, |x| - 1, r), AllReduced(op, x, length);
    forall e | chunks[r].start <= e < chunks[r].end ensures row[e] == whole[e] {
      OwnElementFinished(op, x, chunks, length, r, e);
    }
    SamePart(row, whole, chunks[r].start, chunks[r].end);
  }

  lemma OwnBlocksFinished<T>(op: (T, T) -> T, x: seq<seq<T>>, chunks: seq<Range>, length: nat, rows: seq<seq<T>>, blocks: seq<seq<T>>)
    requires World(x, length) && |rows| == |blocks| == |x| && chunks == Balanced(length, |x|) && Partitions(chunks, length)
    requires forall r | 0 <= r < |x| :: rows[r] == ReducePhaseRow(op, x, chunks, length, |x| - 1, r)
    requires forall r | 0 <= r < |x| ::
      chunks[r].start <= chunks[r].end <= length == |rows[r]| && blocks[r] == rows[r][chunks[r].start..chunks[r].end]
    ensures forall r | 0 <= r < |x| :: blocks[r] == Block(op, x, length, r)
  {
    forall r | 0 <= r < |x| ensures blocks[r] == Block(op, x, length, r) {
      OwnBlockFinished(op, x, chunks, length, r);
    }
  }

  // Copy each rank's own chunk out of the working buffers.
  method ExtractOwn<T>(working: seq<array<T>>, chunks: seq<Range>, output: seq<array<T>>)
    requires |working| == |chunks| == |output| && Disjoint(output)
    requires forall i, j | 0 <= i < |working| && 0 <= j < |output| :: working[i] != output[j]
    requires forall r | 0 <= r < |chunks| ::
      chunks[r].start <= chunks[r].end <= working[r].Length && output[r].Length == chunks[r].end - chunks[r].start
    modifies output
    ensures forall r | 0 <= r < |output| :: output[r][..] == working[r][..][chunks[r].start..chunks[r].end]
  {
    for rank := 0 to |working|
      invariant forall r | 0 <= r < |working| :: working[r][..] == old(working[r][..])
      invariant forall r | 0 <= r < rank :: output[r][..] == working[r][..][chunks[r].start..chunks[r].end]
    {
      var reduced := CopyFromDeviceAt(working[rank], chunks[rank].start, chunks[rank].end - chunks[rank].start);
      CopyToDeviceAt(output[rank], 0, reduced);
    }
  }

  method PrivateCopy<T(0)>(input: seq<array<T>>, length: nat) returns (working: seq<array<T>>)
    requires forall r | 0 <= r < |input| :: input[r].Length == length
    ensures |working| == |input| && Disjoint(working)
    ensures forall r | 0 <= r < |working| :: fresh(working[r]) && working[r].Length == length
    ensures Contents(working) == old(Contents(input))
  {
    working := Allocate<T>(|input|, length);
    CopyAll(input, working);
  }

  // Blocks of one size, cut out of rows of one length.
  method CutBlocks<T(0)>(working: seq<array<T>>, chunks: seq<Range>, size: nat) returns (output: seq<array<T>>)
    requires |working| == |chunks| && forall r | 0 <= r < |chunks| :: chunks[r].start + size == chunks[r].end <= working[r].Length
    ensures |output| == |working| && Disjoint(output)
    ensures forall r | 0 <= r < |output| :: fresh(output[r]) && output[r].Length == size
    ensures forall r | 0 <= r < |output| :: output[r][..] == working[r][..][chunks[r].start..chunks[r].end]
  {
    output := Allocate<T>(|working|, size);
    ExtractOwn(working, chunks, output);
  }

  lemma EqualBlocks(length: nat, n: nat, size: nat, chunks: seq<Range>)
    requires n > 0 && length % n == 0 && size == length / n && chunks == Balanced(length, n)
    ensures |chunks| == n && Partitions(chunks, length)
    ensures forall r | 0 <= r < n :: chunks[r].start + size == chunks[r].end <= length
  {
    BalancedPartitions(length, n);
    PartitionBounds(chunks, length);
  }

  // Each rank's own chunk of fully reduced working buffers, in fresh output buffers.
  method CollectBlocks<T(0)>(kernel: (T, T) -> T, ghost x: seq<seq<T>>, working: seq<array<T>>, length: nat, size: nat)
    returns (output: seq<array<T>>)
    requires World(x, length) && |working| == |x| && length % |x| == 0 && size == length / |x|
    requires forall r | 0 <= r < |x| :: working[r].Length == length
    requires Partitions(Balanced(length, |x|), length)
    requires forall r | 0 <= r < |x| :: working[r][..] == ReducePhaseRow(kernel, x, Balanced(length, |x|), length, |x| - 1, r)
    ensures |output| == |x| && Disjoint(output)
    ensures forall r | 0 <= r < |x| :: fresh(output[r]) && output[r].Length == size
    ensures forall r | 0 <= r < |x| :: output[r][..] == Block(kernel, x, length, r)
  {
    var chunks := BalancedRanges(length, |working|);
    EqualBlocks(length, |working|, size, chunks);
    ghost var rows := Contents(working);
    output := CutBlocks(working, chunks, size);
    OwnBlocksFinished(kernel, x, chunks, length, rows, Contents(output));
  }

  // Each rank's block of the reduced buffer, computed on a private copy: the inputs are not written.
  method RingReduceScatter<T(0)>(input: seq<array<T>>, length: nat, size: nat, kernel: (T, T) -> T)
    returns (output: seq<array<T>>, steps: nat, launches: nat)
    requires |input| > 0 && forall r | 0 <= r < |input| :: input[r].Length == length
    requires length % |input| == 0 && size == length / |input|
    ensures World(old(Contents(input)), length)
    ensures |output| == |input| && Disjoint(output)
    ensures forall r | 0 <= r < |output| :: fresh(output[r]) && output[r].Length == size
    ensures forall r | 0 <= r < |output| :: output[r][..] == Block(kernel, old(Contents(input)), length, r)
    ensures steps == |input| - 1 && launches == (|input| - 1) * Min(|input|, length)
  {
    ghost var x := Contents(input);
    var working, scratch, chunks, filled := PrepareBlocks(input, length, size);
    steps, launches := ReducePhase(working, scratch, chunks, length, filled, kernel);
    output := CollectBlocks(kernel, x, working, length, size);
  }

  // A private copy of the inputs, the chunks they are cut into, and room to receive one.
  method PrepareBlocks<T(0)>(input: seq<array<T>>, length: nat, size: nat)
    returns (working: seq<array<T>>, scratch: seq<array<T>>, chunks: seq<Range>, ghost filled: nat)
    requires |input| > 0 && forall r | 0 <= r < |input| :: input[r].Length == length
    requires length % |input| == 0 && size == length / |input|
    ensures Ready(working, scratch, chunks, length) && |working| == |input| && Contents(working) == old(Contents(input))
    ensures chunks == Balanced(length, |input|) && Filled(chunks, filled) && filled == Min(|input|, length)
    ensures (forall r | 0 <= r < |working| :: fresh(working[r])) && forall r | 0 <= r < |scratch| :: fresh(scratch[r])
  {
    chunks := BalancedRanges(length, |input|);
    EqualBlocks(length, |input|, size, chunks);
    working := PrivateCopy(input, length);
    scratch := Allocate<T>(|input|, size);
    filled := FilledChunks(length, |input|);
  }

  method CopyAll<T>(source: seq<array<T>>, destination: seq<array<T>>)
    requires |source| == |destination| && Disjoint(destination)
    requires forall i, j | 0 <= i < |source| && 0 <= j < |destination| :: source[i] != destination[j]
    requires forall r | 0 <= r < |source| :: source[r].Length == destination[r].Length
    modifies destination
    ensures forall r | 0 <= r < |source| :: destination[r][..] == source[r][..]
  {
    for rank := 0 to |source|
      invariant forall r | 0 <= r < |source| :: source[r][..] == old(source[r][..])
      invariant forall r | 0 <= r < rank :: destination[r][..] == source[r][..]
    {
      var values := CopyFromDeviceAt(source[rank], 0, source[rank].Length);
      CopyToDeviceAt(destination[rank], 0, values);
    }
  }

  // Rank r's share of an all-gather output.
  function Blocks(size: nat, n: nat): (chunks: seq<Range>)
    ensures |chunks| == n && forall r | 0 <= r < n :: chunks[r].end == chunks[r].start + size
  {
    seq(n, r requires 0 <= r < n => Range(r * size, r * size + size))
  }

  lemma BlocksPartition(size: nat, n: nat)
    requires n > 0
    ensures Partitions(Blocks(size, n), n * size)
  {
    forall i, j | 0 <= i < n && j == i + 1 && j < n ensures Blocks(size, n)[i].end == Blocks(size, n)[j].start {
      MulSuccessor(i, size);
    }
    MulSuccessor(n - 1, size);
  }

  // Place every rank's own contribution before the first step.
  method PlaceOwn<T>(input: seq<array<T>>, chunks: seq<Range>, output: seq<array<T>>)
    requires |input| == |chunks| == |output| && Disjoint(output)
    requires forall i, j | 0 <= i < |input| && 0 <= j < |output| :: input[i] != output[j]
    requires forall r | 0 <= r < |chunks| ::
      chunks[r].start <= chunks[r].end <= output[r].Length && input[r].Length == chunks[r].end - chunks[r].start
    modifies output
    ensures forall r | 0 <= r < |output| :: output[r][..][chunks[r].start..chunks[r].end] == input[r][..]
  {
    for rank := 0 to |input|
      invariant forall r | 0 <= r < |input| :: input[r][..] == old(input[r][..])
      invariant forall r | 0 <= r < rank :: output[r][..][chunks[r].start..chunks[r].end] == input[r][..]
    {
      var local := CopyFromDeviceAt(input[rank], 0, input[rank].Length);
      CopyToDeviceAt(output[rank], chunks[rank].start, local);
    }
  }

  lemma OwnerBlock<T>(row: seq<T>, chunks: seq<Range>, y: seq<seq<T>>, r: nat)
    requires Partitions(chunks, |row|) && |chunks| == |y| && r < |y|
    requires forall q | 0 <= q < |y| :: |y[q]| == |row|
    requires forall e | 0 <= e < |row| :: row[e] == y[ChunkOf(chunks, |row|, e)][e]
    ensures chunks[r].start <= chunks[r].end <= |row|
    ensures row[chunks[r].start..chunks[r].end] == y[r][chunks[r].start..chunks[r].end]
  {
    ChunkIs(chunks, |row|, r);
    forall e | chunks[r].start <= e < chunks[r].end ensures row[e] == y[r][e] {
      assert ChunkOf(chunks, |row|, e) == r;
    }
  }

  // If element e of row is element e of its chunk's owner, row is the owners' blocks end to end.
  lemma RowIsConcatenation<T>(row: seq<T>, chunks: seq<Range>, y: seq<seq<T>>, x: seq<seq<T>>)
    requires Partitions(chunks, |row|) && |chunks| == |y| == |x|
    requires forall r | 0 <= r < |y| :: |y[r]| == |row|
    requires forall r | 0 <= r < |y| :: chunks[r].start <= chunks[r].end <= |row| && y[r][chunks[r].start..chunks[r].end] == x[r]
    requires forall e | 0 <= e < |row| :: row[e] == y[ChunkOf(chunks, |row|, e)][e]
    ensures row == Concatenated(x)
  {
    forall r | 0 <= r < |x| ensures x[r] == row[chunks[r].start..chunks[r].end] {
      OwnerBlock(row, chunks, y, r);
    }
    WholeConcatenation(row, chunks, x);
  }

  lemma RowsAreConcatenations<T>(rows: seq<seq<T>>, chunks: seq<Range>, length: nat, y: seq<seq<T>>, x: seq<seq<T>>)
    requires Partitions(chunks, length) && |chunks| == |y| == |x| == |rows| && forall r | 0 <= r < |y| :: |y[r]| == |rows[r]| == length
    requires forall r | 0 <= r < |y| :: chunks[r].start <= chunks[r].end <= length && y[r][chunks[r].start..chunks[r].end] == x[r]
    requires forall r, e | 0 <= r < |rows| && 0 <= e < length :: rows[r][e] == y[ChunkOf(chunks, length, e)][e]
    ensures forall r | 0 <= r < |rows| :: rows[r] == Concatenated(x)
  {
    forall r | 0 <= r < |rows| ensures rows[r] == Concatenated(x) { RowIsConcatenation(rows[r], chunks, y, x); }
  }

  // Every rank's output is all inputs end to end.
  method RingAllGather<T(0)>(input: seq<array<T>>, size: nat) returns (output: seq<array<T>>, steps: nat)
    requires |input| > 0 && forall r | 0 <= r < |input| :: input[r].Length == size
    ensures |output| == |input| && Disjoint(output)
    ensures forall r | 0 <= r < |output| :: fresh(output[r]) && output[r].Length == |input| * size
    ensures forall r | 0 <= r < |output| :: output[r][..] == Concatenated(old(Contents(input)))
    ensures steps == |input| - 1
  {
    ghost var x := Contents(input);
    var length := |input| * size;
    var chunks := Blocks(size, |input|);
    output := PlaceBlocks(input, size, length, chunks);
    ghost var y := Contents(output);
    steps := GatherPhase(output, chunks, length);
    RowsAreConcatenations(Contents(output), chunks, length, y, x);
  }

  // Fresh outputs that hold every rank's own input in its own block.
  method PlaceBlocks<T(0)>(input: seq<array<T>>, size: nat, length: nat, chunks: seq<Range>) returns (output: seq<array<T>>)
    requires |input| > 0 && forall r | 0 <= r < |input| :: input[r].Length == size
    requires length == |input| * size && chunks == Blocks(size, |input|)
    ensures GatherReady(output, chunks, length) && |output| == |input|
    ensures forall r | 0 <= r < |output| :: fresh(output[r])
    ensures forall r | 0 <= r < |output| ::
      chunks[r].start <= chunks[r].end <= length && output[r][..][chunks[r].start..chunks[r].end] == old(Contents(input))[r]
  {
    BlocksPartition(size, |input|);
    PartitionBounds(chunks, length);
    output := Allocate<T>(|input|, length);
    PlaceOwn(input, chunks, output);
  }

  // A communicator has at least one context (src/in_process/owner.rs:26-28).
  datatype Collective = Collective(id: nat, worldSize: nat, elementSize: nat) {
    predicate Accepts<T>(buffer: DistributedBuffer<T>) {
      buffer.communicatorId == id && |buffer.buffers| == worldSize
    }

    // The byte counter is computed last: an overflow is reported after the buffers were reduced.
    method AllReduceSum<T(0)>(buffer: DistributedBuffer<T>, kernel: (T, T) -> T) returns (result: Result<Stats, Error>)
      requires worldSize > 0 && buffer.Valid()
      modifies buffer.buffers
      ensures !Accepts(buffer) ==> result == Err(WrongCommunicator)
      ensures Accepts(buffer) && worldSize == 1 ==> result == Ok(Stats(0, 0, 0))
      ensures Accepts(buffer) && worldSize > 1 && buffer.lengthPerRank > U32_MAX ==> result == Err(InvalidLength)
      ensures !Accepts(buffer) || worldSize == 1 || buffer.lengthPerRank > U32_MAX ==>
        forall r | 0 <= r < |buffer.buffers| :: buffer.buffers[r][..] == old(buffer.buffers[r][..])
      ensures Accepts(buffer) && worldSize > 1 && buffer.lengthPerRank <= U32_MAX ==>
        && World(old(Contents(buffer.buffers)), buffer.lengthPerRank)
        && (forall r | 0 <= r < worldSize ::
             buffer.buffers[r][..] == AllReduced(kernel, old(Contents(buffer.buffers)), buffer.lengthPerRank))
        && (match TransferredBytes(2 * (worldSize - 1), buffer.lengthPerRank, elementSize) {
              case Err(e) => result == Err(e)
              case Ok(bytes) =>
                result == Ok(Stats(2 * (worldSize - 1), (worldSize - 1) * Min(worldSize, buffer.lengthPerRank), bytes))
            })
    {
      if !Accepts(buffer) { return Err(WrongCommunicator); }
      if worldSize == 1 { return Ok(Stats(0, 0, 0)); }
      if buffer.lengthPerRank > U32_MAX { return Err(InvalidLength); }
      var steps, launches := RingAllReduce(buffer.buffers, buffer.lengthPerRank, kernel);
      match TransferredBytes(2 * (worldSize - 1), buffer.lengthPerRank, elementSize) {
        case Err(e) => return Err(e);
        case Ok(bytes) => return Ok(Stats(steps, launches, bytes));
      }
    }

    // The input must split evenly; the result is independent of the input buffers, which keep their values.
    method ReduceScatterSum<T(0)>(input: DistributedBuffer<T>, kernel: (T, T) -> T)
      returns (result: Result<(DistributedBuffer<T>, Stats), Error>)
      requires worldSize > 0 && input.Valid()
      ensures !Accepts(input) ==> result == Err(WrongCommunicator)
      ensures Accepts(input) && (input.lengthPerRank % worldSize != 0 || input.lengthPerRank > U32_MAX) ==>
        result == Err(InvalidLength)
      ensures Accepts(input) && input.lengthPerRank % worldSize == 0 && input.lengthPerRank <= U32_MAX ==>
        match TransferredBytes(worldSize - 1, input.lengthPerRank, elementSize) {
          case Err(e) => result == Err(e)
          case Ok(bytes) =>
            && result.Ok?
            && result.value.1 == Stats(worldSize - 1, (worldSize - 1) * Min(worldSize, input.lengthPerRank), bytes)
            && var output := result.value.0;
            && output.communicatorId == id && |output.buffers| == worldSize && output.Valid()
            && output.lengthPerRank == input.lengthPerRank / worldSize
            && World(old(Contents(input.buffers)), input.lengthPerRank)
            && forall r | 0 <= r < worldSize :: fresh(output.buffers[r]) &&
                 output.buffers[r][..] == Block(kernel, old(Contents(input.buffers)), input.lengthPerRank, r)
        }
    {
      if !Accepts(input) { return Err(WrongCommunicator); }
      if input.lengthPerRank % worldSize != 0 { return Err(InvalidLength); }
      var size := input.lengthPerRank / worldSize;
      if input.lengthPerRank > U32_MAX { return Err(InvalidLength); }
      var output, steps, launches := RingReduceScatter(input.buffers, input.lengthPerRank, size, kernel);
      match TransferredBytes(worldSize - 1, input.lengthPerRank, elementSize) {
        case Err(e) => return Err(e);
        case Ok(bytes) => return Ok((DistributedBuffer(id, output, size), Stats(steps, launches, bytes)));
      }
    }

    // The byte counter multiplies the world twice.
    method AllGather<T(0)>(input: DistributedBuffer<T>) returns (result: Result<(DistributedBuffer<T>, Stats), Error>)
      requires worldSize > 0 && input.Valid()
      ensures !Accepts(input) ==> result == Err(WrongCommunicator)
      ensures Accepts(input) && worldSize * input.lengthPerRank > USIZE_MAX ==> result == Err(Overflow)
      ensures Accepts(input) && worldSize * input.lengthPerRank <= USIZE_MAX ==>
        match TransferredBytes(SaturatingMul(worldSize, worldSize - 1), input.lengthPerRank, elementSize) {
          case Err(e) => result == Err(e)
          case Ok(bytes) =>
            && result.Ok?
            && result.value.1 == Stats(worldSize - 1, 0, bytes)
            && var output := result.value.0;
            && output.communicatorId == id && |output.buffers| == worldSize && output.Valid()
            && output.lengthPerRank == worldSize * input.lengthPerRank
            && forall r | 0 <= r < worldSize :: fresh(output.buffers[r]) &&
                 output.buffers[r][..] == Concatenated(old(Contents(input.buffers)))
        }
    {
      if !Accepts(input) { return Err(WrongCommunicator); }
      if worldSize * input.lengthPerRank > USIZE_MAX { return Err(Overflow); }
      var output, steps := RingAllGather(input.buffers, input.lengthPerRank);
      match TransferredBytes(SaturatingMul(worldSize, worldSize - 1), input.lengthPerRank, elementSize) {
        case Err(e) => return Err(e);
        case Ok(bytes) => return Ok((DistributedBuffer(id, output, worldSize * input.lengthPerRank), Stats(steps, 0, bytes)));
      }
    }
  }
}
