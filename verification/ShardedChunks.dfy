// src/tensor_device/bounded_sharded.rs: all-gather and reduce-scatter in chunks that fit a byte budget.
//
// All ranks pass the same number of elements and the same budget, and run the same chunks in lockstep.
module ShardedChunks {
  import opened Wrappers
  import opened Numbers
  import opened Layout
  import opened Transpose
  import opened ChunkedOutput
  import opened FoldOrder
  import opened ReduceScatter
  import opened RingMath

  datatype PlanError = EmptyWorld | ChunkTooSmall

  // Elements per chunk: a rank's share of the budget; an empty tensor needs room for one element only.
  function PlanChunk(world: nat, elements: nat, elementBytes: nat, budget: nat): Result<nat, PlanError>
    requires elementBytes > 0
  {
    if world == 0 then Err(EmptyWorld)
    else
      var share := if elements == 0 then elementBytes else budget / world;
      if share < elementBytes then Err(ChunkTooSmall) else Ok(share / elementBytes)
  }

  // A plan has room for an element, and a chunk of every rank fits the budget.
  lemma PlanFits(world: nat, elements: nat, elementBytes: nat, budget: nat, length: nat)
    requires elementBytes > 0 && elements > 0 && PlanChunk(world, elements, elementBytes, budget).Ok?
    requires length <= PlanChunk(world, elements, elementBytes, budget).value
    ensures PlanChunk(world, elements, elementBytes, budget).value > 0
    ensures world * (length * elementBytes) <= budget
  {
    var share := budget / world;
    Quotient(share, elementBytes);
    Quotient(budget, world);
    Product(length, share / elementBytes, elementBytes);
    Product(length * elementBytes, share, world);
  }

  // The largest chunk of which every rank's share fits the budget; one element if there is nothing to send.
  lemma PlanMeans(world: nat, elements: nat, elementBytes: nat, budget: nat, length: nat)
    requires elementBytes > 0
    ensures match PlanChunk(world, elements, elementBytes, budget)
      case Err(error) => if world == 0 then error == EmptyWorld else error == ChunkTooSmall && elements > 0 && budget < world * elementBytes
      case Ok(chunk) => world > 0 && if elements == 0 then chunk == 1 else (length <= chunk <==> world * (length * elementBytes) <= budget)
  {
    if world > 0 && elements > 0 {
      var share := budget / world;
      QuotientIsLargest(length, share, elementBytes);
      QuotientIsLargest(length * elementBytes, budget, world);
      QuotientIsLargest(elementBytes, budget, world);
    }
  }

  lemma Product(a: nat, b: nat, c: nat)
    requires a <= b
    ensures a * c <= b * c
  {
  }

  ghost predicate SameLength<T>(rows: seq<seq<T>>, elements: nat) {
    forall r | 0 <= r < |rows| :: |rows[r]| == elements
  }

  lemma UniformLengths<T>(rows: seq<seq<T>>, elements: nat, r: nat)
    requires SameLength(rows, elements) && r <= |rows|
    ensures Lengths(rows) == UniformRow(|rows|, elements) && Prefix(Lengths(rows), r) == r * elements
    ensures Sum(Lengths(rows)) == |rows| * elements
  {
    assert Lengths(rows) == UniformRow(|rows|, elements);
    UniformPrefix(UniformRow(|rows|, elements), elements, r);
    UniformSum(UniformRow(|rows|, elements), elements);
  }

  // Every rank's part of the chunk at `offset`.
  function Slices<T>(rows: seq<seq<T>>, offset: nat, length: nat): (slices: seq<seq<T>>)
    requires forall r | 0 <= r < |rows| :: offset + length <= |rows[r]|
    ensures |slices| == |rows| && forall r | 0 <= r < |rows| :: |slices[r]| == length
  {
    seq(|rows|, r requires 0 <= r < |rows| => rows[r][offset..offset + length])
  }

  // Put one gathered chunk, all ranks' parts end to end, at the places of its owners.
  method PlaceChunk<T>(ghost rows: seq<seq<T>>, world: nat, elements: nat, offset: nat, length: nat, gathered: seq<T>, output: seq<Option<T>>)
    returns (next: seq<Option<T>>)
    requires world == |rows| && SameLength(rows, elements) && offset + length <= elements
    requires gathered == Concatenated(Slices(rows, offset, length))
    requires output == Concatenated(Filling(rows, offset, length, 0))
    ensures next == Concatenated(Filling(rows, offset + length, length, 0))
  {
    next := output;
    for owner := 0 to world
      invariant next == Concatenated(Filling(rows, offset, length, owner))
    {
      var piece := OwnerPart(rows, offset, length, owner, gathered);
      UniformLengths(rows, elements, owner);
      assert piece == Chunk(rows[owner], offset, length);
      next := WritePiece(rows, offset, length, owner, piece, owner * elements, next);
    }
    NextRound(rows, offset, length);
  }

  method OwnerPart<T>(ghost rows: seq<seq<T>>, offset: nat, length: nat, owner: nat, gathered: seq<T>) returns (piece: seq<T>)
    requires owner < |rows| && forall r | 0 <= r < |rows| :: offset + length <= |rows[r]|
    requires gathered == Concatenated(Slices(rows, offset, length))
    ensures piece == rows[owner][offset..offset + length]
  {
    ghost var slices := Slices(rows, offset, length);
    UniformLengths(slices, length, owner);
    PieceOfConcatenated(slices, owner);
    PieceBounds(Lengths(slices), owner);
    var start := owner * length;
    piece := gathered[start..start + length];
  }

  // The chunk size only matters for the cells not yet written, so it may change between chunks.
  lemma StepIsFree<T>(rows: seq<seq<T>>, offset: nat, a: nat, b: nat)
    ensures Filling(rows, offset, a, 0) == Filling(rows, offset, b, 0)
  {
  }

  // Chunk by chunk, the ranks' slices are gathered and placed; the result is the unchunked all-gather,
  // each cell written once, and the progress ends at all elements.
  method NativeGatherChunked<T>(rows: seq<seq<T>>, elements: nat, elementBytes: nat, budget: nat)
    returns (result: Result<seq<T>, PlanError>, completed: nat, chunks: nat)
    requires elementBytes > 0 && SameLength(rows, elements)
    ensures PlanChunk(|rows|, elements, elementBytes, budget).Err? ==> result == Err(PlanChunk(|rows|, elements, elementBytes, budget).error)
    ensures PlanChunk(|rows|, elements, elementBytes, budget).Ok? ==>
      result == Ok(Concatenated(rows)) && completed == elements &&
      CoversExactly(chunks, PlanChunk(|rows|, elements, elementBytes, budget).value, elements)
  {
    completed, chunks := 0, 0;
    var plan := PlanChunk(|rows|, elements, elementBytes, budget);
    if plan.Err? { return Err(plan.error), 0, 0; }
    UniformLengths(rows, elements, 0);
    var output := StartOutput(rows, |rows| * elements, plan.value);
    PlanPositive(|rows|, elements, elementBytes, budget);
    output, completed, chunks := GatherChunks(rows, elements, plan.value, output);
    FilledIsComplete(rows, elements, plan.value);
    var values := TakeValues(output, Concatenated(rows));
    result := Ok(values);
  }

  lemma PlanPositive(world: nat, elements: nat, elementBytes: nat, budget: nat)
    requires elementBytes > 0 && PlanChunk(world, elements, elementBytes, budget).Ok?
    ensures PlanChunk(world, elements, elementBytes, budget).value > 0
  {
    Quotient(if elements == 0 then elementBytes else budget / world, elementBytes);
  }

  // As many chunks as needed and no more.
  predicate CoversExactly(chunks: nat, size: nat, elements: nat) {
    elements <= chunks * size && (chunks > 0 ==> (chunks - 1) * size < elements)
  }

  method GatherChunks<T>(rows: seq<seq<T>>, elements: nat, chunkElements: nat, start: seq<Option<T>>)
    returns (output: seq<Option<T>>, completed: nat, chunks: nat)
    requires SameLength(rows, elements) && chunkElements > 0 && start == Concatenated(Filling(rows, 0, chunkElements, 0))
    ensures output == Concatenated(Filling(rows, elements, chunkElements, 0)) && completed == elements && CoversExactly(chunks, chunkElements, elements)
  {
    output, completed, chunks := start, 0, 0;
    while completed < elements
      invariant completed == if chunks * chunkElements < elements then chunks * chunkElements else elements
      invariant chunks > 0 ==> (chunks - 1) * chunkElements < elements
      invariant output == Concatenated(Filling(rows, completed, chunkElements, 0))
      decreases elements - completed
    {
      var length := if chunkElements < elements - completed then chunkElements else elements - completed;
      StepIsFree(rows, completed, chunkElements, length);
      var gathered := Concatenated(Slices(rows, completed, length));
      output := PlaceChunk(rows, |rows|, elements, completed, length, gathered, output);
      StepIsFree(rows, completed + length, length, chunkElements);
      MulSuccessor(chunks, chunkElements);
      completed := completed + length;
      chunks := chunks + 1;
    }
  }

  // ---- reduce-scatter ----------------------------------------------------------------------------

  // What decides the order of combination: the rank's tuning and the size of an element.
  datatype Setting = Setting(tuning: Tuning, elementBytes: nat)

  function PlannedOrder(s: Setting, world: nat, length: nat, me: nat, e: nat): (o: Order)
    requires ValidTuning(s.tuning, world) && me < world && e < length
    ensures Arrangement(Contributors(o), world) && Within(o, world)
  {
    OrderFor(s.tuning, world, s.elementBytes, length, me, e)
  }

  // Where this rank's shard is in every row.
  ghost predicate HasShard<T>(rows: seq<seq<T>>, from: nat, shard: nat) {
    forall r | 0 <= r < |rows| :: from + shard <= |rows[r]|
  }

  // Rank `me`'s shard of a one-shot reduce-scatter of shards of this length.
  function ShardElement<T>(op: (T, T) -> T, s: Setting, rows: seq<seq<T>>, from: nat, length: nat, me: nat, e: nat): T
    requires ValidTuning(s.tuning, |rows|) && me < |rows| && HasShard(rows, from, length) && e < length
  {
    Evaluate(op, PlannedOrder(s, |rows|, length, me, e), Column(rows, from + e))
  }

  function ShardOf<T>(op: (T, T) -> T, s: Setting, rows: seq<seq<T>>, from: nat, length: nat, me: nat): (shard: seq<T>)
    requires ValidTuning(s.tuning, |rows|) && me < |rows| && HasShard(rows, from, length)
    ensures |shard| == length
  {
    seq(length, e requires 0 <= e < length => ShardElement(op, s, rows, from, length, me, e))
  }

  // What a rank sends for one chunk: the same part of every owner's shard.
  function ChunkOfShards<T>(row: seq<T>, world: nat, shard: nat, offset: nat, length: nat): (chunks: seq<seq<T>>)
    requires |row| == Sum(UniformRow(world, shard)) && offset + length <= shard
    ensures |chunks| == world && forall o | 0 <= o < world :: |chunks[o]| == length
  {
    seq(world, o requires 0 <= o < world => Piece(row, UniformRow(world, shard), o)[offset..offset + length])
  }

  function ChunkPacket<T>(row: seq<T>, world: nat, shard: nat, offset: nat, length: nat): (packet: seq<T>)
    requires |row| == Sum(UniformRow(world, shard)) && offset + length <= shard
    ensures |packet| == world * length
  {
    UniformLengths(ChunkOfShards(row, world, shard, offset, length), length, 0);
    ConcatenatedLength(ChunkOfShards(row, world, shard, offset, length));
    Concatenated(ChunkOfShards(row, world, shard, offset, length))
  }

  lemma ShardStart(world: nat, length: nat, me: nat)
    requires me < world
    ensures me * length + length <= world * length
  {
    Product(me + 1, world, length);
  }

  lemma OwnedPiece<T>(row: seq<T>, world: nat, shard: nat, me: nat, from: nat)
    requires |row| == Sum(UniformRow(world, shard)) && me < world && from == me * shard
    ensures from + shard <= |row| && Piece(row, UniformRow(world, shard), me) == row[from..from + shard]
  {
    PieceBounds(UniformRow(world, shard), me);
    UniformPrefix(UniformRow(world, shard), shard, me);
  }

  lemma PacketPiece<T>(row: seq<T>, world: nat, shard: nat, offset: nat, length: nat, me: nat, at: nat)
    requires |row| == Sum(UniformRow(world, shard)) && offset + length <= shard && me < world && at == me * length
    ensures at + length <= world * length
    ensures ChunkPacket(row, world, shard, offset, length)[at..at + length] ==
      Piece(row, UniformRow(world, shard), me)[offset..offset + length]
  {
    var chunks := ChunkOfShards(row, world, shard, offset, length);
    UniformLengths(chunks, length, me);
    PieceOfConcatenated(chunks, me);
    ShardStart(world, length, me);
  }

  lemma PacketElement<T>(row: seq<T>, world: nat, shard: nat, offset: nat, length: nat, me: nat, e: nat, at: nat, from: nat)
    requires |row| == Sum(UniformRow(world, shard)) && offset + length <= shard && me < world && e < length
    requires at == me * length && from == me * shard
    ensures at + length <= world * length && from + shard <= |row|
    ensures ChunkPacket(row, world, shard, offset, length)[at + e] == row[from + (offset + e)]
  {
    OwnedPiece(row, world, shard, me, from);
    PacketPiece(row, world, shard, offset, length, me, at);
    SameElement(ChunkPacket(row, world, shard, offset, length), at, row, from, shard, offset, length, e);
  }

  lemma SameElement<T>(packet: seq<T>, at: nat, row: seq<T>, from: nat, shard: nat, offset: nat, length: nat, e: nat)
    requires at + length <= |packet| && from + shard <= |row| && offset + length <= shard && e < length
    requires packet[at..at + length] == row[from..from + shard][offset..offset + length]
    ensures packet[at + e] == row[from + (offset + e)]
  {
    assert packet[at + e] == packet[at..at + length][e];
    assert row[from..from + shard][offset + e] == row[from + (offset + e)];
  }

  ghost predicate Rectangular<T>(rows: seq<seq<T>>, shard: nat) {
    forall r | 0 <= r < |rows| :: |rows[r]| == Sum(UniformRow(|rows|, shard))
  }

  function Packets<T>(rows: seq<seq<T>>, shard: nat, offset: nat, length: nat): (packets: seq<seq<T>>)
    requires Rectangular(rows, shard) && offset + length <= shard
    ensures |packets| == |rows| && forall r | 0 <= r < |packets| :: |packets[r]| == |rows| * length
  {
    seq(|rows|, r requires 0 <= r < |rows| => ChunkPacket(rows[r], |rows|, shard, offset, length))
  }

  lemma Rooms<T>(rows: seq<seq<T>>, shard: nat, packets: seq<seq<T>>, offset: nat, length: nat, me: nat, at: nat, from: nat)
    requires Rectangular(rows, shard) && offset + length <= shard && me < |rows| && at == me * length && from == me * shard
    requires packets == Packets(rows, shard, offset, length)
    ensures |packets| == |rows| && HasShard(rows, from, shard) && HasShard(packets, at, length)
  {
    ShardStart(|rows|, length, me);
    ShardStart(|rows|, shard, me);
    UniformSum(UniformRow(|rows|, shard), shard);
  }

  lemma ColumnsMatch<T>(rows: seq<seq<T>>, shard: nat, packets: seq<seq<T>>, offset: nat, length: nat, me: nat, e: nat, at: nat, from: nat)
    requires Rectangular(rows, shard) && offset + length <= shard && me < |rows| && e < length && at == me * length && from == me * shard
    requires packets == Packets(rows, shard, offset, length)
    ensures HasShard(rows, from, shard) && HasShard(packets, at, length)
    ensures Column(packets, at + e) == Column(rows, from + (offset + e))
  {
    Rooms(rows, shard, packets, offset, length, me, at, from);
    forall r | 0 <= r < |rows| ensures packets[r][at + e] == rows[r][from + (offset + e)] {
      PacketElement(rows[r], |rows|, shard, offset, length, me, e, at, from);
    }
    SameColumns(packets, rows, at + e, from + (offset + e));
  }

  lemma SameColumns<T>(a: seq<seq<T>>, b: seq<seq<T>>, at: nat, from: nat)
    requires |a| == |b| && forall r | 0 <= r < |a| :: at < |a[r]| && from < |b[r]| && a[r][at] == b[r][from]
    ensures Column(a, at) == Column(b, from)
  {
  }

  // Where the chunk starts that element e of the shard travels in.
  function ChunkStart(chunk: nat, e: nat): (start: nat)
    requires chunk > 0
    ensures start <= e < start + chunk
  {
    if e < chunk then 0 else chunk + ChunkStart(chunk, e - chunk)
  }

  function ChunkLength(shard: nat, chunk: nat, start: nat): (length: nat)
    requires start < shard
    ensures length <= chunk && start + length <= shard
  {
    if chunk < shard - start then chunk else shard - start
  }

  // The length of element e's chunk and the element's place in it.
  function LengthAt(shard: nat, chunk: nat, e: nat): (length: nat)
    requires chunk > 0 && e < shard
  {
    ChunkLength(shard, chunk, ChunkStart(chunk, e))
  }

  function OffsetAt(shard: nat, chunk: nat, e: nat): (offset: nat)
    requires chunk > 0 && e < shard
    ensures offset < LengthAt(shard, chunk, e)
  {
    e - ChunkStart(chunk, e)
  }

  // The order in which element e is combined when the shard is reduced chunk by chunk.
  function ChunkedOrder(s: Setting, world: nat, shard: nat, chunk: nat, me: nat, e: nat): (o: Order)
    requires ValidTuning(s.tuning, world) && me < world && e < shard && chunk > 0
    ensures Arrangement(Contributors(o), world) && Within(o, world)
  {
    PlannedOrder(s, world, LengthAt(shard, chunk, e), me, OffsetAt(shard, chunk, e))
  }

  function ChunkedElement<T>(op: (T, T) -> T, s: Setting, rows: seq<seq<T>>, from: nat, shard: nat, chunk: nat, me: nat, e: nat): T
    requires ValidTuning(s.tuning, |rows|) && me < |rows| && chunk > 0 && HasShard(rows, from, shard) && e < shard
  {
    Evaluate(op, ChunkedOrder(s, |rows|, shard, chunk, me, e), Column(rows, from + e))
  }

  function ChunkedShard<T>(op: (T, T) -> T, s: Setting, rows: seq<seq<T>>, from: nat, shard: nat, chunk: nat, me: nat): (out: seq<T>)
    requires ValidTuning(s.tuning, |rows|) && me < |rows| && chunk > 0 && HasShard(rows, from, shard)
    ensures |out| == shard
  {
    seq(shard, e requires 0 <= e < shard => ChunkedElement(op, s, rows, from, shard, chunk, me, e))
  }

  lemma {:induction false} ChunkStartIs(chunk: nat, k: nat, e: nat)
    requires chunk > 0 && k * chunk <= e < k * chunk + chunk
    ensures ChunkStart(chunk, e) == k * chunk
  {
    if k > 0 {
      MulSuccessor(k - 1, chunk);
      ChunkStartIs(chunk, k - 1, e - chunk);
    }
  }

  // Elements start, start + 1, ... travel in one chunk.
  ghost predicate OneChunk(shard: nat, chunk: nat, start: nat)
    requires chunk > 0
  {
    start < shard && forall e | start <= e < start + chunk :: ChunkStart(chunk, e) == start
  }

  lemma MultiplesAreChunks(shard: nat, chunk: nat, k: nat)
    requires chunk > 0 && k * chunk < shard
    ensures OneChunk(shard, chunk, k * chunk)
  {
    forall e | k * chunk <= e < k * chunk + chunk ensures ChunkStart(chunk, e) == k * chunk { ChunkStartIs(chunk, k, e); }
  }

  lemma ChunkElement<T>(op: (T, T) -> T, s: Setting, rows: seq<seq<T>>, from: nat, shard: nat, chunk: nat, me: nat, j: nat,
                        packets: seq<seq<T>>, at: nat)
    requires ValidTuning(s.tuning, |rows|) && me < |rows| == |packets| && chunk > 0 && j < shard && HasShard(rows, from, shard)
    requires HasShard(packets, at, LengthAt(shard, chunk, j)) && Column(packets, at + OffsetAt(shard, chunk, j)) == Column(rows, from + j)
    ensures ShardElement(op, s, packets, at, LengthAt(shard, chunk, j), me, OffsetAt(shard, chunk, j)) ==
      ChunkedElement(op, s, rows, from, shard, chunk, me, j)
  {
  }

  lemma PlaceInChunk(shard: nat, chunk: nat, start: nat, j: nat)
    requires chunk > 0 && OneChunk(shard, chunk, start) && start <= j < start + ChunkLength(shard, chunk, start)
    ensures LengthAt(shard, chunk, j) == ChunkLength(shard, chunk, start) && OffsetAt(shard, chunk, j) == j - start
  {
    assert ChunkStart(chunk, j) == start;
  }

  lemma ChunkAgreesAt<T>(op: (T, T) -> T, s: Setting, rows: seq<seq<T>>, from: nat, shard: nat, chunk: nat, me: nat,
                         packets: seq<seq<T>>, at: nat, length: nat, j: nat, i: nat, left: seq<T>, right: seq<T>)
    requires ValidTuning(s.tuning, |rows|) && me < |rows| == |packets| && chunk > 0 && j < shard
    requires length == LengthAt(shard, chunk, j) && i == OffsetAt(shard, chunk, j)
    requires HasShard(packets, at, length) && left == ShardOf(op, s, packets, at, length, me)
    requires HasShard(rows, from, shard) && right == ChunkedShard(op, s, rows, from, shard, chunk, me)
    requires Column(packets, at + i) == Column(rows, from + j)
    ensures left[i] == right[j]
  {
    ChunkElement(op, s, rows, from, shard, chunk, me, j, packets, at);
  }

  lemma ChunkReducesAt<T>(op: (T, T) -> T, s: Setting, rows: seq<seq<T>>, from: nat, shard: nat, chunk: nat, start: nat, me: nat,
                          packets: seq<seq<T>>, at: nat, length: nat, j: nat, i: nat, left: seq<T>, right: seq<T>)
    requires Rectangular(rows, shard) && me < |rows| && ValidTuning(s.tuning, |rows|) && chunk > 0 && OneChunk(shard, chunk, start)
    requires length == ChunkLength(shard, chunk, start) && packets == Packets(rows, shard, start, length)
    requires from == me * shard && at == me * length && i < length && j == start + i
    requires HasShard(packets, at, length) && left == ShardOf(op, s, packets, at, length, me)
    requires HasShard(rows, from, shard) && right == ChunkedShard(op, s, rows, from, shard, chunk, me)
    ensures left[i] == right[j]
  {
    PlaceInChunk(shard, chunk, start, j);
    ColumnsMatch(rows, shard, packets, start, length, me, i, at, from);
    ChunkAgreesAt(op, s, rows, from, shard, chunk, me, packets, at, length, j, i, left, right);
  }

  // A chunk's one-shot reduce-scatter is the matching part of the shard reduced in chunks.
  lemma ChunkReduces<T>(op: (T, T) -> T, s: Setting, rows: seq<seq<T>>, from: nat, shard: nat, chunk: nat, start: nat, me: nat,
                        packets: seq<seq<T>>, at: nat, length: nat)
    requires Rectangular(rows, shard) && me < |rows| && ValidTuning(s.tuning, |rows|) && chunk > 0 && OneChunk(shard, chunk, start)
    requires length == ChunkLength(shard, chunk, start) && packets == Packets(rows, shard, start, length)
    requires from == me * shard && at == me * length
    ensures HasShard(packets, at, length) && HasShard(rows, from, shard)
    ensures ShardOf(op, s, packets, at, length, me) == ChunkedShard(op, s, rows, from, shard, chunk, me)[start..start + length]
  {
    Rooms(rows, shard, packets, start, length, me, at, from);
    var left, right := ShardOf(op, s, packets, at, length, me), ChunkedShard(op, s, rows, from, shard, chunk, me);
    forall i | 0 <= i < length ensures left[i] == right[start + i] {
      ChunkReducesAt(op, s, rows, from, shard, chunk, start, me, packets, at, length, start + i, i, left, right);
    }
    SliceIs(right, left, start);
  }

  method ReduceChunk<T>(op: (T, T) -> T, s: Setting, rows: seq<seq<T>>, ghost from: nat, shard: nat, chunk: nat, start: nat, length: nat, me: nat,
                        ghost whole: seq<T>)
    returns (reduced: seq<T>)
    requires Rectangular(rows, shard) && me < |rows| && ValidTuning(s.tuning, |rows|) && chunk > 0 && OneChunk(shard, chunk, start)
    requires length == ChunkLength(shard, chunk, start)
    requires from == me * shard && HasShard(rows, from, shard) && whole == ChunkedShard(op, s, rows, from, shard, chunk, me)
    ensures start + length <= |whole| && reduced == whole[start..start + length]
  {
    var packets, at := Packets(rows, shard, start, length), me * length;
    ChunkReduces(op, s, rows, from, shard, chunk, start, me, packets, at, length);
    reduced := ShardOf(op, s, packets, at, length, me);
  }

  // Chunk by chunk, every element is combined in the order that its own chunk is given.
  method NativeScatterChunked<T>(op: (T, T) -> T, s: Setting, rows: seq<seq<T>>, shard: nat, budget: nat, me: nat)
    returns (result: Result<seq<T>, PlanError>, completed: nat, chunks: nat)
    requires s.elementBytes > 0 && me < |rows| && Rectangular(rows, shard) && ValidTuning(s.tuning, |rows|)
    ensures HasShard(rows, me * shard, shard)
    ensures PlanChunk(|rows|, shard, s.elementBytes, budget).Err? ==> result == Err(PlanChunk(|rows|, shard, s.elementBytes, budget).error)
    ensures var plan := PlanChunk(|rows|, shard, s.elementBytes, budget);
      plan.Ok? ==>
        plan.value > 0 && result == Ok(ChunkedShard(op, s, rows, me * shard, shard, plan.value, me)) &&
        completed == shard && CoversExactly(chunks, plan.value, shard)
  {
    completed, chunks := 0, 0;
    Rooms(rows, shard, Packets(rows, shard, 0, 0), 0, 0, me, 0, me * shard);
    var plan := PlanChunk(|rows|, shard, s.elementBytes, budget);
    if plan.Err? { return Err(plan.error), 0, 0; }
    PlanPositive(|rows|, shard, s.elementBytes, budget);
    var output;
    output, completed, chunks := ScatterChunks(op, s, rows, me * shard, shard, plan.value, me);
    result := Ok(output);
  }

  // All chunks so far are whole, and the next one, if any, starts here.
  ghost predicate Progress(shard: nat, chunk: nat, completed: nat, chunks: nat)
    requires chunk > 0
  {
    completed <= shard && completed == Min(chunks * chunk, shard) && (chunks > 0 ==> (chunks - 1) * chunk < shard)
  }

  lemma NextChunk(shard: nat, chunk: nat, completed: nat, chunks: nat)
    requires chunk > 0 && Progress(shard, chunk, completed, chunks) && completed < shard
    ensures OneChunk(shard, chunk, completed)
    ensures Progress(shard, chunk, completed + ChunkLength(shard, chunk, completed), chunks + 1)
  {
    MultiplesAreChunks(shard, chunk, chunks);
    MulSuccessor(chunks, chunk);
  }

  method ScatterChunks<T>(op: (T, T) -> T, s: Setting, rows: seq<seq<T>>, ghost from: nat, shard: nat, chunk: nat, me: nat)
    returns (output: seq<T>, completed: nat, chunks: nat)
    requires chunk > 0 && me < |rows| && Rectangular(rows, shard) && ValidTuning(s.tuning, |rows|)
    requires from == me * shard && HasShard(rows, from, shard)
    ensures output == ChunkedShard(op, s, rows, from, shard, chunk, me)
    ensures completed == shard && CoversExactly(chunks, chunk, shard)
  {
    ghost var whole := ChunkedShard(op, s, rows, from, shard, chunk, me);
    output, completed, chunks := [], 0, 0;
    while completed < shard
      invariant Progress(shard, chunk, completed, chunks) && output == whole[..completed]
      decreases shard - completed
    {
      NextChunk(shard, chunk, completed, chunks);
      var length := ChunkLength(shard, chunk, completed);
      var reduced := ReduceChunk(op, s, rows, from, shard, chunk, completed, length, me, whole);
      NextPart(whole, completed, length);
      output := output + reduced;
      completed := completed + length;
      chunks := chunks + 1;
    }
    assert whole[..shard] == whole;
  }

  lemma NextPart<T>(whole: seq<T>, start: nat, length: nat)
    requires start + length <= |whole|
    ensures whole[..start] + whole[start..start + length] == whole[..start + length]
  {
  }

  // ---- chunked and unchunked ---------------------------------------------------------------------

  // With an associative and commutative kernel every element is the sum over the ranks either way.
  lemma ChunkedShardIsWhole<T(!new)>(op: (T, T) -> T, s: Setting, rows: seq<seq<T>>, from: nat, shard: nat, chunk: nat, me: nat)
    requires Associative(op) && Commutative(op)
    requires me < |rows| && ValidTuning(s.tuning, |rows|) && chunk > 0 && HasShard(rows, from, shard)
    ensures ChunkedShard(op, s, rows, from, shard, chunk, me) == ShardOf(op, s, rows, from, shard, me)
    ensures forall e | 0 <= e < shard :: ShardOf(op, s, rows, from, shard, me)[e] == LeftFold(op, Column(rows, from + e))
  {
    forall e | 0 <= e < shard
      ensures ChunkedElement(op, s, rows, from, shard, chunk, me, e) == ShardElement(op, s, rows, from, shard, me, e) ==
        LeftFold(op, Column(rows, from + e))
    {
      AnyOrderSums(op, ChunkedOrder(s, |rows|, shard, chunk, me, e), Column(rows, from + e));
      AnyOrderSums(op, PlannedOrder(s, |rows|, shard, me, e), Column(rows, from + e));
    }
  }

  function ChunkedBlocks(s: Setting, world: nat, shard: nat, chunk: nat, me: nat, e: nat): (blocks: Blocks)
    requires ValidTuning(s.tuning, world) && me < world && e < shard && chunk > 0
    ensures Full(blocks)
  {
    BlocksFor(s.tuning, world, s.elementBytes, LengthAt(shard, chunk, e), me, OffsetAt(shard, chunk, e))
  }

  ghost predicate SameBlocks(s: Setting, world: nat, shard: nat, chunk: nat, me: nat, e: nat)
    requires ValidTuning(s.tuning, world) && me < world && chunk > 0 && e < shard
  {
    Normal(ChunkedBlocks(s, world, shard, chunk, me, e)) == Normal(BlocksFor(s.tuning, world, s.elementBytes, shard, me, e))
  }

  // The tuning lists the same ranks in the same order for the whole shard and for each chunk.
  ghost predicate SamePlan(s: Setting, world: nat, shard: nat, chunk: nat, me: nat)
    requires ValidTuning(s.tuning, world) && me < world && chunk > 0
  {
    forall e | 0 <= e < shard :: SameBlocks(s, world, shard, chunk, me, e)
  }

  lemma SameBlocksSameOrder(s: Setting, world: nat, shard: nat, chunk: nat, me: nat, e: nat)
    requires ValidTuning(s.tuning, world) && me < world && chunk > 0 && e < shard
    ensures ChunkedOrder(s, world, shard, chunk, me, e) == PlannedOrder(s, world, shard, me, e) <==> SameBlocks(s, world, shard, chunk, me, e)
  {
    SameOrderExactlyWhen(ChunkedBlocks(s, world, shard, chunk, me, e), BlocksFor(s.tuning, world, s.elementBytes, shard, me, e));
  }

  // Without any law of the kernel the same plan still gives the same shard.
  lemma SamePlanSameShard<T>(op: (T, T) -> T, s: Setting, rows: seq<seq<T>>, from: nat, shard: nat, chunk: nat, me: nat)
    requires me < |rows| && ValidTuning(s.tuning, |rows|) && chunk > 0 && HasShard(rows, from, shard)
    requires SamePlan(s, |rows|, shard, chunk, me)
    ensures ChunkedShard(op, s, rows, from, shard, chunk, me) == ShardOf(op, s, rows, from, shard, me)
  {
    forall e | 0 <= e < shard
      ensures ChunkedElement(op, s, rows, from, shard, chunk, me, e) == ShardElement(op, s, rows, from, shard, me, e)
    {
      SameBlocksSameOrder(s, |rows|, shard, chunk, me, e);
      assert SameBlocks(s, |rows|, shard, chunk, me, e);
    }
  }

  // A kernel that remembers how it was used: every rank contributes its own number.
  function Remember(): (Order, Order) -> Order { (a, b) => Combine(a, b) }

  function Numbered(world: nat, length: nat): (rows: seq<seq<Order>>)
    ensures |rows| == world && forall r | 0 <= r < world :: |rows[r]| == length && forall e | 0 <= e < length :: rows[r][e] == Own(r)
  {
    seq(world, r requires 0 <= r < world => seq(length, _ => Own(r)))
  }

  lemma {:induction false} Remembers(o: Order, column: seq<Order>)
    requires Within(o, |column|) && forall r | 0 <= r < |column| :: column[r] == Own(r)
    ensures Evaluate(Remember(), o, column) == o
  {
    match o
    case Own(_) =>
    case Combine(left, right) => Remembers(left, column); Remembers(right, column);
  }

  lemma RemembersElements(s: Setting, rows: seq<seq<Order>>, shard: nat, chunk: nat, me: nat, e: nat)
    requires me < |rows| && ValidTuning(s.tuning, |rows|) && chunk > 0 && e < shard && rows == Numbered(|rows|, shard)
    ensures ChunkedElement(Remember(), s, rows, 0, shard, chunk, me, e) == ChunkedOrder(s, |rows|, shard, chunk, me, e)
    ensures ShardElement(Remember(), s, rows, 0, shard, me, e) == PlannedOrder(s, |rows|, shard, me, e)
  {
    Remembers(ChunkedOrder(s, |rows|, shard, chunk, me, e), Column(rows, 0 + e));
    Remembers(PlannedOrder(s, |rows|, shard, me, e), Column(rows, 0 + e));
  }

  // Chunked and unchunked agree for every kernel and all rows if and only if the plans are the same:
  // where they differ the remembering kernel tells them apart.
  lemma ChunkingIsExactExactlyWhen(s: Setting, world: nat, shard: nat, chunk: nat, me: nat)
    requires me < world && ValidTuning(s.tuning, world) && chunk > 0
    ensures var rows := Numbered(world, shard);
      ChunkedShard(Remember(), s, rows, 0, shard, chunk, me) == ShardOf(Remember(), s, rows, 0, shard, me) <==>
      SamePlan(s, world, shard, chunk, me)
  {
    var rows := Numbered(world, shard);
    var left, right := ChunkedShard(Remember(), s, rows, 0, shard, chunk, me), ShardOf(Remember(), s, rows, 0, shard, me);
    forall e | 0 <= e < shard ensures left[e] == right[e] <==> SameBlocks(s, world, shard, chunk, me, e) {
      RemembersElements(s, rows, shard, chunk, me, e);
      SameBlocksSameOrder(s, world, shard, chunk, me, e);
    }
    if left == right {
      forall e | 0 <= e < shard ensures SameBlocks(s, world, shard, chunk, me, e) { assert left[e] == right[e]; }
    }
    if SamePlan(s, world, shard, chunk, me) {
      forall e | 0 <= e < shard ensures left[e] == right[e] { assert SameBlocks(s, world, shard, chunk, me, e); }
    }
  }

  // Tunings that never change the order: one algorithm for every size, and on the ring one ring.
  ghost predicate FixedTuning(t: Tuning) {
    || (forall bytes :: t.choose(bytes).Direct?)
    || (forall bytes :: t.choose(bytes).Hierarchical?)
    || ((forall bytes :: t.choose(bytes).Ring?) && |t.rings| == 1)
  }

  lemma FixedTuningKeepsThePlan(s: Setting, world: nat, shard: nat, chunk: nat, me: nat)
    requires me < world && ValidTuning(s.tuning, world) && chunk > 0 && FixedTuning(s.tuning)
    ensures SamePlan(s, world, shard, chunk, me)
  {
    forall e | 0 <= e < shard ensures SameBlocks(s, world, shard, chunk, me, e) {
      FixedBlocks(s.tuning, world, s.elementBytes, me, LengthAt(shard, chunk, e), OffsetAt(shard, chunk, e), shard, e);
    }
  }

  lemma FixedBlocks(t: Tuning, world: nat, elementBytes: nat, me: nat, a: nat, i: nat, b: nat, j: nat)
    requires me < world && ValidTuning(t, world) && FixedTuning(t) && i < a && j < b
    ensures BlocksFor(t, world, elementBytes, a, me, i) == BlocksFor(t, world, elementBytes, b, me, j)
  {
    var x, y := t.choose(PayloadBytes(world, a, elementBytes)), t.choose(PayloadBytes(world, b, elementBytes));
    assert (x.Direct? && y.Direct?) || (x.Hierarchical? && y.Hierarchical?) || (x.Ring? && y.Ring? && |t.rings| == 1);
  }
  // ---- a shard that chunking changes -------------------------------------------------------------

  function Distance(): (int, int) -> int { (a, b) => if a < b then b - a else a - b }

  // Four ranks and two channels whose rings differ.
  function TwoRings(): Setting {
    Setting(Tuning(_ => Ring(2), [[0, 1, 2, 3], [0, 1, 3, 2]], []), 1)
  }

  lemma TwoRingsValid()
    ensures ValidTuning(TwoRings().tuning, 4)
  {
    assert Indices(4) == [0, 1, 2, 3];
    var rings := TwoRings().tuning.rings;
    assert multiset(rings[0]) == multiset(rings[1]);
  }

  // Of a shard of two elements the second travels on the second channel, alone it travels on the first.
  lemma SecondElementsChannel()
    ensures ChannelOf(2, 2, 1) == 1 && ChannelOf(1, 2, 0) == 0
  {
    BalancedPartitions(2, 2);
    BalancedPartitions(1, 1);
  }

  lemma SecondElementsBlocks()
    ensures ValidTuning(TwoRings().tuning, 4)
    ensures BlocksFor(TwoRings().tuning, 4, 1, 2, 0, 1) == Backwards(Singles([0, 1, 3, 2]), 0)
    ensures BlocksFor(TwoRings().tuning, 4, 1, 1, 0, 0) == Backwards(Singles([0, 1, 2, 3]), 0)
  {
    TwoRingsValid();
    SecondElementsChannel();
    assert PositionIn([0, 1, 3, 2], 0) == 0 && PositionIn([0, 1, 2, 3], 0) == 0;
  }

  lemma BackwardsFour(a: nat, b: nat, c: nat, d: nat)
    ensures Backwards(Singles([a, b, c, d]), 0) == [[a], [d], [c], [b]]
    ensures Chained(Backwards(Singles([a, b, c, d]), 0)) == Combine(Own(a), Combine(Own(d), Combine(Own(c), Own(b))))
  {
    assert Backwards(Singles([a, b, c, d]), 0) == [[a], [d], [c], [b]];
    FourSingles(a, d, c, b);
  }

  lemma SecondElementsOrders()
    ensures ValidTuning(TwoRings().tuning, 4)
    ensures OrderFor(TwoRings().tuning, 4, 1, 2, 0, 1) == Combine(Own(0), Combine(Own(2), Combine(Own(3), Own(1))))
    ensures OrderFor(TwoRings().tuning, 4, 1, 1, 0, 0) == Combine(Own(0), Combine(Own(3), Combine(Own(2), Own(1))))
  {
    SecondElementsBlocks();
    BackwardsFour(0, 1, 3, 2);
    BackwardsFour(0, 1, 2, 3);
  }

  lemma FourSingles(a: nat, b: nat, c: nat, d: nat)
    ensures Chained([[a], [b], [c], [d]]) == Combine(Own(a), Combine(Own(b), Combine(Own(c), Own(d))))
  {
    assert [[a], [b], [c], [d]][1..] == [[b], [c], [d]] && [[b], [c], [d]][1..] == [[c], [d]] && [[c], [d]][1..] == [[d]];
    assert Chained([[c], [d]]) == Combine(Own(c), Own(d));
    assert Chained([[b], [c], [d]]) == Combine(Own(b), Chained([[c], [d]]));
  }

  lemma EvaluateFour<T>(op: (T, T) -> T, x: seq<T>, a: nat, b: nat, c: nat, d: nat)
    requires a < |x| && b < |x| && c < |x| && d < |x|
    ensures var o := Combine(Own(a), Combine(Own(b), Combine(Own(c), Own(d))));
      Within(o, |x|) && Evaluate(op, o, x) == op(x[a], op(x[b], op(x[c], x[d])))
  {
    var inner := Combine(Own(c), Own(d));
    assert Within(Own(c), |x|) && Within(Own(d), |x|) && Evaluate(op, Own(c), x) == x[c] && Evaluate(op, Own(d), x) == x[d];
    assert Within(inner, |x|) && Evaluate(op, inner, x) == op(x[c], x[d]);
    assert Evaluate(op, Combine(Own(b), inner), x) == op(x[b], op(x[c], x[d]));
  }

  lemma SecondElementsValues(x: seq<int>, whole: Order, chunked: Order)
    requires x == [0, 1, 2, 4]
    requires whole == Combine(Own(0), Combine(Own(2), Combine(Own(3), Own(1))))
    requires chunked == Combine(Own(0), Combine(Own(3), Combine(Own(2), Own(1))))
    ensures Within(whole, |x|) && Within(chunked, |x|)
    ensures Evaluate(Distance(), whole, x) == 1 && Evaluate(Distance(), chunked, x) == 3
  {
    EvaluateFour(Distance(), x, 0, 2, 3, 1);
    EvaluateFour(Distance(), x, 0, 3, 2, 1);
  }

  lemma TwoRingsElements(rows: seq<seq<int>>, x: seq<int>)
    requires |rows| == 4 && HasShard(rows, 0, 2) && ValidTuning(TwoRings().tuning, |rows|) && x == Column(rows, 0 + 1)
    ensures ShardElement(Distance(), TwoRings(), rows, 0, 2, 0, 1) == Evaluate(Distance(), OrderFor(TwoRings().tuning, 4, 1, 2, 0, 1), x)
    ensures ChunkedElement(Distance(), TwoRings(), rows, 0, 2, 1, 0, 1) == Evaluate(Distance(), OrderFor(TwoRings().tuning, 4, 1, 1, 0, 0), x)
  {
    assert LengthAt(2, 1, 1) == 1 && OffsetAt(2, 1, 1) == 0;
  }

  // So even a commutative kernel can give another shard in chunks.
  lemma ChunkingMayChangeTheShard(rows: seq<seq<int>>)
    requires |rows| == 4 && HasShard(rows, 0, 2) && Column(rows, 0 + 1) == [0, 1, 2, 4]
    ensures Commutative(Distance()) && ValidTuning(TwoRings().tuning, |rows|)
    ensures ShardElement(Distance(), TwoRings(), rows, 0, 2, 0, 1) == 1
    ensures ChunkedElement(Distance(), TwoRings(), rows, 0, 2, 1, 0, 1) == 3
  {
    SecondElementsOrders();
    TwoRingsElements(rows, Column(rows, 0 + 1));
    SecondElementsValues([0, 1, 2, 4], OrderFor(TwoRings().tuning, 4, 1, 2, 0, 1), OrderFor(TwoRings().tuning, 4, 1, 1, 0, 0));
  }
}
