// src/in_process/collective/all_to_all.rs: every rank sends a block to every rank.
module InProcessAllToAll {
  import opened Wrappers
  import opened Numbers
  import opened Layout
  import opened Transpose
  import Ring = InProcessRing

  // ---- delivering one source row -----------------------------------------------------------------

  lemma BufferPrefix<T>(before: seq<T>, after: seq<T>, offset: nat, values: seq<T>)
    requires |before| == |after| && offset + |values| <= |before|
    requires forall e | 0 <= e < |before| :: after[e] == if offset <= e < offset + |values| then values[e - offset] else before[e]
    ensures after[..offset + |values|] == before[..offset] + values
  {
  }

  // Append a block to what a destination has received so far.
  method Append<T>(buffer: array<T>, offset: nat, values: seq<T>)
    requires offset + |values| <= buffer.Length
    modifies buffer
    ensures buffer[..offset + |values|] == old(buffer[..offset]) + values
  {
    ghost var before := buffer[..];
    Ring.CopyToDeviceAt(buffer, offset, values);
    BufferPrefix(before, buffer[..], offset, values);
    assert buffer[..offset + |values|] == buffer[..][..offset + |values|] && before[..offset] == old(buffer[..offset]);
  }

  // Every destination begins with what it has received so far.
  ghost predicate Holds<T>(output: seq<array<T>>, stage: seq<seq<T>>)
    reads output
  {
    |stage| == |output| && forall d | 0 <= d < |output| :: |stage[d]| <= output[d].Length && output[d][..|stage[d]|] == stage[d]
  }

  // `after` is `before` with one more row's blocks appended, and there is room for it.
  ghost predicate NextStage<T>(row: seq<T>, counts: seq<nat>, output: seq<array<T>>, before: seq<seq<T>>, after: seq<seq<T>>) {
    && |row| == Sum(counts) && |counts| == |output| == |before| == |after|
    && forall d | 0 <= d < |output| :: after[d] == before[d] + Piece(row, counts, d) && |after[d]| <= output[d].Length
  }

  // Hand block d of the row to destination d, for every d; the offsets move past the new blocks.
  method DeliverRow<T>(values: seq<T>, counts: seq<nat>, offsets: seq<nat>, output: seq<array<T>>, ghost before: seq<seq<T>>, ghost after: seq<seq<T>>)
    returns (next: seq<nat>)
    requires Ring.Disjoint(output) && Holds(output, before) && NextStage(values, counts, output, before, after)
    requires |offsets| == |output| && forall d | 0 <= d < |output| :: offsets[d] == |before[d]|
    modifies output
    ensures |next| == |offsets| && forall d | 0 <= d < |output| :: next[d] == |after[d]|
    ensures Holds(output, after)
  {
    next := offsets;
    var sendOffset := 0;
    for d := 0 to |output|
      invariant sendOffset == Prefix(counts, d) && |next| == |offsets|
      invariant forall e | 0 <= e < |output| :: next[e] == if e < d then |after[e]| else |before[e]|
      invariant forall e | 0 <= e < d :: output[e][..|after[e]|] == after[e]
      invariant forall e | d <= e < |output| :: output[e][..|before[e]|] == before[e]
    {
      PieceBounds(counts, d);
      var sendEnd := sendOffset + counts[d];
      assert values[sendOffset..sendEnd] == Piece(values, counts, d);
      if counts[d] != 0 {
        Append(output[d], next[d], values[sendOffset..sendEnd]);
      }
      next := next[d := next[d] + counts[d]];
      sendOffset := sendEnd;
    }
  }

  method AllocateVariable<T(0)>(lengths: seq<nat>) returns (buffers: seq<array<T>>)
    ensures |buffers| == |lengths| && Ring.Disjoint(buffers)
    ensures forall r | 0 <= r < |lengths| :: fresh(buffers[r]) && buffers[r].Length == lengths[r]
  {
    buffers := [];
    for rank := 0 to |lengths|
      invariant |buffers| == rank && Ring.Disjoint(buffers)
      invariant forall r | 0 <= r < rank :: fresh(buffers[r]) && buffers[r].Length == lengths[r]
    {
      var buffer := new T[lengths[rank]];
      buffers := buffers + [buffer];
    }
  }

  // What the destinations hold once the first `sources` rows were delivered.
  ghost function Stage<T>(rows: seq<seq<T>>, counts: seq<seq<nat>>, sources: nat): (stage: seq<seq<T>>)
    requires Fits(rows, counts) && sources <= |rows|
    ensures |stage| == |rows|
  {
    seq(|rows|, d requires 0 <= d < |rows| => Concatenated(Delivered(rows, counts, d)[..sources]))
  }

  lemma StageLength<T>(rows: seq<seq<T>>, counts: seq<seq<nat>>, d: nat, sources: nat)
    requires Fits(rows, counts) && d < |rows| && sources <= |rows|
    ensures |Stage(rows, counts, sources)[d]| == Prefix(Column(counts, d), sources) <= Sum(Column(counts, d))
  {
    DeliveredLengths(rows, counts, d);
    ConcatenatedLength(Delivered(rows, counts, d)[..sources]);
    assert Lengths(Delivered(rows, counts, d)[..sources]) == Column(counts, d)[..sources];
    PrefixMonotone(Column(counts, d), sources, |rows|);
    assert Column(counts, d)[..|rows|] == Column(counts, d);
  }

  lemma StageStep<T>(rows: seq<seq<T>>, counts: seq<seq<nat>>, output: seq<array<T>>, s: nat)
    requires Fits(rows, counts) && s < |rows| == |output|
    requires forall d | 0 <= d < |output| :: output[d].Length == Sum(Column(counts, d))
    ensures NextStage(rows[s], counts[s], output, Stage(rows, counts, s), Stage(rows, counts, s + 1))
  {
    forall d | 0 <= d < |output|
      ensures Stage(rows, counts, s + 1)[d] == Stage(rows, counts, s)[d] + Piece(rows[s], counts[s], d)
      ensures |Stage(rows, counts, s + 1)[d]| <= output[d].Length
    {
      StageLength(rows, counts, d, s + 1);
      assert Delivered(rows, counts, d)[..s + 1][..s] == Delivered(rows, counts, d)[..s];
    }
  }

  lemma StageEnds<T>(rows: seq<seq<T>>, counts: seq<seq<nat>>, output: seq<array<T>>)
    requires Fits(rows, counts) && |output| == |rows|
    requires forall d | 0 <= d < |output| :: output[d].Length == Sum(Column(counts, d))
    ensures forall d | 0 <= d < |rows| :: Stage(rows, counts, 0)[d] == []
    ensures Stage(rows, counts, |rows|) == Exchanged(rows, counts)
    ensures forall d | 0 <= d < |rows| :: |Exchanged(rows, counts)[d]| == output[d].Length
  {
    forall d | 0 <= d < |rows|
      ensures Stage(rows, counts, |rows|)[d] == Exchanged(rows, counts)[d] && |Exchanged(rows, counts)[d]| == output[d].Length
    {
      assert Delivered(rows, counts, d)[..|rows|] == Delivered(rows, counts, d);
      DeliveredLengths(rows, counts, d);
    }
  }

  lemma HoldsAll<T>(output: seq<array<T>>, stage: seq<seq<T>>)
    requires Holds(output, stage) && forall d | 0 <= d < |output| :: |stage[d]| == output[d].Length
    ensures forall d | 0 <= d < |output| :: output[d][..] == stage[d]
  {
    forall d | 0 <= d < |output| ensures output[d][..] == stage[d] { assert output[d][..output[d].Length] == output[d][..]; }
  }

  method DeliverSource<T>(input: array<T>, ghost rows: seq<seq<T>>, counts: seq<seq<nat>>, s: nat, offsets: seq<nat>, output: seq<array<T>>)
    returns (next: seq<nat>)
    requires Fits(rows, counts) && s < |rows| == |output| == |offsets| && Ring.Disjoint(output) && input[..] == rows[s]
    requires forall d | 0 <= d < |output| :: output[d].Length == Sum(Column(counts, d))
    requires Holds(output, Stage(rows, counts, s))
    requires forall d | 0 <= d < |output| :: offsets[d] == |Stage(rows, counts, s)[d]|
    modifies output
    ensures Holds(output, Stage(rows, counts, s + 1))
    ensures |next| == |offsets| && forall d | 0 <= d < |output| :: next[d] == |Stage(rows, counts, s + 1)[d]|
  {
    StageStep(rows, counts, output, s);
    ghost var before, after := Stage(rows, counts, s), Stage(rows, counts, s + 1);
    var values := Ring.CopyFromDeviceAt(input, 0, input.Length);
    assert values == rows[s];
    next := DeliverRow(values, counts[s], offsets, output, before, after);
  }

  method DeliverAll<T>(input: seq<array<T>>, counts: seq<seq<nat>>, output: seq<array<T>>)
    requires Fits(Ring.Contents(input), counts) && |output| == |input| && Ring.Disjoint(output)
    requires forall r | 0 <= r < |input| :: input[r] !in output
    requires forall d | 0 <= d < |output| :: output[d].Length == Sum(Column(counts, d))
    modifies output
    ensures forall d | 0 <= d < |output| :: output[d][..] == Exchanged(old(Ring.Contents(input)), counts)[d]
  {
    ghost var rows := Ring.Contents(input);
    var offsets := seq(|output|, _ => 0);
    StageEnds(rows, counts, output);
    for source := 0 to |input|
      invariant Holds(output, Stage(rows, counts, source))
      invariant |offsets| == |output| && forall d | 0 <= d < |output| :: offsets[d] == |Stage(rows, counts, source)[d]|
      invariant forall r | 0 <= r < |input| :: input[r][..] == rows[r]
    {
      offsets := DeliverSource(input[source], rows, counts, source, offsets, output);
    }
    HoldsAll(output, Exchanged(rows, counts));
  }

  // ---- unequal counts ----------------------------------------------------------------------------

  // Rows are checked in rank order; the first bad one names the error.
  function CheckRows(counts: seq<seq<nat>>, length: nat): Result<(), Ring.Error> {
    if counts == [] then Ok(())
    else if Sum(counts[0]) > USIZE_MAX then Err(Ring.Overflow)
    else if Sum(counts[0]) != length then Err(Ring.InvalidLength)
    else CheckRows(counts[1..], length)
  }

  lemma {:induction false} RowsChecked(counts: seq<seq<nat>>, length: nat)
    requires length <= USIZE_MAX
    ensures CheckRows(counts, length).Ok? <==> forall s | 0 <= s < |counts| :: Sum(counts[s]) == length
  {
    if counts != [] {
      RowsChecked(counts[1..], length);
      assert forall s | 0 < s < |counts| :: counts[s] == counts[1..][s - 1];
    }
  }

  // Elements that change rank.
  function Remote(counts: seq<seq<nat>>, sources: nat): nat
    requires sources <= |counts| && Square(counts)
  {
    if sources == 0 then 0 else Remote(counts, sources - 1) + Sum(counts[sources - 1][sources - 1 := 0])
  }

  function Columns(counts: seq<seq<nat>>): seq<nat>
    requires Square(counts)
  {
    seq(|counts|, d requires 0 <= d < |counts| => Sum(Column(counts, d)))
  }

  datatype Exchange<T> = Exchange(buffers: seq<array<T>>, steps: nat, transferredBytes: nat)

  // Deliver rows whose counts were checked, then count the bytes that changed rank.
  method Deliver<T(0)>(c: Ring.Collective, buffers: seq<array<T>>, counts: seq<seq<nat>>, lengths: seq<nat>)
    returns (result: Result<Exchange<T>, Ring.Error>)
    requires c.worldSize == |buffers| > 0 && Fits(Ring.Contents(buffers), counts) && lengths == Columns(counts)
    ensures Remote(counts, |counts|) > USIZE_MAX ==> result == Err(Ring.Overflow)
    ensures Remote(counts, |counts|) <= USIZE_MAX ==>
      match Ring.TransferredBytes(1, Remote(counts, |counts|), c.elementSize) {
        case Err(e) => result == Err(e)
        case Ok(bytes) =>
          && result.Ok? && |result.value.buffers| == c.worldSize
          && result.value.steps == c.worldSize - 1 && result.value.transferredBytes == bytes
          && forall d | 0 <= d < c.worldSize :: fresh(result.value.buffers[d]) &&
               result.value.buffers[d][..] == Exchanged(old(Ring.Contents(buffers)), counts)[d]
      }
  {
    var output := AllocateVariable<T>(lengths);
    DeliverAll(buffers, counts, output);
    var remote := Remote(counts, |counts|);
    if remote > USIZE_MAX { return Err(Ring.Overflow); }
    match Ring.TransferredBytes(1, remote, c.elementSize) {
      case Err(e) => return Err(e);
      case Ok(bytes) => return Ok(Exchange(output, c.worldSize - 1, bytes));
    }
  }

  method AllToAllV<T(0)>(c: Ring.Collective, input: Ring.DistributedBuffer<T>, counts: seq<seq<nat>>)
    returns (result: Result<Exchange<T>, Ring.Error>)
    requires c.worldSize > 0 && input.Valid() && input.lengthPerRank <= USIZE_MAX
    ensures !c.Accepts(input) ==> result == Err(Ring.WrongCommunicator)
    ensures c.Accepts(input) && (|counts| != c.worldSize || !Square(counts)) ==> result == Err(Ring.InvalidLength)
    ensures c.Accepts(input) && |counts| == c.worldSize && Square(counts) ==>
      if CheckRows(counts, input.lengthPerRank).Err? then result == Err(CheckRows(counts, input.lengthPerRank).error)
      else if (exists d :: 0 <= d < |counts| && Sum(Column(counts, d)) > USIZE_MAX) || Remote(counts, |counts|) > USIZE_MAX then
        result == Err(Ring.Overflow)
      else
        match Ring.TransferredBytes(1, Remote(counts, |counts|), c.elementSize) {
          case Err(e) => result == Err(e)
          case Ok(bytes) =>
            && Fits(old(Ring.Contents(input.buffers)), counts)
            && result.Ok? && |result.value.buffers| == c.worldSize
            && result.value.steps == c.worldSize - 1 && result.value.transferredBytes == bytes
            && forall d | 0 <= d < c.worldSize :: fresh(result.value.buffers[d]) &&
                 result.value.buffers[d][..] == Exchanged(old(Ring.Contents(input.buffers)), counts)[d]
        }
  {
    if !c.Accepts(input) { return Err(Ring.WrongCommunicator); }
    if |counts| != c.worldSize || exists s | 0 <= s < |counts| :: |counts[s]| != c.worldSize { return Err(Ring.InvalidLength); }
    var checked := CheckRows(counts, input.lengthPerRank);
    if checked.Err? { return Err(checked.error); }
    RowsChecked(counts, input.lengthPerRank);
    var lengths := Columns(counts);
    assert forall d | 0 <= d < |counts| :: lengths[d] == Sum(Column(counts, d));
    if exists d | 0 <= d < |lengths| :: lengths[d] > USIZE_MAX {
      return Err(Ring.Overflow);
    }
    result := Deliver(c, input.buffers, counts, lengths);
  }

  // ---- equal counts ------------------------------------------------------------------------------

  method ShardStart(i: nat, shard: nat, ghost counts: seq<nat>) returns (start: nat)
    requires i <= |counts| && forall k | 0 <= k < |counts| :: counts[k] == shard
    ensures start == Prefix(counts, i)
  {
    UniformPrefix(counts, shard, i);
    start := i * shard;
  }

  method CopyShard<T>(input: array<T>, ghost row: seq<T>, d: nat, shard: nat, ghost counts: seq<nat>, at: nat, buffer: array<T>)
    requires input[..] == row && |row| == Sum(counts) && d < |counts| && input != buffer && at + shard <= buffer.Length
    requires forall k | 0 <= k < |counts| :: counts[k] == shard
    modifies buffer
    ensures buffer[..at + shard] == old(buffer[..at]) + Piece(row, counts, d)
  {
    PieceBounds(counts, d);
    var start := ShardStart(d, shard, counts);
    var values := Ring.CopyFromDeviceAt(input, start, shard);
    assert values == Piece(row, counts, d);
    Append(buffer, at, values);
  }

  // One source's shards, each at the same place in every destination.
  method ScatterRow<T>(input: array<T>, ghost row: seq<T>, at: nat, shard: nat, ghost counts: seq<nat>, output: seq<array<T>>,
                       ghost before: seq<seq<T>>, ghost after: seq<seq<T>>)
    requires Ring.Disjoint(output) && Holds(output, before) && NextStage(row, counts, output, before, after)
    requires input !in output && input[..] == row
    requires forall d | 0 <= d < |output| :: counts[d] == shard && |before[d]| == at
    modifies output
    ensures Holds(output, after)
  {
    for d := 0 to |output|
      invariant input[..] == row
      invariant forall e | 0 <= e < d :: output[e][..|after[e]|] == after[e]
      invariant forall e | d <= e < |output| :: output[e][..|before[e]|] == before[e]
    {
      assert after[d] == before[d] + Piece(row, counts, d);
      CopyShard(input, row, d, shard, counts, at, output[d]);
    }
  }

  method AllToAll<T(0)>(c: Ring.Collective, input: Ring.DistributedBuffer<T>) returns (result: Result<Exchange<T>, Ring.Error>)
    requires c.worldSize > 0 && input.Valid()
    ensures !c.Accepts(input) ==> result == Err(Ring.WrongCommunicator)
    ensures c.Accepts(input) && input.lengthPerRank % c.worldSize != 0 ==> result == Err(Ring.InvalidLength)
    ensures c.Accepts(input) && input.lengthPerRank % c.worldSize == 0 ==>
      var shard := input.lengthPerRank / c.worldSize;
      match Ring.TransferredBytes(Ring.SaturatingMul(c.worldSize, c.worldSize - 1), shard, c.elementSize) {
        case Err(e) => result == Err(e)
        case Ok(bytes) =>
          && Fits(old(Ring.Contents(input.buffers)), Uniform(c.worldSize, shard))
          && result.Ok? && |result.value.buffers| == c.worldSize
          && result.value.steps == c.worldSize - 1 && result.value.transferredBytes == bytes
          && forall d | 0 <= d < c.worldSize :: fresh(result.value.buffers[d]) &&
               result.value.buffers[d][..] == Exchanged(old(Ring.Contents(input.buffers)), Uniform(c.worldSize, shard))[d]
      }
  {
    if !c.Accepts(input) { return Err(Ring.WrongCommunicator); }
    if input.lengthPerRank % c.worldSize != 0 { return Err(Ring.InvalidLength); }
    var shard := input.lengthPerRank / c.worldSize;
    var output := ExchangeShards(input.buffers, shard);
    match Ring.TransferredBytes(Ring.SaturatingMul(c.worldSize, c.worldSize - 1), shard, c.elementSize) {
      case Err(e) => return Err(e);
      case Ok(bytes) => return Ok(Exchange(output, c.worldSize - 1, bytes));
    }
  }

  method ExchangeShards<T(0)>(input: seq<array<T>>, shard: nat) returns (output: seq<array<T>>)
    requires forall r | 0 <= r < |input| :: input[r].Length == |input| * shard
    ensures Fits(old(Ring.Contents(input)), Uniform(|input|, shard)) && |output| == |input|
    ensures forall d | 0 <= d < |output| :: fresh(output[d])
    ensures forall d | 0 <= d < |output| :: output[d][..] == Exchanged(old(Ring.Contents(input)), Uniform(|input|, shard))[d]
  {
    var world := |input|;
    ghost var rows := Ring.Contents(input);
    UniformFits(rows, shard);
    output := Ring.Allocate<T>(world, world * shard);
    RoomForShards(rows, shard, output);
    StageEnds(rows, Uniform(world, shard), output);
    PlaceShards(input, rows, shard, output);
    HoldsAll(output, Exchanged(rows, Uniform(world, shard)));
  }

  lemma RoomForShards<T>(rows: seq<seq<T>>, shard: nat, output: seq<array<T>>)
    requires |output| == |rows| && Sum(UniformRow(|rows|, shard)) == |rows| * shard
    requires forall d | 0 <= d < |rows| :: output[d].Length == |rows| * shard
    ensures forall d | 0 <= d < |rows| :: output[d].Length == Sum(Column(Uniform(|rows|, shard), d))
  {
    forall d | 0 <= d < |rows| ensures output[d].Length == Sum(Column(Uniform(|rows|, shard), d)) { UniformColumn(|rows|, shard, d); }
  }

  lemma UniformStage<T>(rows: seq<seq<T>>, shard: nat, s: nat)
    requires Fits(rows, Uniform(|rows|, shard)) && s <= |rows|
    ensures forall d | 0 <= d < |rows| :: |Stage(rows, Uniform(|rows|, shard), s)[d]| == Prefix(UniformRow(|rows|, shard), s)
  {
    forall d | 0 <= d < |rows| ensures |Stage(rows, Uniform(|rows|, shard), s)[d]| == Prefix(UniformRow(|rows|, shard), s) {
      StageLength(rows, Uniform(|rows|, shard), d, s);
      UniformColumn(|rows|, shard, d);
    }
  }

  method PlaceSource<T>(input: array<T>, ghost rows: seq<seq<T>>, s: nat, shard: nat, output: seq<array<T>>)
    requires Fits(rows, Uniform(|rows|, shard)) && s < |rows| == |output| && Ring.Disjoint(output) && input !in output && input[..] == rows[s]
    requires forall d | 0 <= d < |output| :: output[d].Length == Sum(Column(Uniform(|rows|, shard), d))
    requires Holds(output, Stage(rows, Uniform(|rows|, shard), s))
    modifies output
    ensures Holds(output, Stage(rows, Uniform(|rows|, shard), s + 1))
  {
    ghost var row := UniformRow(|rows|, shard);
    StageStep(rows, Uniform(|rows|, shard), output, s);
    UniformStage(rows, shard, s);
    ghost var before, after := Stage(rows, Uniform(|rows|, shard), s), Stage(rows, Uniform(|rows|, shard), s + 1);
    var at := ShardStart(s, shard, row);
    ScatterRow(input, rows[s], at, shard, row, output, before, after);
  }

  method PlaceShards<T>(input: seq<array<T>>, ghost rows: seq<seq<T>>, shard: nat, output: seq<array<T>>)
    requires Fits(rows, Uniform(|rows|, shard)) && |input| == |output| == |rows| && Ring.Disjoint(output)
    requires forall r | 0 <= r < |input| :: input[r][..] == rows[r]
    requires forall r | 0 <= r < |input| :: input[r] !in output
    requires forall d | 0 <= d < |output| :: output[d].Length == Sum(Column(Uniform(|rows|, shard), d))
    requires Holds(output, Stage(rows, Uniform(|rows|, shard), 0))
    modifies output
    ensures Holds(output, Stage(rows, Uniform(|rows|, shard), |rows|))
  {
    for source := 0 to |input|
      invariant Holds(output, Stage(rows, Uniform(|rows|, shard), source))
      invariant forall r | 0 <= r < |input| :: input[r][..] == rows[r]
    {
      PlaceSource(input[source], rows, source, shard, output);
    }
  }
}
