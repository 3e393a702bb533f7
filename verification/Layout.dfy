// Splitting a flat buffer into one contiguous range per rank.
module Layout {

  datatype Range = Range(start: nat, end: nat)

  // The ranges are contiguous, in order, and cover exactly 0..length.
  ghost predicate Partitions(ranges: seq<Range>, length: nat) {
    && |ranges| > 0
    && ranges[0].start == 0
    && ranges[|ranges| - 1].end == length
    && (forall i | 0 <= i < |ranges| :: ranges[i].start <= ranges[i].end)
    && (forall i, j | 0 <= i < |ranges| && j == i + 1 && j < |ranges| :: ranges[i].end == ranges[j].start)
  }

  lemma {:induction false} PartitionOrdered(ranges: seq<Range>, length: nat, i: nat, j: nat)
    requires Partitions(ranges, length) && i < j < |ranges|
    ensures ranges[i].end <= ranges[j].start
    decreases j
  {
    assert ranges[j - 1].end == ranges[j].start;
    if i < j - 1 {
      PartitionOrdered(ranges, length, i, j - 1);
      assert ranges[j - 1].start <= ranges[j - 1].end;
    }
  }

  lemma PartitionBound(ranges: seq<Range>, length: nat, i: nat)
    requires Partitions(ranges, length) && i < |ranges|
    ensures ranges[i].start <= ranges[i].end <= length
  {
    if i < |ranges| - 1 {
      PartitionOrdered(ranges, length, i, |ranges| - 1);
      assert ranges[|ranges| - 1].start <= ranges[|ranges| - 1].end;
    }
  }

  lemma PartitionBounds(ranges: seq<Range>, length: nat)
    requires Partitions(ranges, length)
    ensures forall i | 0 <= i < |ranges| :: ranges[i].start <= ranges[i].end <= length
  {
    forall i | 0 <= i < |ranges| ensures ranges[i].start <= ranges[i].end <= length {
      PartitionBound(ranges, length, i);
    }
  }

  // The one range that holds element e.
  function ChunkOf(ranges: seq<Range>, length: nat, e: nat): (c: nat)
    requires Partitions(ranges, length) && e < length
    ensures c < |ranges| && ranges[c].start <= e < ranges[c].end
  {
    ChunkFrom(ranges, length, e, 0)
  }

  function ChunkFrom(ranges: seq<Range>, length: nat, e: nat, i: nat): (c: nat)
    requires Partitions(ranges, length) && i < |ranges| && ranges[i].start <= e < length
    ensures c < |ranges| && ranges[c].start <= e < ranges[c].end
    decreases |ranges| - i
  {
    if e < ranges[i].end then
      i
    else
      assert ranges[i].end == if i + 1 < |ranges| then ranges[i + 1].start else length;
      ChunkFrom(ranges, length, e, i + 1)
  }

  // Membership in a range and being its chunk are the same thing.
  lemma ChunkIs(ranges: seq<Range>, length: nat, c: nat)
    requires Partitions(ranges, length) && c < |ranges|
    ensures ranges[c].start <= ranges[c].end <= length
    ensures forall e: nat | e < length :: ChunkOf(ranges, length, e) == c <==> ranges[c].start <= e < ranges[c].end
  {
    PartitionBound(ranges, length, c);
    forall e: nat | e < length && ranges[c].start <= e < ranges[c].end
      ensures ChunkOf(ranges, length, e) == c
    {
      var d := ChunkOf(ranges, length, e);
      if d < c { PartitionOrdered(ranges, length, d, c); }
      if c < d { PartitionOrdered(ranges, length, c, d); }
    }
  }

  // Element e of every row.
  function Column<T>(x: seq<seq<T>>, e: nat): (c: seq<T>)
    requires forall r | 0 <= r < |x| :: e < |x[r]|
    ensures |c| == |x| && forall r | 0 <= r < |x| :: c[r] == x[r][e]
  {
    seq(|x|, r requires 0 <= r < |x| => x[r][e])
  }

  lemma SliceIs<T>(whole: seq<T>, part: seq<T>, start: nat)
    requires start + |part| <= |whole| && forall i | 0 <= i < |part| :: part[i] == whole[start + i]
    ensures part == whole[start..start + |part|]
  {
  }

  // Pieces laid end to end.
  function Concatenated<T>(y: seq<seq<T>>): seq<T> {
    if y == [] then [] else Concatenated(y[..|y| - 1]) + y[|y| - 1]
  }

  lemma {:induction false} ConcatenatedPrefix<T>(row: seq<T>, chunks: seq<Range>, y: seq<seq<T>>, k: nat)
    requires Partitions(chunks, |row|) && k < |chunks| == |y|
    requires forall r | 0 <= r < |y| :: chunks[r].start <= chunks[r].end <= |row| && y[r] == row[chunks[r].start..chunks[r].end]
    ensures Concatenated(y[..k + 1]) == row[..chunks[k].end]
  {
    assert y[..k + 1][..k] == y[..k];
    assert y[..k + 1][k] == y[k];
    if k > 0 {
      ConcatenatedPrefix(row, chunks, y, k - 1);
      assert chunks[k - 1].end == chunks[k].start;
    }
    assert row[..chunks[k].start] + row[chunks[k].start..chunks[k].end] == row[..chunks[k].end];
  }

  // Cutting a row at a partition and laying the pieces end to end gives the row back.
  lemma WholeConcatenation<T>(row: seq<T>, chunks: seq<Range>, y: seq<seq<T>>)
    requires Partitions(chunks, |row|) && |chunks| == |y|
    requires forall r | 0 <= r < |y| :: chunks[r].start <= chunks[r].end <= |row| && y[r] == row[chunks[r].start..chunks[r].end]
    ensures Concatenated(y) == row
  {
    ConcatenatedPrefix(row, chunks, y, |y| - 1);
    assert y[..|y|] == y && row[..|row|] == row;
  }

  // Where range i starts: every earlier range has `base` elements, the first `remainder` one more.
  function BalancedStart(base: nat, remainder: nat, i: nat): nat {
    if i == 0 then 0 else BalancedStart(base, remainder, i - 1) + base + if i - 1 < remainder then 1 else 0
  }

  lemma {:induction false} BalancedStartClosed(base: nat, remainder: nat, i: nat)
    ensures BalancedStart(base, remainder, i) == i * base + if i < remainder then i else remainder
  {
    if i > 0 {
      BalancedStartClosed(base, remainder, i - 1);
      assert i * base == (i - 1) * base + base;
    }
  }

  lemma BalancedTotal(length: nat, partitions: nat)
    requires partitions > 0
    ensures BalancedStart(length / partitions, length % partitions, partitions) == length
  {
    BalancedStartClosed(length / partitions, length % partitions, partitions);
  }

  function Balanced(length: nat, partitions: nat): (ranges: seq<Range>)
    requires partitions > 0
    ensures |ranges| == partitions
  {
    RangesFrom(length / partitions, length % partitions, partitions)
  }

  function RangesFrom(base: nat, remainder: nat, partitions: nat): (ranges: seq<Range>)
    ensures |ranges| == partitions
    ensures forall i | 0 <= i < partitions :: ranges[i] == Range(BalancedStart(base, remainder, i), BalancedStart(base, remainder, i + 1))
  {
    seq(partitions, i requires 0 <= i < partitions =>
      Range(BalancedStart(base, remainder, i), BalancedStart(base, remainder, i + 1)))
  }

  // Each range begins where the one before it ends.
  lemma RangesContiguous(base: nat, remainder: nat, partitions: nat)
    requires partitions > 0
    ensures Partitions(RangesFrom(base, remainder, partitions), BalancedStart(base, remainder, partitions))
  {
    var ranges := RangesFrom(base, remainder, partitions);
    assert ranges[0].start == BalancedStart(base, remainder, 0);
    forall i | 0 <= i < partitions ensures ranges[i].start <= ranges[i].end { BalancedStep(base, remainder, i); }
  }

  lemma RangesPartition(base: nat, remainder: nat, partitions: nat)
    requires partitions > 0
    ensures Partitions(RangesFrom(base, remainder, partitions), BalancedStart(base, remainder, partitions))
    ensures forall i | 0 <= i < partitions ::
      var range := RangesFrom(base, remainder, partitions)[i];
      range.end == range.start + base + if i < remainder then 1 else 0
  {
    RangesContiguous(base, remainder, partitions);
    forall i | 0 <= i < partitions
      ensures var range := RangesFrom(base, remainder, partitions)[i];
        range.end == range.start + base + if i < remainder then 1 else 0
    {
      BalancedStep(base, remainder, i);
    }
  }

  lemma BalancedStep(base: nat, remainder: nat, i: nat)
    ensures BalancedStart(base, remainder, i + 1) == BalancedStart(base, remainder, i) + base + if i < remainder then 1 else 0
  {
  }

  // Ranges differ in length by at most one and the longer ones come first.
  lemma BalancedPartitions(length: nat, partitions: nat)
    requires partitions > 0
    ensures Partitions(Balanced(length, partitions), length)
    ensures forall i | 0 <= i < partitions ::
      var range := Balanced(length, partitions)[i];
      range.end == range.start + length / partitions + if i < length % partitions then 1 else 0
  {
    BalancedTotal(length, partitions);
    RangesPartition(length / partitions, length % partitions, partitions);
  }

  method BuildRanges(base: nat, remainder: nat, partitions: nat) returns (ranges: seq<Range>)
    ensures ranges == RangesFrom(base, remainder, partitions)
  {
    var start: nat := 0;
    ranges := [];
    for partition := 0 to partitions
      invariant start == BalancedStart(base, remainder, partition)
      invariant ranges == RangesFrom(base, remainder, partitions)[..partition]
    {
      BalancedStep(base, remainder, partition);
      var partLength := if partition < remainder then base + 1 else base;
      ranges := ranges + [Range(start, start + partLength)];
      start := start + partLength;
    }
  }

  // An empty world has no quotient, so callers must not ask for zero partitions.
  method BalancedRanges(length: nat, partitions: nat) returns (ranges: seq<Range>)
    requires partitions > 0
    ensures ranges == Balanced(length, partitions) && Partitions(ranges, length)
    ensures forall i | 0 <= i < partitions ::
      ranges[i].end == ranges[i].start + length / partitions + if i < length % partitions then 1 else 0
  {
    ranges := BuildRanges(length / partitions, length % partitions, partitions);
    BalancedPartitions(length, partitions);
  }
}
