// src/in_process/collective: what the byte counters of the operations count, in elements that the copies
// move.
module TransferCounts {
  import opened Wrappers
  import opened Numbers
  import opened Layout
  import opened RingMath
  import opened Transpose
  import opened InProcessRing
  import opened InProcessAllToAll

  // Two checked products: either of them may leave usize.
  lemma BytesMean(transfers: nat, elements: nat, width: nat)
    ensures match TransferredBytes(transfers, elements, width)
      case Ok(bytes) => bytes == transfers * elements * width <= 0xFFFF_FFFF_FFFF_FFFF && transfers * elements <= 0xFFFF_FFFF_FFFF_FFFF
      case Err(error) => error == Overflow && (transfers * elements > 0xFFFF_FFFF_FFFF_FFFF || transfers * elements * width > 0xFFFF_FFFF_FFFF_FFFF)
  {
  }

  lemma SaturatesAtTheTop(a: nat, b: nat)
    ensures SaturatingMul(a, b) == if a * b < 0x1_0000_0000_0000_0000 then a * b else 0xFFFF_FFFF_FFFF_FFFF
  {
  }

  // A communicator takes its own buffers only, one for each of its ranks.
  lemma AcceptsItsOwn<T>(c: Collective, buffer: DistributedBuffer<T>)
    ensures c.Accepts(buffer) <==> buffer.communicatorId == c.id && |buffer.buffers| == c.worldSize
  {
  }

  lemma {:induction false} SumOfBoth(a: seq<nat>, b: seq<nat>)
    ensures Sum(a + b) == Sum(a) + Sum(b)
  {
    if b == [] {
      assert a + b == a;
    } else {
      SumOfBoth(a, b[..|b| - 1]);
      assert (a + b)[..|a + b| - 1] == a + b[..|b| - 1];
    }
  }

  function Sizes(chunks: seq<Range>): (sizes: seq<nat>)
    requires forall c | 0 <= c < |chunks| :: chunks[c].start <= chunks[c].end
    ensures |sizes| == |chunks|
  {
    seq(|chunks|, c requires 0 <= c < |chunks| => var size: nat := chunks[c].end - chunks[c].start; size)
  }

  lemma {:induction false} SizesSum(chunks: seq<Range>, length: nat, k: nat)
    requires Partitions(chunks, length) && k <= |chunks|
    ensures Sum(Sizes(chunks)[..k]) == if k == 0 then 0 else chunks[k - 1].end
  {
    if k > 0 {
      SizesSum(chunks, length, k - 1);
      assert Sizes(chunks)[..k][..k - 1] == Sizes(chunks)[..k - 1];
    }
  }

  lemma RangesAddUp(chunks: seq<Range>, length: nat)
    requires Partitions(chunks, length)
    ensures Sum(Sizes(chunks)) == length
  {
    SizesSum(chunks, length, |chunks|);
    assert Sizes(chunks)[..|chunks|] == Sizes(chunks);
  }

  // The chunk k places on from rank r's own.
  function Onward(n: nat, r: nat, k: nat): nat
    requires r < n && k <= n
  {
    if r + k < n then r + k else r + k - n
  }

  // Wherever the ring starts to count, it counts every chunk.
  lemma SumAround(sizes: seq<nat>, k: nat, moved: seq<nat>)
    requires k <= |sizes| == |moved|
    requires forall r: nat | r < |moved| :: moved[r] == sizes[Onward(|sizes|, r, k)]
    ensures Sum(moved) == Sum(sizes)
  {
    assert moved == sizes[k..] + sizes[..k];
    SumOfBoth(sizes[k..], sizes[..k]);
    SumOfBoth(sizes[..k], sizes[k..]);
    assert sizes[..k] + sizes[k..] == sizes;
  }

  lemma ScheduleIs(n: nat, r: nat, step: nat)
    requires r < n && step + 1 < n
    ensures SendChunk(n, r, step) == Onward(n, r, n - step - 1) && GatherChunk(n, r, step) == Onward(n, r, n - step)
  {
    WrapOnce(r + n - step - 1, n);
    WrapOnce(r + n - step, n);
  }

  // What each rank moves in a step: the chunk that the phase's schedule gives it.
  ghost predicate StepMoves(sizes: seq<nat>, step: nat, gather: bool, moved: seq<nat>)
    requires step + 1 < |sizes|
  {
    |moved| == |sizes| && forall r: nat | r < |moved| :: RankMoves(sizes, step, gather, r, moved[r])
  }

  ghost predicate RankMoves(sizes: seq<nat>, step: nat, gather: bool, r: nat, moved: nat)
    requires step + 1 < |sizes| && r < |sizes|
  {
    moved == sizes[if gather then GatherChunk(|sizes|, r, step) else SendChunk(|sizes|, r, step)]
  }

  lemma RankMovesOnward(sizes: seq<nat>, step: nat, gather: bool, r: nat, moved: nat)
    requires step + 1 < |sizes| && r < |sizes| && RankMoves(sizes, step, gather, r, moved)
    ensures moved == sizes[Onward(|sizes|, r, if gather then |sizes| - step else |sizes| - step - 1)]
  {
    ScheduleIs(|sizes|, r, step);
  }

  // In every step of either phase the ranks together move one whole row, so a phase moves as many rows
  // as it has steps.
  lemma StepMovesARow(chunks: seq<Range>, length: nat, step: nat, gather: bool, moved: seq<nat>)
    requires step + 1 < |chunks| && Partitions(chunks, length) && StepMoves(Sizes(chunks), step, gather, moved)
    ensures Sum(moved) == length
  {
    var sizes, k := Sizes(chunks), if gather then |chunks| - step else |chunks| - step - 1;
    forall r: nat | r < |moved| ensures moved[r] == sizes[Onward(|sizes|, r, k)] { RankMovesOnward(sizes, step, gather, r, moved[r]); }
    SumAround(sizes, k, moved);
    RangesAddUp(chunks, length);
  }

  // ---- all-to-all --------------------------------------------------------------------------------

  lemma {:induction false} Without(counts: seq<nat>, d: nat)
    requires d < |counts|
    ensures Sum(counts[d := 0]) + counts[d] == Sum(counts)
  {
    var front, last := counts[..|counts| - 1], |counts| - 1;
    if d < last {
      Without(front, d);
      assert counts[d := 0][..last] == front[d := 0];
    } else {
      assert counts[d := 0][..last] == front;
    }
  }

  function RowSums(counts: seq<seq<nat>>): (sums: seq<nat>)
    ensures |sums| == |counts|
  {
    seq(|counts|, s requires 0 <= s < |counts| => Sum(counts[s]))
  }

  function Kept(counts: seq<seq<nat>>): (kept: seq<nat>)
    requires Square(counts)
    ensures |kept| == |counts|
  {
    seq(|counts|, s requires 0 <= s < |counts| => counts[s][s])
  }

  // What changes rank is everything but what a rank holds for itself.
  lemma {:induction false} RemoteMeans(counts: seq<seq<nat>>, sources: nat)
    requires Square(counts) && sources <= |counts|
    ensures Remote(counts, sources) + Sum(Kept(counts)[..sources]) == Sum(RowSums(counts)[..sources])
  {
    if sources > 0 {
      RemoteMeans(counts, sources - 1);
      Without(counts[sources - 1], sources - 1);
      assert Kept(counts)[..sources][..sources - 1] == Kept(counts)[..sources - 1];
      assert RowSums(counts)[..sources][..sources - 1] == RowSums(counts)[..sources - 1];
    }
  }

  // The first row that does not add up decides.
  lemma {:induction false} RowsRefused(counts: seq<seq<nat>>, length: nat) returns (s: nat)
    requires CheckRows(counts, length).Err?
    ensures s < |counts| && (forall q | 0 <= q < s :: Sum(counts[q]) == length <= USIZE_MAX)
    ensures Sum(counts[s]) > USIZE_MAX || Sum(counts[s]) != length
    ensures CheckRows(counts, length) == Err(if Sum(counts[s]) > USIZE_MAX then Overflow else InvalidLength)
  {
    s := 0;
    if Sum(counts[0]) == length <= USIZE_MAX {
      var later := RowsRefused(counts[1..], length);
      assert forall q | 0 < q < later + 1 :: counts[q] == counts[1..][q - 1];
      s := later + 1;
    }
  }
}
