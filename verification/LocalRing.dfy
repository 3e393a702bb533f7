// src/local/all_reduce/ring.rs: all-reduce between the peers of one process, cycle by cycle in place.
module LocalRing {
  import opened Wrappers
  import opened Layout
  import opened Numbers
  import opened RingMath
  import Tree = TreeReduce

  // ---- slicing -----------------------------------------------------------------------------------

  function CeilDiv(s: nat, n: nat): nat
    requires n > 0
  {
    s / n + if s % n == 0 then 0 else 1
  }

  // Equal slices of ceil(s / n), with only the last end pulled back to s.
  function SliceRanges(s: nat, n: nat): (ranges: seq<Range>)
    requires n > 0
    ensures |ranges| == n
  {
    SizedRanges(CeilDiv(s, n), s, n)
  }

  function SizedRanges(size: nat, s: nat, n: nat): (ranges: seq<Range>)
    ensures |ranges| == n
  {
    seq(n, i requires 0 <= i < n => Range(i * size, if i == n - 1 then s else i * size + size))
  }

  method GetRingReduceSliceRanges(s: nat, n: nat) returns (ranges: seq<Range>)
    requires n > 0
    ensures ranges == SliceRanges(s, n)
  {
    ranges := [];
    var size := CeilDiv(s, n);
    for i := 0 to n
      invariant |ranges| == i
      invariant forall j | 0 <= j < i :: ranges[j] == Range(j * size, j * size + size)
    {
      var start := i * size;
      ranges := ranges + [Range(start, start + size)];
    }
    ranges := ranges[n - 1 := ranges[n - 1].(end := s)];
  }

  // Slices of the least size that n of them cover the axis with; only the last ends with the axis.
  lemma SlicesAre(s: nat, n: nat, i: nat, size: nat)
    requires i < n && s <= size * n && (size > 0 ==> (size - 1) * n < s)
    ensures SliceRanges(s, n)[i] == Range(i * size, if i == n - 1 then s else i * size + size)
  {
    CeilDivIs(s, n, size);
  }

  lemma CeilDivIs(s: nat, n: nat, size: nat)
    requires n > 0 && s <= size * n && (size > 0 ==> (size - 1) * n < s)
    ensures CeilDiv(s, n) == size
  {
    QuotientIsLargest(size, s, n);
    if size > 0 { QuotientIsLargest(size - 1, s, n); }
    QuotientIsLargest(size + 1, s, n);
    assert s == s / n * n + s % n;
    assert (size + 1) * n == size * n + n;
  }

  // The slices cover the axis exactly when the first n - 1 of them fit. The callers' own guard,
  // s >= n, does not imply it.
  lemma SlicesPartitionExactlyWhenTheyFit(s: nat, n: nat)
    requires n > 0
    ensures Partitions(SliceRanges(s, n), s) <==> (n - 1) * CeilDiv(s, n) <= s
  {
    SizedPartition(CeilDiv(s, n), s, n);
  }

  lemma SizedPartition(size: nat, s: nat, n: nat)
    requires n > 0
    ensures Partitions(SizedRanges(size, s, n), s) <==> (n - 1) * size <= s
  {
    var ranges := SizedRanges(size, s, n);
    assert ranges[n - 1] == Range((n - 1) * size, s);
    if (n - 1) * size <= s {
      forall i, j | 0 <= i < n && j == i + 1 && j < n ensures ranges[i].end == ranges[j].start {
        assert (i + 1) * size == i * size + size;
      }
    }
  }

  lemma SlicesMayOverrun()
    ensures SliceRanges(5, 4) == [Range(0, 2), Range(2, 4), Range(4, 6), Range(6, 5)]
    ensures 5 >= 4 && !Partitions(SliceRanges(5, 4), 5)
  {
    assert CeilDiv(5, 4) == 2;
  }

  // The last of the longest dimensions.
  method GetSliceDim(shape: seq<nat>) returns (dim: nat)
    requires |shape| > 0
    ensures dim < |shape|
    ensures forall d | 0 <= d < |shape| :: shape[d] <= shape[dim] && (d > dim ==> shape[d] < shape[dim])
  {
    dim := 0;
    for index := 1 to |shape|
      invariant dim < index
      invariant forall d | 0 <= d < index :: shape[d] <= shape[dim] && (d > dim ==> shape[d] < shape[dim])
    {
      if shape[dim] <= shape[index] { dim := index; }
    }
  }

  // ---- the cycles --------------------------------------------------------------------------------

  ghost predicate Square<T>(x: seq<seq<T>>) {
    |x| > 0 && forall i | 0 <= i < |x| :: |x[i]| == |x|
  }

  // The slice tensor i sends in a cycle; the overwriting phase starts one slice further.
  function CycleSlice(n: nat, i: nat, cycle: nat, phaseOne: bool): (c: nat)
    requires i < n
    ensures c < n
  {
    (i + (if phaseOne then 0 else 1) + (n - 1) * cycle) % n
  }

  lemma CycleSliceIs(n: nat, i: nat, cycle: nat, phaseOne: bool)
    requires i < n && cycle + 1 < n
    ensures var top := i + (if phaseOne then 0 else 1);
      CycleSlice(n, i, cycle, phaseOne) == if top < cycle then top + n - cycle else if top - cycle < n then top - cycle else 0
  {
    var top := i + if phaseOne then 0 else 1;
    var x := top + (n - 1) * cycle;
    assert x == n * cycle + (top - cycle);
    if top < cycle {
      assert n * (cycle - 1) == n * cycle - n;
      ModUnique(x, n, cycle - 1, top + n - cycle);
    } else if top - cycle < n {
      ModUnique(x, n, cycle, top - cycle);
    } else {
      assert cycle == 0 && top == n;
      ModUnique(x, n, 1, 0);
    }
  }

  // Tensor r after a cycle in which every send happens before any write.
  function SimultaneousRow<T>(op: (T, T) -> T, y: seq<seq<T>>, cycle: nat, phaseOne: bool, r: nat): seq<T>
    requires r < |y| && forall i | 0 <= i < |y| :: |y[i]| == |y|
  {
    var p := Previous(|y|, r);
    var c := CycleSlice(|y|, p, cycle, phaseOne);
    y[r][c := if phaseOne then op(y[r][c], y[p][c]) else y[p][c]]
  }

  function Remove<T>(s: seq<T>, i: nat): seq<T>
    requires i < |s|
  {
    s[..i] + s[i + 1..]
  }

  function Insert<T>(s: seq<T>, i: nat, v: T): seq<T>
    requires i <= |s|
  {
    s[..i] + [v] + s[i..]
  }

  // One hop of a cycle: take the slice out of both tensors, combine, and put both back.
  method Hop<T>(tensors: array<seq<T>>, src: nat, dest: nat, c: nat, op: (T, T) -> T, phaseOne: bool)
    requires src < tensors.Length && dest < tensors.Length && src != dest
    requires c < |tensors[src]| && c < |tensors[dest]|
    modifies tensors
    ensures forall i | 0 <= i < tensors.Length && i != dest :: tensors[i] == old(tensors[i])
    ensures tensors[dest] == old(tensors[dest])[c :=
      if phaseOne then op(old(tensors[dest][c]), old(tensors[src][c])) else old(tensors[src][c])]
  {
    var srcSlice := tensors[src][c];
    tensors[src] := Remove(tensors[src], c);
    var destSlice := tensors[dest][c];
    tensors[dest] := Remove(tensors[dest], c);
    destSlice := if phaseOne then op(destSlice, srcSlice) else srcSlice;
    tensors[src] := Insert(tensors[src], c, srcSlice);
    tensors[dest] := Insert(tensors[dest], c, destSlice);
    assert tensors[src] == old(tensors[src]);
  }

  // Hop i reads slice c of tensor i, which hop i - 1 left alone.
  lemma HopReadsOldSlice<T>(op: (T, T) -> T, y: seq<seq<T>>, cycle: nat, phaseOne: bool, i: nat)
    requires Square(y) && i < |y| && cycle + 1 < |y|
    ensures var c := CycleSlice(|y|, i, cycle, phaseOne);
      i > 0 ==> SimultaneousRow(op, y, cycle, phaseOne, i)[c] == y[i][c]
  {
    if i > 0 {
      CycleSliceIs(|y|, i, cycle, phaseOne);
      CycleSliceIs(|y|, i - 1, cycle, phaseOne);
    }
  }

  // Running the hops one after another in place gives the simultaneous step: the slice a hop reads
  // is never the one the hop before it wrote into the same tensor.
  method Cycle<T>(tensors: array<seq<T>>, op: (T, T) -> T, cycle: nat, phaseOne: bool)
    requires Square(tensors[..]) && cycle + 1 < tensors.Length
    modifies tensors
    ensures Square(tensors[..])
    ensures forall r | 0 <= r < tensors.Length :: tensors[r] == SimultaneousRow(op, old(tensors[..]), cycle, phaseOne, r)
  {
    ghost var y := tensors[..];
    var n := tensors.Length;
    for i := 0 to n
      invariant HopsDone(tensors[..], y, op, cycle, phaseOne, i)
    {
      CycleHop(tensors, y, op, cycle, phaseOne, i);
    }
  }

  // The hops of tensors before i have been made.
  ghost predicate HopsDone<T>(now: seq<seq<T>>, y: seq<seq<T>>, op: (T, T) -> T, cycle: nat, phaseOne: bool, i: nat)
    requires Square(y) && cycle + 1 < |y|
  {
    |now| == |y| &&
    forall r | 0 <= r < |y| :: now[r] == if Previous(|y|, r) < i then SimultaneousRow(op, y, cycle, phaseOne, r) else y[r]
  }

  lemma ReceiverOf(n: nat, i: nat)
    requires i < n
    ensures (i + 1) % n == Successor(n, i) && forall r | 0 <= r < n :: Previous(n, r) == i <==> r == Successor(n, i)
  {
    WrapOnce(i + 1, n);
  }

  method CycleHop<T>(tensors: array<seq<T>>, ghost y: seq<seq<T>>, op: (T, T) -> T, cycle: nat, phaseOne: bool, i: nat)
    requires Square(y) && cycle + 1 < |y| && i < |y| == tensors.Length && HopsDone(tensors[..], y, op, cycle, phaseOne, i)
    modifies tensors
    ensures HopsDone(tensors[..], y, op, cycle, phaseOne, i + 1)
  {
    var n := tensors.Length;
    var dest := (i + 1) % n;
    ReceiverOf(n, i);
    var c := CycleSlice(n, i, cycle, phaseOne);
    HopReadsOldSlice(op, y, cycle, phaseOne, i);
    ghost var before := tensors[..];
    assert before[i][c] == y[i][c] && before[dest] == y[dest];
    Hop(tensors, i, dest, c, op, phaseOne);
    assert tensors[dest] == SimultaneousRow(op, y, cycle, phaseOne, dest);
  }

  // ---- both phases -------------------------------------------------------------------------------

  // Slice c leaves tensor c first; the total ends at tensor c - 1, which owns it.
  function PhaseValue<T>(op: (T, T) -> T, x: seq<seq<T>>, phaseOne: bool, cycle: nat, r: nat, c: nat): T
    requires Square(x) && r < |x| && c < |x|
  {
    if phaseOne then Reduced(op, Column(x, c), c, cycle, r)
    else Gathered(Column(x, c), Owner(|x|, c), cycle, r)
  }

  lemma PhaseStep<T>(op: (T, T) -> T, x: seq<seq<T>>, y: seq<seq<T>>, phaseOne: bool, cycle: nat, r: nat, c: nat)
    requires Square(x) && Square(y) && |y| == |x| && r < |x| && c < |x| && cycle + 1 < |x|
    requires forall q, d | 0 <= q < |x| && 0 <= d < |x| :: y[q][d] == PhaseValue(op, x, phaseOne, cycle, q, d)
    ensures SimultaneousRow(op, y, cycle, phaseOne, r)[c] == PhaseValue(op, x, phaseOne, cycle + 1, r, c)
  {
    CycleSliceIs(|x|, Previous(|x|, r), cycle, phaseOne);
    if phaseOne {
      ReducedStep(op, Column(x, c), c, cycle, r);
    } else {
      GatheredStep(Column(x, c), Owner(|x|, c), cycle, r);
    }
  }

  method RingCycles<T>(tensors: array<seq<T>>, op: (T, T) -> T, phaseOne: bool)
    requires Square(tensors[..])
    modifies tensors
    ensures Square(tensors[..])
    ensures forall r, c | 0 <= r < tensors.Length && 0 <= c < tensors.Length ::
      tensors[r][c] == PhaseValue(op, old(tensors[..]), phaseOne, tensors.Length - 1, r, c)
  {
    ghost var x := tensors[..];
    var n := tensors.Length;
    forall r, c | 0 <= r < n && 0 <= c < n ensures x[r][c] == PhaseValue(op, x, phaseOne, 0, r, c) {
      ReducedStep(op, Column(x, c), c, 0, r);
      GatheredStep(Column(x, c), Owner(n, c), 0, r);
    }
    for cycle := 0 to n - 1
      invariant Square(tensors[..])
      invariant forall r, c | 0 <= r < n && 0 <= c < n :: tensors[r][c] == PhaseValue(op, x, phaseOne, cycle, r, c)
    {
      ghost var y := tensors[..];
      Cycle(tensors, op, cycle, phaseOne);
      forall r, c | 0 <= r < n && 0 <= c < n ensures tensors[r][c] == PhaseValue(op, x, phaseOne, cycle + 1, r, c) {
        PhaseStep(op, x, y, phaseOne, cycle, r, c);
      }
    }
  }

  lemma BothPhases<T>(op: (T, T) -> T, x: seq<seq<T>>, y: seq<seq<T>>, r: nat, c: nat)
    requires Square(x) && Square(y) && |x| == |y| && r < |x| && c < |x|
    requires forall q, d | 0 <= q < |x| && 0 <= d < |x| :: y[q][d] == PhaseValue(op, x, true, |x| - 1, q, d)
    ensures PhaseValue(op, y, false, |x| - 1, r, c) == RingFold(op, Column(x, c), c, |x| - 1)
  {
    GatheredStep(Column(y, c), Owner(|x|, c), 0, r);
    OwnerFinished(op, Column(x, c), c);
  }

  // Both phases: every tensor ends with the same total of every slice.
  method AllReduceSlices<T>(tensors: array<seq<T>>, op: (T, T) -> T)
    requires Square(tensors[..])
    modifies tensors
    ensures Square(tensors[..])
    ensures forall r, c | 0 <= r < tensors.Length && 0 <= c < tensors.Length ::
      tensors[r][c] == RingFold(op, Column(old(tensors[..]), c), c, tensors.Length - 1)
  {
    ghost var x := tensors[..];
    RingCycles(tensors, op, true);
    ghost var y := tensors[..];
    RingCycles(tensors, op, false);
    forall r, c | 0 <= r < tensors.Length && 0 <= c < tensors.Length
      ensures tensors[r][c] == RingFold(op, Column(x, c), c, tensors.Length - 1)
    {
      BothPhases(op, x, y, r, c);
    }
  }

  // ---- whole tensors -----------------------------------------------------------------------------

  // Tensor addition, element by element.
  function Zip<E>(op: (E, E) -> E): (seq<E>, seq<E>) -> seq<E> {
    (a: seq<E>, b: seq<E>) => if |a| == |b| then seq(|a|, i requires 0 <= i < |a| == |b| => op(a[i], b[i])) else a
  }

  lemma {:induction false} FoldOfSlices<E>(op: (E, E) -> E, y: seq<seq<E>>, size: nat, origin: nat, k: nat, i: nat)
    requires origin < |y| && k < |y| && i < size && forall r | 0 <= r < |y| :: |y[r]| == size
    ensures |RingFold(Zip(op), y, origin, k)| == size
    ensures RingFold(Zip(op), y, origin, k)[i] == RingFold(op, Column(y, i), origin, k)
  {
    if k > 0 {
      FoldOfSlices(op, y, size, origin, k - 1, i);
      var q := (origin + k) % |y|;
      assert RingFold(Zip(op), y, origin, k) == Zip(op)(y[q], RingFold(Zip(op), y, origin, k - 1));
    }
  }

  lemma {:induction false} FoldOfSlicesSize<E>(op: (E, E) -> E, y: seq<seq<E>>, size: nat, origin: nat, k: nat)
    requires origin < |y| && k < |y| && forall r | 0 <= r < |y| :: |y[r]| == size
    ensures |RingFold(Zip(op), y, origin, k)| == size
  {
    if k > 0 { FoldOfSlicesSize(op, y, size, origin, k - 1); }
  }

  // What every peer gets back: element e folded round the ring from the peer whose index is e's slice.
  ghost function RingTotal<E>(op: (E, E) -> E, x: seq<seq<E>>, ranges: seq<Range>, s: nat): (row: seq<E>)
    requires |x| > 0 && |ranges| == |x| && Partitions(ranges, s) && forall r | 0 <= r < |x| :: |x[r]| == s
    ensures |row| == s
  {
    seq(s, e requires 0 <= e < s => RingFold(op, Column(x, e), ChunkOf(ranges, s, e), |x| - 1))
  }

  function Cut<E>(row: seq<E>, ranges: seq<Range>): (pieces: seq<seq<E>>)
    requires forall c | 0 <= c < |ranges| :: ranges[c].start <= ranges[c].end <= |row|
    ensures |pieces| == |ranges|
    ensures forall c | 0 <= c < |ranges| :: pieces[c] == row[ranges[c].start..ranges[c].end]
  {
    seq(|ranges|, c requires 0 <= c < |ranges| => row[ranges[c].start..ranges[c].end])
  }

  ghost predicate CutAt<E>(x: seq<seq<E>>, cut: seq<seq<seq<E>>>, ranges: seq<Range>, s: nat, c: nat) {
    && |x| > 0 && |ranges| == |x| == |cut| && c < |x|
    && (forall r | 0 <= r < |x| :: |x[r]| == s && |cut[r]| == |x|)
    && ranges[c].start <= ranges[c].end <= s
    && forall r | 0 <= r < |x| :: cut[r][c] == x[r][ranges[c].start..ranges[c].end]
  }

  lemma TotalInRange<E>(op: (E, E) -> E, x: seq<seq<E>>, ranges: seq<Range>, s: nat, c: nat, e: nat)
    requires |x| > 0 && |ranges| == |x| && Partitions(ranges, s) && forall r | 0 <= r < |x| :: |x[r]| == s
    requires c < |x| && ranges[c].start <= e < ranges[c].end
    ensures e < s && RingTotal(op, x, ranges, s)[e] == RingFold(op, Column(x, e), c, |x| - 1)
  {
    ChunkIs(ranges, s, c);
    assert ChunkOf(ranges, s, e) == c;
  }

  lemma ElementsMatch<E>(x: seq<seq<E>>, cut: seq<seq<seq<E>>>, ranges: seq<Range>, s: nat, c: nat, i: nat)
    requires CutAt(x, cut, ranges, s, c) && ranges[c].start + i < ranges[c].end
    ensures Column(Column(cut, c), i) == Column(x, ranges[c].start + i)
  {
  }

  lemma FoldAt<E>(op: (E, E) -> E, x: seq<seq<E>>, cut: seq<seq<seq<E>>>, ranges: seq<Range>, s: nat, c: nat, i: nat, e: nat, fold: seq<E>)
    requires CutAt(x, cut, ranges, s, c) && Partitions(ranges, s) && ranges[c].start + i == e < ranges[c].end <= s
    requires fold == RingFold(Zip(op), Column(cut, c), c, |x| - 1) && |fold| == ranges[c].end - ranges[c].start
    ensures fold[i] == RingFold(op, Column(x, e), c, |x| - 1)
  {
    FoldOfSlices(op, Column(cut, c), |fold|, c, |x| - 1, i);
    ElementsMatch(x, cut, ranges, s, c, i);
  }

  lemma SliceTotalAt<E>(op: (E, E) -> E, x: seq<seq<E>>, cut: seq<seq<seq<E>>>, ranges: seq<Range>, s: nat, c: nat, i: nat, e: nat,
                        fold: seq<E>, total: seq<E>)
    requires CutAt(x, cut, ranges, s, c) && Partitions(ranges, s) && ranges[c].start + i == e < ranges[c].end
    requires fold == RingFold(Zip(op), Column(cut, c), c, |x| - 1) && |fold| == ranges[c].end - ranges[c].start
    requires total == RingTotal(op, x, ranges, s)
    ensures e < |total| && fold[i] == total[e]
  {
    TotalInRange(op, x, ranges, s, c, e);
    PartitionBound(ranges, s, c);
    FoldAt(op, x, cut, ranges, s, c, i, e, fold);
  }

  lemma SliceTotal<E>(op: (E, E) -> E, x: seq<seq<E>>, cut: seq<seq<seq<E>>>, ranges: seq<Range>, s: nat, c: nat)
    requires CutAt(x, cut, ranges, s, c) && Partitions(ranges, s)
    ensures RingFold(Zip(op), Column(cut, c), c, |x| - 1) == RingTotal(op, x, ranges, s)[ranges[c].start..ranges[c].end]
  {
    var from, size := ranges[c].start, ranges[c].end - ranges[c].start;
    var fold, total := RingFold(Zip(op), Column(cut, c), c, |x| - 1), RingTotal(op, x, ranges, s);
    FoldOfSlicesSize(op, Column(cut, c), size, c, |x| - 1);
    forall i | 0 <= i < size ensures fold[i] == total[from + i] {
      SliceTotalAt(op, x, cut, ranges, s, c, i, from + i, fold, total);
    }
    SliceIs(total, fold, from);
  }

  // Slice, run both phases in place, and join again.
  method ReduceSliced<E>(x: seq<seq<E>>, s: nat, op: (E, E) -> E, ranges: seq<Range>) returns (out: seq<seq<E>>)
    requires 0 < |x| <= s && (forall r | 0 <= r < |x| :: |x[r]| == s) && |ranges| == |x| && Partitions(ranges, s)
    ensures |out| == |x| && forall r | 0 <= r < |x| :: out[r] == RingTotal(op, x, ranges, s)
  {
    var n := |x|;
    PartitionBounds(ranges, s);
    var tensors := SliceTensors(x, ranges);
    ghost var cut := tensors[..];
    AllReduceSlices(tensors, Zip(op));
    var slices := tensors[..];
    out := seq(n, r requires 0 <= r < n => Concatenated(slices[r]));
    forall r | 0 <= r < n ensures out[r] == RingTotal(op, x, ranges, s) {
      JoinSlices(op, x, cut, ranges, s, slices[r]);
    }
  }

  predicate IsSlice(range: Range, s: nat) { range.start <= range.end <= s }

  // Every peer holds the same total on its own device.
  ghost predicate AllTotal<E>(tensors: seq<Tree.Entry<seq<E>>>, total: seq<E>, result: map<Tree.PeerId, Tree.Tensor<seq<E>>>) {
    && (forall p :: p in result <==> exists i :: 0 <= i < |tensors| && tensors[i].0 == p)
    && forall i | 0 <= i < |tensors| :: tensors[i].0 in result && result[tensors[i].0] == Tree.Tensor(tensors[i].1.device, total)
  }

  // The whole operation on tensors that are s long. An axis shorter than the number of peers falls back
  // to the binary tree; where the slices do not fit, the backend is asked for one that does not exist.
  method AllReduceSumRing<E>(tensors: seq<Tree.Entry<seq<E>>>, s: nat, op: (E, E) -> E)
    returns (result: Result<map<Tree.PeerId, Tree.Tensor<seq<E>>>, Range>)
    requires tensors != [] && Tree.DistinctPeers(tensors) && forall i | 0 <= i < |tensors| :: |tensors[i].1.value| == s
    ensures s < |tensors| ==> result.Ok? && AllTotal(tensors, Tree.TreeFold(Zip(op), Tree.Values(tensors), 2), result.value)
    ensures s >= |tensors| && (|tensors| - 1) * CeilDiv(s, |tensors|) <= s ==>
      Partitions(SliceRanges(s, |tensors|), s) && result.Ok? &&
      AllTotal(tensors, RingTotal(op, Tree.Values(tensors), SliceRanges(s, |tensors|), s), result.value)
    ensures s >= |tensors| && (|tensors| - 1) * CeilDiv(s, |tensors|) > s ==>
      result.Err? && result.error in SliceRanges(s, |tensors|) && !IsSlice(result.error, s)
  {
    var n := |tensors|;
    if s < n {
      var reduced := Tree.AllReduceSumTree(Zip(op), tensors, 2);
      return Ok(reduced);
    }
    var ranges := GetRingReduceSliceRanges(s, n);
    SlicesPartitionExactlyWhenTheyFit(s, n);
    var bad := FirstBadSlice(ranges, s);
    if bad.Some? { return Err(bad.value); }
    var rows := ReduceSliced(Tree.Values(tensors), s, op, ranges);
    var totals := ByPeer(tensors, rows);
    result := Ok(totals);
  }

  // The slices fit exactly when each of them is a slice of the axis.
  lemma FittingSlices(s: nat, n: nat)
    requires n > 0
    ensures (n - 1) * CeilDiv(s, n) <= s <==> forall c | 0 <= c < n :: IsSlice(SliceRanges(s, n)[c], s)
  {
    SlicesPartitionExactlyWhenTheyFit(s, n);
    if Partitions(SliceRanges(s, n), s) { PartitionBounds(SliceRanges(s, n), s); }
    assert SliceRanges(s, n)[n - 1].start == (n - 1) * CeilDiv(s, n) && SliceRanges(s, n)[n - 1].end == s;
  }

  method FirstBadSlice(ranges: seq<Range>, s: nat) returns (bad: Option<Range>)
    requires ranges != [] && ranges == SliceRanges(s, |ranges|)
    ensures bad.Some? ==> bad.value in ranges && !IsSlice(bad.value, s)
    ensures bad.None? <==> (|ranges| - 1) * CeilDiv(s, |ranges|) <= s
  {
    FittingSlices(s, |ranges|);
    for c := 0 to |ranges|
      invariant forall b | 0 <= b < c :: IsSlice(ranges[b], s)
    {
      if !IsSlice(ranges[c], s) { return Some(ranges[c]); }
    }
    bad := None;
  }

  method ByPeer<E>(tensors: seq<Tree.Entry<seq<E>>>, rows: seq<seq<E>>) returns (result: map<Tree.PeerId, Tree.Tensor<seq<E>>>)
    requires |rows| == |tensors| && Tree.DistinctPeers(tensors) && forall i | 0 <= i < |rows| :: rows[i] == rows[0]
    ensures |rows| > 0 ==> AllTotal(tensors, rows[0], result)
  {
    result := map[];
    for i := 0 to |tensors|
      invariant forall p :: p in result <==> exists k :: 0 <= k < i && tensors[k].0 == p
      invariant forall k | 0 <= k < i :: result[tensors[k].0] == Tree.Tensor(tensors[k].1.device, rows[0])
    {
      result := result[tensors[i].0 := Tree.Tensor(tensors[i].1.device, rows[i])];
    }
  }

  method SliceTensors<E>(x: seq<seq<E>>, ranges: seq<Range>) returns (tensors: array<seq<seq<E>>>)
    requires |ranges| == |x| > 0
    requires forall r, c | 0 <= r < |x| && 0 <= c < |ranges| :: ranges[c].start <= ranges[c].end <= |x[r]|
    ensures fresh(tensors) && tensors.Length == |x| && Square(tensors[..])
    ensures forall r | 0 <= r < |x| :: tensors[..][r] == Cut(x[r], ranges)
  {
    tensors := new seq<seq<E>>[|x|](r requires 0 <= r < |x| => Cut(x[r], ranges));
  }

  lemma JoinSlices<E>(op: (E, E) -> E, x: seq<seq<E>>, cut: seq<seq<seq<E>>>, ranges: seq<Range>, s: nat, slices: seq<seq<E>>)
    requires |x| > 0 && |ranges| == |x| == |cut| == |slices| && Partitions(ranges, s) && forall r | 0 <= r < |x| :: |x[r]| == s
    requires forall c | 0 <= c < |ranges| :: ranges[c].start <= ranges[c].end <= s
    requires forall r | 0 <= r < |x| :: |cut[r]| == |x| && cut[r] == Cut(x[r], ranges)
    requires forall c | 0 <= c < |x| :: slices[c] == RingFold(Zip(op), Column(cut, c), c, |x| - 1)
    ensures Concatenated(slices) == RingTotal(op, x, ranges, s)
  {
    var total := RingTotal(op, x, ranges, s);
    forall c | 0 <= c < |x| ensures slices[c] == total[ranges[c].start..ranges[c].end] {
      SliceTotal(op, x, cut, ranges, s, c);
    }
    WholeConcatenation(total, ranges, slices);
  }

  lemma RingTotalIsSum<E(!new)>(op: (E, E) -> E, x: seq<seq<E>>, ranges: seq<Range>, s: nat, e: nat)
    requires |x| > 0 && |ranges| == |x| && Partitions(ranges, s) && forall r | 0 <= r < |x| :: |x[r]| == s
    requires e < s && Associative(op) && Commutative(op)
    ensures RingTotal(op, x, ranges, s)[e] == LeftFold(op, Column(x, e))
  {
    RingFoldIsSum(op, Column(x, e), ChunkOf(ranges, s, e));
  }
}
