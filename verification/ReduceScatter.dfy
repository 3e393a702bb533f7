// src/rank/device_collective: in which order the ranks' contributions to one element are combined.
//
// The algorithm is chosen by the payload's size, and on the ring the element's channel chooses the
// order of the ranks. So the order belongs to a rank, a length and an element.
module ReduceScatter {
  import opened Numbers
  import opened Layout
  import opened RingMath
  import opened FoldOrder
  import InProcessRing

  // ---- orders of combination ---------------------------------------------------------------------

  datatype Order = Own(rank: nat) | Combine(left: Order, right: Order)

  function Contributors(o: Order): (ranks: seq<nat>)
    ensures ranks != []
  {
    match o
    case Own(rank) => [rank]
    case Combine(left, right) => Contributors(left) + Contributors(right)
  }

  predicate Within(o: Order, world: nat) {
    match o
    case Own(rank) => rank < world
    case Combine(left, right) => Within(left, world) && Within(right, world)
  }

  function Evaluate<T>(op: (T, T) -> T, o: Order, x: seq<T>): T
    requires Within(o, |x|)
  {
    match o
    case Own(rank) => x[rank]
    case Combine(left, right) => op(Evaluate(op, left, x), Evaluate(op, right, x))
  }

  lemma {:induction false} WithinIsBelow(o: Order, world: nat)
    ensures Within(o, world) <==> Below(Contributors(o), world)
  {
    match o
    case Own(rank) => assert Contributors(o)[0] == rank;
    case Combine(left, right) =>
      WithinIsBelow(left, world);
      WithinIsBelow(right, world);
      BelowAppend(Contributors(left), Contributors(right), world);
  }

  lemma BelowAppend(a: seq<nat>, b: seq<nat>, n: nat)
    ensures Below(a + b, n) <==> Below(a, n) && Below(b, n)
  {
    if Below(a + b, n) {
      forall p | 0 <= p < |a| ensures a[p] < n { assert (a + b)[p] == a[p]; }
      forall p | 0 <= p < |b| ensures b[p] < n { assert (a + b)[|a| + p] == b[p]; }
    }
  }

  lemma {:induction false} EvaluateIsFold<T(!new)>(op: (T, T) -> T, o: Order, x: seq<T>)
    requires Associative(op) && Within(o, |x|)
    ensures Below(Contributors(o), |x|) && Evaluate(op, o, x) == LeftFold(op, At(x, Contributors(o)))
  {
    WithinIsBelow(o, |x|);
    match o
    case Own(rank) => assert At(x, [rank]) == [x[rank]];
    case Combine(left, right) =>
      EvaluateIsFold(op, left, x);
      EvaluateIsFold(op, right, x);
      AtAppend(x, Contributors(left), Contributors(right));
      LeftFoldAppend(op, At(x, Contributors(left)), At(x, Contributors(right)));
  }

  predicate Arrangement(ranks: seq<nat>, world: nat) { multiset(ranks) == multiset(Indices(world)) }

  lemma ArrangementBelow(ranks: seq<nat>, world: nat)
    requires Arrangement(ranks, world)
    ensures Below(ranks, world) && |ranks| == world
  {
    forall p | 0 <= p < |ranks| ensures ranks[p] < world {
      assert ranks[p] in multiset(ranks);
      IndicesOnce(world, ranks[p]);
    }
    assert |multiset(ranks)| == |ranks| && |multiset(Indices(world))| == |Indices(world)|;
  }

  lemma ArrangementHas(ranks: seq<nat>, world: nat, me: nat)
    requires Arrangement(ranks, world) && me < world
    ensures me in ranks
  {
    IndicesOnce(world, me);
    assert me in multiset(ranks);
  }

  // Any order that uses every rank once computes the sum, when the kernel associates and commutes.
  lemma AnyOrderSums<T(!new)>(op: (T, T) -> T, o: Order, x: seq<T>)
    requires Associative(op) && Commutative(op) && Arrangement(Contributors(o), |x|)
    ensures Within(o, |x|) && x != [] && Evaluate(op, o, x) == LeftFold(op, x)
  {
    ArrangementBelow(Contributors(o), |x|);
    WithinIsBelow(o, |x|);
    EvaluateIsFold(op, o, x);
    AtKeepsCounts(x, Contributors(o), Indices(|x|));
    assert At(x, Indices(|x|)) == x;
    FoldIgnoresOrder(op, At(x, Contributors(o)), x);
  }

  // ---- the orders the algorithms use -------------------------------------------------------------

  type Blocks = seq<seq<nat>>

  predicate Full(blocks: Blocks) { blocks != [] && forall i | 0 <= i < |blocks| :: blocks[i] != [] }

  // One after another into the first: what the coordinator's client and a group's leader do.
  function InOrder(ranks: seq<nat>): (o: Order)
    requires ranks != []
    ensures Contributors(o) == ranks
  {
    if |ranks| == 1 then Own(ranks[0]) else Combine(InOrder(ranks[..|ranks| - 1]), Own(ranks[|ranks| - 1]))
  }

  function Flat(blocks: Blocks): seq<nat> {
    if blocks == [] then [] else blocks[0] + Flat(blocks[1..])
  }

  // Each block's owner combines what it has with what comes from the next.
  function Chained(blocks: Blocks): (o: Order)
    requires Full(blocks)
    ensures Contributors(o) == Flat(blocks)
  {
    if |blocks| == 1 then
      assert Flat(blocks) == blocks[0];
      InOrder(blocks[0])
    else Combine(InOrder(blocks[0]), Chained(blocks[1..]))
  }

  // The ring from position p backwards: p, p - 1, and so on round to p + 1.
  function Backwards<X>(ring: seq<X>, p: nat): (back: seq<X>)
    requires p < |ring|
    ensures |back| == |ring|
  {
    seq(|ring|, i requires 0 <= i < |ring| => ring[Behind(|ring|, p, i)])
  }

  function Reversed<X>(s: seq<X>): (r: seq<X>)
    ensures |r| == |s| && forall i | 0 <= i < |s| :: r[i] == s[|s| - 1 - i]
    ensures multiset(r) == multiset(s)
  {
    if s == [] then [] else
      assert s == [s[0]] + s[1..];
      Reversed(s[1..]) + [s[0]]
  }

  lemma BackwardsCounts<X>(ring: seq<X>, p: nat)
    requires p < |ring|
    ensures multiset(Backwards(ring, p)) == multiset(ring)
  {
    var low, high := Reversed(ring[..p + 1]), Reversed(ring[p + 1..]);
    assert ring == ring[..p + 1] + ring[p + 1..];
    assert Backwards(ring, p) == low + high;
  }

  function Singles(ring: seq<nat>): (blocks: Blocks)
    ensures |blocks| == |ring| && forall i | 0 <= i < |ring| :: blocks[i] == [ring[i]]
  {
    seq(|ring|, i requires 0 <= i < |ring| => [ring[i]])
  }

  lemma {:induction false} FlatSingles(ring: seq<nat>)
    ensures Flat(Singles(ring)) == ring
  {
    if ring != [] {
      FlatSingles(ring[1..]);
      assert Singles(ring)[1..] == Singles(ring[1..]);
    }
  }

  lemma {:induction false} FlatAppend(a: Blocks, b: Blocks)
    ensures Flat(a + b) == Flat(a) + Flat(b)
  {
    if a == [] {
      assert a + b == b;
    } else {
      assert (a + b)[1..] == a[1..] + b;
      FlatAppend(a[1..], b);
    }
  }

  lemma {:induction false} FlatCounts(a: Blocks, b: Blocks)
    requires multiset(a) == multiset(b)
    ensures multiset(Flat(a)) == multiset(Flat(b))
    decreases |a|
  {
    assert |multiset(a)| == |a| && |multiset(b)| == |b|;
    if a != [] {
      var front, last := a[..|a| - 1], a[|a| - 1];
      var c, d := TakeOut(a, b);
      FlatCounts(front, c + d);
      assert a == front + [last] && Flat([last]) == last;
      FlatAppend(front, [last]);
      FlatAppend(c, d);
      FlatAppend(c, [last]);
      FlatAppend(c + [last], d);
    }
  }

  lemma FullBackwards(ring: Blocks, p: nat)
    requires Full(ring) && p < |ring|
    ensures Full(Backwards(ring, p)) && multiset(Flat(Backwards(ring, p))) == multiset(Flat(ring))
  {
    BackwardsCounts(ring, p);
    FlatCounts(Backwards(ring, p), ring);
  }

  // ---- what the tuning chooses -------------------------------------------------------------------

  datatype Algorithm = Direct | Ring(channels: nat) | Hierarchical

  // The algorithm for each payload in bytes, the rings of the channels and the groups, leaders first.
  datatype Tuning = Tuning(choose: nat -> Algorithm, rings: seq<seq<nat>>, groups: Blocks)

  ghost predicate ValidTuning(t: Tuning, world: nat) {
    && t.rings != [] && (forall i | 0 <= i < |t.rings| :: Arrangement(t.rings[i], world))
    && (forall bytes :: t.choose(bytes).Ring? ==> t.choose(bytes).channels > 0)
    && (forall bytes :: t.choose(bytes).Hierarchical? ==> Full(t.groups) && Arrangement(Flat(t.groups), world))
  }

  function PositionIn(ranks: seq<nat>, me: nat): (p: nat)
    requires me in ranks
    ensures p < |ranks| && ranks[p] == me
  {
    if ranks[0] == me then 0 else PositionIn(ranks[1..], me) + 1
  }

  function GroupOf(groups: Blocks, me: nat): (g: nat)
    requires me in Flat(groups)
    ensures g < |groups| && me in groups[g]
  {
    if me in groups[0] then 0 else GroupOf(groups[1..], me) + 1
  }

  // The channel that carries element e of every shard of this length.
  function ChannelOf(length: nat, channels: nat, e: nat): (channel: nat)
    requires channels > 0 && e < length
    ensures channel < channels
  {
    BalancedPartitions(length, Min(channels, length));
    ChunkOf(Balanced(length, Min(channels, length)), length, e)
  }

  function PayloadBytes(world: nat, length: nat, elementBytes: nat): nat { world * length * elementBytes }

  // Element e of a shard of this length, at rank `me`: the blocks it is combined from.
  function BlocksFor(t: Tuning, world: nat, elementBytes: nat, length: nat, me: nat, e: nat): (blocks: Blocks)
    requires ValidTuning(t, world) && me < world && e < length
    ensures Full(blocks) && Arrangement(Flat(blocks), world)
  {
    var algorithm := if world == 1 then Direct else t.choose(PayloadBytes(world, length, elementBytes));
    match algorithm
    case Direct =>
      assert Flat([Indices(world)]) == Indices(world);
      [Indices(world)]
    case Ring(channels) =>
      var ring := t.rings[ChannelOf(length, channels, e) % |t.rings|];
      ArrangementHas(ring, world, me);
      FlatSingles(ring);
      FullBackwards(Singles(ring), PositionIn(ring, me));
      Backwards(Singles(ring), PositionIn(ring, me))
    case Hierarchical =>
      ArrangementHas(Flat(t.groups), world, me);
      FullBackwards(t.groups, GroupOf(t.groups, me));
      Backwards(t.groups, GroupOf(t.groups, me))
  }

  // The block i places before block p.
  ghost predicate RunsBackwards(blocks: Blocks, ring: Blocks, p: nat) {
    p < |ring| == |blocks| && forall i | 0 <= i < |blocks| :: blocks[i] == ring[if i <= p then p - i else p + |ring| - i]
  }

  lemma BackwardsRuns(ring: Blocks, p: nat)
    requires p < |ring|
    ensures RunsBackwards(Backwards(ring, p), ring, p)
  {
  }

  // Directly, or alone, the ranks add in their own order.
  lemma DirectBlocks(t: Tuning, world: nat, elementBytes: nat, length: nat, me: nat, e: nat)
    requires ValidTuning(t, world) && me < world && e < length
    requires world == 1 || t.choose(world * length * elementBytes).Direct?
    ensures var blocks := BlocksFor(t, world, elementBytes, length, me, e);
      |blocks| == 1 && |blocks[0]| == world && forall i | 0 <= i < world :: blocks[0][i] == i
  {
  }

  // Around a ring each rank adds on its own, from this one back to the one after it.
  lemma RingBlocks(t: Tuning, world: nat, elementBytes: nat, length: nat, me: nat, e: nat, channels: nat, c: nat, ring: seq<nat>) returns (p: nat)
    requires ValidTuning(t, world) && me < world && e < length && channels > 0
    requires world > 1 && t.choose(world * length * elementBytes) == Ring(channels) && OnChannel(t, length, channels, e, c, ring)
    ensures p < |ring| && ring[p] == me && RunsBackwards(BlocksFor(t, world, elementBytes, length, me, e), Singles(ring), p)
  {
    ChannelIs(length, channels, e, c);
    ArrangementHas(ring, world, me);
    p := PositionIn(ring, me);
    BackwardsRuns(Singles(ring), p);
  }

  lemma ChannelIs(length: nat, channels: nat, e: nat, c: nat)
    requires channels > 0 && e < length && c < Min(channels, length)
    requires Balanced(length, Min(channels, length))[c].start <= e < Balanced(length, Min(channels, length))[c].end
    ensures ChannelOf(length, channels, e) == c
  {
    BalancedPartitions(length, Min(channels, length));
    ChunkIs(Balanced(length, Min(channels, length)), length, c);
  }

  lemma GroupFor(groups: Blocks, world: nat, me: nat) returns (g: nat)
    requires Arrangement(Flat(groups), world) && me < world
    ensures me in Flat(groups) && g < |groups| && me in groups[g] && g == GroupOf(groups, me)
  {
    ArrangementHas(Flat(groups), world, me);
    g := GroupOf(groups, me);
  }

  // In a hierarchy each group does, from this rank's back to the one after it.
  lemma GroupBlocks(t: Tuning, world: nat, elementBytes: nat, length: nat, me: nat, e: nat) returns (g: nat)
    requires ValidTuning(t, world) && me < world && e < length && world > 1 && t.choose(world * length * elementBytes).Hierarchical?
    ensures g < |t.groups| && me in t.groups[g] && RunsBackwards(BlocksFor(t, world, elementBytes, length, me, e), t.groups, g)
  {
    assert Full(t.groups) && Arrangement(Flat(t.groups), world);
    g := GroupFor(t.groups, world, me);
    BackwardsRuns(t.groups, g);
  }

  // Element e lies on channel c of at most `channels`, whose ring the channels take in turn.
  ghost predicate OnChannel(t: Tuning, length: nat, channels: nat, e: nat, c: nat, ring: seq<nat>)
    requires channels > 0 && length > 0 && t.rings != []
  {
    var parts := if channels < length then channels else length;
    c < parts && Balanced(length, parts)[c].start <= e < Balanced(length, parts)[c].end && ring == t.rings[c % |t.rings|]
  }

  function OrderFor(t: Tuning, world: nat, elementBytes: nat, length: nat, me: nat, e: nat): (o: Order)
    requires ValidTuning(t, world) && me < world && e < length
    ensures Arrangement(Contributors(o), world) && Within(o, world)
  {
    var o := Chained(BlocksFor(t, world, elementBytes, length, me, e));
    ArrangementBelow(Contributors(o), world);
    WithinIsBelow(o, world);
    o
  }

  // ---- when two orders are the same --------------------------------------------------------------

  // Adding a last rank to a block and chaining it after the block are the same thing.
  function Normal(blocks: Blocks): (normal: Blocks)
    requires Full(blocks)
    ensures Full(normal) && |normal[|normal| - 1]| == 1
  {
    var n := |blocks|;
    var last := blocks[n - 1];
    if |last| == 1 then blocks else blocks[..n - 1] + [last[..|last| - 1], [last[|last| - 1]]]
  }

  lemma {:induction false} NormalIsSame(blocks: Blocks)
    requires Full(blocks)
    ensures Chained(Normal(blocks)) == Chained(blocks)
  {
    if |blocks| == 1 {
      var last := blocks[0];
      if |last| > 1 { assert Normal(blocks) == [last[..|last| - 1], [last[|last| - 1]]]; }
    } else {
      NormalIsSame(blocks[1..]);
      NormalTail(blocks);
    }
  }

  lemma NormalTail(blocks: Blocks)
    requires Full(blocks) && |blocks| > 1
    ensures Normal(blocks)[0] == blocks[0] && Normal(blocks)[1..] == Normal(blocks[1..])
  {
    var n, rest := |blocks|, blocks[1..];
    assert rest[|rest| - 1] == blocks[n - 1] && rest[..n - 2] == blocks[..n - 1][1..];
  }

  lemma {:induction false} InOrderInjective(a: seq<nat>, b: seq<nat>)
    requires a != [] && b != [] && InOrder(a) == InOrder(b)
    ensures a == b
  {
    assert Contributors(InOrder(a)) == a && Contributors(InOrder(b)) == b;
  }

  lemma {:induction false} ChainedInjective(a: Blocks, b: Blocks)
    requires Full(a) && Full(b) && |a[|a| - 1]| == 1 && |b[|b| - 1]| == 1 && Chained(a) == Chained(b)
    ensures a == b
    decreases |a|
  {
    if |a| > 1 && |b| > 1 {
      InOrderInjective(a[0], b[0]);
      ChainedInjective(a[1..], b[1..]);
      assert a == [a[0]] + a[1..] && b == [b[0]] + b[1..];
    } else if |a| == 1 && |b| == 1 {
      InOrderInjective(a[0], b[0]);
    }
  }

  lemma SameOrderExactlyWhen(a: Blocks, b: Blocks)
    requires Full(a) && Full(b)
    ensures Chained(a) == Chained(b) <==> Normal(a) == Normal(b)
  {
    NormalIsSame(a);
    NormalIsSame(b);
    if Chained(a) == Chained(b) { ChainedInjective(Normal(a), Normal(b)); }
  }

  // ---- the ring schedule of one channel ----------------------------------------------------------

  ghost predicate AllWithin(ring: Blocks, world: nat) {
    forall i | 0 <= i < |ring| :: ring[i] != [] && Within(InOrder(ring[i]), world)
  }

  ghost function ValuesOf<T>(op: (T, T) -> T, blocks: Blocks, x: seq<T>): (values: seq<T>)
    requires AllWithin(blocks, |x|)
    ensures |values| == |blocks|
  {
    seq(|blocks|, i requires 0 <= i < |blocks| => Evaluate(op, InOrder(blocks[i]), x))
  }

  lemma ChainedStep<T>(op: (T, T) -> T, blocks: Blocks, x: seq<T>)
    requires |blocks| > 1 && Full(blocks) && Within(InOrder(blocks[0]), |x|) && Within(Chained(blocks[1..]), |x|)
    ensures Within(Chained(blocks), |x|)
    ensures Evaluate(op, Chained(blocks), x) == op(Evaluate(op, InOrder(blocks[0]), x), Evaluate(op, Chained(blocks[1..]), x))
  {
  }

  lemma BackwardsAt(n: nat, p: nat, j: nat)
    requires p < n && j < n
    ensures (InProcessRing.Origin(n, p) + (n - 1 - j)) % n == Behind(n, p, j)
  {
    WrapOnce(InProcessRing.Origin(n, p) + (n - 1 - j), n);
  }

  ghost predicate IsStation<T>(op: (T, T) -> T, block: seq<nat>, x: seq<T>, value: T) {
    block != [] && Within(InOrder(block), |x|) && Evaluate(op, InOrder(block), x) == value
  }

  // The blocks of a chain, read from its end, are the stations of a ring fold.
  ghost predicate Stations<T>(op: (T, T) -> T, blocks: Blocks, x: seq<T>, values: seq<T>, origin: nat)
    requires |blocks| <= |values|
  {
    forall i | 0 <= i < |blocks| :: IsStation(op, blocks[i], x, values[(origin + (|blocks| - 1 - i)) % |values|])
  }

  lemma {:induction false} ChainIsRingFold<T>(op: (T, T) -> T, blocks: Blocks, x: seq<T>, values: seq<T>, origin: nat)
    requires 0 < |blocks| <= |values| && origin < |values| && Stations(op, blocks, x, values, origin)
    ensures Full(blocks) && Within(Chained(blocks), |x|)
    ensures Evaluate(op, Chained(blocks), x) == RingFold(op, values, origin, |blocks| - 1)
  {
    if |blocks| == 1 {
      WrapOnce(origin, |values|);
      assert IsStation(op, blocks[0], x, values[(origin + 0) % |values|]);
    } else {
      var rest := blocks[1..];
      assert IsStation(op, blocks[0], x, values[(origin + |rest|) % |values|]);
      forall i | 0 <= i < |rest| ensures IsStation(op, rest[i], x, values[(origin + (|rest| - 1 - i)) % |values|]) {
        assert rest[i] == blocks[i + 1];
      }
      ChainIsRingFold(op, rest, x, values, origin);
      ChainedStep(op, blocks, x);
    }
  }

  lemma BackwardsStations<T>(op: (T, T) -> T, ring: Blocks, x: seq<T>, p: nat, back: Blocks)
    requires p < |ring| && AllWithin(ring, |x|) && back == Backwards(ring, p)
    ensures Stations(op, back, x, ValuesOf(op, ring, x), InProcessRing.Origin(|ring|, p))
  {
    var n, values, origin := |ring|, ValuesOf(op, ring, x), InProcessRing.Origin(|ring|, p);
    forall i | 0 <= i < n ensures IsStation(op, back[i], x, values[(origin + (n - 1 - i)) % n]) {
      BackwardsAt(n, p, i);
      assert back[i] == ring[Behind(n, p, i)];
    }
  }

  // Going backwards from p and folding round the ring that ends at p are the same.
  lemma BackwardsIsRingFold<T>(op: (T, T) -> T, ring: Blocks, x: seq<T>, p: nat, back: Blocks)
    requires p < |ring| && AllWithin(ring, |x|) && back == Backwards(ring, p)
    ensures Full(back) && Within(Chained(back), |x|)
    ensures Evaluate(op, Chained(back), x) == RingFold(op, ValuesOf(op, ring, x), InProcessRing.Origin(|ring|, p), |ring| - 1)
  {
    BackwardsStations(op, ring, x, p, back);
    ChainIsRingFold(op, back, x, ValuesOf(op, ring, x), InProcessRing.Origin(|ring|, p));
  }

  // work[p][q] is what the rank at position p holds of the shard that belongs to position q.
  ghost predicate AtStep<T>(op: (T, T) -> T, x: seq<seq<T>>, step: nat, work: seq<seq<T>>)
    requires forall p | 0 <= p < |x| :: |x[p]| == |x|
  {
    |work| == |x| && (forall p | 0 <= p < |x| :: |work[p]| == |x|) &&
    forall p, q | 0 <= p < |x| && 0 <= q < |x| :: work[p][q] == Reduced(op, Column(x, q), InProcessRing.Origin(|x|, q), step, p)
  }

  // Every rank sends a shard to the next and reduces the one it receives into its own.
  function ExchangedAt<T>(op: (T, T) -> T, work: seq<seq<T>>, step: nat, p: nat): (row: seq<T>)
    requires step + 1 < |work| && p < |work| && forall i | 0 <= i < |work| :: |work[i]| == |work|
    ensures |row| == |work|
  {
    var n, from := |work|, Previous(|work|, p);
    var received, sent := InProcessRing.ReceiveChunk(n, p, step), InProcessRing.SendChunk(n, Previous(n, p), step);
    work[p][received := op(work[p][received], work[from][sent])]
  }

  function ExchangeStep<T>(op: (T, T) -> T, work: seq<seq<T>>, step: nat): (next: seq<seq<T>>)
    requires step + 1 < |work| && forall p | 0 <= p < |work| :: |work[p]| == |work|
    ensures |next| == |work| && forall p | 0 <= p < |work| :: next[p] == ExchangedAt(op, work, step, p)
  {
    seq(|work|, p requires 0 <= p < |work| => ExchangedAt(op, work, step, p))
  }

  lemma ExchangeStepReduces<T>(op: (T, T) -> T, x: seq<seq<T>>, step: nat, work: seq<seq<T>>)
    requires step + 1 < |x| && (forall p | 0 <= p < |x| :: |x[p]| == |x|) && AtStep(op, x, step, work)
    ensures AtStep(op, x, step + 1, ExchangeStep(op, work, step))
  {
    var n, next := |x|, ExchangeStep(op, work, step);
    forall p, q | 0 <= p < n && 0 <= q < n ensures next[p][q] == Reduced(op, Column(x, q), InProcessRing.Origin(n, q), step + 1, p) {
      InProcessRing.ScheduleFacts(n, p, step, q);
      ReducedStep(op, Column(x, q), InProcessRing.Origin(n, q), step, p);
    }
  }

  // One offset of every shard on one channel: x[p][q] is what the rank at position p of the ring adds to
  // the shard of position q. Each rank ends with the fold backwards along the ring from itself.
  method RingChannel<T>(op: (T, T) -> T, x: seq<seq<T>>) returns (owned: seq<T>)
    requires x != [] && forall p | 0 <= p < |x| :: |x[p]| == |x|
    ensures |owned| == |x|
    ensures forall p | 0 <= p < |x| :: owned[p] == RingFold(op, Column(x, p), InProcessRing.Origin(|x|, p), |x| - 1)
  {
    var work, n := x, |x|;
    forall p, q | 0 <= p < n && 0 <= q < n ensures work[p][q] == Reduced(op, Column(x, q), InProcessRing.Origin(n, q), 0, p) {
      ReducedStep(op, Column(x, q), InProcessRing.Origin(n, q), 0, p);
    }
    for step := 0 to n - 1
      invariant AtStep(op, x, step, work)
    {
      ExchangeStepReduces(op, x, step, work);
      work := ExchangeStep(op, work, step);
    }
    forall p | 0 <= p < n ensures work[p][p] == RingFold(op, Column(x, p), InProcessRing.Origin(n, p), n - 1) {
      OwnerFinished(op, Column(x, p), InProcessRing.Origin(n, p));
      assert Owner(n, InProcessRing.Origin(n, p)) == p;
    }
    owned := seq(n, p requires 0 <= p < |work| == n && |work[p]| == n => work[p][p]);
  }
  // The ranks' rows in the order of the ring, shards likewise.
  function OnRing<T>(x: seq<seq<T>>, ring: seq<nat>): (y: seq<seq<T>>)
    requires Below(ring, |x|) && forall r | 0 <= r < |x| :: |x[r]| == |x|
    ensures |y| == |ring| && forall p | 0 <= p < |ring| :: |y[p]| == |ring|
  {
    seq(|ring|, p requires 0 <= p < |ring| => At(x[ring[p]], ring))
  }

  lemma ChannelValues<T>(op: (T, T) -> T, ring: seq<nat>, x: seq<seq<T>>, p: nat)
    requires Below(ring, |x|) && p < |ring| && forall r | 0 <= r < |x| :: |x[r]| == |x|
    ensures AllWithin(Singles(ring), |x|)
    ensures ValuesOf(op, Singles(ring), Column(x, ring[p])) == Column(OnRing(x, ring), p)
  {
    assert AllWithin(Singles(ring), |x|);
    var values, column := ValuesOf(op, Singles(ring), Column(x, ring[p])), Column(OnRing(x, ring), p);
    forall i | 0 <= i < |ring| ensures values[i] == column[i] {
      assert OnRing(x, ring)[i] == At(x[ring[i]], ring);
    }
  }

  // What the channel's schedule leaves at a rank is its shard in the order planned for the ring.
  lemma ChannelFollowsItsOrder<T>(op: (T, T) -> T, ring: seq<nat>, x: seq<seq<T>>, p: nat, planned: Blocks)
    requires Arrangement(ring, |x|) && p < |ring| && forall r | 0 <= r < |x| :: |x[r]| == |x|
    requires planned == Backwards(Singles(ring), p)
    ensures Below(ring, |x|) && Full(planned) && Within(Chained(planned), |x|)
    ensures RingFold(op, Column(OnRing(x, ring), p), InProcessRing.Origin(|ring|, p), |ring| - 1) ==
      Evaluate(op, Chained(planned), Column(x, ring[p]))
  {
    ArrangementBelow(ring, |x|);
    ChannelValues(op, ring, x, p);
    BackwardsIsRingFold(op, Singles(ring), Column(x, ring[p]), p, planned);
  }
}
