// src/rank/topology.rs: the cheapest cycle through a set of leader ranks.
module RankCycles {
  import opened Wrappers
  import opened Numbers
  import opened Lexicographic
  import opened ShortestPath
  import opened Topology
  import opened RingSearch
  import opened RingSelection

  // ---- scores ------------------------------------------------------------------------------------

  // Least transfer time between two ranks over the plain links.
  ghost function CostBetween(links: LinkTable, n: nat, bytes: nat, a: nat, b: nat): Option<nat> {
    Shortest(PlainEdge(links, bytes), AllPermitted(n), a, b)
  }

  ghost predicate AreRanks(n: nat, ranks: seq<nat>) {
    forall i | 0 <= i < |ranks| :: ranks[i] < n
  }

  // A cycle over the indices of `ranks`, starting at index 0.
  ghost predicate IsTour(m: nat, o: seq<nat>) {
    m > 0 && IsOrder(m, o) && o[0] == 0
  }

  // The largest and the summed cost of the first k hops; None as soon as a hop is impossible.
  ghost function HopScore(links: LinkTable, n: nat, bytes: nat, ranks: seq<nat>, o: seq<nat>, k: nat): Option<(nat, nat)>
    requires IsTour(|ranks|, o) && k <= |o|
  {
    if k == 0 then Some((0, 0))
    else
      match HopScore(links, n, bytes, ranks, o, k - 1)
      case None => None
      case Some(before) =>
        match CostBetween(links, n, bytes, ranks[o[k - 1]], ranks[o[Successor(|o|, k - 1)]])
        case None => None
        case Some(cost) => Some((if before.0 < cost then cost else before.0, Min(before.1 + cost, U128_MAX)))
  }

  ghost function TourScore(links: LinkTable, n: nat, bytes: nat, ranks: seq<nat>, o: seq<nat>): Option<(nat, nat)>
    requires IsTour(|ranks|, o)
  {
    HopScore(links, n, bytes, ranks, o, |o|)
  }

  datatype Entry = Entry(maximum: nat, total: nat, order: seq<nat>)

  predicate EntryLess(a: Entry, b: Entry) {
    a.maximum < b.maximum || (a.maximum == b.maximum &&
      (a.total < b.total || (a.total == b.total && LexLess(a.order, b.order))))
  }

  predicate EntryLeq(a: Entry, b: Entry) { a == b || EntryLess(a, b) }

  lemma EntryTransitive(a: Entry, b: Entry, c: Entry)
    requires EntryLeq(a, b) && EntryLeq(b, c)
    ensures EntryLeq(a, c)
  {
    if EntryLess(a, b) && EntryLess(b, c) && LexLess(a.order, b.order) && LexLess(b.order, c.order) {
      LexTransitive(a.order, b.order, c.order);
    }
  }

  lemma EntryTotal(a: Entry, b: Entry)
    ensures EntryLeq(a, b) || EntryLeq(b, a)
  {
    LexTotal(a.order, b.order);
  }

  // e is a tour with its score.
  ghost predicate IsEntry(links: LinkTable, n: nat, bytes: nat, ranks: seq<nat>, e: Entry) {
    IsTour(|ranks|, e.order) && TourScore(links, n, bytes, ranks, e.order) == Some((e.maximum, e.total))
  }

  // `after` is `before` improved by every tour extending the prefix whose next index is below `bound`.
  ghost predicate Improves(links: LinkTable, n: nat, bytes: nat, ranks: seq<nat>, before: Option<Entry>, after: Option<Entry>,
                           prefix: seq<nat>, bound: nat)
  {
    && (after == before || (after.Some? && IsEntry(links, n, bytes, ranks, after.value)))
    && (before.Some? ==> after.Some? && EntryLeq(after.value, before.value))
    && (forall e | IsEntry(links, n, bytes, ranks, e) && prefix <= e.order && (|prefix| < |ranks| ==> e.order[|prefix|] < bound) ::
         after.Some? && EntryLeq(after.value, e))
  }

  lemma ImproveNothing(links: LinkTable, n: nat, bytes: nat, ranks: seq<nat>, before: Option<Entry>, prefix: seq<nat>)
    requires 0 < |prefix| < |ranks| && prefix[0] == 0
    ensures Improves(links, n, bytes, ranks, before, before, prefix, 1)
  {
    forall e | IsEntry(links, n, bytes, ranks, e) && prefix <= e.order ensures e.order[|prefix|] != 0 { }
  }

  lemma ImproveSkip(links: LinkTable, n: nat, bytes: nat, ranks: seq<nat>, before: Option<Entry>, after: Option<Entry>,
                    prefix: seq<nat>, c: nat)
    requires |prefix| < |ranks| && c in prefix && Improves(links, n, bytes, ranks, before, after, prefix, c)
    ensures Improves(links, n, bytes, ranks, before, after, prefix, c + 1)
  {
    forall e | IsEntry(links, n, bytes, ranks, e) && prefix <= e.order ensures e.order[|prefix|] != c {
      var i :| 0 <= i < |prefix| && prefix[i] == c;
      assert e.order[i] == c;
    }
  }

  lemma ImproveTake(links: LinkTable, n: nat, bytes: nat, ranks: seq<nat>, before: Option<Entry>, middle: Option<Entry>,
                    after: Option<Entry>, prefix: seq<nat>, c: nat)
    requires |prefix| < |ranks|
    requires Improves(links, n, bytes, ranks, before, middle, prefix, c)
    requires Improves(links, n, bytes, ranks, middle, after, prefix + [c], |ranks|)
    ensures Improves(links, n, bytes, ranks, before, after, prefix, c + 1)
  {
    if before.Some? { EntryTransitive(after.value, middle.value, before.value); }
    forall e | IsEntry(links, n, bytes, ranks, e) && prefix <= e.order && e.order[|prefix|] < c + 1
      ensures after.Some? && EntryLeq(after.value, e)
    {
      if e.order[|prefix|] == c {
        PrefixWithNext(prefix, c, e.order);
      } else {
        EntryTransitive(after.value, middle.value, e);
      }
    }
  }

  // A full-length prefix has one extension: itself.
  lemma ImproveFull(links: LinkTable, n: nat, bytes: nat, ranks: seq<nat>, before: Option<Entry>, after: Option<Entry>, order: seq<nat>)
    requires IsTour(|ranks|, order)
    requires match TourScore(links, n, bytes, ranks, order)
      case None => after == before
      case Some(score) =>
        var e := Entry(score.0, score.1, order);
        after == if before.None? || EntryLess(e, before.value) then Some(e) else before
    ensures Improves(links, n, bytes, ranks, before, after, order, |ranks|)
  {
    forall e | IsEntry(links, n, bytes, ranks, e) && order <= e.order ensures after.Some? && EntryLeq(after.value, e) {
      assert e.order[..|ranks|] == e.order == order;
      if before.Some? { EntryTotal(before.value, e); }
    }
  }

  // ---- the exhaustive search ---------------------------------------------------------------------

  method HopCost(topology: CollectiveTopology, bytes: nat, source: nat, destination: nat) returns (cost: Option<nat>)
    requires topology.Valid() && source < topology.worldSize && destination < topology.worldSize
    ensures cost == CostBetween(topology.links, topology.worldSize, bytes, source, destination)
  {
    cost := topology.ShortestTransferTimeForRail(source, destination, bytes, None);
    AnswersUnique(PlainEdge(topology.links, bytes), AllPermitted(topology.worldSize), source, destination, cost,
                  CostBetween(topology.links, topology.worldSize, bytes, source, destination));
  }

  // Folds the hop leaving `position` into the slowest hop and the total cost so far.
  method AddHop(topology: CollectiveTopology, bytes: nat, ranks: seq<nat>, order: seq<nat>, position: nat, before: (nat, nat))
    returns (after: Option<(nat, nat)>)
    requires topology.Valid() && AreRanks(topology.worldSize, ranks) && IsTour(|ranks|, order) && position < |order|
    requires HopScore(topology.links, topology.worldSize, bytes, ranks, order, position) == Some(before)
    ensures after == HopScore(topology.links, topology.worldSize, bytes, ranks, order, position + 1)
  {
    var cost := HopCost(topology, bytes, ranks[order[position]], ranks[order[Successor(|order|, position)]]);
    if cost.None? { return None; }
    var maximum := if before.0 < cost.value then cost.value else before.0;
    after := Some((maximum, Min(before.1 + cost.value, U128_MAX)));
  }

  method ScoreTour(topology: CollectiveTopology, bytes: nat, ranks: seq<nat>, order: seq<nat>) returns (score: Option<(nat, nat)>)
    requires topology.Valid() && AreRanks(topology.worldSize, ranks) && IsTour(|ranks|, order)
    ensures score == TourScore(topology.links, topology.worldSize, bytes, ranks, order)
  {
    score := Some((0, 0));
    for position := 0 to |order|
      invariant score.Some? && HopScore(topology.links, topology.worldSize, bytes, ranks, order, position) == score
    {
      score := AddHop(topology, bytes, ranks, order, position, score.value);
      if score.None? {
        ImpossibleHop(topology.links, topology.worldSize, bytes, ranks, order, position + 1, |order|);
        return;
      }
    }
  }

  lemma {:induction false} ImpossibleHop(links: LinkTable, n: nat, bytes: nat, ranks: seq<nat>, o: seq<nat>, j: nat, k: nat)
    requires IsTour(|ranks|, o) && j <= k <= |o| && HopScore(links, n, bytes, ranks, o, j).None?
    ensures HopScore(links, n, bytes, ranks, o, k).None?
  {
    if j < k { ImpossibleHop(links, n, bytes, ranks, o, j, k - 1); }
  }

  class RankCycleSearch {
    const topology: CollectiveTopology
    const ranks: seq<nat>
    const bytes: nat
    var order: seq<nat>
    var used: seq<bool>
    var best: Option<Entry>

    ghost predicate Valid()
      reads this, topology
    {
      && topology.Valid() && AreRanks(topology.worldSize, ranks)
      && 0 < |order| <= |ranks| && order[0] == 0
      && (forall i | 0 <= i < |order| :: order[i] < |ranks|)
      && (forall i, j | 0 <= i < j < |order| :: order[i] != order[j])
      && |used| == |ranks| && forall i | 0 <= i < |ranks| :: used[i] <==> i in order
    }

    constructor (topology: CollectiveTopology, ranks: seq<nat>, bytes: nat)
      requires topology.Valid() && AreRanks(topology.worldSize, ranks) && |ranks| > 0
      ensures Valid() && this.topology == topology && this.ranks == ranks && this.bytes == bytes
      ensures order == [0] && best == None
    {
      this.topology := topology;
      this.ranks := ranks;
      this.bytes := bytes;
      this.order := [0];
      this.used := seq(|ranks|, i => i == 0);
      this.best := None;
    }

    // A complete order replaces the best one if it scores less.
    method ScoreOrder()
      requires Valid() && |order| == |ranks|
      modifies this`best
      ensures Improves(topology.links, topology.worldSize, bytes, ranks, old(best), best, order, |ranks|)
    {
      ghost var before := best;
      var score := ScoreTour(topology, bytes, ranks, order);
      if score.Some? {
        var entry := Entry(score.value.0, score.value.1, order);
        if best.None? || EntryLess(entry, best.value) { best := Some(entry); }
      }
      ImproveFull(topology.links, topology.worldSize, bytes, ranks, before, best, order);
    }

    method Collect()
      requires Valid()
      modifies this`order, this`used, this`best
      ensures order == old(order) && used == old(used)
      ensures Improves(topology.links, topology.worldSize, bytes, ranks, old(best), best, order, |ranks|)
      decreases |ranks| - |order|
    {
      ghost var links, n, before := topology.links, topology.worldSize, best;
      if |order| == |ranks| {
        ScoreOrder();
        return;
      }
      ImproveNothing(links, n, bytes, ranks, before, order);
      for candidate := 1 to |ranks|
        invariant order == old(order) && used == old(used)
        invariant Improves(links, n, bytes, ranks, before, best, order, candidate)
      {
        if used[candidate] {
          ImproveSkip(links, n, bytes, ranks, before, best, order, candidate);
          continue;
        }
        ghost var middle := best;
        used := used[candidate := true];
        order := order + [candidate];
        Collect();
        ImproveTake(links, n, bytes, ranks, before, middle, best, old(order), candidate);
        order := order[..|order| - 1];
        used := used[candidate := false];
      }
    }
  }

  // ---- best_rank_cycle_order ---------------------------------------------------------------------

  ghost predicate IsLeastEntry(links: LinkTable, n: nat, bytes: nat, ranks: seq<nat>, e: Entry) {
    IsEntry(links, n, bytes, ranks, e) &&
    forall other :: IsEntry(links, n, bytes, ranks, other) ==> EntryLeq(e, other)
  }

  // The tour of least (largest hop, total, order), if any tour is possible at all.
  ghost predicate IsBestTour(links: LinkTable, n: nat, bytes: nat, ranks: seq<nat>, order: Option<seq<nat>>) {
    match order
    case None => forall e :: !IsEntry(links, n, bytes, ranks, e)
    case Some(o) => exists e :: IsLeastEntry(links, n, bytes, ranks, e) && e.order == o
  }

  method BestRankCycleOrder(topology: CollectiveTopology, ranks: seq<nat>, bytes: nat) returns (order: Option<seq<nat>>)
    requires topology.Valid() && AreRanks(topology.worldSize, ranks)
    ensures order.Some? ==> IsTour(|ranks|, order.value)
    ensures ranks == [] ==> order.None?
    ensures |ranks| == 1 ==> order == Some([0])
    ensures 1 < |ranks| <= EXACT_RING_SEARCH_MAX_RANKS ==>
      IsBestTour(topology.links, topology.worldSize, bytes, ranks, order)
    ensures |ranks| > EXACT_RING_SEARCH_MAX_RANKS ==>
      IsNearestTour(topology.links, topology.worldSize, bytes, ranks, order)
  {
    if ranks == [] { return None; }
    if |ranks| == 1 { return Some([0]); }
    if |ranks| > EXACT_RING_SEARCH_MAX_RANKS {
      order := NearestNeighbourTour(topology, ranks, bytes);
      return;
    }
    var search := new RankCycleSearch(topology, ranks, bytes);
    search.Collect();
    FirstIndexIsZero(topology.links, topology.worldSize, bytes, ranks, search.best);
    order := if search.best.None? then None else Some(search.best.value.order);
  }

  lemma FirstIndexIsZero(links: LinkTable, n: nat, bytes: nat, ranks: seq<nat>, best: Option<Entry>)
    requires |ranks| > 1 && Improves(links, n, bytes, ranks, None, best, [0], |ranks|)
    ensures IsBestTour(links, n, bytes, ranks, if best.None? then None else Some(best.value.order))
    ensures best.Some? ==> IsTour(|ranks|, best.value.order)
  {
    forall e | IsEntry(links, n, bytes, ranks, e) ensures best.Some? && EntryLeq(best.value, e) {
      assert [0] <= e.order;
    }
    if best.Some? { assert IsLeastEntry(links, n, bytes, ranks, best.value); }
  }

  // The closest index that is not on the path, ties to the lower rank and then to the lower index.
  ghost predicate IsNearestNext(links: LinkTable, n: nat, bytes: nat, ranks: seq<nat>, path: seq<nat>, next: nat)
    requires AreRanks(n, ranks) && path != [] && path[|path| - 1] < |ranks|
  {
    var last := ranks[path[|path| - 1]];
    && next < |ranks| && next !in path && CostBetween(links, n, bytes, last, ranks[next]).Some?
    && forall j: nat | j < |ranks| && j !in path && CostBetween(links, n, bytes, last, ranks[j]).Some? ::
         NoCloser(CostBetween(links, n, bytes, last, ranks[j]).value, ranks[j], j, CostBetween(links, n, bytes, last, ranks[next]).value, ranks[next], next)
  }

  // (cost, rank, index) is not before (leastCost, leastRank, leastIndex).
  predicate NoCloser(cost: nat, rank: nat, index: nat, leastCost: nat, leastRank: nat, leastIndex: nat) {
    leastCost < cost || (leastCost == cost && (leastRank < rank || (leastRank == rank && leastIndex <= index)))
  }

  ghost predicate IsNearestPath(links: LinkTable, n: nat, bytes: nat, ranks: seq<nat>, path: seq<nat>)
    requires AreRanks(n, ranks)
  {
    && path != [] && path[0] == 0 && (forall i | 0 <= i < |path| :: path[i] < |ranks|)
    && forall k | 0 < k < |path| :: StepIsNearest(links, n, bytes, ranks, path, k)
  }

  ghost predicate StepIsNearest(links: LinkTable, n: nat, bytes: nat, ranks: seq<nat>, path: seq<nat>, k: nat)
    requires AreRanks(n, ranks) && 0 < k < |path| && path[k - 1] < |ranks|
  {
    IsNearestNext(links, n, bytes, ranks, path[..k], path[k])
  }

  // Where the walk ends without a tour: no index left that can be reached, or no way back.
  ghost predicate IsDeadEnd(links: LinkTable, n: nat, bytes: nat, ranks: seq<nat>, path: seq<nat>)
    requires AreRanks(n, ranks) && path != [] && forall i | 0 <= i < |path| :: path[i] < |ranks|
  {
    var last := ranks[path[|path| - 1]];
    if |path| < |ranks| then forall j: nat | j < |ranks| && j !in path :: CostBetween(links, n, bytes, last, ranks[j]).None?
    else CostBetween(links, n, bytes, last, ranks[path[0]]).None?
  }

  ghost predicate IsNearestTour(links: LinkTable, n: nat, bytes: nat, ranks: seq<nat>, order: Option<seq<nat>>)
    requires AreRanks(n, ranks)
  {
    match order
    case Some(o) => IsTour(|ranks|, o) && IsNearestPath(links, n, bytes, ranks, o) && !IsDeadEnd(links, n, bytes, ranks, o)
    case None => exists path :: IsNearestPath(links, n, bytes, ranks, path) && |path| <= |ranks| && IsDeadEnd(links, n, bytes, ranks, path)
  }

  lemma NearestNextUnique(links: LinkTable, n: nat, bytes: nat, ranks: seq<nat>, path: seq<nat>, a: nat, b: nat)
    requires AreRanks(n, ranks) && path != [] && path[|path| - 1] < |ranks|
    requires IsNearestNext(links, n, bytes, ranks, path, a) && IsNearestNext(links, n, bytes, ranks, path, b)
    ensures a == b
  {
  }

  lemma SameToo(a: seq<nat>, b: seq<nat>, k: nat)
    requires 0 < k <= |a| && k <= |b| && a[..k - 1] == b[..k - 1] && a[k - 1] == b[k - 1]
    ensures a[..k] == b[..k]
  {
    assert a[..k] == a[..k - 1] + [a[k - 1]] && b[..k] == b[..k - 1] + [b[k - 1]];
  }

  // Two nearest paths agree as far as both go, so the walk has one outcome.
  lemma {:induction false} NearestPathsAgree(links: LinkTable, n: nat, bytes: nat, ranks: seq<nat>, a: seq<nat>, b: seq<nat>, k: nat)
    requires AreRanks(n, ranks) && IsNearestPath(links, n, bytes, ranks, a) && IsNearestPath(links, n, bytes, ranks, b) && k <= |a| && k <= |b|
    ensures a[..k] == b[..k]
  {
    if k <= 1 {
      if k == 1 { SameToo(a, b, 1); }
    } else {
      NearestPathsAgree(links, n, bytes, ranks, a, b, k - 1);
      assert StepIsNearest(links, n, bytes, ranks, a, k - 1) && StepIsNearest(links, n, bytes, ranks, b, k - 1);
      NearestNextUnique(links, n, bytes, ranks, a[..k - 1], a[k - 1], b[k - 1]);
      SameToo(a, b, k);
    }
  }

  lemma StepStays(links: LinkTable, n: nat, bytes: nat, ranks: seq<nat>, path: seq<nat>, longer: seq<nat>, k: nat)
    requires AreRanks(n, ranks) && 0 < k < |path| && path[k - 1] < |ranks| && path <= longer && StepIsNearest(links, n, bytes, ranks, path, k)
    ensures StepIsNearest(links, n, bytes, ranks, longer, k)
  {
    assert longer[..k] == path[..k];
  }

  lemma ExtendNearestPath(links: LinkTable, n: nat, bytes: nat, ranks: seq<nat>, path: seq<nat>, next: nat, longer: seq<nat>)
    requires AreRanks(n, ranks) && IsNearestPath(links, n, bytes, ranks, path) && IsNearestNext(links, n, bytes, ranks, path, next)
    requires longer == path + [next]
    ensures IsNearestPath(links, n, bytes, ranks, longer)
  {
    forall k | 0 < k < |longer| ensures StepIsNearest(links, n, bytes, ranks, longer, k) {
      if k < |path| {
        StepStays(links, n, bytes, ranks, path, longer, k);
      } else {
        assert longer[..k] == path;
      }
    }
  }

  method NearestNeighbourTour(topology: CollectiveTopology, ranks: seq<nat>, bytes: nat) returns (order: Option<seq<nat>>)
    requires topology.Valid() && AreRanks(topology.worldSize, ranks) && |ranks| > 0
    ensures IsNearestTour(topology.links, topology.worldSize, bytes, ranks, order)
  {
    var path: seq<nat> := [0];
    var used := seq(|ranks|, i => i == 0);
    while |path| < |ranks|
      invariant |path| <= |ranks| && IsNearestPath(topology.links, topology.worldSize, bytes, ranks, path)
      invariant |used| == |ranks| && forall i | 0 <= i < |ranks| :: used[i] <==> i in path
      invariant forall i, j | 0 <= i < j < |path| :: path[i] != path[j]
    {
      var next := NearestUnused(topology, ranks, bytes, path, path[|path| - 1], used);
      if next.None? {
        assert IsDeadEnd(topology.links, topology.worldSize, bytes, ranks, path);
        return None;
      }
      ExtendNearestPath(topology.links, topology.worldSize, bytes, ranks, path, next.value, path + [next.value]);
      used := used[next.value := true];
      path := path + [next.value];
    }
    var closing := HopCost(topology, bytes, ranks[path[|path| - 1]], ranks[path[0]]);
    order := if closing.None? then None else Some(path);
  }

  method NearestUnused(topology: CollectiveTopology, ranks: seq<nat>, bytes: nat, ghost path: seq<nat>, current: nat, used: seq<bool>)
    returns (next: Option<nat>)
    requires topology.Valid() && AreRanks(topology.worldSize, ranks) && |used| == |ranks| && path != [] && path[|path| - 1] == current < |ranks|
    requires forall i | 0 <= i < |ranks| :: used[i] <==> i in path
    ensures next.Some? ==> IsNearestNext(topology.links, topology.worldSize, bytes, ranks, path, next.value)
    ensures next.None? ==>
      forall j: nat | j < |ranks| && j !in path :: CostBetween(topology.links, topology.worldSize, bytes, ranks[current], ranks[j]).None?
  {
    next := None;
    var bestCost := 0;
    for candidate := 0 to |ranks|
      invariant NearestBelow(topology.links, topology.worldSize, bytes, ranks, path, candidate, next, bestCost)
    {
      if used[candidate] { continue; }
      var cost := HopCost(topology, bytes, ranks[current], ranks[candidate]);
      if cost.Some? && (next.None? || cost.value < bestCost || (cost.value == bestCost && ranks[candidate] < ranks[next.value])) {
        next := Some(candidate);
        bestCost := cost.value;
      }
    }
  }

  // The nearest of the indices below `bound` that are not on the path.
  ghost predicate NearestBelow(links: LinkTable, n: nat, bytes: nat, ranks: seq<nat>, path: seq<nat>, bound: nat, next: Option<nat>, least: nat)
    requires AreRanks(n, ranks) && path != [] && path[|path| - 1] < |ranks| && bound <= |ranks|
  {
    var last := ranks[path[|path| - 1]];
    match next
    case None => forall j | 0 <= j < bound && j !in path :: CostBetween(links, n, bytes, last, ranks[j]).None?
    case Some(k) =>
      && k < bound && k !in path && CostBetween(links, n, bytes, last, ranks[k]) == Some(least)
      && forall j | 0 <= j < bound && j !in path && CostBetween(links, n, bytes, last, ranks[j]).Some? ::
           NoCloser(CostBetween(links, n, bytes, last, ranks[j]).value, ranks[j], j, least, ranks[k], k)
  }
}
