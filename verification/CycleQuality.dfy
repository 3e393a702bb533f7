// src/rank/topology.rs: what the planner's leader cycles, groups and leaders mean for the times that
// transfers take, without the scores it compares.
module CycleQuality {
  import opened Wrappers
  import opened Numbers
  import opened Lexicographic
  import opened ShortestPath
  import opened Topology
  import opened LinkCosts
  import opened RingSearch
  import opened RankCycles
  import opened Hierarchy
  import Quality = RingQuality
  import Transpose

  // The quickest transfer between two ranks over the plain links takes that long; None if there is none.
  ghost predicate Trip(links: LinkTable, bytes: nat, a: nat, b: nat, time: Option<nat>) {
    IsTable(links, |links|) && IsQuickest(links, [], None, bytes, None, a, b, time)
  }

  // The same over routes inside the group.
  ghost predicate InnerTrip(links: LinkTable, bytes: nat, group: seq<nat>, a: nat, b: nat, time: Option<nat>) {
    IsTable(links, |links|) && IsQuickest(links, [], None, bytes, Some(group), a, b, time)
  }

  lemma CostIsTrip(links: LinkTable, bytes: nat, a: nat, b: nat)
    requires IsTable(links, |links|) && bytes <= USIZE_MAX
    ensures Trip(links, bytes, a, b, CostBetween(links, |links|, bytes, a, b))
  {
    RailAnswersMean(links, [], None, bytes, a, b, CostBetween(links, |links|, bytes, a, b));
  }

  lemma InGroupCostIsTrip(links: LinkTable, bytes: nat, group: seq<nat>, a: nat, b: nat)
    requires IsTable(links, |links|) && bytes <= USIZE_MAX
    ensures InnerTrip(links, bytes, group, a, b, InGroupCost(links, |links|, bytes, group, a, b))
  {
    WithinAnswersMean(links, bytes, group, a, b, InGroupCost(links, |links|, bytes, group, a, b));
  }

  lemma OneQuickest(links: LinkTable, bytes: nat, allowed: Option<seq<nat>>, a: nat, b: nat, s: Option<nat>, t: Option<nat>)
    requires IsTable(links, |links|) && IsQuickest(links, [], None, bytes, allowed, a, b, s) && IsQuickest(links, [], None, bytes, allowed, a, b, t)
    ensures s == t
  {
    assert s.Some? ==> (if t.Some? then t.value else U64_MAX) <= s.value;
    assert t.Some? ==> (if s.Some? then s.value else U64_MAX) <= t.value;
  }

  // ---- cycles ------------------------------------------------------------------------------------

  // The time of every hop of a cycle over the ranks.
  ghost predicate HopsTake(links: LinkTable, bytes: nat, ranks: seq<nat>, o: seq<nat>, times: seq<nat>) {
    IsTour(|ranks|, o) && |times| == |ranks| &&
    forall i: nat | i < |ranks| :: HopTime(links, bytes, ranks, o, i, times[i])
  }

  ghost predicate HopTime(links: LinkTable, bytes: nat, ranks: seq<nat>, o: seq<nat>, i: nat, time: nat)
    requires IsTour(|ranks|, o) && i < |ranks|
  {
    Trip(links, bytes, ranks[o[i]], ranks[o[if i + 1 == |ranks| then 0 else i + 1]], Some(time))
  }

  lemma HopTimeIs(links: LinkTable, bytes: nat, ranks: seq<nat>, o: seq<nat>, i: nat, time: nat)
    requires IsTable(links, |links|) && bytes <= USIZE_MAX && IsTour(|ranks|, o) && i < |ranks|
    ensures HopTime(links, bytes, ranks, o, i, time) <==>
      CostBetween(links, |links|, bytes, ranks[o[i]], ranks[o[Successor(|o|, i)]]) == Some(time)
  {
    var a, b := ranks[o[i]], ranks[o[Successor(|o|, i)]];
    CostIsTrip(links, bytes, a, b);
    if HopTime(links, bytes, ranks, o, i, time) { OneQuickest(links, bytes, None, a, b, Some(time), CostBetween(links, |links|, bytes, a, b)); }
  }

  function Greatest(times: seq<nat>): nat {
    if times == [] then 0 else if Greatest(times[..|times| - 1]) < times[|times| - 1] then times[|times| - 1] else Greatest(times[..|times| - 1])
  }

  lemma {:induction false} GreatestIs(times: seq<nat>)
    ensures Quality.AllAtMost(times, Greatest(times)) && (times != [] ==> Greatest(times) in times)
  {
    if times != [] {
      GreatestIs(times[..|times| - 1]);
      assert times == times[..|times| - 1] + [times[|times| - 1]];
    }
  }

  lemma {:induction false} SumBelow(times: seq<nat>)
    requires forall i | 0 <= i < |times| :: times[i] <= U64_MAX
    ensures Transpose.Sum(times) <= |times| * U64_MAX
  {
    if times != [] { SumBelow(times[..|times| - 1]); }
  }

  // The costs the score is made of.
  ghost predicate Costs(links: LinkTable, bytes: nat, ranks: seq<nat>, o: seq<nat>, times: seq<nat>) {
    IsTour(|ranks|, o) && |times| <= |ranks| &&
    forall i: nat | i < |times| :: CostBetween(links, |links|, bytes, ranks[o[i]], ranks[o[Successor(|o|, i)]]) == Some(times[i])
  }

  lemma HopsAreCosts(links: LinkTable, bytes: nat, ranks: seq<nat>, o: seq<nat>, times: seq<nat>)
    requires IsTable(links, |links|) && bytes <= USIZE_MAX && IsTour(|ranks|, o) && |times| == |ranks|
    ensures HopsTake(links, bytes, ranks, o, times) <==> Costs(links, bytes, ranks, o, times)
  {
    forall i: nat | i < |ranks|
      ensures HopTime(links, bytes, ranks, o, i, times[i]) <==>
        CostBetween(links, |links|, bytes, ranks[o[i]], ranks[o[Successor(|o|, i)]]) == Some(times[i])
    {
      HopTimeIs(links, bytes, ranks, o, i, times[i]);
    }
  }

  lemma {:induction false} CostsScore(links: LinkTable, bytes: nat, ranks: seq<nat>, o: seq<nat>, times: seq<nat>, k: nat)
    requires Costs(links, bytes, ranks, o, times) && k <= |times|
    ensures HopScore(links, |links|, bytes, ranks, o, k) == Some((Greatest(times[..k]), Min(Transpose.Sum(times[..k]), U128_MAX)))
  {
    if k > 0 {
      CostsScore(links, bytes, ranks, o, times, k - 1);
      assert times[..k][..k - 1] == times[..k - 1];
    }
  }

  // A world of ranks is too small for the total of a cycle to saturate.
  lemma TourScoreIs(links: LinkTable, bytes: nat, ranks: seq<nat>, o: seq<nat>, times: seq<nat>)
    requires IsTable(links, |links|) && bytes <= USIZE_MAX && HopsTake(links, bytes, ranks, o, times) && |ranks| <= USIZE_MAX
    ensures TourScore(links, |links|, bytes, ranks, o) == Some((Greatest(times), Transpose.Sum(times)))
  {
    HopsAreCosts(links, bytes, ranks, o, times);
    CostsScore(links, bytes, ranks, o, times, |ranks|);
    assert times[..|ranks|] == times;
    forall i: nat | i < |times| ensures times[i] <= U64_MAX { assert HopTime(links, bytes, ranks, o, i, times[i]); }
    SumBelow(times);
    assert |times| * U64_MAX <= U64_MAX * U64_MAX;
  }

  lemma {:induction false} ScoredCosts(links: LinkTable, bytes: nat, ranks: seq<nat>, o: seq<nat>, k: nat) returns (times: seq<nat>)
    requires IsTour(|ranks|, o) && k <= |ranks| && HopScore(links, |links|, bytes, ranks, o, k).Some?
    ensures |times| == k && Costs(links, bytes, ranks, o, times)
  {
    times := [];
    if k > 0 {
      times := ScoredCosts(links, bytes, ranks, o, k - 1);
      times := times + [CostBetween(links, |links|, bytes, ranks[o[k - 1]], ranks[o[Successor(|o|, k - 1)]]).value];
    }
  }

  // The slowest hop decides, then the sum of the hops, then the lexicographic order.
  ghost predicate NoSlower(s: seq<nat>, t: seq<nat>, o: seq<nat>, p: seq<nat>) {
    Quality.NoFuller(s, t) && (Quality.NoFuller(t, s) ==>
      Transpose.Sum(s) <= Transpose.Sum(t) && (Transpose.Sum(s) == Transpose.Sum(t) ==> LexLeq(o, p)))
  }

  lemma EntriesDecide(s: seq<nat>, t: seq<nat>, o: seq<nat>, p: seq<nat>)
    requires s != [] && t != []
    ensures EntryLeq(Entry(Greatest(s), Transpose.Sum(s), o), Entry(Greatest(t), Transpose.Sum(t), p)) <==> NoSlower(s, t, o, p)
  {
    GreatestIs(s);
    GreatestIs(t);
    Quality.FullestDecides(s, t, Greatest(s), Greatest(t));
    Quality.FullestDecides(t, s, Greatest(t), Greatest(s));
  }

  ghost predicate NoneQuicker(links: LinkTable, bytes: nat, ranks: seq<nat>, o: seq<nat>, times: seq<nat>) {
    forall p, t | HopsTake(links, bytes, ranks, p, t) :: NoSlower(times, t, o, p)
  }

  // The chosen cycle can be travelled, and no cycle from the first rank is better.
  lemma BestTourMeans(links: LinkTable, bytes: nat, ranks: seq<nat>, o: seq<nat>) returns (times: seq<nat>)
    requires IsTable(links, |links|) && bytes <= USIZE_MAX && |ranks| <= USIZE_MAX
    requires IsBestTour(links, |links|, bytes, ranks, Some(o))
    ensures HopsTake(links, bytes, ranks, o, times) && NoneQuicker(links, bytes, ranks, o, times)
  {
    var e :| IsLeastEntry(links, |links|, bytes, ranks, e) && e.order == o;
    times := ScoredCosts(links, bytes, ranks, o, |ranks|);
    HopsAreCosts(links, bytes, ranks, o, times);
    TourScoreIs(links, bytes, ranks, o, times);
    forall p, t | HopsTake(links, bytes, ranks, p, t) ensures NoSlower(times, t, o, p) {
      TourScoreIs(links, bytes, ranks, p, t);
      assert IsEntry(links, |links|, bytes, ranks, Entry(Greatest(t), Transpose.Sum(t), p));
      EntriesDecide(times, t, o, p);
    }
  }

  // No cycle is chosen exactly when none can be travelled.
  lemma NoTourMeans(links: LinkTable, bytes: nat, ranks: seq<nat>, o: seq<nat>, times: seq<nat>)
    requires IsTable(links, |links|) && bytes <= USIZE_MAX && |ranks| <= USIZE_MAX && HopsTake(links, bytes, ranks, o, times)
    ensures !IsBestTour(links, |links|, bytes, ranks, None)
  {
    TourScoreIs(links, bytes, ranks, o, times);
    assert IsEntry(links, |links|, bytes, ranks, Entry(Greatest(times), Transpose.Sum(times), o));
  }

  // ---- the nearest-neighbour cycle ---------------------------------------------------------------

  // `next` is unvisited and quickest to reach; among those as quick it has the least rank, then the first place.
  ghost predicate Nearest(links: LinkTable, bytes: nat, ranks: seq<nat>, path: seq<nat>, next: nat)
    requires path != [] && path[|path| - 1] < |ranks|
  {
    next < |ranks| && next !in path && exists time :: NearestBy(links, bytes, ranks, path, next, time)
  }

  ghost predicate NearestBy(links: LinkTable, bytes: nat, ranks: seq<nat>, path: seq<nat>, next: nat, time: nat)
    requires path != [] && path[|path| - 1] < |ranks| && next < |ranks|
  {
    var last := ranks[path[|path| - 1]];
    && Trip(links, bytes, last, ranks[next], Some(time))
    && forall j: nat, t: nat | j < |ranks| && j !in path && Trip(links, bytes, last, ranks[j], Some(t)) ::
         time <= t && (time == t ==> ranks[next] <= ranks[j] && (ranks[next] == ranks[j] ==> next <= j))
  }

  lemma NearestMeans(links: LinkTable, bytes: nat, ranks: seq<nat>, path: seq<nat>, next: nat)
    requires IsTable(links, |links|) && bytes <= USIZE_MAX && AreRanks(|links|, ranks) && path != [] && path[|path| - 1] < |ranks|
    ensures IsNearestNext(links, |links|, bytes, ranks, path, next) ==> Nearest(links, bytes, ranks, path, next)
  {
    var last := ranks[path[|path| - 1]];
    if IsNearestNext(links, |links|, bytes, ranks, path, next) {
      CostIsTrip(links, bytes, last, ranks[next]);
      forall j: nat, t: nat | j < |ranks| && j !in path && Trip(links, bytes, last, ranks[j], Some(t))
        ensures CostBetween(links, |links|, bytes, last, ranks[j]) == Some(t)
      {
        CostIsTrip(links, bytes, last, ranks[j]);
        OneQuickest(links, bytes, None, last, ranks[j], Some(t), CostBetween(links, |links|, bytes, last, ranks[j]));
      }
      assert NearestBy(links, bytes, ranks, path, next, CostBetween(links, |links|, bytes, last, ranks[next]).value);
    }
  }

  // Above nine ranks: every hop goes to the nearest rank left, and the last rank reaches the first.
  lemma NearestTourMeans(links: LinkTable, bytes: nat, ranks: seq<nat>, o: seq<nat>, k: nat)
    requires IsTable(links, |links|) && bytes <= USIZE_MAX && AreRanks(|links|, ranks)
    requires IsNearestTour(links, |links|, bytes, ranks, Some(o)) && 0 < k <= |o|
    ensures IsTour(|ranks|, o)
    ensures k < |o| ==> Nearest(links, bytes, ranks, o[..k], o[k])
    ensures k == |o| ==> exists time :: Trip(links, bytes, ranks[o[k - 1]], ranks[0], Some(time))
  {
    if k < |o| {
      assert StepIsNearest(links, |links|, bytes, ranks, o, k);
      NearestMeans(links, bytes, ranks, o[..k], o[k]);
    } else {
      CostIsTrip(links, bytes, ranks[o[k - 1]], ranks[0]);
    }
  }

  // ---- groups ------------------------------------------------------------------------------------

  // A link from a to b that carries the bytes in at most `threshold` nanoseconds.
  ghost predicate FastLink(links: LinkTable, bytes: nat, threshold: nat, a: nat, b: nat) {
    a < |links| && b < |links[a]| && exists link: LinkCost, time: nat :: links[a][b] == Some(link) && Takes(link, bytes, time) && time <= threshold
  }

  ghost predicate FastChain(links: LinkTable, bytes: nat, threshold: nat, path: seq<nat>, a: nat, b: nat) {
    && |path| > 0 && path[0] == a && path[|path| - 1] == b
    && forall i, j | 0 <= i < |path| && j == i + 1 && j < |path| :: FastLink(links, bytes, threshold, path[i], path[j])
  }

  lemma FastMeans(links: LinkTable, bytes: nat, threshold: nat, a: nat, b: nat)
    requires IsTable(links, |links|) && bytes <= USIZE_MAX
    ensures Fast(links, bytes, threshold, a, b) <==> FastLink(links, bytes, threshold, a, b)
  {
    if a < |links| && b < |links[a]| && links[a][b].Some? {
      var link := links[a][b].value;
      LinkTimeMeans(link, bytes);
      if FastLink(links, bytes, threshold, a, b) {
        var time: nat :| Takes(link, bytes, time) && time <= threshold;
        TakesOneTime(link, bytes, time, LinkTime(link, bytes));
      }
    }
  }

  // Ranks share a group exactly when a chain of fast links joins them.
  lemma ConnectedMeans(links: LinkTable, bytes: nat, threshold: nat, a: nat, b: nat)
    requires IsTable(links, |links|) && bytes <= USIZE_MAX
    ensures Connected(links, bytes, threshold, a, b) <==> exists path :: FastChain(links, bytes, threshold, path, a, b)
  {
    forall x, y ensures Fast(links, bytes, threshold, x, y) <==> FastLink(links, bytes, threshold, x, y) { FastMeans(links, bytes, threshold, x, y); }
    if path :| IsFastPath(links, bytes, threshold, path, a, b) { assert FastChain(links, bytes, threshold, path, a, b); }
    if path :| FastChain(links, bytes, threshold, path, a, b) { assert IsFastPath(links, bytes, threshold, path, a, b); }
  }

  // The thresholds tried are the times of the links.
  lemma LinkTimesMean(links: LinkTable, bytes: nat, t: nat)
    requires IsTable(links, |links|) && bytes <= USIZE_MAX
    ensures IsLinkTime(links, |links|, bytes, t) <==>
      exists i: nat, j: nat, link :: i < j < |links| && links[i][j] == Some(link) && Takes(link, bytes, t)
  {
    if i, j :| 0 <= i < j < |links| && CostOf(links[i][j], bytes) == Some(t) { LinkTimeMeans(links[i][j].value, bytes); }
    if i: nat, j: nat, link :| i < j < |links| && links[i][j] == Some(link) && Takes(link, bytes, t) {
      LinkTimeMeans(link, bytes);
      TakesOneTime(link, bytes, t, LinkTime(link, bytes));
      assert CostOf(links[i][j], bytes) == Some(t);
    }
  }

  // ---- leaders -----------------------------------------------------------------------------------

  // The time from the candidate to every member, inside the group.
  ghost predicate Reaches(links: LinkTable, bytes: nat, group: seq<nat>, candidate: nat, times: seq<nat>) {
    |times| == |group| && forall i: nat | i < |group| :: InnerTrip(links, bytes, group, candidate, group[i], Some(times[i]))
  }

  function SumToU64(times: seq<nat>): nat {
    if Transpose.Sum(times) < 0x1_0000_0000_0000_0000 then Transpose.Sum(times) else 0xFFFF_FFFF_FFFF_FFFF
  }

  ghost predicate MemberCosts(links: LinkTable, bytes: nat, group: seq<nat>, candidate: nat, times: seq<nat>) {
    |times| <= |group| && forall i: nat | i < |times| :: InGroupCost(links, |links|, bytes, group, candidate, group[i]) == Some(times[i])
  }

  lemma ReachesIsCosts(links: LinkTable, bytes: nat, group: seq<nat>, candidate: nat, times: seq<nat>)
    requires IsTable(links, |links|) && bytes <= USIZE_MAX && |times| == |group|
    ensures Reaches(links, bytes, group, candidate, times) <==> MemberCosts(links, bytes, group, candidate, times)
  {
    forall i: nat | i < |group|
      ensures InnerTrip(links, bytes, group, candidate, group[i], Some(times[i])) <==>
        InGroupCost(links, |links|, bytes, group, candidate, group[i]) == Some(times[i])
    {
      InGroupCostIs(links, bytes, group, candidate, group[i], times[i]);
    }
  }

  lemma InGroupCostIs(links: LinkTable, bytes: nat, group: seq<nat>, a: nat, b: nat, time: nat)
    requires IsTable(links, |links|) && bytes <= USIZE_MAX
    ensures InnerTrip(links, bytes, group, a, b, Some(time)) <==> InGroupCost(links, |links|, bytes, group, a, b) == Some(time)
  {
    InGroupCostIsTrip(links, bytes, group, a, b);
    if InnerTrip(links, bytes, group, a, b, Some(time)) {
      OneQuickest(links, bytes, Some(group), a, b, Some(time), InGroupCost(links, |links|, bytes, group, a, b));
    }
  }

  lemma {:induction false} TotalSoFar(links: LinkTable, bytes: nat, group: seq<nat>, candidate: nat, times: seq<nat>, k: nat)
    requires MemberCosts(links, bytes, group, candidate, times) && k <= |times|
    ensures InGroupTotal(links, |links|, bytes, group, candidate, k) == Some(SumToU64(times[..k]))
  {
    if k > 0 {
      TotalSoFar(links, bytes, group, candidate, times, k - 1);
      assert times[..k][..k - 1] == times[..k - 1];
    }
  }

  lemma {:induction false} TotalledTimes(links: LinkTable, bytes: nat, group: seq<nat>, candidate: nat, k: nat) returns (times: seq<nat>)
    requires k <= |group| && InGroupTotal(links, |links|, bytes, group, candidate, k).Some?
    ensures |times| == k && MemberCosts(links, bytes, group, candidate, times)
  {
    times := [];
    if k > 0 {
      times := TotalledTimes(links, bytes, group, candidate, k - 1);
      times := times + [InGroupCost(links, |links|, bytes, group, candidate, group[k - 1]).value];
    }
  }

  lemma GroupTotalMeans(links: LinkTable, bytes: nat, group: seq<nat>, candidate: nat, times: seq<nat>)
    requires IsTable(links, |links|) && bytes <= USIZE_MAX && Reaches(links, bytes, group, candidate, times)
    ensures GroupTotal(links, |links|, bytes, group, candidate) == Some(SumToU64(times))
  {
    ReachesIsCosts(links, bytes, group, candidate, times);
    TotalSoFar(links, bytes, group, candidate, times, |group|);
    assert times[..|group|] == times;
  }

  // A leader reaches every member inside the group, and no member that does takes less in all; of those
  // that take as long it is the least rank.
  lemma LeaderMeans(links: LinkTable, bytes: nat, group: seq<nat>, leader: nat) returns (times: seq<nat>)
    requires IsTable(links, |links|) && bytes <= USIZE_MAX && IsLeader(links, |links|, bytes, group, leader)
    ensures leader in group && Reaches(links, bytes, group, leader, times)
    ensures forall c, t | c in group && Reaches(links, bytes, group, c, t) ::
      SumToU64(times) < SumToU64(t) || (SumToU64(times) == SumToU64(t) && leader <= c)
  {
    times := TotalledTimes(links, bytes, group, leader, |group|);
    ReachesIsCosts(links, bytes, group, leader, times);
    GroupTotalMeans(links, bytes, group, leader, times);
    forall c, t | c in group && Reaches(links, bytes, group, c, t)
      ensures SumToU64(times) < SumToU64(t) || (SumToU64(times) == SumToU64(t) && leader <= c)
    {
      GroupTotalMeans(links, bytes, group, c, t);
    }
  }

  // No leader is found exactly when no member reaches the others.
  lemma NoLeaderMeans(links: LinkTable, bytes: nat, group: seq<nat>)
    requires IsTable(links, |links|) && bytes <= USIZE_MAX
    ensures NoLeader(links, |links|, bytes, group) <==> forall c, t | c in group :: !Reaches(links, bytes, group, c, t)
  {
    if c, t :| c in group && Reaches(links, bytes, group, c, t) { GroupTotalMeans(links, bytes, group, c, t); }
    if c :| c in group && GroupTotal(links, |links|, bytes, group, c).Some? {
      var t := TotalledTimes(links, bytes, group, c, |group|);
      ReachesIsCosts(links, bytes, group, c, t);
      assert Reaches(links, bytes, group, c, t);
    }
  }
}
