// src/rank/topology.rs: what the planner's least times mean for the links a transfer crosses, in whole
// nanoseconds and without the machine arithmetic that computes them.
module LinkCosts {
  import opened Wrappers
  import opened Numbers
  import opened ShortestPath
  import opened Topology
  import Transpose

  // The first whole nanosecond by which a link of that bandwidth has carried all the bytes.
  ghost predicate IsTransferTime(t: nat, bytes: nat, bandwidthMbps: nat) {
    bytes * 1000 <= t * bandwidthMbps && forall s: nat | s < t :: s * bandwidthMbps < bytes * 1000
  }

  // The link's latency and its transfer time, as far as a u64 goes.
  ghost predicate Takes(link: LinkCost, bytes: nat, time: nat) {
    exists t :: IsTransferTime(t, bytes, link.bandwidthMbps)
             && time == if link.latencyNs + t < 0x1_0000_0000_0000_0000 then link.latencyNs + t else 0xFFFF_FFFF_FFFF_FFFF
  }

  lemma LessTimesWidth(s: nat, t: nat, width: nat)
    requires s <= t
    ensures s * width <= t * width
  {
  }

  lemma RoundedUp(numerator: nat, width: nat) returns (t: nat)
    requires width > 0
    ensures t == (numerator + (width - 1)) / width
    ensures numerator <= t * width && (t > 0 ==> (t - 1) * width < numerator)
  {
    t := (numerator + (width - 1)) / width;
    assert numerator + (width - 1) == t * width + (numerator + (width - 1)) % width;
    assert (t - 1) * width == t * width - width;
  }

  // A transfer of any size a usize can name never saturates the u128 arithmetic.
  lemma TransferTimeIs(bytes: nat, width: nat) returns (t: nat)
    requires bytes <= USIZE_MAX && 0 < width <= U64_MAX
    ensures IsTransferTime(t, bytes, width) && TransferTime(bytes, width) == Min(t, U64_MAX)
  {
    t := RoundedUp(bytes * 1000, width);
    forall s: nat | s < t ensures s * width < bytes * 1000 { LessTimesWidth(s, t - 1, width); }
  }

  lemma LinkTimeMeans(link: LinkCost, bytes: nat)
    requires bytes <= USIZE_MAX && link.bandwidthMbps > 0
    ensures Takes(link, bytes, LinkTime(link, bytes))
  {
    var t := TransferTimeIs(bytes, link.bandwidthMbps);
    assert IsTransferTime(t, bytes, link.bandwidthMbps);
  }

  lemma TakesOneTime(link: LinkCost, bytes: nat, a: nat, b: nat)
    requires Takes(link, bytes, a) && Takes(link, bytes, b)
    ensures a == b
  {
    var s :| IsTransferTime(s, bytes, link.bandwidthMbps)
          && a == if link.latencyNs + s < 0x1_0000_0000_0000_0000 then link.latencyNs + s else 0xFFFF_FFFF_FFFF_FFFF;
    var t :| IsTransferTime(t, bytes, link.bandwidthMbps)
          && b == if link.latencyNs + t < 0x1_0000_0000_0000_0000 then link.latencyNs + t else 0xFFFF_FFFF_FFFF_FFFF;
    assert !(s < t) && !(t < s);
  }

  // The link a transfer on a rail crosses: the rail's own where it has one, the plain one otherwise.
  ghost predicate Crosses(links: LinkTable, railLinks: seq<LinkTable>, rail: Option<nat>, i: nat, j: nat, link: LinkCost)
    requires IsTable(links, |links|) && AreTables(railLinks, |links|) && i < |links| && j < |links|
  {
    if rail.Some? && rail.value < |railLinks| && railLinks[rail.value][i][j].Some?
    then railLinks[rail.value][i][j] == Some(link) else links[i][j] == Some(link)
  }

  ghost predicate HopTakes(links: LinkTable, railLinks: seq<LinkTable>, rail: Option<nat>, bytes: nat, i: nat, j: nat, time: nat)
    requires IsTable(links, |links|) && AreTables(railLinks, |links|) && i < |links| && j < |links|
  {
    exists link :: Crosses(links, railLinks, rail, i, j, link) && Takes(link, bytes, time)
  }

  // The edge the search sees is there exactly when a link is, and weighs what it takes.
  lemma EdgeMeans(links: LinkTable, railLinks: seq<LinkTable>, rail: Option<nat>, bytes: nat, i: nat, j: nat, time: nat)
    requires IsTable(links, |links|) && AreTables(railLinks, |links|) && i < |links| && j < |links| && bytes <= USIZE_MAX
    ensures RailEdge(links, railLinks, rail, bytes)(i, j) == Some(time) <==> HopTakes(links, railLinks, rail, bytes, i, j, time)
  {
    var link := match rail { case None => links[i][j] case Some(r) => LinkOnRail(links, railLinks, r, i, j) };
    if link.Some? {
      LinkTimeMeans(link.value, bytes);
      assert Crosses(links, railLinks, rail, i, j, link.value);
      if HopTakes(links, railLinks, rail, bytes, i, j, time) { TakesOneTime(link.value, bytes, time, LinkTime(link.value, bytes)); }
    }
  }

  // ---- routes ------------------------------------------------------------------------------------

  // A walk over the allowed ranks, all of them unless some are named, with the time of every link on it.
  ghost predicate IsRoute(links: LinkTable, railLinks: seq<LinkTable>, rail: Option<nat>, bytes: nat, allowed: Option<seq<nat>>,
                          route: seq<nat>, times: seq<nat>, source: nat, destination: nat)
    requires IsTable(links, |links|) && AreTables(railLinks, |links|)
  {
    && |route| == |times| + 1 && route[0] == source && route[|times|] == destination
    && (forall i | 0 <= i < |route| :: route[i] < |links| && (allowed.Some? ==> route[i] in allowed.value))
    && (forall i | 0 <= i < |times| :: HopTakes(links, railLinks, rail, bytes, route[i], route[i + 1], times[i]))
  }

  // No route takes less than the answer and one takes as long; without an answer every route takes U64_MAX.
  ghost predicate IsQuickest(links: LinkTable, railLinks: seq<LinkTable>, rail: Option<nat>, bytes: nat, allowed: Option<seq<nat>>,
                             source: nat, destination: nat, answer: Option<nat>)
    requires IsTable(links, |links|) && AreTables(railLinks, |links|)
  {
    && (forall route, times | IsRoute(links, railLinks, rail, bytes, allowed, route, times, source, destination) ::
          (if answer.Some? then answer.value else U64_MAX) <= Transpose.Sum(times))
    && (answer.Some? ==> answer.value < U64_MAX && exists route, times ::
          IsRoute(links, railLinks, rail, bytes, allowed, route, times, source, destination) && Transpose.Sum(times) == answer.value)
  }

  ghost predicate Weighs(edge: Edge, route: seq<nat>, times: seq<nat>) {
    |route| == |times| + 1 && forall i, j | 0 <= i < |times| && j == i + 1 :: edge(route[i], route[j]) == Some(times[i])
  }

  lemma {:induction false} TotalIsSum(edge: Edge, route: seq<nat>, times: seq<nat>)
    requires Weighs(edge, route, times)
    ensures Total(edge, route) == Transpose.Sum(times)
  {
    if times != [] {
      var last := |times| - 1;
      TotalIsSum(edge, route[..last + 1], times[..last]);
    }
  }

  function Times(edge: Edge, route: seq<nat>): (times: seq<nat>)
    requires |route| > 0 && forall i, j | 0 <= i < |route| && j == i + 1 && j < |route| :: edge(route[i], route[j]).Some?
    ensures Weighs(edge, route, times)
  {
    seq(|route| - 1, i requires 0 <= i < |route| - 1 => var j := i + 1; edge(route[i], route[j]).value)
  }

  ghost predicate Stays(permitted: seq<bool>, route: seq<nat>) { forall i | 0 <= i < |route| :: route[i] < |permitted| && permitted[route[i]] }

  lemma WeighedIsPath(edge: Edge, permitted: seq<bool>, route: seq<nat>, times: seq<nat>)
    requires Weighs(edge, route, times) && Stays(permitted, route)
    ensures IsPath(edge, permitted, route, route[0], route[|times|]) && Total(edge, route) == Transpose.Sum(times)
  {
    TotalIsSum(edge, route, times);
  }

  lemma RouteWeighs(links: LinkTable, railLinks: seq<LinkTable>, rail: Option<nat>, bytes: nat, allowed: Option<seq<nat>>,
                    route: seq<nat>, times: seq<nat>, source: nat, destination: nat)
    requires IsTable(links, |links|) && AreTables(railLinks, |links|) && bytes <= USIZE_MAX
    requires IsRoute(links, railLinks, rail, bytes, allowed, route, times, source, destination)
    ensures Weighs(RailEdge(links, railLinks, rail, bytes), route, times)
  {
    forall i, j | 0 <= i < |times| && j == i + 1 ensures RailEdge(links, railLinks, rail, bytes)(route[i], route[j]) == Some(times[i]) {
      EdgeMeans(links, railLinks, rail, bytes, route[i], route[j], times[i]);
    }
  }

  lemma RouteIsPath(links: LinkTable, railLinks: seq<LinkTable>, rail: Option<nat>, bytes: nat, allowed: Option<seq<nat>>, permitted: seq<bool>,
                    route: seq<nat>, times: seq<nat>, source: nat, destination: nat)
    requires IsTable(links, |links|) && AreTables(railLinks, |links|) && bytes <= USIZE_MAX
    requires |permitted| == |links| && forall r | 0 <= r < |links| :: permitted[r] <==> (allowed.Some? ==> r in allowed.value)
    requires IsRoute(links, railLinks, rail, bytes, allowed, route, times, source, destination)
    ensures IsPath(RailEdge(links, railLinks, rail, bytes), permitted, route, source, destination)
    ensures Total(RailEdge(links, railLinks, rail, bytes), route) == Transpose.Sum(times)
  {
    assert Stays(permitted, route);
    RouteWeighs(links, railLinks, rail, bytes, allowed, route, times, source, destination);
    WeighedIsPath(RailEdge(links, railLinks, rail, bytes), permitted, route, times);
  }

  lemma PathIsRoute(links: LinkTable, railLinks: seq<LinkTable>, rail: Option<nat>, bytes: nat, allowed: Option<seq<nat>>, permitted: seq<bool>,
                    route: seq<nat>, source: nat, destination: nat) returns (times: seq<nat>)
    requires IsTable(links, |links|) && AreTables(railLinks, |links|) && bytes <= USIZE_MAX
    requires |permitted| == |links| && forall r | 0 <= r < |links| :: permitted[r] <==> (allowed.Some? ==> r in allowed.value)
    requires IsPath(RailEdge(links, railLinks, rail, bytes), permitted, route, source, destination)
    ensures IsRoute(links, railLinks, rail, bytes, allowed, route, times, source, destination)
    ensures Total(RailEdge(links, railLinks, rail, bytes), route) == Transpose.Sum(times)
  {
    var edge := RailEdge(links, railLinks, rail, bytes);
    times := Times(edge, route);
    TotalIsSum(edge, route, times);
    forall i | 0 <= i < |times| ensures HopTakes(links, railLinks, rail, bytes, route[i], route[i + 1], times[i]) {
      EdgeMeans(links, railLinks, rail, bytes, route[i], route[i + 1], times[i]);
    }
  }

  // The planner's answer is the quickest route's time.
  lemma AnswersMean(links: LinkTable, railLinks: seq<LinkTable>, rail: Option<nat>, bytes: nat, allowed: Option<seq<nat>>, permitted: seq<bool>,
                    source: nat, destination: nat, answer: Option<nat>)
    requires IsTable(links, |links|) && AreTables(railLinks, |links|) && bytes <= USIZE_MAX
    requires |permitted| == |links| && forall r | 0 <= r < |links| :: permitted[r] <==> (allowed.Some? ==> r in allowed.value)
    requires Answers(RailEdge(links, railLinks, rail, bytes), permitted, source, destination, answer)
    ensures IsQuickest(links, railLinks, rail, bytes, allowed, source, destination, answer)
  {
    var edge := RailEdge(links, railLinks, rail, bytes);
    forall route, times | IsRoute(links, railLinks, rail, bytes, allowed, route, times, source, destination)
      ensures (if answer.Some? then answer.value else U64_MAX) <= Transpose.Sum(times)
    {
      RouteIsPath(links, railLinks, rail, bytes, allowed, permitted, route, times, source, destination);
    }
    if answer.Some? {
      var route :| IsPath(edge, permitted, route, source, destination) && Total(edge, route) == answer.value;
      var times := PathIsRoute(links, railLinks, rail, bytes, allowed, permitted, route, source, destination);
    }
  }

  // On one rail, or on the plain links, over the whole world.
  lemma RailAnswersMean(links: LinkTable, railLinks: seq<LinkTable>, rail: Option<nat>, bytes: nat, source: nat, destination: nat, answer: Option<nat>)
    requires IsTable(links, |links|) && AreTables(railLinks, |links|) && bytes <= USIZE_MAX
    requires Answers(RailEdge(links, railLinks, rail, bytes), AllPermitted(|links|), source, destination, answer)
    ensures IsQuickest(links, railLinks, rail, bytes, None, source, destination, answer)
  {
    AnswersMean(links, railLinks, rail, bytes, None, AllPermitted(|links|), source, destination, answer);
  }

  // On the plain links, over the allowed ranks only.
  lemma WithinAnswersMean(links: LinkTable, bytes: nat, allowed: seq<nat>, source: nat, destination: nat, answer: Option<nat>)
    requires IsTable(links, |links|) && bytes <= USIZE_MAX
    requires Answers(PlainEdge(links, bytes), Permit(|links|, allowed), source, destination, answer)
    ensures IsQuickest(links, [], None, bytes, Some(allowed), source, destination, answer)
  {
    AnswersMean(links, [], None, bytes, Some(allowed), Permit(|links|, allowed), source, destination, answer);
  }
}
