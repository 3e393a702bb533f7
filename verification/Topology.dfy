// src/rank/topology.rs: the link tables and the planner's cost queries.
module Topology {
  import opened Wrappers
  import opened Numbers
  import opened ShortestPath
  import Bytes

  const MAX_P2P_RAILS: nat := 64

  datatype LinkCost = LinkCost(bandwidthMbps: Bytes.U64, latencyNs: Bytes.U64)

  datatype TopologyError = EmptyWorld | RankOutOfRange(rank: nat) | SelfLink(rank: nat) | ZeroBandwidth | InvalidP2pRails

  type LinkTable = seq<seq<Option<LinkCost>>>

  // A square, symmetric table without self links; every bandwidth is positive.
  ghost predicate IsTable(links: LinkTable, n: nat) {
    && |links| == n
    && (forall i | 0 <= i < n :: |links[i]| == n)
    && (forall i, j | 0 <= i < n && 0 <= j < n :: links[i][j] == links[j][i])
    && (forall i | 0 <= i < n :: links[i][i].None?)
    && (forall i, j | 0 <= i < n && 0 <= j < n :: links[i][j].Some? ==> links[i][j].value.bandwidthMbps > 0)
  }

  function EmptyTable(n: nat): (links: LinkTable)
    ensures IsTable(links, n)
  {
    seq(n, i => seq(n, j => None))
  }

  // Every entry of the updated table.
  ghost predicate SetBoth(before: LinkTable, after: LinkTable, n: nat, first: nat, second: nat, cost: LinkCost)
    requires IsTable(before, n)
  {
    IsTable(after, n) && forall i, j | 0 <= i < n && 0 <= j < n ::
      after[i][j] == if (i == first && j == second) || (i == second && j == first) then Some(cost) else before[i][j]
  }

  method WriteBoth(before: LinkTable, n: nat, first: nat, second: nat, cost: LinkCost) returns (after: LinkTable)
    requires IsTable(before, n) && first < n && second < n && first != second && cost.bandwidthMbps > 0
    ensures SetBoth(before, after, n, first, second, cost)
  {
    after := before[first := before[first][second := Some(cost)]];
    after := after[second := after[second][first := Some(cost)]];
  }

  // ---- link times --------------------------------------------------------------------------------

  function TransferTimeU128(bytes: nat, bandwidthMbps: nat): nat
    requires bandwidthMbps > 0
  {
    var numerator := Min(bytes * 1000, U128_MAX);
    Min(numerator + (bandwidthMbps - 1), U128_MAX) / bandwidthMbps
  }

  function TransferTime(bytes: nat, bandwidthMbps: nat): (t: nat)
    requires bandwidthMbps > 0
    ensures t <= U64_MAX
  {
    Min(TransferTimeU128(bytes, bandwidthMbps), U64_MAX)
  }

  function LinkTime(link: LinkCost, bytes: nat): (t: nat)
    requires link.bandwidthMbps > 0
    ensures t <= U64_MAX
  {
    SaturatingAdd(link.latencyNs, TransferTime(bytes, link.bandwidthMbps))
  }

  // A rail's own link where it has one, the plain link otherwise.
  function LinkOnRail(links: LinkTable, railLinks: seq<LinkTable>, rail: nat, i: nat, j: nat): Option<LinkCost>
    requires i < |links| && j < |links[i]|
    requires forall r | 0 <= r < |railLinks| :: i < |railLinks[r]| && j < |railLinks[r][i]|
  {
    if rail < |railLinks| && railLinks[rail][i][j].Some? then railLinks[rail][i][j] else links[i][j]
  }

  function CostOf(link: Option<LinkCost>, bytes: nat): Option<nat> {
    match link
    case None => None
    case Some(l) => if l.bandwidthMbps == 0 then None else Some(LinkTime(l, bytes))
  }

  function PlainEdge(links: LinkTable, bytes: nat): Edge {
    (i: nat, j: nat) => if i < |links| && j < |links[i]| then CostOf(links[i][j], bytes) else None
  }

  ghost predicate AreTables(railLinks: seq<LinkTable>, n: nat) {
    forall r | 0 <= r < |railLinks| :: IsTable(railLinks[r], n)
  }

  function RailEdge(links: LinkTable, railLinks: seq<LinkTable>, rail: Option<nat>, bytes: nat): Edge
    requires IsTable(links, |links|) && AreTables(railLinks, |links|)
  {
    match rail
    case None => PlainEdge(links, bytes)
    case Some(r) =>
      (i: nat, j: nat) requires IsTable(links, |links|) && AreTables(railLinks, |links|) =>
        if i < |links| && j < |links| then CostOf(LinkOnRail(links, railLinks, r, i, j), bytes) else None
  }

  // ---- the topology object -----------------------------------------------------------------------

  function AllPermitted(n: nat): seq<bool> { seq(n, _ => true) }

  function Permit(n: nat, allowed: seq<nat>): seq<bool> { seq(n, i => i in allowed) }

  lemma {:induction false} PermitCount(n: nat, allowed: seq<nat>)
    ensures |Marked(Permit(n, allowed))| <= |allowed|
  {
    if allowed == [] {
      assert Marked(Permit(n, allowed)) == {};
    } else {
      var front, last := allowed[..|allowed| - 1], allowed[|allowed| - 1];
      PermitCount(n, front);
      assert allowed == front + [last];
      var small := Marked(Permit(n, front));
      assert Marked(Permit(n, allowed)) <= small + {last};
      SubsetSize(Marked(Permit(n, allowed)), small + {last});
    }
  }

  lemma {:induction false} AllPermittedCount(n: nat)
    ensures |Marked(AllPermitted(n))| == n
  {
    if n == 0 {
      assert Marked(AllPermitted(0)) == {};
    } else {
      AllPermittedCount(n - 1);
      assert Marked(AllPermitted(n)) == Marked(AllPermitted(n - 1)) + {n - 1};
    }
  }

  class CollectiveTopology {
    const worldSize: nat
    var links: LinkTable
    var railLinks: seq<LinkTable>

    ghost predicate Valid()
      reads this
    {
      worldSize > 0 && IsTable(links, worldSize) && AreTables(railLinks, worldSize)
    }

    constructor (worldSize: nat)
      requires worldSize > 0
      ensures Valid() && this.worldSize == worldSize && links == EmptyTable(worldSize) && railLinks == []
    {
      this.worldSize := worldSize;
      this.links := EmptyTable(worldSize);
      this.railLinks := [];
    }

    static method Empty(worldSize: nat) returns (topology: Result<CollectiveTopology, TopologyError>)
      ensures worldSize == 0 ==> topology == Err(EmptyWorld)
      ensures worldSize > 0 ==> topology.Ok? && fresh(topology.value) && topology.value.Valid()
      ensures topology.Ok? ==> topology.value.worldSize == worldSize
      ensures topology.Ok? ==> topology.value.links == EmptyTable(worldSize) && topology.value.railLinks == []
    {
      if worldSize == 0 { return Err(EmptyWorld); }
      var t := new CollectiveTopology(worldSize);
      return Ok(t);
    }

    function CheckEnds(first: nat, second: nat, bandwidthMbps: nat): Result<(), TopologyError> {
      if first >= worldSize then Err(RankOutOfRange(first))
      else if second >= worldSize then Err(RankOutOfRange(second))
      else if first == second then Err(SelfLink(first))
      else if bandwidthMbps == 0 then Err(ZeroBandwidth)
      else Ok(())
    }

    // Two different ranks of the world and some bandwidth; otherwise the first of these that is amiss.
    lemma EndsAcceptedExactlyWhen(first: nat, second: nat, bandwidthMbps: nat)
      ensures var checked := CheckEnds(first, second, bandwidthMbps);
        && (checked.Ok? <==> first < worldSize && second < worldSize && first != second && bandwidthMbps > 0)
        && (worldSize <= first ==> checked == Err(RankOutOfRange(first)))
        && (first < worldSize <= second ==> checked == Err(RankOutOfRange(second)))
        && (first == second < worldSize ==> checked == Err(SelfLink(first)))
        && (first < worldSize && second < worldSize && first != second && bandwidthMbps == 0 ==> checked == Err(ZeroBandwidth))
    {
    }

    method AddLink(first: nat, second: nat, cost: LinkCost) returns (result: Result<(), TopologyError>)
      requires Valid()
      modifies this`links
      ensures Valid()
      ensures result == CheckEnds(first, second, cost.bandwidthMbps)
      ensures if result.Ok? then SetBoth(old(links), links, worldSize, first, second, cost) else links == old(links)
    {
      result := CheckEnds(first, second, cost.bandwidthMbps);
      if result.Ok? { links := WriteBoth(links, worldSize, first, second, cost); }
    }

    // Missing rails below the new one are created empty.
    method AddRailLink(rail: nat, first: nat, second: nat, cost: LinkCost) returns (result: Result<(), TopologyError>)
      requires Valid()
      modifies this`railLinks
      ensures Valid()
      ensures result == if rail + 1 > MAX_P2P_RAILS then Err(InvalidP2pRails) else CheckEnds(first, second, cost.bandwidthMbps)
      ensures result.Err? ==> railLinks == old(railLinks)
      ensures result.Ok? ==>
        && |railLinks| == (if |old(railLinks)| <= rail then rail + 1 else |old(railLinks)|)
        && (forall r | 0 <= r < |railLinks| && r != rail ::
             railLinks[r] == if r < |old(railLinks)| then old(railLinks)[r] else EmptyTable(worldSize))
        && SetBoth(if rail < |old(railLinks)| then old(railLinks)[rail] else EmptyTable(worldSize), railLinks[rail],
                   worldSize, first, second, cost)
    {
      if rail + 1 > MAX_P2P_RAILS { return Err(InvalidP2pRails); }
      result := CheckEnds(first, second, cost.bandwidthMbps);
      if result.Err? { return; }
      while |railLinks| <= rail
        invariant Valid()
        invariant |old(railLinks)| <= |railLinks|
        invariant |railLinks| <= rail + 1 || railLinks == old(railLinks)
        invariant forall r | 0 <= r < |railLinks| ::
          railLinks[r] == if r < |old(railLinks)| then old(railLinks)[r] else EmptyTable(worldSize)
        decreases rail + 1 - |railLinks|
      {
        railLinks := railLinks + [EmptyTable(worldSize)];
      }
      var table := WriteBoth(railLinks[rail], worldSize, first, second, cost);
      railLinks := railLinks[rail := table];
    }

    // Least transfer time over all routes, on one rail or on the plain links.
    method ShortestTransferTimeForRail(source: nat, destination: nat, bytes: nat, rail: Option<nat>) returns (time: Option<nat>)
      requires Valid() && source < worldSize && destination < worldSize
      ensures Answers(RailEdge(links, railLinks, rail, bytes), AllPermitted(worldSize), source, destination, time)
    {
      var edge := RailEdge(links, railLinks, rail, bytes);
      if source == destination {
        StayingIsFree(edge, AllPermitted(worldSize), source);
        return Some(0);
      }
      AllPermittedCount(worldSize);
      time := Search(edge, AllPermitted(worldSize), source, destination, worldSize);
    }

    // Least transfer time over routes that stay inside `allowed`. A rank always reaches itself, allowed or not.
    method ShortestTransferTimeWithin(source: nat, destination: nat, bytes: nat, allowed: seq<nat>) returns (time: Option<nat>)
      requires Valid() && source < worldSize && destination < worldSize
      requires forall i | 0 <= i < |allowed| :: allowed[i] < worldSize
      ensures source == destination ==> time == Some(0)
      ensures source != destination || source in allowed ==>
        Answers(PlainEdge(links, bytes), Permit(worldSize, allowed), source, destination, time)
    {
      if source == destination {
        if source in allowed { StayingIsFree(PlainEdge(links, bytes), Permit(worldSize, allowed), source); }
        return Some(0);
      }
      PermitCount(worldSize, allowed);
      time := Search(PlainEdge(links, bytes), Permit(worldSize, allowed), source, destination, |allowed|);
    }
  }

  lemma StayingIsFree(edge: Edge, permitted: seq<bool>, source: nat)
    requires source < |permitted| && permitted[source]
    ensures Answers(edge, permitted, source, source, Some(0))
  {
    assert IsPath(edge, permitted, [source], source, source) && Total(edge, [source]) == 0;
  }
}
