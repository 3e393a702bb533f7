// src/rank/topology.rs: grouping ranks by fast links, choosing leaders, validating a hierarchy.
module Hierarchy {
  import opened Wrappers
  import opened Numbers
  import opened ShortestPath
  import opened Topology
  import opened RingSearch
  import opened RingSelection
  import opened RankCycles

  // ---- what a valid hierarchy is -----------------------------------------------------------------

  // Disjoint, non-empty groups that together hold every rank.
  ghost predicate IsCover(n: nat, groups: seq<seq<nat>>) {
    && (forall i | 0 <= i < |groups| :: groups[i] != [] && Distinct(groups[i]) && AreRanks(n, groups[i]))
    && (forall i, j, r | 0 <= i < j < |groups| && r in groups[i] :: r !in groups[j])
    && (forall r: nat | r < n :: InSome(groups, r))
  }

  ghost predicate InSome(groups: seq<seq<nat>>, r: nat) {
    exists i :: 0 <= i < |groups| && r in groups[i]
  }

  datatype HierarchyError = TooFewGroups | EmptyGroup(index: nat) | RankOutOfRange(rank: nat) | Repeated(rank: nat) | Missing

  // The seen flags after some groups: exactly the ranks met, none of them twice.
  ghost predicate SeenSoFar(n: nat, groups: seq<seq<nat>>, done: nat, seen: seq<bool>) {
    && |seen| == n && done <= |groups|
    && (forall i | 0 <= i < done :: groups[i] != [] && Distinct(groups[i]) && AreRanks(n, groups[i]))
    && (forall i, j, r | 0 <= i < j < done && r in groups[i] :: r !in groups[j])
    && (forall r: nat | r < n :: seen[r] <==> InSome(groups[..done], r))
  }

  method ValidateGroup(n: nat, group: seq<nat>, before: seq<bool>) returns (result: Result<seq<bool>, HierarchyError>)
    requires |before| == n
    ensures result.Ok? <==> AreRanks(n, group) && Distinct(group) && forall k | 0 <= k < |group| :: !before[group[k]]
    ensures result.Ok? ==> |result.value| == n && forall r | 0 <= r < n :: result.value[r] <==> before[r] || r in group
  {
    var seen := before;
    for k := 0 to |group|
      invariant |seen| == n && AreRanks(n, group[..k]) && Distinct(group[..k])
      invariant forall i | 0 <= i < k :: !before[group[i]]
      invariant forall r | 0 <= r < n :: seen[r] <==> before[r] || r in group[..k]
    {
      var rank := group[k];
      assert group[..k + 1] == group[..k] + [rank];
      if rank >= n { return Err(HierarchyError.RankOutOfRange(rank)); }
      if seen[rank] { return Err(Repeated(rank)); }
      seen := seen[rank := true];
    }
    assert group[..|group|] == group;
    return Ok(seen);
  }

  method ValidateHierarchyGroups(n: nat, groups: seq<seq<nat>>) returns (result: Result<(), HierarchyError>)
    ensures result.Ok? <==> |groups| >= 2 && IsCover(n, groups)
  {
    if |groups| < 2 { return Err(TooFewGroups); }
    var seen := seq(n, _ => false);
    for index := 0 to |groups|
      invariant SeenSoFar(n, groups, index, seen)
    {
      if groups[index] == [] { return Err(EmptyGroup(index)); }
      var next := ValidateGroup(n, groups[index], seen);
      if next.Err? {
        GroupRejected(n, groups, index, seen);
        return Err(next.error);
      }
      GroupAccepted(n, groups, index, seen, next.value);
      seen := next.value;
    }
    assert groups[..|groups|] == groups;
    if exists r :: 0 <= r < n && !seen[r] { return Err(Missing); }
    return Ok(());
  }

  lemma GroupAccepted(n: nat, groups: seq<seq<nat>>, index: nat, seen: seq<bool>, next: seq<bool>)
    requires index < |groups| && SeenSoFar(n, groups, index, seen) && groups[index] != []
    requires AreRanks(n, groups[index]) && Distinct(groups[index]) && forall k | 0 <= k < |groups[index]| :: !seen[groups[index][k]]
    requires |next| == n && forall r | 0 <= r < n :: next[r] <==> seen[r] || r in groups[index]
    ensures SeenSoFar(n, groups, index + 1, next)
  {
    forall r: nat ensures InSome(groups[..index + 1], r) <==> InSome(groups[..index], r) || r in groups[index] {
      SomePrefix(groups, index, r);
    }
    forall i, r | 0 <= i < index && r in groups[i] ensures r !in groups[index] {
      assert groups[..index][i] == groups[i];
      var k :| 0 <= k < |groups[i]| && groups[i][k] == r;
    }
  }

  lemma SomePrefix(groups: seq<seq<nat>>, index: nat, r: nat)
    requires index < |groups|
    ensures InSome(groups[..index + 1], r) <==> InSome(groups[..index], r) || r in groups[index]
  {
    if InSome(groups[..index + 1], r) {
      var i :| 0 <= i < index + 1 && r in groups[..index + 1][i];
      if i < index { assert r in groups[..index][i]; }
    }
    if InSome(groups[..index], r) {
      var i :| 0 <= i < index && r in groups[..index][i];
      assert r in groups[..index + 1][i];
    }
    if r in groups[index] { assert r in groups[..index + 1][index]; }
  }

  lemma GroupRejected(n: nat, groups: seq<seq<nat>>, index: nat, seen: seq<bool>)
    requires index < |groups| && SeenSoFar(n, groups, index, seen)
    requires !(AreRanks(n, groups[index]) && Distinct(groups[index]) && forall k | 0 <= k < |groups[index]| :: !seen[groups[index][k]])
    ensures !IsCover(n, groups)
  {
    if AreRanks(n, groups[index]) && Distinct(groups[index]) {
      var k :| 0 <= k < |groups[index]| && seen[groups[index][k]];
      var r := groups[index][k];
      var i :| 0 <= i < index && r in groups[..index][i];
      assert r in groups[i] && r in groups[index];
    }
  }

  // ---- fast components ---------------------------------------------------------------------------

  predicate Fast(links: LinkTable, bytes: nat, threshold: nat, a: nat, b: nat) {
    a < |links| && b < |links[a]| && CostOf(links[a][b], bytes).Some? && CostOf(links[a][b], bytes).value <= threshold
  }

  // A walk over links no slower than the threshold.
  ghost predicate IsFastPath(links: LinkTable, bytes: nat, threshold: nat, path: seq<nat>, a: nat, b: nat) {
    && |path| > 0 && path[0] == a && path[|path| - 1] == b
    && forall i, j | 0 <= i < |path| && j == i + 1 && j < |path| :: Fast(links, bytes, threshold, path[i], path[j])
  }

  ghost predicate Connected(links: LinkTable, bytes: nat, threshold: nat, a: nat, b: nat) {
    exists path :: IsFastPath(links, bytes, threshold, path, a, b)
  }

  lemma FastSymmetric(links: LinkTable, n: nat, bytes: nat, threshold: nat, a: nat, b: nat)
    requires IsTable(links, n) && Fast(links, bytes, threshold, a, b)
    ensures Fast(links, bytes, threshold, b, a) && a < n && b < n
  {
    assert links[a][b] == links[b][a];
  }

  lemma ConnectedStep(links: LinkTable, bytes: nat, threshold: nat, a: nat, b: nat, c: nat)
    requires Connected(links, bytes, threshold, a, b) && Fast(links, bytes, threshold, b, c)
    ensures Connected(links, bytes, threshold, a, c)
  {
    var path :| IsFastPath(links, bytes, threshold, path, a, b);
    assert IsFastPath(links, bytes, threshold, path + [c], a, c);
  }

  // No fast link leaves the set.
  ghost predicate Closed(links: LinkTable, bytes: nat, threshold: nat, flags: seq<bool>) {
    forall a, b | 0 <= a < |flags| && flags[a] && 0 <= b < |flags| && Fast(links, bytes, threshold, a, b) :: flags[b]
  }

  // A fast path that starts among the new ranks ends among them.
  lemma {:induction false} PathStaysNew(links: LinkTable, n: nat, bytes: nat, threshold: nat, before: seq<bool>, after: seq<bool>, path: seq<nat>)
    requires IsTable(links, n) && |before| == |after| == n
    requires Closed(links, bytes, threshold, before) && Closed(links, bytes, threshold, after)
    requires |path| > 0 && path[0] < n && after[path[0]] && !before[path[0]]
    requires IsFastPath(links, bytes, threshold, path, path[0], path[|path| - 1])
    ensures path[|path| - 1] < n && after[path[|path| - 1]] && !before[path[|path| - 1]]
  {
    var last := |path| - 1;
    if last > 0 {
      var front := path[..last];
      assert front[|front| - 1] == path[last - 1];
      PathStaysNew(links, n, bytes, threshold, before, after, front);
      assert Fast(links, bytes, threshold, path[last - 1], path[last]);
      FastSymmetric(links, n, bytes, threshold, path[last - 1], path[last]);
    }
  }

  // The search from one rank: flags, stack and group while it runs.
  ghost predicate Exploring(links: LinkTable, n: nat, bytes: nat, threshold: nat, first: nat, before: seq<bool>,
                            visited: seq<bool>, pending: seq<nat>, group: seq<nat>) {
    && |before| == |visited| == n && first < n && !before[first] && visited[first]
    && AreRanks(n, pending) && AreRanks(n, group)
    && (forall r | 0 <= r < n :: visited[r] <==> before[r] || r in pending || r in group)
    && Distinct(group) && Distinct(pending)
    && (forall r | r in group :: r !in pending)
    && (forall r | r in group || r in pending :: r < n && !before[r] && Connected(links, bytes, threshold, first, r))
    && (forall a, b | a in group && 0 <= b < n && Fast(links, bytes, threshold, a, b) :: visited[b])
  }

  lemma ExploreStart(links: LinkTable, n: nat, bytes: nat, threshold: nat, first: nat, before: seq<bool>)
    requires |before| == n && first < n && !before[first]
    ensures Exploring(links, n, bytes, threshold, first, before, before[first := true], [first], [])
  {
    assert IsFastPath(links, bytes, threshold, [first], first, first);
  }

  // All of one popped rank's fast neighbours are pushed.
  ghost predicate Pushing(links: LinkTable, n: nat, bytes: nat, threshold: nat, rank: nat, visited: seq<bool>,
                          seen: seq<bool>, pushed: seq<nat>, upto: nat) {
    && |visited| == |seen| == n && Distinct(pushed)
    && (forall r | 0 <= r < n :: seen[r] <==> visited[r] || r in pushed)
    && (forall r | r in pushed :: r < n && !visited[r] && Fast(links, bytes, threshold, rank, r))
    && (forall b | 0 <= b < upto && b < n && Fast(links, bytes, threshold, rank, b) :: seen[b])
  }

  method PushNeighbours(links: LinkTable, n: nat, bytes: nat, threshold: nat, rank: nat, visited: seq<bool>)
    returns (seen: seq<bool>, pushed: seq<nat>)
    requires |visited| == n
    ensures Pushing(links, n, bytes, threshold, rank, visited, seen, pushed, n)
  {
    seen, pushed := visited, [];
    for peer := 0 to n
      invariant Pushing(links, n, bytes, threshold, rank, visited, seen, pushed, peer)
    {
      if seen[peer] { continue; }
      if Fast(links, bytes, threshold, rank, peer) {
        seen := seen[peer := true];
        pushed := pushed + [peer];
      }
    }
  }

  lemma ExploreStep(links: LinkTable, n: nat, bytes: nat, threshold: nat, first: nat, before: seq<bool>,
                    visited: seq<bool>, pending: seq<nat>, group: seq<nat>, seen: seq<bool>, pushed: seq<nat>)
    requires |pending| > 0 && Exploring(links, n, bytes, threshold, first, before, visited, pending, group)
    requires Pushing(links, n, bytes, threshold, pending[|pending| - 1], visited, seen, pushed, n)
    ensures Exploring(links, n, bytes, threshold, first, before, seen, pending[..|pending| - 1] + pushed, group + [pending[|pending| - 1]])
  {
    var rank, rest := pending[|pending| - 1], pending[..|pending| - 1];
    assert pending == rest + [rank];
    assert rank in pending && rank !in rest;
    assert forall r :: r in rest ==> r in pending;
    forall r | r in pushed ensures Connected(links, bytes, threshold, first, r) {
      ConnectedStep(links, bytes, threshold, first, rank, r);
    }
    DistinctAppend(rest, pushed);
    DistinctAppend(group, [rank]);
    var pending', group' := rest + pushed, group + [rank];
    assert forall r :: r in pending' <==> r in rest || r in pushed;
    assert forall r :: r in group' <==> r in group || r == rank;
    assert forall r :: r in pending <==> r in rest || r == rank;
    forall i | 0 <= i < |pending'| ensures pending'[i] < n { assert pending'[i] in pending'; }
    forall r | r in group' ensures r !in pending' { }
    forall a, b | a in group' && 0 <= b < n && Fast(links, bytes, threshold, a, b) ensures seen[b] { }
  }

  lemma DistinctBounded(s: seq<nat>, n: nat)
    requires Distinct(s) && AreRanks(n, s)
    ensures |s| <= n
  {
    DistinctSize(s);
    BelowSize(n);
    SubsetSize(Elements(s), Below(n));
  }

  ghost predicate AscendingRanks(s: seq<nat>) {
    forall i, j | 0 <= i < j < |s| :: s[i] < s[j]
  }

  method SortRanks(group: seq<nat>) returns (sorted: seq<nat>)
    requires Distinct(group)
    ensures AscendingRanks(sorted) && |sorted| == |group| && forall r :: r in sorted <==> r in group
  {
    sorted := [];
    for i := 0 to |group|
      invariant AscendingRanks(sorted) && |sorted| == i && forall r :: r in sorted <==> r in group[..i]
    {
      assert group[..i + 1] == group[..i] + [group[i]];
      sorted := InsertRank(sorted, group[i]);
    }
    assert group[..|group|] == group;
  }

  method InsertRank(sorted: seq<nat>, rank: nat) returns (result: seq<nat>)
    requires AscendingRanks(sorted) && rank !in sorted
    ensures AscendingRanks(result) && |result| == |sorted| + 1 && forall r :: r in result <==> r in sorted || r == rank
  {
    var at := 0;
    while at < |sorted| && sorted[at] < rank
      invariant at <= |sorted| && forall i | 0 <= i < at :: sorted[i] < rank
    {
      at := at + 1;
    }
    InsertedAt(sorted, at, rank);
    result := sorted[..at] + [rank] + sorted[at..];
  }

  lemma InsertedAt(sorted: seq<nat>, at: nat, rank: nat)
    requires AscendingRanks(sorted) && rank !in sorted && at <= |sorted|
    requires (forall i | 0 <= i < at :: sorted[i] < rank) && (at < |sorted| ==> rank <= sorted[at])
    ensures var result := sorted[..at] + [rank] + sorted[at..];
      AscendingRanks(result) && forall r :: r in result <==> r in sorted || r == rank
  {
    var front, back := sorted[..at], sorted[at..];
    assert sorted == front + back;
    if at < |sorted| { assert sorted[at] in sorted; }
    assert forall r :: r in front + [rank] + back <==> r in front || r == rank || r in back;
  }

  // Exactly the ranks that `first` reaches over fast links.
  ghost predicate IsReach(links: LinkTable, n: nat, bytes: nat, threshold: nat, first: nat, group: seq<nat>) {
    AreRanks(n, group) && forall b: nat | b < n :: b in group <==> Connected(links, bytes, threshold, first, b)
  }

  lemma ExploreEnd(links: LinkTable, n: nat, bytes: nat, threshold: nat, first: nat, before: seq<bool>, visited: seq<bool>, group: seq<nat>)
    requires IsTable(links, n) && Closed(links, bytes, threshold, before)
    requires Exploring(links, n, bytes, threshold, first, before, visited, [], group)
    ensures Closed(links, bytes, threshold, visited) && first in group
    ensures IsReach(links, n, bytes, threshold, first, group)
  {
    forall a, b | 0 <= a < n && visited[a] && 0 <= b < n && Fast(links, bytes, threshold, a, b) ensures visited[b] {
      if before[a] { assert before[b]; } else { assert a in group; }
    }
    forall b: nat | b < n && Connected(links, bytes, threshold, first, b) ensures b in group {
      var path :| IsFastPath(links, bytes, threshold, path, first, b);
      PathStaysNew(links, n, bytes, threshold, before, visited, path);
    }
  }

  // Depth-first search over fast links from an unvisited rank.
  method Explore(links: LinkTable, n: nat, bytes: nat, threshold: nat, first: nat, before: seq<bool>)
    returns (group: seq<nat>, visited: seq<bool>)
    requires IsTable(links, n) && |before| == n && first < n && !before[first] && Closed(links, bytes, threshold, before)
    ensures |visited| == n && Closed(links, bytes, threshold, visited)
    ensures forall r | 0 <= r < n :: visited[r] <==> before[r] || r in group
    ensures forall r | r in group :: r < n && !before[r]
    ensures Distinct(group) && first in group && IsReach(links, n, bytes, threshold, first, group)
  {
    visited, group := before[first := true], [];
    var pending := [first];
    ExploreStart(links, n, bytes, threshold, first, before);
    while |pending| > 0
      invariant Exploring(links, n, bytes, threshold, first, before, visited, pending, group)
      invariant |group| <= n
      decreases n - |group|
    {
      var rank := pending[|pending| - 1];
      var seen, pushed := PushNeighbours(links, n, bytes, threshold, rank, visited);
      ExploreStep(links, n, bytes, threshold, first, before, visited, pending, group, seen, pushed);
      visited, pending, group := seen, pending[..|pending| - 1] + pushed, group + [rank];
      DistinctBounded(group, n);
    }
    assert pending == [];
    ExploreEnd(links, n, bytes, threshold, first, before, visited, group);
  }

  // ---- all components of one threshold -----------------------------------------------------------

  lemma {:induction false} ConnectedReverse(links: LinkTable, n: nat, bytes: nat, threshold: nat, a: nat, b: nat, path: seq<nat>)
    requires IsTable(links, n) && IsFastPath(links, bytes, threshold, path, a, b)
    ensures Connected(links, bytes, threshold, b, a)
  {
    var back := Mirror(path);
    forall i, j | 0 <= i < |back| && j == i + 1 && j < |back| ensures Fast(links, bytes, threshold, back[i], back[j]) {
      var k := |path| - 1 - j;
      assert Fast(links, bytes, threshold, path[k], path[k + 1]);
      FastSymmetric(links, n, bytes, threshold, path[k], path[k + 1]);
    }
    assert IsFastPath(links, bytes, threshold, back, b, a);
  }

  lemma ConnectedThrough(links: LinkTable, n: nat, bytes: nat, threshold: nat, a: nat, b: nat, c: nat)
    requires IsTable(links, n) && Connected(links, bytes, threshold, a, b) && Connected(links, bytes, threshold, a, c)
    ensures Connected(links, bytes, threshold, b, c)
  {
    var p :| IsFastPath(links, bytes, threshold, p, a, b);
    ConnectedReverse(links, n, bytes, threshold, a, b, p);
    var q :| IsFastPath(links, bytes, threshold, q, b, a);
    var r :| IsFastPath(links, bytes, threshold, r, a, c);
    assert IsFastPath(links, bytes, threshold, q + r[1..], b, c);
  }

  // Two ranks share a group exactly when fast links connect them.
  ghost predicate GroupsByReach(links: LinkTable, n: nat, bytes: nat, threshold: nat, groups: seq<seq<nat>>) {
    forall i, a, b: nat | 0 <= i < |groups| && a in groups[i] && b < n ::
      b in groups[i] <==> Connected(links, bytes, threshold, a, b)
  }

  ghost predicate Grouping(links: LinkTable, n: nat, bytes: nat, threshold: nat, groups: seq<seq<nat>>, visited: seq<bool>, upto: nat) {
    && |visited| == n && upto <= n && Closed(links, bytes, threshold, visited)
    && (forall r | 0 <= r < upto :: visited[r])
    && (forall r: nat | r < n :: visited[r] <==> InSome(groups, r))
    && (forall i | 0 <= i < |groups| :: groups[i] != [] && AscendingRanks(groups[i]) && AreRanks(n, groups[i]))
    && (forall i, j, r | 0 <= i < j < |groups| && r in groups[i] :: r !in groups[j])
    && (forall i | 0 <= i < |groups| :: groups[i][0] < upto)
    && (forall i, j | 0 <= i < j < |groups| :: groups[i][0] < groups[j][0])
    && GroupsByReach(links, n, bytes, threshold, groups)
  }

  lemma AddGroup(links: LinkTable, n: nat, bytes: nat, threshold: nat, groups: seq<seq<nat>>, before: seq<bool>, visited: seq<bool>,
                 first: nat, group: seq<nat>)
    requires IsTable(links, n) && first < n && Grouping(links, n, bytes, threshold, groups, before, first) && !before[first]
    requires |visited| == n && Closed(links, bytes, threshold, visited)
    requires forall r | 0 <= r < n :: visited[r] <==> before[r] || r in group
    requires forall r | r in group :: r < n && !before[r]
    requires AscendingRanks(group) && first in group && IsReach(links, n, bytes, threshold, first, group)
    ensures Grouping(links, n, bytes, threshold, groups + [group], visited, first + 1)
  {
    var next := groups + [group];
    assert next[..|groups|] == groups;
    forall r: nat ensures InSome(next, r) <==> InSome(groups, r) || r in group {
      assert next[..|next|] == next;
      SomePrefix(next, |groups|, r);
    }
    assert group[0] == first by { FirstIsLeast(group, first); }
    forall i, r | 0 <= i < |groups| && r in groups[i] ensures r !in group {
      var k :| 0 <= k < |groups[i]| && groups[i][k] == r;
      assert InSome(groups, r) && before[r];
    }
    forall i, a, b: nat | 0 <= i < |next| && a in next[i] && b < n
      ensures b in next[i] <==> Connected(links, bytes, threshold, a, b)
    {
      if i == |groups| { ReachFromAny(links, n, bytes, threshold, first, group, a, b); }
    }
  }

  lemma FirstIsLeast(group: seq<nat>, first: nat)
    requires AscendingRanks(group) && first in group && forall r | r in group :: first <= r
    ensures group[0] == first
  {
    assert group[0] in group;
  }

  lemma ReachFromAny(links: LinkTable, n: nat, bytes: nat, threshold: nat, first: nat, group: seq<nat>, a: nat, b: nat)
    requires IsTable(links, n) && first < n && IsReach(links, n, bytes, threshold, first, group) && a in group && b < n
    ensures b in group <==> Connected(links, bytes, threshold, a, b)
  {
    assert a < n && Connected(links, bytes, threshold, first, a);
    if b in group { ConnectedThrough(links, n, bytes, threshold, first, a, b); }
    if Connected(links, bytes, threshold, a, b) {
      var p :| IsFastPath(links, bytes, threshold, p, first, a);
      var q :| IsFastPath(links, bytes, threshold, q, a, b);
      assert IsFastPath(links, bytes, threshold, p + q[1..], first, b);
    }
  }

  // The groups come out in order of their least rank, so the source's closing sort leaves them alone.
  method Components(links: LinkTable, n: nat, bytes: nat, threshold: nat) returns (groups: seq<seq<nat>>)
    requires IsTable(links, n)
    ensures IsCover(n, groups) && GroupsByReach(links, n, bytes, threshold, groups)
    ensures forall i | 0 <= i < |groups| :: AscendingRanks(groups[i])
    ensures forall i, j | 0 <= i < j < |groups| :: groups[i][0] < groups[j][0]
  {
    groups := [];
    var visited := seq(n, _ => false);
    for firstRank := 0 to n
      invariant Grouping(links, n, bytes, threshold, groups, visited, firstRank)
    {
      if visited[firstRank] { continue; }
      var group, after := Explore(links, n, bytes, threshold, firstRank, visited);
      group := SortRanks(group);
      assert AreRanks(n, group) by {
        forall k | 0 <= k < |group| ensures group[k] < n { assert group[k] in group; }
      }
      AddGroup(links, n, bytes, threshold, groups, visited, after, firstRank, group);
      groups, visited := groups + [group], after;
    }
  }

  // ---- leaders -----------------------------------------------------------------------------------

  ghost function InGroupCost(links: LinkTable, n: nat, bytes: nat, group: seq<nat>, a: nat, b: nat): Option<nat> {
    Shortest(PlainEdge(links, bytes), Permit(n, group), a, b)
  }

  // Saturated sum of the candidate's costs to the first k members, over routes inside the group.
  ghost function InGroupTotal(links: LinkTable, n: nat, bytes: nat, group: seq<nat>, candidate: nat, k: nat): Option<nat>
    requires k <= |group|
  {
    if k == 0 then Some(0)
    else
      match InGroupTotal(links, n, bytes, group, candidate, k - 1)
      case None => None
      case Some(total) =>
        match InGroupCost(links, n, bytes, group, candidate, group[k - 1])
        case None => None
        case Some(cost) => Some(SaturatingAdd(total, cost))
  }

  ghost function GroupTotal(links: LinkTable, n: nat, bytes: nat, group: seq<nat>, candidate: nat): Option<nat> {
    InGroupTotal(links, n, bytes, group, candidate, |group|)
  }

  // Least total in-group cost, ties to the lower rank.
  ghost predicate IsLeader(links: LinkTable, n: nat, bytes: nat, group: seq<nat>, leader: nat) {
    && leader in group && GroupTotal(links, n, bytes, group, leader).Some?
    && forall c | c in group && GroupTotal(links, n, bytes, group, c).Some? ::
         var t, u := GroupTotal(links, n, bytes, group, leader).value, GroupTotal(links, n, bytes, group, c).value;
         t < u || (t == u && leader <= c)
  }

  method TotalFrom(topology: CollectiveTopology, bytes: nat, group: seq<nat>, candidate: nat) returns (total: Option<nat>)
    requires topology.Valid() && AreRanks(topology.worldSize, group) && candidate in group
    ensures total == GroupTotal(topology.links, topology.worldSize, bytes, group, candidate)
  {
    var sum := 0;
    assert candidate < topology.worldSize;
    for k := 0 to |group|
      invariant InGroupTotal(topology.links, topology.worldSize, bytes, group, candidate, k) == Some(sum)
    {
      var cost := topology.ShortestTransferTimeWithin(candidate, group[k], bytes, group);
      AnswersUnique(PlainEdge(topology.links, bytes), Permit(topology.worldSize, group), candidate, group[k], cost,
                    InGroupCost(topology.links, topology.worldSize, bytes, group, candidate, group[k]));
      if cost.None? {
        UnreachableMember(topology.links, topology.worldSize, bytes, group, candidate, k + 1, |group|);
        return None;
      }
      sum := SaturatingAdd(sum, cost.value);
    }
    return Some(sum);
  }

  lemma {:induction false} UnreachableMember(links: LinkTable, n: nat, bytes: nat, group: seq<nat>, candidate: nat, j: nat, k: nat)
    requires j <= k <= |group| && InGroupTotal(links, n, bytes, group, candidate, j).None?
    ensures InGroupTotal(links, n, bytes, group, candidate, k).None?
  {
    if j < k { UnreachableMember(links, n, bytes, group, candidate, j, k - 1); }
  }

  // The best candidate among the first k members.
  ghost predicate LeadsFirst(links: LinkTable, n: nat, bytes: nat, group: seq<nat>, k: nat, leader: Option<nat>, total: nat)
    requires k <= |group|
  {
    match leader
    case None => forall i | 0 <= i < k :: GroupTotal(links, n, bytes, group, group[i]).None?
    case Some(l) =>
      && l in group && GroupTotal(links, n, bytes, group, l) == Some(total)
      && forall i | 0 <= i < k && GroupTotal(links, n, bytes, group, group[i]).Some? ::
           var u := GroupTotal(links, n, bytes, group, group[i]).value; total < u || (total == u && l <= group[i])
  }

  method ChooseLeader(topology: CollectiveTopology, bytes: nat, group: seq<nat>) returns (leader: Option<nat>)
    requires topology.Valid() && AreRanks(topology.worldSize, group)
    ensures leader.Some? ==> IsLeader(topology.links, topology.worldSize, bytes, group, leader.value)
    ensures leader.None? ==> forall c | c in group :: GroupTotal(topology.links, topology.worldSize, bytes, group, c).None?
  {
    leader := None;
    var least := 0;
    for k := 0 to |group|
      invariant LeadsFirst(topology.links, topology.worldSize, bytes, group, k, leader, least)
    {
      var candidate := group[k];
      var total := TotalFrom(topology, bytes, group, candidate);
      if total.Some? && (leader.None? || total.value < least || (total.value == least && candidate < leader.value)) {
        leader, least := Some(candidate), total.value;
      }
    }
  }

  // The group sorted, with its leader exchanged to the front.
  ghost predicate LeaderFirst(links: LinkTable, n: nat, bytes: nat, group: seq<nat>, led: seq<nat>) {
    && group != [] && |led| == |group| && IsLeader(links, n, bytes, group, led[0])
    && exists sorted :: IsSorting(group, sorted) && ExchangedToFront(sorted, led)
  }

  ghost predicate IsSorting(group: seq<nat>, sorted: seq<nat>) {
    AscendingRanks(sorted) && |sorted| == |group| && forall r :: r in sorted <==> r in group
  }

  ghost predicate ExchangedToFront(sorted: seq<nat>, led: seq<nat>) {
    exists p :: 0 <= p < |sorted| && led == sorted[0 := sorted[p]][p := sorted[0]]
  }

  ghost predicate IsLed(links: LinkTable, n: nat, bytes: nat, group: seq<nat>, led: seq<nat>) {
    LeaderFirst(links, n, bytes, group, led) && Distinct(led) && forall r :: r in led <==> r in group
  }

  method PutLeaderFirst(topology: CollectiveTopology, bytes: nat, group: seq<nat>) returns (led: Option<seq<nat>>)
    requires topology.Valid() && AreRanks(topology.worldSize, group) && group != [] && Distinct(group)
    ensures led.Some? ==> IsLed(topology.links, topology.worldSize, bytes, group, led.value)
    ensures led.None? ==> NoLeader(topology.links, topology.worldSize, bytes, group)
  {
    var leader := ChooseLeader(topology, bytes, group);
    if leader.None? { return None; }
    var sorted := SortRanks(group);
    var position := PositionOfRank(sorted, leader.value);
    SwapKeepsElements(sorted, position);
    var exchanged := sorted[0 := sorted[position]][position := sorted[0]];
    assert IsSorting(group, sorted) && ExchangedToFront(sorted, exchanged);
    led := Some(exchanged);
  }

  method PositionOfRank(group: seq<nat>, rank: nat) returns (position: nat)
    requires rank in group
    ensures position < |group| && group[position] == rank
  {
    ghost var at :| 0 <= at < |group| && group[at] == rank;
    position := 0;
    while group[position] != rank
      invariant position <= at
      decreases at - position
    {
      position := position + 1;
    }
  }

  lemma SwapKeepsElements(group: seq<nat>, p: nat)
    requires p < |group| && Distinct(group)
    ensures var led := group[0 := group[p]][p := group[0]]; Distinct(led) && forall r :: r in led <==> r in group
  {
    var led := group[0 := group[p]][p := group[0]];
    forall r | r in group ensures r in led {
      var i :| 0 <= i < |group| && group[i] == r;
      assert led[if i == 0 then p else if i == p then 0 else i] == r;
    }
    forall r | r in led ensures r in group {
      var i :| 0 <= i < |led| && led[i] == r;
      assert group[if i == 0 then p else if i == p then 0 else i] == r;
    }
  }

  // ---- optimize_hierarchy ------------------------------------------------------------------------

  ghost predicate AreLeaders(links: LinkTable, n: nat, bytes: nat, groups: seq<seq<nat>>, leaders: seq<nat>) {
    |leaders| == |groups| && forall i | 0 <= i < |groups| :: IsLeader(links, n, bytes, groups[i], leaders[i])
  }

  // The optimized groups are the given ones, each with its leader first, in the order of a leader
  // cycle: the best one for up to nine groups, the nearest-neighbour one for more.
  ghost predicate IsOptimized(links: LinkTable, n: nat, bytes: nat, groups: seq<seq<nat>>, leaders: seq<nat>, optimized: seq<seq<nat>>, order: seq<nat>) {
    && IsTour(|groups|, order) && |optimized| == |groups| && AreLeaders(links, n, bytes, groups, leaders)
    && (1 < |groups| <= EXACT_RING_SEARCH_MAX_RANKS ==> IsBestTour(links, n, bytes, leaders, Some(order)))
    && (|groups| > EXACT_RING_SEARCH_MAX_RANKS ==> AreRanks(n, leaders) && IsNearestTour(links, n, bytes, leaders, Some(order)))
    && forall i | 0 <= i < |groups| :: LeaderFirst(links, n, bytes, groups[order[i]], optimized[i]) && optimized[i][0] == leaders[order[i]]
  }

  // Some group has no member that reaches all others inside it, or the leaders have no cycle.
  ghost predicate CannotOptimize(links: LinkTable, n: nat, bytes: nat, groups: seq<seq<nat>>) {
    || (exists i :: 0 <= i < |groups| && NoLeader(links, n, bytes, groups[i]))
    || (exists leaders :: AreLeaders(links, n, bytes, groups, leaders) && NoCycle(links, n, bytes, leaders))
  }

  ghost predicate NoLeader(links: LinkTable, n: nat, bytes: nat, group: seq<nat>) {
    forall c | c in group :: GroupTotal(links, n, bytes, group, c).None?
  }

  ghost predicate NoCycle(links: LinkTable, n: nat, bytes: nat, leaders: seq<nat>) {
    && AreRanks(n, leaders) && |leaders| != 1
    && (1 < |leaders| <= EXACT_RING_SEARCH_MAX_RANKS ==> IsBestTour(links, n, bytes, leaders, None))
    && (|leaders| > EXACT_RING_SEARCH_MAX_RANKS ==> IsNearestTour(links, n, bytes, leaders, None))
  }

  ghost predicate SameMembers(a: seq<seq<nat>>, b: seq<seq<nat>>) {
    |a| == |b| && forall i | 0 <= i < |a| :: Distinct(b[i]) && forall r :: r in b[i] <==> r in a[i]
  }

  lemma SameMembersCover(n: nat, a: seq<seq<nat>>, b: seq<seq<nat>>)
    requires IsCover(n, a) && SameMembers(a, b)
    ensures IsCover(n, b)
  {
    forall i | 0 <= i < |b| ensures b[i] != [] && AreRanks(n, b[i]) {
      assert a[i][0] in b[i];
      forall k | 0 <= k < |b[i]| ensures b[i][k] < n { assert b[i][k] in b[i]; }
    }
    forall r: nat | r < n ensures InSome(b, r) {
      assert InSome(a, r);
      var i :| 0 <= i < |a| && r in a[i];
      assert r in b[i];
    }
  }

  lemma ReorderCover(n: nat, a: seq<seq<nat>>, b: seq<seq<nat>>, order: seq<nat>)
    requires IsCover(n, a) && IsOrder(|a|, order) && |b| == |a| && forall i | 0 <= i < |a| :: b[i] == a[order[i]]
    ensures IsCover(n, b)
  {
    forall i, j, r | 0 <= i < j < |b| && r in b[i] ensures r !in b[j] {
      assert order[i] < order[j] || order[j] < order[i];
    }
    forall r: nat | r < n ensures InSome(b, r) {
      assert InSome(a, r);
      var k :| 0 <= k < |a| && r in a[k];
      var p := OrderContains(|a|, order, k);
      assert r in b[p];
    }
  }

  method OptimizeHierarchy(topology: CollectiveTopology, groups: seq<seq<nat>>, bytes: nat)
    returns (optimized: Option<seq<seq<nat>>>, ghost leaders: seq<nat>, ghost order: seq<nat>)
    requires topology.Valid() && IsCover(topology.worldSize, groups)
    ensures optimized.Some? ==>
      IsOptimized(topology.links, topology.worldSize, bytes, groups, leaders, optimized.value, order) && IsCover(topology.worldSize, optimized.value)
    ensures optimized.None? ==> CannotOptimize(topology.links, topology.worldSize, bytes, groups)
  {
    var led := LeadAll(topology, groups, bytes);
    if led.None? { return None, [], []; }
    SameMembersCover(topology.worldSize, groups, led.value);
    optimized, leaders, order := OrderByLeaders(topology, groups, led.value, bytes);
  }

  method LeadAll(topology: CollectiveTopology, groups: seq<seq<nat>>, bytes: nat) returns (result: Option<seq<seq<nat>>>)
    requires topology.Valid() && IsCover(topology.worldSize, groups)
    ensures result.None? ==> exists i :: 0 <= i < |groups| && NoLeader(topology.links, topology.worldSize, bytes, groups[i])
    ensures result.Some? ==> SameMembers(groups, result.value)
    ensures result.Some? ==>
      forall j | 0 <= j < |groups| :: LeaderFirst(topology.links, topology.worldSize, bytes, groups[j], result.value[j])
  {
    var led: seq<seq<nat>> := [];
    for i := 0 to |groups|
      invariant |led| == i
      invariant forall j | 0 <= j < i :: IsLed(topology.links, topology.worldSize, bytes, groups[j], led[j])
    {
      var next := PutLeaderFirst(topology, bytes, groups[i]);
      if next.None? { return None; }
      led := led + [next.value];
    }
    result := Some(led);
  }

  // The closing part: the groups in the order of their leaders' cycle.
  method OrderByLeaders(topology: CollectiveTopology, ghost groups: seq<seq<nat>>, led: seq<seq<nat>>, bytes: nat)
    returns (optimized: Option<seq<seq<nat>>>, ghost leaders: seq<nat>, ghost order: seq<nat>)
    requires topology.Valid() && IsCover(topology.worldSize, led) && |led| == |groups|
    requires forall j | 0 <= j < |led| :: LeaderFirst(topology.links, topology.worldSize, bytes, groups[j], led[j])
    ensures optimized.Some? ==>
      IsOptimized(topology.links, topology.worldSize, bytes, groups, leaders, optimized.value, order) && IsCover(topology.worldSize, optimized.value)
    ensures optimized.None? ==> CannotOptimize(topology.links, topology.worldSize, bytes, groups)
  {
    order := [];
    var firsts := seq(|led|, i requires 0 <= i < |led| => led[i][0]);
    leaders := firsts;
    assert AreRanks(topology.worldSize, firsts);
    assert AreLeaders(topology.links, topology.worldSize, bytes, groups, leaders);
    var cycle := BestRankCycleOrder(topology, firsts, bytes);
    if cycle.None? {
      assert NoCycle(topology.links, topology.worldSize, bytes, leaders);
      return None, leaders, [];
    }
    order := cycle.value;
    var result := seq(|led|, i requires 0 <= i < |led| => led[cycle.value[i]]);
    ReorderCover(topology.worldSize, led, result, order);
    optimized := Some(result);
  }

  // ---- hierarchy_candidates ----------------------------------------------------------------------

  ghost predicate IsLinkTime(links: LinkTable, n: nat, bytes: nat, t: nat) {
    exists i, j :: 0 <= i < j < n <= |links| && j < |links[i]| && CostOf(links[i][j], bytes) == Some(t)
  }

  // The link times met when scanning the upper triangle row by row up to (first, second).
  ghost predicate Scanned(links: LinkTable, n: nat, bytes: nat, first: nat, second: nat, t: nat)
    requires IsTable(links, n)
  {
    exists i, j :: 0 <= i < j < n && (i < first || (i == first && j < second)) && CostOf(links[i][j], bytes) == Some(t)
  }

  lemma ScanNext(links: LinkTable, n: nat, bytes: nat, first: nat, second: nat, t: nat)
    requires IsTable(links, n) && first < second < n
    ensures Scanned(links, n, bytes, first, second + 1, t) <==>
      Scanned(links, n, bytes, first, second, t) || CostOf(links[first][second], bytes) == Some(t)
  {
  }

  lemma ScanRow(links: LinkTable, n: nat, bytes: nat, first: nat, t: nat)
    requires IsTable(links, n)
    ensures Scanned(links, n, bytes, first, n, t) <==> Scanned(links, n, bytes, first + 1, first + 2, t)
    ensures Scanned(links, n, bytes, n, n + 1, t) <==> IsLinkTime(links, n, bytes, t)
  {
  }

  method ScanLinks(links: LinkTable, n: nat, bytes: nat, first: nat, before: seq<nat>) returns (thresholds: seq<nat>)
    requires IsTable(links, n) && first < n && AscendingRanks(before)
    requires forall t :: t in before <==> Scanned(links, n, bytes, first, first + 1, t)
    ensures AscendingRanks(thresholds) && forall t :: t in thresholds <==> Scanned(links, n, bytes, first, n, t)
  {
    thresholds := before;
    for second := first + 1 to n
      invariant AscendingRanks(thresholds) && forall t :: t in thresholds <==> Scanned(links, n, bytes, first, second, t)
    {
      forall t: nat ensures Scanned(links, n, bytes, first, second + 1, t) <==>
        Scanned(links, n, bytes, first, second, t) || CostOf(links[first][second], bytes) == Some(t)
      {
        ScanNext(links, n, bytes, first, second, t);
      }
      var time := CostOf(links[first][second], bytes);
      if time.Some? && time.value !in thresholds { thresholds := InsertRank(thresholds, time.value); }
    }
  }

  method Thresholds(links: LinkTable, n: nat, bytes: nat) returns (thresholds: seq<nat>)
    requires IsTable(links, n)
    ensures AscendingRanks(thresholds) && forall t :: t in thresholds <==> IsLinkTime(links, n, bytes, t)
  {
    thresholds := [];
    for first := 0 to n
      invariant AscendingRanks(thresholds) && forall t :: t in thresholds <==> Scanned(links, n, bytes, first, first + 1, t)
    {
      thresholds := ScanLinks(links, n, bytes, first, thresholds);
      forall t ensures t in thresholds <==> Scanned(links, n, bytes, first + 1, first + 2, t) {
        ScanRow(links, n, bytes, first, t);
      }
    }
    forall t ensures t in thresholds <==> IsLinkTime(links, n, bytes, t) { ScanRow(links, n, bytes, n, t); }
  }

  // One candidate: it came from the components of some link time, neither trivial nor whole.
  ghost predicate IsHierarchyFor(links: LinkTable, n: nat, bytes: nat, candidate: seq<seq<nat>>) {
    && 2 <= |candidate| < n && IsCover(n, candidate)
    && exists t, groups, leaders, order :: ComesFrom(links, n, bytes, candidate, t, groups, leaders, order)
  }

  ghost predicate ComesFrom(links: LinkTable, n: nat, bytes: nat, candidate: seq<seq<nat>>, t: nat, groups: seq<seq<nat>>,
                            leaders: seq<nat>, order: seq<nat>) {
    && IsLinkTime(links, n, bytes, t)
    && IsCover(n, groups) && GroupsByReach(links, n, bytes, t, groups)
    && IsOptimized(links, n, bytes, groups, leaders, candidate, order)
  }

  // What became of a link time: its components are trivial, cannot be optimized, or are represented.
  ghost predicate Considered(links: LinkTable, n: nat, bytes: nat, candidates: seq<seq<seq<nat>>>, t: nat) {
    exists groups :: IsCover(n, groups) && GroupsByReach(links, n, bytes, t, groups) && Handled(links, n, bytes, candidates, t, groups)
  }

  ghost predicate Handled(links: LinkTable, n: nat, bytes: nat, candidates: seq<seq<seq<nat>>>, t: nat, groups: seq<seq<nat>>) {
    || |groups| < 2 || |groups| == n || groups in candidates || CannotOptimize(links, n, bytes, groups)
    || exists c, leaders, order :: c in candidates && ComesFrom(links, n, bytes, c, t, groups, leaders, order)
  }

  lemma MoreCandidates(links: LinkTable, n: nat, bytes: nat, candidates: seq<seq<seq<nat>>>, c: seq<seq<nat>>, t: nat)
    requires Considered(links, n, bytes, candidates, t)
    ensures Considered(links, n, bytes, candidates + [c], t)
  {
    var groups :| IsCover(n, groups) && GroupsByReach(links, n, bytes, t, groups) && Handled(links, n, bytes, candidates, t, groups);
    if d, leaders, order :| d in candidates && ComesFrom(links, n, bytes, d, t, groups, leaders, order) {
      assert d in candidates + [c] && ComesFrom(links, n, bytes, d, t, groups, leaders, order);
    }
    assert Handled(links, n, bytes, candidates + [c], t, groups);
  }

  ghost predicate AllHierarchies(links: LinkTable, n: nat, bytes: nat, candidates: seq<seq<seq<nat>>>) {
    forall c | c in candidates :: IsHierarchyFor(links, n, bytes, c)
  }

  ghost predicate AllConsidered(links: LinkTable, n: nat, bytes: nat, candidates: seq<seq<seq<nat>>>, times: seq<nat>) {
    forall j | 0 <= j < |times| :: Considered(links, n, bytes, candidates, times[j])
  }

  // Every candidate is a hierarchy that the validator accepts, and no link time is passed over.
  method HierarchyCandidates(topology: CollectiveTopology, bytes: nat) returns (candidates: seq<seq<seq<nat>>>)
    requires topology.Valid()
    ensures forall c | c in candidates :: IsHierarchyFor(topology.links, topology.worldSize, bytes, c)
    ensures Distinct(candidates)
    ensures forall t | IsLinkTime(topology.links, topology.worldSize, bytes, t) :: Considered(topology.links, topology.worldSize, bytes, candidates, t)
  {
    var thresholds := Thresholds(topology.links, topology.worldSize, bytes);
    candidates := FromThresholds(topology, bytes, thresholds);
    forall t | IsLinkTime(topology.links, topology.worldSize, bytes, t)
      ensures Considered(topology.links, topology.worldSize, bytes, candidates, t)
    {
      assert t in thresholds;
    }
  }

  method FromThresholds(topology: CollectiveTopology, bytes: nat, thresholds: seq<nat>) returns (candidates: seq<seq<seq<nat>>>)
    requires topology.Valid() && forall j | 0 <= j < |thresholds| :: IsLinkTime(topology.links, topology.worldSize, bytes, thresholds[j])
    ensures AllHierarchies(topology.links, topology.worldSize, bytes, candidates) && Distinct(candidates)
    ensures AllConsidered(topology.links, topology.worldSize, bytes, candidates, thresholds)
  {
    candidates := [];
    for k := 0 to |thresholds|
      invariant AllHierarchies(topology.links, topology.worldSize, bytes, candidates) && Distinct(candidates)
      invariant AllConsidered(topology.links, topology.worldSize, bytes, candidates, thresholds[..k])
    {
      candidates := ConsiderThreshold(topology, bytes, thresholds[k], thresholds[..k], candidates);
      assert thresholds[..k] + [thresholds[k]] == thresholds[..k + 1];
    }
    assert thresholds[..|thresholds|] == thresholds;
  }

  method ConsiderThreshold(topology: CollectiveTopology, bytes: nat, threshold: nat, ghost earlier: seq<nat>, candidates: seq<seq<seq<nat>>>)
    returns (next: seq<seq<seq<nat>>>)
    requires topology.Valid() && IsLinkTime(topology.links, topology.worldSize, bytes, threshold) && Distinct(candidates)
    requires AllHierarchies(topology.links, topology.worldSize, bytes, candidates)
    requires AllConsidered(topology.links, topology.worldSize, bytes, candidates, earlier)
    ensures AllHierarchies(topology.links, topology.worldSize, bytes, next) && Distinct(next)
    ensures AllConsidered(topology.links, topology.worldSize, bytes, next, earlier + [threshold])
  {
    ghost var links, n := topology.links, topology.worldSize;
    next := candidates;
    var groups := Components(topology.links, topology.worldSize, bytes, threshold);
    if |groups| < 2 || |groups| == topology.worldSize || groups in candidates {
      assert Handled(links, n, bytes, next, threshold, groups);
      return;
    }
    var optimized, leaders, order := OptimizeHierarchy(topology, groups, bytes);
    if optimized.None? {
      assert Handled(links, n, bytes, next, threshold, groups);
      return;
    }
    assert |groups| < n by { GroupsBounded(n, groups); }
    assert ComesFrom(links, n, bytes, optimized.value, threshold, groups, leaders, order);
    if optimized.value !in candidates {
      OneMoreCandidate(links, n, bytes, candidates, optimized.value, earlier);
      next := candidates + [optimized.value];
    }
    assert optimized.value in next;
    assert Handled(links, n, bytes, next, threshold, groups);
  }

  lemma OneMoreCandidate(links: LinkTable, n: nat, bytes: nat, candidates: seq<seq<seq<nat>>>, c: seq<seq<nat>>, earlier: seq<nat>)
    requires Distinct(candidates) && c !in candidates && AllConsidered(links, n, bytes, candidates, earlier)
    requires AllHierarchies(links, n, bytes, candidates) && IsHierarchyFor(links, n, bytes, c)
    ensures Distinct(candidates + [c]) && AllHierarchies(links, n, bytes, candidates + [c])
    ensures AllConsidered(links, n, bytes, candidates + [c], earlier)
  {
    forall j | 0 <= j < |earlier| ensures Considered(links, n, bytes, candidates + [c], earlier[j]) {
      MoreCandidates(links, n, bytes, candidates, c, earlier[j]);
    }
  }

  // Disjoint non-empty groups are no more numerous than the ranks.
  lemma GroupsBounded(n: nat, groups: seq<seq<nat>>)
    requires IsCover(n, groups)
    ensures |groups| <= n
  {
    var firsts := seq(|groups|, i requires 0 <= i < |groups| => groups[i][0]);
    forall i, j | 0 <= i < j < |firsts| ensures firsts[i] != firsts[j] {
      assert groups[i][0] in groups[i] && groups[j][0] in groups[j];
    }
    DistinctBounded(firsts, n);
  }
}
