// src/rank/topology.rs: scoring closed rings and picking diverse ones greedily.
module RingSelection {
  import opened Wrappers
  import opened Numbers
  import opened Lexicographic
  import opened ShortestPath
  import opened Topology
  import opened RingSearch

  const U16_MAX: nat := 0xFFFF
  const EXACT_RING_SEARCH_MAX_RANKS: nat := 9

  // ---- ring scores -------------------------------------------------------------------------------

  datatype RingScore = RingScore(bottleneck: nat, totalBandwidth: nat, inverseLatency: int)

  predicate ScoreLess(a: RingScore, b: RingScore) {
    a.bottleneck < b.bottleneck || (a.bottleneck == b.bottleneck &&
      (a.totalBandwidth < b.totalBandwidth || (a.totalBandwidth == b.totalBandwidth && a.inverseLatency < b.inverseLatency)))
  }

  // The links round the ring, edge i leading from position i to the next.
  ghost function EdgeCosts(links: LinkTable, n: nat, o: seq<nat>): (costs: seq<LinkCost>)
    requires IsClosedRing(links, n, o)
    ensures |costs| == n
  {
    seq(n, i requires 0 <= i < n => assert Linked(links, o[i], o[Successor(n, i)]); links[o[i]][o[Successor(n, i)]].value)
  }

  function Bottleneck(costs: seq<LinkCost>): nat {
    if costs == [] then U64_MAX else Min(Bottleneck(costs[..|costs| - 1]), costs[|costs| - 1].bandwidthMbps)
  }

  function SumBandwidth(costs: seq<LinkCost>): nat {
    if costs == [] then 0 else SumBandwidth(costs[..|costs| - 1]) + costs[|costs| - 1].bandwidthMbps
  }

  function SumLatency(costs: seq<LinkCost>): nat {
    if costs == [] then 0 else SumLatency(costs[..|costs| - 1]) + costs[|costs| - 1].latencyNs
  }

  function ScoreOfCosts(costs: seq<LinkCost>): RingScore {
    RingScore(Bottleneck(costs), SumBandwidth(costs), U128_MAX as int - SumLatency(costs))
  }

  ghost function ScoreOf(links: LinkTable, n: nat, o: seq<nat>): RingScore
    requires IsClosedRing(links, n, o)
  {
    ScoreOfCosts(EdgeCosts(links, n, o))
  }

  lemma {:induction false} CostsAppend(a: seq<LinkCost>, b: seq<LinkCost>)
    ensures Bottleneck(a + b) == Min(Bottleneck(a), Bottleneck(b))
    ensures SumBandwidth(a + b) == SumBandwidth(a) + SumBandwidth(b)
    ensures SumLatency(a + b) == SumLatency(a) + SumLatency(b)
  {
    BottleneckCapped(a);
    if b == [] {
      assert a + b == a;
    } else {
      CostsAppend(a, b[..|b| - 1]);
      assert (a + b)[..|a + b| - 1] == a + b[..|b| - 1];
    }
  }

  lemma {:induction false} BottleneckCapped(a: seq<LinkCost>)
    ensures Bottleneck(a) <= U64_MAX
  {
    if a != [] { BottleneckCapped(a[..|a| - 1]); }
  }

  function Mirror<T>(s: seq<T>): (r: seq<T>)
    ensures |r| == |s| && forall i | 0 <= i < |s| :: r[i] == s[|s| - 1 - i]
  {
    seq(|s|, i requires 0 <= i < |s| => s[|s| - 1 - i])
  }

  lemma {:induction false} MirrorScore(costs: seq<LinkCost>)
    ensures ScoreOfCosts(Mirror(costs)) == ScoreOfCosts(costs)
  {
    if costs != [] {
      var front, last := costs[..|costs| - 1], costs[|costs| - 1];
      MirrorScore(front);
      assert Mirror(costs) == [last] + Mirror(front);
      assert costs == front + [last];
      CostsAppend([last], Mirror(front));
      CostsAppend(front, [last]);
    }
  }

  // A ring scores the same in either direction...
  lemma BackwardsScore(links: LinkTable, n: nat, o: seq<nat>)
    requires IsTable(links, n) && IsClosedRing(links, n, o)
    ensures IsClosedRing(links, n, Backwards(o)) && ScoreOf(links, n, Backwards(o)) == ScoreOf(links, n, o)
  {
    BackwardsIsRing(links, n, o);
    BackwardsCosts(links, n, o);
    MirrorScore(EdgeCosts(links, n, o));
  }

  lemma BackwardsCosts(links: LinkTable, n: nat, o: seq<nat>)
    requires IsTable(links, n) && IsClosedRing(links, n, o) && IsClosedRing(links, n, Backwards(o))
    ensures EdgeCosts(links, n, Backwards(o)) == Mirror(EdgeCosts(links, n, o))
  {
    var back, mirror := EdgeCosts(links, n, Backwards(o)), Mirror(EdgeCosts(links, n, o));
    forall i | 0 <= i < n ensures back[i] == mirror[i] { MirroredEdge(links, n, o, i, back, mirror); }
    assert |back| == |mirror| == n;
  }

  lemma MirroredEdge(links: LinkTable, n: nat, o: seq<nat>, i: nat, back: seq<LinkCost>, mirror: seq<LinkCost>)
    requires IsTable(links, n) && IsClosedRing(links, n, o) && IsClosedRing(links, n, Backwards(o)) && i < n
    requires back == EdgeCosts(links, n, Backwards(o)) && mirror == Mirror(EdgeCosts(links, n, o))
    ensures |back| == |mirror| == n && back[i] == mirror[i]
  {
    BackwardsEdge(links, n, o, i);
  }

  lemma BackwardsEdge(links: LinkTable, n: nat, o: seq<nat>, i: nat)
    requires IsTable(links, n) && IsClosedRing(links, n, o) && IsClosedRing(links, n, Backwards(o)) && i < n
    ensures EdgeCosts(links, n, Backwards(o))[i] == EdgeCosts(links, n, o)[n - 1 - i]
  {
    var r, j := Backwards(o), n - 1 - i;
    assert r[Successor(n, i)] == o[j] && r[i] == o[Successor(n, j)];
  }

  function RotateLeft<T>(o: seq<T>, p: nat): (r: seq<T>)
    requires p < |o|
    ensures |r| == |o|
  {
    o[p..] + o[..p]
  }

  // ... and from any starting rank.
  lemma RotationScore(links: LinkTable, n: nat, o: seq<nat>, p: nat)
    requires IsClosedRing(links, n, o) && p < n
    ensures IsClosedRing(links, n, RotateLeft(o, p)) && ScoreOf(links, n, RotateLeft(o, p)) == ScoreOf(links, n, o)
  {
    RotationCosts(links, n, o, p);
    RotatedCostsScore(EdgeCosts(links, n, o), p);
  }

  lemma RotatedCostsScore(costs: seq<LinkCost>, p: nat)
    requires p < |costs|
    ensures ScoreOfCosts(RotateLeft(costs, p)) == ScoreOfCosts(costs)
  {
    CostsAppend(costs[p..], costs[..p]);
    CostsAppend(costs[..p], costs[p..]);
    assert costs == costs[..p] + costs[p..];
  }

  lemma RotationCosts(links: LinkTable, n: nat, o: seq<nat>, p: nat)
    requires IsClosedRing(links, n, o) && p < n
    ensures IsClosedRing(links, n, RotateLeft(o, p))
    ensures EdgeCosts(links, n, RotateLeft(o, p)) == RotateLeft(EdgeCosts(links, n, o), p)
  {
    RotationIsRing(links, n, o, p);
    forall i | 0 <= i < n
      ensures EdgeCosts(links, n, RotateLeft(o, p))[i] == RotateLeft(EdgeCosts(links, n, o), p)[i]
    {
      RotatedEdge(n, o, p, i);
    }
  }

  lemma RotatedEdge(n: nat, o: seq<nat>, p: nat, i: nat)
    requires |o| == n && p < n && i < n
    ensures var j := if p + i < n then p + i else p + i - n;
      RotateLeft(o, p)[i] == o[j] && RotateLeft(o, p)[Successor(n, i)] == o[Successor(n, j)]
  {
  }

  lemma RotationIsRing(links: LinkTable, n: nat, o: seq<nat>, p: nat)
    requires IsClosedRing(links, n, o) && p < n
    ensures IsClosedRing(links, n, RotateLeft(o, p))
  {
    var r := RotateLeft(o, p);
    forall i | 0 <= i < n ensures Linked(links, r[i], r[Successor(n, i)]) && r[i] < n {
      RotatedEdge(n, o, p, i);
    }
  }

  // Every order contains every rank, so every closed ring has a rotation that starts at rank 0.
  lemma OrderContains(n: nat, o: seq<nat>, r: nat) returns (p: nat)
    requires IsOrder(n, o) && r < n
    ensures p < n && o[p] == r
  {
    var seen := Elements(o);
    DistinctSize(o);
    BelowSize(n);
    if r !in o {
      SubsetSize(seen, Below(n) - {r});
      assert false;
    }
    p :| 0 <= p < n && o[p] == r;
  }

  function Below(n: nat): set<nat> { if n == 0 then {} else Below(n - 1) + {n - 1} }

  lemma {:induction false} BelowSize(n: nat)
    ensures |Below(n)| == n && forall x: nat :: x in Below(n) <==> x < n
  {
    if n > 0 { BelowSize(n - 1); }
  }

  // Every closed ring has a listed representative of the same score.
  lemma Representative(links: LinkTable, n: nat, o: seq<nat>) returns (c: seq<nat>)
    requires IsTable(links, n) && IsClosedRing(links, n, o)
    ensures IsCandidate(links, n, c) && ScoreOf(links, n, c) == ScoreOf(links, n, o)
  {
    var p := OrderContains(n, o, 0);
    RotationScore(links, n, o, p);
    c := RotateLeft(o, p);
    BackwardsScore(links, n, c);
    OneDirectionIsCandidate(links, n, c);
    if !IsCandidate(links, n, c) { c := Backwards(c); }
  }

  // ---- sorting and de-duplicating the candidates -------------------------------------------------

  ghost predicate Ascending(s: seq<seq<nat>>) {
    forall i, j | 0 <= i < j < |s| :: LexLess(s[i], s[j])
  }

  method SortDistinct(candidates: seq<seq<nat>>) returns (sorted: seq<seq<nat>>)
    ensures Ascending(sorted) && forall o :: o in sorted <==> o in candidates
  {
    sorted := [];
    for i := 0 to |candidates|
      invariant Ascending(sorted) && forall o :: o in sorted <==> o in candidates[..i]
    {
      assert candidates[..i + 1] == candidates[..i] + [candidates[i]];
      sorted := InsertDistinct(sorted, candidates[i]);
    }
    assert candidates[..|candidates|] == candidates;
  }

  method InsertDistinct(sorted: seq<seq<nat>>, o: seq<nat>) returns (result: seq<seq<nat>>)
    requires Ascending(sorted)
    ensures Ascending(result) && forall x :: x in result <==> x in sorted || x == o
  {
    var at := 0;
    while at < |sorted| && LexLess(sorted[at], o)
      invariant at <= |sorted| && forall i | 0 <= i < at :: LexLess(sorted[i], o)
    {
      at := at + 1;
    }
    if at < |sorted| && sorted[at] == o { return sorted; }
    result := sorted[..at] + [o] + sorted[at..];
    forall i | at <= i < |sorted| ensures LexLess(o, sorted[i]) {
      LexTotal(o, sorted[at]);
      if at < i { LexTransitive(o, sorted[at], sorted[i]); }
    }
    assert forall x :: x in sorted <==> x in sorted[..at] || x in sorted[at..];
  }

  lemma AscendingIsDistinct(s: seq<seq<nat>>)
    requires Ascending(s)
    ensures Distinct(s)
  {
    forall i, j | 0 <= i < j < |s| ensures s[i] != s[j] { LexIrreflexive(s[i]); }
  }

  // ---- how often links are already used ----------------------------------------------------------

  type UsageTable = seq<seq<nat>>

  ghost predicate IsUsage(usage: UsageTable, n: nat) {
    |usage| == n && forall i | 0 <= i < n :: |usage[i]| == n
  }

  function NoUsage(n: nat): (usage: UsageTable)
    ensures IsUsage(usage, n)
  {
    seq(n, i => seq(n, j => 0))
  }

  function Bump(usage: UsageTable, n: nat, i: nat, j: nat): (next: UsageTable)
    requires IsUsage(usage, n) && i < n && j < n
    ensures IsUsage(next, n)
  {
    var count: nat := Min(usage[i][j] + 1, U16_MAX);
    var row: seq<nat> := usage[i][j := count];
    usage[i := row]
  }

  // Both directions of the first k ring positions, each counter sticking at its u16 limit.
  function AddRing(usage: UsageTable, n: nat, o: seq<nat>, k: nat): (next: UsageTable)
    requires IsUsage(usage, n) && |o| == n && k <= n && forall i | 0 <= i < n :: o[i] < n
    ensures IsUsage(next, n)
  {
    if k == 0 then usage
    else
      var first, second := o[k - 1], o[Successor(n, k - 1)];
      Bump(Bump(AddRing(usage, n, o, k - 1), n, first, second), n, second, first)
  }

  function UsageAfter(n: nat, selected: seq<seq<nat>>): (usage: UsageTable)
    requires forall i | 0 <= i < |selected| :: |selected[i]| == n && forall k | 0 <= k < n :: selected[i][k] < n
    ensures IsUsage(usage, n)
  {
    if selected == [] then NoUsage(n)
    else AddRing(UsageAfter(n, selected[..|selected| - 1]), n, selected[|selected| - 1], n)
  }

  function MaxUsage(usage: UsageTable, n: nat, o: seq<nat>, k: nat): nat
    requires IsUsage(usage, n) && |o| == n && k <= n && forall i | 0 <= i < n :: o[i] < n
  {
    if k == 0 then 0
    else
      var u, before := usage[o[k - 1]][o[Successor(n, k - 1)]], MaxUsage(usage, n, o, k - 1);
      if before < u then u else before
  }

  function TotalUsage(usage: UsageTable, n: nat, o: seq<nat>, k: nat): nat
    requires IsUsage(usage, n) && |o| == n && k <= n && forall i | 0 <= i < n :: o[i] < n
  {
    if k == 0 then 0 else SaturatingAdd(TotalUsage(usage, n, o, k - 1), usage[o[k - 1]][o[Successor(n, k - 1)]])
  }

  datatype Key = Key(freshness: int, spread: int, score: RingScore)

  predicate KeyLess(a: Key, b: Key) {
    a.freshness < b.freshness || (a.freshness == b.freshness &&
      (a.spread < b.spread || (a.spread == b.spread && ScoreLess(a.score, b.score))))
  }

  ghost function KeyOf(links: LinkTable, n: nat, usage: UsageTable, o: seq<nat>): Key
    requires IsClosedRing(links, n, o) && IsUsage(usage, n)
  {
    Key(U16_MAX as int - MaxUsage(usage, n, o, n), U64_MAX as int - TotalUsage(usage, n, o, n), ScoreOf(links, n, o))
  }

  method Score(links: LinkTable, n: nat, o: seq<nat>) returns (score: RingScore)
    requires IsClosedRing(links, n, o)
    ensures score == ScoreOf(links, n, o)
  {
    var bottleneck, totalBandwidth, totalLatency := U64_MAX, 0, 0;
    ghost var costs := EdgeCosts(links, n, o);
    for index := 0 to n
      invariant bottleneck == Bottleneck(costs[..index])
      invariant totalBandwidth == SumBandwidth(costs[..index]) && totalLatency == SumLatency(costs[..index])
    {
      assert Linked(links, o[index], o[Successor(n, index)]);
      var link := links[o[index]][o[Successor(n, index)]].value;
      assert costs[..index + 1][..index] == costs[..index];
      bottleneck := Min(bottleneck, link.bandwidthMbps);
      totalBandwidth := totalBandwidth + link.bandwidthMbps;
      totalLatency := totalLatency + link.latencyNs;
    }
    assert costs[..n] == costs;
    score := RingScore(bottleneck, totalBandwidth, U128_MAX as int - totalLatency);
  }

  method KeyFor(links: LinkTable, n: nat, usage: UsageTable, o: seq<nat>) returns (key: Key)
    requires IsClosedRing(links, n, o) && IsUsage(usage, n)
    ensures key == KeyOf(links, n, usage, o)
  {
    var maximumUsage, totalUsage := 0, 0;
    for position := 0 to n
      invariant maximumUsage == MaxUsage(usage, n, o, position) && totalUsage == TotalUsage(usage, n, o, position)
    {
      var count := usage[o[position]][o[Successor(n, position)]];
      maximumUsage := if maximumUsage < count then count else maximumUsage;
      totalUsage := SaturatingAdd(totalUsage, count);
    }
    var score := Score(links, n, o);
    key := Key(U16_MAX as int - maximumUsage, U64_MAX as int - totalUsage, score);
  }

  // ---- the greedy choice -------------------------------------------------------------------------

  ghost predicate Rings(links: LinkTable, n: nat, rings: seq<seq<nat>>) {
    forall i | 0 <= i < |rings| :: IsClosedRing(links, n, rings[i])
  }

  // `o` beats every other remaining ring for the given usage, the least order winning ties.
  ghost predicate IsBest(links: LinkTable, n: nat, usage: UsageTable, remaining: seq<seq<nat>>, o: seq<nat>)
    requires IsUsage(usage, n) && Rings(links, n, remaining)
  {
    o in remaining && forall i | 0 <= i < |remaining| ::
      !KeyLess(KeyOf(links, n, usage, o), KeyOf(links, n, usage, remaining[i])) &&
      (KeyLess(KeyOf(links, n, usage, remaining[i]), KeyOf(links, n, usage, o)) || LexLeq(o, remaining[i]))
  }

  ghost function KeysOf(links: LinkTable, n: nat, usage: UsageTable, remaining: seq<seq<nat>>): (keys: seq<Key>)
    requires IsUsage(usage, n) && Rings(links, n, remaining)
    ensures |keys| == |remaining| && forall i | 0 <= i < |remaining| :: keys[i] == KeyOf(links, n, usage, remaining[i])
  {
    seq(|remaining|, i requires 0 <= i < |remaining| => KeyOf(links, n, usage, remaining[i]))
  }

  // The first index of a greatest key among the first `upto`.
  ghost predicate IsFirstGreatest(keys: seq<Key>, upto: nat, best: nat) {
    && best < upto <= |keys|
    && (forall i | 0 <= i < upto :: !KeyLess(keys[best], keys[i]))
    && (forall i | 0 <= i < best :: KeyLess(keys[i], keys[best]))
  }

  lemma GreatestStep(keys: seq<Key>, upto: nat, best: nat)
    requires IsFirstGreatest(keys, upto, best) && upto < |keys|
    ensures IsFirstGreatest(keys, upto + 1, if KeyLess(keys[best], keys[upto]) then upto else best)
  {
  }

  lemma FirstGreatestIsBest(links: LinkTable, n: nat, usage: UsageTable, remaining: seq<seq<nat>>, best: nat)
    requires IsUsage(usage, n) && Rings(links, n, remaining) && Ascending(remaining)
    requires IsFirstGreatest(KeysOf(links, n, usage, remaining), |remaining|, best)
    ensures IsBest(links, n, usage, remaining, remaining[best])
  {
    var keys := KeysOf(links, n, usage, remaining);
    forall i | 0 <= i < |remaining|
      ensures !KeyLess(KeyOf(links, n, usage, remaining[best]), KeyOf(links, n, usage, remaining[i]))
      ensures KeyLess(KeyOf(links, n, usage, remaining[i]), KeyOf(links, n, usage, remaining[best])) || LexLeq(remaining[best], remaining[i])
    {
      assert keys[i] == KeyOf(links, n, usage, remaining[i]);
    }
  }

  method PickBest(links: LinkTable, n: nat, usage: UsageTable, remaining: seq<seq<nat>>) returns (best: nat)
    requires IsUsage(usage, n) && Rings(links, n, remaining) && Ascending(remaining) && |remaining| > 0
    ensures best < |remaining| && IsBest(links, n, usage, remaining, remaining[best])
  {
    ghost var keys := KeysOf(links, n, usage, remaining);
    best := 0;
    var bestKey := KeyFor(links, n, usage, remaining[0]);
    for index := 1 to |remaining|
      invariant best < index && bestKey == keys[best]
      invariant IsFirstGreatest(keys, index, best)
    {
      var key := KeyFor(links, n, usage, remaining[index]);
      GreatestStep(keys, index, best);
      if KeyLess(bestKey, key) {
        bestKey := key;
        best := index;
      }
    }
    FirstGreatestIsBest(links, n, usage, remaining, best);
  }

  method Record(n: nat, usage: UsageTable, o: seq<nat>) returns (next: UsageTable)
    requires IsUsage(usage, n) && |o| == n && forall i | 0 <= i < n :: o[i] < n
    ensures next == AddRing(usage, n, o, n)
  {
    next := usage;
    for position := 0 to n
      invariant IsUsage(next, n) && next == AddRing(usage, n, o, position)
    {
      var first, second := o[position], o[Successor(n, position)];
      next := Bump(next, n, first, second);
      next := Bump(next, n, second, first);
    }
  }

  // ---- select_diverse_rings ----------------------------------------------------------------------

  // Each pick was the best of what was left, given the links the picks before it had used.
  ghost predicate GreedyPicks(links: LinkTable, n: nat, candidates: seq<seq<nat>>, selected: seq<seq<nat>>) {
    selected == [] ||
      var before, pick := selected[..|selected| - 1], selected[|selected| - 1];
      && GreedyPicks(links, n, candidates, before) && Rings(links, n, before)
      && IsClosedRing(links, n, pick) && pick in candidates && pick !in before
      && forall x | x in candidates && x !in before :: Beats(links, n, UsageAfter(n, before), pick, x)
  }

  ghost predicate Beats(links: LinkTable, n: nat, usage: UsageTable, o: seq<nat>, other: seq<nat>)
    requires IsUsage(usage, n) && IsClosedRing(links, n, o)
  {
    IsClosedRing(links, n, other) &&
    !KeyLess(KeyOf(links, n, usage, o), KeyOf(links, n, usage, other)) &&
    (KeyLess(KeyOf(links, n, usage, other), KeyOf(links, n, usage, o)) || LexLeq(o, other))
  }

  ghost predicate Splits(candidates: seq<seq<nat>>, selected: seq<seq<nat>>, remaining: seq<seq<nat>>) {
    && Ascending(remaining)
    && (forall o :: o in remaining <==> o in candidates && o !in selected)
  }

  lemma RemoveOne<T(!new)>(s: seq<T>, at: nat)
    requires Distinct(s) && at < |s|
    ensures forall x :: x in s[..at] + s[at + 1..] <==> x in s && x != s[at]
  {
    var rest := s[..at] + s[at + 1..];
    forall x | x in s && x != s[at] ensures x in rest {
      var i :| 0 <= i < |s| && s[i] == x;
      assert rest[if i < at then i else i - 1] == x;
    }
    forall x | x in rest ensures x in s && x != s[at] {
      var i :| 0 <= i < |rest| && rest[i] == x;
      assert rest[i] == s[if i < at then i else i + 1];
    }
  }

  lemma PickSplits(candidates: seq<seq<nat>>, selected: seq<seq<nat>>, remaining: seq<seq<nat>>, best: nat)
    requires Splits(candidates, selected, remaining) && best < |remaining|
    ensures Splits(candidates, selected + [remaining[best]], remaining[..best] + remaining[best + 1..])
  {
    AscendingIsDistinct(remaining);
    RemoveOne(remaining, best);
  }

  lemma PickIsGreedy(links: LinkTable, n: nat, candidates: seq<seq<nat>>, selected: seq<seq<nat>>, remaining: seq<seq<nat>>, o: seq<nat>)
    requires Rings(links, n, selected) && Rings(links, n, remaining)
    requires GreedyPicks(links, n, candidates, selected) && Splits(candidates, selected, remaining)
    requires IsBest(links, n, UsageAfter(n, selected), remaining, o)
    ensures GreedyPicks(links, n, candidates, selected + [o]) && Rings(links, n, selected + [o])
  {
    var next := selected + [o];
    assert next[..|next| - 1] == selected;
    forall x | x in candidates && x !in selected ensures Beats(links, n, UsageAfter(n, selected), o, x) {
      assert x in remaining;
      var i :| 0 <= i < |remaining| && remaining[i] == x;
    }
  }

  lemma {:induction false} GreedyIsDistinct(links: LinkTable, n: nat, candidates: seq<seq<nat>>, selected: seq<seq<nat>>)
    requires GreedyPicks(links, n, candidates, selected)
    ensures Distinct(selected) && Rings(links, n, selected) && forall o :: o in selected ==> o in candidates
  {
    if selected != [] {
      var before, pick := selected[..|selected| - 1], selected[|selected| - 1];
      GreedyIsDistinct(links, n, candidates, before);
      assert selected == before + [pick];
    }
  }

  // Before anything is selected only the ring score counts.
  lemma {:induction false} UnusedKeys(links: LinkTable, n: nat, o: seq<nat>, k: nat)
    requires IsOrder(n, o) && k <= n
    ensures MaxUsage(NoUsage(n), n, o, k) == 0 && TotalUsage(NoUsage(n), n, o, k) == 0
  {
    if k > 0 { UnusedKeys(links, n, o, k - 1); }
  }

  lemma {:induction false} FirstPickHasBestScore(links: LinkTable, n: nat, candidates: seq<seq<nat>>, selected: seq<seq<nat>>, o: seq<nat>)
    requires GreedyPicks(links, n, candidates, selected) && selected != [] && o in candidates
    ensures IsClosedRing(links, n, selected[0]) && IsClosedRing(links, n, o)
    ensures !ScoreLess(ScoreOf(links, n, selected[0]), ScoreOf(links, n, o))
    ensures ScoreOf(links, n, o) == ScoreOf(links, n, selected[0]) ==> LexLeq(selected[0], o)
  {
    var before := selected[..|selected| - 1];
    if before == [] {
      assert Beats(links, n, NoUsage(n), selected[0], o);
      UnusedKeys(links, n, selected[0], n);
      UnusedKeys(links, n, o, n);
    } else {
      FirstPickHasBestScore(links, n, candidates, before, o);
      assert before[0] == selected[0];
    }
  }

  lemma MembersAreRings(links: LinkTable, n: nat, candidates: seq<seq<nat>>, sorted: seq<seq<nat>>)
    requires Rings(links, n, candidates) && forall o :: o in sorted <==> o in candidates
    ensures Rings(links, n, sorted)
  {
    forall i | 0 <= i < |sorted| ensures IsClosedRing(links, n, sorted[i]) {
      assert sorted[i] in sorted;
      var j :| 0 <= j < |candidates| && candidates[j] == sorted[i];
    }
  }

  lemma ShorterRemaining(candidates: seq<seq<nat>>, sorted: seq<seq<nat>>)
    requires Ascending(sorted) && forall o :: o in sorted <==> o in candidates
    ensures |sorted| == |Elements(candidates)|
  {
    AscendingIsDistinct(sorted);
    DistinctSize(sorted);
    assert Elements(sorted) == Elements(candidates);
  }

  // One round: take the best remaining ring and record its links.
  method SelectOne(links: LinkTable, n: nat, ghost candidates: seq<seq<nat>>, usage: UsageTable, ghost selected: seq<seq<nat>>,
                   remaining: seq<seq<nat>>)
    returns (order: seq<nat>, rest: seq<seq<nat>>, next: UsageTable)
    requires Rings(links, n, selected) && Rings(links, n, remaining) && |remaining| > 0
    requires GreedyPicks(links, n, candidates, selected) && Splits(candidates, selected, remaining)
    requires usage == UsageAfter(n, selected)
    ensures Rings(links, n, selected + [order]) && Rings(links, n, rest) && |rest| == |remaining| - 1
    ensures GreedyPicks(links, n, candidates, selected + [order]) && Splits(candidates, selected + [order], rest)
    ensures next == UsageAfter(n, selected + [order])
  {
    var bestIndex := PickBest(links, n, usage, remaining);
    order := remaining[bestIndex];
    PickIsGreedy(links, n, candidates, selected, remaining, order);
    PickSplits(candidates, selected, remaining, bestIndex);
    rest := remaining[..bestIndex] + remaining[bestIndex + 1..];
    next := Record(n, usage, order);
    assert (selected + [order])[..|selected|] == selected;
  }

  // Picks `maximum` rings, or all distinct ones if there are fewer; no candidate at all is an error.
  method SelectDiverseRings(links: LinkTable, n: nat, candidates: seq<seq<nat>>, maximum: nat)
    returns (result: Result<seq<seq<nat>>, RingError>)
    requires Rings(links, n, candidates)
    ensures result.Err? <==> candidates == []
    ensures result.Ok? ==> GreedyPicks(links, n, candidates, result.value)
    ensures result.Ok? ==> |result.value| == Min(maximum, |Elements(candidates)|)
  {
    if candidates == [] { return Err(NoClosedRing); }
    var remaining := SortDistinct(candidates);
    ShorterRemaining(candidates, remaining);
    MembersAreRings(links, n, candidates, remaining);
    ghost var total := |remaining|;
    var usage := NoUsage(n);
    var selected: seq<seq<nat>> := [];
    while |selected| < maximum && |remaining| > 0
      invariant Rings(links, n, selected) && Rings(links, n, remaining)
      invariant GreedyPicks(links, n, candidates, selected) && Splits(candidates, selected, remaining)
      invariant usage == UsageAfter(n, selected)
      invariant |selected| <= maximum && |selected| + |remaining| == total
      decreases |remaining|
    {
      var order: seq<nat>;
      order, remaining, usage := SelectOne(links, n, candidates, usage, selected, remaining);
      selected := selected + [order];
    }
    return Ok(selected);
  }

  datatype RingError = NoClosedRing

  // ---- best_ring_orders --------------------------------------------------------------------------

  // The promise to the caller in the exhaustively searched range.
  ghost predicate BestRings(links: LinkTable, n: nat, maximum: nat, result: Result<seq<seq<nat>>, RingError>) {
    match result
    case Err(_) => maximum > 0 && !exists o :: IsClosedRing(links, n, o)
    case Ok(orders) =>
      && |orders| <= maximum && Distinct(orders) && Rings(links, n, orders)
      && (maximum > 0 ==> orders != [])
      && (orders != [] ==> forall o | IsClosedRing(links, n, o) :: !ScoreLess(ScoreOf(links, n, orders[0]), ScoreOf(links, n, o)))
  }

  lemma NoCandidateNoRing(links: LinkTable, n: nat)
    requires IsTable(links, n) && Lists(links, n, [], [0])
    ensures !exists o :: IsClosedRing(links, n, o)
  {
    forall o ensures !IsClosedRing(links, n, o) {
      if IsClosedRing(links, n, o) {
        var c := Representative(links, n, o);
        assert false;
      }
    }
  }

  lemma GreedyIsBest(links: LinkTable, n: nat, candidates: seq<seq<nat>>, selected: seq<seq<nat>>)
    requires IsTable(links, n) && Lists(links, n, candidates, [0]) && candidates != []
    requires GreedyPicks(links, n, candidates, selected) && selected != []
    ensures Rings(links, n, selected)
    ensures forall o | IsClosedRing(links, n, o) :: !ScoreLess(ScoreOf(links, n, selected[0]), ScoreOf(links, n, o))
  {
    GreedyIsDistinct(links, n, candidates, selected);
    forall o | IsClosedRing(links, n, o) ensures !ScoreLess(ScoreOf(links, n, selected[0]), ScoreOf(links, n, o)) {
      var c := Representative(links, n, o);
      assert [0] <= c;
      FirstPickHasBestScore(links, n, candidates, selected, c);
    }
  }

  // ---- the heuristic for larger worlds -----------------------------------------------------------

  // Wider first, then quicker, then the lower rank.
  predicate Preferred(links: LinkTable, current: nat, a: nat, b: nat)
    requires Linked(links, current, a) && Linked(links, current, b)
  {
    var x, y := links[current][a].value, links[current][b].value;
    x.bandwidthMbps > y.bandwidthMbps || (x.bandwidthMbps == y.bandwidthMbps &&
      (x.latencyNs < y.latencyNs || (x.latencyNs == y.latencyNs && a < b)))
  }

  // The best link from the end of the path to a rank that is not on it.
  ghost predicate IsPreferredNext(links: LinkTable, n: nat, path: seq<nat>, next: nat)
    requires path != []
  {
    var last := path[|path| - 1];
    && next < n && next !in path && Linked(links, last, next)
    && forall r: nat | r < n && r !in path && Linked(links, last, r) :: !Preferred(links, last, r, next)
  }

  // Every rank of the path after the first is the preferred next one.
  ghost predicate IsGreedyPath(links: LinkTable, n: nat, start: nat, path: seq<nat>) {
    && path != [] && path[0] == start < n
    && forall k | 0 < k < |path| :: IsPreferredNext(links, n, path[..k], path[k])
  }

  // Where a greedy path ends without a ring: no rank left to go to, or no way back.
  ghost predicate IsDeadEnd(links: LinkTable, n: nat, path: seq<nat>)
    requires path != []
  {
    if |path| < n then forall r: nat | r < n && r !in path :: !Linked(links, path[|path| - 1], r)
    else !Linked(links, path[|path| - 1], path[0])
  }

  // The ring the heuristic finds from a rank, or none.
  ghost predicate IsNearestRing(links: LinkTable, n: nat, start: nat, ring: Option<seq<nat>>) {
    match ring
    case Some(order) => IsGreedyPath(links, n, start, order) && IsClosedRing(links, n, order)
    case None => exists path :: IsGreedyPath(links, n, start, path) && |path| <= n && IsDeadEnd(links, n, path)
  }

  lemma GreedyStep(links: LinkTable, n: nat, start: nat, path: seq<nat>, k: nat)
    requires IsGreedyPath(links, n, start, path) && 0 < k < |path|
    ensures IsPreferredNext(links, n, path[..k], path[k])
  {
  }

  lemma PreferredNextUnique(links: LinkTable, n: nat, path: seq<nat>, a: nat, b: nat)
    requires path != [] && IsPreferredNext(links, n, path, a) && IsPreferredNext(links, n, path, b)
    ensures a == b
  {
    var last := path[|path| - 1];
    assert !Preferred(links, last, a, b) && !Preferred(links, last, b, a);
  }

  // Greedy paths from one rank agree as far as both go.
  lemma {:induction false} GreedyPathsAgree(links: LinkTable, n: nat, start: nat, a: seq<nat>, b: seq<nat>, k: nat)
    requires IsGreedyPath(links, n, start, a) && IsGreedyPath(links, n, start, b) && k <= |a| && k <= |b|
    ensures a[..k] == b[..k]
  {
    if k > 1 {
      GreedyPathsAgree(links, n, start, a, b, k - 1);
      GreedyStep(links, n, start, a, k - 1);
      GreedyStep(links, n, start, b, k - 1);
      PreferredNextUnique(links, n, a[..k - 1], a[k - 1], b[k - 1]);
      assert a[..k] == a[..k - 1] + [a[k - 1]] && b[..k] == b[..k - 1] + [b[k - 1]];
    }
  }

  method PreferredNext(links: LinkTable, n: nat, ghost path: seq<nat>, current: nat, used: seq<bool>) returns (next: Option<nat>)
    requires IsTable(links, n) && |used| == n && path != [] && current == path[|path| - 1] < n && Marks(used, path)
    ensures next.None? ==> forall r: nat | r < n && r !in path :: !Linked(links, current, r)
    ensures next.Some? ==> IsPreferredNext(links, n, path, next.value)
  {
    next := None;
    for rank := 0 to n
      invariant next.None? ==> forall r | 0 <= r < rank :: used[r] || !Linked(links, current, r)
      invariant next.Some? ==> next.value < rank && !used[next.value] && Linked(links, current, next.value)
      invariant next.Some? ==> forall r | 0 <= r < rank && !used[r] && Linked(links, current, r) :: !Preferred(links, current, r, next.value)
    {
      if !used[rank] && Linked(links, current, rank) && (next.None? || Preferred(links, current, rank, next.value)) {
        next := Some(rank);
      }
    }
  }

  ghost predicate Marks(used: seq<bool>, path: seq<nat>) {
    forall r | 0 <= r < |used| :: used[r] <==> r in path
  }

  lemma MarkOne(used: seq<bool>, path: seq<nat>, next: nat)
    requires Marks(used, path) && next < |used|
    ensures Marks(used[next := true], path + [next])
  {
  }

  ghost predicate IsTrail(links: LinkTable, n: nat, order: seq<nat>) {
    && 0 < |order| <= n
    && (forall i | 0 <= i < |order| :: order[i] < n)
    && (forall i, j | 0 <= i < j < |order| :: order[i] != order[j])
    && (forall i, j | 0 <= i < |order| && j == i + 1 && j < |order| :: Linked(links, order[i], order[j]))
  }

  lemma ExtendTrail(links: LinkTable, n: nat, order: seq<nat>, next: nat)
    requires IsTrail(links, n, order) && |order| < n && IsPreferredNext(links, n, order, next)
    ensures IsTrail(links, n, order + [next])
  {
  }

  lemma ExtendGreedyPath(links: LinkTable, n: nat, start: nat, order: seq<nat>, next: nat)
    requires IsGreedyPath(links, n, start, order) && IsPreferredNext(links, n, order, next)
    ensures IsGreedyPath(links, n, start, order + [next])
  {
    var path := order + [next];
    forall k | 0 < k < |path| ensures IsPreferredNext(links, n, path[..k], path[k]) {
      assert path[..k] == order[..k];
      assert order[..|order|] == order;
    }
  }

  lemma CloseTrail(links: LinkTable, n: nat, order: seq<nat>)
    requires IsTrail(links, n, order) && |order| == n && Linked(links, order[n - 1], order[0])
    ensures IsClosedRing(links, n, order)
  {
    forall i | 0 <= i < n ensures Linked(links, order[i], order[Successor(n, i)]) { }
  }

  method NearestNeighbourRing(links: LinkTable, n: nat, start: nat) returns (ring: Option<seq<nat>>)
    requires IsTable(links, n) && start < n
    ensures IsNearestRing(links, n, start, ring)
  {
    var order := [start];
    var used := seq(n, i => i == start);
    while |order| < n
      invariant IsTrail(links, n, order) && IsGreedyPath(links, n, start, order) && |used| == n && Marks(used, order)
    {
      var next := PreferredNext(links, n, order, order[|order| - 1], used);
      if next.None? {
        assert IsDeadEnd(links, n, order);
        return None;
      }
      ExtendTrail(links, n, order, next.value);
      ExtendGreedyPath(links, n, start, order, next.value);
      MarkOne(used, order, next.value);
      used := used[next.value := true];
      order := order + [next.value];
    }
    if !Linked(links, order[n - 1], order[0]) {
      assert IsDeadEnd(links, n, order);
      return None;
    }
    CloseTrail(links, n, order);
    return Some(order);
  }

  function Lesser(order: seq<nat>): seq<nat>
    requires |order| > 0
  {
    if LexLess(Backwards(order), order) then Backwards(order) else order
  }

  // The ring read from rank 0 in its lesser direction.
  ghost predicate IsCanonical(order: seq<nat>, ring: seq<nat>) {
    exists p :: 0 <= p < |order| && order[p] == 0 && ring == Lesser(RotateLeft(order, p))
  }

  // Rotated to rank 0 and turned into its lesser direction: the same canonical form the search lists.
  method RotateRingToZero(links: LinkTable, n: nat, order: seq<nat>) returns (ring: seq<nat>)
    requires IsTable(links, n) && IsClosedRing(links, n, order)
    ensures IsCandidate(links, n, ring) && ScoreOf(links, n, ring) == ScoreOf(links, n, order)
    ensures IsCanonical(order, ring)
  {
    var position := PositionOfZero(n, order);
    RotationScore(links, n, order, position);
    ring := RotateLeft(order, position);
    LesserIsCandidate(links, n, ring);
    if LexLess(Backwards(ring), ring) { ring := Backwards(ring); }
  }

  method PositionOfZero(n: nat, order: seq<nat>) returns (position: nat)
    requires n > 0 && IsOrder(n, order)
    ensures position < |order| && order[position] == 0
  {
    ghost var p := OrderContains(n, order, 0);
    position := 0;
    while order[position] != 0
      invariant position <= p
      decreases p - position
    {
      position := position + 1;
    }
  }

  // Of a ring from rank 0 the lesser direction is listed, and it scores the same.
  lemma LesserIsCandidate(links: LinkTable, n: nat, ring: seq<nat>)
    requires IsTable(links, n) && IsClosedRing(links, n, ring) && ring[0] == 0
    ensures IsCandidate(links, n, Lesser(ring)) && ScoreOf(links, n, Lesser(ring)) == ScoreOf(links, n, ring)
  {
    BackwardsScore(links, n, ring);
    BackwardsTwice(ring);
    LexTotal(ring, Backwards(ring));
  }

  // What the heuristic found from one start, in canonical form, is among the candidates.
  ghost predicate Represented(links: LinkTable, n: nat, candidates: seq<seq<nat>>, start: nat) {
    exists ring :: IsNearestRing(links, n, start, ring) && (ring.Some? ==> HasCanonical(candidates, ring.value))
  }

  ghost predicate HasCanonical(candidates: seq<seq<nat>>, order: seq<nat>) {
    exists o :: o in candidates && IsCanonical(order, o)
  }

  ghost predicate FoundFrom(links: LinkTable, n: nat, o: seq<nat>, starts: nat) {
    exists start: nat, order :: start < starts && IsNearestRing(links, n, start, Some(order)) && IsCanonical(order, o)
  }

  // The candidates of the heuristic: the canonical rings found from ranks 0, 1, ..., without repetition.
  ghost predicate AreNearestRings(links: LinkTable, n: nat, candidates: seq<seq<nat>>, starts: nat) {
    Distinct(candidates) && AllFound(links, n, candidates, starts) && AllRepresented(links, n, candidates, starts)
  }

  ghost predicate AllFound(links: LinkTable, n: nat, candidates: seq<seq<nat>>, starts: nat) {
    forall o | o in candidates :: IsCandidate(links, n, o) && FoundFrom(links, n, o, starts)
  }

  ghost predicate AllRepresented(links: LinkTable, n: nat, candidates: seq<seq<nat>>, starts: nat) {
    forall start: nat | start < starts :: Represented(links, n, candidates, start)
  }

  lemma FoundSince(links: LinkTable, n: nat, o: seq<nat>, starts: nat)
    requires FoundFrom(links, n, o, starts)
    ensures FoundFrom(links, n, o, starts + 1)
  {
    var s: nat, order :| s < starts && IsNearestRing(links, n, s, Some(order)) && IsCanonical(order, o);
    assert s < starts + 1;
  }

  lemma AddOnce(candidates: seq<seq<nat>>, o: seq<nat>, next: seq<seq<nat>>)
    requires Distinct(candidates) && next == if o in candidates then candidates else candidates + [o]
    ensures Distinct(next) && candidates <= next && o in next && forall c | c in next :: c in candidates || c == o
  {
  }

  lemma MoreRepresented(links: LinkTable, n: nat, candidates: seq<seq<nat>>, start: nat, next: seq<seq<nat>>)
    requires AllRepresented(links, n, candidates, start) && Represented(links, n, next, start) && candidates <= next
    ensures AllRepresented(links, n, next, start + 1)
  {
    forall s: nat | s < start + 1 ensures Represented(links, n, next, s) {
      if s < start { StillRepresented(links, n, candidates, next, s); }
    }
  }

  lemma MoreFound(links: LinkTable, n: nat, candidates: seq<seq<nat>>, start: nat, o: seq<nat>, next: seq<seq<nat>>)
    requires AllFound(links, n, candidates, start) && IsCandidate(links, n, o) && FoundFrom(links, n, o, start + 1)
    requires forall c | c in next :: c in candidates || c == o
    ensures AllFound(links, n, next, start + 1)
  {
    forall c | c in next ensures IsCandidate(links, n, c) && FoundFrom(links, n, c, start + 1) {
      if c != o { FoundSince(links, n, c, start); }
    }
  }

  lemma FoundMore(links: LinkTable, n: nat, candidates: seq<seq<nat>>, start: nat, order: seq<nat>, o: seq<nat>, next: seq<seq<nat>>)
    requires AreNearestRings(links, n, candidates, start) && IsNearestRing(links, n, start, Some(order))
    requires IsCanonical(order, o) && IsCandidate(links, n, o)
    requires Distinct(next) && candidates <= next && o in next && forall c | c in next :: c in candidates || c == o
    ensures AreNearestRings(links, n, next, start + 1)
  {
    FoundOne(links, n, start, order, o, next);
    MoreFound(links, n, candidates, start, o, next);
    MoreRepresented(links, n, candidates, start, next);
  }

  lemma FoundOne(links: LinkTable, n: nat, start: nat, order: seq<nat>, o: seq<nat>, next: seq<seq<nat>>)
    requires IsNearestRing(links, n, start, Some(order)) && IsCanonical(order, o) && o in next
    ensures FoundFrom(links, n, o, start + 1) && Represented(links, n, next, start)
  {
    assert HasCanonical(next, order);
  }

  lemma StillRepresented(links: LinkTable, n: nat, candidates: seq<seq<nat>>, next: seq<seq<nat>>, start: nat)
    requires Represented(links, n, candidates, start) && candidates <= next
    ensures Represented(links, n, next, start)
  {
    var ring :| IsNearestRing(links, n, start, ring) && (ring.Some? ==> HasCanonical(candidates, ring.value));
    if ring.Some? {
      var o :| o in candidates && IsCanonical(ring.value, o);
      assert o in next;
    }
  }

  lemma FoundNothing(links: LinkTable, n: nat, candidates: seq<seq<nat>>, start: nat)
    requires AreNearestRings(links, n, candidates, start) && IsNearestRing(links, n, start, None)
    ensures AreNearestRings(links, n, candidates, start + 1)
  {
    forall c | c in candidates ensures FoundFrom(links, n, c, start + 1) { FoundSince(links, n, c, start); }
    forall s: nat | s < start + 1 ensures Represented(links, n, candidates, s) {
      if s == start { assert IsNearestRing(links, n, s, None); }
    }
  }

  method NearestNeighbourRings(links: LinkTable, n: nat) returns (candidates: seq<seq<nat>>)
    requires IsTable(links, n)
    ensures AreNearestRings(links, n, candidates, n)
  {
    candidates := [];
    for start := 0 to n
      invariant AreNearestRings(links, n, candidates, start)
    {
      var ring := NearestNeighbourRing(links, n, start);
      if ring.None? {
        FoundNothing(links, n, candidates, start);
        continue;
      }
      var canonical := RotateRingToZero(links, n, ring.value);
      ghost var before := candidates;
      if canonical !in candidates { candidates := candidates + [canonical]; }
      AddOnce(before, canonical, candidates);
      FoundMore(links, n, before, start, ring.value, canonical, candidates);
    }
  }

  // What larger worlds get: the greedy selection among the rings the heuristic finds, an error when it
  // finds none.
  ghost predicate HeuristicRings(links: LinkTable, n: nat, maximum: nat, result: Result<seq<seq<nat>>, RingError>, candidates: seq<seq<nat>>) {
    && AreNearestRings(links, n, candidates, n) && Rings(links, n, candidates)
    && (result.Err? <==> candidates == [])
    && (result.Ok? ==> GreedyPicks(links, n, candidates, result.value) && |result.value| == Min(maximum, |Elements(candidates)|))
  }

  // Worlds of up to nine ranks are searched exhaustively, so the first ring is a best one of all.
  // Larger worlds get distinct closed rings too, chosen among those of the heuristic.
  method BestRingOrders(links: LinkTable, n: nat, maximum: nat) returns (result: Result<seq<seq<nat>>, RingError>, ghost found: seq<seq<nat>>)
    requires IsTable(links, n) && n > 0
    ensures maximum == 0 ==> result == Ok([])
    ensures maximum > 0 && n == 1 ==> result == Ok([[0]])
    ensures 1 < n <= EXACT_RING_SEARCH_MAX_RANKS ==> BestRings(links, n, maximum, result)
    ensures n > EXACT_RING_SEARCH_MAX_RANKS && maximum > 0 ==> HeuristicRings(links, n, maximum, result, found)
    ensures n > 1 && result.Ok? ==> |result.value| <= maximum && Distinct(result.value) && Rings(links, n, result.value)
  {
    found := [];
    if maximum == 0 { return Ok([]), []; }
    if n == 1 { return Ok([[0]]), []; }
    if n <= EXACT_RING_SEARCH_MAX_RANKS {
      result := ExactRingOrders(links, n, maximum);
      return;
    }
    var candidates := NearestNeighbourRings(links, n);
    found := candidates;
    assert Rings(links, n, candidates) by {
      forall i | 0 <= i < |candidates| ensures IsClosedRing(links, n, candidates[i]) { assert candidates[i] in candidates; }
    }
    result := SelectDiverseRings(links, n, candidates, maximum);
    if result.Ok? { GreedyIsDistinct(links, n, candidates, result.value); }
  }

  method ExactRingOrders(links: LinkTable, n: nat, maximum: nat) returns (result: Result<seq<seq<nat>>, RingError>)
    requires IsTable(links, n) && n > 1 && maximum > 0
    ensures BestRings(links, n, maximum, result)
  {
    var collector := new RingCollector(n, links);
    ghost var added := collector.CollectRings();
    var candidates := collector.candidates;
    assert candidates == added;
    forall i | 0 <= i < |candidates| ensures IsClosedRing(links, n, candidates[i]) { assert candidates[i] in candidates; }
    result := SelectDiverseRings(links, n, candidates, maximum);
    if result.Err? {
      NoCandidateNoRing(links, n);
    } else {
      SomePicked(candidates);
      GreedyIsBest(links, n, candidates, result.value);
      GreedyIsDistinct(links, n, candidates, result.value);
    }
  }

  lemma SomePicked<T(!new)>(candidates: seq<T>)
    requires candidates != []
    ensures |Elements(candidates)| > 0
  {
    assert candidates[0] in Elements(candidates);
  }
}
