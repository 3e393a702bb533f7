// src/rank/topology.rs: what the planner's choice of rings means for the links and for how often they
// are already used, without the keys it compares.
module RingQuality {
  import opened Wrappers
  import opened Numbers
  import opened Lexicographic
  import opened ShortestPath
  import opened Topology
  import opened RingSearch
  import opened RingSelection
  import Transpose

  // The link from position i of the ring to the next one.
  function HopLink(links: LinkTable, n: nat, o: seq<nat>, i: nat): LinkCost
    requires IsClosedRing(links, n, o) && i < n
  {
    assert Linked(links, o[i], o[Successor(n, i)]);
    links[o[i]][o[Successor(n, i)]].value
  }

  function Bandwidths(links: LinkTable, n: nat, o: seq<nat>): (widths: seq<nat>)
    requires IsClosedRing(links, n, o)
    ensures |widths| == n
  {
    seq(n, i requires 0 <= i < n => HopLink(links, n, o, i).bandwidthMbps)
  }

  function Latencies(links: LinkTable, n: nat, o: seq<nat>): (latencies: seq<nat>)
    requires IsClosedRing(links, n, o)
    ensures |latencies| == n
  {
    seq(n, i requires 0 <= i < n => HopLink(links, n, o, i).latencyNs)
  }

  // ---- links -------------------------------------------------------------------------------------

  // Some link of the second is no wider than every link of the first.
  ghost predicate NoNarrower(a: seq<nat>, b: seq<nat>) {
    exists j :: 0 <= j < |b| && AllAtLeast(a, b[j])
  }

  ghost predicate AllAtLeast(a: seq<nat>, least: nat) { forall i | 0 <= i < |a| :: least <= a[i] }

  // The narrowest link decides, then the greater sum of bandwidths, then the lesser sum of latencies.
  ghost predicate NoWorse(links: LinkTable, n: nat, a: seq<nat>, b: seq<nat>)
    requires IsClosedRing(links, n, a) && IsClosedRing(links, n, b)
  {
    var w, v := Bandwidths(links, n, a), Bandwidths(links, n, b);
    NoNarrower(w, v) && (NoNarrower(v, w) ==>
      Transpose.Sum(v) <= Transpose.Sum(w) && (Transpose.Sum(v) == Transpose.Sum(w) ==>
        Transpose.Sum(Latencies(links, n, a)) <= Transpose.Sum(Latencies(links, n, b))))
  }

  lemma {:induction false} CostSums(costs: seq<LinkCost>, widths: seq<nat>, latencies: seq<nat>)
    requires |costs| == |widths| == |latencies|
    requires forall i | 0 <= i < |costs| :: widths[i] == costs[i].bandwidthMbps && latencies[i] == costs[i].latencyNs
    ensures SumBandwidth(costs) == Transpose.Sum(widths) && SumLatency(costs) == Transpose.Sum(latencies)
  {
    if costs != [] {
      var last := |costs| - 1;
      CostSums(costs[..last], widths[..last], latencies[..last]);
    }
  }

  lemma {:induction false} NarrowestLink(costs: seq<LinkCost>, widths: seq<nat>)
    requires |costs| == |widths| > 0 && forall i | 0 <= i < |costs| :: widths[i] == costs[i].bandwidthMbps
    ensures Bottleneck(costs) in widths && AllAtLeast(widths, Bottleneck(costs))
  {
    var last := |costs| - 1;
    assert Bottleneck([]) == U64_MAX;
    if last > 0 {
      NarrowestLink(costs[..last], widths[..last]);
      assert widths == widths[..last] + [widths[last]];
    } else {
      assert costs[..0] == [];
    }
  }

  lemma NarrowestDecides(a: seq<nat>, b: seq<nat>, x: nat, y: nat)
    requires x in a && AllAtLeast(a, x) && y in b && AllAtLeast(b, y)
    ensures NoNarrower(a, b) <==> x >= y
  {
    if x >= y {
      var j :| 0 <= j < |b| && b[j] == y;
      assert AllAtLeast(a, b[j]);
    }
  }

  lemma RingCosts(links: LinkTable, n: nat, o: seq<nat>)
    requires IsClosedRing(links, n, o)
    ensures var score, widths := ScoreOf(links, n, o), Bandwidths(links, n, o);
      && score.bottleneck in widths && AllAtLeast(widths, score.bottleneck)
      && score.totalBandwidth == Transpose.Sum(widths)
      && score.inverseLatency == U128_MAX as int - Transpose.Sum(Latencies(links, n, o))
  {
    var costs, widths, latencies := EdgeCosts(links, n, o), Bandwidths(links, n, o), Latencies(links, n, o);
    forall i | 0 <= i < n ensures widths[i] == costs[i].bandwidthMbps && latencies[i] == costs[i].latencyNs {
      assert costs[i] == HopLink(links, n, o, i);
    }
    CostSums(costs, widths, latencies);
    NarrowestLink(costs, widths);
  }

  // The score compares as the links do.
  lemma ScoreMeans(links: LinkTable, n: nat, a: seq<nat>, b: seq<nat>)
    requires IsClosedRing(links, n, a) && IsClosedRing(links, n, b)
    ensures !ScoreLess(ScoreOf(links, n, a), ScoreOf(links, n, b)) <==> NoWorse(links, n, a, b)
  {
    RingCosts(links, n, a);
    RingCosts(links, n, b);
    var x, y := ScoreOf(links, n, a).bottleneck, ScoreOf(links, n, b).bottleneck;
    NarrowestDecides(Bandwidths(links, n, a), Bandwidths(links, n, b), x, y);
    NarrowestDecides(Bandwidths(links, n, b), Bandwidths(links, n, a), y, x);
  }

  // Up to nine ranks: no closed ring of the graph is better than the first one returned.
  lemma FirstRingIsWidest(links: LinkTable, n: nat, maximum: nat, orders: seq<seq<nat>>, o: seq<nat>)
    requires BestRings(links, n, maximum, Ok(orders)) && orders != [] && IsClosedRing(links, n, o)
    ensures IsClosedRing(links, n, orders[0]) && NoWorse(links, n, orders[0], o)
  {
    ScoreMeans(links, n, orders[0], o);
  }

  // ---- use ---------------------------------------------------------------------------------------

  ghost predicate Crosses(o: seq<nat>, i: nat, a: nat, b: nat)
    requires i < |o|
  {
    {o[i], o[Successor(|o|, i)]} == {a, b}
  }

  // A ring and a position on it.
  type Place = (nat, nat)

  ghost predicate IsPassage(rings: seq<seq<nat>>, p: Place, a: nat, b: nat) {
    p.0 < |rings| && p.1 < |rings[p.0]| && Crosses(rings[p.0], p.1, a, b)
  }

  // Every place of a selected ring, counted by ring and position.
  ghost function Places(rings: seq<seq<nat>>): (places: set<Place>)
    ensures forall p: Place :: p in places <==> p.0 < |rings| && p.1 < |rings[p.0]|
  {
    set r: nat, i: nat | r < |rings| && i < |rings[r]| :: (r, i)
  }

  // Every passage of a selected ring over the link between a and b.
  ghost function Crossings(rings: seq<seq<nat>>, a: nat, b: nat): (crossings: set<Place>)
    ensures forall p: Place :: p in crossings <==> IsPassage(rings, p, a, b)
  {
    set p: Place | p in Places(rings) && IsPassage(rings, p, a, b)
  }

  // How often the rings before used each link of o, as far as the counters go.
  ghost function Uses(before: seq<seq<nat>>, o: seq<nat>): (uses: seq<nat>)
    ensures |uses| == |o|
  {
    seq(|o|, i requires 0 <= i < |o| => var count: nat := Min(|Crossings(before, o[i], o[Successor(|o|, i)])|, U16_MAX); count)
  }

  ghost predicate AllAtMost(a: seq<nat>, most: nat) { forall i | 0 <= i < |a| :: a[i] <= most }

  ghost predicate IsGreatest(uses: seq<nat>, most: nat) { most in uses && AllAtMost(uses, most) }

  // Some link of the second is used no less than every link of the first.
  ghost predicate NoFuller(a: seq<nat>, b: seq<nat>) {
    exists j :: 0 <= j < |b| && AllAtMost(a, b[j])
  }

  function Capped(uses: seq<nat>): nat { var total: nat := Min(Transpose.Sum(uses), U64_MAX); total }

  // The most used link decides, then the total use, then the links, then the order.
  ghost predicate PreferredOver(links: LinkTable, n: nat, before: seq<seq<nat>>, a: seq<nat>, b: seq<nat>)
    requires IsClosedRing(links, n, a) && IsClosedRing(links, n, b)
  {
    var u, v := Uses(before, a), Uses(before, b);
    NoFuller(u, v) && (NoFuller(v, u) ==>
      Capped(u) <= Capped(v) && (Capped(u) == Capped(v) ==>
        NoWorse(links, n, a, b) && (NoWorse(links, n, b, a) ==> LexLeq(a, b))))
  }

  // The passages of the rings, of the last one only over its first k links.
  ghost function CrossingsTo(rings: seq<seq<nat>>, k: nat, a: nat, b: nat): (crossings: set<Place>)
    ensures forall p: Place :: p in crossings <==> IsPassage(rings, p, a, b) && (p.0 + 1 < |rings| || p.1 < k)
  {
    set p: Place | p in Crossings(rings, a, b) && (p.0 + 1 < |rings| || p.1 < k)
  }

  ghost predicate AllOrders(n: nat, rings: seq<seq<nat>>) { forall r | 0 <= r < |rings| :: IsOrder(n, rings[r]) }

  lemma CrossingsStep(rings: seq<seq<nat>>, k: nat, a: nat, b: nat)
    requires rings != [] && k < |rings[|rings| - 1]|
    ensures |CrossingsTo(rings, k + 1, a, b)| == |CrossingsTo(rings, k, a, b)| + if Crosses(rings[|rings| - 1], k, a, b) then 1 else 0
  {
    var here := (|rings| - 1, k);
    var before, after := CrossingsTo(rings, k, a, b), CrossingsTo(rings, k + 1, a, b);
    forall p: Place ensures p in after <==> p in before || (p == here && IsPassage(rings, here, a, b)) { }
    assert here !in before;
    assert after == if IsPassage(rings, here, a, b) then before + {here} else before;
  }

  lemma CrossingsEnds(rings: seq<seq<nat>>, a: nat, b: nat)
    requires rings != []
    ensures CrossingsTo(rings, 0, a, b) == Crossings(rings[..|rings| - 1], a, b)
    ensures CrossingsTo(rings, |rings[|rings| - 1]|, a, b) == Crossings(rings, a, b)
  {
    var front := rings[..|rings| - 1];
    forall p: Place ensures p in CrossingsTo(rings, 0, a, b) <==> p in Crossings(front, a, b) {
      assert p.0 < |front| ==> front[p.0] == rings[p.0];
    }
  }

  ghost function Count(crossings: set<Place>): nat { var count: nat := Min(|crossings|, U16_MAX); count }

  // One position of a ring raises the counters of its own link, in both directions, and no other.
  lemma BumpBoth(usage: UsageTable, n: nat, f: nat, s: nat, a: nat, b: nat)
    requires IsUsage(usage, n) && f < n && s < n && f != s && a < n && b < n && a != b && usage[a][b] <= U16_MAX
    ensures Bump(Bump(usage, n, f, s), n, s, f)[a][b] == if {f, s} == {a, b} then Min(usage[a][b] + 1, U16_MAX) else usage[a][b]
  {
    if {f, s} == {a, b} { assert a in {f, s} && b in {f, s}; }
  }

  lemma {:induction false} CountersCount(n: nat, rings: seq<seq<nat>>, k: nat, a: nat, b: nat)
    requires n > 1 && rings != [] && AllOrders(n, rings) && k <= n && a < n && b < n && a != b
    ensures AddRing(UsageAfter(n, rings[..|rings| - 1]), n, rings[|rings| - 1], k)[a][b] == Count(CrossingsTo(rings, k, a, b))
    decreases |rings|, k
  {
    var front, o := rings[..|rings| - 1], rings[|rings| - 1];
    if k == 0 {
      CrossingsEnds(rings, a, b);
      UsageCounts(n, front, a, b);
    } else {
      CountersCount(n, rings, k - 1, a, b);
      CrossingsStep(rings, k - 1, a, b);
      BumpBoth(AddRing(UsageAfter(n, front), n, o, k - 1), n, o[k - 1], o[Successor(n, k - 1)], a, b);
    }
  }

  // The table says how often the selected rings pass each link.
  lemma {:induction false} UsageCounts(n: nat, rings: seq<seq<nat>>, a: nat, b: nat)
    requires n > 1 && AllOrders(n, rings) && a < n && b < n && a != b
    ensures UsageAfter(n, rings)[a][b] == Count(Crossings(rings, a, b))
    decreases |rings|, n + 1
  {
    if rings == [] {
      assert Crossings(rings, a, b) == {};
    } else {
      CountersCount(n, rings, n, a, b);
      CrossingsEnds(rings, a, b);
    }
  }

  lemma UseAt(n: nat, before: seq<seq<nat>>, o: seq<nat>, i: nat)
    requires n > 1 && AllOrders(n, before) && IsOrder(n, o) && i < n
    ensures UsageAfter(n, before)[o[i]][o[Successor(n, i)]] == Uses(before, o)[i]
  {
    UsageCounts(n, before, o[i], o[Successor(n, i)]);
  }

  lemma UsesHeld(n: nat, before: seq<seq<nat>>, o: seq<nat>)
    requires n > 1 && AllOrders(n, before) && IsOrder(n, o)
    ensures HoldsUses(UsageAfter(n, before), n, o, Uses(before, o))
  {
    forall i | 0 <= i < n ensures UsageAfter(n, before)[o[i]][o[Successor(n, i)]] == Uses(before, o)[i] { UseAt(n, before, o, i); }
  }

  ghost predicate HoldsUses(usage: UsageTable, n: nat, o: seq<nat>, uses: seq<nat>) {
    IsUsage(usage, n) && IsOrder(n, o) && |uses| == n && forall i | 0 <= i < n :: usage[o[i]][o[Successor(n, i)]] == uses[i]
  }

  lemma {:induction false} TotalSoFar(usage: UsageTable, n: nat, o: seq<nat>, uses: seq<nat>, k: nat)
    requires HoldsUses(usage, n, o, uses) && k <= n
    ensures TotalUsage(usage, n, o, k) == Min(Transpose.Sum(uses[..k]), U64_MAX)
  {
    if k > 0 {
      TotalSoFar(usage, n, o, uses, k - 1);
      assert uses[..k][..k - 1] == uses[..k - 1];
    }
  }

  lemma {:induction false} GreatestSoFar(usage: UsageTable, n: nat, o: seq<nat>, uses: seq<nat>, k: nat)
    requires HoldsUses(usage, n, o, uses) && k <= n
    ensures AllAtMost(uses[..k], MaxUsage(usage, n, o, k)) && (k > 0 ==> MaxUsage(usage, n, o, k) in uses[..k])
  {
    if k > 0 {
      GreatestSoFar(usage, n, o, uses, k - 1);
      OneMoreUse(uses[..k - 1], uses[k - 1], MaxUsage(usage, n, o, k - 1));
      assert uses[..k] == uses[..k - 1] + [uses[k - 1]];
    }
  }

  lemma OneMoreUse(uses: seq<nat>, next: nat, most: nat)
    requires AllAtMost(uses, most) && if uses == [] then most == 0 else most in uses
    ensures IsGreatest(uses + [next], if most < next then next else most)
  {
    if uses != [] {
      var j :| 0 <= j < |uses| && uses[j] == most;
      assert (uses + [next])[j] == most;
    }
    assert (uses + [next])[|uses|] == next;
  }

  lemma FullestDecides(a: seq<nat>, b: seq<nat>, x: nat, y: nat)
    requires x in a && AllAtMost(a, x) && y in b && AllAtMost(b, y)
    ensures NoFuller(a, b) <==> x <= y
  {
    if x <= y {
      var j :| 0 <= j < |b| && b[j] == y;
      assert AllAtMost(a, b[j]);
    }
  }

  lemma KeyOfUses(links: LinkTable, n: nat, before: seq<seq<nat>>, o: seq<nat>) returns (most: nat)
    requires n > 1 && AllOrders(n, before) && IsClosedRing(links, n, o)
    ensures IsGreatest(Uses(before, o), most)
    ensures KeyOf(links, n, UsageAfter(n, before), o) ==
      Key(U16_MAX as int - most, U64_MAX as int - Capped(Uses(before, o)), ScoreOf(links, n, o))
  {
    UsesHeld(n, before, o);
    TotalSoFar(UsageAfter(n, before), n, o, Uses(before, o), n);
    GreatestSoFar(UsageAfter(n, before), n, o, Uses(before, o), n);
    assert Uses(before, o)[..n] == Uses(before, o);
    most := MaxUsage(UsageAfter(n, before), n, o, n);
  }

  lemma KeysDecide(u: seq<nat>, v: seq<nat>, x: nat, y: nat, a: RingScore, b: RingScore)
    requires IsGreatest(u, x) && IsGreatest(v, y)
    ensures KeyLess(Key(U16_MAX as int - x, U64_MAX as int - Capped(u), a), Key(U16_MAX as int - y, U64_MAX as int - Capped(v), b)) <==>
      !NoFuller(u, v) || (NoFuller(v, u) && (Capped(v) < Capped(u) || (Capped(u) == Capped(v) && ScoreLess(a, b))))
  {
    FullestDecides(u, v, x, y);
    FullestDecides(v, u, y, x);
  }

  // One ring beats another by the keys exactly when it does by use and links.
  lemma BeatsMeans(links: LinkTable, n: nat, before: seq<seq<nat>>, a: seq<nat>, b: seq<nat>)
    requires n > 1 && AllOrders(n, before) && IsClosedRing(links, n, a) && IsClosedRing(links, n, b)
    ensures Beats(links, n, UsageAfter(n, before), a, b) <==> PreferredOver(links, n, before, a, b)
  {
    var x := KeyOfUses(links, n, before, a);
    var y := KeyOfUses(links, n, before, b);
    KeysDecide(Uses(before, a), Uses(before, b), x, y, ScoreOf(links, n, a), ScoreOf(links, n, b));
    KeysDecide(Uses(before, b), Uses(before, a), y, x, ScoreOf(links, n, b), ScoreOf(links, n, a));
    ScoreMeans(links, n, a, b);
    ScoreMeans(links, n, b, a);
  }

  lemma SelectedAreOrders(links: LinkTable, n: nat, candidates: seq<seq<nat>>, selected: seq<seq<nat>>)
    requires GreedyPicks(links, n, candidates, selected)
    ensures AllOrders(n, selected) && Rings(links, n, selected)
  {
    GreedyIsDistinct(links, n, candidates, selected);
  }

  // Every ring selected was, among the candidates not selected before it, the one whose links the
  // earlier ones used least, the best by its links among equals, and the first in order after that.
  lemma {:induction false} PicksAreFreshest(links: LinkTable, n: nat, candidates: seq<seq<nat>>, selected: seq<seq<nat>>, k: nat, o: seq<nat>)
    requires n > 1 && GreedyPicks(links, n, candidates, selected) && k < |selected| && o in candidates && o !in selected[..k]
    ensures IsClosedRing(links, n, selected[k]) && IsClosedRing(links, n, o)
    ensures PreferredOver(links, n, selected[..k], selected[k], o)
    decreases |selected|
  {
    var before, pick := selected[..|selected| - 1], selected[|selected| - 1];
    if k < |before| {
      assert before[..k] == selected[..k];
      PicksAreFreshest(links, n, candidates, before, k, o);
    } else {
      LastPickIsFreshest(links, n, candidates, before, pick, o);
    }
  }

  lemma LastPickIsFreshest(links: LinkTable, n: nat, candidates: seq<seq<nat>>, before: seq<seq<nat>>, pick: seq<nat>, o: seq<nat>)
    requires n > 1 && GreedyPicks(links, n, candidates, before) && Rings(links, n, before) && IsClosedRing(links, n, pick)
    requires Beats(links, n, UsageAfter(n, before), pick, o)
    ensures IsClosedRing(links, n, o) && PreferredOver(links, n, before, pick, o)
  {
    SelectedAreOrders(links, n, candidates, before);
    BeatsMeans(links, n, before, pick, o);
  }

  // ---- above nine ranks --------------------------------------------------------------------------

  // The widest link to an unvisited rank; of those as wide the one of least latency, then the least rank.
  ghost predicate WidestStep(links: LinkTable, n: nat, path: seq<nat>, next: nat)
    requires path != []
  {
    var last := path[|path| - 1];
    && next < n && next !in path && Linked(links, last, next)
    && forall r: nat | r < n && r !in path && Linked(links, last, r) ::
         var chosen, other := links[last][next].value, links[last][r].value;
         && other.bandwidthMbps <= chosen.bandwidthMbps
         && (other.bandwidthMbps == chosen.bandwidthMbps ==> chosen.latencyNs <= other.latencyNs)
         && (other.bandwidthMbps == chosen.bandwidthMbps && other.latencyNs == chosen.latencyNs ==> next <= r)
  }

  lemma PreferredNextMeans(links: LinkTable, n: nat, path: seq<nat>, next: nat)
    requires path != []
    ensures IsPreferredNext(links, n, path, next) <==> WidestStep(links, n, path, next)
  {
    if IsPreferredNext(links, n, path, next) {
      var last := path[|path| - 1];
      forall r: nat | r < n && r !in path && Linked(links, last, r) ensures !Preferred(links, last, r, next) { }
    }
  }

  // ---- the canonical form ------------------------------------------------------------------------

  // Read from place p, onwards or backwards.
  ghost predicate ReadFrom(order: seq<nat>, p: nat, ring: seq<nat>, back: bool) {
    p < |order| == |ring| && forall i | 0 <= i < |ring| ::
      ring[i] == order[if back then (if i <= p then p - i else p + |order| - i) else (if p + i < |order| then p + i else p + i - |order|)]
  }

  lemma ReadIs(order: seq<nat>, p: nat)
    requires p < |order|
    ensures ReadFrom(order, p, RotateLeft(order, p), false) && ReadFrom(order, p, Backwards(RotateLeft(order, p)), true)
  {
  }

  lemma SameReading(order: seq<nat>, p: nat, a: seq<nat>, b: seq<nat>, back: bool)
    requires ReadFrom(order, p, a, back) && ReadFrom(order, p, b, back)
    ensures a == b
  {
  }

  // The ring as given is listed from rank 0, in whichever direction comes first.
  lemma CanonicalMeans(order: seq<nat>, ring: seq<nat>, other: seq<nat>) returns (p: nat, back: bool)
    requires IsCanonical(order, ring)
    ensures p < |order| && order[p] == 0 && ReadFrom(order, p, ring, back)
    ensures ReadFrom(order, p, other, !back) ==> LexLeq(ring, other)
  {
    p :| 0 <= p < |order| && order[p] == 0 && ring == Lesser(RotateLeft(order, p));
    var onwards := RotateLeft(order, p);
    back := LexLess(Backwards(onwards), onwards);
    ReadIs(order, p);
    if ReadFrom(order, p, other, !back) {
      SameReading(order, p, other, if back then onwards else Backwards(onwards), !back);
      LexTotal(onwards, Backwards(onwards));
    }
  }
}
