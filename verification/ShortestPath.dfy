// src/rank/topology.rs: the transfer-time planner's shortest paths with saturating u64 costs.
module ShortestPath {
  import opened Wrappers
  import opened Numbers

  const U128_MAX: nat := 0xFFFF_FFFF_FFFF_FFFF_FFFF_FFFF_FFFF_FFFF

  function SaturatingAdd(a: nat, b: nat): nat { Min(a + b, U64_MAX) }

  // Nanoseconds for one link; None where there is no link.
  type Edge = (nat, nat) -> Option<nat>

  // ---- paths -------------------------------------------------------------------------------------

  // A walk from source to destination that stays inside the permitted ranks.
  ghost predicate IsPath(edge: Edge, permitted: seq<bool>, path: seq<nat>, source: nat, destination: nat) {
    && |path| > 0 && path[0] == source && path[|path| - 1] == destination
    && (forall i | 0 <= i < |path| :: path[i] < |permitted| && permitted[path[i]])
    && (forall i, j | 0 <= i < |path| && j == i + 1 && j < |path| :: edge(path[i], path[j]).Some?)
  }

  // The exact, unsaturated cost of a walk.
  ghost function Total(edge: Edge, path: seq<nat>): nat
    requires |path| > 0
  {
    if |path| == 1 then 0
    else Total(edge, path[..|path| - 1]) + match edge(path[|path| - 2], path[|path| - 1]) { case None => 0 case Some(w) => w }
  }

  // d is the cost of some path and no path costs less.
  ghost predicate IsLeast(edge: Edge, permitted: seq<bool>, source: nat, destination: nat, d: nat) {
    && (exists p :: IsPath(edge, permitted, p, source, destination) && Total(edge, p) == d)
    && (forall p :: IsPath(edge, permitted, p, source, destination) ==> d <= Total(edge, p))
  }

  ghost predicate AllCostlierThan(edge: Edge, permitted: seq<bool>, source: nat, destination: nat, d: nat) {
    forall p :: IsPath(edge, permitted, p, source, destination) ==> d <= Total(edge, p)
  }

  // The specification of both searches: the least path cost, if it is below the saturation point.
  ghost predicate Answers(edge: Edge, permitted: seq<bool>, source: nat, destination: nat, answer: Option<nat>) {
    match answer
    case Some(d) => d < U64_MAX && IsLeast(edge, permitted, source, destination, d)
    case None => AllCostlierThan(edge, permitted, source, destination, U64_MAX)
  }

  // Some exactly when some path stays below the saturation point.
  lemma SomeExactlyWhenReachable(edge: Edge, permitted: seq<bool>, source: nat, destination: nat, answer: Option<nat>)
    requires Answers(edge, permitted, source, destination, answer)
    ensures answer.Some? <==> exists p :: IsPath(edge, permitted, p, source, destination) && Total(edge, p) < U64_MAX
  {
    if answer.Some? {
      var p :| IsPath(edge, permitted, p, source, destination) && Total(edge, p) == answer.value;
      assert IsPath(edge, permitted, p, source, destination) && Total(edge, p) < U64_MAX;
    }
  }

  lemma AnswersUnique(edge: Edge, permitted: seq<bool>, source: nat, destination: nat, a: Option<nat>, b: Option<nat>)
    requires Answers(edge, permitted, source, destination, a) && Answers(edge, permitted, source, destination, b)
    ensures a == b
  {
    SomeExactlyWhenReachable(edge, permitted, source, destination, a);
    SomeExactlyWhenReachable(edge, permitted, source, destination, b);
    if a.Some? {
      var p :| IsPath(edge, permitted, p, source, destination) && Total(edge, p) == a.value;
      var q :| IsPath(edge, permitted, q, source, destination) && Total(edge, q) == b.value;
    }
  }

  lemma {:induction false} LeastExists(edge: Edge, permitted: seq<bool>, source: nat, destination: nat, path: seq<nat>) returns (d: nat)
    requires IsPath(edge, permitted, path, source, destination)
    ensures d <= Total(edge, path) && IsLeast(edge, permitted, source, destination, d)
    decreases Total(edge, path)
  {
    d := Total(edge, path);
    if shorter :| IsPath(edge, permitted, shorter, source, destination) && Total(edge, shorter) < d {
      d := LeastExists(edge, permitted, source, destination, shorter);
    }
  }

  lemma AnswerExists(edge: Edge, permitted: seq<bool>, source: nat, destination: nat)
    ensures exists answer :: Answers(edge, permitted, source, destination, answer)
  {
    if path :| IsPath(edge, permitted, path, source, destination) && Total(edge, path) < U64_MAX {
      var d := LeastExists(edge, permitted, source, destination, path);
      assert Answers(edge, permitted, source, destination, Some(d));
    } else {
      assert Answers(edge, permitted, source, destination, None);
    }
  }

  // The answer as a function; it is unique, so this is what every search returns.
  ghost function Shortest(edge: Edge, permitted: seq<bool>, source: nat, destination: nat): (answer: Option<nat>)
    ensures Answers(edge, permitted, source, destination, answer)
  {
    AnswerExists(edge, permitted, source, destination);
    var answer :| Answers(edge, permitted, source, destination, answer);
    answer
  }

  // Saturating a running sum at every hop saturates the total, and nothing else.
  ghost function SaturatedTotal(edge: Edge, path: seq<nat>): nat
    requires |path| > 0
  {
    if |path| == 1 then 0
    else SaturatingAdd(SaturatedTotal(edge, path[..|path| - 1]),
                       match edge(path[|path| - 2], path[|path| - 1]) { case None => 0 case Some(w) => w })
  }

  lemma {:induction false} SaturationOnlyCaps(edge: Edge, path: seq<nat>)
    requires |path| > 0
    ensures SaturatedTotal(edge, path) == Min(Total(edge, path), U64_MAX)
  {
    if |path| > 1 { SaturationOnlyCaps(edge, path[..|path| - 1]); }
  }

  // ---- the search state --------------------------------------------------------------------------

  ghost predicate SearchInv(edge: Edge, permitted: seq<bool>, source: nat, dist: seq<nat>, visited: seq<bool>) {
    && |dist| == |visited| == |permitted|
    && source < |dist| && dist[source] == 0
    && (forall v | 0 <= v < |dist| :: dist[v] <= U64_MAX)
    && (forall v | 0 <= v < |dist| :: visited[v] ==> permitted[v])
    && (forall v | 0 <= v < |dist| :: !permitted[v] && v != source ==> dist[v] == U64_MAX)
    && (forall v | 0 <= v < |dist| :: permitted[v] && dist[v] < U64_MAX ==> Achieved(edge, permitted, source, v, dist[v]))
    && (forall u, v | 0 <= u < |dist| && 0 <= v < |dist| :: visited[u] && permitted[v] ==> Settled(edge, dist, u, v))
    && (forall u, v | 0 <= u < |dist| && 0 <= v < |dist| :: visited[u] && permitted[v] && !visited[v] ==> dist[u] <= dist[v])
  }

  ghost predicate Achieved(edge: Edge, permitted: seq<bool>, source: nat, v: nat, d: nat) {
    exists p :: IsPath(edge, permitted, p, source, v) && Total(edge, p) == d
  }

  ghost predicate Settled(edge: Edge, dist: seq<nat>, u: nat, v: nat)
    requires u < |dist| && v < |dist|
  {
    edge(u, v).Some? ==> dist[v] <= dist[u] + edge(u, v).value
  }

  ghost predicate IsNearest(permitted: seq<bool>, dist: seq<nat>, visited: seq<bool>, current: nat)
    requires |dist| == |visited| == |permitted|
  {
    && current < |dist| && permitted[current] && !visited[current]
    && forall v | 0 <= v < |dist| :: permitted[v] && !visited[v] ==> dist[current] <= dist[v]
  }

  // Every path either stays among visited ranks, or already costs at least the nearest distance.
  lemma {:induction false} PathBound(edge: Edge, permitted: seq<bool>, source: nat, dist: seq<nat>, visited: seq<bool>,
                                     current: nat, path: seq<nat>)
    requires SearchInv(edge, permitted, source, dist, visited) && IsNearest(permitted, dist, visited, current)
    requires |path| > 0 && IsPath(edge, permitted, path, source, path[|path| - 1])
    ensures (visited[path[|path| - 1]] && dist[path[|path| - 1]] <= Total(edge, path)) || dist[current] <= Total(edge, path)
  {
    var last := |path| - 1;
    if last > 0 {
      var front := path[..last];
      assert front[|front| - 1] == path[last - 1];
      PathBound(edge, permitted, source, dist, visited, current, front);
      assert edge(path[last - 1], path[last]).Some?;
      if visited[path[last - 1]] {
        assert Settled(edge, dist, path[last - 1], path[last]);
      }
    }
  }

  lemma NearestIsLeast(edge: Edge, permitted: seq<bool>, source: nat, dist: seq<nat>, visited: seq<bool>,
                       current: nat, destination: nat)
    requires SearchInv(edge, permitted, source, dist, visited) && IsNearest(permitted, dist, visited, current)
    requires destination < |dist| && !visited[destination]
    ensures AllCostlierThan(edge, permitted, source, destination, dist[current])
  {
    forall p | IsPath(edge, permitted, p, source, destination) ensures dist[current] <= Total(edge, p) {
      PathBound(edge, permitted, source, dist, visited, current, p);
    }
  }

  // ---- relaxation --------------------------------------------------------------------------------

  function RelaxedAt(edge: Edge, permitted: seq<bool>, dist: seq<nat>, visited: seq<bool>, current: nat, v: nat): nat
    requires |dist| == |visited| == |permitted| && current < |dist| && v < |dist|
  {
    if !permitted[v] || visited[v] || edge(current, v).None? then dist[v]
    else Min(dist[v], SaturatingAdd(dist[current], edge(current, v).value))
  }

  lemma RelaxedAchieved(edge: Edge, permitted: seq<bool>, source: nat, dist: seq<nat>, visited: seq<bool>, current: nat, v: nat)
    requires |dist| == |visited| == |permitted| && current < |dist| && v < |dist| && permitted[v]
    requires Achieved(edge, permitted, source, current, dist[current])
    requires dist[v] < U64_MAX ==> Achieved(edge, permitted, source, v, dist[v])
    requires RelaxedAt(edge, permitted, dist, visited, current, v) < U64_MAX
    ensures Achieved(edge, permitted, source, v, RelaxedAt(edge, permitted, dist, visited, current, v))
  {
    var d := RelaxedAt(edge, permitted, dist, visited, current, v);
    if d != dist[v] {
      var p :| IsPath(edge, permitted, p, source, current) && Total(edge, p) == dist[current];
      var q := p + [v];
      assert q[..|q| - 1] == p;
      assert forall i, j | 0 <= i < |q| && j == i + 1 && j < |q| :: edge(q[i], q[j]).Some?;
      assert IsPath(edge, permitted, q, source, v) && Total(edge, q) == d;
    }
  }

  lemma RelaxedIsNoNearer(edge: Edge, permitted: seq<bool>, dist: seq<nat>, visited: seq<bool>, current: nat, v: nat)
    requires |dist| == |visited| == |permitted| && current < |dist| && v < |dist|
    requires dist[current] <= dist[v] && dist[current] <= U64_MAX
    ensures dist[current] <= RelaxedAt(edge, permitted, dist, visited, current, v)
  {
  }

  ghost predicate Visits(edge: Edge, permitted: seq<bool>, dist: seq<nat>, visited: seq<bool>, current: nat,
                         dist': seq<nat>, visited': seq<bool>)
    requires |dist| == |visited| == |permitted| && current < |dist|
  {
    && visited' == visited[current := true]
    && |dist'| == |dist| && forall v | 0 <= v < |dist| :: dist'[v] == RelaxedAt(edge, permitted, dist, visited', current, v)
  }

  lemma VisitKeepsInv(edge: Edge, permitted: seq<bool>, source: nat, dist: seq<nat>, visited: seq<bool>, current: nat,
                      dist': seq<nat>, visited': seq<bool>)
    requires SearchInv(edge, permitted, source, dist, visited) && IsNearest(permitted, dist, visited, current)
    requires dist[current] < U64_MAX
    requires Visits(edge, permitted, dist, visited, current, dist', visited')
    ensures SearchInv(edge, permitted, source, dist', visited')
  {
    forall v | 0 <= v < |dist| && permitted[v] && dist'[v] < U64_MAX ensures Achieved(edge, permitted, source, v, dist'[v]) {
      RelaxedAchieved(edge, permitted, source, dist, visited', current, v);
    }
    forall u, v | 0 <= u < |dist| && 0 <= v < |dist| && visited'[u] && permitted[v] ensures Settled(edge, dist', u, v) {
      VisitSettles(edge, permitted, source, dist, visited, current, dist', visited', u, v);
    }
    forall u, v | 0 <= u < |dist| && 0 <= v < |dist| && visited'[u] && permitted[v] && !visited'[v] ensures dist'[u] <= dist'[v] {
      RelaxedIsNoNearer(edge, permitted, dist, visited', current, v);
    }
  }

  lemma VisitSettles(edge: Edge, permitted: seq<bool>, source: nat, dist: seq<nat>, visited: seq<bool>, current: nat,
                     dist': seq<nat>, visited': seq<bool>, u: nat, v: nat)
    requires SearchInv(edge, permitted, source, dist, visited) && IsNearest(permitted, dist, visited, current)
    requires Visits(edge, permitted, dist, visited, current, dist', visited')
    requires u < |dist| && v < |dist| && visited'[u] && permitted[v]
    ensures Settled(edge, dist', u, v)
  {
    assert dist'[u] == dist[u];
    if u != current {
      assert Settled(edge, dist, u, v);
    } else if visited[v] {
      assert dist[v] <= dist[current];
    }
  }

  // ---- the search itself -------------------------------------------------------------------------

  // The first unvisited permitted rank of least distance; None when there is none left.
  method Nearest(permitted: seq<bool>, dist: array<nat>, visited: array<bool>) returns (current: Option<nat>)
    requires dist.Length == visited.Length == |permitted|
    ensures current.None? ==> forall v | 0 <= v < |permitted| :: permitted[v] ==> visited[v]
    ensures current.Some? ==> IsNearest(permitted, dist[..], visited[..], current.value)
    ensures current.Some? ==> forall v | 0 <= v < current.value :: permitted[v] && !visited[v] ==> dist[current.value] < dist[v]
  {
    current := None;
    for rank := 0 to |permitted|
      invariant current.None? ==> forall v | 0 <= v < rank :: permitted[v] ==> visited[v]
      invariant current.Some? ==> current.value < rank && permitted[current.value] && !visited[current.value]
      invariant current.Some? ==> forall v | 0 <= v < rank :: permitted[v] && !visited[v] ==> dist[current.value] <= dist[v]
      invariant current.Some? ==> forall v | 0 <= v < current.value :: permitted[v] && !visited[v] ==> dist[current.value] < dist[v]
    {
      if permitted[rank] && !visited[rank] && (current.None? || dist[rank] < dist[current.value]) {
        current := Some(rank);
      }
    }
  }

  method Relax(edge: Edge, permitted: seq<bool>, dist: array<nat>, visited: array<bool>, current: nat)
    requires dist.Length == visited.Length == |permitted| && current < dist.Length && visited[current]
    modifies dist
    ensures forall v | 0 <= v < dist.Length ::
      dist[v] == RelaxedAt(edge, permitted, old(dist[..]), visited[..], current, v)
  {
    ghost var before := dist[..];
    for next := 0 to dist.Length
      invariant forall v | 0 <= v < next :: dist[v] == RelaxedAt(edge, permitted, before, visited[..], current, v)
      invariant forall v | next <= v < dist.Length :: dist[v] == before[v]
      invariant dist[current] == before[current]
    {
      if !permitted[next] || visited[next] { continue; }
      var link := edge(current, next);
      if link.None? { continue; }
      var candidate := SaturatingAdd(dist[current], link.value);
      dist[next] := Min(dist[next], candidate);
    }
  }

  ghost function Marked(flags: seq<bool>): set<nat> {
    set v | 0 <= v < |flags| && flags[v]
  }

  lemma MarkOne(flags: seq<bool>, i: nat)
    requires i < |flags| && !flags[i]
    ensures |Marked(flags[i := true])| == |Marked(flags)| + 1
  {
    assert Marked(flags[i := true]) == Marked(flags) + {i};
  }

  // The destination was never visited, yet every permitted rank was: it is not permitted at all.
  lemma NothingLeft(edge: Edge, permitted: seq<bool>, source: nat, destination: nat, dist: seq<nat>, visited: seq<bool>)
    requires SearchInv(edge, permitted, source, dist, visited)
    requires destination < |dist| && destination != source && !visited[destination]
    requires forall v | 0 <= v < |dist| :: permitted[v] ==> visited[v]
    ensures dist[destination] == U64_MAX && Answers(edge, permitted, source, destination, None)
  {
  }

  lemma NothingNear(edge: Edge, permitted: seq<bool>, source: nat, destination: nat, dist: seq<nat>, visited: seq<bool>, current: nat)
    requires SearchInv(edge, permitted, source, dist, visited) && IsNearest(permitted, dist, visited, current)
    requires dist[current] == U64_MAX && destination < |dist| && destination != source && !visited[destination]
    ensures dist[destination] == U64_MAX && Answers(edge, permitted, source, destination, None)
  {
    NearestIsLeast(edge, permitted, source, dist, visited, current, destination);
  }

  lemma Found(edge: Edge, permitted: seq<bool>, source: nat, dist: seq<nat>, visited: seq<bool>, current: nat)
    requires SearchInv(edge, permitted, source, dist, visited) && IsNearest(permitted, dist, visited, current)
    requires dist[current] != U64_MAX
    ensures Answers(edge, permitted, source, current, Some(dist[current]))
  {
    NearestIsLeast(edge, permitted, source, dist, visited, current, current);
  }

  // Visiting a fresh permitted rank in every round uses the permitted ranks up.
  lemma Exhausted(permitted: seq<bool>, visited: seq<bool>)
    requires |visited| == |permitted| && forall v | 0 <= v < |visited| :: visited[v] ==> permitted[v]
    requires |Marked(permitted)| <= |Marked(visited)|
    ensures forall v | 0 <= v < |permitted| :: permitted[v] ==> visited[v]
  {
    var ranks, done := Marked(permitted), Marked(visited);
    assert ranks == (ranks - done) + done;
    assert |ranks| == |ranks - done| + |done|;
    assert ranks - done == {};
    forall v | 0 <= v < |permitted| && permitted[v] ensures visited[v] {
      assert v in ranks && v in done;
    }
  }

  // Both searches: `rounds` is the number of ranks the caller allows itself to visit.
  method Search(edge: Edge, permitted: seq<bool>, source: nat, destination: nat, rounds: nat) returns (answer: Option<nat>)
    requires source < |permitted| && destination < |permitted| && source != destination
    requires |Marked(permitted)| <= rounds
    ensures Answers(edge, permitted, source, destination, answer)
  {
    var n := |permitted|;
    var dist := new nat[n](_ => U64_MAX);
    var visited := new bool[n](_ => false);
    dist[source] := 0;
    ghost var stopped := false;
    StartInv(edge, permitted, source, dist[..], visited[..]);
    assert Marked(visited[..]) == {};
    for round := 0 to rounds
      invariant SearchInv(edge, permitted, source, dist[..], visited[..])
      invariant !visited[destination] && !stopped
      invariant |Marked(visited[..])| == round
    {
      var nearest := Nearest(permitted, dist, visited);
      if nearest.None? {
        NothingLeft(edge, permitted, source, destination, dist[..], visited[..]);
        return None;
      }
      var current := nearest.value;
      if dist[current] == U64_MAX {
        NothingNear(edge, permitted, source, destination, dist[..], visited[..], current);
        stopped := true;
        break;
      }
      if current == destination {
        Found(edge, permitted, source, dist[..], visited[..], current);
        return Some(dist[current]);
      }
      Visit(edge, permitted, source, dist, visited, current);
    }
    if !stopped {
      Exhausted(permitted, visited[..]);
      NothingLeft(edge, permitted, source, destination, dist[..], visited[..]);
    }
    // The source's closing test never succeeds: a reachable destination has already been returned.
    var last := dist[destination];
    answer := if last != U64_MAX then Some(last) else None;
  }

  method Visit(edge: Edge, permitted: seq<bool>, ghost source: nat, dist: array<nat>, visited: array<bool>, current: nat)
    requires dist.Length == visited.Length == |permitted|
    requires SearchInv(edge, permitted, source, dist[..], visited[..])
    requires IsNearest(permitted, dist[..], visited[..], current) && dist[current] < U64_MAX
    modifies dist, visited
    ensures SearchInv(edge, permitted, source, dist[..], visited[..])
    ensures visited[..] == old(visited[..])[current := true]
    ensures |Marked(visited[..])| == old(|Marked(visited[..])|) + 1
  {
    ghost var d, v := dist[..], visited[..];
    MarkOne(v, current);
    visited[current] := true;
    Relax(edge, permitted, dist, visited, current);
    VisitKeepsInv(edge, permitted, source, d, v, current, dist[..], visited[..]);
  }

  lemma StartInv(edge: Edge, permitted: seq<bool>, source: nat, dist: seq<nat>, visited: seq<bool>)
    requires |dist| == |visited| == |permitted| && source < |dist|
    requires forall v | 0 <= v < |dist| :: !visited[v] && dist[v] == if v == source then 0 else U64_MAX
    ensures SearchInv(edge, permitted, source, dist, visited)
  {
    if permitted[source] {
      assert IsPath(edge, permitted, [source], source, source) && Total(edge, [source]) == 0;
    }
  }
}
