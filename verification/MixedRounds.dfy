// src/global/node/base.rs: ring, tree and star all-reduces, rooted reduces and rooted broadcasts between
// the same nodes, in any sequence.
module MixedRounds {
  import opened Wrappers
  import opened RingMath
  import opened Layout
  import opened DataService
  import opened CollectiveRounds
  import opened RootFirst
  import B = SyncBarrier
  import R = NodeRing
  import U = RootedReduce
  import D = RootedBroadcast
  import A = TreeAllReduce

  // What the nodes do in one round, on slices S in a ring and on whole tensors T otherwise.
  datatype Task<!S(!new), !T(!new)> =
    | Ring(ring: R.Ring<S>)
    | Reduce(reduce: U.Plan<T>, root: nat)
    | Broadcast(broadcast: D.Plan<T>, root: nat)
    | AllReduce(allReduce: A.Plan<T>)
  {
    ghost predicate Valid(size: nat) {
      match this
      case Ring(ring) => ring.Valid() && ring.Size() == size
      case Reduce(reduce, root) => reduce.Valid() && reduce.Size() == size && root < size
      case Broadcast(broadcast, root) => broadcast.Valid() && broadcast.Size() == size && root < size
      case AllReduce(allReduce) => allReduce.Valid() && allReduce.Size() == size
    }
  }

  datatype Node<S, T> =
    | InRing(ring: R.Node<S>)
    | InReduce(reduce: U.Node<T>)
    | InBroadcast(broadcast: D.Status<T>)
    | InAllReduce(up: U.Node<T>, down: D.Status<T>)

  datatype Item<S, T> = Slice(slice: S) | Whole(tensor: T)

  // ---- the services ------------------------------------------------------------------------------

  function Slices<S, T>(exposed: map<Key, S>): Service<Item<S, T>> {
    map k | k in exposed :: Offer(Slice(exposed[k]), 1)
  }

  function Wholes<S, T>(offers: Service<T>): Service<Item<S, T>> {
    map k | k in offers :: Offer(Whole(offers[k].tensor), offers[k].left)
  }

  lemma SlicesTell<S, T>(a: map<Key, S>, b: map<Key, S>)
    requires Slices<S, T>(a) == Slices<S, T>(b)
    ensures a == b
  {
    var s, t := Slices<S, T>(a), Slices<S, T>(b);
    forall k ensures k in a <==> k in b { assert k in s <==> k in t; }
    forall k | k in a ensures a[k] == b[k] { assert s[k] == t[k]; }
  }

  lemma WholesTell<S, T>(a: Service<T>, b: Service<T>)
    requires Wholes<S, T>(a) == Wholes<S, T>(b)
    ensures a == b
  {
    var s, t := Wholes<S, T>(a), Wholes<S, T>(b);
    forall k ensures k in a <==> k in b { assert k in s <==> k in t; }
    forall k | k in a ensures a[k] == b[k] { assert s[k] == t[k]; }
  }

  // Only positions below the size take part.
  function Within(p: nat, size: nat): (q: nat)
    requires size > 0
    ensures q < size && (p < size ==> q == p)
  {
    if p < size then p else 0
  }

  // ---- the ring ----------------------------------------------------------------------------------

  ghost predicate RingMoves<S(!new)>(r: R.Ring<S>, s: R.State<S>, s': R.State<S>, p: nat)
    requires r.Valid()
  {
    R.Expose(r, s, s', p) || R.Download(r, s, s', p) || R.EndCycle(r, s, s', p)
  }

  // The ring's step as far as node p and the services can tell.
  ghost predicate RingSeen<S(!new), T(!new)>(r: R.Ring<S>, p: nat, node: Node<S, T>, service: Service<Item<S, T>>,
                                             node': Node<S, T>, service': Service<Item<S, T>>, s: R.State<S>, s': R.State<S>)
    requires r.Valid()
  {
    && p < |s.nodes| == |s'.nodes| && RingMoves(r, s, s', p)
    && node == InRing(s.nodes[p]) && service == Slices(s.exposed) && node' == InRing(s'.nodes[p]) && service' == Slices(s'.exposed)
  }

  ghost predicate RingStep<S(!new), T(!new)>(r: R.Ring<S>, p: nat, node: Node<S, T>, service: Service<Item<S, T>>,
                                             node': Node<S, T>, service': Service<Item<S, T>>)
    requires r.Valid()
  {
    exists s, s' :: RingSeen(r, p, node, service, node', service', s, s')
  }

  ghost function RingCollective<S(!new), T(!new)>(r: R.Ring<S>): Collective<Node<S, T>, Item<S, T>>
    requires r.Valid()
  {
    Collective(
      p => InRing(R.Fresh(r, Within(p, r.Size()))),
      (p: nat, node: Node<S, T>) => node.InRing? && node.ring.counter == r.Transfers(),
      (p, node, service, node', service') => RingStep(r, p, node, service, node', service'))
  }

  // The state of the ring that the nodes and services show.
  ghost predicate ShowsRing<S(!new), T(!new)>(r: R.Ring<S>, view: State<Node<S, T>, Item<S, T>>, s: R.State<S>)
    requires r.Valid()
  {
    && R.Inv(r, s) && |view.nodes| == r.Size() && view.service == Slices(s.exposed)
    && forall p | 0 <= p < r.Size() :: view.nodes[p] == InRing(s.nodes[p])
  }

  // A move looks at one node and what is on offer only.
  lemma RingMovesElsewhere<S(!new)>(r: R.Ring<S>, s: R.State<S>, s': R.State<S>, z: R.State<S>, p: nat) returns (z': R.State<S>)
    requires r.Valid() && p < |s.nodes| == |s'.nodes| == |z.nodes| && RingMoves(r, s, s', p) && z.nodes[p] == s.nodes[p] && z.exposed == s.exposed
    ensures z' == R.State(z.nodes[p := s'.nodes[p]], s'.exposed) && RingMoves(r, z, z', p)
  {
    z' := R.State(z.nodes[p := s'.nodes[p]], s'.exposed);
  }

  lemma RingMovesInv<S(!new)>(r: R.Ring<S>, s: R.State<S>, s': R.State<S>, p: nat)
    requires r.Valid() && R.Inv(r, s) && RingMoves(r, s, s', p)
    ensures R.Inv(r, s')
  {
    if R.Expose(r, s, s', p) { R.ExposeInv(r, s, s', p); }
    else if R.Download(r, s, s', p) { R.DownloadInv(r, s, s', p); }
    else { R.EndCycleInv(r, s, s', p); }
  }

  lemma RingShowsNext<S(!new), T(!new)>(r: R.Ring<S>, view: State<Node<S, T>, Item<S, T>>, view': State<Node<S, T>, Item<S, T>>, p: nat, z: R.State<S>)
    returns (z': R.State<S>)
    requires r.Valid() && ShowsRing(r, view, z) && Moves(RingCollective(r), view, view', p)
    ensures ShowsRing(r, view', z')
  {
    assert RingStep(r, p, view.nodes[p], view.service, view'.nodes[p], view'.service);
    var s, s' :| RingSeen(r, p, view.nodes[p], view.service, view'.nodes[p], view'.service, s, s');
    RingMatches<S, T>(r, view, p, s, z);
    z' := RingMovesElsewhere(r, s, s', z, p);
    assert R.Inv(r, z') by { RingMovesInv(r, z, z', p); }
  }

  lemma RingMatches<S(!new), T(!new)>(r: R.Ring<S>, view: State<Node<S, T>, Item<S, T>>, p: nat, s: R.State<S>, z: R.State<S>)
    requires r.Valid() && ShowsRing(r, view, z) && p < |s.nodes| == r.Size()
    requires view.nodes[p] == InRing(s.nodes[p]) && view.service == Slices(s.exposed)
    ensures z.exposed == s.exposed && z.nodes[p] == s.nodes[p]
  {
    SlicesTell<S, T>(s.exposed, z.exposed);
  }

  lemma RingShowsFirst<S(!new), T(!new)>(r: R.Ring<S>, view: State<Node<S, T>, Item<S, T>>) returns (s: R.State<S>)
    requires r.Valid() && Begins(RingCollective(r), r.Size(), view)
    ensures ShowsRing(r, view, s)
  {
    s := R.State(seq(r.Size(), p requires 0 <= p < r.Size() => R.Fresh(r, p)), map[]);
    R.InitInv(r, s);
    assert view.service == Slices(s.exposed);
  }

  lemma RingReached<S(!new), T(!new)>(r: R.Ring<S>, view: State<Node<S, T>, Item<S, T>>) returns (s: R.State<S>)
    requires r.Valid() && Reached(RingCollective(r), r.Size(), view)
    ensures ShowsRing(r, view, s)
  {
    var c, shows := RingCollective<S, T>(r), (view: State<Node<S, T>, Item<S, T>>) => exists z :: ShowsRing(r, view, z);
    forall v | Begins(c, r.Size(), v) ensures shows(v) { var z := RingShowsFirst(r, v); }
    forall v, v', p | shows(v) && Moves(c, v, v', p) ensures shows(v') {
      var z :| ShowsRing(r, v, z);
      var z' := RingShowsNext(r, v, v', p, z);
    }
    ReachedKeeps(c, r.Size(), shows, view);
    s :| ShowsRing(r, view, s);
  }

  lemma RingCleansUp<S(!new), T(!new)>(r: R.Ring<S>)
    requires r.Valid()
    ensures CleansUp(RingCollective<S, T>(r), r.Size())
  {
    var c := RingCollective<S, T>(r);
    forall view | Reached(c, r.Size(), view) && Over(c, view) ensures view.service == map[] {
      var s := RingReached(r, view);
      forall p | 0 <= p < r.Size() ensures s.nodes[p].counter == r.Transfers() { assert c.done(p, view.nodes[p]); }
      R.NothingLeft(r, s);
    }
  }

  // ---- the rooted reduce -------------------------------------------------------------------------

  ghost predicate ReduceSeen<S(!new), T(!new)>(plan: U.Plan<T>, p: nat, node: Node<S, T>, service: Service<Item<S, T>>,
                                               node': Node<S, T>, service': Service<Item<S, T>>, s: U.State<T>, action: U.Action)
  {
    && p == action.node < plan.Size() == |s.nodes| && U.Enabled(plan, s, action)
    && node == InReduce(s.nodes[p]) && service == Wholes(s.offers)
    && var next := U.Next(plan, s, action);
    && node' == InReduce(next.nodes[p]) && service' == Wholes(next.offers)
  }

  ghost predicate ReduceStep<S(!new), T(!new)>(plan: U.Plan<T>, p: nat, node: Node<S, T>, service: Service<Item<S, T>>,
                                               node': Node<S, T>, service': Service<Item<S, T>>)
  {
    exists s, action :: ReduceSeen(plan, p, node, service, node', service', s, action)
  }

  ghost function ReduceCollective<S(!new), T(!new)>(plan: U.Plan<T>): Collective<Node<S, T>, Item<S, T>>
    requires plan.Valid()
  {
    Collective(
      p => InReduce(U.Fresh(plan, Within(p, plan.Size()))),
      (p: nat, node: Node<S, T>) => node.InReduce? && node.reduce.phase.Done?,
      (p, node, service, node', service') => ReduceStep(plan, p, node, service, node', service'))
  }

  ghost predicate ShowsReduce<S(!new), T(!new)>(plan: U.Plan<T>, view: State<Node<S, T>, Item<S, T>>, s: U.State<T>)
    requires plan.Valid()
  {
    && U.Inv(plan, s) && |view.nodes| == plan.Size() && view.service == Wholes(s.offers)
    && forall p | 0 <= p < plan.Size() :: view.nodes[p] == InReduce(s.nodes[p])
  }

  lemma ReduceShowsFirst<S(!new), T(!new)>(plan: U.Plan<T>, view: State<Node<S, T>, Item<S, T>>) returns (s: U.State<T>)
    requires plan.Valid() && Begins(ReduceCollective(plan), plan.Size(), view)
    ensures ShowsReduce(plan, view, s)
  {
    s := U.State(seq(plan.Size(), p requires 0 <= p < plan.Size() => U.Fresh(plan, p)), map[]);
    U.InitInv(plan, s);
    assert view.service == Wholes(s.offers);
  }

  lemma ReduceShowsNext<S(!new), T(!new)>(plan: U.Plan<T>, view: State<Node<S, T>, Item<S, T>>, view': State<Node<S, T>, Item<S, T>>, p: nat, z: U.State<T>)
    returns (z': U.State<T>)
    requires plan.Valid() && ShowsReduce(plan, view, z) && Moves(ReduceCollective(plan), view, view', p)
    ensures ShowsReduce(plan, view', z')
  {
    assert ReduceStep(plan, p, view.nodes[p], view.service, view'.nodes[p], view'.service);
    var s, action :| ReduceSeen(plan, p, view.nodes[p], view.service, view'.nodes[p], view'.service, s, action);
    WholesTell<S, T>(s.offers, z.offers);
    U.StepElsewhere(plan, s, z, action);
    U.StepInv(plan, z, action);
    z' := U.Next(plan, z, action);
  }

  lemma ReduceReached<S(!new), T(!new)>(plan: U.Plan<T>, view: State<Node<S, T>, Item<S, T>>) returns (s: U.State<T>)
    requires plan.Valid() && Reached(ReduceCollective(plan), plan.Size(), view)
    ensures ShowsReduce(plan, view, s)
  {
    var c, shows := ReduceCollective<S, T>(plan), (view: State<Node<S, T>, Item<S, T>>) => exists z :: ShowsReduce(plan, view, z);
    forall v | Begins(c, plan.Size(), v) ensures shows(v) { var z := ReduceShowsFirst(plan, v); }
    forall v, v', p | shows(v) && Moves(c, v, v', p) ensures shows(v') {
      var z :| ShowsReduce(plan, v, z);
      var z' := ReduceShowsNext(plan, v, v', p, z);
    }
    ReachedKeeps(c, plan.Size(), shows, view);
    s :| ShowsReduce(plan, view, s);
  }

  lemma ReduceCleansUp<S(!new), T(!new)>(plan: U.Plan<T>)
    requires plan.Valid()
    ensures CleansUp(ReduceCollective<S, T>(plan), plan.Size())
  {
    var c := ReduceCollective<S, T>(plan);
    forall view | Reached(c, plan.Size(), view) && Over(c, view) ensures view.service == map[] {
      var s := ReduceReached(plan, view);
      forall p | 0 <= p < plan.Size() ensures s.nodes[p].phase.Done? { assert c.done(p, view.nodes[p]); }
      U.NothingLeft(plan, s);
    }
  }

  // ---- the rooted broadcast ----------------------------------------------------------------------

  ghost predicate BroadcastSeen<S(!new), T(!new)>(plan: D.Plan<T>, p: nat, node: Node<S, T>, service: Service<Item<S, T>>,
                                                  node': Node<S, T>, service': Service<Item<S, T>>, s: D.State<T>, action: D.Action)
  {
    && D.Shape(plan, s) && p == D.Actor(action) < plan.Size() && D.Enabled(plan, s, action)
    && node == InBroadcast(s.nodes[p]) && service == Wholes(s.offers)
    && var next := D.Next(plan, s, action);
    && node' == InBroadcast(next.nodes[p]) && service' == Wholes(next.offers)
  }

  ghost predicate BroadcastStep<S(!new), T(!new)>(plan: D.Plan<T>, p: nat, node: Node<S, T>, service: Service<Item<S, T>>,
                                                  node': Node<S, T>, service': Service<Item<S, T>>)
  {
    exists s, action :: BroadcastSeen(plan, p, node, service, node', service', s, action)
  }

  ghost function BroadcastCollective<S(!new), T(!new)>(plan: D.Plan<T>): Collective<Node<S, T>, Item<S, T>> {
    Collective(
      p => InBroadcast(D.Waiting),
      (p: nat, node: Node<S, T>) => node.InBroadcast? && node.broadcast.Done?,
      (p, node, service, node', service') => BroadcastStep(plan, p, node, service, node', service'))
  }

  ghost predicate ShowsBroadcast<S(!new), T(!new)>(plan: D.Plan<T>, view: State<Node<S, T>, Item<S, T>>, s: D.State<T>)
    requires plan.Valid()
  {
    && D.Inv(plan, s) && |view.nodes| == plan.Size() && view.service == Wholes(s.offers)
    && forall p | 0 <= p < plan.Size() :: view.nodes[p] == InBroadcast(s.nodes[p])
  }

  lemma BroadcastShowsFirst<S(!new), T(!new)>(plan: D.Plan<T>, view: State<Node<S, T>, Item<S, T>>) returns (s: D.State<T>)
    requires plan.Valid() && Begins(BroadcastCollective(plan), plan.Size(), view)
    ensures ShowsBroadcast(plan, view, s)
  {
    s := D.State(seq(plan.Size(), p => D.Waiting), map[], seq(plan.Size(), p => []));
    assert view.service == Wholes(s.offers);
  }

  lemma BroadcastShowsNext<S(!new), T(!new)>(plan: D.Plan<T>, view: State<Node<S, T>, Item<S, T>>, view': State<Node<S, T>, Item<S, T>>, p: nat, z: D.State<T>)
    returns (z': D.State<T>)
    requires plan.Valid() && ShowsBroadcast(plan, view, z) && Moves(BroadcastCollective(plan), view, view', p)
    ensures ShowsBroadcast(plan, view', z')
  {
    assert BroadcastStep(plan, p, view.nodes[p], view.service, view'.nodes[p], view'.service);
    var s, action :| BroadcastSeen(plan, p, view.nodes[p], view.service, view'.nodes[p], view'.service, s, action);
    WholesTell<S, T>(s.offers, z.offers);
    D.StepElsewhere(plan, s, plan, z, action);
    D.StepInv(plan, z, action);
    z' := D.Next(plan, z, action);
  }

  lemma BroadcastReached<S(!new), T(!new)>(plan: D.Plan<T>, view: State<Node<S, T>, Item<S, T>>) returns (s: D.State<T>)
    requires plan.Valid() && Reached(BroadcastCollective(plan), plan.Size(), view)
    ensures ShowsBroadcast(plan, view, s)
  {
    var c, shows := BroadcastCollective<S, T>(plan), (view: State<Node<S, T>, Item<S, T>>) => exists z :: ShowsBroadcast(plan, view, z);
    forall v | Begins(c, plan.Size(), v) ensures shows(v) { var z := BroadcastShowsFirst(plan, v); }
    forall v, v', p | shows(v) && Moves(c, v, v', p) ensures shows(v') {
      var z :| ShowsBroadcast(plan, v, z);
      var z' := BroadcastShowsNext(plan, v, v', p, z);
    }
    ReachedKeeps(c, plan.Size(), shows, view);
    s :| ShowsBroadcast(plan, view, s);
  }

  lemma BroadcastCleansUp<S(!new), T(!new)>(plan: D.Plan<T>)
    requires plan.Valid()
    ensures CleansUp(BroadcastCollective<S, T>(plan), plan.Size())
  {
    var c := BroadcastCollective<S, T>(plan);
    forall view | Reached(c, plan.Size(), view) && Over(c, view) ensures view.service == map[] {
      var s := BroadcastReached(plan, view);
      forall p | 0 <= p < plan.Size() ensures s.nodes[p].Done? { assert c.done(p, view.nodes[p]); }
      D.NothingLeft(plan, s);
    }
  }

  // ---- the all-reduce over a tree or a star ------------------------------------------------------

  // The two transfers never share a key.
  ghost predicate Apart<T>(s: A.State<T>) {
    (forall k | k in s.up.offers :: k.1 == 0) && (forall k | k in s.down.offers :: k.1 == 1)
  }

  ghost function Both<S, T>(s: A.State<T>): Service<Item<S, T>> { Wholes(s.up.offers + s.down.offers) }

  lemma BothTell<S, T>(s: A.State<T>, z: A.State<T>)
    requires Apart(s) && Apart(z) && Both<S, T>(s) == Both<S, T>(z)
    ensures s.up.offers == z.up.offers && s.down.offers == z.down.offers
  {
    var a, b := s.up.offers + s.down.offers, z.up.offers + z.down.offers;
    WholesTell<S, T>(a, b);
    forall k ensures (k in s.up.offers <==> k in z.up.offers) && (k in s.down.offers <==> k in z.down.offers) {
      assert k in a <==> k in b;
    }
    forall k | k in s.up.offers ensures s.up.offers[k] == z.up.offers[k] { assert k !in s.down.offers && a[k] == b[k]; }
    forall k | k in s.down.offers ensures s.down.offers[k] == z.down.offers[k] { assert a[k] == b[k]; }
  }

  ghost predicate AllReduceSeen<S(!new), T(!new)>(plan: A.Plan<T>, p: nat, node: Node<S, T>, service: Service<Item<S, T>>,
                                                  node': Node<S, T>, service': Service<Item<S, T>>, s: A.State<T>, action: A.Action)
  {
    && A.Shape(plan, s) && p == A.Actor(action) < plan.Size() && A.Enabled(plan, s, action) && Apart(s)
    && node == InAllReduce(s.up.nodes[p], s.down.nodes[p]) && service == Both(s)
    && var next := A.Next(plan, s, action);
    && node' == InAllReduce(next.up.nodes[p], next.down.nodes[p]) && service' == Both(next)
  }

  ghost predicate AllReduceStep<S(!new), T(!new)>(plan: A.Plan<T>, p: nat, node: Node<S, T>, service: Service<Item<S, T>>,
                                                  node': Node<S, T>, service': Service<Item<S, T>>)
  {
    exists s, action :: AllReduceSeen(plan, p, node, service, node', service', s, action)
  }

  ghost function AllReduceCollective<S(!new), T(!new)>(plan: A.Plan<T>): Collective<Node<S, T>, Item<S, T>>
    requires plan.Valid()
  {
    Collective(
      p => InAllReduce(U.Fresh(plan.Up(), Within(p, plan.Size())), D.Waiting),
      (p: nat, node: Node<S, T>) => node.InAllReduce? && node.down.Done?,
      (p, node, service, node', service') => AllReduceStep(plan, p, node, service, node', service'))
  }

  ghost predicate ShowsAllReduce<S(!new), T(!new)>(plan: A.Plan<T>, view: State<Node<S, T>, Item<S, T>>, s: A.State<T>)
    requires plan.Valid()
  {
    && A.Inv(plan, s) && A.Shape(plan, s) && |view.nodes| == plan.Size() && view.service == Both(s)
    && forall p | 0 <= p < plan.Size() :: view.nodes[p] == InAllReduce(s.up.nodes[p], s.down.nodes[p])
  }

  lemma AllReduceShowsFirst<S(!new), T(!new)>(plan: A.Plan<T>, view: State<Node<S, T>, Item<S, T>>) returns (s: A.State<T>)
    requires plan.Valid() && Begins(AllReduceCollective(plan), plan.Size(), view)
    ensures ShowsAllReduce(plan, view, s)
  {
    var up := U.State(seq(plan.Size(), p requires 0 <= p < plan.Size() => U.Fresh(plan.Up(), p)), map[]);
    U.InitInv(plan.Up(), up);
    s := A.State(up, D.State(seq(plan.Size(), p => D.Waiting), map[], seq(plan.Size(), p => [])));
    assert view.service == Both(s);
  }

  lemma InvIsApart<T(!new)>(plan: A.Plan<T>, s: A.State<T>)
    requires plan.Valid() && A.Inv(plan, s)
    ensures Apart(s)
  {
  }

  lemma AllReduceShowsNext<S(!new), T(!new)>(plan: A.Plan<T>, view: State<Node<S, T>, Item<S, T>>, view': State<Node<S, T>, Item<S, T>>, p: nat, z: A.State<T>)
    returns (z': A.State<T>)
    requires plan.Valid() && ShowsAllReduce(plan, view, z) && Moves(AllReduceCollective(plan), view, view', p)
    ensures ShowsAllReduce(plan, view', z')
  {
    assert AllReduceStep(plan, p, view.nodes[p], view.service, view'.nodes[p], view'.service);
    var s, action :| AllReduceSeen(plan, p, view.nodes[p], view.service, view'.nodes[p], view'.service, s, action);
    AllReduceMatches(plan, view, p, s, z);
    z' := AllReduceFollows(plan, s, z, action);
    AllReduceShown(plan, view, view', p, z, z');
  }

  lemma AllReduceShown<S(!new), T(!new)>(plan: A.Plan<T>, view: State<Node<S, T>, Item<S, T>>, view': State<Node<S, T>, Item<S, T>>, p: nat,
                                         z: A.State<T>, z': A.State<T>)
    requires plan.Valid() && ShowsAllReduce(plan, view, z) && A.Inv(plan, z') && A.Shape(plan, z') && p < plan.Size() && view'.service == Both(z')
    requires z'.up.nodes == z.up.nodes[p := z'.up.nodes[p]] && z'.down.nodes == z.down.nodes[p := z'.down.nodes[p]]
    requires view'.nodes == view.nodes[p := InAllReduce(z'.up.nodes[p], z'.down.nodes[p])]
    ensures ShowsAllReduce(plan, view', z')
  {
  }

  lemma AllReduceMatches<S(!new), T(!new)>(plan: A.Plan<T>, view: State<Node<S, T>, Item<S, T>>, p: nat, s: A.State<T>, z: A.State<T>)
    requires plan.Valid() && ShowsAllReduce(plan, view, z) && A.Shape(plan, s) && Apart(s) && p < plan.Size()
    requires view.nodes[p] == InAllReduce(s.up.nodes[p], s.down.nodes[p]) && view.service == Both(s)
    ensures z.up.offers == s.up.offers && z.down.offers == s.down.offers
    ensures z.up.nodes[p] == s.up.nodes[p] && z.down.nodes[p] == s.down.nodes[p]
  {
    InvIsApart(plan, z);
    BothTell<S, T>(s, z);
  }

  // The state that the nodes show makes the move that one of them was seen to make.
  lemma AllReduceFollows<T(!new)>(plan: A.Plan<T>, s: A.State<T>, z: A.State<T>, action: A.Action) returns (z': A.State<T>)
    requires A.Shape(plan, s) && A.Enabled(plan, s, action) && A.Shape(plan, z) && A.Inv(plan, z)
    requires z.up.offers == s.up.offers && z.down.offers == s.down.offers && A.Actor(action) < plan.Size()
    requires z.up.nodes[A.Actor(action)] == s.up.nodes[A.Actor(action)] && z.down.nodes[A.Actor(action)] == s.down.nodes[A.Actor(action)]
    ensures A.Inv(plan, z') && A.Shape(plan, z')
    ensures var next := A.Next(plan, s, action); var p := A.Actor(action);
      && z'.up.nodes == z.up.nodes[p := next.up.nodes[p]] && z'.down.nodes == z.down.nodes[p := next.down.nodes[p]]
      && z'.up.offers == next.up.offers && z'.down.offers == next.down.offers
  {
    A.StepElsewhere(plan, s, z, action);
    A.StepInv(plan, z, action);
    z' := A.Next(plan, z, action);
  }

  lemma AllReduceReached<S(!new), T(!new)>(plan: A.Plan<T>, view: State<Node<S, T>, Item<S, T>>) returns (s: A.State<T>)
    requires plan.Valid() && Reached(AllReduceCollective(plan), plan.Size(), view)
    ensures ShowsAllReduce(plan, view, s)
  {
    var c, shows := AllReduceCollective<S, T>(plan), (view: State<Node<S, T>, Item<S, T>>) => exists z :: ShowsAllReduce(plan, view, z);
    forall v | Begins(c, plan.Size(), v) ensures shows(v) { var z := AllReduceShowsFirst(plan, v); }
    forall v, v', p | shows(v) && Moves(c, v, v', p) ensures shows(v') {
      var z :| ShowsAllReduce(plan, v, z);
      var z' := AllReduceShowsNext(plan, v, v', p, z);
    }
    ReachedKeeps(c, plan.Size(), shows, view);
    s :| ShowsAllReduce(plan, view, s);
  }

  lemma AllReduceCleansUp<S(!new), T(!new)>(plan: A.Plan<T>)
    requires plan.Valid()
    ensures CleansUp(AllReduceCollective<S, T>(plan), plan.Size())
  {
    var c := AllReduceCollective<S, T>(plan);
    forall view | Reached(c, plan.Size(), view) && Over(c, view) ensures view.service == map[] {
      var s := AllReduceReached(plan, view);
      forall p | 0 <= p < plan.Size() ensures s.down.nodes[p].Done? { assert c.done(p, view.nodes[p]); }
      A.NothingLeft(plan, s);
    }
  }

  // ---- any sequence of them ----------------------------------------------------------------------

  ghost function CollectiveOf<S(!new), T(!new)>(task: Task<S, T>, size: nat): Collective<Node<S, T>, Item<S, T>>
    requires task.Valid(size)
  {
    match task
    case Ring(ring) => RingCollective(ring)
    case Reduce(reduce, root) => WithRoot(ReduceCollective(reduce), root)
    case Broadcast(broadcast, root) => WithRoot(BroadcastCollective(broadcast), root)
    case AllReduce(allReduce) => AllReduceCollective(allReduce)
  }

  lemma TaskCleansUp<S(!new), T(!new)>(task: Task<S, T>, size: nat)
    requires task.Valid(size)
    ensures CleansUp(CollectiveOf(task, size), size)
  {
    match task
    case Ring(ring) => RingCleansUp<S, T>(ring);
    case Reduce(reduce, root) =>
      ReduceCleansUp<S, T>(reduce);
      WithRootCleansUp(ReduceCollective<S, T>(reduce), size, root);
    case Broadcast(broadcast, root) =>
      BroadcastCleansUp<S, T>(broadcast);
      WithRootCleansUp(BroadcastCollective<S, T>(broadcast), size, root);
    case AllReduce(allReduce) => AllReduceCleansUp<S, T>(allReduce);
  }

  ghost predicate Scheduled<S(!new), T(!new)>(tasks: nat -> Task<S, T>, size: nat) {
    size > 0 && forall g :: tasks(g).Valid(size)
  }

  ghost function Mixed<S(!new), T(!new)>(tasks: nat -> Task<S, T>, size: nat): (rs: Rounds<Node<S, T>, Item<S, T>>)
    requires Scheduled(tasks, size)
    ensures rs.size == size && rs.Valid() && forall g :: rs.collectives(g) == CollectiveOf(tasks(g), size)
  {
    forall g: nat ensures CleansUp(CollectiveOf(tasks(g), size), size) { TaskCleansUp(tasks(g), size); }
    Rounds(g requires tasks(g).Valid(size) => CollectiveOf(tasks(g), size), size)
  }

  // What a node must hold when it is done with a task.
  ghost predicate Right<S(!new), T(!new)>(task: Task<S, T>, size: nat, p: nat, node: Node<S, T>)
    requires task.Valid(size)
  {
    match task
    case Ring(r) =>
      node.InRing? && !node.ring.failed && |node.ring.slices| == size &&
      forall c | 0 <= c < size :: node.ring.slices[c] == RingFold(r.op, Column(r.x, c), c, size - 1)
    case Reduce(plan, root) =>
      node.InReduce? && node.reduce.phase == U.Done(if p == root then Some(U.SubtreeSum(plan, 0)) else None)
    case Broadcast(plan, root) =>
      node.InBroadcast? && node.broadcast.Done? && plan.tensors[0] == Some(node.broadcast.tensor)
    case AllReduce(plan) =>
      node.InAllReduce? && node.down == D.Done(LeftFold(plan.op, plan.x))
  }

  lemma RingIsRight<S(!new), T(!new)>(r: R.Ring<S>, p: nat, node: Node<S, T>, view: State<Node<S, T>, Item<S, T>>)
    requires r.Valid() && p < r.Size() && CloseBy(RingCollective(r), r.Size(), p, node, view)
    requires RingCollective<S, T>(r).done(p, node)
    ensures Right<S, T>(Ring(r), r.Size(), p, node)
  {
    var s := RingReached(r, view);
    assert R.NodeInv(r, p, s.nodes[p]);
    forall c | 0 <= c < r.Size() ensures node.ring.slices[c] == RingFold(r.op, Column(r.x, c), c, r.Size() - 1) {
      R.FinishedSlice(r, p, s.nodes[p], c);
    }
  }

  lemma ReduceIsRight<S(!new), T(!new)>(plan: U.Plan<T>, root: nat, p: nat, node: Node<S, T>, view: State<Node<S, T>, Item<S, T>>)
    requires plan.Valid() && p < plan.Size() && root < plan.Size()
    requires CloseBy(WithRoot(ReduceCollective(plan), root), plan.Size(), p, node, view)
    requires node.InReduce? && node.reduce.phase.Done?
    ensures Right<S, T>(Reduce(plan, root), plan.Size(), p, node)
  {
    ReachedPositioned(ReduceCollective(plan), plan.Size(), root, view);
    var s := ReduceReached(plan, Positioned(view, root));
    var q := Position(root, p);
    assert s.nodes[q] == node.reduce && U.NodeInv(plan, q, s.nodes[q]);
    U.DoneResult(plan, q, s.nodes[q]);
  }

  lemma BroadcastIsRight<S(!new), T(!new)>(plan: D.Plan<T>, root: nat, p: nat, node: Node<S, T>, view: State<Node<S, T>, Item<S, T>>)
    requires plan.Valid() && p < plan.Size() && root < plan.Size()
    requires CloseBy(WithRoot(BroadcastCollective(plan), root), plan.Size(), p, node, view)
    requires node.InBroadcast? && node.broadcast.Done?
    ensures Right<S, T>(Broadcast(plan, root), plan.Size(), p, node)
  {
    ReachedPositioned(BroadcastCollective(plan), plan.Size(), root, view);
    var s := BroadcastReached(plan, Positioned(view, root));
    var q := Position(root, p);
    assert s.nodes[q] == node.broadcast && D.StatusInv(plan, q, s.nodes[q]);
  }

  lemma AllReduceIsRight<S(!new), T(!new)>(plan: A.Plan<T>, p: nat, node: Node<S, T>, view: State<Node<S, T>, Item<S, T>>)
    requires plan.Valid() && p < plan.Size() && CloseBy(AllReduceCollective(plan), plan.Size(), p, node, view)
    requires node.InAllReduce? && node.down.Done?
    ensures Right<S, T>(AllReduce(plan), plan.Size(), p, node)
  {
    var s := AllReduceReached(plan, view);
    assert D.StatusInv(A.Goal(plan), p, s.down.nodes[p]);
  }

  lemma ClosedIsRight<S(!new), T(!new)>(task: Task<S, T>, size: nat, p: nat, node: Node<S, T>)
    requires task.Valid(size) && Closed(CollectiveOf(task, size), size, p, node)
    ensures Right(task, size, p, node)
  {
    var view :| CloseBy(CollectiveOf(task, size), size, p, node, view);
    match task
    case Ring(ring) => RingIsRight<S, T>(ring, p, node, view);
    case Reduce(reduce, root) => ReduceIsRight<S, T>(reduce, root, p, node, view);
    case Broadcast(broadcast, root) => BroadcastIsRight<S, T>(broadcast, root, p, node, view);
    case AllReduce(allReduce) => AllReduceIsRight<S, T>(allReduce, p, node, view);
  }

  // In every sequence of collectives, whatever the kinds, roots and transfer numbers, and in every
  // interleaving of their steps and the barriers', whoever is in a round's barrier holds what that
  // round's collective alone would have given it.
  lemma EveryRoundIsRight<S(!new), T(!new)>(tasks: nat -> Task<S, T>, size: nat, run: seq<World<Node<S, T>, Item<S, T>>>, i: nat, p: nat)
    requires Scheduled(tasks, size) && IsWorldRun(Mixed(tasks, size), run) && i < |run| && p < size
    ensures p in run[i].cluster.nodes && p in run[i].cluster.calls && |run[i].state.nodes| == size
    ensures !run[i].cluster.calls[p].Idle? ==> Right(tasks(RoundOf(run[i], p)), size, p, run[i].state.nodes[p])
  {
    var rs := Mixed(tasks, size);
    BarriersCloseRounds(rs, run, i, p);
    if !run[i].cluster.calls[p].Idle? {
      var g := RoundOf(run[i], p);
      assert rs.collectives(g) == CollectiveOf(tasks(g), size);
      ClosedIsRight(tasks(g), size, p, run[i].state.nodes[p]);
    }
  }

  // What a task puts on offer under a key, whatever the interleaving.
  ghost predicate Offered<S(!new), T(!new)>(task: Task<S, T>, size: nat, key: Key, offer: Offer<Item<S, T>>)
    requires task.Valid(size)
  {
    match task
    case Ring(r) =>
      key.0 < size && key.1 < r.Transfers() && offer == Offer(Slice(R.Sent(r, key.0, key.1)), 1)
    case Reduce(plan, root) =>
      key.1 == plan.transfer && 0 < Position(root, key.0) < size && offer == Offer(Whole(U.SubtreeSum(plan, Position(root, key.0))), 1)
    case Broadcast(plan, root) =>
      key.1 == plan.transfer && offer.tensor.Whole? && plan.tensors[0] == Some(offer.tensor.tensor)
    case AllReduce(plan) =>
      if key.1 == 0 then 0 < key.0 < size && offer == Offer(Whole(U.SubtreeSum(plan.Up(), key.0)), 1)
      else key.1 == 1 && offer.tensor == Whole(LeftFold(plan.op, plan.x))
  }

  lemma RingOffers<S(!new), T(!new)>(r: R.Ring<S>, view: State<Node<S, T>, Item<S, T>>, key: Key)
    requires r.Valid() && Reached(RingCollective(r), r.Size(), view) && key in view.service
    ensures Offered<S, T>(Ring(r), r.Size(), key, view.service[key])
  {
    var s := RingReached(r, view);
    assert key in s.exposed;
  }

  lemma ReduceOffers<S(!new), T(!new)>(plan: U.Plan<T>, root: nat, view: State<Node<S, T>, Item<S, T>>, key: Key)
    requires plan.Valid() && root < plan.Size() && Reached(WithRoot(ReduceCollective(plan), root), plan.Size(), view) && key in view.service
    ensures Offered<S, T>(Reduce(plan, root), plan.Size(), key, view.service[key])
  {
    ReachedPositioned(ReduceCollective(plan), plan.Size(), root, view);
    var s := ReduceReached(plan, Positioned(view, root));
    RekeyedIs(view.service, root, key);
    assert KeyAt(root, key) in s.offers;
    assert U.OfferInv(plan, s, Position(root, key.0));
  }

  lemma BroadcastOffers<S(!new), T(!new)>(plan: D.Plan<T>, root: nat, view: State<Node<S, T>, Item<S, T>>, key: Key)
    requires plan.Valid() && root < plan.Size() && Reached(WithRoot(BroadcastCollective(plan), root), plan.Size(), view) && key in view.service
    ensures Offered<S, T>(Broadcast(plan, root), plan.Size(), key, view.service[key])
  {
    ReachedPositioned(BroadcastCollective(plan), plan.Size(), root, view);
    var s := BroadcastReached(plan, Positioned(view, root));
    RekeyedIs(view.service, root, key);
    assert KeyAt(root, key) in s.offers;
    assert D.OfferInv(plan, s, Position(root, key.0));
  }

  lemma AllReduceOffers<S(!new), T(!new)>(plan: A.Plan<T>, view: State<Node<S, T>, Item<S, T>>, key: Key)
    requires plan.Valid() && Reached(AllReduceCollective(plan), plan.Size(), view) && key in view.service
    ensures Offered<S, T>(AllReduce(plan), plan.Size(), key, view.service[key])
  {
    var s := AllReduceReached(plan, view);
    InvIsApart(plan, s);
    if key in s.up.offers {
      assert U.OfferInv(plan.Up(), s.up, key.0);
    } else {
      assert key in s.down.offers && D.OfferInv(A.Goal(plan), s.down, key.0);
    }
  }

  lemma TaskOffers<S(!new), T(!new)>(task: Task<S, T>, size: nat, view: State<Node<S, T>, Item<S, T>>, key: Key)
    requires task.Valid(size) && Reached(CollectiveOf(task, size), size, view) && key in view.service
    ensures Offered(task, size, key, view.service[key])
  {
    match task
    case Ring(ring) => RingOffers<S, T>(ring, view, key);
    case Reduce(reduce, root) => ReduceOffers<S, T>(reduce, root, view, key);
    case Broadcast(broadcast, root) => BroadcastOffers<S, T>(broadcast, root, view, key);
    case AllReduce(allReduce) => AllReduceOffers<S, T>(allReduce, view, key);
  }

  // Whenever a node works, everything on offer anywhere belongs to its own round and has that round's
  // contents, although the numbers of different rounds coincide: no download can bring anything else.
  lemma OnlyTheRoundIsOnOffer<S(!new), T(!new)>(tasks: nat -> Task<S, T>, size: nat, run: seq<World<Node<S, T>, Item<S, T>>>, i: nat,
                                                w': World<Node<S, T>, Item<S, T>>, p: nat, key: Key)
    requires Scheduled(tasks, size) && IsWorldRun(Mixed(tasks, size), run) && i < |run| && WorkStep(Mixed(tasks, size), run[i], w', p)
    requires key in run[i].state.service
    ensures Offered(tasks(RoundOf(run[i], p)), size, key, run[i].state.service[key])
  {
    var rs, g := Mixed(tasks, size), RoundOf(run[i], p);
    RoundsDoNotMix(rs, run, i, w', p);
    assert rs.collectives(g) == CollectiveOf(tasks(g), size);
    var alone, alone' :| AloneStep(rs.collectives(g), size, alone, alone', p, run[i].state, w'.state);
    TaskOffers(tasks(g), size, alone, key);
  }
}
