// src/global/node/base.rs, src/global/node/sync.rs: one collective between nodes after another.
//
// All of them number their transfers in the same data services: a ring from 0 on, a tree or star
// all-reduce with 0 and 1, a rooted collective with the number it was given. The barrier that closes each
// of them is what keeps a slow node from downloading a later collective's transfer.
module CollectiveRounds {
  import opened DataService
  import B = SyncBarrier

  // A collective from a node's point of view: its state before the first step, when it turns to the
  // barrier, and its steps, which depend on its own state and on what is on offer.
  datatype Collective<!N(!new), !T(!new)> = Collective(start: nat -> N, done: (nat, N) -> bool, step: (nat, N, Service<T>, N, Service<T>) -> bool)

  datatype State<N, T> = State(nodes: seq<N>, service: Service<T>)

  // ---- one collective alone ----------------------------------------------------------------------

  ghost predicate Moves<N(!new), T(!new)>(c: Collective<N, T>, s: State<N, T>, s': State<N, T>, p: nat) {
    && p < |s.nodes| == |s'.nodes| && s'.nodes == s.nodes[p := s'.nodes[p]]
    && c.step(p, s.nodes[p], s.service, s'.nodes[p], s'.service)
  }

  ghost predicate SomeoneMoves<N(!new), T(!new)>(c: Collective<N, T>, s: State<N, T>, s': State<N, T>) {
    exists p :: Moves(c, s, s', p)
  }

  ghost predicate Begins<N(!new), T(!new)>(c: Collective<N, T>, size: nat, s: State<N, T>) {
    |s.nodes| == size && s.service == map[] && forall p | 0 <= p < size :: s.nodes[p] == c.start(p)
  }

  ghost predicate IsRun<N(!new), T(!new)>(c: Collective<N, T>, size: nat, run: seq<State<N, T>>) {
    run != [] && Begins(c, size, run[0]) && forall i, j | 0 <= i && j == i + 1 && j < |run| :: SomeoneMoves(c, run[i], run[j])
  }

  ghost predicate EndsIn<N(!new), T(!new)>(c: Collective<N, T>, size: nat, run: seq<State<N, T>>, s: State<N, T>) {
    IsRun(c, size, run) && run[|run| - 1] == s
  }

  // A run of this collective alone, with nothing on offer at first, leads here.
  ghost predicate Reached<N(!new), T(!new)>(c: Collective<N, T>, size: nat, s: State<N, T>) {
    exists run :: EndsIn(c, size, run, s)
  }

  ghost predicate Over<N(!new), T(!new)>(c: Collective<N, T>, s: State<N, T>) {
    forall p | 0 <= p < |s.nodes| :: c.done(p, s.nodes[p])
  }

  // When every node is done nothing is left on offer.
  ghost predicate CleansUp<N(!new), T(!new)>(c: Collective<N, T>, size: nat) {
    forall s | Reached(c, size, s) && Over(c, s) :: s.service == map[]
  }

  lemma {:induction false} RunKeepsSize<N(!new), T(!new)>(c: Collective<N, T>, size: nat, run: seq<State<N, T>>, i: nat)
    requires IsRun(c, size, run) && i < |run|
    ensures |run[i].nodes| == size
  {
    if i > 0 {
      RunKeepsSize(c, size, run, i - 1);
      assert SomeoneMoves(c, run[i - 1], run[i]);
    }
  }

  lemma ReachedSize<N(!new), T(!new)>(c: Collective<N, T>, size: nat, s: State<N, T>)
    requires Reached(c, size, s)
    ensures |s.nodes| == size
  {
    var run :| EndsIn(c, size, run, s);
    RunKeepsSize(c, size, run, |run| - 1);
  }

  lemma ReachedFirst<N(!new), T(!new)>(c: Collective<N, T>, size: nat, s: State<N, T>)
    requires Begins(c, size, s)
    ensures Reached(c, size, s)
  {
    assert EndsIn(c, size, [s], s);
  }

  lemma ReachedNext<N(!new), T(!new)>(c: Collective<N, T>, size: nat, s: State<N, T>, s': State<N, T>, p: nat)
    requires Reached(c, size, s) && Moves(c, s, s', p)
    ensures Reached(c, size, s')
  {
    var run :| EndsIn(c, size, run, s);
    var longer := run + [s'];
    forall i, j | 0 <= i && j == i + 1 && j < |longer| ensures SomeoneMoves(c, longer[i], longer[j]) {
      if j < |run| { assert SomeoneMoves(c, run[i], run[j]); } else { assert Moves(c, longer[i], longer[j], p); }
    }
    assert EndsIn(c, size, longer, s');
  }

  // What holds at first and is kept by every move holds wherever a run leads.
  lemma {:induction false} RunKeeps<N(!new), T(!new)>(c: Collective<N, T>, size: nat, inv: State<N, T> -> bool, run: seq<State<N, T>>, i: nat)
    requires forall s | Begins(c, size, s) :: inv(s)
    requires forall s, s', p | inv(s) && Moves(c, s, s', p) :: inv(s')
    requires IsRun(c, size, run) && i < |run|
    ensures inv(run[i])
  {
    if i > 0 {
      RunKeeps(c, size, inv, run, i - 1);
      assert SomeoneMoves(c, run[i - 1], run[i]);
      var p :| Moves(c, run[i - 1], run[i], p);
    }
  }

  lemma ReachedKeeps<N(!new), T(!new)>(c: Collective<N, T>, size: nat, inv: State<N, T> -> bool, s: State<N, T>)
    requires forall s | Begins(c, size, s) :: inv(s)
    requires forall s, s', p | inv(s) && Moves(c, s, s', p) :: inv(s')
    requires Reached(c, size, s)
    ensures inv(s)
  {
    var run :| EndsIn(c, size, run, s);
    RunKeeps(c, size, inv, run, |run| - 1);
  }

  // ---- one after another -------------------------------------------------------------------------

  // The collective of each round, all between the same nodes.
  datatype Rounds<!N(!new), !T(!new)> = Rounds(collectives: nat -> Collective<N, T>, size: nat) {
    ghost predicate Valid() { size > 0 && forall g :: CleansUp(collectives(g), size) }
  }

  datatype World<N, T> = World(state: State<N, T>, cluster: B.Cluster)

  function Members(n: nat): (members: set<B.NodeId>)
    ensures forall p: nat :: p in members <==> p < n
  {
    if n == 0 then {} else Members(n - 1) + {n - 1}
  }

  // The round a node is in: the barriers it has left.
  ghost function RoundOf<N(!new), T(!new)>(w: World<N, T>, p: nat): nat
    requires p in w.cluster.nodes
  {
    w.cluster.nodes[p].completed
  }

  ghost predicate Start<N(!new), T(!new)>(rs: Rounds<N, T>, w: World<N, T>) {
    w.cluster == B.Start(Members(rs.size)) && Begins(rs.collectives(0), rs.size, w.state)
  }

  // A node works on its collective while it is not in the barrier.
  ghost predicate WorkStep<N(!new), T(!new)>(rs: Rounds<N, T>, w: World<N, T>, w': World<N, T>, p: nat) {
    && p in w.cluster.nodes && p in w.cluster.calls && w.cluster.calls[p].Idle? && w'.cluster == w.cluster
    && Moves(rs.collectives(RoundOf(w, p)), w.state, w'.state, p)
  }

  // A node enters the barrier when it is done and starts the next collective when it leaves.
  ghost predicate BarrierStep<N(!new), T(!new)>(rs: Rounds<N, T>, w: World<N, T>, w': World<N, T>, action: B.Action) {
    && B.Wellformed(w.cluster, Members(rs.size)) && B.Enabled(w.cluster, Members(rs.size), action)
    && w'.cluster == B.Next(w.cluster, Members(rs.size), action)
    && |w.state.nodes| == rs.size
    && match action
       case Enter(p) => rs.collectives(RoundOf(w, p)).done(p, w.state.nodes[p]) && w'.state == w.state
       case Return(p) => w'.state == w.state.(nodes := w.state.nodes[p := rs.collectives(RoundOf(w, p) + 1).start(p)])
       case _ => w'.state == w.state
  }

  ghost predicate Step<N(!new), T(!new)>(rs: Rounds<N, T>, w: World<N, T>, w': World<N, T>) {
    (exists p :: WorkStep(rs, w, w', p)) || (exists action :: BarrierStep(rs, w, w', action))
  }

  ghost predicate IsWorldRun<N(!new), T(!new)>(rs: Rounds<N, T>, run: seq<World<N, T>>) {
    run != [] && Start(rs, run[0]) && forall i, j | 0 <= i && j == i + 1 && j < |run| :: Step(rs, run[i], run[j])
  }

  // ---- the newest round --------------------------------------------------------------------------

  // A node that has not come to round m yet counts as one that has not begun.
  ghost function NodeIn<N(!new), T(!new)>(rs: Rounds<N, T>, w: World<N, T>, m: nat, p: nat): N
    requires p < rs.size == |w.state.nodes| && p in w.cluster.nodes
  {
    if RoundOf(w, p) == m then w.state.nodes[p] else rs.collectives(m).start(p)
  }

  ghost function InRound<N(!new), T(!new)>(rs: Rounds<N, T>, w: World<N, T>, m: nat): (s: State<N, T>)
    requires |w.state.nodes| == rs.size && w.cluster.nodes.Keys == Members(rs.size)
    ensures |s.nodes| == rs.size && s.service == w.state.service
    ensures forall p | 0 <= p < rs.size :: s.nodes[p] == NodeIn(rs, w, m, p)
  {
    State(seq(rs.size, p requires 0 <= p < rs.size => NodeIn(rs, w, m, p)), w.state.service)
  }

  // A node is done with collective c, as it may be after a run of c alone.
  ghost predicate Closed<N(!new), T(!new)>(c: Collective<N, T>, size: nat, p: nat, node: N) {
    p < size && c.done(p, node) && exists s :: CloseBy(c, size, p, node, s)
  }

  ghost predicate CloseBy<N(!new), T(!new)>(c: Collective<N, T>, size: nat, p: nat, node: N, s: State<N, T>) {
    Reached(c, size, s) && p < |s.nodes| && s.nodes[p] == node
  }

  ghost predicate NodeInv<N(!new), T(!new)>(rs: Rounds<N, T>, w: World<N, T>, m: nat, p: nat)
    requires p < rs.size == |w.state.nodes| && p in w.cluster.nodes && p in w.cluster.calls
  {
    && (RoundOf(w, p) == m || (RoundOf(w, p) + 1 == m && !w.cluster.calls[p].Idle?))
    && (!w.cluster.calls[p].Idle? ==> Closed(rs.collectives(RoundOf(w, p)), rs.size, p, w.state.nodes[p]))
  }

  // Round m is the newest: all nodes are in it, or still in the barrier of the one before; and what they
  // and the services hold comes from a run of its collective alone.
  ghost predicate Inv<N(!new), T(!new)>(rs: Rounds<N, T>, w: World<N, T>, m: nat) {
    && B.Inv(w.cluster, Members(rs.size)) && |w.state.nodes| == rs.size
    && (forall p | 0 <= p < rs.size :: NodeInv(rs, w, m, p))
    && Reached(rs.collectives(m), rs.size, InRound(rs, w, m))
  }

  lemma StartInv<N(!new), T(!new)>(rs: Rounds<N, T>, w: World<N, T>)
    requires rs.Valid() && Start(rs, w)
    ensures Inv(rs, w, 0)
  {
    assert InRound(rs, w, 0).nodes == w.state.nodes;
    ReachedFirst(rs.collectives(0), rs.size, InRound(rs, w, 0));
  }

  // What a node does in the newest round it does there alone.
  lemma WorkProjected<N(!new), T(!new)>(rs: Rounds<N, T>, w: World<N, T>, w': World<N, T>, p: nat, m: nat)
    requires Inv(rs, w, m) && WorkStep(rs, w, w', p)
    ensures p < rs.size && RoundOf(w, p) == m && |w'.state.nodes| == rs.size
    ensures Moves(rs.collectives(m), InRound(rs, w, m), InRound(rs, w', m), p)
  {
    assert NodeInv(rs, w, m, p);
    var before, after := InRound(rs, w, m), InRound(rs, w', m);
    forall q | 0 <= q < rs.size && q != p ensures after.nodes[q] == before.nodes[q] {
      assert w'.state.nodes[q] == w.state.nodes[q];
    }
    assert after.nodes == before.nodes[p := after.nodes[p]];
  }

  lemma WorkInv<N(!new), T(!new)>(rs: Rounds<N, T>, w: World<N, T>, w': World<N, T>, p: nat, m: nat)
    requires rs.Valid() && Inv(rs, w, m) && WorkStep(rs, w, w', p)
    ensures Inv(rs, w', m)
  {
    WorkProjected(rs, w, w', p, m);
    ReachedNext(rs.collectives(m), rs.size, InRound(rs, w, m), InRound(rs, w', m), p);
    forall q | 0 <= q < rs.size ensures NodeInv(rs, w', m, q) {
      assert NodeInv(rs, w, m, q);
      assert q != p ==> w'.state.nodes[q] == w.state.nodes[q];
    }
  }

  // Any barrier step but the last leaves every node in its round; only a node that enters starts waiting.
  lemma WaitingStep(c: B.Cluster, members: set<B.NodeId>, action: B.Action, q: nat)
    requires B.Inv(c, members) && B.Wellformed(c, members) && B.Enabled(c, members, action) && !action.Return? && q in members
    ensures var next := B.Next(c, members, action);
      && q in next.nodes && q in next.calls && next.nodes[q].completed == c.nodes[q].completed
      && (!next.calls[q].Idle? ==> !c.calls[q].Idle? || action == B.Enter(q))
  {
  }

  // Leaving the barrier completes the node's round and touches no other node.
  lemma ReturnStep(c: B.Cluster, members: set<B.NodeId>, p: nat, q: nat)
    requires B.Inv(c, members) && B.Wellformed(c, members) && B.Enabled(c, members, B.Return(p)) && q in members
    ensures var next := B.Next(c, members, B.Return(p));
      && q in next.nodes && q in next.calls && next.nodes[q].completed == c.nodes[q].completed + (if q == p then 1 else 0)
      && (if q == p then next.calls[q].Idle? else next.calls[q] == c.calls[q])
  {
    B.ReturnMeansAllEntered(c, members, p);
  }

  // A step that leaves the newest round as it is, seen node by node.
  ghost predicate NodeKept<N(!new), T(!new)>(rs: Rounds<N, T>, w: World<N, T>, w': World<N, T>, m: nat, q: nat)
    requires q < rs.size == |w.state.nodes| == |w'.state.nodes|
    requires q in w.cluster.nodes && q in w'.cluster.nodes && q in w'.cluster.calls
  {
    NodeInv(rs, w', m, q) && NodeIn(rs, w', m, q) == NodeIn(rs, w, m, q)
  }

  lemma KeptInv<N(!new), T(!new)>(rs: Rounds<N, T>, w: World<N, T>, w': World<N, T>, m: nat)
    requires Inv(rs, w, m) && B.Inv(w'.cluster, Members(rs.size)) && |w'.state.nodes| == rs.size
    requires w'.state.service == w.state.service && forall q | 0 <= q < rs.size :: NodeKept(rs, w, w', m, q)
    ensures Inv(rs, w', m)
  {
    forall q | 0 <= q < rs.size ensures NodeInv(rs, w', m, q) && InRound(rs, w', m).nodes[q] == InRound(rs, w, m).nodes[q] {
      assert NodeKept(rs, w, w', m, q);
    }
    assert InRound(rs, w', m) == InRound(rs, w, m);
  }

  // A node that is done with the newest round.
  lemma DoneIsClosed<N(!new), T(!new)>(rs: Rounds<N, T>, w: World<N, T>, m: nat, q: nat)
    requires Inv(rs, w, m) && q < rs.size
    ensures NodeInv(rs, w, m, q)
    ensures RoundOf(w, q) == m && rs.collectives(m).done(q, w.state.nodes[q]) ==> Closed(rs.collectives(m), rs.size, q, w.state.nodes[q])
  {
    if RoundOf(w, q) == m {
      assert InRound(rs, w, m).nodes[q] == w.state.nodes[q];
      assert CloseBy(rs.collectives(m), rs.size, q, w.state.nodes[q], InRound(rs, w, m));
    }
  }

  lemma WaitingNode<N(!new), T(!new)>(rs: Rounds<N, T>, w: World<N, T>, w': World<N, T>, action: B.Action, m: nat, q: nat)
    requires Inv(rs, w, m) && BarrierStep(rs, w, w', action) && !action.Return? && q < rs.size
    ensures q in w'.cluster.nodes && q in w'.cluster.calls && NodeKept(rs, w, w', m, q)
  {
    WaitingStep(w.cluster, Members(rs.size), action, q);
    DoneIsClosed(rs, w, m, q);
  }

  lemma WaitingInv<N(!new), T(!new)>(rs: Rounds<N, T>, w: World<N, T>, w': World<N, T>, action: B.Action, m: nat)
    requires Inv(rs, w, m) && BarrierStep(rs, w, w', action) && !action.Return?
    ensures Inv(rs, w', m)
  {
    B.StepInv(w.cluster, Members(rs.size), action);
    forall q: nat | q < rs.size ensures q in w'.cluster.nodes && q in w'.cluster.calls && NodeKept(rs, w, w', m, q) {
      WaitingNode(rs, w, w', action, m, q);
    }
    KeptInv(rs, w, w', m);
  }

  lemma AllInBarrier<N(!new), T(!new)>(rs: Rounds<N, T>, w: World<N, T>, p: nat, m: nat, q: nat)
    requires Inv(rs, w, m) && B.Wellformed(w.cluster, Members(rs.size)) && B.Enabled(w.cluster, Members(rs.size), B.Return(p))
    requires RoundOf(w, p) == m && q < rs.size
    ensures RoundOf(w, q) == m && !w.cluster.calls[q].Idle? && rs.collectives(m).done(q, w.state.nodes[q])
  {
    B.ReturnMeansAllEntered(w.cluster, Members(rs.size), p);
    assert NodeInv(rs, w, m, q);
    assert B.CallInv(w.cluster.nodes[q], w.cluster.calls[q]);
  }

  // Everybody is about to begin round m, and nothing is on offer.
  ghost predicate AllFresh<N(!new), T(!new)>(rs: Rounds<N, T>, w: World<N, T>, m: nat, q: nat)
    requires q < rs.size == |w.state.nodes| && q in w.cluster.nodes && q in w.cluster.calls
  {
    NodeInv(rs, w, m, q) && NodeIn(rs, w, m, q) == rs.collectives(m).start(q)
  }

  lemma BeginInv<N(!new), T(!new)>(rs: Rounds<N, T>, w: World<N, T>, m: nat)
    requires B.Inv(w.cluster, Members(rs.size)) && |w.state.nodes| == rs.size && w.state.service == map[]
    requires forall q | 0 <= q < rs.size :: AllFresh(rs, w, m, q)
    ensures Inv(rs, w, m)
  {
    forall q | 0 <= q < rs.size ensures NodeInv(rs, w, m, q) && InRound(rs, w, m).nodes[q] == rs.collectives(m).start(q) {
      assert AllFresh(rs, w, m, q);
    }
    ReachedFirst(rs.collectives(m), rs.size, InRound(rs, w, m));
  }

  // What node p finds when it leaves the barrier, and what stays as it was for the others.
  ghost predicate Returned<N(!new), T(!new)>(rs: Rounds<N, T>, w: World<N, T>, w': World<N, T>, p: nat, q: nat, next: nat)
    requires q < rs.size == |w.state.nodes|
  {
    && q in w.cluster.nodes && q in w.cluster.calls && q in w'.cluster.nodes && q in w'.cluster.calls
    && |w'.state.nodes| == rs.size && w'.state.service == w.state.service
    && if q == p then
         RoundOf(w, q) + 1 == RoundOf(w', q) == next && w'.cluster.calls[q].Idle? && w'.state.nodes[q] == rs.collectives(next).start(q)
       else
         RoundOf(w', q) == RoundOf(w, q) && w'.cluster.calls[q] == w.cluster.calls[q] && w'.state.nodes[q] == w.state.nodes[q]
  }

  lemma ReturnState<N(!new), T(!new)>(rs: Rounds<N, T>, w: World<N, T>, w': World<N, T>, p: nat, next: nat)
    requires BarrierStep(rs, w, w', B.Return(p)) && RoundOf(w, p) + 1 == next
    ensures p < rs.size == |w.state.nodes| && w'.state == w.state.(nodes := w.state.nodes[p := rs.collectives(next).start(p)])
  {
    assert rs.collectives(RoundOf(w, p) + 1) == rs.collectives(next);
  }

  lemma ReturnedIs<N(!new), T(!new)>(rs: Rounds<N, T>, w: World<N, T>, w': World<N, T>, p: nat, q: nat, next: nat)
    requires p < rs.size && q < rs.size == |w.state.nodes|
    requires w'.state == w.state.(nodes := w.state.nodes[p := rs.collectives(next).start(p)])
    requires q in w.cluster.nodes && q in w.cluster.calls && q in w'.cluster.nodes && q in w'.cluster.calls
    requires RoundOf(w', q) == RoundOf(w, q) + (if q == p then 1 else 0) && (q == p ==> RoundOf(w, q) + 1 == next)
    requires if q == p then w'.cluster.calls[q].Idle? else w'.cluster.calls[q] == w.cluster.calls[q]
    ensures Returned(rs, w, w', p, q, next)
  {
  }

  lemma AfterReturn<N(!new), T(!new)>(rs: Rounds<N, T>, w: World<N, T>, w': World<N, T>, p: nat, q: nat, next: nat)
    requires B.Inv(w.cluster, Members(rs.size)) && BarrierStep(rs, w, w', B.Return(p)) && q < rs.size && RoundOf(w, p) + 1 == next
    ensures |w.state.nodes| == rs.size && Returned(rs, w, w', p, q, next)
  {
    ReturnStep(w.cluster, Members(rs.size), p, q);
    ReturnState(rs, w, w', p, next);
    ReturnedIs(rs, w, w', p, q, next);
  }

  lemma FirstNode<N(!new), T(!new)>(rs: Rounds<N, T>, w: World<N, T>, w': World<N, T>, p: nat, m: nat, q: nat, next: nat)
    requires q < rs.size == |w.state.nodes| && next == m + 1 && Returned(rs, w, w', p, q, next)
    requires RoundOf(w, q) == m && NodeInv(rs, w, m, q) && !w.cluster.calls[q].Idle?
    ensures AllFresh(rs, w', next, q)
  {
  }

  // The first to leave the barrier of the newest round: all nodes are in it, so the round is over.
  lemma FirstReturnInv<N(!new), T(!new)>(rs: Rounds<N, T>, w: World<N, T>, w': World<N, T>, p: nat, m: nat, next: nat)
    requires rs.Valid() && Inv(rs, w, m) && BarrierStep(rs, w, w', B.Return(p)) && RoundOf(w, p) == m && next == m + 1
    ensures Inv(rs, w', next)
  {
    B.StepInv(w.cluster, Members(rs.size), B.Return(p));
    RoundIsOver(rs, w, p, m);
    AfterReturn(rs, w, w', p, p, next);
    forall q: nat | q < rs.size ensures q in w'.cluster.nodes && q in w'.cluster.calls && AllFresh(rs, w', next, q) {
      AllInBarrier(rs, w, p, m, q);
      AfterReturn(rs, w, w', p, q, next);
      FirstNode(rs, w, w', p, m, q, next);
    }
    BeginInv(rs, w', next);
  }

  lemma RoundIsOver<N(!new), T(!new)>(rs: Rounds<N, T>, w: World<N, T>, p: nat, m: nat)
    requires rs.Valid() && Inv(rs, w, m) && B.Wellformed(w.cluster, Members(rs.size)) && B.Enabled(w.cluster, Members(rs.size), B.Return(p))
    requires RoundOf(w, p) == m
    ensures w.state.service == map[]
  {
    var s := InRound(rs, w, m);
    forall q | 0 <= q < |s.nodes| ensures rs.collectives(m).done(q, s.nodes[q]) { AllInBarrier(rs, w, p, m, q); }
    assert CleansUp(rs.collectives(m), rs.size);
    assert Reached(rs.collectives(m), rs.size, s) && Over(rs.collectives(m), s);
  }

  lemma LaterNode<N(!new), T(!new)>(rs: Rounds<N, T>, w: World<N, T>, w': World<N, T>, p: nat, m: nat, q: nat)
    requires q < rs.size == |w.state.nodes| && Returned(rs, w, w', p, q, m) && NodeInv(rs, w, m, q)
    ensures NodeKept(rs, w, w', m, q)
  {
  }

  // A later one joins the newest round.
  lemma LaterReturnInv<N(!new), T(!new)>(rs: Rounds<N, T>, w: World<N, T>, w': World<N, T>, p: nat, m: nat)
    requires Inv(rs, w, m) && BarrierStep(rs, w, w', B.Return(p)) && RoundOf(w, p) + 1 == m
    ensures Inv(rs, w', m)
  {
    B.StepInv(w.cluster, Members(rs.size), B.Return(p));
    AfterReturn(rs, w, w', p, p, m);
    forall q: nat | q < rs.size ensures q in w'.cluster.nodes && q in w'.cluster.calls && NodeKept(rs, w, w', m, q) {
      AfterReturn(rs, w, w', p, q, m);
      LaterNode(rs, w, w', p, m, q);
    }
    KeptInv(rs, w, w', m);
  }

  lemma RoundIsNewOrLast<N(!new), T(!new)>(rs: Rounds<N, T>, w: World<N, T>, m: nat, p: nat)
    requires Inv(rs, w, m) && p in Members(rs.size)
    ensures p in w.cluster.nodes && (RoundOf(w, p) == m || RoundOf(w, p) + 1 == m)
  {
    assert NodeInv(rs, w, m, p);
  }

  lemma BarrierInv<N(!new), T(!new)>(rs: Rounds<N, T>, w: World<N, T>, w': World<N, T>, action: B.Action, m: nat) returns (m': nat)
    requires rs.Valid() && Inv(rs, w, m) && BarrierStep(rs, w, w', action)
    ensures Inv(rs, w', m') && m <= m' <= m + 1
  {
    m' := m;
    if action.Return? {
      RoundIsNewOrLast(rs, w, m, action.node);
      if RoundOf(w, action.node) == m {
        FirstReturnInv(rs, w, w', action.node, m, m + 1);
        m' := m + 1;
      } else {
        LaterReturnInv(rs, w, w', action.node, m);
      }
    } else {
      WaitingInv(rs, w, w', action, m);
    }
  }

  lemma StepInv<N(!new), T(!new)>(rs: Rounds<N, T>, w: World<N, T>, w': World<N, T>, m: nat) returns (m': nat)
    requires rs.Valid() && Inv(rs, w, m) && Step(rs, w, w')
    ensures Inv(rs, w', m') && m <= m' <= m + 1
  {
    if p :| WorkStep(rs, w, w', p) {
      WorkInv(rs, w, w', p, m);
      m' := m;
    } else {
      var action :| BarrierStep(rs, w, w', action);
      m' := BarrierInv(rs, w, w', action, m);
    }
  }

  lemma {:induction false} RunInv<N(!new), T(!new)>(rs: Rounds<N, T>, run: seq<World<N, T>>, i: nat) returns (m: nat)
    requires rs.Valid() && IsWorldRun(rs, run) && i < |run|
    ensures Inv(rs, run[i], m)
  {
    if i == 0 {
      StartInv(rs, run[0]);
      m := 0;
    } else {
      var before := RunInv(rs, run, i - 1);
      assert Step(rs, run[i - 1], run[i]);
      m := StepInv(rs, run[i - 1], run[i], before);
    }
  }

  // ---- what holds in every run of rounds ---------------------------------------------------------

  // However the collectives follow one another, a node that works, and the services it downloads from,
  // are as in a run of its own collective alone that began with nothing on offer. So no transfer of an
  // earlier or a later collective is ever on offer to it, whatever their numbers.
  lemma RoundsDoNotMix<N(!new), T(!new)>(rs: Rounds<N, T>, run: seq<World<N, T>>, i: nat, w': World<N, T>, p: nat)
    requires rs.Valid() && IsWorldRun(rs, run) && i < |run| && WorkStep(rs, run[i], w', p)
    ensures p < rs.size == |run[i].state.nodes| == |w'.state.nodes|
    ensures exists alone, alone' :: AloneStep(rs.collectives(RoundOf(run[i], p)), rs.size, alone, alone', p, run[i].state, w'.state)
  {
    var m := RunInv(rs, run, i);
    WorkProjected(rs, run[i], w', p, m);
    var alone, alone' := InRound(rs, run[i], m), InRound(rs, w', m);
    ReachedNext(rs.collectives(m), rs.size, alone, alone', p);
    assert AloneStep(rs.collectives(RoundOf(run[i], p)), rs.size, alone, alone', p, run[i].state, w'.state);
  }

  // p's step as a step of collective c alone.
  ghost predicate AloneStep<N(!new), T(!new)>(c: Collective<N, T>, size: nat, alone: State<N, T>, alone': State<N, T>, p: nat, s: State<N, T>, s': State<N, T>)
    requires p < |s.nodes| == |s'.nodes|
  {
    && Reached(c, size, alone) && Reached(c, size, alone') && Moves(c, alone, alone', p)
    && alone.nodes[p] == s.nodes[p] && alone.service == s.service && alone'.nodes[p] == s'.nodes[p] && alone'.service == s'.service
  }

  // Whoever is in a barrier is done with its round's collective, in a state that a run of this collective
  // alone leads to.
  lemma BarriersCloseRounds<N(!new), T(!new)>(rs: Rounds<N, T>, run: seq<World<N, T>>, i: nat, p: nat)
    requires rs.Valid() && IsWorldRun(rs, run) && i < |run| && p < rs.size
    ensures p in run[i].cluster.nodes && p in run[i].cluster.calls && |run[i].state.nodes| == rs.size
    ensures !run[i].cluster.calls[p].Idle? ==> Closed(rs.collectives(RoundOf(run[i], p)), rs.size, p, run[i].state.nodes[p])
  {
    var m := RunInv(rs, run, i);
    assert NodeInv(rs, run[i], m, p);
  }

  // ---- runs go on --------------------------------------------------------------------------------

  lemma OneMoreStep<N(!new), T(!new)>(rs: Rounds<N, T>, run: seq<World<N, T>>, w': World<N, T>)
    requires IsWorldRun(rs, run) && Step(rs, run[|run| - 1], w')
    ensures IsWorldRun(rs, run + [w'])
  {
  }

  // Whatever a node could do in its collective alone it can do here, while it is not in a barrier.
  lemma WorkGoesOn<N(!new), T(!new)>(rs: Rounds<N, T>, run: seq<World<N, T>>, p: nat, s': State<N, T>)
    requires rs.Valid() && IsWorldRun(rs, run) && p < rs.size
    requires p in run[|run| - 1].cluster.nodes && p in run[|run| - 1].cluster.calls && run[|run| - 1].cluster.calls[p].Idle?
    requires Moves(rs.collectives(RoundOf(run[|run| - 1], p)), run[|run| - 1].state, s', p)
    ensures IsWorldRun(rs, run + [World(s', run[|run| - 1].cluster)])
  {
    assert WorkStep(rs, run[|run| - 1], World(s', run[|run| - 1].cluster), p);
    OneMoreStep(rs, run, World(s', run[|run| - 1].cluster));
  }

  // A node that is done can enter the barrier, and whatever the barrier can do it does.
  lemma BarrierGoesOn<N(!new), T(!new)>(rs: Rounds<N, T>, run: seq<World<N, T>>, action: B.Action) returns (w': World<N, T>)
    requires rs.Valid() && IsWorldRun(rs, run)
    requires B.Wellformed(run[|run| - 1].cluster, Members(rs.size)) && B.Enabled(run[|run| - 1].cluster, Members(rs.size), action)
    requires |run[|run| - 1].state.nodes| == rs.size
    requires action.Enter? ==> rs.collectives(RoundOf(run[|run| - 1], action.node)).done(action.node, run[|run| - 1].state.nodes[action.node])
    ensures w'.cluster == B.Next(run[|run| - 1].cluster, Members(rs.size), action) && IsWorldRun(rs, run + [w'])
  {
    var w := run[|run| - 1];
    var state := match action
      case Return(p) => w.state.(nodes := w.state.nodes[p := rs.collectives(RoundOf(w, p) + 1).start(p)])
      case _ => w.state;
    w' := World(state, B.Next(w.cluster, Members(rs.size), action));
    assert BarrierStep(rs, w, w', action);
    OneMoreStep(rs, run, w');
  }
}
