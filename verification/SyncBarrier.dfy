// src/global/node/sync.rs: the generation-tagged barrier between nodes.
//
// Every node counts its calls (generation) and its finished calls (completed), and keeps, per
// generation still of interest, the nodes it has heard from. Messages may be late, lost or repeated.
module SyncBarrier {
  type NodeId = nat

  datatype Local = Local(generation: nat, completed: nat, rounds: map<nat, set<NodeId>>)

  const INITIAL := Local(0, 0, map[])

  function HeardFrom(rounds: map<nat, set<NodeId>>, generation: nat): set<NodeId> {
    if generation in rounds then rounds[generation] else {}
  }

  // A message about a finished generation is ignored; one about a later generation is kept for then.
  function AddPeer(local: Local, peer: NodeId, generation: nat): Local {
    if generation < local.completed then local
    else local.(rounds := local.rounds[generation := HeardFrom(local.rounds, generation) + {peer}])
  }

  predicate AllHeard(local: Local, generation: nat, members: set<NodeId>) {
    generation in local.rounds && |local.rounds[generation]| == |members| && members <= local.rounds[generation]
  }

  function Complete(local: Local, generation: nat): Local {
    local.(rounds := local.rounds - {generation}, completed := generation + 1)
  }

  // ---- the service object ------------------------------------------------------------------------

  class SyncService {
    const members: set<NodeId>
    const self: NodeId
    var rounds: map<nat, set<NodeId>>
    var generation: nat
    var completed: nat

    ghost function Snapshot(): Local
      reads this
    {
      Local(generation, completed, rounds)
    }

    constructor (members: set<NodeId>, self: NodeId)
      ensures Snapshot() == INITIAL && this.members == members && this.self == self
    {
      this.members, this.self := members, self;
      rounds, generation, completed := map[], 0, 0;
    }

    method AddSyncingPeer(peer: NodeId, generation: nat)
      modifies this`rounds
      ensures Snapshot() == AddPeer(old(Snapshot()), peer, generation)
    {
      if generation < completed { return; }
      if generation !in rounds { rounds := rounds[generation := {}]; }
      rounds := rounds[generation := rounds[generation] + {peer}];
    }

    // The first part of a call: take the next generation and report to oneself.
    method Enter() returns (mine: nat)
      modifies this
      ensures mine == old(generation)
      ensures Snapshot() == AddPeer(old(Snapshot()).(generation := mine + 1), self, mine)
    {
      mine := generation;
      generation := generation + 1;
      AddSyncingPeer(self, mine);
    }

    method HandleSyncConnection(node: NodeId, generation: nat)
      modifies this`rounds
      ensures Snapshot() == if node in members then AddPeer(old(Snapshot()), node, generation) else old(Snapshot())
    {
      if node !in members { return; }
      AddSyncingPeer(node, generation);
    }

    // The waiting loop's test, taken under the lock.
    method TryReturn(mine: nat) returns (done: bool)
      modifies this`rounds, this`completed
      ensures done == AllHeard(old(Snapshot()), mine, members)
      ensures Snapshot() == if done then Complete(old(Snapshot()), mine) else old(Snapshot())
    {
      done := mine in rounds && |rounds[mine]| == |members| && forall n | n in members :: n in rounds[mine];
      if done {
        rounds := rounds - {mine};
        completed := mine + 1;
      }
    }
  }

  // ---- all nodes together ------------------------------------------------------------------------

  // What a node's current call is doing; a call that cannot reach a peer stops for good.
  datatype Call = Idle | Entered | Sending(left: set<NodeId>) | Crashed

  datatype Message = Message(from: NodeId, to: NodeId, generation: nat)

  datatype Cluster = Cluster(nodes: map<NodeId, Local>, calls: map<NodeId, Call>, sent: set<Message>, heard: set<Message>)

  datatype Action =
    | Enter(node: NodeId)
    | ReportToSelf(node: NodeId)
    | Send(node: NodeId, to: NodeId)
    | Crash(node: NodeId)
    | Receive(message: Message)
    | Return(node: NodeId)

  ghost predicate Wellformed(c: Cluster, members: set<NodeId>) {
    c.nodes.Keys == members && c.calls.Keys == members && forall n | n in members && !c.calls[n].Idle? :: c.nodes[n].generation > 0
  }

  // The generation a node's current call is waiting for.
  ghost function Current(c: Cluster, n: NodeId): nat
    requires n in c.nodes && c.nodes[n].generation > 0
  {
    c.nodes[n].generation - 1
  }

  // A message can be received any number of times once sent; a message that does not come from a
  // member can be received at any time.
  ghost predicate Enabled(c: Cluster, members: set<NodeId>, action: Action)
    requires Wellformed(c, members)
  {
    match action
    case Enter(n) => n in members && c.calls[n].Idle?
    case ReportToSelf(n) => n in members && c.calls[n].Entered?
    case Send(n, to) => n in members && c.calls[n].Sending? && to in c.calls[n].left
    case Crash(n) => n in members && c.calls[n].Sending?
    case Receive(m) => m.to in members && (m.from in members ==> m in c.sent)
    case Return(n) => n in members && c.calls[n] == Sending({}) && AllHeard(c.nodes[n], Current(c, n), members)
  }

  ghost function Next(c: Cluster, members: set<NodeId>, action: Action): Cluster
    requires Wellformed(c, members) && Enabled(c, members, action)
  {
    match action
    case Enter(n) => c.(nodes := c.nodes[n := c.nodes[n].(generation := c.nodes[n].generation + 1)], calls := c.calls[n := Entered])
    case ReportToSelf(n) =>
      c.(nodes := c.nodes[n := AddPeer(c.nodes[n], n, Current(c, n))], calls := c.calls[n := Sending(members - {n})],
         heard := c.heard + {Message(n, n, Current(c, n))})
    case Send(n, to) =>
      c.(calls := c.calls[n := Sending(c.calls[n].left - {to})], sent := c.sent + {Message(n, to, Current(c, n))})
    case Crash(n) => c.(calls := c.calls[n := Crashed])
    case Receive(m) =>
      if m.from in members then
        c.(nodes := c.nodes[m.to := AddPeer(c.nodes[m.to], m.from, m.generation)], heard := c.heard + {m})
      else c
    case Return(n) => c.(nodes := c.nodes[n := Complete(c.nodes[n], Current(c, n))], calls := c.calls[n := Idle])
  }

  ghost function Start(members: set<NodeId>): Cluster {
    Cluster(map n | n in members :: INITIAL, map n | n in members :: Idle, {}, {})
  }

  // ---- the invariant -----------------------------------------------------------------------------

  // A call is under way exactly when one more generation was started than completed.
  ghost predicate CallInv(local: Local, call: Call) {
    local.generation == local.completed + (if call.Idle? then 0 else 1)
  }

  // For generations not yet completed, rounds holds exactly the members heard from.
  ghost predicate RoundsInv(local: Local, n: NodeId, members: set<NodeId>, heard: set<Message>) {
    && (forall g | g in local.rounds :: local.completed <= g && local.rounds[g] != {} && local.rounds[g] <= members)
    && (forall p, g: nat | p in members && local.completed <= g :: Message(p, n, g) in heard <==> p in HeardFrom(local.rounds, g))
  }

  // Nothing is said or heard about a generation its sender has not entered.
  ghost predicate MessagesInv(c: Cluster, members: set<NodeId>)
    requires c.nodes.Keys == members
  {
    forall m | m in c.sent + c.heard :: m.from in members && m.generation < c.nodes[m.from].generation
  }

  // Nobody completed a generation that somebody has not entered.
  ghost predicate Together(c: Cluster, members: set<NodeId>)
    requires c.nodes.Keys == members
  {
    forall n, p | n in members && p in members :: c.nodes[n].completed <= c.nodes[p].generation
  }

  ghost predicate Inv(c: Cluster, members: set<NodeId>) {
    && c.nodes.Keys == members && c.calls.Keys == members
    && (forall n | n in members :: CallInv(c.nodes[n], c.calls[n]))
    && (forall n | n in members :: RoundsInv(c.nodes[n], n, members, c.heard))
    && MessagesInv(c, members)
    && Together(c, members)
  }

  lemma InvIsWellformed(c: Cluster, members: set<NodeId>)
    requires Inv(c, members)
    ensures Wellformed(c, members)
  {
    forall n | n in members && !c.calls[n].Idle? ensures c.nodes[n].generation > 0 {
      assert CallInv(c.nodes[n], c.calls[n]);
    }
  }

  lemma AddPeerKeepsRounds(local: Local, n: NodeId, members: set<NodeId>, heard: set<Message>, from: NodeId, generation: nat)
    requires RoundsInv(local, n, members, heard) && from in members
    ensures RoundsInv(AddPeer(local, from, generation), n, members, heard + {Message(from, n, generation)})
  {
  }

  lemma OtherMessageKeepsRounds(local: Local, n: NodeId, members: set<NodeId>, heard: set<Message>, m: Message)
    requires RoundsInv(local, n, members, heard) && m.to != n
    ensures RoundsInv(local, n, members, heard + {m})
  {
  }

  lemma CompleteKeepsRounds(local: Local, n: NodeId, members: set<NodeId>, heard: set<Message>)
    requires RoundsInv(local, n, members, heard)
    ensures RoundsInv(Complete(local, local.completed), n, members, heard)
  {
    var after := Complete(local, local.completed);
    forall p, g: nat | p in members && after.completed <= g ensures Message(p, n, g) in heard <==> p in HeardFrom(after.rounds, g) {
      assert HeardFrom(after.rounds, g) == HeardFrom(local.rounds, g);
    }
  }

  // Hearing a message updates one node and leaves the others as they were.
  lemma HearKeepsRounds(c: Cluster, members: set<NodeId>, m: Message)
    requires Inv(c, members) && m.to in members && m.from in members
    ensures var nodes := c.nodes[m.to := AddPeer(c.nodes[m.to], m.from, m.generation)];
      forall n | n in members :: RoundsInv(nodes[n], n, members, c.heard + {m})
  {
    forall n | n in members
      ensures RoundsInv(c.nodes[m.to := AddPeer(c.nodes[m.to], m.from, m.generation)][n], n, members, c.heard + {m})
    {
      if n == m.to { AddPeerKeepsRounds(c.nodes[n], n, members, c.heard, m.from, m.generation); }
      else { OtherMessageKeepsRounds(c.nodes[n], n, members, c.heard, m); }
    }
  }

  // The barrier itself: whoever may return from a generation knows that every member entered it.
  lemma ReturnMeansAllEntered(c: Cluster, members: set<NodeId>, n: NodeId)
    requires Inv(c, members) && Wellformed(c, members) && Enabled(c, members, Return(n))
    ensures forall p | p in members :: Current(c, n) < c.nodes[p].generation
    ensures Current(c, n) == c.nodes[n].completed
  {
    assert CallInv(c.nodes[n], c.calls[n]) && RoundsInv(c.nodes[n], n, members, c.heard);
    forall p | p in members ensures Current(c, n) < c.nodes[p].generation {
      assert p in HeardFrom(c.nodes[n].rounds, Current(c, n));
      assert Message(p, n, Current(c, n)) in c.heard;
    }
  }

  lemma EnterInv(c: Cluster, members: set<NodeId>, n: NodeId)
    requires Inv(c, members) && Wellformed(c, members) && Enabled(c, members, Enter(n))
    ensures Inv(Next(c, members, Enter(n)), members)
  {
    var next := Next(c, members, Enter(n));
    forall p | p in members ensures RoundsInv(next.nodes[p], p, members, next.heard) {
      assert RoundsInv(c.nodes[p], p, members, c.heard);
    }
  }

  // Hearing changes no counter, so only the rounds and the messages need a look.
  lemma HearKeepsCounters(c: Cluster, members: set<NodeId>, m: Message)
    requires Inv(c, members) && m.to in members && m.from in members && m.generation < c.nodes[m.from].generation
    ensures var next := c.(nodes := c.nodes[m.to := AddPeer(c.nodes[m.to], m.from, m.generation)], heard := c.heard + {m});
      && next.nodes.Keys == members && MessagesInv(next, members) && Together(next, members)
      && forall n | n in members :: CallInv(next.nodes[n], next.calls[n])
  {
  }

  lemma ReportInv(c: Cluster, members: set<NodeId>, n: NodeId)
    requires Inv(c, members) && Wellformed(c, members) && Enabled(c, members, ReportToSelf(n))
    ensures Inv(Next(c, members, ReportToSelf(n)), members)
  {
    var m := Message(n, n, Current(c, n));
    var heard := c.(nodes := c.nodes[n := AddPeer(c.nodes[n], n, m.generation)], heard := c.heard + {m});
    HearKeepsRounds(c, members, m);
    HearKeepsCounters(c, members, m);
    ChangeCall(heard, members, n, Sending(members - {n}));
  }

  lemma ChangeCall(c: Cluster, members: set<NodeId>, n: NodeId, call: Call)
    requires Inv(c, members) && n in members && !c.calls[n].Idle? && !call.Idle?
    ensures Inv(c.(calls := c.calls[n := call]), members)
  {
  }

  lemma SendInv(c: Cluster, members: set<NodeId>, n: NodeId, to: NodeId)
    requires Inv(c, members) && Wellformed(c, members) && Enabled(c, members, Send(n, to))
    ensures Inv(Next(c, members, Send(n, to)), members)
  {
  }

  lemma ReceiveInv(c: Cluster, members: set<NodeId>, m: Message)
    requires Inv(c, members) && Wellformed(c, members) && Enabled(c, members, Receive(m))
    ensures Inv(Next(c, members, Receive(m)), members)
  {
    if m.from in members {
      HearKeepsRounds(c, members, m);
      HearKeepsCounters(c, members, m);
    }
  }

  lemma ReturnInv(c: Cluster, members: set<NodeId>, n: NodeId)
    requires Inv(c, members) && Wellformed(c, members) && Enabled(c, members, Return(n))
    ensures Inv(Next(c, members, Return(n)), members)
  {
    ReturnMeansAllEntered(c, members, n);
    CompleteKeepsRounds(c.nodes[n], n, members, c.heard);
    CompleteInv(c, members, n);
  }

  lemma CompleteInv(c: Cluster, members: set<NodeId>, n: NodeId)
    requires Inv(c, members) && n in members && c.calls[n] == Sending({})
    requires forall p | p in members :: c.nodes[n].completed < c.nodes[p].generation
    requires RoundsInv(Complete(c.nodes[n], c.nodes[n].completed), n, members, c.heard)
    ensures Inv(c.(nodes := c.nodes[n := Complete(c.nodes[n], c.nodes[n].completed)], calls := c.calls[n := Idle]), members)
  {
    assert CallInv(c.nodes[n], c.calls[n]);
  }

  lemma StepInv(c: Cluster, members: set<NodeId>, action: Action)
    requires Inv(c, members) && Wellformed(c, members) && Enabled(c, members, action)
    ensures Inv(Next(c, members, action), members)
  {
    match action
    case Enter(n) => EnterInv(c, members, n);
    case ReportToSelf(n) => ReportInv(c, members, n);
    case Send(n, to) => SendInv(c, members, n, to);
    case Crash(n) =>
    case Receive(m) => ReceiveInv(c, members, m);
    case Return(n) => ReturnInv(c, members, n);
  }

  // ---- every run ---------------------------------------------------------------------------------

  ghost predicate Step(c: Cluster, members: set<NodeId>, next: Cluster) {
    Wellformed(c, members) && exists action :: Enabled(c, members, action) && next == Next(c, members, action)
  }

  ghost predicate IsRun(run: seq<Cluster>, members: set<NodeId>) {
    && run != [] && run[0] == Start(members)
    && forall i | 0 <= i < |run| - 1 :: Step(run[i], members, run[i + 1])
  }

  lemma {:induction false} RunInv(run: seq<Cluster>, members: set<NodeId>)
    requires IsRun(run, members)
    ensures Inv(run[|run| - 1], members)
  {
    if |run| == 1 {
    } else {
      var front := run[..|run| - 1];
      var before := front[|front| - 1];
      RunInv(front, members);
      assert Step(run[|run| - 2], members, run[|run| - 1]);
      var action :| Enabled(before, members, action) && run[|run| - 1] == Next(before, members, action);
      StepInv(before, members, action);
    }
  }

  // In every state of every run: whoever finished generation g did so after everyone entered it; any
  // two nodes are at most one generation apart; and only two generations are ever remembered.
  lemma BarrierIsSafe(run: seq<Cluster>, members: set<NodeId>, n: NodeId, p: NodeId, g: nat)
    requires IsRun(run, members) && n in members && p in members
    ensures var now := run[|run| - 1].nodes;
      && members == now.Keys
      && (g < now[n].completed ==> g < now[p].generation)
      && now[n].generation <= now[p].generation + 1
      && (g in now[n].rounds ==> g == now[n].completed || g == now[n].completed + 1)
  {
    RunInv(run, members);
    var c := run[|run| - 1];
    assert CallInv(c.nodes[n], c.calls[n]);
    if g in c.nodes[n].rounds { RememberedSoon(c, members, n, g); }
  }

  lemma RememberedSoon(c: Cluster, members: set<NodeId>, n: NodeId, g: nat)
    requires Inv(c, members) && n in members && g in c.nodes[n].rounds
    ensures c.nodes[n].completed <= g <= c.nodes[n].completed + 1
  {
    assert RoundsInv(c.nodes[n], n, members, c.heard);
    var q :| q in c.nodes[n].rounds[g];
    assert q in HeardFrom(c.nodes[n].rounds, g);
    assert Message(q, n, g) in c.heard;
    assert CallInv(c.nodes[q], c.calls[q]) && CallInv(c.nodes[n], c.calls[n]);
  }

  lemma SameMembers(heard: set<NodeId>, members: set<NodeId>)
    requires heard <= members && forall p | p in members :: p in heard
    ensures heard == members
  {
  }

  // Nothing heard early is lost: a node that has sent its own messages may return exactly when it has
  // heard, at any time, from every member about its current generation.
  lemma ReturnsExactlyWhenAllHeard(run: seq<Cluster>, members: set<NodeId>, n: NodeId)
    requires IsRun(run, members) && n in members && run[|run| - 1].calls.Keys == members
    requires run[|run| - 1].calls[n] == Sending({})
    ensures Wellformed(run[|run| - 1], members)
    ensures Enabled(run[|run| - 1], members, Return(n)) <==>
      forall p | p in members :: Message(p, n, Current(run[|run| - 1], n)) in run[|run| - 1].heard
  {
    RunInv(run, members);
    var c := run[|run| - 1];
    InvIsWellformed(c, members);
    assert CallInv(c.nodes[n], c.calls[n]) && RoundsInv(c.nodes[n], n, members, c.heard);
    var heard := HeardFrom(c.nodes[n].rounds, Current(c, n));
    if Enabled(c, members, Return(n)) {
      assert forall p | p in members :: p in heard;
    }
    if forall p | p in members :: Message(p, n, Current(c, n)) in c.heard {
      assert n in heard;
      forall p | p in members ensures p in heard { assert Message(p, n, Current(c, n)) in c.heard; }
      SameMembers(heard, members);
    }
  }
}
