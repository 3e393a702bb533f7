// src/global/orchestrator/state.rs: membership, collective rounds and failure epochs.
module Orchestrator {
  import opened Wrappers
  import opened Numbers
  import opened Agreement

  type SessionId = nat
  type RequestId = nat
  type Address = nat

  datatype Request = Register(address: Address, numNodes: nat, peers: seq<PeerId>) | Begin(spec: CollectiveSpec) | Finish

  datatype Response =
    | RegisterAck(nodeId: NodeId, nodes: map<NodeId, Address>, numGlobalDevices: nat)
    | BeginAck(rootNode: NodeId, transferId: nat)
    | FinishAck
    | Error(error: GlobalError)

  datatype Reply = Reply(session: SessionId, request: RequestId, content: Response)

  datatype RegisterRequest = RegisterRequest(session: SessionId, request: RequestId, node: NodeId)

  datatype PendingCollective = PendingCollective(session: SessionId, request: RequestId, spec: CollectiveSpec)

  // Everything but the response channels.
  datatype Group = Group(
    registered: map<SessionId, NodeId>, addresses: map<NodeId, Address>, peers: Peers,
    numNodes: Option<nat>, numGlobalPeers: nat,
    registering: seq<RegisterRequest>, pending: seq<PendingCollective>,
    nextTransferId: nat, nextNodeId: nat, failed: Option<GlobalError>)

  const INITIAL := Group(map[], map[], map[], None, 0, [], [], 2, 0, None)

  // ---- counting peers ----------------------------------------------------------------------------

  ghost function PeerCount(peers: Peers): nat
    decreases |peers|
  {
    if peers == map[] then 0
    else
      var n :| n in peers;
      assert |(peers - {n}).Keys| < |peers.Keys| by { assert peers.Keys == (peers - {n}).Keys + {n}; }
      |peers[n]| + PeerCount(peers - {n})
  }

  lemma {:induction false} PeerCountRemove(peers: Peers, n: NodeId)
    requires n in peers
    ensures PeerCount(peers) == |peers[n]| + PeerCount(peers - {n})
    decreases |peers|
  {
    var m :| m in peers && PeerCount(peers) == |peers[m]| + PeerCount(peers - {m});
    if m != n {
      assert |(peers - {m}).Keys| < |peers.Keys| by { assert peers.Keys == (peers - {m}).Keys + {m}; }
      assert |(peers - {n}).Keys| < |peers.Keys| by { assert peers.Keys == (peers - {n}).Keys + {n}; }
      PeerCountRemove(peers - {m}, n);
      PeerCountRemove(peers - {n}, m);
      assert peers - {m} - {n} == peers - {n} - {m};
    }
  }

  lemma PeerCountInsert(peers: Peers, n: NodeId, added: seq<PeerId>)
    requires n !in peers
    ensures PeerCount(peers[n := added]) == PeerCount(peers) + |added|
  {
    PeerCountRemove(peers[n := added], n);
    assert peers[n := added] - {n} == peers;
  }

  // ---- what each request does --------------------------------------------------------------------

  function ErrorsToRegistering(waiting: seq<RegisterRequest>, error: GlobalError): (replies: seq<Reply>)
    ensures |replies| == |waiting|
  {
    seq(|waiting|, i requires 0 <= i < |waiting| => Reply(waiting[i].session, waiting[i].request, Error(error)))
  }

  function AnswersToPending(waiting: seq<PendingCollective>, content: Response): (replies: seq<Reply>)
    ensures |replies| == |waiting|
  {
    seq(|waiting|, i requires 0 <= i < |waiting| => Reply(waiting[i].session, waiting[i].request, content))
  }

  function Acknowledge(waiting: seq<RegisterRequest>, addresses: map<NodeId, Address>, devices: nat): (replies: seq<Reply>)
    ensures |replies| == |waiting|
  {
    seq(|waiting|, i requires 0 <= i < |waiting| =>
      Reply(waiting[i].session, waiting[i].request, RegisterAck(waiting[i].node, addresses, devices)))
  }

  predicate Taken(peers: Peers, p: PeerId) { exists n | n in peers :: p in peers[n] }

  // The first peer of the list that came earlier in it or already belongs to a node.
  function DuplicateFrom(list: seq<PeerId>, peers: Peers, i: nat): Option<PeerId>
    requires i <= |list|
    decreases |list| - i
  {
    if i == |list| then None
    else if list[i] in list[..i] || Taken(peers, list[i]) then Some(list[i])
    else DuplicateFrom(list, peers, i + 1)
  }

  function CheckRegister(g: Group, session: SessionId, address: Address, numNodes: nat, peers: seq<PeerId>): Result<(), GlobalError> {
    if numNodes == 0 || peers == [] then Err(RegisterParamsMismatch)
    else if session in g.registered || address in g.addresses.Values then Err(DoubleRegister)
    else if g.registered != map[] && g.registering == [] then Err(RegisterParamsMismatch)
    else if DuplicateFrom(peers, g.peers, 0).Some? then Err(DuplicatePeer(DuplicateFrom(peers, g.peers, 0).value))
    else if g.numNodes.Some? && g.numNodes.value != numNodes then Err(RegisterParamsMismatch)
    else Ok(())
  }

  function Admit(g: Group, session: SessionId, request: RequestId, address: Address, numNodes: nat, peers: seq<PeerId>): Group {
    var node := g.nextNodeId;
    g.(registered := g.registered[session := node], addresses := g.addresses[node := address], peers := g.peers[node := peers],
       numNodes := Some(numNodes), numGlobalPeers := g.numGlobalPeers + |peers|, nextNodeId := node + 1,
       registering := g.registering + [RegisterRequest(session, request, node)])
  }

  // Once the announced number of nodes is there, everyone waiting hears the whole membership.
  function CompleteRegistration(g: Group): (Group, seq<Reply>) {
    if g.numNodes == Some(|g.registered|) then
      (g.(registering := []), Acknowledge(g.registering, g.addresses, g.numGlobalPeers))
    else (g, [])
  }

  function DoRegister(g: Group, session: SessionId, request: RequestId, address: Address, numNodes: nat, peers: seq<PeerId>): (Group, seq<Reply>) {
    match CheckRegister(g, session, address, numNodes, peers)
    case Err(e) => (g, [Reply(session, request, Error(e))])
    case Ok(_) => CompleteRegistration(Admit(g, session, request, address, numNodes, peers))
  }

  predicate HasPending(pending: seq<PendingCollective>, session: SessionId) {
    exists i | 0 <= i < |pending| :: pending[i].session == session
  }

  function CheckBegin(g: Group, session: SessionId): Result<(), GlobalError> {
    if session !in g.registered || g.registering != [] || |g.registered| != (if g.numNodes.Some? then g.numNodes.value else 0) then
      Err(CollectiveBeforeRegister)
    else if HasPending(g.pending, session) then Err(CollectiveParamsMismatch)
    else Ok(())
  }

  // Each submission with its node, in arrival order.
  function SpecsOf(registered: map<SessionId, NodeId>, pending: seq<PendingCollective>): (specs: seq<(NodeId, CollectiveSpec)>)
    requires forall i | 0 <= i < |pending| :: pending[i].session in registered
    ensures |specs| == |pending|
  {
    seq(|pending|, i requires 0 <= i < |pending| => (registered[pending[i].session], pending[i].spec))
  }

  ghost predicate PendingRegistered(g: Group) {
    forall i | 0 <= i < |g.pending| :: g.pending[i].session in g.registered
  }

  // The round's common answer, and the group afterwards.
  ghost function FinishRound(g: Group): (Group, Response)
    requires PendingRegistered(g)
  {
    match Agree(SpecsOf(g.registered, g.pending), g.peers)
    case Ok(root) => (g.(pending := [], nextTransferId := g.nextTransferId + 1), BeginAck(root, g.nextTransferId))
    case Err(e) => (g.(pending := []), Error(e))
  }

  ghost function DoBegin(g: Group, session: SessionId, request: RequestId, spec: CollectiveSpec): (Group, seq<Reply>)
    requires PendingRegistered(g)
  {
    match CheckBegin(g, session)
    case Err(e) => (g, [Reply(session, request, Error(e))])
    case Ok(_) =>
      var next := g.(pending := g.pending + [PendingCollective(session, request, spec)]);
      if |next.pending| != |next.registered| then (next, [])
      else (FinishRound(next).0, AnswersToPending(next.pending, FinishRound(next).1))
  }

  // Drop a member: the rest of the group fails, or a group without members starts afresh.
  ghost function Expel(g: Group, session: SessionId): Group
    requires session in g.registered
  {
    var node := g.registered[session];
    var left := g.(registered := g.registered - {session}, addresses := g.addresses - {node}, peers := g.peers - {node},
                   numGlobalPeers := PeerCount(g.peers - {node}), registering := [], pending := [], failed := Some(PeerLost(node)));
    ResetIfEmpty(left)
  }

  function ResetIfEmpty(g: Group): Group {
    if g.registered == map[] then g.(numNodes := None, nextNodeId := 0, failed := None) else g
  }

  function LossReplies(g: Group, node: NodeId): seq<Reply> {
    AnswersToPending(g.pending, Error(PeerLost(node))) + ErrorsToRegistering(g.registering, PeerLost(node))
  }

  ghost function DoFinish(g: Group, session: SessionId, request: RequestId): (Group, seq<Reply>) {
    if session !in g.registered then (g, [Reply(session, request, Error(NotRegisteredOnFinish))])
    else (Expel(g, session), LossReplies(g, g.registered[session]) + [Reply(session, request, FinishAck)])
  }

  ghost function DoDisconnect(g: Group, session: SessionId): (Group, seq<Reply>) {
    if session !in g.registered then (ResetIfEmpty(g), [])
    else (Expel(g, session), LossReplies(g, g.registered[session]))
  }

  ghost function Process(g: Group, session: SessionId, request: RequestId, body: Request): (Group, seq<Reply>)
    requires PendingRegistered(g)
  {
    if g.failed.Some? && !body.Finish? then (g, [Reply(session, request, Error(g.failed.value))])
    else
      match body
      case Register(address, numNodes, peers) => DoRegister(g, session, request, address, numNodes, peers)
      case Begin(spec) => DoBegin(g, session, request, spec)
      case Finish => DoFinish(g, session, request)
  }

  // ---- the invariant -----------------------------------------------------------------------------

  ghost predicate IsMember(registered: map<SessionId, NodeId>, n: NodeId) {
    exists s :: s in registered && registered[s] == n
  }

  // The three membership maps describe the same nodes, one per session.
  ghost predicate MembersAgree(g: Group) {
    && g.addresses.Keys == g.peers.Keys
    && (forall n :: n in g.peers <==> IsMember(g.registered, n))
    && (forall s, t | s in g.registered && t in g.registered && g.registered[s] == g.registered[t] :: s == t)
    && (forall s | s in g.registered :: g.registered[s] < g.nextNodeId)
  }

  ghost predicate NoneTwice(list: seq<PeerId>) {
    forall i, j | 0 <= i < j < |list| :: list[i] != list[j]
  }

  ghost predicate Distinct(g: Group) {
    && (forall n, m | n in g.addresses && m in g.addresses && g.addresses[n] == g.addresses[m] :: n == m)
    && PeersUnique(g.peers)
    && (forall n | n in g.peers :: NoneTwice(g.peers[n]))
    && g.numGlobalPeers == PeerCount(g.peers)
  }

  // Nobody, forming, formed or failed; what may wait in each phase.
  ghost predicate PhaseInv(g: Group) {
    && (g.registered == map[] ==> g.numNodes.None? && g.nextNodeId == 0 && g.failed.None? && g.registering == [] && g.pending == [])
    && (g.registered != map[] ==> g.numNodes.Some? && g.numNodes.value > 0)
    && (g.failed.Some? ==> g.registering == [] && g.pending == [])
    && (g.registering != [] ==> |g.registering| == |g.registered| < g.numNodes.value && g.pending == [])
    && (g.registered != map[] && g.failed.None? && g.registering == [] ==> |g.registered| == g.numNodes.value)
    && (g.pending != [] ==> |g.pending| < |g.registered|)
    && g.nextTransferId >= 2
  }

  ghost predicate WaitersRegistered(g: Group) {
    && (forall i | 0 <= i < |g.registering| ::
         g.registering[i].session in g.registered && g.registered[g.registering[i].session] == g.registering[i].node)
    && (forall i, j | 0 <= i < j < |g.registering| :: g.registering[i].session != g.registering[j].session)
    && PendingRegistered(g)
    && (forall i, j | 0 <= i < j < |g.pending| :: g.pending[i].session != g.pending[j].session)
  }

  ghost predicate Inv(g: Group) {
    MembersAgree(g) && Distinct(g) && PhaseInv(g) && WaitersRegistered(g)
  }

  lemma {:induction false} NoDuplicate(list: seq<PeerId>, peers: Peers, i: nat)
    requires i <= |list| && DuplicateFrom(list, peers, i).None?
    ensures forall k | i <= k < |list| :: list[k] !in list[..k] && !Taken(peers, list[k])
    decreases |list| - i
  {
    if i < |list| { NoDuplicate(list, peers, i + 1); }
  }

  lemma FreshPeersStayUnique(peers: Peers, node: NodeId, added: seq<PeerId>)
    requires PeersUnique(peers) && node !in peers && forall k | 0 <= k < |added| :: !Taken(peers, added[k])
    ensures PeersUnique(peers[node := added])
  {
    forall n, p | n in peers && p in peers[n] ensures p !in added {
      assert Taken(peers, p);
    }
  }

  lemma FreshAddressStaysUnique(addresses: map<NodeId, Address>, node: NodeId, address: Address)
    requires forall n, m | n in addresses && m in addresses && addresses[n] == addresses[m] :: n == m
    requires address !in addresses.Values
    ensures var next := addresses[node := address]; forall n, m | n in next && m in next && next[n] == next[m] :: n == m
  {
    forall n | n in addresses ensures addresses[n] != address { assert addresses[n] in addresses.Values; }
  }

  lemma AdmitDistinct(g: Group, session: SessionId, request: RequestId, address: Address, numNodes: nat, peers: seq<PeerId>)
    requires MembersAgree(g) && Distinct(g) && CheckRegister(g, session, address, numNodes, peers).Ok?
    ensures Distinct(Admit(g, session, request, address, numNodes, peers))
  {
    var node := g.nextNodeId;
    assert node !in g.peers;
    NoDuplicate(peers, g.peers, 0);
    forall i, j | 0 <= i < j < |peers| ensures peers[i] != peers[j] { assert peers[j] !in peers[..j]; }
    PeerCountInsert(g.peers, node, peers);
    FreshPeersStayUnique(g.peers, node, peers);
    FreshAddressStaysUnique(g.addresses, node, address);
  }

  lemma AdmitMembers(g: Group, session: SessionId, request: RequestId, address: Address, numNodes: nat, peers: seq<PeerId>)
    requires Inv(g) && session !in g.registered
    ensures MembersAgree(Admit(g, session, request, address, numNodes, peers))
  {
    var node, next := g.nextNodeId, Admit(g, session, request, address, numNodes, peers);
    forall n ensures n in next.peers <==> IsMember(next.registered, n) {
      if IsMember(g.registered, n) {
        var s :| s in g.registered && g.registered[s] == n;
        assert s in next.registered && next.registered[s] == n;
      }
      if n == node { assert session in next.registered && next.registered[session] == node; }
    }
  }

  lemma AdmitWaiters(g: Group, session: SessionId, request: RequestId, address: Address, numNodes: nat, peers: seq<PeerId>)
    requires WaitersRegistered(g) && session !in g.registered
    ensures WaitersRegistered(Admit(g, session, request, address, numNodes, peers))
  {
  }

  // A new member joins a forming group, or starts one.
  lemma AdmitPhase(g: Group, session: SessionId, request: RequestId, address: Address, numNodes: nat, peers: seq<PeerId>)
    requires PhaseInv(g) && g.failed.None? && CheckRegister(g, session, address, numNodes, peers).Ok?
    ensures PhaseInv(CompleteRegistration(Admit(g, session, request, address, numNodes, peers)).0)
  {
    OneMoreMember(g.registered, session, g.nextNodeId);
    JoinedPhase(g, Admit(g, session, request, address, numNodes, peers), numNodes);
  }

  lemma OneMoreMember(registered: map<SessionId, NodeId>, session: SessionId, node: NodeId)
    requires session !in registered
    ensures registered[session := node] != map[] && |registered[session := node]| == |registered| + 1
  {
    assert registered[session := node].Keys == registered.Keys + {session};
    assert session in registered[session := node];
  }

  lemma JoinedPhase(g: Group, next: Group, numNodes: nat)
    requires PhaseInv(g) && g.failed.None? && numNodes > 0
    requires g.registered != map[] ==> g.registering != [] && g.numNodes == Some(numNodes)
    requires next.registered != map[] && |next.registered| == |g.registered| + 1
    requires next.numNodes == Some(numNodes) && |next.registering| == |g.registering| + 1
    requires next.failed == g.failed && next.pending == g.pending && next.nextTransferId == g.nextTransferId
    ensures PhaseInv(CompleteRegistration(next).0)
  {
  }

  lemma CompleteKeeps(g: Group)
    requires MembersAgree(g) && Distinct(g) && WaitersRegistered(g)
    ensures var next := CompleteRegistration(g).0; MembersAgree(next) && Distinct(next) && WaitersRegistered(next)
  {
  }

  lemma RegisterInv(g: Group, session: SessionId, request: RequestId, address: Address, numNodes: nat, peers: seq<PeerId>)
    requires Inv(g) && g.failed.None?
    ensures Inv(DoRegister(g, session, request, address, numNodes, peers).0)
  {
    if CheckRegister(g, session, address, numNodes, peers).Ok? {
      AdmitDistinct(g, session, request, address, numNodes, peers);
      AdmitMembers(g, session, request, address, numNodes, peers);
      AdmitWaiters(g, session, request, address, numNodes, peers);
      AdmitPhase(g, session, request, address, numNodes, peers);
      CompleteKeeps(Admit(g, session, request, address, numNodes, peers));
    }
  }

  lemma SubmitWaiters(g: Group, entry: PendingCollective)
    requires WaitersRegistered(g) && entry.session in g.registered && !HasPending(g.pending, entry.session)
    ensures WaitersRegistered(g.(pending := g.pending + [entry]))
  {
  }

  // Only the pending list and the transfer counter change in a round.
  lemma RoundKeeps(g: Group, pending: seq<PendingCollective>, transfer: nat)
    requires MembersAgree(g) && Distinct(g)
    ensures MembersAgree(g.(pending := pending, nextTransferId := transfer)) && Distinct(g.(pending := pending, nextTransferId := transfer))
  {
  }

  lemma BeginInv(g: Group, session: SessionId, request: RequestId, spec: CollectiveSpec)
    requires Inv(g) && g.failed.None?
    ensures Inv(DoBegin(g, session, request, spec).0)
  {
    if CheckBegin(g, session).Ok? {
      var entry := PendingCollective(session, request, spec);
      var next := DoBegin(g, session, request, spec).0;
      PendingFits(g, session);
      SubmitWaiters(g, entry);
      RoundKeeps(g, next.pending, next.nextTransferId);
      assert next == g.(pending := next.pending, nextTransferId := next.nextTransferId);
      BeginPhase(g, session, request, spec);
      SubmittedWaiters(g, entry, next);
    }
  }

  // Afterwards the round's submissions wait, or nobody does.
  lemma SubmittedWaiters(g: Group, entry: PendingCollective, next: Group)
    requires WaitersRegistered(g.(pending := g.pending + [entry]))
    requires next.registered == g.registered && next.registering == g.registering && (next.pending == g.pending + [entry] || next.pending == [])
    ensures WaitersRegistered(next)
  {
  }

  lemma BeginPhase(g: Group, session: SessionId, request: RequestId, spec: CollectiveSpec)
    requires PhaseInv(g) && PendingRegistered(g) && g.failed.None? && CheckBegin(g, session).Ok? && |g.pending| < |g.registered|
    ensures PhaseInv(DoBegin(g, session, request, spec).0)
  {
    assert g.registered != map[];
  }

  // Distinct registered sessions, one of them not yet waiting: there is room for its submission.
  lemma PendingFits(g: Group, session: SessionId)
    requires WaitersRegistered(g) && session in g.registered && !HasPending(g.pending, session)
    ensures |g.pending| < |g.registered|
  {
    var waiting := set i | 0 <= i < |g.pending| :: g.pending[i].session;
    WaitingSize(g.pending);
    assert waiting <= g.registered.Keys - {session};
    SubsetSize(waiting, g.registered.Keys - {session});
  }

  lemma {:induction false} WaitingSize(pending: seq<PendingCollective>)
    requires forall i, j | 0 <= i < j < |pending| :: pending[i].session != pending[j].session
    ensures |set i | 0 <= i < |pending| :: pending[i].session| == |pending|
  {
    if pending != [] {
      var front, last := pending[..|pending| - 1], pending[|pending| - 1];
      WaitingSize(front);
      assert (set i | 0 <= i < |pending| :: pending[i].session) == (set i | 0 <= i < |front| :: front[i].session) + {last.session};
    }
  }

  lemma ExpelMembers(g: Group, session: SessionId)
    requires MembersAgree(g) && session in g.registered
    ensures MembersAgree(Expel(g, session).(nextNodeId := g.nextNodeId))
    ensures Expel(g, session).registered == map[] ==> Expel(g, session).peers == map[]
  {
    var node, next := g.registered[session], Expel(g, session);
    forall n ensures n in next.peers <==> IsMember(next.registered, n) {
      if n in next.peers {
        var s :| s in g.registered && g.registered[s] == n;
        assert s in next.registered && next.registered[s] == n;
      }
    }
  }

  lemma ExpelInv(g: Group, session: SessionId)
    requires Inv(g) && session in g.registered
    ensures Inv(Expel(g, session))
  {
    ExpelMembers(g, session);
    assert Distinct(Expel(g, session));
  }

  lemma ProcessInv(g: Group, session: SessionId, request: RequestId, body: Request)
    requires Inv(g)
    ensures Inv(Process(g, session, request, body).0)
  {
    if g.failed.None? || body.Finish? {
      match body
      case Register(address, numNodes, peers) => RegisterInv(g, session, request, address, numNodes, peers);
      case Begin(spec) => BeginInv(g, session, request, spec);
      case Finish => if session in g.registered { ExpelInv(g, session); }
    }
  }

  lemma DisconnectInv(g: Group, session: SessionId)
    requires Inv(g)
    ensures Inv(DoDisconnect(g, session).0)
  {
    if session in g.registered { ExpelInv(g, session); }
  }

  // ---- every run ---------------------------------------------------------------------------------

  datatype Event = Submit(session: SessionId, request: RequestId, body: Request) | Disconnect(session: SessionId)

  // The group, the requests processed and the replies issued so far.
  datatype Trace = Trace(group: Group, processed: seq<(SessionId, RequestId)>, issued: seq<Reply>)

  ghost function StepTrace(t: Trace, event: Event): Trace
    requires PendingRegistered(t.group)
  {
    match event
    case Submit(session, request, body) =>
      var step := Process(t.group, session, request, body);
      Trace(step.0, t.processed + [(session, request)], t.issued + step.1)
    case Disconnect(session) =>
      var step := DoDisconnect(t.group, session);
      Trace(step.0, t.processed, t.issued + step.1)
  }

  ghost function Run(events: seq<Event>): (t: Trace)
    ensures Inv(t.group)
  {
    if events == [] then StartIsSound(); Trace(INITIAL, [], [])
    else
      var before, event := Run(events[..|events| - 1]), events[|events| - 1];
      StepInv(before, event);
      StepTrace(before, event)
  }

  lemma StartIsSound()
    ensures Inv(INITIAL)
  {
  }

  lemma StepInv(t: Trace, event: Event)
    requires Inv(t.group)
    ensures Inv(StepTrace(t, event).group)
  {
    match event
    case Submit(session, request, body) => ProcessInv(t.group, session, request, body);
    case Disconnect(session) => DisconnectInv(t.group, session);
  }

  // ---- reply conservation ------------------------------------------------------------------------

  function ReplyKeys(replies: seq<Reply>): seq<(SessionId, RequestId)> {
    seq(|replies|, i requires 0 <= i < |replies| => (replies[i].session, replies[i].request))
  }

  function RegisteringKeys(waiting: seq<RegisterRequest>): seq<(SessionId, RequestId)> {
    seq(|waiting|, i requires 0 <= i < |waiting| => (waiting[i].session, waiting[i].request))
  }

  function PendingKeys(waiting: seq<PendingCollective>): seq<(SessionId, RequestId)> {
    seq(|waiting|, i requires 0 <= i < |waiting| => (waiting[i].session, waiting[i].request))
  }

  // The requests still waiting, each list entry counted.
  function Waiting(g: Group): multiset<(SessionId, RequestId)> {
    multiset(RegisteringKeys(g.registering)) + multiset(PendingKeys(g.pending))
  }

  function Issued(replies: seq<Reply>): multiset<(SessionId, RequestId)> {
    multiset(ReplyKeys(replies))
  }

  lemma IssuedAppend(a: seq<Reply>, b: seq<Reply>)
    ensures Issued(a + b) == Issued(a) + Issued(b)
  {
    assert ReplyKeys(a + b) == ReplyKeys(a) + ReplyKeys(b);
  }

  lemma IssuedOne(reply: Reply)
    ensures Issued([reply]) == multiset{(reply.session, reply.request)}
  {
    assert ReplyKeys([reply]) == [(reply.session, reply.request)];
  }

  lemma AnswersConserve(registering: seq<RegisterRequest>, pending: seq<PendingCollective>, content: Response, error: GlobalError,
                        addresses: map<NodeId, Address>, devices: nat)
    ensures Issued(AnswersToPending(pending, content)) == multiset(PendingKeys(pending))
    ensures Issued(ErrorsToRegistering(registering, error)) == multiset(RegisteringKeys(registering))
    ensures Issued(Acknowledge(registering, addresses, devices)) == multiset(RegisteringKeys(registering))
  {
    assert ReplyKeys(AnswersToPending(pending, content)) == PendingKeys(pending);
    assert ReplyKeys(ErrorsToRegistering(registering, error)) == RegisteringKeys(registering);
    assert ReplyKeys(Acknowledge(registering, addresses, devices)) == RegisteringKeys(registering);
  }

  lemma AdmissionWaits(g: Group, session: SessionId, request: RequestId, address: Address, numNodes: nat, peers: seq<PeerId>)
    ensures Waiting(Admit(g, session, request, address, numNodes, peers)) == Waiting(g) + multiset{(session, request)}
  {
    var next := Admit(g, session, request, address, numNodes, peers);
    assert RegisteringKeys(next.registering) == RegisteringKeys(g.registering) + [(session, request)];
  }

  lemma CompletionConserves(g: Group)
    ensures Waiting(g) == Waiting(CompleteRegistration(g).0) + Issued(CompleteRegistration(g).1)
  {
    AnswersConserve(g.registering, [], FinishAck, DoubleRegister, g.addresses, g.numGlobalPeers);
    assert multiset(RegisteringKeys([])) == multiset{};
    assert Issued([]) == multiset{};
  }

  lemma RegisterConserves(g: Group, session: SessionId, request: RequestId, address: Address, numNodes: nat, peers: seq<PeerId>)
    ensures var step := DoRegister(g, session, request, address, numNodes, peers);
      Waiting(g) + multiset{(session, request)} == Waiting(step.0) + Issued(step.1)
  {
    match CheckRegister(g, session, address, numNodes, peers) {
      case Err(e) => IssuedOne(Reply(session, request, Error(e)));
      case Ok(_) =>
        AdmissionWaits(g, session, request, address, numNodes, peers);
        CompletionConserves(Admit(g, session, request, address, numNodes, peers));
    }
  }

  lemma SubmissionWaits(g: Group, entry: PendingCollective)
    ensures Waiting(g.(pending := g.pending + [entry])) == Waiting(g) + multiset{(entry.session, entry.request)}
  {
    assert PendingKeys(g.pending + [entry]) == PendingKeys(g.pending) + [(entry.session, entry.request)];
  }

  lemma RoundConserves(g: Group)
    requires PendingRegistered(g)
    ensures Waiting(FinishRound(g).0) + Issued(AnswersToPending(g.pending, FinishRound(g).1)) == Waiting(g)
  {
    var next := FinishRound(g).0;
    assert next.pending == [] && next.registering == g.registering;
    AnswersConserve([], g.pending, FinishRound(g).1, DoubleRegister, map[], 0);
    assert multiset(PendingKeys(next.pending)) == multiset{};
  }

  lemma BeginConserves(g: Group, session: SessionId, request: RequestId, spec: CollectiveSpec)
    requires PendingRegistered(g)
    ensures var step := DoBegin(g, session, request, spec);
      Waiting(g) + multiset{(session, request)} == Waiting(step.0) + Issued(step.1)
  {
    match CheckBegin(g, session) {
      case Err(e) => IssuedOne(Reply(session, request, Error(e)));
      case Ok(_) =>
        var next := g.(pending := g.pending + [PendingCollective(session, request, spec)]);
        SubmissionWaits(g, PendingCollective(session, request, spec));
        RoundConserves(next);
        assert Issued([]) == multiset{};
    }
  }

  lemma LossConserves(g: Group, node: NodeId)
    ensures Issued(LossReplies(g, node)) == Waiting(g)
  {
    AnswersConserve(g.registering, g.pending, Error(PeerLost(node)), PeerLost(node), map[], 0);
    IssuedAppend(AnswersToPending(g.pending, Error(PeerLost(node))), ErrorsToRegistering(g.registering, PeerLost(node)));
  }

  lemma FinishConserves(g: Group, session: SessionId, request: RequestId)
    ensures var step := DoFinish(g, session, request);
      Waiting(g) + multiset{(session, request)} == Waiting(step.0) + Issued(step.1)
  {
    if session in g.registered {
      LossConserves(g, g.registered[session]);
      ExpelWaits(g, session);
      IssuedOne(Reply(session, request, FinishAck));
      IssuedAppend(LossReplies(g, g.registered[session]), [Reply(session, request, FinishAck)]);
    } else {
      IssuedOne(Reply(session, request, Error(NotRegisteredOnFinish)));
    }
  }

  lemma ProcessConserves(g: Group, session: SessionId, request: RequestId, body: Request)
    requires PendingRegistered(g)
    ensures var step := Process(g, session, request, body);
      Waiting(g) + multiset{(session, request)} == Waiting(step.0) + Issued(step.1)
  {
    if g.failed.Some? && !body.Finish? {
      IssuedOne(Reply(session, request, Error(g.failed.value)));
    } else {
      match body
      case Register(address, numNodes, peers) => RegisterConserves(g, session, request, address, numNodes, peers);
      case Begin(spec) => BeginConserves(g, session, request, spec);
      case Finish => FinishConserves(g, session, request);
    }
  }

  // Every processed request is waiting in exactly one place, or has had exactly one reply issued.
  ghost predicate RepliesConserved(t: Trace) {
    multiset(t.processed) == Waiting(t.group) + Issued(t.issued)
  }

  lemma Balance<T>(processed: multiset<T>, waiting: multiset<T>, issued: multiset<T>, key: multiset<T>,
                   waitingAfter: multiset<T>, replies: multiset<T>)
    requires processed == waiting + issued && waiting + key == waitingAfter + replies
    ensures processed + key == waitingAfter + (issued + replies)
  {
    assert (waiting + issued) + key == (waiting + key) + issued;
    assert (waitingAfter + replies) + issued == waitingAfter + (issued + replies);
  }

  lemma SubmitConserves(t: Trace, session: SessionId, request: RequestId, body: Request)
    requires PendingRegistered(t.group) && RepliesConserved(t)
    ensures RepliesConserved(StepTrace(t, Submit(session, request, body)))
  {
    var step, key := Process(t.group, session, request, body), (session, request);
    ProcessConserves(t.group, session, request, body);
    IssuedAppend(t.issued, step.1);
    Balance(multiset(t.processed), Waiting(t.group), Issued(t.issued), multiset{key}, Waiting(step.0), Issued(step.1));
    assert multiset(t.processed + [key]) == multiset(t.processed) + multiset{key};
  }

  lemma ExpelWaits(g: Group, session: SessionId)
    requires session in g.registered
    ensures Waiting(Expel(g, session)) == multiset{}
  {
    var next := Expel(g, session);
    assert next.registering == [] && next.pending == [];
    assert RegisteringKeys(next.registering) == [] && PendingKeys(next.pending) == [];
  }

  lemma DisconnectConserves(t: Trace, session: SessionId)
    requires PendingRegistered(t.group) && RepliesConserved(t)
    ensures RepliesConserved(StepTrace(t, Disconnect(session)))
  {
    var step := DoDisconnect(t.group, session);
    IssuedAppend(t.issued, step.1);
    if session in t.group.registered {
      LossConserves(t.group, t.group.registered[session]);
      ExpelWaits(t.group, session);
    } else {
      assert Issued(step.1) == multiset{};
    }
    Balance(multiset(t.processed), Waiting(t.group), Issued(t.issued), multiset{}, Waiting(step.0), Issued(step.1));
  }

  lemma {:induction false} EveryRequestHasOneReply(events: seq<Event>)
    ensures RepliesConserved(Run(events))
  {
    if events != [] {
      EveryRequestHasOneReply(events[..|events| - 1]);
      var before, event := Run(events[..|events| - 1]), events[|events| - 1];
      match event
      case Submit(session, request, body) => SubmitConserves(before, session, request, body);
      case Disconnect(session) => DisconnectConserves(before, session);
    }
  }

  // ---- epochs and rounds -------------------------------------------------------------------------

  // A failure is forgotten, and node numbers start again, only when no node is registered.
  lemma NewEpochOnlyWhenEmpty(t: Trace, event: Event)
    requires Inv(t.group)
    ensures var next := StepTrace(t, event).group;
      (t.group.failed.Some? && next.failed.None?) || next.nextNodeId < t.group.nextNodeId ==> next.registered == map[]
  {
    match event
    case Submit(session, request, body) => RequestKeepsEpoch(t.group, session, request, body);
    case Disconnect(session) =>
  }

  lemma RequestKeepsEpoch(g: Group, session: SessionId, request: RequestId, body: Request)
    requires Inv(g)
    ensures var next := Process(g, session, request, body).0;
      (g.failed.Some? && next.failed.None?) || next.nextNodeId < g.nextNodeId ==> next.registered == map[]
  {
    match body
    case Register(address, numNodes, peers) =>
    case Begin(spec) =>
    case Finish =>
  }

  // Neither a registration nor a round was confirmed.
  ghost predicate NothingConfirmed(replies: seq<Reply>) {
    forall r | 0 <= r < |replies| :: !replies[r].content.RegisterAck? && !replies[r].content.BeginAck?
  }

  lemma FailureStep(t: Trace, event: Event)
    requires Inv(t.group) && t.group.failed.Some? && StepTrace(t, event).group.registered != map[]
    ensures StepTrace(t, event).group.failed.Some?
    ensures t.issued <= StepTrace(t, event).issued && NothingConfirmed(StepTrace(t, event).issued[|t.issued|..])
  {
    match event
    case Submit(session, request, body) =>
      assert (t.issued + Process(t.group, session, request, body).1)[|t.issued|..] == Process(t.group, session, request, body).1;
    case Disconnect(session) =>
      assert (t.issued + DoDisconnect(t.group, session).1)[|t.issued|..] == DoDisconnect(t.group, session).1;
  }

  // Only refusals, errors and farewells were issued between the two traces.
  ghost predicate Refusing(from: Trace, to: Trace) {
    to.group.failed.Some? && from.issued <= to.issued && NothingConfirmed(to.issued[|from.issued|..])
  }

  lemma RefusingOnward(from: Trace, t: Trace, event: Event)
    requires Refusing(from, t) && Inv(t.group) && StepTrace(t, event).group.registered != map[]
    ensures Refusing(from, StepTrace(t, event))
  {
    var next := StepTrace(t, event);
    FailureStep(t, event);
    assert next.issued[|from.issued|..] == t.issued[|from.issued|..] + next.issued[|t.issued|..];
  }

  // The run after its first k events.
  ghost function After(events: seq<Event>, k: nat): (t: Trace)
    requires k <= |events|
    ensures Inv(t.group)
  {
    Run(events[..k])
  }

  lemma AfterStep(events: seq<Event>, k: nat)
    requires k < |events|
    ensures After(events, k + 1) == StepTrace(After(events, k), events[k])
  {
    assert events[..k + 1][..k] == events[..k];
  }

  // Traces that follow one another as the events say.
  ghost predicate Follow(traces: seq<Trace>, events: seq<Event>) {
    |traces| == |events| + 1 && forall k | 0 <= k < |events| :: FollowAt(traces, events, k)
  }

  ghost predicate FollowAt(traces: seq<Trace>, events: seq<Event>, k: nat)
    requires k < |events| && |traces| == |events| + 1
  {
    Inv(traces[k].group) && traces[k + 1] == StepTrace(traces[k], events[k])
  }

  lemma {:induction false} RefusingAlong(traces: seq<Trace>, events: seq<Event>, i: nat, j: nat)
    requires Follow(traces, events) && i <= j <= |events| && traces[i].group.failed.Some?
    requires forall k | i <= k <= j :: traces[k].group.registered != map[]
    ensures Refusing(traces[i], traces[j])
    decreases j
  {
    if i < j {
      RefusingAlong(traces, events, i, j - 1);
      assert FollowAt(traces, events, j - 1);
      RefusingOnward(traces[i], traces[j - 1], events[j - 1]);
    }
  }

  // The traces of a run, event by event.
  lemma TracesFollow(events: seq<Event>) returns (traces: seq<Trace>)
    ensures Follow(traces, events) && forall k | 0 <= k <= |events| :: traces[k] == After(events, k)
  {
    traces := seq(|events| + 1, k requires 0 <= k <= |events| => After(events, k));
    forall k | 0 <= k < |events| ensures FollowAt(traces, events, k) { AfterStep(events, k); }
  }

  // From a failure on, as long as somebody is still registered, the group stays failed and confirms
  // neither a registration nor a round.
  lemma FailedGroupRefuses(events: seq<Event>, i: nat, j: nat)
    requires i <= j <= |events| && After(events, i).group.failed.Some?
    requires forall k | i <= k <= j :: After(events, k).group.registered != map[]
    ensures Refusing(After(events, i), After(events, j))
  {
    var traces := TracesFollow(events);
    RefusingAlong(traces, events, i, j);
  }

  function EntriesOfRound(g: Group): Entries
    requires PendingRegistered(g)
  {
    EntriesOf(SpecsOf(g.registered, g.pending))
  }

  ghost predicate HasRoot(entries: Entries, peers: Peers) {
    exists root: NodeId :: IsRootOf(entries, peers, root)
  }

  // A round succeeds exactly when its submissions agree on a root; only then is a transfer number used.
  lemma RoundIsAgreed(g: Group)
    requires MembersAgree(g) && Distinct(g) && WaitersRegistered(g) && g.pending != []
    ensures FinishRound(g).1.BeginAck? <==> HasRoot(EntriesOfRound(g), g.peers)
    ensures FinishRound(g).1.BeginAck? ==> IsRootOf(EntriesOfRound(g), g.peers, FinishRound(g).1.rootNode)
    ensures FinishRound(g).1.BeginAck? ==>
      FinishRound(g).1.transferId == g.nextTransferId && FinishRound(g).0.nextTransferId == g.nextTransferId + 1
    ensures !FinishRound(g).1.BeginAck? ==> FinishRound(g).1.Error? && FinishRound(g).0.nextTransferId == g.nextTransferId
  {
    var specs := SpecsOf(g.registered, g.pending);
    assert DistinctNodes(specs);
    AgreementHasNoOrder(specs, g.peers);
    AgreedExactlyWhenRooted(specs, g.peers);
  }

  lemma AgreedExactlyWhenRooted(specs: seq<(NodeId, CollectiveSpec)>, peers: Peers)
    requires specs != [] && DistinctNodes(specs) && PeersUnique(peers)
    ensures Agree(specs, peers).Ok? <==> HasRoot(EntriesOf(specs), peers)
  {
    AgreementHasNoOrder(specs, peers);
    var agreed := Agree(specs, peers);
    if agreed.Ok? { assert IsRootOf(EntriesOf(specs), peers, agreed.value); }
    if root: NodeId :| IsRootOf(EntriesOf(specs), peers, root) { assert agreed == Ok(root); }
  }

  lemma AllSessionsWait(g: Group)
    requires WaitersRegistered(g) && |g.pending| == |g.registered|
    ensures forall s :: s in g.registered <==> HasPending(g.pending, s)
  {
    var waiting := set i | 0 <= i < |g.pending| :: g.pending[i].session;
    WaitingSize(g.pending);
    assert waiting <= g.registered.Keys;
    assert g.registered.Keys == waiting + (g.registered.Keys - waiting);
    assert g.registered.Keys - waiting == {};
    forall s | s in g.registered ensures HasPending(g.pending, s) { assert s in waiting; }
  }

  lemma RoundAnswers(g: Group)
    requires WaitersRegistered(g) && |g.pending| == |g.registered|
    ensures var replies := AnswersToPending(g.pending, FinishRound(g).1);
      && |replies| == |g.registered|
      && (forall s :: s in g.registered <==> exists i :: 0 <= i < |replies| && replies[i].session == s)
      && (forall i, j | 0 <= i < j < |replies| :: replies[i].session != replies[j].session)
      && (forall i | 0 <= i < |replies| :: replies[i].content == FinishRound(g).1)
  {
    EveryoneIsAnswered(g, FinishRound(g).1);
  }

  lemma EveryoneIsAnswered(g: Group, content: Response)
    requires WaitersRegistered(g) && |g.pending| == |g.registered|
    ensures var replies := AnswersToPending(g.pending, content);
      && |replies| == |g.registered|
      && (forall s :: s in g.registered <==> exists i :: 0 <= i < |replies| && replies[i].session == s)
      && (forall i, j | 0 <= i < j < |replies| :: replies[i].session != replies[j].session)
      && (forall i | 0 <= i < |replies| :: replies[i].content == content)
  {
    var replies := AnswersToPending(g.pending, content);
    AllSessionsWait(g);
    forall s ensures s in g.registered <==> exists i :: 0 <= i < |replies| && replies[i].session == s {
      if s in g.registered {
        var i :| 0 <= i < |g.pending| && g.pending[i].session == s;
        assert replies[i].session == s;
      }
    }
  }

  // The submission that completes a round: one identical reply to every registered session and to
  // nobody else, and the round is emptied. What the common answer says: RoundIsAgreed.
  lemma CompletedRoundAnswersEveryone(g: Group, session: SessionId, request: RequestId, spec: CollectiveSpec)
    requires Inv(g) && g.failed.None? && CheckBegin(g, session).Ok? && |g.pending| + 1 == |g.registered|
    ensures var full, replies := Submitted(g, session, request, spec), DoBegin(g, session, request, spec).1;
      && MembersAgree(full) && Distinct(full) && WaitersRegistered(full) && full.pending != []
      && |replies| == |g.registered|
      && (forall s :: s in g.registered <==> exists i :: 0 <= i < |replies| && replies[i].session == s)
      && (forall i, j | 0 <= i < j < |replies| :: replies[i].session != replies[j].session)
      && (forall i | 0 <= i < |replies| :: replies[i].content == FinishRound(full).1)
      && DoBegin(g, session, request, spec).0 == FinishRound(full).0
  {
    var full := Submitted(g, session, request, spec);
    SubmitWaiters(g, PendingCollective(session, request, spec));
    RoundKeeps(g, full.pending, full.nextTransferId);
    RoundAnswers(full);
  }

  function Submitted(g: Group, session: SessionId, request: RequestId, spec: CollectiveSpec): Group {
    g.(pending := g.pending + [PendingCollective(session, request, spec)])
  }

  // ---- transfer numbers --------------------------------------------------------------------------

  // The replies of one step: those that begin a round are all the step's replies, say the same and go
  // to different sessions; they carry the counter's value, and the step moves the counter past it.
  ghost predicate TransfersFrom(before: nat, after: nat, replies: seq<Reply>) {
    && before <= after
    && forall i | 0 <= i < |replies| && replies[i].content.BeginAck? ::
         replies[i].content.transferId == before < after && OneAnswer(replies)
  }

  ghost predicate OneAnswer(replies: seq<Reply>) {
    forall i, j | 0 <= i < j < |replies| :: replies[i].content == replies[j].content && replies[i].session != replies[j].session
  }

  lemma BeginTransfers(g: Group, session: SessionId, request: RequestId, spec: CollectiveSpec)
    requires WaitersRegistered(g)
    ensures var step := DoBegin(g, session, request, spec); TransfersFrom(g.nextTransferId, step.0.nextTransferId, step.1)
  {
    if CheckBegin(g, session).Ok? {
      var full := Submitted(g, session, request, spec);
      SubmitWaiters(g, PendingCollective(session, request, spec));
      assert FinishRound(full).1.BeginAck? ==> FinishRound(full).1.transferId < FinishRound(full).0.nextTransferId;
    }
  }

  lemma RegisterTransfers(g: Group, session: SessionId, request: RequestId, address: Address, numNodes: nat, peers: seq<PeerId>)
    ensures var step := DoRegister(g, session, request, address, numNodes, peers);
      TransfersFrom(g.nextTransferId, step.0.nextTransferId, step.1)
  {
  }

  lemma FinishTransfers(g: Group, session: SessionId, request: RequestId)
    ensures var step := DoFinish(g, session, request); TransfersFrom(g.nextTransferId, step.0.nextTransferId, step.1)
    ensures var step := DoDisconnect(g, session); TransfersFrom(g.nextTransferId, step.0.nextTransferId, step.1)
  {
  }

  lemma ProcessTransfers(g: Group, session: SessionId, request: RequestId, body: Request)
    requires WaitersRegistered(g)
    ensures var step := Process(g, session, request, body); TransfersFrom(g.nextTransferId, step.0.nextTransferId, step.1)
  {
    if g.failed.None? || body.Finish? {
      match body
      case Register(address, numNodes, peers) => RegisterTransfers(g, session, request, address, numNodes, peers);
      case Begin(spec) => BeginTransfers(g, session, request, spec);
      case Finish => FinishTransfers(g, session, request);
    }
  }

  // Replies i to j answer one round: the same content, to different sessions, with nothing in between.
  ghost predicate SameRound(issued: seq<Reply>, i: nat, j: nat)
    requires i < j < |issued|
  {
    issued[i].session != issued[j].session && forall k | i <= k <= j :: issued[k].content == issued[i].content
  }

  // Transfer numbers start at 2, never go down from reply to reply, and only repeat inside one round.
  ghost predicate RoundsOrdered(issued: seq<Reply>, next: nat) {
    && (forall i | 0 <= i < |issued| && issued[i].content.BeginAck? :: 2 <= issued[i].content.transferId < next)
    && forall i, j | 0 <= i < j < |issued| && issued[i].content.BeginAck? && issued[j].content.BeginAck? ::
         issued[i].content.transferId < issued[j].content.transferId ||
         (issued[i].content.transferId == issued[j].content.transferId && SameRound(issued, i, j))
  }

  lemma RoundsAppend(issued: seq<Reply>, before: nat, after: nat, replies: seq<Reply>)
    requires RoundsOrdered(issued, before) && 2 <= before && TransfersFrom(before, after, replies)
    ensures RoundsOrdered(issued + replies, after)
  {
    var all, n := issued + replies, |issued|;
    forall i, j | 0 <= i < j < |all| && all[i].content.BeginAck? && all[j].content.BeginAck?
      ensures all[i].content.transferId < all[j].content.transferId ||
        (all[i].content.transferId == all[j].content.transferId && SameRound(all, i, j))
    {
      if j < n {
        if issued[i].content.transferId == issued[j].content.transferId { assert SameRound(issued, i, j); }
      } else if i >= n {
        assert OneAnswer(replies) by { assert replies[i - n].content.BeginAck?; }
        assert replies[i - n].session != replies[j - n].session;
        forall k | i <= k <= j ensures all[k].content == all[i].content { assert all[k] == replies[k - n]; }
      } else {
        assert replies[j - n].content.BeginAck?;
      }
    }
  }

  // In every run the numbers of later rounds are greater than those of earlier ones.
  lemma {:induction false} TransferIdsIncrease(events: seq<Event>)
    ensures RoundsOrdered(Run(events).issued, Run(events).group.nextTransferId)
  {
    if events != [] {
      var before, event := Run(events[..|events| - 1]), events[|events| - 1];
      TransferIdsIncrease(events[..|events| - 1]);
      match event
      case Submit(session, request, body) =>
        var step := Process(before.group, session, request, body);
        ProcessTransfers(before.group, session, request, body);
        RoundsAppend(before.issued, before.group.nextTransferId, step.0.nextTransferId, step.1);
      case Disconnect(session) =>
        var step := DoDisconnect(before.group, session);
        FinishTransfers(before.group, session, 0);
        RoundsAppend(before.issued, before.group.nextTransferId, step.0.nextTransferId, step.1);
    }
  }
}
