// src/global/orchestrator/state.rs: what the members of a group are told when it forms and when it breaks,
// in terms of the group's own records.
module Membership {
  import opened Wrappers
  import opened Agreement
  import opened Orchestrator

  // One reply to each session of `registered` and to nobody else.
  ghost predicate OneToEach(replies: seq<Reply>, registered: map<SessionId, NodeId>) {
    && |replies| == |registered|
    && (forall s :: s in registered <==> exists i :: 0 <= i < |replies| && replies[i].session == s)
    && (forall i, j | 0 <= i < j < |replies| :: replies[i].session != replies[j].session)
  }

  // Each is told its own number, where every member is, and how many peers there are.
  ghost predicate TellsTheGroup(replies: seq<Reply>, g: Group) {
    forall i | 0 <= i < |replies| :: replies[i].session in g.registered &&
      replies[i].content == RegisterAck(g.registered[replies[i].session], g.addresses, PeerCount(g.peers))
  }

  ghost predicate NoAck(replies: seq<Reply>) {
    forall i | 0 <= i < |replies| :: !replies[i].content.RegisterAck?
  }

  // The new member has a number nobody had; nothing else of the membership changes.
  ghost predicate Joined(before: Group, after: Group, session: SessionId, address: Address, peers: seq<PeerId>) {
    && session !in before.registered && session in after.registered
    && var node := after.registered[session];
    && node == before.nextNodeId && after.nextNodeId == node + 1 && after.numGlobalPeers == before.numGlobalPeers + |peers|
    && (forall s | s in before.registered :: before.registered[s] != node)
    && after.registered == before.registered[session := node]
    && after.addresses == before.addresses[node := address] && after.peers == before.peers[node := peers]
  }

  // ---- who is admitted ---------------------------------------------------------------------------

  // The peer at i was named before, in the list itself or by a member.
  ghost predicate NamedBefore(list: seq<PeerId>, peers: Peers, i: nat)
    requires i < |list|
  {
    (exists j :: 0 <= j < i && list[j] == list[i]) || (exists n :: n in peers && list[i] in peers[n])
  }

  ghost predicate FirstNamedBefore(list: seq<PeerId>, peers: Peers, i: nat) {
    i < |list| && NamedBefore(list, peers, i) && forall j: nat | j < i :: !NamedBefore(list, peers, j)
  }

  lemma DuplicateAt(list: seq<PeerId>, peers: Peers, i: nat)
    requires i < |list|
    ensures list[i] in list[..i] || Taken(peers, list[i]) <==> NamedBefore(list, peers, i)
  {
    if list[i] in list[..i] {
      var j :| 0 <= j < i && list[..i][j] == list[i];
      assert list[j] == list[i];
    }
    if j :| 0 <= j < i && list[j] == list[i] { assert list[..i][j] == list[i]; }
  }

  lemma {:induction false} FirstDuplicate(list: seq<PeerId>, peers: Peers, i: nat) returns (found: nat)
    requires i <= |list| && forall j: nat | j < i :: !NamedBefore(list, peers, j)
    ensures match DuplicateFrom(list, peers, i)
      case Some(peer) => FirstNamedBefore(list, peers, found) && peer == list[found]
      case None => forall j: nat | j < |list| :: !NamedBefore(list, peers, j)
    decreases |list| - i
  {
    found := i;
    if i < |list| {
      DuplicateAt(list, peers, i);
      if !NamedBefore(list, peers, i) { found := FirstDuplicate(list, peers, i + 1); }
    }
  }

  // What is wrong with a registration, the first of these that applies: it announces no members or no
  // peers, its session or address is a member's, the group is complete, a peer is named twice, or it
  // announces another number of members than the ones before.
  lemma RegistrationRefusedExactlyWhen(g: Group, session: SessionId, address: Address, numNodes: nat, peers: seq<PeerId>)
    ensures match CheckRegister(g, session, address, numNodes, peers)
      case Ok(_) =>
        && numNodes > 0 && peers != [] && session !in g.registered && (forall n | n in g.addresses :: g.addresses[n] != address)
        && (g.registered == map[] || g.registering != []) && (forall i: nat | i < |peers| :: !NamedBefore(peers, g.peers, i))
        && (g.numNodes.Some? ==> g.numNodes.value == numNodes)
      case Err(error) =>
        if numNodes == 0 || peers == [] then error == RegisterParamsMismatch
        else if session in g.registered || exists n :: n in g.addresses && g.addresses[n] == address then error == DoubleRegister
        else if g.registered != map[] && g.registering == [] then error == RegisterParamsMismatch
        else if exists i: nat :: i < |peers| && NamedBefore(peers, g.peers, i) then
          exists i: nat :: FirstNamedBefore(peers, g.peers, i) && error == DuplicatePeer(peers[i])
        else g.numNodes.Some? && g.numNodes.value != numNodes && error == RegisterParamsMismatch
  {
    AddressTaken(g, address);
    var found := FirstDuplicate(peers, g.peers, 0);
  }

  lemma AddressTaken(g: Group, address: Address)
    ensures address in g.addresses.Values <==> exists n :: n in g.addresses && g.addresses[n] == address
  {
  }

  // A round is open to a member of a complete group that is not in it yet.
  lemma BeginRefusedExactlyWhen(g: Group, session: SessionId)
    ensures match CheckBegin(g, session)
      case Ok(_) =>
        && session in g.registered && g.registering == [] && g.numNodes == Some(|g.registered|)
        && forall i | 0 <= i < |g.pending| :: g.pending[i].session != session
      case Err(error) =>
        if session in g.registered && g.registering == [] && g.numNodes == Some(|g.registered|) then
          error == CollectiveParamsMismatch && exists i :: 0 <= i < |g.pending| && g.pending[i].session == session
        else error == CollectiveBeforeRegister
  {
    if session in g.registered { assert g.registered.Keys != {}; }
  }

  // An accepted submission waits, with its spec, for the rest of the group.
  lemma BeginWaits(g: Group, session: SessionId, request: RequestId, spec: CollectiveSpec)
    requires WaitersRegistered(g) && CheckBegin(g, session).Ok? && |g.pending| + 1 != |g.registered|
    ensures DoBegin(g, session, request, spec) == (g.(pending := g.pending + [PendingCollective(session, request, spec)]), [])
  {
    SubmitWaiters(g, PendingCollective(session, request, spec));
  }

  // ---- what they are told ------------------------------------------------------------------------

  // Waiters that cover the group are the registered sessions, one each.
  lemma WaitersAreMembers(g: Group)
    requires WaitersRegistered(g) && |g.registering| == |g.registered|
    ensures forall s :: s in g.registered <==> exists i :: 0 <= i < |g.registering| && g.registering[i].session == s
  {
    var waiting := set i | 0 <= i < |g.registering| :: g.registering[i].session;
    WaitingSessions(g.registering, |g.registering|);
    assert waiting == SessionsTo(g.registering, |g.registering|);
    assert waiting <= g.registered.Keys;
    AllOfThem(waiting, g.registered.Keys);
  }

  function SessionsTo(waiting: seq<RegisterRequest>, k: nat): (sessions: set<SessionId>)
    requires k <= |waiting|
  {
    set i | 0 <= i < k :: waiting[i].session
  }

  lemma {:induction false} WaitingSessions(waiting: seq<RegisterRequest>, k: nat)
    requires k <= |waiting| && forall i, j | 0 <= i < j < |waiting| :: waiting[i].session != waiting[j].session
    ensures |SessionsTo(waiting, k)| == k
  {
    if k > 0 {
      WaitingSessions(waiting, k - 1);
      assert SessionsTo(waiting, k) == SessionsTo(waiting, k - 1) + {waiting[k - 1].session};
    }
  }

  lemma AllOfThem<T>(a: set<T>, b: set<T>)
    requires a <= b && |a| == |b|
    ensures a == b
  {
    assert b == a + (b - a);
  }

  // Replies that go to the waiters, in their order, go to each registered session once.
  lemma WaitersReached(g: Group, replies: seq<Reply>)
    requires WaitersRegistered(g) && |replies| == |g.registering| == |g.registered|
    requires forall i | 0 <= i < |replies| :: replies[i].session == g.registering[i].session
    ensures OneToEach(replies, g.registered)
  {
    WaitersAreMembers(g);
    forall s ensures s in g.registered <==> exists i :: 0 <= i < |replies| && replies[i].session == s {
      if s in g.registered {
        var i :| 0 <= i < |g.registering| && g.registering[i].session == s;
        assert replies[i].session == s;
      }
    }
  }

  lemma AcknowledgedAll(g: Group)
    requires Distinct(g) && WaitersRegistered(g) && |g.registering| == |g.registered|
    ensures var replies := Acknowledge(g.registering, g.addresses, g.numGlobalPeers);
      OneToEach(replies, g.registered) && TellsTheGroup(replies, g)
  {
    var replies := Acknowledge(g.registering, g.addresses, g.numGlobalPeers);
    assert OneToEach(replies, g.registered) by { WaitersReached(g, replies); }
    assert TellsTheGroup(replies, g);
  }

  // The registration that completes a group answers every member, each with its own number, every
  // member's address and the number of peers; an earlier one answers nobody; a refused one changes
  // nothing and answers its sender with an error.
  lemma RegistrationAnswers(g: Group, session: SessionId, request: RequestId, address: Address, numNodes: nat, peers: seq<PeerId>)
    requires Inv(g) && g.failed.None?
    ensures var (next, replies) := DoRegister(g, session, request, address, numNodes, peers);
      match CheckRegister(g, session, address, numNodes, peers)
      case Err(error) => next == g && replies == [Reply(session, request, Error(error))]
      case Ok(_) => Joined(g, next, session, address, peers) && Completes(next, numNodes, replies)
  {
    if CheckRegister(g, session, address, numNodes, peers).Ok? {
      AdmissionJoins(g, session, request, address, numNodes, peers);
      var full := Admit(g, session, request, address, numNodes, peers);
      AdmissionKeeps(g, session, request, address, numNodes, peers);
      CompletionTells(full, numNodes);
    }
  }

  // Nobody is answered before the announced number of members is there; then everybody is.
  ghost predicate Completes(next: Group, numNodes: nat, replies: seq<Reply>) {
    if |next.registered| < numNodes then replies == []
    else
      && |next.registered| == numNodes && next.registering == [] && next.addresses.Keys == next.registered.Values
      && OneToEach(replies, next.registered) && TellsTheGroup(replies, next)
  }

  lemma AdmissionJoins(g: Group, session: SessionId, request: RequestId, address: Address, numNodes: nat, peers: seq<PeerId>)
    requires MembersAgree(g) && CheckRegister(g, session, address, numNodes, peers).Ok?
    ensures Joined(g, DoRegister(g, session, request, address, numNodes, peers).0, session, address, peers)
  {
    NumbersAreFresh(g, session);
  }

  lemma AdmissionKeeps(g: Group, session: SessionId, request: RequestId, address: Address, numNodes: nat, peers: seq<PeerId>)
    requires Inv(g) && g.failed.None? && CheckRegister(g, session, address, numNodes, peers).Ok?
    ensures var full := Admit(g, session, request, address, numNodes, peers);
      && MembersAgree(full) && Distinct(full) && WaitersRegistered(full)
      && full.numNodes == Some(numNodes) && |full.registering| == |full.registered| <= numNodes
  {
    AdmitDistinct(g, session, request, address, numNodes, peers);
    AdmitMembers(g, session, request, address, numNodes, peers);
    AdmitWaiters(g, session, request, address, numNodes, peers);
    OneMoreMember(g.registered, session, g.nextNodeId);
  }

  lemma CompletionTells(full: Group, numNodes: nat)
    requires MembersAgree(full) && Distinct(full) && WaitersRegistered(full)
    requires full.numNodes == Some(numNodes) && |full.registering| == |full.registered| <= numNodes
    ensures Completes(CompleteRegistration(full).0, numNodes, CompleteRegistration(full).1)
  {
    AcknowledgedAll(full);
    AddressesOfMembers(full);
  }

  lemma NumbersAreFresh(g: Group, session: SessionId)
    requires MembersAgree(g)
    ensures forall s | s in g.registered :: g.registered[s] != g.nextNodeId
  {
  }

  lemma AddressesOfMembers(g: Group)
    requires MembersAgree(g)
    ensures g.addresses.Keys == g.registered.Values
  {
    forall n ensures n in g.addresses.Keys <==> n in g.registered.Values {
      assert n in g.peers <==> IsMember(g.registered, n);
    }
  }

  lemma LossHasNoAck(g: Group, node: NodeId)
    ensures NoAck(LossReplies(g, node))
  {
  }

  lemma BeginHasNoAck(g: Group, session: SessionId, request: RequestId, spec: CollectiveSpec)
    requires WaitersRegistered(g)
    ensures NoAck(DoBegin(g, session, request, spec).1)
  {
    if CheckBegin(g, session).Ok? { SubmitWaiters(g, PendingCollective(session, request, spec)); }
  }

  // Nothing else ever sends an acknowledgement of a registration.
  lemma OnlyRegistrationsAcknowledge(g: Group, session: SessionId, request: RequestId, body: Request)
    requires Inv(g) && !body.Register?
    ensures NoAck(Process(g, session, request, body).1) && NoAck(DoDisconnect(g, session).1)
  {
    if session in g.registered { LossHasNoAck(g, g.registered[session]); }
    match body
    case Begin(spec) => BeginHasNoAck(g, session, request, spec);
    case Finish =>
  }

  // ---- when a member goes ------------------------------------------------------------------------

  // Everybody who waited for a round, then everybody who waited for the group, is told which node was lost.
  ghost predicate ToldOfLoss(replies: seq<Reply>, g: Group, node: NodeId) {
    && |replies| == |g.pending| + |g.registering|
    && (forall i | 0 <= i < |replies| :: replies[i].content == Error(PeerLost(node)))
    && (forall i | 0 <= i < |g.pending| :: replies[i].session == g.pending[i].session && replies[i].request == g.pending[i].request)
    && (forall i, k | 0 <= i < |g.registering| && k == |g.pending| + i ::
          replies[k].session == g.registering[i].session && replies[k].request == g.registering[i].request)
  }

  // The member is gone from every record; a group that still has members has failed with its loss, and
  // one without members is as at the start, apart from the transfer numbers.
  ghost predicate Gone(before: Group, after: Group, session: SessionId)
    requires session in before.registered
  {
    var node := before.registered[session];
    && after.registered == before.registered - {session} && after.addresses == before.addresses - {node} && after.peers == before.peers - {node}
    && after.registering == [] && after.pending == [] && after.nextTransferId == before.nextTransferId
    && after.numGlobalPeers == PeerCount(after.peers)
    && if after.registered == map[] then after.failed == None && after.numNodes == None && after.nextNodeId == 0
       else after.failed == Some(PeerLost(node)) && after.numNodes == before.numNodes && after.nextNodeId == before.nextNodeId
  }

  lemma LossTold(g: Group, node: NodeId)
    ensures ToldOfLoss(LossReplies(g, node), g, node)
  {
  }

  lemma ExpelGoes(g: Group, session: SessionId)
    requires session in g.registered
    ensures Gone(g, Expel(g, session), session)
  {
  }

  lemma LossAnswers(g: Group, session: SessionId, request: RequestId)
    requires session in g.registered
    ensures Gone(g, DoDisconnect(g, session).0, session) && ToldOfLoss(DoDisconnect(g, session).1, g, g.registered[session])
    ensures DoFinish(g, session, request) == (DoDisconnect(g, session).0, DoDisconnect(g, session).1 + [Reply(session, request, FinishAck)])
  {
    assert Gone(g, Expel(g, session), session) by { ExpelGoes(g, session); }
    assert ToldOfLoss(LossReplies(g, g.registered[session]), g, g.registered[session]) by { LossTold(g, g.registered[session]); }
  }
}
