// src/global/orchestrator/state.rs: the mutable orchestrator state, proved to follow Orchestrator.Process.
module GlobalState {
  import opened Wrappers
  import opened Agreement
  import opened Orchestrator

  type Queues = map<SessionId, seq<Reply>>

  const RESPONSE_QUEUE := 64

  // A reply goes to its session's queue; it is dropped when the session is gone or its queue is full.
  function Deliver(queues: Queues, reply: Reply): Queues {
    if reply.session in queues && |queues[reply.session]| < RESPONSE_QUEUE then
      queues[reply.session := queues[reply.session] + [reply]]
    else queues
  }

  function DeliverAll(queues: Queues, replies: seq<Reply>): Queues {
    if replies == [] then queues else Deliver(DeliverAll(queues, replies[..|replies| - 1]), replies[|replies| - 1])
  }

  function RepliesTo(replies: seq<Reply>, session: SessionId): seq<Reply> {
    if replies == [] then []
    else
      var front, last := RepliesTo(replies[..|replies| - 1], session), replies[|replies| - 1];
      if last.session == session then front + [last] else front
  }

  // How many of these replies a queue still has room for.
  function Room(queue: seq<Reply>, replies: seq<Reply>): (n: nat)
    ensures n <= |replies|
  {
    if |queue| >= RESPONSE_QUEUE then 0 else if |queue| + |replies| <= RESPONSE_QUEUE then |replies| else RESPONSE_QUEUE - |queue|
  }

  // A queue never grows beyond 64 replies, and one that lacks any is full.
  ghost predicate FilledUp(before: seq<Reply>, after: seq<Reply>, replies: seq<Reply>) {
    (after != before ==> |after| <= 64) && (after != before + replies ==> |after| >= 64)
  }

  // Every open session's queue grows by its own replies in the order they were issued, up to its bound;
  // so all of them arrive exactly when they fit.
  lemma {:induction false} QueuesHoldOwnReplies(queues: Queues, replies: seq<Reply>)
    ensures DeliverAll(queues, replies).Keys == queues.Keys
    ensures forall s | s in queues ::
      DeliverAll(queues, replies)[s] == queues[s] + RepliesTo(replies, s)[..Room(queues[s], RepliesTo(replies, s))]
    ensures forall s | s in queues ::
      DeliverAll(queues, replies)[s] == queues[s] + RepliesTo(replies, s) <==>
      RepliesTo(replies, s) == [] || |queues[s]| + |RepliesTo(replies, s)| <= 64
    ensures forall s | s in queues :: FilledUp(queues[s], DeliverAll(queues, replies)[s], RepliesTo(replies, s))
  {
    if replies != [] {
      var front, last := replies[..|replies| - 1], replies[|replies| - 1];
      QueuesHoldOwnReplies(queues, front);
      forall s | s in queues
        ensures DeliverAll(queues, replies)[s] == queues[s] + RepliesTo(replies, s)[..Room(queues[s], RepliesTo(replies, s))]
      {
        OneMoreFits(queues[s], RepliesTo(front, s), last);
      }
    }
    forall s | s in queues { WholeFits(queues[s], RepliesTo(replies, s)); }
  }

  lemma OneMoreFits(queue: seq<Reply>, replies: seq<Reply>, last: Reply)
    ensures var now := queue + replies[..Room(queue, replies)];
      queue + (replies + [last])[..Room(queue, replies + [last])] == if |now| < RESPONSE_QUEUE then now + [last] else now
  {
  }

  lemma WholeFits(queue: seq<Reply>, replies: seq<Reply>)
    ensures queue + replies[..Room(queue, replies)] == queue + replies <==> replies == [] || |queue| + |replies| <= RESPONSE_QUEUE
    ensures FilledUp(queue, queue + replies[..Room(queue, replies)], replies)
  {
    assert |queue + replies[..Room(queue, replies)]| == |queue| + Room(queue, replies);
  }

  lemma DeliverOneMore(queues: Queues, replies: seq<Reply>, last: Reply)
    ensures DeliverAll(queues, replies + [last]) == Deliver(DeliverAll(queues, replies), last)
  {
    assert (replies + [last])[..|replies|] == replies;
  }

  lemma DeliverOne(queues: Queues, reply: Reply)
    ensures DeliverAll(queues, [reply]) == Deliver(queues, reply)
  {
    assert [reply][..0] == [];
  }

  lemma {:induction false} DeliverInTurn(queues: Queues, a: seq<Reply>, b: seq<Reply>)
    ensures DeliverAll(queues, a + b) == DeliverAll(DeliverAll(queues, a), b)
  {
    if b == [] {
      assert a + b == a;
    } else {
      DeliverInTurn(queues, a, b[..|b| - 1]);
      assert (a + b)[..|a + b| - 1] == a + b[..|b| - 1];
    }
  }

  class GlobalCollectiveState {
    var registeredNodes: map<SessionId, NodeId>
    var nodeAddresses: map<NodeId, Address>
    var nodePeers: Peers
    var curNumNodes: Option<nat>
    var numGlobalPeers: nat
    var registerRequests: seq<RegisterRequest>
    var sessions: Queues
    var pendingCollectives: seq<PendingCollective>
    var nextTransferId: nat
    var nextNodeId: nat
    var failed: Option<GlobalError>
    ghost var issued: seq<Reply>

    ghost function Snapshot(): Group
      reads this
    {
      Group(registeredNodes, nodeAddresses, nodePeers, curNumNodes, numGlobalPeers, registerRequests,
            pendingCollectives, nextTransferId, nextNodeId, failed)
    }

    ghost predicate Valid()
      reads this
    {
      Inv(Snapshot())
    }

    constructor ()
      ensures Valid() && Snapshot() == INITIAL && sessions == map[] && issued == []
    {
      registeredNodes, nodeAddresses, nodePeers := map[], map[], map[];
      curNumNodes, numGlobalPeers := None, 0;
      registerRequests, sessions, pendingCollectives := [], map[], [];
      nextTransferId, nextNodeId, failed, issued := 2, 0, None, [];
    }

    method InitSession(id: SessionId)
      modifies this`sessions
      ensures sessions == if id in old(sessions) then old(sessions) else old(sessions)[id := []]
    {
      if id in sessions { return; }
      sessions := sessions[id := []];
    }

    method Respond(reply: Reply)
      modifies this`sessions, this`issued
      ensures sessions == Deliver(old(sessions), reply) && issued == old(issued) + [reply]
    {
      if reply.session in sessions && |sessions[reply.session]| < RESPONSE_QUEUE {
        sessions := sessions[reply.session := sessions[reply.session] + [reply]];
      }
      issued := issued + [reply];
    }

    // The session's connection takes the oldest reply that waits for it.
    method TakeReply(session: SessionId) returns (reply: Option<Reply>)
      modifies this`sessions
      ensures reply.Some? <==> session in old(sessions) && old(sessions)[session] != []
      ensures reply.Some? ==> [reply.value] + old(sessions)[session][1..] == old(sessions)[session]
      ensures reply.Some? ==> sessions == old(sessions)[session := old(sessions)[session][1..]]
      ensures reply.None? ==> sessions == old(sessions)
    {
      if session !in sessions || sessions[session] == [] { return None; }
      reply := Some(sessions[session][0]);
      sessions := sessions[session := sessions[session][1..]];
    }

    method RespondAll(replies: seq<Reply>)
      modifies this`sessions, this`issued
      ensures sessions == DeliverAll(old(sessions), replies) && issued == old(issued) + replies
    {
      for i := 0 to |replies|
        invariant sessions == DeliverAll(old(sessions), replies[..i]) && issued == old(issued) + replies[..i]
      {
        Respond(replies[i]);
        assert replies[..i + 1] == replies[..i] + [replies[i]];
        DeliverOneMore(old(sessions), replies[..i], replies[i]);
      }
      assert replies[..|replies|] == replies;
    }

    method CountPeers() returns (count: nat)
      ensures count == PeerCount(nodePeers)
    {
      count := 0;
      var left := nodePeers.Keys;
      assert nodePeers - (nodePeers.Keys - left) == nodePeers;
      while left != {}
        invariant left <= nodePeers.Keys
        invariant count + PeerCount(nodePeers - (nodePeers.Keys - left)) == PeerCount(nodePeers)
        decreases |left|
      {
        var node :| node in left;
        ghost var rest := nodePeers - (nodePeers.Keys - left);
        PeerCountRemove(rest, node);
        assert rest - {node} == nodePeers - (nodePeers.Keys - (left - {node}));
        count := count + |nodePeers[node]|;
        left := left - {node};
      }
    }

    // The membership without one member, the group failed.
    method DropMember(session: SessionId)
      requires session in registeredNodes
      modifies `registeredNodes, `nodeAddresses, `nodePeers, `numGlobalPeers, `failed
      ensures var node := old(registeredNodes)[session];
        && registeredNodes == old(registeredNodes) - {session} && nodeAddresses == old(nodeAddresses) - {node}
        && nodePeers == old(nodePeers) - {node} && numGlobalPeers == PeerCount(old(nodePeers) - {node})
        && failed == Some(PeerLost(node))
    {
      var node := registeredNodes[session];
      registeredNodes := registeredNodes - {session};
      nodeAddresses := nodeAddresses - {node};
      nodePeers := nodePeers - {node};
      numGlobalPeers := CountPeers();
      failed := Some(PeerLost(node));
    }

    // Everyone who was waiting hears which member was lost.
    method FailWaiters(node: NodeId)
      modifies `pendingCollectives, `registerRequests, `sessions, `issued
      ensures pendingCollectives == [] && registerRequests == []
      ensures issued == old(issued) + LossReplies(old(Snapshot()), node)
      ensures sessions == DeliverAll(old(sessions), LossReplies(old(Snapshot()), node))
    {
      var toPending := AnswersToPending(pendingCollectives, Error(PeerLost(node)));
      var toRegistering := ErrorsToRegistering(registerRequests, PeerLost(node));
      pendingCollectives, registerRequests := [], [];
      RespondAll(toPending);
      RespondAll(toRegistering);
      DeliverInTurn(old(sessions), toPending, toRegistering);
    }

    method StartOverIfEmpty()
      modifies `curNumNodes, `nextNodeId, `failed
      ensures Snapshot() == ResetIfEmpty(old(Snapshot()))
    {
      if registeredNodes == map[] {
        curNumNodes, nextNodeId, failed := None, 0, None;
      }
    }

    method RemoveMember(session: SessionId)
      requires session in registeredNodes
      modifies this
      ensures Snapshot() == Expel(old(Snapshot()), session)
      ensures issued == old(issued) + LossReplies(old(Snapshot()), old(registeredNodes)[session])
      ensures sessions == DeliverAll(old(sessions), LossReplies(old(Snapshot()), old(registeredNodes)[session]))
    {
      var node := registeredNodes[session];
      DropMember(session);
      assert AnswersToPending(pendingCollectives, Error(PeerLost(node))) ==
        AnswersToPending(old(pendingCollectives), Error(PeerLost(node)));
      FailWaiters(node);
      StartOverIfEmpty();
    }

    method Disconnect(session: SessionId)
      requires Valid()
      modifies this
      ensures Valid() && Snapshot() == DoDisconnect(old(Snapshot()), session).0
      ensures issued == old(issued) + DoDisconnect(old(Snapshot()), session).1
      ensures sessions == DeliverAll(old(sessions), DoDisconnect(old(Snapshot()), session).1) - {session}
    {
      DisconnectInv(Snapshot(), session);
      CloseSession(session);
    }

    method CloseSession(session: SessionId)
      modifies this
      ensures Snapshot() == DoDisconnect(old(Snapshot()), session).0
      ensures issued == old(issued) + DoDisconnect(old(Snapshot()), session).1
      ensures sessions == DeliverAll(old(sessions), DoDisconnect(old(Snapshot()), session).1) - {session}
    {
      RemoveIfMember(session);
      sessions := sessions - {session};
      StartOverIfEmpty();
    }

    method RemoveIfMember(session: SessionId)
      modifies this
      ensures ResetIfEmpty(Snapshot()) == DoDisconnect(old(Snapshot()), session).0
      ensures issued == old(issued) + DoDisconnect(old(Snapshot()), session).1
      ensures sessions == DeliverAll(old(sessions), DoDisconnect(old(Snapshot()), session).1)
    {
      if session in registeredNodes {
        RemoveMember(session);
      }
    }

    // Finish, register and begin answer their own failures through ProcessRequest.
    method Finish(session: SessionId, request: RequestId) returns (result: Result<(), GlobalError>)
      requires Valid()
      modifies this
      ensures Valid()
      ensures result.Ok? <==> session in old(registeredNodes)
      ensures result.Err? ==> result.error == NotRegisteredOnFinish && Snapshot() == old(Snapshot())
      ensures result.Err? ==> issued == old(issued) && sessions == old(sessions)
      ensures result.Ok? ==> Snapshot() == DoFinish(old(Snapshot()), session, request).0
      ensures result.Ok? ==> issued == old(issued) + DoFinish(old(Snapshot()), session, request).1
      ensures result.Ok? ==> sessions == DeliverAll(old(sessions), DoFinish(old(Snapshot()), session, request).1)
    {
      if session !in registeredNodes { return Err(NotRegisteredOnFinish); }
      ExpelInv(Snapshot(), session);
      FinishMember(session, request);
      result := Ok(());
    }

    method FinishMember(session: SessionId, request: RequestId)
      requires session in registeredNodes
      modifies this
      ensures Snapshot() == DoFinish(old(Snapshot()), session, request).0
      ensures issued == old(issued) + DoFinish(old(Snapshot()), session, request).1
      ensures sessions == DeliverAll(old(sessions), DoFinish(old(Snapshot()), session, request).1)
    {
      ghost var replies := LossReplies(Snapshot(), registeredNodes[session]);
      RemoveMember(session);
      Respond(Reply(session, request, FinishAck));
      DeliverOneMore(old(sessions), replies, Reply(session, request, FinishAck));
    }

    method FindDuplicate(peers: seq<PeerId>) returns (duplicate: Option<PeerId>)
      ensures duplicate == DuplicateFrom(peers, nodePeers, 0)
    {
      var seen: set<PeerId> := {};
      for i := 0 to |peers|
        invariant forall p :: p in seen <==> p in peers[..i]
        invariant DuplicateFrom(peers, nodePeers, i) == DuplicateFrom(peers, nodePeers, 0)
      {
        if peers[i] in seen || exists n | n in nodePeers :: peers[i] in nodePeers[n] {
          return Some(peers[i]);
        }
        seen := seen + {peers[i]};
      }
      duplicate := None;
    }

    method Register(session: SessionId, request: RequestId, address: Address, numNodes: nat, peers: seq<PeerId>)
      returns (result: Result<(), GlobalError>)
      requires Valid() && failed.None?
      modifies this
      ensures Valid() && result == CheckRegister(old(Snapshot()), session, address, numNodes, peers)
      ensures result.Err? ==> Snapshot() == old(Snapshot()) && issued == old(issued) && sessions == old(sessions)
      ensures result.Ok? ==> Snapshot() == DoRegister(old(Snapshot()), session, request, address, numNodes, peers).0
      ensures result.Ok? ==> issued == old(issued) + DoRegister(old(Snapshot()), session, request, address, numNodes, peers).1
      ensures result.Ok? ==>
        sessions == DeliverAll(old(sessions), DoRegister(old(Snapshot()), session, request, address, numNodes, peers).1)
    {
      if numNodes == 0 || peers == [] { return Err(RegisterParamsMismatch); }
      if session in registeredNodes || address in nodeAddresses.Values { return Err(DoubleRegister); }
      if registeredNodes != map[] && registerRequests == [] { return Err(RegisterParamsMismatch); }
      var duplicate := FindDuplicate(peers);
      if duplicate.Some? { return Err(DuplicatePeer(duplicate.value)); }
      if curNumNodes.Some? && curNumNodes.value != numNodes { return Err(RegisterParamsMismatch); }
      RegisterInv(Snapshot(), session, request, address, numNodes, peers);
      AdmitMember(session, request, address, numNodes, peers);
      AnswerRegistrations(numNodes);
      result := Ok(());
    }

    method AdmitMember(session: SessionId, request: RequestId, address: Address, numNodes: nat, peers: seq<PeerId>)
      requires curNumNodes.Some? ==> curNumNodes.value == numNodes
      modifies this
      ensures Snapshot() == Admit(old(Snapshot()), session, request, address, numNodes, peers)
      ensures issued == old(issued) && sessions == old(sessions)
    {
      if curNumNodes.None? { curNumNodes := Some(numNodes); }
      numGlobalPeers := numGlobalPeers + |peers|;
      var node := nextNodeId;
      nextNodeId := nextNodeId + 1;
      registeredNodes := registeredNodes[session := node];
      nodeAddresses := nodeAddresses[node := address];
      nodePeers := nodePeers[node := peers];
      registerRequests := registerRequests + [RegisterRequest(session, request, node)];
    }

    method AnswerRegistrations(numNodes: nat)
      requires curNumNodes == Some(numNodes)
      modifies this
      ensures Snapshot() == CompleteRegistration(old(Snapshot())).0
      ensures issued == old(issued) + CompleteRegistration(old(Snapshot())).1
      ensures sessions == DeliverAll(old(sessions), CompleteRegistration(old(Snapshot())).1)
    {
      if |registeredNodes| == numNodes {
        var callbacks := registerRequests;
        registerRequests := [];
        RespondAll(Acknowledge(callbacks, nodeAddresses, numGlobalPeers));
      }
    }

    method Begin(session: SessionId, request: RequestId, spec: CollectiveSpec) returns (result: Result<(), GlobalError>)
      requires Valid() && failed.None?
      modifies this
      ensures Valid() && result == CheckBegin(old(Snapshot()), session)
      ensures result.Err? ==> Snapshot() == old(Snapshot()) && issued == old(issued) && sessions == old(sessions)
      ensures result.Ok? ==> Snapshot() == DoBegin(old(Snapshot()), session, request, spec).0
      ensures result.Ok? ==> issued == old(issued) + DoBegin(old(Snapshot()), session, request, spec).1
      ensures result.Ok? ==> sessions == DeliverAll(old(sessions), DoBegin(old(Snapshot()), session, request, spec).1)
    {
      var expected := if curNumNodes.Some? then curNumNodes.value else 0;
      if session !in registeredNodes || registerRequests != [] || |registeredNodes| != expected {
        return Err(CollectiveBeforeRegister);
      }
      if HasPending(pendingCollectives, session) { return Err(CollectiveParamsMismatch); }
      BeginInv(Snapshot(), session, request, spec);
      SubmitWaiters(Snapshot(), PendingCollective(session, request, spec));
      pendingCollectives := pendingCollectives + [PendingCollective(session, request, spec)];
      assert Snapshot() == Submitted(old(Snapshot()), session, request, spec);
      if |pendingCollectives| == |registeredNodes| { CompleteRound(); }
      result := Ok(());
    }

    method CompleteRound()
      requires WaitersRegistered(Snapshot()) && Distinct(Snapshot()) && MembersAgree(Snapshot())
      modifies this
      ensures Snapshot() == FinishRound(old(Snapshot())).0
      ensures var replies := AnswersToPending(old(pendingCollectives), FinishRound(old(Snapshot())).1);
        issued == old(issued) + replies && sessions == DeliverAll(old(sessions), replies)
    {
      var requests := pendingCollectives;
      pendingCollectives := [];
      var agreed := AgreeCollective(SpecsOf(registeredNodes, requests), nodePeers);
      var content;
      match agreed {
        case Ok(root) =>
          content := BeginAck(root, nextTransferId);
          nextTransferId := nextTransferId + 1;
        case Err(error) => content := Error(error);
      }
      RespondAll(AnswersToPending(requests, content));
    }

    // What the request asks for; a refusal leaves everything as it was.
    method Dispatch(session: SessionId, request: RequestId, body: Request) returns (result: Result<(), GlobalError>)
      requires Valid() && (failed.None? || body.Finish?)
      modifies this
      ensures Valid()
      ensures result.Err? ==> Snapshot() == old(Snapshot()) && issued == old(issued) && sessions == old(sessions)
      ensures result.Err? ==> Process(old(Snapshot()), session, request, body) == (old(Snapshot()), [Reply(session, request, Error(result.error))])
      ensures result.Ok? ==> Snapshot() == Process(old(Snapshot()), session, request, body).0
      ensures result.Ok? ==> issued == old(issued) + Process(old(Snapshot()), session, request, body).1
      ensures result.Ok? ==> sessions == DeliverAll(old(sessions), Process(old(Snapshot()), session, request, body).1)
    {
      match body {
        case Register(address, numNodes, peers) => result := Register(session, request, address, numNodes, peers);
        case Begin(spec) => result := Begin(session, request, spec);
        case Finish => result := Finish(session, request);
      }
    }

    method ProcessRequest(session: SessionId, request: RequestId, body: Request)
      requires Valid()
      modifies this
      ensures Valid() && Snapshot() == Process(old(Snapshot()), session, request, body).0
      ensures issued == old(issued) + Process(old(Snapshot()), session, request, body).1
      ensures sessions == DeliverAll(old(sessions), Process(old(Snapshot()), session, request, body).1)
    {
      if failed.Some? && !body.Finish? {
        DeliverOne(sessions, Reply(session, request, Error(failed.value)));
        Respond(Reply(session, request, Error(failed.value)));
        return;
      }
      var result := Dispatch(session, request, body);
      if result.Err? {
        DeliverOne(sessions, Reply(session, request, Error(result.error)));
        Respond(Reply(session, request, Error(result.error)));
      }
    }
  }
}
