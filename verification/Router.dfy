// src/rank/network.rs: the coordinator's point-to-point router, with wildcard receives.
module Router {
  import opened Wrappers
  import opened FrameCodec

  // What the router reads of a frame. ANY_RANK is an absent destination: on a receive it accepts every
  // source.
  datatype Message = Message(
    uniqueId: nat, worldSize: nat, opcode: Opcode, elementType: ElementType, elementCount: nat,
    sourceRank: nat, destinationRank: Option<nat>, rootRank: Option<nat>, tag: nat, sequence: nat, payload: seq<nat>)

  datatype NetworkError = WrongSession | InvalidConfiguration | RemoteAbort

  // A send answers a receive of its destination, for its tag, from its source or from anyone.
  predicate Matches(send: Message, receive: Message) {
    && send.destinationRank == Some(receive.sourceRank)
    && (receive.destinationRank.None? || receive.destinationRank == Some(send.sourceRank))
    && send.tag == receive.tag
  }

  predicate IsEmptyControl(frame: Message) {
    frame.destinationRank.None? && frame.elementType.NoElement? && frame.elementCount == 0 && frame.payload == []
  }

  function CheckRequest(frame: Message, uniqueId: nat, worldSize: nat, connectionRank: nat): Result<(), NetworkError> {
    if frame.uniqueId != uniqueId then Err(WrongSession)
    else if frame.worldSize != worldSize || frame.sourceRank != connectionRank then Err(InvalidConfiguration)
    else if frame.rootRank.Some? then Err(InvalidConfiguration)
    else
      match frame.opcode
      case Send => if frame.destinationRank.None? then Err(InvalidConfiguration) else Ok(())
      case Receive => if frame.payload != [] then Err(InvalidConfiguration) else Ok(())
      case Abort =>
        if frame.destinationRank.Some? || frame.elementType != U8 || frame.payload == [] then Err(InvalidConfiguration) else Ok(())
      case Heartbeat => if IsEmptyControl(frame) then Ok(()) else Err(InvalidConfiguration)
      case Leave => if IsEmptyControl(frame) then Ok(()) else Err(InvalidConfiguration)
      case _ => Err(InvalidConfiguration)
  }

  function Acknowledgement(send: Message): Message {
    Message(send.uniqueId, send.worldSize, Send, NoElement, 0, send.sourceRank, Some(send.sourceRank), None, send.tag, send.sequence, [])
  }

  function HeartbeatResponse(beat: Message): Message {
    Message(beat.uniqueId, beat.worldSize, Heartbeat, NoElement, 0, beat.sourceRank, Some(beat.sourceRank), None, 0, beat.sequence, [])
  }

  function Delivery(send: Message, receive: Message): Message {
    Message(send.uniqueId, send.worldSize, Receive, send.elementType, send.elementCount, send.sourceRank,
          Some(receive.sourceRank), None, send.tag, receive.sequence, send.payload)
  }

  predicate Agrees(send: Message, receive: Message) {
    send.elementType == receive.elementType && send.elementCount == receive.elementCount
  }

  // ---- the routing rule on numbered requests -----------------------------------------------------

  // An accepted send or receive with its arrival number.
  datatype Ticket = Ticket(id: nat, frame: Message)

  datatype Log = Log(sends: seq<Ticket>, receives: seq<Ticket>, matched: seq<(Ticket, Ticket)>, arrivals: nat)

  function FirstMatchingReceive(send: Message, receives: seq<Ticket>): (i: nat)
    ensures i <= |receives|
    ensures i < |receives| ==> Matches(send, receives[i].frame)
    ensures forall j | 0 <= j < i :: !Matches(send, receives[j].frame)
  {
    if receives == [] then 0
    else if Matches(send, receives[0].frame) then 0
    else
      var i := FirstMatchingReceive(send, receives[1..]);
      assert forall j | 0 < j < i + 1 :: receives[j] == receives[1..][j - 1];
      i + 1
  }

  function FirstMatchingSend(receive: Message, sends: seq<Ticket>): (i: nat)
    ensures i <= |sends|
    ensures i < |sends| ==> Matches(sends[i].frame, receive)
    ensures forall j | 0 <= j < i :: !Matches(sends[j].frame, receive)
  {
    if sends == [] then 0
    else if Matches(sends[0].frame, receive) then 0
    else
      var i := FirstMatchingSend(receive, sends[1..]);
      assert forall j | 0 < j < i + 1 :: sends[j] == sends[1..][j - 1];
      i + 1
  }

  function Without<T>(s: seq<T>, i: nat): seq<T>
    requires i < |s|
  {
    s[..i] + s[i + 1..]
  }

  // What one accepted send or receive does to the two queues.
  function Accept(log: Log, frame: Message): Log {
    var ticket := Ticket(log.arrivals, frame);
    if frame.opcode.Send? then
      var i := FirstMatchingReceive(frame, log.receives);
      if i < |log.receives| then
        log.(receives := Without(log.receives, i), matched := log.matched + [(ticket, log.receives[i])], arrivals := log.arrivals + 1)
      else
        log.(sends := log.sends + [ticket], arrivals := log.arrivals + 1)
    else
      var i := FirstMatchingSend(frame, log.sends);
      if i < |log.sends| then
        log.(sends := Without(log.sends, i), matched := log.matched + [(log.sends[i], ticket)], arrivals := log.arrivals + 1)
      else
        log.(receives := log.receives + [ticket], arrivals := log.arrivals + 1)
  }

  // The queues after any history of accepted sends and receives.
  function Run(history: seq<Message>): Log {
    if history == [] then Log([], [], [], 0) else Accept(Run(history[..|history| - 1]), history[|history| - 1])
  }

  lemma RunSnoc(history: seq<Message>, frame: Message)
    ensures Run(history + [frame]) == Accept(Run(history), frame)
  {
    assert (history + [frame])[..|history|] == history;
  }

  ghost predicate IsHistory(history: seq<Message>) {
    forall i | 0 <= i < |history| :: history[i].opcode.Send? || history[i].opcode.Receive?
  }

  // ---- what holds after every history ------------------------------------------------------------

  ghost predicate Increasing(queue: seq<Ticket>, below: nat) {
    && (forall i, j | 0 <= i < j < |queue| :: queue[i].id < queue[j].id)
    && (forall i | 0 <= i < |queue| :: queue[i].id < below)
  }

  ghost predicate NothingMatches(sends: seq<Ticket>, receives: seq<Ticket>) {
    forall i, j | 0 <= i < |sends| && 0 <= j < |receives| :: !Matches(sends[i].frame, receives[j].frame)
  }

  // Same source, destination and tag; same owner, wanted source and tag.
  predicate SameRoute(a: Message, b: Message) {
    a.sourceRank == b.sourceRank && a.destinationRank == b.destinationRank && a.tag == b.tag
  }

  // Deliveries on one route leave in arrival order, and nothing still queued is older.
  ghost predicate SendsInOrder(log: Log) {
    && (forall k, l | 0 <= k < l < |log.matched| && SameRoute(log.matched[k].0.frame, log.matched[l].0.frame) ::
         log.matched[k].0.id < log.matched[l].0.id)
    && (forall k, i | 0 <= k < |log.matched| && 0 <= i < |log.sends| && SameRoute(log.matched[k].0.frame, log.sends[i].frame) ::
         log.matched[k].0.id < log.sends[i].id)
  }

  ghost predicate ReceivesInOrder(log: Log) {
    && (forall k, l | 0 <= k < l < |log.matched| && SameRoute(log.matched[k].1.frame, log.matched[l].1.frame) ::
         log.matched[k].1.id < log.matched[l].1.id)
    && (forall k, i | 0 <= k < |log.matched| && 0 <= i < |log.receives| && SameRoute(log.matched[k].1.frame, log.receives[i].frame) ::
         log.matched[k].1.id < log.receives[i].id)
  }

  lemma WithoutKeeps(queue: seq<Ticket>, i: nat, below: nat)
    requires Increasing(queue, below) && i < |queue|
    ensures Increasing(Without(queue, i), below)
    ensures forall j | 0 <= j < |Without(queue, i)| :: Without(queue, i)[j] == queue[if j < i then j else j + 1]
  {
  }

  ghost predicate QueuesInv(log: Log) {
    && Increasing(log.sends, log.arrivals) && Increasing(log.receives, log.arrivals)
    && NothingMatches(log.sends, log.receives)
    && (forall k | 0 <= k < |log.matched| ::
         Matches(log.matched[k].0.frame, log.matched[k].1.frame) && log.matched[k].0.id < log.arrivals && log.matched[k].1.id < log.arrivals)
  }

  lemma SendQueues(log: Log, frame: Message)
    requires QueuesInv(log) && frame.opcode.Send?
    ensures QueuesInv(Accept(log, frame))
  {
    var i := FirstMatchingReceive(frame, log.receives);
    if i < |log.receives| { WithoutKeeps(log.receives, i, log.arrivals); }
  }

  lemma ReceiveQueues(log: Log, frame: Message)
    requires QueuesInv(log) && frame.opcode.Receive?
    ensures QueuesInv(Accept(log, frame))
  {
    var i := FirstMatchingSend(frame, log.sends);
    if i < |log.sends| { WithoutKeeps(log.sends, i, log.arrivals); }
  }

  lemma SendKeepsSendOrder(log: Log, frame: Message)
    requires QueuesInv(log) && SendsInOrder(log) && frame.opcode.Send?
    ensures SendsInOrder(Accept(log, frame))
  {
    var i := FirstMatchingReceive(frame, log.receives);
    if i < |log.receives| {
      // a queued send on the same route would have matched this receive already
      assert forall j | 0 <= j < |log.sends| :: !SameRoute(frame, log.sends[j].frame);
    }
  }

  lemma SendKeepsReceiveOrder(log: Log, frame: Message)
    requires QueuesInv(log) && ReceivesInOrder(log) && frame.opcode.Send?
    ensures ReceivesInOrder(Accept(log, frame))
  {
    var i := FirstMatchingReceive(frame, log.receives);
    if i < |log.receives| {
      WithoutKeeps(log.receives, i, log.arrivals);
      // an older receive on the same route would have been the first match
      assert forall j | 0 <= j < |log.receives| && SameRoute(log.receives[i].frame, log.receives[j].frame) :: i <= j;
    }
  }

  lemma ReceiveKeepsSendOrder(log: Log, frame: Message)
    requires QueuesInv(log) && SendsInOrder(log) && frame.opcode.Receive?
    ensures SendsInOrder(Accept(log, frame))
  {
    var i := FirstMatchingSend(frame, log.sends);
    if i < |log.sends| {
      WithoutKeeps(log.sends, i, log.arrivals);
      assert forall j | 0 <= j < |log.sends| && SameRoute(log.sends[i].frame, log.sends[j].frame) :: i <= j;
    }
  }

  lemma ReceiveKeepsReceiveOrder(log: Log, frame: Message)
    requires QueuesInv(log) && ReceivesInOrder(log) && frame.opcode.Receive?
    ensures ReceivesInOrder(Accept(log, frame))
  {
    var i := FirstMatchingSend(frame, log.sends);
    if i < |log.sends| {
      assert forall j | 0 <= j < |log.receives| :: !SameRoute(frame, log.receives[j].frame);
    }
  }

  // After every history: a matched pair has one tag, the send is addressed to the receiver, and the
  // receive asks for the sender or for anyone; no queued pair has all three; and both sends and receives
  // of one route are matched in arrival order, wildcards or not.
  lemma RunInv(history: seq<Message>)
    requires IsHistory(history)
    ensures SendsInOrder(Run(history)) && ReceivesInOrder(Run(history))
    ensures forall k | 0 <= k < |Run(history).matched| ::
      var (send, receive) := (Run(history).matched[k].0.frame, Run(history).matched[k].1.frame);
      && send.tag == receive.tag && send.destinationRank == Some(receive.sourceRank)
      && receive.destinationRank in {None, Some(send.sourceRank)}
    ensures forall i, j | 0 <= i < |Run(history).sends| && 0 <= j < |Run(history).receives| ::
      var (send, receive) := (Run(history).sends[i].frame, Run(history).receives[j].frame);
      send.tag != receive.tag || send.destinationRank != Some(receive.sourceRank) ||
      receive.destinationRank !in {None, Some(send.sourceRank)}
    ensures forall i | 0 <= i < |Run(history).sends| :: Run(history).sends[i].frame.opcode.Send?
    ensures forall j | 0 <= j < |Run(history).receives| :: Run(history).receives[j].frame.opcode.Receive?
  {
    QueuesHold(history);
    QueuedKinds(history);
    var log := Run(history);
    forall i, j | 0 <= i < |log.sends| && 0 <= j < |log.receives|
      ensures !Matches(log.sends[i].frame, log.receives[j].frame)
    {
      assert NothingMatches(log.sends, log.receives);
    }
  }

  lemma {:induction false} QueuedKinds(history: seq<Message>)
    requires IsHistory(history)
    ensures forall i | 0 <= i < |Run(history).sends| :: Run(history).sends[i].frame.opcode.Send?
    ensures forall j | 0 <= j < |Run(history).receives| :: Run(history).receives[j].frame.opcode.Receive?
  {
    if history != [] { QueuedKinds(history[..|history| - 1]); }
  }

  lemma {:induction false} QueuesHold(history: seq<Message>)
    requires IsHistory(history)
    ensures QueuesInv(Run(history)) && Run(history).arrivals == |history|
    ensures SendsInOrder(Run(history)) && ReceivesInOrder(Run(history))
  {
    if history != [] {
      var front := history[..|history| - 1];
      QueuesHold(front);
      var log, frame := Run(front), history[|history| - 1];
      if frame.opcode.Send? {
        SendQueues(log, frame);
        SendKeepsSendOrder(log, frame);
        SendKeepsReceiveOrder(log, frame);
      } else {
        ReceiveQueues(log, frame);
        ReceiveKeepsSendOrder(log, frame);
        ReceiveKeepsReceiveOrder(log, frame);
      }
    }
  }

  // ---- conservation ------------------------------------------------------------------------------

  function Firsts(matched: seq<(Ticket, Ticket)>): seq<Ticket> {
    if matched == [] then [] else Firsts(matched[..|matched| - 1]) + [matched[|matched| - 1].0]
  }

  function Seconds(matched: seq<(Ticket, Ticket)>): seq<Ticket> {
    if matched == [] then [] else Seconds(matched[..|matched| - 1]) + [matched[|matched| - 1].1]
  }

  // Where the router keeps its tickets: waiting, or matched.
  function Holdings(log: Log): multiset<Ticket> {
    multiset(log.sends) + multiset(log.receives) + multiset(Firsts(log.matched)) + multiset(Seconds(log.matched))
  }

  function Tickets(history: seq<Message>): seq<Ticket> {
    seq(|history|, i requires 0 <= i < |history| => Ticket(i, history[i]))
  }

  lemma WithoutMultiset(queue: seq<Ticket>, i: nat)
    requires i < |queue|
    ensures multiset(queue) == multiset(Without(queue, i)) + multiset{queue[i]}
  {
    assert queue == queue[..i] + [queue[i]] + queue[i + 1..];
  }

  lemma MatchedSnoc(matched: seq<(Ticket, Ticket)>, pair: (Ticket, Ticket))
    ensures multiset(Firsts(matched + [pair])) == multiset(Firsts(matched)) + multiset{pair.0}
    ensures multiset(Seconds(matched + [pair])) == multiset(Seconds(matched)) + multiset{pair.1}
  {
    assert (matched + [pair])[..|matched|] == matched;
  }

  lemma Moved(rest: multiset<Ticket>, before: multiset<Ticket>, after: multiset<Ticket>, firsts: multiset<Ticket>, seconds: multiset<Ticket>,
              a: Ticket, b: Ticket, queued: Ticket, arrived: Ticket)
    requires before == after + multiset{queued} && multiset{a} + multiset{b} == multiset{queued} + multiset{arrived}
    ensures rest + after + (firsts + multiset{a}) + (seconds + multiset{b}) == rest + before + firsts + seconds + multiset{arrived}
  {
    forall x ensures (rest + after + (firsts + multiset{a}) + (seconds + multiset{b}))[x] ==
      (rest + before + firsts + seconds + multiset{arrived})[x]
    {
      assert before[x] == (after + multiset{queued})[x];
      assert (multiset{a} + multiset{b})[x] == (multiset{queued} + multiset{arrived})[x];
    }
  }

  lemma SendHoldings(log: Log, frame: Message)
    requires frame.opcode.Send?
    ensures Holdings(Accept(log, frame)) == Holdings(log) + multiset{Ticket(log.arrivals, frame)}
  {
    var i, ticket := FirstMatchingReceive(frame, log.receives), Ticket(log.arrivals, frame);
    if i < |log.receives| {
      WithoutMultiset(log.receives, i);
      MatchedSnoc(log.matched, (ticket, log.receives[i]));
      Moved(multiset(log.sends), multiset(log.receives), multiset(Without(log.receives, i)), multiset(Firsts(log.matched)),
            multiset(Seconds(log.matched)), ticket, log.receives[i], log.receives[i], ticket);
    } else {
      assert multiset(log.sends + [ticket]) == multiset(log.sends) + multiset{ticket};
    }
  }

  lemma ReceiveHoldings(log: Log, frame: Message)
    requires frame.opcode.Receive?
    ensures Holdings(Accept(log, frame)) == Holdings(log) + multiset{Ticket(log.arrivals, frame)}
  {
    var i, ticket := FirstMatchingSend(frame, log.sends), Ticket(log.arrivals, frame);
    if i < |log.sends| {
      WithoutMultiset(log.sends, i);
      MatchedSnoc(log.matched, (log.sends[i], ticket));
      Moved(multiset(log.receives), multiset(log.sends), multiset(Without(log.sends, i)), multiset(Firsts(log.matched)),
            multiset(Seconds(log.matched)), log.sends[i], ticket, log.sends[i], ticket);
    } else {
      assert multiset(log.receives + [ticket]) == multiset(log.receives) + multiset{ticket};
    }
  }

  lemma TicketsSnoc(history: seq<Message>, frame: Message)
    ensures multiset(Tickets(history + [frame])) == multiset(Tickets(history)) + multiset{Ticket(|history|, frame)}
  {
    assert Tickets(history + [frame]) == Tickets(history) + [Ticket(|history|, frame)];
  }

  lemma HoldingsStep(log: Log, history: seq<Message>, frame: Message)
    requires log.arrivals == |history| && Holdings(log) == multiset(Tickets(history))
    requires frame.opcode.Send? || frame.opcode.Receive?
    ensures Holdings(Accept(log, frame)) == multiset(Tickets(history + [frame]))
  {
    if frame.opcode.Send? { SendHoldings(log, frame); } else { ReceiveHoldings(log, frame); }
    TicketsSnoc(history, frame);
  }

  ghost predicate Conserved(log: Log, history: seq<Message>) {
    log.arrivals == |history| && Holdings(log) == multiset(Tickets(history))
  }

  lemma ConservedSnoc(history: seq<Message>, frame: Message)
    requires Conserved(Run(history), history) && (frame.opcode.Send? || frame.opcode.Receive?)
    ensures Conserved(Run(history + [frame]), history + [frame])
  {
    RunSnoc(history, frame);
    HoldingsStep(Run(history), history, frame);
  }

  // Every accepted send and receive is queued once or matched once, and nothing else is held.
  lemma {:induction false} NothingIsLostOrDuplicated(history: seq<Message>)
    requires IsHistory(history)
    ensures Conserved(Run(history), history)
  {
    if history == [] {
      assert Tickets(history) == [];
    } else {
      var front, last := history[..|history| - 1], history[|history| - 1];
      assert front + [last] == history;
      NothingIsLostOrDuplicated(front);
      ConservedSnoc(front, last);
    }
  }

  // ---- the router object -------------------------------------------------------------------------

  function FramesOf(queue: seq<Ticket>): seq<Message> {
    seq(|queue|, i requires 0 <= i < |queue| => queue[i].frame)
  }

  // The frames a matched pair causes to be written, and the result of the request that completed it.
  function PairOutcome(send: Message, receive: Message): (seq<(nat, Message)>, Result<(), NetworkError>) {
    if Agrees(send, receive) then ([(receive.sourceRank, Delivery(send, receive))], Ok(()))
    else ([], Err(InvalidConfiguration))
  }

  function SendOutcome(log: Log, frame: Message): (seq<(nat, Message)>, Result<(), NetworkError>) {
    var i, ack := FirstMatchingReceive(frame, log.receives), [(frame.sourceRank, Acknowledgement(frame))];
    if i == |log.receives| then (ack, Ok(()))
    else
      var pair := PairOutcome(frame, log.receives[i].frame);
      (ack + pair.0, pair.1)
  }

  function ReceiveOutcome(log: Log, frame: Message): (seq<(nat, Message)>, Result<(), NetworkError>) {
    var i := FirstMatchingSend(frame, log.sends);
    if i == |log.sends| then ([], Ok(())) else PairOutcome(log.sends[i].frame, frame)
  }

  function Outcome(log: Log, frame: Message, uniqueId: nat, worldSize: nat, connectionRank: nat): (seq<(nat, Message)>, Result<(), NetworkError>) {
    var checked := CheckRequest(frame, uniqueId, worldSize, connectionRank);
    if checked.Err? then ([], checked)
    else
      match frame.opcode
      case Send => SendOutcome(log, frame)
      case Receive => ReceiveOutcome(log, frame)
      case Heartbeat => ([(connectionRank, HeartbeatResponse(frame))], Ok(()))
      case Leave => ([], Ok(()))
      case Abort => ([], Err(RemoteAbort))
      case _ => ([], Ok(()))
  }

  lemma FramesSnoc(queue: seq<Ticket>, ticket: Ticket)
    ensures FramesOf(queue + [ticket]) == FramesOf(queue) + [ticket.frame]
  {
  }

  lemma FramesWithout(queue: seq<Ticket>, i: nat)
    requires i < |queue|
    ensures FramesOf(Without(queue, i)) == FramesOf(queue)[..i] + FramesOf(queue)[i + 1..]
  {
  }

  // An accepted send or receive that finds a match takes it out of the other queue.
  lemma SendTakes(log: Log, frame: Message, i: nat)
    requires frame.opcode.Send? && i == FirstMatchingReceive(frame, log.receives) < |log.receives|
    ensures FramesOf(Accept(log, frame).receives) == FramesOf(log.receives)[..i] + FramesOf(log.receives)[i + 1..]
    ensures Accept(log, frame).sends == log.sends
  {
    FramesWithout(log.receives, i);
  }

  lemma ReceiveTakes(log: Log, frame: Message, i: nat)
    requires frame.opcode.Receive? && i == FirstMatchingSend(frame, log.sends) < |log.sends|
    ensures FramesOf(Accept(log, frame).sends) == FramesOf(log.sends)[..i] + FramesOf(log.sends)[i + 1..]
    ensures Accept(log, frame).receives == log.receives
  {
    FramesWithout(log.sends, i);
  }

  class PointToPointRouter {
    const uniqueId: nat
    const worldSize: nat
    var sends: seq<Message>
    var receives: seq<Message>
    // what was written to each rank's stream, in order
    var written: seq<(nat, Message)>
    // the sends and receives accepted so far
    ghost var history: seq<Message>
    ghost var log: Log

    ghost predicate Valid()
      reads this
    {
      && IsHistory(history) && log == Run(history)
      && sends == FramesOf(log.sends)
      && receives == FramesOf(log.receives)
    }

    constructor (uniqueId: nat, worldSize: nat)
      ensures Valid() && history == [] && written == [] && this.uniqueId == uniqueId && this.worldSize == worldSize
    {
      this.uniqueId := uniqueId;
      this.worldSize := worldSize;
      this.sends, this.receives, this.written := [], [], [];
      this.history, this.log := [], Run([]);
    }

    method PositionOfReceive(send: Message) returns (index: nat)
      requires Valid()
      ensures index == FirstMatchingReceive(send, log.receives)
    {
      ghost var queue := log.receives;
      index := 0;
      while index < |receives| && !Matches(send, receives[index])
        invariant index <= |receives| && forall j | 0 <= j < index :: !Matches(send, receives[j])
      {
        index := index + 1;
      }
      assert forall j | 0 <= j < |queue| :: receives[j] == queue[j].frame;
    }

    method PositionOfSend(receive: Message) returns (index: nat)
      requires Valid()
      ensures index == FirstMatchingSend(receive, log.sends)
    {
      ghost var queue := log.sends;
      index := 0;
      while index < |sends| && !Matches(sends[index], receive)
        invariant index <= |sends| && forall j | 0 <= j < index :: !Matches(sends[j], receive)
      {
        index := index + 1;
      }
      assert forall j | 0 <= j < |queue| :: sends[j] == queue[j].frame;
    }

    // A send is acknowledged as soon as it is accepted. A matched pair whose element contracts differ is
    // dropped and ends the group with an error.
    method RouteRequest(connectionRank: nat, frame: Message) returns (result: Result<(), NetworkError>)
      requires Valid()
      modifies this
      ensures Valid()
      ensures written == old(written) + Outcome(old(log), frame, uniqueId, worldSize, connectionRank).0
      ensures result == Outcome(old(log), frame, uniqueId, worldSize, connectionRank).1
      ensures history == old(history) +
        (if CheckRequest(frame, uniqueId, worldSize, connectionRank).Ok? && (frame.opcode.Send? || frame.opcode.Receive?) then [frame] else [])
    {
      result := CheckRequest(frame, uniqueId, worldSize, connectionRank);
      if result.Err? { return; }
      match frame.opcode {
        case Send => result := RouteSend(frame);
        case Receive => result := RouteReceive(frame);
        case Heartbeat => written := written + [(connectionRank, HeartbeatResponse(frame))];
        case Leave =>
        case Abort => result := Err(RemoteAbort);
      }
    }

    // Accept a send: take the first receive that matches it, or queue it.
    method TakeReceive(frame: Message) returns (taken: Option<Message>)
      requires Valid() && frame.opcode.Send?
      modifies this`sends, this`receives, this`history, this`log
      ensures Valid() && history == old(history) + [frame]
      ensures var i := FirstMatchingReceive(frame, old(log).receives);
        taken == if i < |old(log).receives| then Some(old(log).receives[i].frame) else None
    {
      var index := PositionOfReceive(frame);
      RunSnoc(history, frame);
      if index < |receives| {
        SendTakes(log, frame, index);
        history, log := history + [frame], Accept(log, frame);
        taken := Some(receives[index]);
        receives := receives[..index] + receives[index + 1..];
      } else {
        FramesSnoc(log.sends, Ticket(log.arrivals, frame));
        history, log := history + [frame], Accept(log, frame);
        taken := None;
        sends := sends + [frame];
      }
    }

    // Accept a receive: take the first send that matches it, or queue it.
    method TakeSend(frame: Message) returns (taken: Option<Message>)
      requires Valid() && frame.opcode.Receive?
      modifies this`sends, this`receives, this`history, this`log
      ensures Valid() && history == old(history) + [frame]
      ensures var i := FirstMatchingSend(frame, old(log).sends);
        taken == if i < |old(log).sends| then Some(old(log).sends[i].frame) else None
    {
      var index := PositionOfSend(frame);
      RunSnoc(history, frame);
      if index < |sends| {
        ReceiveTakes(log, frame, index);
        history, log := history + [frame], Accept(log, frame);
        taken := Some(sends[index]);
        sends := sends[..index] + sends[index + 1..];
      } else {
        FramesSnoc(log.receives, Ticket(log.arrivals, frame));
        history, log := history + [frame], Accept(log, frame);
        taken := None;
        receives := receives + [frame];
      }
    }

    method RouteSend(frame: Message) returns (result: Result<(), NetworkError>)
      requires Valid() && frame.opcode.Send?
      modifies this
      ensures Valid() && history == old(history) + [frame]
      ensures written == old(written) + SendOutcome(old(log), frame).0 && result == SendOutcome(old(log), frame).1
    {
      written := written + [(frame.sourceRank, Acknowledgement(frame))];
      var receive := TakeReceive(frame);
      if receive.Some? { result := Deliver(frame, receive.value); } else { result := Ok(()); }
    }

    method RouteReceive(frame: Message) returns (result: Result<(), NetworkError>)
      requires Valid() && frame.opcode.Receive?
      modifies this
      ensures Valid() && history == old(history) + [frame]
      ensures written == old(written) + ReceiveOutcome(old(log), frame).0 && result == ReceiveOutcome(old(log), frame).1
    {
      var send := TakeSend(frame);
      if send.Some? { result := Deliver(send.value, frame); } else { result := Ok(()); }
    }

    method Deliver(send: Message, receive: Message) returns (result: Result<(), NetworkError>)
      modifies this`written
      ensures written == old(written) + PairOutcome(send, receive).0 && result == PairOutcome(send, receive).1
    {
      if !Agrees(send, receive) { return Err(InvalidConfiguration); }
      written := written + [(receive.sourceRank, Delivery(send, receive))];
      result := Ok(());
    }
  }
}
