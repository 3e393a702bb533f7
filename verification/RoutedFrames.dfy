// src/rank/network.rs: which point-to-point requests are accepted, and what each of them causes to be
// written to whom, field by field.
module RoutedFrames {
  import opened Wrappers
  import opened FrameCodec
  import opened Router

  // A control frame for everybody: no type, no elements, no payload.
  ghost predicate ForNobody(frame: Message) {
    frame.destinationRank == None && frame.elementType == NoElement && frame.elementCount == 0 && frame.payload == []
  }

  // Accepted are the frames of this session and connection, without a root, of five kinds: a send to
  // somebody, a receive without payload, an abort with a message for everybody, an empty heartbeat or
  // farewell.
  lemma AcceptedExactlyWhen(frame: Message, uniqueId: nat, worldSize: nat, connectionRank: nat)
    ensures CheckRequest(frame, uniqueId, worldSize, connectionRank).Ok? <==>
      && frame.uniqueId == uniqueId && frame.worldSize == worldSize && frame.sourceRank == connectionRank && frame.rootRank == None
      && ((frame.opcode == Send && frame.destinationRank != None)
          || (frame.opcode == Receive && frame.payload == [])
          || (frame.opcode == Abort && frame.destinationRank == None && frame.elementType == U8 && frame.payload != [])
          || (frame.opcode in {Heartbeat, Leave} && ForNobody(frame)))
    ensures frame.uniqueId != uniqueId <==> CheckRequest(frame, uniqueId, worldSize, connectionRank) == Err(WrongSession)
  {
  }

  // The receive asks for this send: one tag, addressed to the receiver, from whom it asked for.
  ghost predicate AsksFor(receive: Message, send: Message) {
    && receive.tag == send.tag && send.destinationRank == Some(receive.sourceRank)
    && (receive.destinationRank == None || receive.destinationRank == Some(send.sourceRank))
  }

  // The oldest queued receive that asks for the send, or the oldest queued send that is asked for.
  ghost predicate IsOldestReceive(send: Message, receives: seq<Ticket>, i: nat) {
    i < |receives| && AsksFor(receives[i].frame, send) && forall j | 0 <= j < i :: !AsksFor(receives[j].frame, send)
  }

  ghost predicate IsOldestSend(receive: Message, sends: seq<Ticket>, i: nat) {
    i < |sends| && AsksFor(receive, sends[i].frame) && forall j | 0 <= j < i :: !AsksFor(receive, sends[j].frame)
  }

  // An empty frame back to its sender, of the same kind and number.
  ghost predicate IsReceipt(written: (nat, Message), frame: Message) {
    && written.0 == frame.sourceRank == written.1.sourceRank && written.1.destinationRank == Some(frame.sourceRank)
    && written.1.opcode == frame.opcode && written.1.sequence == frame.sequence
    && written.1.uniqueId == frame.uniqueId && written.1.worldSize == frame.worldSize && written.1.rootRank == None
    && written.1.elementType == NoElement && written.1.elementCount == 0 && written.1.payload == []
  }

  // The send's contents, to the rank that asked for them, under the number of its receive.
  ghost predicate Delivers(written: (nat, Message), send: Message, receive: Message) {
    && written.0 == receive.sourceRank && written.1.destinationRank == Some(receive.sourceRank) && written.1.sourceRank == send.sourceRank
    && written.1.opcode == Receive && written.1.sequence == receive.sequence && written.1.tag == send.tag
    && written.1.uniqueId == send.uniqueId && written.1.worldSize == send.worldSize && written.1.rootRank == None
    && written.1.elementType == send.elementType && written.1.elementCount == send.elementCount && written.1.payload == send.payload
  }

  // What a matched pair adds: the delivery if both name the same elements, otherwise nothing and an error.
  ghost predicate Settles(send: Message, receive: Message, written: seq<(nat, Message)>, result: Result<(), NetworkError>) {
    if send.elementType == receive.elementType && send.elementCount == receive.elementCount then
      result == Ok(()) && |written| == 1 && Delivers(written[0], send, receive)
    else
      result == Err(InvalidConfiguration) && written == []
  }

  lemma FirstIsOldestReceive(send: Message, receives: seq<Ticket>)
    ensures var i := FirstMatchingReceive(send, receives);
      if i < |receives| then IsOldestReceive(send, receives, i)
      else i == |receives| && forall j | 0 <= j < |receives| :: !AsksFor(receives[j].frame, send)
  {
  }

  lemma FirstIsOldestSend(receive: Message, sends: seq<Ticket>)
    ensures var i := FirstMatchingSend(receive, sends);
      if i < |sends| then IsOldestSend(receive, sends, i)
      else i == |sends| && forall j | 0 <= j < |sends| :: !AsksFor(receive, sends[j].frame)
  {
  }

  // A send is receipted at once; if a queued receive asks for it the oldest such one is settled with it.
  lemma SendWrites(log: Log, send: Message)
    requires send.opcode == Send
    ensures var (written, result) := SendOutcome(log, send);
      written != [] && IsReceipt(written[0], send) && written[0].1.tag == send.tag
    ensures var (written, result) := SendOutcome(log, send);
      (forall j | 0 <= j < |log.receives| :: !AsksFor(log.receives[j].frame, send)) ==> |written| == 1 && result == Ok(())
    ensures var (written, result) := SendOutcome(log, send);
      forall i: nat | IsOldestReceive(send, log.receives, i) :: Settles(send, log.receives[i].frame, written[1..], result)
  {
    FirstIsOldestReceive(send, log.receives);
    forall i: nat | IsOldestReceive(send, log.receives, i) ensures i == FirstMatchingReceive(send, log.receives) { }
  }

  // A receive writes nothing until a send that it asks for is there, and is settled with the oldest one.
  lemma ReceiveWrites(log: Log, receive: Message)
    ensures var (written, result) := ReceiveOutcome(log, receive);
      (forall j | 0 <= j < |log.sends| :: !AsksFor(receive, log.sends[j].frame)) ==> written == [] && result == Ok(())
    ensures var (written, result) := ReceiveOutcome(log, receive);
      forall i: nat | IsOldestSend(receive, log.sends, i) :: Settles(log.sends[i].frame, receive, written, result)
  {
    FirstIsOldestSend(receive, log.sends);
    forall i: nat | IsOldestSend(receive, log.sends, i) ensures i == FirstMatchingSend(receive, log.sends) { }
  }

  // A heartbeat is answered, a farewell is not, and an abort ends the group.
  lemma ControlWrites(log: Log, frame: Message, uniqueId: nat, worldSize: nat, connectionRank: nat)
    requires CheckRequest(frame, uniqueId, worldSize, connectionRank).Ok?
    ensures var (written, result) := Outcome(log, frame, uniqueId, worldSize, connectionRank);
      && (frame.opcode == Send ==> (written, result) == SendOutcome(log, frame))
      && (frame.opcode == Receive ==> (written, result) == ReceiveOutcome(log, frame))
      && (frame.opcode == Heartbeat ==> result == Ok(()) && |written| == 1 && IsReceipt(written[0], frame) && written[0].1.tag == 0)
      && (frame.opcode == Leave ==> written == [] && result == Ok(()))
      && (frame.opcode == Abort ==> written == [] && result == Err(RemoteAbort))
  {
  }
}
