// src/rank/peer.rs: the inbox of a direct peer mesh, shared by every rail and every source.
module PeerInbox {
  import opened Wrappers

  datatype QueuedFrame = QueuedFrame(rail: nat, source: nat, tag: nat, elementType: nat, elementCount: nat, payload: seq<nat>)

  datatype ReceiveError = Failure | ContractMismatch

  predicate Wanted(frame: QueuedFrame, rail: nat, source: Option<nat>, tag: nat) {
    frame.rail == rail && frame.tag == tag && (source.None? || source == Some(frame.source))
  }

  predicate SameRoute(a: QueuedFrame, b: QueuedFrame) {
    a.rail == b.rail && a.source == b.source && a.tag == b.tag
  }

  // A frame with its arrival number.
  datatype Arrival = Arrival(id: nat, frame: QueuedFrame)

  function FramesOf(queue: seq<Arrival>): (frames: seq<QueuedFrame>)
    ensures |frames| == |queue| && forall i | 0 <= i < |queue| :: frames[i] == queue[i].frame
  {
    seq(|queue|, i requires 0 <= i < |queue| => queue[i].frame)
  }

  ghost predicate IsFirst(frames: seq<QueuedFrame>, i: nat, rail: nat, source: Option<nat>, tag: nat) {
    i < |frames| && Wanted(frames[i], rail, source, tag) && forall j | 0 <= j < i :: !Wanted(frames[j], rail, source, tag)
  }

  // Frames of one route were taken in arrival order, and nothing still queued is older.
  ghost predicate Ordered(queue: seq<Arrival>, taken: seq<Arrival>, arrivals: nat) {
    && (forall i, j | 0 <= i < j < |queue| :: queue[i].id < queue[j].id)
    && (forall i | 0 <= i < |queue| :: queue[i].id < arrivals)
    && (forall k | 0 <= k < |taken| :: taken[k].id < arrivals)
    && (forall k, l | 0 <= k < l < |taken| && SameRoute(taken[k].frame, taken[l].frame) :: taken[k].id < taken[l].id)
    && (forall k, i | 0 <= k < |taken| && 0 <= i < |queue| && SameRoute(taken[k].frame, queue[i].frame) :: taken[k].id < queue[i].id)
  }

  // Even a wildcard source takes the oldest frame of whichever route it hits.
  lemma TakingFirstKeepsOrder(queue: seq<Arrival>, taken: seq<Arrival>, arrivals: nat, at: nat, rail: nat, source: Option<nat>, tag: nat)
    requires Ordered(queue, taken, arrivals) && IsFirst(FramesOf(queue), at, rail, source, tag)
    ensures Ordered(queue[..at] + queue[at + 1..], taken + [queue[at]], arrivals)
  {
    var rest, next := queue[..at] + queue[at + 1..], taken + [queue[at]];
    assert forall j | 0 <= j < |rest| :: rest[j] == queue[if j < at then j else j + 1];
    assert forall j | 0 <= j < at :: !SameRoute(queue[at].frame, queue[j].frame) by {
      forall j | 0 <= j < at ensures !SameRoute(queue[at].frame, queue[j].frame) {
        assert !Wanted(FramesOf(queue)[j], rail, source, tag);
      }
    }
  }

  class Inbox {
    var frames: seq<QueuedFrame>
    var failed: bool
    ghost var queue: seq<Arrival>
    ghost var taken: seq<Arrival>
    ghost var arrivals: nat

    ghost predicate Valid()
      reads this
    {
      frames == FramesOf(queue) && Ordered(queue, taken, arrivals)
    }

    constructor ()
      ensures Valid() && frames == [] && taken == [] && !failed
    {
      frames, failed, queue, taken, arrivals := [], false, [], [], 0;
    }

    method Push(frame: QueuedFrame)
      requires Valid()
      modifies this`frames, this`queue, this`arrivals
      ensures Valid() && frames == old(frames) + [frame]
      ensures queue == old(queue) + [Arrival(old(arrivals), frame)] && arrivals == old(arrivals) + 1
    {
      frames := frames + [frame];
      queue, arrivals := queue + [Arrival(arrivals, frame)], arrivals + 1;
    }

    // The first frame of that rail and tag, from that source if one is named; |frames| if there is none.
    method Position(rail: nat, source: Option<nat>, tag: nat) returns (index: nat)
      ensures index <= |frames|
      ensures index < |frames| ==> frames[index].rail == rail && frames[index].tag == tag && (source.Some? ==> source.value == frames[index].source)
      ensures forall j | 0 <= j < index :: frames[j].rail != rail || frames[j].tag != tag || (source.Some? && source.value != frames[j].source)
    {
      index := 0;
      while index < |frames| && !Wanted(frames[index], rail, source, tag)
        invariant index <= |frames| && forall j | 0 <= j < index :: !Wanted(frames[j], rail, source, tag)
      {
        index := index + 1;
      }
    }

    // One look at the inbox. None: nothing matches yet, the caller waits and looks again.
    method TryReceive(rail: nat, source: Option<nat>, tag: nat, elementType: nat, elementCount: nat)
      returns (result: Option<Result<QueuedFrame, ReceiveError>>)
      requires Valid()
      modifies this`frames, this`queue, this`taken
      ensures Valid()
      ensures failed ==> result == Some(Err(Failure)) && frames == old(frames) && taken == old(taken)
      ensures !failed && result.None? ==>
        frames == old(frames) && taken == old(taken) &&
        forall i | 0 <= i < |frames| :: frames[i].rail != rail || frames[i].tag != tag || (source.Some? && source.value != frames[i].source)
      ensures !failed && result.Some? ==> exists at: nat ::
        at < |old(frames)| && old(frames)[at].rail == rail && old(frames)[at].tag == tag &&
        (source.Some? ==> source.value == old(frames)[at].source) &&
        (forall j | 0 <= j < at :: old(frames)[j].rail != rail || old(frames)[j].tag != tag || (source.Some? && source.value != old(frames)[j].source)) &&
        frames == old(frames)[..at] + old(frames)[at + 1..] && taken == old(taken) + [old(queue)[at]] &&
        result.value == if old(frames)[at].elementType == elementType && old(frames)[at].elementCount == elementCount
                        then Ok(old(frames)[at]) else Err(ContractMismatch)
    {
      if failed { return Some(Err(Failure)); }
      var index := Position(rail, source, tag);
      if index == |frames| { return None; }
      var queued := frames[index];
      TakingFirstKeepsOrder(queue, taken, arrivals, index, rail, source, tag);
      taken := taken + [queue[index]];
      queue := queue[..index] + queue[index + 1..];
      frames := frames[..index] + frames[index + 1..];
      if queued.elementType != elementType || queued.elementCount != elementCount { return Some(Err(ContractMismatch)); }
      return Some(Ok(queued));
    }
  }
}
