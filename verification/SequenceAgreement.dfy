// src/rank/protocol.rs: the coordinator's agreement on what each collective sequence number means.
module SequenceAgreement {
  import opened Wrappers
  import opened Numbers

  datatype Descriptor = Descriptor(opcode: nat, elementType: nat, rootRank: nat, elementCount: nat, layoutHash: nat)

  datatype SubmitError = EmptyWorld | RankOutOfRange | SequenceMismatch(expected: nat) | DuplicateSubmission | CollectiveMismatch | SequenceOverflow


  type Slots = seq<Option<Descriptor>>

  datatype State = State(world: nat, next: nat, pending: map<nat, Slots>)

  function NoSubmissions(world: nat): (slots: Slots)
    ensures |slots| == world
  {
    seq(world, _ => None)
  }

  function SlotsOf(s: State): Slots {
    if s.next in s.pending then s.pending[s.next] else NoSubmissions(s.world)
  }

  // The first submission, by rank, that the newcomer is compared with.
  function FirstSubmitted(slots: Slots): Option<Descriptor> {
    if slots == [] then None else if slots[0].Some? then slots[0] else FirstSubmitted(slots[1..])
  }

  predicate Complete(slots: Slots) { forall r | 0 <= r < |slots| :: slots[r].Some? }

  predicate AllSay(slots: Slots, descriptor: Descriptor) { forall r | 0 <= r < |slots| :: slots[r] == Some(descriptor) }

  // Only the current sequence is pending; whoever submitted it said the same, and somebody is missing.
  ghost predicate Valid(s: State) {
    && s.world > 0
    && (forall k | k in s.pending :: k == s.next && |s.pending[k]| == s.world)
    && (forall q, r | 0 <= q < |SlotsOf(s)| && 0 <= r < |SlotsOf(s)| && SlotsOf(s)[q].Some? && SlotsOf(s)[r].Some? :: SlotsOf(s)[q] == SlotsOf(s)[r])
    && !Complete(SlotsOf(s))
  }

  lemma {:induction false} FirstSubmittedIsAny(slots: Slots)
    ensures FirstSubmitted(slots).None? <==> forall r | 0 <= r < |slots| :: slots[r].None?
    ensures FirstSubmitted(slots).Some? ==> exists r :: 0 <= r < |slots| && slots[r] == FirstSubmitted(slots)
  {
    if slots != [] && slots[0].None? {
      FirstSubmittedIsAny(slots[1..]);
      if FirstSubmitted(slots).Some? {
        var r :| 0 <= r < |slots[1..]| && slots[1..][r] == FirstSubmitted(slots);
        assert slots[r + 1] == FirstSubmitted(slots);
      }
      assert forall r | 0 < r < |slots| :: slots[r] == slots[1..][r - 1];
    }
  }

  class CollectiveAgreement {
    const world: nat
    var next: nat
    var pending: map<nat, Slots>

    ghost function Snapshot(): State
      reads this
    {
      State(world, next, pending)
    }

    constructor (world: nat)
      requires world > 0
      ensures this.world == world && next == 0 && Valid(Snapshot()) && SlotsOf(Snapshot()) == NoSubmissions(world)
    {
      this.world, next, pending := world, 0, map[];
      new;
      assert SlotsOf(Snapshot())[0].None?;
    }

    method FindFirst(slots: Slots) returns (first: Option<Descriptor>)
      ensures first == FirstSubmitted(slots)
    {
      for r := 0 to |slots|
        invariant FirstSubmitted(slots) == FirstSubmitted(slots[r..])
      {
        if slots[r].Some? { return slots[r]; }
      }
      first := None;
    }

    // The submission is recorded exactly when its sequence is the current one, its rank has not
    // submitted yet and nobody submitted something else. True means that every rank has now submitted
    // this same descriptor, and the next sequence is current.
    method Submit(rank: nat, sequence: nat, descriptor: Descriptor) returns (result: Result<bool, SubmitError>)
      requires Valid(Snapshot()) && next <= U64_MAX
      modifies this
      ensures var before := old(SlotsOf(Snapshot()));
        && (rank >= world ==> result == Err(RankOutOfRange))
        && (rank < world && sequence != old(next) ==> result == Err(SequenceMismatch(old(next))))
        && (rank < world && sequence == old(next) && before[rank].Some? ==> result == Err(DuplicateSubmission))
        && (rank < world && sequence == old(next) && before[rank].None? ==>
              && (result == Err(CollectiveMismatch) <==> exists r :: 0 <= r < world && before[r].Some? && before[r] != Some(descriptor))
              && (result == Ok(false) ==> next == old(next) && SlotsOf(Snapshot()) == before[rank := Some(descriptor)])
              && (result == Ok(true) ==> next == old(next) + 1 <= U64_MAX && pending == map[])
              && (result == Ok(true) ==> AllSay(before[rank := Some(descriptor)], descriptor)))
      ensures result.Err? && result.error != SequenceOverflow ==> next == old(next) && SlotsOf(Snapshot()) == old(SlotsOf(Snapshot()))
      ensures result == Err(SequenceOverflow) ==> old(next) == U64_MAX
      ensures result != Err(SequenceOverflow) ==> Valid(Snapshot())
    {
      if rank >= world { return Err(RankOutOfRange); }
      if sequence != next { return Err(SequenceMismatch(next)); }
      ghost var before := SlotsOf(Snapshot());
      if sequence !in pending { pending := pending[sequence := NoSubmissions(world)]; }
      assert SlotsOf(Snapshot()) == before;
      var slots := pending[sequence];
      if slots[rank].Some? { return Err(DuplicateSubmission); }
      var first := FindFirst(slots);
      FirstSubmittedIsAny(slots);
      if first.Some? && first.value != descriptor { return Err(CollectiveMismatch); }
      assert pending == map[next := slots];
      result := Record(rank, descriptor, slots);
    }

    method Record(rank: nat, descriptor: Descriptor, slots: Slots) returns (result: Result<bool, SubmitError>)
      requires world > 0 && pending == map[next := slots] && |slots| == world && rank < world && slots[rank].None? && next <= U64_MAX
      requires forall r | 0 <= r < world && slots[r].Some? :: slots[r] == Some(descriptor)
      modifies this
      ensures result.Ok? || result == Err(SequenceOverflow)
      ensures result == Ok(false) ==> next == old(next) && SlotsOf(Snapshot()) == slots[rank := Some(descriptor)]
      ensures result == Ok(true) ==> next == old(next) + 1 <= U64_MAX && pending == map[]
      ensures result == Ok(true) ==> AllSay(slots[rank := Some(descriptor)], descriptor)
      ensures result.Ok? ==> Valid(Snapshot())
      ensures result == Err(SequenceOverflow) ==> old(next) == U64_MAX
    {
      var filled := slots[rank := Some(descriptor)];
      pending := pending[next := filled];
      if forall r | 0 <= r < |filled| :: filled[r].Some? {
        pending := map[];
        if next == U64_MAX { return Err(SequenceOverflow); }
        next := next + 1;
        assert SlotsOf(Snapshot())[0].None?;
        return Ok(true);
      }
      result := Ok(false);
    }
  }
}
