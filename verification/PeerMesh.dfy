// src/rank/peer.rs: one direct connection between two ranks on one rail. Each end has a sender with
// its own sequence numbers, a reader, pending acknowledgements and a sticky failure.
module PeerMesh {
  import opened Wrappers
  import opened Numbers

  // A frame on the wire. An acknowledgement is a send frame without an element type that repeats the
  // acknowledged sequence; a caller may also ask for a data send without an element type.
  datatype Wire = Wire(noElement: bool, sequence: nat, tag: nat) | Bad

  datatype SendResult = Waiting | Done | Failed

  // sent[s] is the element type choice of this end's send number s; enqueued lists, oldest first, the
  // sequences of the peer's frames that this end's reader put into its inbox.
  datatype End = End(sent: seq<bool>, results: seq<SendResult>, enqueued: seq<nat>, failed: bool, stopped: bool)

  // wires[e] carries frames from end e to the other end, in order.
  datatype State = State(ends: seq<End>, wires: seq<seq<Wire>>)

  function Other(e: nat): (o: nat)
    requires e < 2
    ensures o < 2 && o != e
  {
    1 - e
  }

  ghost predicate Shape(s: State) {
    |s.ends| == 2 && |s.wires| == 2 && forall e | 0 <= e < 2 :: |s.ends[e].sent| == |s.ends[e].results|
  }

  ghost predicate Init(s: State) {
    Shape(s) && forall e | 0 <= e < 2 :: s.ends[e] == End([], [], [], false, false) && s.wires[e] == []
  }

  // send_on_rail up to the point where it waits: number the frame, register the acknowledgement, write.
  function StartSendAt(s: State, e: nat, noElement: bool, tag: nat): State
    requires e < |s.ends| && e < |s.wires|
  {
    var end := s.ends[e];
    State(s.ends[e := end.(sent := end.sent + [noElement], results := end.results + [Waiting])],
          s.wires[e := s.wires[e] + [Wire(noElement, |end.sent|, tag)]])
  }

  ghost predicate StartSend(s: State, s': State, e: nat, noElement: bool, tag: nat) {
    Shape(s) && e < 2 && !s.ends[e].failed && s' == StartSendAt(s, e, noElement, tag)
  }

  // Whatever goes wrong at one end: the failure is kept and every pending send is told.
  function FailEnd(end: End): End {
    end.(failed := true, results := seq(|end.results|, i requires 0 <= i < |end.results| =>
      if end.results[i].Waiting? then Failed else end.results[i]))
  }

  // A timeout, a closed socket, a local abort.
  ghost predicate Fail(s: State, s': State, e: nat) {
    Shape(s) && e < 2 && s' == s.(ends := s.ends[e := FailEnd(s.ends[e])])
  }

  // A frame that breaks the protocol ends the reader; other writers may put one on the wire at any time.
  ghost predicate Corrupt(s: State, s': State, e: nat) {
    Shape(s) && e < 2 && s' == s.(wires := s.wires[e := s.wires[e] + [Bad]])
  }

  // The reader of end e takes the next frame written by the other end.
  function ReadAt(s: State, e: nat): State
    requires e < 2 && |s.ends| == 2 && |s.wires| == 2 && s.wires[Other(e)] != []
  {
    var end, frame, rest := s.ends[e], s.wires[Other(e)][0], s.wires[Other(e)][1..];
    if frame.Bad? then
      State(s.ends[e := FailEnd(end).(stopped := true)], s.wires[Other(e) := rest])
    else if frame.noElement then
      // taken for an acknowledgement of this end's own send with that number
      State(s.ends[e := if frame.sequence < |end.results| && end.results[frame.sequence].Waiting?
                        then end.(results := end.results[frame.sequence := Done]) else end],
            s.wires[Other(e) := rest])
    else
      // inbox first, then the acknowledgement
      State(s.ends[e := end.(enqueued := end.enqueued + [frame.sequence])],
            s.wires[Other(e) := rest][e := s.wires[e] + [Wire(true, frame.sequence, frame.tag)]])
  }

  ghost predicate Read(s: State, s': State, e: nat) {
    Shape(s) && e < 2 && !s.ends[e].stopped && s.wires[Other(e)] != [] && s' == ReadAt(s, e)
  }

  ghost predicate Next(s: State, s': State) {
    exists e: nat, noElement: bool, tag: nat :: Step(s, s', e, noElement, tag)
  }

  ghost predicate Step(s: State, s': State, e: nat, noElement: bool, tag: nat) {
    StartSend(s, s', e, noElement, tag) || Fail(s, s', e) || Corrupt(s, s', e) || Read(s, s', e)
  }

  ghost predicate IsRun(run: seq<State>) {
    && |run| > 0 && Init(run[0])
    && forall i, j | 0 <= i && j == i + 1 && j < |run| :: Next(run[i], run[j])
  }

  // ---- where the data frames are -----------------------------------------------------------------

  // The numbers of the data sends (those with an element type) among the first ones.
  function DataSends(sent: seq<bool>): seq<nat> {
    if sent == [] then []
    else DataSends(sent[..|sent| - 1]) + if sent[|sent| - 1] then [] else [|sent| - 1]
  }

  function DataOnWire(wire: seq<Wire>): seq<nat> {
    if wire == [] then []
    else (if wire[0].Bad? || wire[0].noElement then [] else [wire[0].sequence]) + DataOnWire(wire[1..])
  }

  lemma {:induction false} DataOnWireSnoc(wire: seq<Wire>, frame: Wire)
    ensures DataOnWire(wire + [frame]) == DataOnWire(wire) + if frame.Bad? || frame.noElement then [] else [frame.sequence]
  {
    if wire != [] {
      DataOnWireSnoc(wire[1..], frame);
      assert (wire + [frame])[1..] == wire[1..] + [frame];
    }
  }

  lemma {:induction false} DataSendsIncrease(sent: seq<bool>)
    ensures forall i, j | 0 <= i < j < |DataSends(sent)| :: DataSends(sent)[i] < DataSends(sent)[j]
    ensures forall s: nat :: s in DataSends(sent) <==> s < |sent| && !sent[s]
  {
    if sent != [] {
      var front := sent[..|sent| - 1];
      DataSendsIncrease(front);
      forall i | 0 <= i < |DataSends(front)| ensures DataSends(front)[i] < |front| { assert DataSends(front)[i] in DataSends(front); }
      forall s: nat ensures s in DataSends(sent) <==> s < |sent| && !sent[s] {
        if s < |front| { assert sent[s] == front[s]; }
      }
    }
  }

  // Data frames are neither lost, duplicated nor reordered: enqueued so far, then still on the wire.
  ghost predicate DataConserved(sender: End, wire: seq<Wire>, receiver: End) {
    DataSends(sender.sent) == receiver.enqueued + DataOnWire(wire)
  }

  // An untyped frame acknowledges a frame its writer enqueued, or is an untyped send of its writer.
  ghost predicate Explained(writer: End, sequence: nat) {
    sequence in writer.enqueued || (sequence < |writer.sent| && writer.sent[sequence])
  }

  ghost predicate AcksExplained(writer: End, wire: seq<Wire>, reader: End) {
    && (forall k | 0 <= k < |wire| && wire[k].Wire? && wire[k].noElement :: Explained(writer, wire[k].sequence))
    && (forall q | 0 <= q < |reader.results| && reader.results[q].Done? :: Explained(writer, q))
  }

  ghost predicate LinkInv(sender: End, wire: seq<Wire>, receiver: End) {
    DataConserved(sender, wire, receiver) && AcksExplained(sender, wire, receiver)
  }

  ghost predicate Inv(s: State) {
    && Shape(s)
    && LinkInv(s.ends[0], s.wires[0], s.ends[1])
    && LinkInv(s.ends[1], s.wires[1], s.ends[0])
  }

  lemma WriterSends(sender: End, wire: seq<Wire>, receiver: End, noElement: bool, tag: nat)
    requires LinkInv(sender, wire, receiver) && |sender.sent| == |sender.results|
    ensures LinkInv(sender.(sent := sender.sent + [noElement], results := sender.results + [Waiting]),
                    wire + [Wire(noElement, |sender.sent|, tag)], receiver)
  {
    DataOnWireSnoc(wire, Wire(noElement, |sender.sent|, tag));
    assert (sender.sent + [noElement])[..|sender.sent|] == sender.sent;
    var sender' := sender.(sent := sender.sent + [noElement], results := sender.results + [Waiting]);
    assert forall q :: Explained(sender, q) ==> Explained(sender', q);
  }

  lemma WriterAcknowledges(sender: End, wire: seq<Wire>, receiver: End, sequence: nat, tag: nat)
    requires LinkInv(sender, wire, receiver)
    ensures LinkInv(sender.(enqueued := sender.enqueued + [sequence]), wire + [Wire(true, sequence, tag)], receiver)
  {
    DataOnWireSnoc(wire, Wire(true, sequence, tag));
    var sender' := sender.(enqueued := sender.enqueued + [sequence]);
    assert forall q :: Explained(sender, q) ==> Explained(sender', q);
  }

  lemma ReaderTakesData(sender: End, wire: seq<Wire>, receiver: End)
    requires LinkInv(sender, wire, receiver) && wire != [] && wire[0].Wire? && !wire[0].noElement
    ensures LinkInv(sender, wire[1..], receiver.(enqueued := receiver.enqueued + [wire[0].sequence]))
  {
    AcksOnRest(sender, wire, receiver);
    assert DataOnWire(wire) == [wire[0].sequence] + DataOnWire(wire[1..]);
    Regroup(receiver.enqueued, [wire[0].sequence], DataOnWire(wire[1..]));
  }

  lemma ReaderTakesOther(sender: End, wire: seq<Wire>, receiver: End)
    requires LinkInv(sender, wire, receiver) && wire != [] && (wire[0].Bad? || wire[0].noElement)
    ensures LinkInv(sender, wire[1..], receiver)
  {
    AcksOnRest(sender, wire, receiver);
    assert DataOnWire(wire) == DataOnWire(wire[1..]);
  }

  lemma AcksOnRest(sender: End, wire: seq<Wire>, receiver: End)
    requires AcksExplained(sender, wire, receiver) && wire != []
    ensures AcksExplained(sender, wire[1..], receiver)
  {
    assert forall k | 0 <= k < |wire[1..]| :: wire[1..][k] == wire[k + 1];
  }

  lemma ReaderCompletes(sender: End, wire: seq<Wire>, receiver: End, sequence: nat)
    requires LinkInv(sender, wire, receiver) && Explained(sender, sequence) && sequence < |receiver.results|
    ensures LinkInv(sender, wire, receiver.(results := receiver.results[sequence := Done]))
  {
  }

  lemma FailKeepsLinks(end: End, out: seq<Wire>, back: seq<Wire>, other: End, stopped: bool)
    requires LinkInv(end, out, other) && LinkInv(other, back, end)
    ensures LinkInv(FailEnd(end).(stopped := stopped), out, other) && LinkInv(other, back, FailEnd(end).(stopped := stopped))
  {
    var end' := FailEnd(end).(stopped := stopped);
    assert forall q :: Explained(end, q) ==> Explained(end', q);
  }

  lemma CorruptKeepsLink(sender: End, wire: seq<Wire>, receiver: End)
    requires LinkInv(sender, wire, receiver)
    ensures LinkInv(sender, wire + [Bad], receiver)
  {
    DataOnWireSnoc(wire, Bad);
  }

  lemma ReadInv(s: State, s': State, e: nat)
    requires Inv(s) && Read(s, s', e)
    ensures Inv(s')
  {
    var end, o, wire := s.ends[e], Other(e), s.wires[Other(e)];
    var frame := wire[0];
    if frame.Bad? || frame.noElement { ReaderTakesOther(s.ends[o], wire, end); } else { ReaderTakesData(s.ends[o], wire, end); }
    if frame.Bad? {
      FailKeepsLinks(end, s.wires[e], wire[1..], s.ends[o], true);
    } else if frame.noElement {
      if frame.sequence < |end.results| && end.results[frame.sequence].Waiting? {
        ReaderCompletes(s.ends[o], wire[1..], end, frame.sequence);
        WriterUnchanged(end, s.wires[e], s.ends[o], frame.sequence);
      }
    } else {
      WriterAcknowledges(end, s.wires[e], s.ends[o], frame.sequence, frame.tag);
    }
  }

  // What an end knows about its own sends does not matter to what it writes.
  lemma WriterUnchanged(end: End, wire: seq<Wire>, other: End, sequence: nat)
    requires LinkInv(end, wire, other) && sequence < |end.results|
    ensures LinkInv(end.(results := end.results[sequence := Done]), wire, other)
  {
    var end' := end.(results := end.results[sequence := Done]);
    assert forall q :: Explained(end, q) ==> Explained(end', q);
  }

  lemma StartSendInv(s: State, s': State, e: nat, noElement: bool, tag: nat)
    requires Inv(s) && StartSend(s, s', e, noElement, tag)
    ensures Inv(s')
  {
    WriterSends(s.ends[e], s.wires[e], s.ends[Other(e)], noElement, tag);
    ReaderStartsSend(s.ends[Other(e)], s.wires[Other(e)], s.ends[e], noElement);
  }

  // A new waiting send completes nothing.
  lemma ReaderStartsSend(sender: End, wire: seq<Wire>, receiver: End, noElement: bool)
    requires LinkInv(sender, wire, receiver)
    ensures LinkInv(sender, wire, receiver.(sent := receiver.sent + [noElement], results := receiver.results + [Waiting]))
  {
  }

  lemma FailInv(s: State, s': State, e: nat)
    requires Inv(s) && Fail(s, s', e)
    ensures Inv(s')
  {
    FailKeepsLinks(s.ends[e], s.wires[e], s.wires[Other(e)], s.ends[Other(e)], s.ends[e].stopped);
  }

  lemma CorruptInv(s: State, s': State, e: nat)
    requires Inv(s) && Corrupt(s, s', e)
    ensures Inv(s')
  {
    CorruptKeepsLink(s.ends[e], s.wires[e], s.ends[Other(e)]);
  }

  lemma NextInv(s: State, s': State)
    requires Inv(s) && Next(s, s')
    ensures Inv(s')
  {
    var e: nat, noElement: bool, tag: nat :| Step(s, s', e, noElement, tag);
    if StartSend(s, s', e, noElement, tag) { StartSendInv(s, s', e, noElement, tag); }
    else if Fail(s, s', e) { FailInv(s, s', e); }
    else if Corrupt(s, s', e) { CorruptInv(s, s', e); }
    else { ReadInv(s, s', e); }
  }

  lemma {:induction false} RunInv(run: seq<State>, i: nat)
    requires IsRun(run) && i < |run|
    ensures Inv(run[i])
  {
    if i > 0 {
      RunInv(run, i - 1);
      assert Next(run[i - 1], run[i]);
      NextInv(run[i - 1], run[i]);
    }
  }

  // ---- failure -----------------------------------------------------------------------------------

  // Nobody waits at an end that has failed.
  ghost predicate NobodyLeftWaiting(end: End) {
    end.failed ==> forall q | 0 <= q < |end.results| :: !end.results[q].Waiting?
  }

  // A result once given stays.
  ghost predicate ResultsStay(before: End, after: End) {
    |before.results| <= |after.results| && forall q | 0 <= q < |before.results| && !before.results[q].Waiting? :: after.results[q] == before.results[q]
  }

  ghost predicate EndAnswers(before: End, after: End) {
    (NobodyLeftWaiting(before) ==> NobodyLeftWaiting(after)) && ResultsStay(before, after)
  }

  ghost predicate BothAnswer(s: State, s': State) {
    Shape(s) && Shape(s') && EndAnswers(s.ends[0], s'.ends[0]) && EndAnswers(s.ends[1], s'.ends[1])
  }

  lemma StartAnswers(s: State, s': State, e: nat, noElement: bool, tag: nat)
    requires StartSend(s, s', e, noElement, tag)
    ensures BothAnswer(s, s')
  {
    assert s'.ends[Other(e)] == s.ends[Other(e)];
    assert EndAnswers(s.ends[e], s'.ends[e]);
  }

  lemma FailAnswers(s: State, s': State, e: nat)
    requires Fail(s, s', e)
    ensures BothAnswer(s, s')
  {
    FailureAnswers(s.ends[e]);
    assert s'.ends[Other(e)] == s.ends[Other(e)];
  }

  lemma ReadAnswers(s: State, s': State, e: nat)
    requires Read(s, s', e)
    ensures BothAnswer(s, s')
  {
    FailureAnswers(s.ends[e]);
    assert s'.ends[Other(e)] == s.ends[Other(e)];
    assert EndAnswers(s.ends[e], s'.ends[e]);
  }

  lemma StepAnswers(s: State, s': State)
    requires Next(s, s') && Shape(s)
    ensures BothAnswer(s, s')
  {
    var e: nat, noElement: bool, tag: nat :| Step(s, s', e, noElement, tag);
    if StartSend(s, s', e, noElement, tag) { StartAnswers(s, s', e, noElement, tag); }
    else if Fail(s, s', e) { FailAnswers(s, s', e); }
    else if Read(s, s', e) { ReadAnswers(s, s', e); }
  }

  lemma FailureAnswers(end: End)
    ensures NobodyLeftWaiting(FailEnd(end)) && ResultsStay(end, FailEnd(end))
    ensures forall q | 0 <= q < |end.results| && end.results[q].Waiting? :: FailEnd(end).results[q].Failed?
  {
  }

  // In every run a failure is heard by every send that waits, and an answer that was given stays.
  lemma {:induction false} FailureIsHeard(run: seq<State>, i: nat)
    requires IsRun(run) && i < |run|
    ensures Shape(run[i]) && NobodyLeftWaiting(run[i].ends[0]) && NobodyLeftWaiting(run[i].ends[1])
    ensures i > 0 ==> Shape(run[i - 1]) && ResultsStay(run[i - 1].ends[0], run[i].ends[0]) && ResultsStay(run[i - 1].ends[1], run[i].ends[1])
  {
    if i > 0 {
      FailureIsHeard(run, i - 1);
      assert Next(run[i - 1], run[i]);
      StepAnswers(run[i - 1], run[i]);
    }
  }

  // ---- what an Ok send means ---------------------------------------------------------------------

  ghost predicate EnqueuedOnce(receiver: End, sequence: nat) {
    exists k :: 0 <= k < |receiver.enqueued| && receiver.enqueued[k] == sequence &&
      forall j | 0 <= j < |receiver.enqueued| && receiver.enqueued[j] == sequence :: j == k
  }

  // A completed send was enqueued exactly once, unless the peer made an untyped send with the same number.
  lemma DoneMeansEnqueuedOrCollided(run: seq<State>, i: nat, e: nat, sequence: nat)
    requires IsRun(run) && i < |run| && e < 2
    requires Shape(run[i]) && sequence < |run[i].ends[e].results| && run[i].ends[e].results[sequence].Done?
    ensures var peer := run[i].ends[Other(e)];
      EnqueuedOnce(peer, sequence) || (sequence < |peer.sent| && peer.sent[sequence])
  {
    RunInv(run, i);
    var s := run[i];
    assert LinkInv(s.ends[Other(e)], s.wires[Other(e)], s.ends[e]) && LinkInv(s.ends[e], s.wires[e], s.ends[Other(e)]);
    if sequence in s.ends[Other(e)].enqueued { OnceInOrder(s.ends[e], s.wires[e], s.ends[Other(e)], sequence); }
  }

  lemma OnceInOrder(sender: End, wire: seq<Wire>, receiver: End, sequence: nat)
    requires DataConserved(sender, wire, receiver) && sequence in receiver.enqueued
    ensures EnqueuedOnce(receiver, sequence)
  {
    DataSendsIncrease(sender.sent);
    PrefixHasNoRepeat(receiver.enqueued, DataOnWire(wire), DataSends(sender.sent));
    var k :| 0 <= k < |receiver.enqueued| && receiver.enqueued[k] == sequence;
  }

  lemma PrefixHasNoRepeat(front: seq<nat>, rest: seq<nat>, all: seq<nat>)
    requires all == front + rest && forall i, j | 0 <= i < j < |all| :: all[i] < all[j]
    ensures forall i, j | 0 <= i < |front| && 0 <= j < |front| && front[i] == front[j] :: i == j
  {
    forall i, j | 0 <= i < j < |front| ensures front[i] != front[j] {
      assert front[i] == all[i] && front[j] == all[j];
    }
  }

  ghost predicate TypedOnly(end: End) {
    forall s | 0 <= s < |end.sent| :: !end.sent[s]
  }

  // The guard a caller can check: if every send names an element type, Ok means enqueued exactly once.
  lemma TypedSendsAreEnqueuedOnce(run: seq<State>, i: nat, e: nat, sequence: nat)
    requires IsRun(run) && i < |run| && e < 2
    requires Shape(run[i]) && sequence < |run[i].ends[e].results| && run[i].ends[e].results[sequence].Done?
    requires TypedOnly(run[i].ends[Other(e)])
    ensures EnqueuedOnce(run[i].ends[Other(e)], sequence)
  {
    DoneMeansEnqueuedOrCollided(run, i, e, sequence);
  }

  // An untyped send is never enqueued at all, in any run.
  lemma UntypedSendsAreNeverEnqueued(run: seq<State>, i: nat, e: nat, sequence: nat)
    requires IsRun(run) && i < |run| && e < 2
    requires Shape(run[i]) && sequence < |run[i].ends[e].sent| && run[i].ends[e].sent[sequence]
    ensures sequence !in run[i].ends[Other(e)].enqueued
  {
    RunInv(run, i);
    var s := run[i];
    assert LinkInv(s.ends[e], s.wires[e], s.ends[Other(e)]);
    DataSendsIncrease(s.ends[e].sent);
    var all, enqueued := DataSends(s.ends[e].sent), s.ends[Other(e)].enqueued;
    assert forall k | 0 <= k < |enqueued| :: enqueued[k] == all[k];
  }

  // The peer's frames reach the inbox in the order they were sent, each once.
  lemma InboxKeepsSendOrder(run: seq<State>, i: nat, e: nat)
    requires IsRun(run) && i < |run| && e < 2
    ensures Shape(run[i]) && run[i].ends[Other(e)].enqueued <= DataSends(run[i].ends[e].sent)
  {
    RunInv(run, i);
    assert LinkInv(run[i].ends[e], run[i].wires[e], run[i].ends[Other(e)]);
  }

  // A concrete failure: end 1 has a data send waiting when end 0 makes an untyped send with the same
  // number. End 1 reports success although end 0 has not enqueued anything.
  lemma UntypedSendCompletesAForeignSend() returns (run: seq<State>)
    ensures IsRun(run)
    ensures var last := run[|run| - 1];
      |last.ends| == 2 && last.ends[1].results == [Done] && last.ends[1].sent == [false] && last.ends[0].enqueued == []
  {
    var idle := End([], [], [], false, false);
    var s0 := State([idle, idle], [[], []]);
    var s1 := StartSendAt(s0, 1, false, 7);
    var s2 := StartSendAt(s1, 0, true, 5);
    var s3 := ReadAt(s2, 1);
    run := [s0, s1, s2, s3];
    assert Step(s0, s1, 1, false, 7);
    assert Step(s1, s2, 0, true, 5);
    assert Step(s2, s3, 1, false, 0);
  }

  // ---- the other half: every untyped send can break it -------------------------------------------

  ghost predicate Reachable(s: State) {
    exists run :: IsRun(run) && run[|run| - 1] == s
  }

  lemma ReachNext(s: State, s': State, e: nat, noElement: bool, tag: nat)
    requires Reachable(s) && Step(s, s', e, noElement, tag)
    ensures Reachable(s')
  {
    var run :| IsRun(run) && run[|run| - 1] == s;
    assert Next(s, s');
    LongerRun(run, s');
    assert (run + [s'])[|run|] == s';
  }

  lemma LongerRun(run: seq<State>, s': State)
    requires IsRun(run) && Next(run[|run| - 1], s')
    ensures IsRun(run + [s'])
  {
    var longer := run + [s'];
    forall i, j | 0 <= i && j == i + 1 && j < |longer| ensures Next(longer[i], longer[j]) {
      if j < |run| { assert longer[i] == run[i] && longer[j] == run[j]; }
    }
  }

  function Frames(kinds: seq<bool>, m: nat): (frames: seq<Wire>)
    requires m <= |kinds|
    ensures |frames| == m
  {
    seq(m, i requires 0 <= i < m => Wire(kinds[i], i, 0))
  }

  // End 1 has made `k` typed sends, end 0 the first m of `kinds`; nobody has read anything.
  function Started(kinds: seq<bool>, k: nat, m: nat): (s: State)
    requires m <= |kinds|
    ensures Shape(s) && s.ends[0].sent == kinds[..m] && |s.ends[1].sent| == k
    ensures s.ends[0].enqueued == [] && !s.ends[0].failed && !s.ends[1].failed && !s.ends[1].stopped
    ensures s.wires[0] == Frames(kinds, m)
    ensures forall i | 0 <= i < k :: !s.ends[1].sent[i] && s.ends[1].results[i].Waiting?
    decreases k + m
  {
    if m > 0 then StartSendAt(Started(kinds, k, m - 1), 0, kinds[m - 1], 0)
    else if k > 0 then StartSendAt(Started(kinds, k - 1, 0), 1, false, 0)
    else State([End([], [], [], false, false), End([], [], [], false, false)], [[], []])
  }

  lemma {:induction false} StartedIsReachable(kinds: seq<bool>, k: nat, m: nat)
    requires m <= |kinds|
    ensures Reachable(Started(kinds, k, m))
    decreases k + m
  {
    if m > 0 {
      StartedIsReachable(kinds, k, m - 1);
      ReachNext(Started(kinds, k, m - 1), Started(kinds, k, m), 0, kinds[m - 1], 0);
    } else if k > 0 {
      StartedIsReachable(kinds, k - 1, 0);
      ReachNext(Started(kinds, k - 1, 0), Started(kinds, k, 0), 1, false, 0);
    } else {
      var run := [Started(kinds, 0, 0)];
      assert IsRun(run) && run[|run| - 1] == Started(kinds, 0, 0);
    }
  }

  // End 1 has read j of end 0's frames; every untyped one completed its own send of that number.
  ghost predicate HasRead(kinds: seq<bool>, j: nat, s: State)
    requires j <= |kinds|
  {
    && Shape(s) && !s.ends[1].stopped && s.ends[0].sent == kinds && s.ends[0].enqueued == []
    && s.wires[0] == Frames(kinds, |kinds|)[j..]
    && |s.ends[1].sent| == |kinds| && (forall i | 0 <= i < |kinds| :: !s.ends[1].sent[i])
    && forall i | 0 <= i < |kinds| :: s.ends[1].results[i] == if i < j && kinds[i] then Done else Waiting
  }

  lemma ReadOne(kinds: seq<bool>, j: nat, s: State)
    requires j < |kinds| && HasRead(kinds, j, s)
    ensures s.wires[0] != [] && HasRead(kinds, j + 1, ReadAt(s, 1))
  {
    assert s.wires[0][0] == Wire(kinds[j], j, 0);
    assert s.wires[0][1..] == Frames(kinds, |kinds|)[j + 1..];
  }

  lemma {:induction false} ReadSome(kinds: seq<bool>, j: nat) returns (s: State)
    requires j <= |kinds|
    ensures Reachable(s) && HasRead(kinds, j, s)
  {
    if j == 0 {
      s := Started(kinds, |kinds|, |kinds|);
      StartedIsReachable(kinds, |kinds|, |kinds|);
      assert kinds[..|kinds|] == kinds;
    } else {
      var before := ReadSome(kinds, j - 1);
      ReadOne(kinds, j - 1, before);
      s := ReadAt(before, 1);
      assert Read(before, s, 1);
      ReachNext(before, s, 1, false, 0);
    }
  }

  // Whatever the other sends, one untyped send is enough: there is a run in which end 0 makes exactly
  // these sends and end 1 is told Ok for a typed send that end 0 never enqueued.
  lemma AnyUntypedSendCanBreakIt(kinds: seq<bool>, q: nat) returns (s: State)
    requires q < |kinds| && kinds[q]
    ensures Reachable(s) && Shape(s) && s.ends[0].sent == kinds
    ensures q < |s.ends[1].sent| && !s.ends[1].sent[q] && s.ends[1].results[q] == Done && s.ends[0].enqueued == []
  {
    s := ReadSome(kinds, |kinds|);
  }

  // The property over every run of one end's sends ...
  ghost predicate OkMeansEnqueued(kinds: seq<bool>) {
    forall s | Reachable(s) && Shape(s) && s.ends[0].sent == kinds ::
      forall q | 0 <= q < |s.ends[1].results| && s.ends[1].results[q].Done? :: EnqueuedOnce(s.ends[0], q)
  }

  // ... holds exactly when that end names an element type in each of them.
  lemma OkMeansEnqueuedExactlyWhenTyped(kinds: seq<bool>)
    ensures OkMeansEnqueued(kinds) <==> forall q | 0 <= q < |kinds| :: !kinds[q]
  {
    if forall q | 0 <= q < |kinds| :: !kinds[q] {
      forall s, q | Reachable(s) && Shape(s) && s.ends[0].sent == kinds && 0 <= q < |s.ends[1].results| && s.ends[1].results[q].Done?
        ensures EnqueuedOnce(s.ends[0], q)
      {
        var run :| IsRun(run) && run[|run| - 1] == s;
        TypedSendsAreEnqueuedOnce(run, |run| - 1, 1, q);
      }
    } else {
      var q :| 0 <= q < |kinds| && kinds[q];
      var s := AnyUntypedSendCanBreakIt(kinds, q);
      assert !EnqueuedOnce(s.ends[0], q);
    }
  }
}
