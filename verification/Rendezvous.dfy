// src/in_process/native.rs: the reusable rendezvous of NativeCommunicator::all_reduce.
//
// Any number of threads call in, several perhaps for one rank. A thread deposits under the lock once
// its rank's slot is free and no earlier generation is draining; the last to arrive runs the
// collective for all; each depositor then takes its rank's output, and the last to leave reopens.
module Rendezvous {
  import opened Wrappers

  datatype Operation = Sum | Mean

  datatype Failure<E> = ModesDiffer | Device(error: E) | WrongCount(returned: nat)

  datatype Submission<P, E> = Submission(operation: Operation, prepared: Result<P, Failure<E>>)

  type Outcome<T, E> = Result<T, Failure<E>>

  // The executor; its first argument numbers the executions, so equal inputs may fare differently.
  type Executor<!P, !T, !E> = (nat, seq<P>, Operation) -> Result<seq<T>, E>

  datatype State<P, T, E> = State(
    inputs: seq<Option<Submission<P, E>>>, outputs: seq<Option<Outcome<T, E>>>, arrived: nat, departed: nat, ready: bool)

  // ---- what the last arrival computes ------------------------------------------------------------

  function FirstError<P, E>(submissions: seq<Submission<P, E>>): Option<Failure<E>> {
    if submissions == [] then None
    else if submissions[0].prepared.Err? then Some(submissions[0].prepared.error)
    else FirstError(submissions[1..])
  }

  lemma {:induction false} NoErrorAllPrepared<P, E>(submissions: seq<Submission<P, E>>)
    ensures FirstError(submissions).None? <==> forall i | 0 <= i < |submissions| :: submissions[i].prepared.Ok?
  {
    if submissions != [] {
      NoErrorAllPrepared(submissions[1..]);
      assert forall i | 0 < i < |submissions| :: submissions[i] == submissions[1..][i - 1];
    }
  }

  predicate SameOperation<P, E>(submissions: seq<Submission<P, E>>) {
    forall i | 0 <= i < |submissions| :: submissions[i].operation == submissions[0].operation
  }

  predicate AllPrepared<P, E>(submissions: seq<Submission<P, E>>) {
    forall i | 0 <= i < |submissions| :: submissions[i].prepared.Ok?
  }

  function Tensors<P, E>(submissions: seq<Submission<P, E>>): seq<P>
    requires AllPrepared(submissions)
  {
    seq(|submissions|, i requires 0 <= i < |submissions| => submissions[i].prepared.value)
  }

  // Either every rank gets its own output, or every rank gets the same error.
  function Outcomes<P, T, E>(run: Executor<P, T, E>, k: nat, submissions: seq<Submission<P, E>>): (outcomes: seq<Outcome<T, E>>)
    requires submissions != []
    ensures |outcomes| == |submissions|
  {
    if !SameOperation(submissions) then AllFail(|submissions|, ModesDiffer)
    else
      match FirstError(submissions)
      case Some(e) => AllFail(|submissions|, e)
      case None =>
        NoErrorAllPrepared(submissions);
        match run(k, Tensors(submissions), submissions[0].operation)
        case Err(e) => AllFail(|submissions|, Device(e))
        case Ok(outputs) =>
          if |outputs| != |submissions| then AllFail(|submissions|, WrongCount(|outputs|))
          else seq(|outputs|, i requires 0 <= i < |outputs| => Ok(outputs[i]))
  }

  function AllFail<T, E>(world: nat, error: Failure<E>): (outcomes: seq<Outcome<T, E>>)
    ensures |outcomes| == world
  {
    seq(world, _ => Err(error))
  }

  // All ranks succeed together, exactly when their operations agree, every preparation succeeded and
  // the executor returned one output per rank; otherwise all ranks hear the same error.
  lemma OutcomesAreUniform<P, T, E>(run: Executor<P, T, E>, k: nat, submissions: seq<Submission<P, E>>, i: nat)
    requires i < |submissions|
    ensures Outcomes(run, k, submissions)[i].Ok? <==>
      && SameOperation(submissions) && AllPrepared(submissions)
      && var answer := run(k, Tensors(submissions), submissions[0].operation); answer.Ok? && |answer.value| == |submissions|
    ensures Outcomes(run, k, submissions)[i].Ok? ==>
      Outcomes(run, k, submissions)[i].value == run(k, Tensors(submissions), submissions[0].operation).value[i]
    ensures Outcomes(run, k, submissions)[i].Err? ==> Outcomes(run, k, submissions) == AllFail(|submissions|, Outcomes(run, k, submissions)[i].error)
  {
    NoErrorAllPrepared(submissions);
  }

  // Rank by rank, the tensors the submissions prepared.
  ghost predicate Prepared<P, E>(submissions: seq<Submission<P, E>>, tensors: seq<P>) {
    |tensors| == |submissions| && forall i | 0 <= i < |submissions| :: submissions[i].prepared == Ok(tensors[i])
  }

  lemma {:induction false} FirstErrorIsLeast<P, E>(submissions: seq<Submission<P, E>>) returns (rank: nat)
    requires FirstError(submissions).Some?
    ensures rank < |submissions| && submissions[rank].prepared == Err(FirstError(submissions).value)
    ensures forall i | 0 <= i < rank :: submissions[i].prepared.Ok?
  {
    rank := 0;
    if submissions[0].prepared.Ok? {
      var later := FirstErrorIsLeast(submissions[1..]);
      assert forall i | 0 < i < later + 1 :: submissions[i] == submissions[1..][i - 1];
      rank := later + 1;
    }
  }

  // What the caller of rank i hears: its own output of the common run; or, first of these, that the
  // operations differ, the least failing rank's error, the executor's error, or the wrong number of outputs.
  ghost predicate Hears<P(!new), T, E>(run: Executor<P, T, E>, k: nat, submissions: seq<Submission<P, E>>, i: nat, outcome: Outcome<T, E>)
    requires i < |submissions|
  {
    if exists j :: 0 <= j < |submissions| && submissions[j].operation != submissions[0].operation then outcome == Err(ModesDiffer)
    else if exists j :: 0 <= j < |submissions| && submissions[j].prepared.Err? then
      exists j :: 0 <= j < |submissions| && IsLeastFailure(submissions, j) && outcome == Err(submissions[j].prepared.error)
    else
      exists tensors :: Prepared(submissions, tensors) && match run(k, tensors, submissions[0].operation)
        case Err(error) => outcome == Err(Device(error))
        case Ok(outputs) => outcome == if |outputs| == |submissions| then Ok(outputs[i]) else Err(WrongCount(|outputs|))
  }

  ghost predicate IsLeastFailure<P, E>(submissions: seq<Submission<P, E>>, j: nat)
    requires j < |submissions|
  {
    submissions[j].prepared.Err? && forall h | 0 <= h < j :: submissions[h].prepared.Ok?
  }

  lemma OutcomesHeard<P(!new), T, E>(run: Executor<P, T, E>, k: nat, submissions: seq<Submission<P, E>>, i: nat)
    requires i < |submissions|
    ensures Hears(run, k, submissions, i, Outcomes(run, k, submissions)[i])
  {
    NoErrorAllPrepared(submissions);
    if SameOperation(submissions) {
      if FirstError(submissions).Some? {
        var j := FirstErrorIsLeast(submissions);
        assert IsLeastFailure(submissions, j);
      } else {
        assert Prepared(submissions, Tensors(submissions));
      }
    }
  }

  // ---- counting slots ----------------------------------------------------------------------------

  function CountSome<X>(slots: seq<Option<X>>): nat {
    if slots == [] then 0 else CountSome(slots[..|slots| - 1]) + (if slots[|slots| - 1].Some? then 1 else 0)
  }

  lemma {:induction false} CountUpdate<X>(slots: seq<Option<X>>, r: nat, slot: Option<X>)
    requires r < |slots|
    ensures CountSome(slots[r := slot]) == CountSome(slots) - (if slots[r].Some? then 1 else 0) + (if slot.Some? then 1 else 0)
  {
    var front := slots[..|slots| - 1];
    if r < |front| {
      CountUpdate(front, r, slot);
      assert slots[r := slot][..|slots| - 1] == front[r := slot];
    } else {
      assert slots[r := slot][..|slots| - 1] == front;
    }
  }

  lemma {:induction false} CountBounds<X>(slots: seq<Option<X>>)
    ensures CountSome(slots) <= |slots|
    ensures CountSome(slots) == |slots| <==> forall r | 0 <= r < |slots| :: slots[r].Some?
    ensures CountSome(slots) == 0 <==> forall r | 0 <= r < |slots| :: slots[r].None?
  {
    if slots != [] { CountBounds(slots[..|slots| - 1]); }
  }

  function Empty<X>(world: nat): (slots: seq<Option<X>>)
    ensures |slots| == world
  {
    seq(world, _ => None)
  }

  // ---- the state under the lock ------------------------------------------------------------------

  function Arrive<P, T, E>(s: State<P, T, E>, rank: nat, submission: Submission<P, E>): State<P, T, E>
    requires rank < |s.inputs|
  {
    s.(inputs := s.inputs[rank := Some(submission)], arrived := s.arrived + 1)
  }

  function Submissions<P, T, E>(s: State<P, T, E>): (submissions: seq<Submission<P, E>>)
    requires forall r | 0 <= r < |s.inputs| :: s.inputs[r].Some?
    ensures |submissions| == |s.inputs|
  {
    seq(|s.inputs|, r requires 0 <= r < |s.inputs| => s.inputs[r].value)
  }

  function Publish<P, T, E>(s: State<P, T, E>, outcomes: seq<Outcome<T, E>>): State<P, T, E> {
    s.(inputs := Empty(|s.inputs|), outputs := seq(|outcomes|, r requires 0 <= r < |outcomes| => Some(outcomes[r])), ready := true)
  }

  function Leave<P, T, E>(s: State<P, T, E>, rank: nat): State<P, T, E>
    requires rank < |s.outputs|
  {
    var left := s.(outputs := s.outputs[rank := None], departed := s.departed + 1);
    if left.departed == |s.inputs| then left.(arrived := 0, departed := 0, ready := false) else left
  }

  class NativeCommunicator<P, T, E> {
    const world: nat
    const run: Executor<P, T, E>
    var inputs: seq<Option<Submission<P, E>>>
    var outputs: seq<Option<Outcome<T, E>>>
    var arrived: nat
    var departed: nat
    var ready: bool

    ghost function Snapshot(): State<P, T, E>
      reads this
    {
      State(inputs, outputs, arrived, departed, ready)
    }

    constructor (world: nat, run: Executor<P, T, E>)
      ensures this.world == world && this.run == run
      ensures Snapshot() == State(Empty(world), Empty(world), 0, 0, false)
    {
      this.world, this.run := world, run;
      inputs, outputs := Empty(world), Empty(world);
      arrived, departed, ready := 0, 0, false;
    }

    // A call after its first wait: the slot is free and nothing is draining. The last to arrive runs
    // the collective and takes its output at once; anyone else waits for TakeOutput.
    method Deposit(rank: nat, submission: Submission<P, E>, execution: nat) returns (output: Option<Outcome<T, E>>)
      requires |inputs| == |outputs| == world && rank < world && !ready && inputs[rank].None? && departed < world
      requires arrived == CountSome(inputs)
      modifies this
      ensures var full := Arrive(old(Snapshot()), rank, submission);
        && (full.arrived < world ==> output.None? && Snapshot() == full)
        && (full.arrived == world ==>
              && (forall r | 0 <= r < world :: full.inputs[r].Some?)
              && var outcomes := Outcomes(run, execution, Submissions(full));
              output == Some(outcomes[rank]) && Snapshot() == Leave(Publish(full, outcomes), rank))
    {
      CountUpdate(inputs, rank, Some(submission));
      inputs := inputs[rank := Some(submission)];
      CountBounds(inputs);
      arrived := arrived + 1;
      if arrived < world { return None; }
      RunCollective(execution);
      var mine := TakeOutput(rank);
      output := Some(mine);
    }

    // The last arrival's part: everybody's submission is taken out, and the outcomes are put in place.
    method RunCollective(execution: nat)
      requires |inputs| == world > 0 && forall r | 0 <= r < world :: inputs[r].Some?
      modifies this`inputs, this`outputs, this`ready
      ensures Snapshot() == Publish(old(Snapshot()), Outcomes(run, execution, Submissions(old(Snapshot()))))
    {
      var full := inputs;
      var submissions := seq(|full|, r requires 0 <= r < |full| && full[r].Some? => full[r].value);
      assert submissions == Submissions(Snapshot());
      inputs := Empty(world);
      var outcomes := Execute(submissions, execution);
      outputs := seq(world, r requires 0 <= r < world && |outcomes| == world => Some(outcomes[r]));
      ready := true;
    }

    method Execute(submissions: seq<Submission<P, E>>, execution: nat) returns (outcomes: seq<Outcome<T, E>>)
      requires |submissions| == world > 0
      ensures outcomes == Outcomes(run, execution, submissions)
    {
      NoErrorAllPrepared(submissions);
      for i := 1 to |submissions|
        invariant forall j | 0 <= j < i :: submissions[j].operation == submissions[0].operation
      {
        if submissions[i].operation != submissions[0].operation { return AllFail(world, ModesDiffer); }
      }
      var error := FirstError(submissions);
      if error.Some? { return AllFail(world, error.value); }
      var answer := run(execution, Tensors(submissions), submissions[0].operation);
      if answer.Err? { return AllFail(world, Device(answer.error)); }
      if |answer.value| != world { return AllFail(world, WrongCount(|answer.value|)); }
      outcomes := seq(world, r requires 0 <= r < |answer.value| => Ok(answer.value[r]));
    }

    method TakeOutput(rank: nat) returns (output: Outcome<T, E>)
      requires |inputs| == |outputs| == world && rank < world && ready && outputs[rank].Some?
      modifies this
      ensures output == old(outputs[rank].value) && Snapshot() == Leave(old(Snapshot()), rank)
    {
      output := outputs[rank].value;
      outputs := outputs[rank := None];
      departed := departed + 1;
      if departed == world {
        arrived, departed, ready := 0, 0, false;
      }
    }
  }

  // ---- all calling threads -----------------------------------------------------------------------

  // A call that has deposited: its rank, generation and submission, and what it took once it left.
  datatype Caller<P, T, E> = Caller(rank: nat, generation: nat, submission: Submission<P, E>, taken: Option<Outcome<T, E>>)

  datatype World<P, T, E> = World(
    state: State<P, T, E>, callers: map<nat, Caller<P, T, E>>,
    submitted: seq<seq<Submission<P, E>>>, results: seq<seq<Outcome<T, E>>>)

  datatype Action<P, E> = DepositBy(thread: nat, rank: nat, submission: Submission<P, E>) | TakeBy(thread: nat)

  // The generation that is filling or draining.
  function Current<P, T, E>(w: World<P, T, E>): int {
    if w.state.ready then |w.results| - 1 else |w.results|
  }

  predicate Enabled<P, T, E>(w: World<P, T, E>, action: Action<P, E>) {
    match action
    case DepositBy(t, r, _) => t !in w.callers && r < |w.state.inputs| && !w.state.ready && w.state.inputs[r].None?
    case TakeBy(t) => t in w.callers && w.callers[t].taken.None? && w.state.ready
  }

  function AddCaller<P, T, E>(w: World<P, T, E>, t: nat, r: nat, submission: Submission<P, E>): World<P, T, E>
    requires r < |w.state.inputs|
  {
    w.(state := Arrive(w.state, r, submission), callers := w.callers[t := Caller(r, |w.results|, submission, None)])
  }

  function RunAll<P, T, E>(w: World<P, T, E>, run: Executor<P, T, E>): World<P, T, E>
    requires w.state.inputs != [] && forall r | 0 <= r < |w.state.inputs| :: w.state.inputs[r].Some?
  {
    var submissions := Submissions(w.state);
    var outcomes := Outcomes(run, |w.results|, submissions);
    w.(state := Publish(w.state, outcomes), submitted := w.submitted + [submissions], results := w.results + [outcomes])
  }

  function Take<P, T, E>(w: World<P, T, E>, t: nat): World<P, T, E>
    requires t in w.callers && w.callers[t].rank < |w.state.outputs| && w.state.outputs[w.callers[t].rank].Some?
  {
    var caller := w.callers[t];
    w.(state := Leave(w.state, caller.rank), callers := w.callers[t := caller.(taken := w.state.outputs[caller.rank])])
  }

  function Start<P, T, E>(world: nat): World<P, T, E> {
    World(State(Empty(world), Empty(world), 0, 0, false), map[], [], [])
  }

  // ---- the invariant -----------------------------------------------------------------------------

  ghost predicate Shape<P, T, E>(w: World<P, T, E>, world: nat) {
    && 0 < world && |w.state.inputs| == |w.state.outputs| == world && |w.submitted| == |w.results|
    && (forall k | 0 <= k < |w.results| :: |w.submitted[k]| == |w.results[k]| == world)
  }

  ghost predicate Filling<P, T, E>(w: World<P, T, E>, world: nat)
    requires Shape(w, world)
  {
    && !w.state.ready && w.state.departed == 0 && w.state.arrived == CountSome(w.state.inputs)
    && (forall r | 0 <= r < world :: w.state.outputs[r].None?)
  }

  ghost predicate Draining<P, T, E>(w: World<P, T, E>, world: nat)
    requires Shape(w, world)
  {
    && w.state.ready && |w.results| > 0 && w.state.arrived == world
    && w.state.departed + CountSome(w.state.outputs) == world && CountSome(w.state.outputs) > 0
    && (forall r | 0 <= r < world :: w.state.inputs[r].None?)
    && (forall r | 0 <= r < world && w.state.outputs[r].Some? :: w.state.outputs[r].value == w.results[|w.results| - 1][r])
  }

  ghost predicate CallerInv<P, T, E>(w: World<P, T, E>, world: nat, caller: Caller<P, T, E>)
    requires Shape(w, world)
  {
    && caller.rank < world && caller.generation <= Current(w)
    && (caller.generation < |w.results| ==> w.submitted[caller.generation][caller.rank] == caller.submission)
    && (caller.taken.Some? ==> caller.generation < |w.results| && caller.taken.value == w.results[caller.generation][caller.rank])
    && (caller.generation < Current(w) ==> caller.taken.Some?)
    && (caller.generation == Current(w) && w.state.ready ==> (caller.taken.None? <==> w.state.outputs[caller.rank].Some?))
    && (caller.generation == |w.results| ==> w.state.inputs[caller.rank] == Some(caller.submission))
  }

  ghost predicate HasCaller<P, T, E>(callers: map<nat, Caller<P, T, E>>, k: nat, r: nat) {
    exists t :: t in callers && callers[t].generation == k && callers[t].rank == r
  }

  // One call per rank and generation, and one for each rank of an executed generation.
  ghost predicate OneEach<P, T, E>(w: World<P, T, E>, world: nat)
    requires Shape(w, world)
  {
    && (forall s, t | s in w.callers && t in w.callers && w.callers[s].generation == w.callers[t].generation &&
          w.callers[s].rank == w.callers[t].rank :: s == t)
    && (forall k, r: nat | 0 <= k < |w.results| && r < world :: HasCaller(w.callers, k, r))
    && (forall r: nat | r < world && w.state.inputs[r].Some? :: HasCaller(w.callers, |w.results|, r))
  }

  ghost predicate Executed<P, T, E>(w: World<P, T, E>, world: nat, run: Executor<P, T, E>)
    requires Shape(w, world)
  {
    forall k | 0 <= k < |w.results| :: w.results[k] == Outcomes(run, k, w.submitted[k])
  }

  // Between steps a filling generation still lacks somebody.
  ghost predicate Settled<P, T, E>(w: World<P, T, E>, world: nat)
    requires Shape(w, world)
  {
    Draining(w, world) || (Filling(w, world) && w.state.arrived < world)
  }

  ghost predicate Common<P, T, E>(w: World<P, T, E>, world: nat, run: Executor<P, T, E>) {
    && Shape(w, world) && OneEach(w, world) && Executed(w, world, run)
    && (forall t | t in w.callers :: CallerInv(w, world, w.callers[t]))
  }

  ghost predicate Inv<P, T, E>(w: World<P, T, E>, world: nat, run: Executor<P, T, E>) {
    Common(w, world, run) && Settled(w, world)
  }

  // ---- each part of a step -----------------------------------------------------------------------

  lemma AddCallerFills<P, T, E>(w: World<P, T, E>, world: nat, t: nat, r: nat, submission: Submission<P, E>)
    requires Shape(w, world) && Filling(w, world) && r < world && w.state.inputs[r].None?
    ensures var next := AddCaller(w, t, r, submission); Shape(next, world) && Filling(next, world)
  {
    CountUpdate(w.state.inputs, r, Some(submission));
  }

  lemma AddCallerOneEach<P, T, E>(w: World<P, T, E>, world: nat, t: nat, r: nat, submission: Submission<P, E>)
    requires Shape(w, world) && OneEach(w, world) && forall s | s in w.callers :: CallerInv(w, world, w.callers[s])
    requires t !in w.callers && r < world && !w.state.ready && w.state.inputs[r].None?
    ensures var next := AddCaller(w, t, r, submission); Shape(next, world) && OneEach(next, world)
  {
    var next := AddCaller(w, t, r, submission);
    forall k, q: nat | HasCaller(w.callers, k, q) ensures HasCaller(next.callers, k, q) {
      var s :| s in w.callers && w.callers[s].generation == k && w.callers[s].rank == q;
      assert s in next.callers && next.callers[s] == w.callers[s];
    }
    assert t in next.callers && next.callers[t].generation == |w.results| && next.callers[t].rank == r;
    forall s | s in w.callers && w.callers[s].generation == |w.results| ensures w.callers[s].rank != r {
      assert CallerInv(w, world, w.callers[s]);
    }
  }

  lemma AddCallerKeeps<P, T, E>(w: World<P, T, E>, world: nat, run: Executor<P, T, E>, t: nat, r: nat, submission: Submission<P, E>)
    requires Common(w, world, run) && t !in w.callers && r < world && !w.state.ready && w.state.inputs[r].None?
    ensures Common(AddCaller(w, t, r, submission), world, run)
  {
    var next := AddCaller(w, t, r, submission);
    AddCallerOneEach(w, world, t, r, submission);
    forall s | s in next.callers ensures CallerInv(next, world, next.callers[s]) {
      if s != t { assert CallerInv(w, world, w.callers[s]); }
    }
  }

  lemma RunAllDrains<P, T, E>(w: World<P, T, E>, world: nat, run: Executor<P, T, E>)
    requires Shape(w, world) && Filling(w, world) && w.state.arrived == world
    requires forall r | 0 <= r < |w.state.inputs| :: w.state.inputs[r].Some?
    ensures var next := RunAll(w, run); Shape(next, world) && Draining(next, world)
  {
    CountBounds(RunAll(w, run).state.outputs);
  }

  lemma RunAllCaller<P, T, E>(w: World<P, T, E>, world: nat, run: Executor<P, T, E>, caller: Caller<P, T, E>)
    requires Shape(w, world) && !w.state.ready && CallerInv(w, world, caller)
    requires forall r | 0 <= r < |w.state.inputs| :: w.state.inputs[r].Some?
    ensures var next := RunAll(w, run); Shape(next, world) && CallerInv(next, world, caller)
  {
  }

  lemma RunAllOneEach<P, T, E>(w: World<P, T, E>, world: nat, run: Executor<P, T, E>)
    requires Shape(w, world) && OneEach(w, world)
    requires forall r | 0 <= r < |w.state.inputs| :: w.state.inputs[r].Some?
    ensures var next := RunAll(w, run); Shape(next, world) && OneEach(next, world)
  {
  }

  lemma RunAllKeeps<P, T, E>(w: World<P, T, E>, world: nat, run: Executor<P, T, E>)
    requires Common(w, world, run) && !w.state.ready
    requires forall r | 0 <= r < |w.state.inputs| :: w.state.inputs[r].Some?
    ensures Common(RunAll(w, run), world, run)
  {
    RunAllOneEach(w, world, run);
    forall t | t in w.callers ensures CallerInv(RunAll(w, run), world, w.callers[t]) {
      RunAllCaller(w, world, run, w.callers[t]);
    }
  }

  lemma TakeDrains<P, T, E>(w: World<P, T, E>, world: nat, t: nat)
    requires Shape(w, world) && Draining(w, world)
    requires t in w.callers && w.callers[t].rank < world && w.state.outputs[w.callers[t].rank].Some?
    ensures var next := Take(w, t); Shape(next, world) && Settled(next, world)
  {
    var next := Take(w, t);
    CountUpdate(w.state.outputs, w.callers[t].rank, None);
    CountBounds(w.state.outputs[w.callers[t].rank := None]);
    CountBounds(w.state.inputs);
  }

  lemma TakeOneEach<P, T, E>(w: World<P, T, E>, world: nat, t: nat)
    requires Shape(w, world) && OneEach(w, world)
    requires t in w.callers && w.callers[t].rank < world && w.state.outputs[w.callers[t].rank].Some?
    ensures var next := Take(w, t); Shape(next, world) && OneEach(next, world)
  {
    var next := Take(w, t);
    forall k, q: nat | HasCaller(w.callers, k, q) ensures HasCaller(next.callers, k, q) {
      var s :| s in w.callers && w.callers[s].generation == k && w.callers[s].rank == q;
      assert s in next.callers && next.callers[s].generation == k && next.callers[s].rank == q;
    }
  }

  // The last to leave reopens the group, and then every rank's output was taken.
  lemma LastLeaveEmpties<P, T, E>(w: World<P, T, E>, world: nat, r: nat)
    requires Shape(w, world) && Draining(w, world) && r < world && w.state.outputs[r].Some?
    ensures !Leave(w.state, r).ready ==> forall q | 0 <= q < world && q != r :: w.state.outputs[q].None?
    ensures Leave(w.state, r).ready ==> Leave(w.state, r).outputs == w.state.outputs[r := None]
  {
    CountUpdate(w.state.outputs, r, None);
    CountBounds(w.state.outputs[r := None]);
    assert forall q | 0 <= q < world && q != r :: w.state.outputs[r := None][q] == w.state.outputs[q];
  }

  lemma TakeOther<P, T, E>(w: World<P, T, E>, world: nat, t: nat, s: nat)
    requires Shape(w, world) && OneEach(w, world) && Draining(w, world)
    requires t in w.callers && CallerInv(w, world, w.callers[t]) && w.callers[t].taken.None?
    requires w.callers[t].generation == Current(w) && w.state.outputs[w.callers[t].rank].Some?
    requires s in w.callers && s != t && CallerInv(w, world, w.callers[s])
    ensures Shape(Take(w, t), world) && CallerInv(Take(w, t), world, w.callers[s])
  {
    LastLeaveEmpties(w, world, w.callers[t].rank);
    assert w.callers[s].generation == Current(w) ==> w.callers[s].rank != w.callers[t].rank;
  }

  lemma TakeOwn<P, T, E>(w: World<P, T, E>, world: nat, t: nat)
    requires Shape(w, world) && Draining(w, world)
    requires t in w.callers && CallerInv(w, world, w.callers[t]) && w.callers[t].taken.None?
    requires w.callers[t].generation == Current(w) && w.state.outputs[w.callers[t].rank].Some?
    ensures Shape(Take(w, t), world) && CallerInv(Take(w, t), world, Take(w, t).callers[t])
  {
    LastLeaveEmpties(w, world, w.callers[t].rank);
  }

  lemma TakeCallers<P, T, E>(w: World<P, T, E>, world: nat, run: Executor<P, T, E>, t: nat)
    requires Common(w, world, run) && Draining(w, world)
    requires t in w.callers && w.callers[t].taken.None? && w.callers[t].generation == Current(w)
    requires w.state.outputs[w.callers[t].rank].Some?
    ensures var next := Take(w, t); Shape(next, world) && forall s | s in next.callers :: CallerInv(next, world, next.callers[s])
  {
    TakeOwn(w, world, t);
    forall s | s in w.callers && s != t ensures CallerInv(Take(w, t), world, w.callers[s]) {
      TakeOther(w, world, t, s);
    }
  }

  // A waiting thread always finds its generation's output in its rank's slot.
  lemma OutputIsThere<P, T, E>(w: World<P, T, E>, world: nat, run: Executor<P, T, E>, t: nat)
    requires Inv(w, world, run) && Enabled(w, TakeBy(t))
    ensures w.callers[t].rank < world && w.callers[t].generation == Current(w) == |w.results| - 1
    ensures w.state.outputs[w.callers[t].rank] == Some(w.results[w.callers[t].generation][w.callers[t].rank])
  {
    assert CallerInv(w, world, w.callers[t]);
  }

  lemma TakeInv<P, T, E>(w: World<P, T, E>, world: nat, run: Executor<P, T, E>, t: nat)
    requires Inv(w, world, run) && Enabled(w, TakeBy(t))
    ensures w.callers[t].rank < world && w.state.outputs[w.callers[t].rank].Some? && Inv(Take(w, t), world, run)
  {
    OutputIsThere(w, world, run, t);
    TakeDrains(w, world, t);
    TakeOneEach(w, world, t);
    TakeCallers(w, world, run, t);
  }

  // ---- steps and runs ----------------------------------------------------------------------------

  // The last to arrive runs the collective and leaves in the same step, as it never gives up the lock.
  ghost predicate Step<P, T, E>(w: World<P, T, E>, world: nat, run: Executor<P, T, E>, action: Action<P, E>, next: World<P, T, E>) {
    Enabled(w, action) &&
    match action
    case DepositBy(t, r, submission) =>
      var full := AddCaller(w, t, r, submission);
      if full.state.arrived != world then next == full
      else
        && full.state.inputs != [] && (forall q | 0 <= q < |full.state.inputs| :: full.state.inputs[q].Some?)
        && var ran := RunAll(full, run);
        r < |ran.state.outputs| && ran.state.outputs[r].Some? && next == Take(ran, t)
    case TakeBy(t) =>
      w.callers[t].rank < |w.state.outputs| && w.state.outputs[w.callers[t].rank].Some? && next == Take(w, t)
  }

  lemma DepositInv<P, T, E>(w: World<P, T, E>, world: nat, run: Executor<P, T, E>, t: nat, r: nat, submission: Submission<P, E>, next: World<P, T, E>)
    requires Inv(w, world, run) && Step(w, world, run, DepositBy(t, r, submission), next)
    ensures Inv(next, world, run)
  {
    var full := AddCaller(w, t, r, submission);
    AddCallerFills(w, world, t, r, submission);
    AddCallerKeeps(w, world, run, t, r, submission);
    CountBounds(full.state.inputs);
    if full.state.arrived == world {
      RunAllDrains(full, world, run);
      RunAllKeeps(full, world, run);
      TakeInv(RunAll(full, run), world, run, t);
    }
  }

  ghost predicate IsRun<P(!new), T, E(!new)>(trace: seq<World<P, T, E>>, world: nat, run: Executor<P, T, E>) {
    && trace != [] && trace[0] == Start(world)
    && forall i | 0 <= i < |trace| - 1 :: Moves(trace[i], world, run, trace[i + 1])
  }

  ghost predicate Moves<P(!new), T, E(!new)>(w: World<P, T, E>, world: nat, run: Executor<P, T, E>, next: World<P, T, E>) {
    exists action :: Step(w, world, run, action, next)
  }

  lemma StartInv<P, T, E>(world: nat, run: Executor<P, T, E>)
    requires 0 < world
    ensures Inv(Start(world), world, run)
  {
    CountBounds<Submission<P, E>>(Empty(world));
  }

  lemma {:induction false} RunInv<P(!new), T, E(!new)>(trace: seq<World<P, T, E>>, world: nat, run: Executor<P, T, E>)
    requires 0 < world && IsRun(trace, world, run)
    ensures Inv(trace[|trace| - 1], world, run)
  {
    if |trace| == 1 {
      StartInv(world, run);
    } else {
      var before, next := trace[|trace| - 2], trace[|trace| - 1];
      assert trace[..|trace| - 1][|trace| - 2] == before;
      RunInv(trace[..|trace| - 1], world, run);
      assert Moves(before, world, run, next);
      var action :| Step(before, world, run, action, next);
      match action
      case DepositBy(t, r, submission) => DepositInv(before, world, run, t, r, submission, next);
      case TakeBy(t) => TakeInv(before, world, run, t);
    }
  }

  // What the rendezvous is for. A call that has left took the outcome of its own generation: its
  // rank's share of what the executor made of that generation's submissions, its own among them, one
  // from each rank. Nobody else takes that share, and no deposit joins a generation still draining.
  lemma EveryCallGetsItsGeneration<P(!new), T, E(!new)>(trace: seq<World<P, T, E>>, world: nat, run: Executor<P, T, E>, t: nat)
    requires 0 < world && IsRun(trace, world, run) && t in trace[|trace| - 1].callers
    ensures var w := trace[|trace| - 1]; var caller := w.callers[t];
      && caller.rank < world && |w.submitted| == |w.results|
      && (forall s | s in w.callers && w.callers[s].rank == caller.rank && w.callers[s].generation == caller.generation :: s == t)
      && (caller.taken.Some? ==>
            && caller.generation < |w.results| && |w.submitted[caller.generation]| == world
            && w.submitted[caller.generation][caller.rank] == caller.submission
            && caller.taken == Some(Outcomes(run, caller.generation, w.submitted[caller.generation])[caller.rank]))
  {
    RunInv(trace, world, run);
    assert CallerInv(trace[|trace| - 1], world, trace[|trace| - 1].callers[t]);
  }

  // Every generation before the current one was left by exactly one call of each rank.
  lemma EarlierGenerationsAreComplete<P(!new), T, E(!new)>(trace: seq<World<P, T, E>>, world: nat, run: Executor<P, T, E>, k: nat, r: nat)
    requires 0 < world && IsRun(trace, world, run) && k < Current(trace[|trace| - 1]) && r < world
    ensures var callers := trace[|trace| - 1].callers; exists t :: Left(callers, t, k, r) && forall s | Left(callers, s, k, r) :: s == t
  {
    RunInv(trace, world, run);
    var w := trace[|trace| - 1];
    assert HasCaller(w.callers, k, r);
    var t :| t in w.callers && w.callers[t].generation == k && w.callers[t].rank == r;
    assert CallerInv(w, world, w.callers[t]);
    assert Left(w.callers, t, k, r);
  }

  ghost predicate Left<P, T, E>(callers: map<nat, Caller<P, T, E>>, t: nat, k: nat, r: nat) {
    t in callers && callers[t].generation == k && callers[t].rank == r && callers[t].taken.Some?
  }

  // The group never gets stuck: while somebody waits, a waiting call can leave, or some rank's slot is
  // open for the generation that is filling.
  lemma NeverStuck<P(!new), T, E(!new)>(trace: seq<World<P, T, E>>, world: nat, run: Executor<P, T, E>)
    requires 0 < world && IsRun(trace, world, run)
    ensures var w := trace[|trace| - 1];
      if w.state.ready then exists t :: t in w.callers && w.callers[t].taken.None? && w.callers[t].generation == Current(w)
      else exists r :: 0 <= r < |w.state.inputs| && w.state.inputs[r].None?
  {
    RunInv(trace, world, run);
    var w := trace[|trace| - 1];
    CountBounds(w.state.inputs);
    CountBounds(w.state.outputs);
    if w.state.ready {
      var r: nat :| r < world && w.state.outputs[r].Some?;
      assert HasCaller(w.callers, |w.results| - 1, r);
      var t :| t in w.callers && w.callers[t].generation == |w.results| - 1 && w.callers[t].rank == r;
      assert CallerInv(w, world, w.callers[t]);
    }
  }

  // An action that is enabled can be taken: the last deposit finds every slot full and runs the
  // collective, and a caller that leaves finds its output.
  lemma EnabledSteps<P, T, E>(w: World<P, T, E>, world: nat, run: Executor<P, T, E>, action: Action<P, E>) returns (next: World<P, T, E>)
    requires Inv(w, world, run) && Enabled(w, action)
    ensures Step(w, world, run, action, next)
  {
    match action
    case DepositBy(t, r, submission) =>
      var full := AddCaller(w, t, r, submission);
      AddCallerFills(w, world, t, r, submission);
      CountBounds(full.state.inputs);
      next := if full.state.arrived != world then full else Take(RunAll(full, run), t);
    case TakeBy(t) =>
      OutputIsThere(w, world, run, t);
      next := Take(w, t);
  }

  // So every run goes on with whatever is enabled.
  lemma RunsGoOn<P(!new), T, E(!new)>(trace: seq<World<P, T, E>>, world: nat, run: Executor<P, T, E>, action: Action<P, E>) returns (next: World<P, T, E>)
    requires 0 < world && IsRun(trace, world, run) && Enabled(trace[|trace| - 1], action)
    ensures Step(trace[|trace| - 1], world, run, action, next) && IsRun(trace + [next], world, run)
  {
    RunInv(trace, world, run);
    next := EnabledSteps(trace[|trace| - 1], world, run, action);
    assert Moves(trace[|trace| - 1], world, run, next);
  }
}
