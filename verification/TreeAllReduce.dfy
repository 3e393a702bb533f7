// src/global/node/tree.rs, centralized.rs: the all-reduce over a tree or a star. The tensors are reduced
// up under transfer number 0; what the root then holds is broadcast down under number 1.
//
// A node is its position in the sorted node list, so the root is the least node.
module TreeAllReduce {
  import opened Wrappers
  import opened RingMath
  import opened DataService
  import RootedTree
  import U = RootedReduce
  import D = RootedBroadcast

  datatype Plan<!T(!new)> = Plan(op: (T, T) -> T, x: seq<T>, arity: nat, waits: bool) {
    function Size(): nat { |x| }

    ghost predicate Valid() { |x| > 0 && arity > 0 && Associative(op) && Commutative(op) }

    function Up(): U.Plan<T> { U.Plan(op, x, arity, 0, false, waits) }
  }

  datatype State<T> = State(up: U.State<T>, down: D.State<T>)

  datatype Action = Rise(rise: U.Action) | Fall(fall: D.Action)

  // A broadcast of `tensor` from the root.
  function Broadcasting<T(!new)>(plan: Plan<T>, tensor: Option<T>): D.Plan<T> {
    D.Plan(seq(plan.Size(), i => if i == 0 then tensor else None), plan.arity, 1, plan.waits)
  }

  // What the root has to broadcast is what it reduced.
  function Downward<T(!new)>(plan: Plan<T>, up: U.State<T>): D.Plan<T>
    requires plan.Size() > 0 && |up.nodes| == plan.Size()
  {
    Broadcasting(plan, if up.nodes[0].phase.Done? then up.nodes[0].phase.result else None)
  }

  ghost predicate Shape<T(!new)>(plan: Plan<T>, s: State<T>) {
    plan.Valid() && |s.up.nodes| == plan.Size() && D.Shape(Downward(plan, s.up), s.down)
  }

  // A node turns to the second transfer once it is done with the first.
  ghost predicate Enabled<T(!new)>(plan: Plan<T>, s: State<T>, action: Action)
    requires Shape(plan, s)
  {
    match action
    case Rise(rise) => U.Enabled(plan.Up(), s.up, rise)
    case Fall(fall) =>
      D.Actor(fall) < plan.Size() && s.up.nodes[D.Actor(fall)].phase.Done? && D.Enabled(Downward(plan, s.up), s.down, fall)
  }

  ghost function Next<T(!new)>(plan: Plan<T>, s: State<T>, action: Action): (next: State<T>)
    requires Shape(plan, s) && Enabled(plan, s, action)
    ensures Shape(plan, next)
  {
    match action
    case Rise(rise) => s.(up := U.Next(plan.Up(), s.up, rise))
    case Fall(fall) => s.(down := D.Next(Downward(plan, s.up), s.down, fall))
  }

  function Actor(action: Action): nat {
    match action
    case Rise(rise) => rise.node
    case Fall(fall) => D.Actor(fall)
  }

  // A step looks at one node and what is on offer only.
  lemma StepElsewhere<T(!new)>(plan: Plan<T>, s: State<T>, z: State<T>, action: Action)
    requires Shape(plan, s) && Enabled(plan, s, action) && Shape(plan, z) && z.up.offers == s.up.offers && z.down.offers == s.down.offers
    requires z.up.nodes[Actor(action)] == s.up.nodes[Actor(action)] && z.down.nodes[Actor(action)] == s.down.nodes[Actor(action)]
    ensures Enabled(plan, z, action)
    ensures var next, there := Next(plan, s, action), Next(plan, z, action); var i := Actor(action);
      && there.up.nodes == z.up.nodes[i := next.up.nodes[i]] && there.up.offers == next.up.offers
      && there.down.nodes == z.down.nodes[i := next.down.nodes[i]] && there.down.offers == next.down.offers
  {
    match action
    case Rise(rise) => U.StepElsewhere(plan.Up(), s.up, z.up, rise);
    case Fall(fall) => D.StepElsewhere(Downward(plan, s.up), s.down, Downward(plan, z.up), z.down, fall);
  }

  ghost predicate Init<T(!new)>(plan: Plan<T>, s: State<T>) {
    Shape(plan, s) && U.Init(plan.Up(), s.up) && D.Init(Downward(plan, s.up), s.down)
  }

  ghost predicate Step<T(!new)>(plan: Plan<T>, s: State<T>, next: State<T>) {
    Shape(plan, s) && exists action :: Enabled(plan, s, action) && next == Next(plan, s, action)
  }

  ghost predicate IsRun<T(!new)>(plan: Plan<T>, run: seq<State<T>>) {
    run != [] && Init(plan, run[0]) && forall i, j | 0 <= i && j == i + 1 && j < |run| :: Step(plan, run[i], run[j])
  }

  // ---- the invariant -----------------------------------------------------------------------------

  // The broadcast of the sum of all tensors.
  ghost function Goal<T(!new)>(plan: Plan<T>): (goal: D.Plan<T>)
    requires plan.Valid()
    ensures goal.Valid() && goal.Size() == plan.Size()
  {
    Broadcasting(plan, Some(LeftFold(plan.op, plan.x)))
  }

  ghost predicate Inv<T(!new)>(plan: Plan<T>, s: State<T>)
    requires plan.Valid()
  {
    && U.Inv(plan.Up(), s.up) && D.Inv(Goal(plan), s.down)
    && (forall i | 0 <= i < plan.Size() :: s.down.nodes[i].Waiting? || s.up.nodes[i].phase.Done?)
  }

  // When the root starts to broadcast, it broadcasts the sum.
  lemma RootBroadcastsTheSum<T(!new)>(plan: Plan<T>, up: U.State<T>)
    requires plan.Valid() && U.Inv(plan.Up(), up) && up.nodes[0].phase.Done?
    ensures Downward(plan, up) == Goal(plan)
  {
    assert U.NodeInv(plan.Up(), 0, up.nodes[0]);
    U.DoneResult(plan.Up(), 0, up.nodes[0]);
    RootedTree.RootHoldsTheSum(plan.op, plan.x, plan.arity);
  }

  lemma FallsTowardsTheGoal<T(!new)>(plan: Plan<T>, s: State<T>, fall: D.Action)
    requires plan.Valid() && Inv(plan, s) && Shape(plan, s) && Enabled(plan, s, Fall(fall))
    ensures D.Enabled(Goal(plan), s.down, fall)
    ensures D.Next(Downward(plan, s.up), s.down, fall) == D.Next(Goal(plan), s.down, fall)
  {
    if fall.Start? { RootBroadcastsTheSum(plan, s.up); }
  }

  lemma StepInv<T(!new)>(plan: Plan<T>, s: State<T>, action: Action)
    requires plan.Valid() && Inv(plan, s) && Shape(plan, s) && Enabled(plan, s, action)
    ensures Inv(plan, Next(plan, s, action))
  {
    var next := Next(plan, s, action);
    match action
    case Rise(rise) =>
      U.StepInv(plan.Up(), s.up, rise);
      assert forall i | 0 <= i < plan.Size() && i != rise.node :: next.up.nodes[i] == s.up.nodes[i];
    case Fall(fall) =>
      FallsTowardsTheGoal(plan, s, fall);
      D.StepInv(Goal(plan), s.down, fall);
  }

  // ---- every run ---------------------------------------------------------------------------------

  lemma {:induction false} RunInv<T(!new)>(plan: Plan<T>, run: seq<State<T>>, i: nat)
    requires plan.Valid() && IsRun(plan, run) && i < |run|
    ensures Inv(plan, run[i]) && Shape(plan, run[i])
  {
    if i == 0 {
      U.InitInv(plan.Up(), run[0].up);
    } else {
      RunInv(plan, run, i - 1);
      assert Step(plan, run[i - 1], run[i]);
      var action :| Enabled(plan, run[i - 1], action) && run[i] == Next(plan, run[i - 1], action);
      StepInv(plan, run[i - 1], action);
    }
  }

  // Whoever finishes holds the sum of all tensors; a node fails only by losing a child it had not added
  // yet, or its parent.
  lemma FinishedNodesHoldTheSum<T(!new)>(plan: Plan<T>, run: seq<State<T>>, i: nat, p: nat)
    requires plan.Valid() && IsRun(plan, run) && i < |run| && p < plan.Size()
    ensures Shape(plan, run[i])
    ensures run[i].down.nodes[p].Done? ==> run[i].down.nodes[p].tensor == LeftFold(plan.op, plan.x)
    ensures run[i].up.nodes[p].phase.Failed? ==> U.ChildOf(plan.Up(), p, run[i].up.nodes[p].phase.lost)
    ensures run[i].down.nodes[p].Failed? ==> p > 0 && run[i].down.nodes[p].error == D.ParentLost(RootedTree.ParentOf(p, plan.arity))
  {
    RunInv(plan, run, i);
    assert U.NodeInv(plan.Up(), p, run[i].up.nodes[p]);
    assert D.StatusInv(Goal(plan), p, run[i].down.nodes[p]);
  }

  // ---- progress ----------------------------------------------------------------------------------

  ghost predicate Unbroken<T>(s: State<T>) { U.Unbroken(s.up) && D.Unbroken(s.down) }

  predicate Loses(action: Action) {
    match action
    case Rise(rise) => rise.Lose?
    case Fall(fall) => fall.Lose?
  }

  ghost predicate CanMove<T(!new)>(plan: Plan<T>, s: State<T>)
    requires Shape(plan, s)
  {
    exists action :: Enabled(plan, s, action) && !Loses(action)
  }

  lemma SomebodyMoves<T(!new)>(plan: Plan<T>, s: State<T>, p: nat)
    requires plan.Valid() && Inv(plan, s) && Shape(plan, s) && Unbroken(s) && p < plan.Size() && !s.down.nodes[p].Done?
    ensures CanMove(plan, s)
  {
    if exists j :: 0 <= j < plan.Size() && !s.up.nodes[j].phase.Done? {
      var j :| 0 <= j < plan.Size() && !s.up.nodes[j].phase.Done?;
      U.SomebodyMoves(plan.Up(), s.up, j);
      var rise :| U.Enabled(plan.Up(), s.up, rise) && !rise.Lose?;
      assert Enabled(plan, s, Rise(rise)) && !Loses(Rise(rise));
    } else {
      RootBroadcastsTheSum(plan, s.up);
      D.SomebodyMoves(Goal(plan), s.down, p);
      var fall :| D.Enabled(Goal(plan), s.down, fall) && !fall.Lose?;
      assert Enabled(plan, s, Fall(fall)) && !Loses(Fall(fall));
    }
  }

  // While nobody has failed and somebody has not finished, a node can move, also when the service makes
  // every node wait for its downloads.
  lemma NeverStuck<T(!new)>(plan: Plan<T>, run: seq<State<T>>, i: nat, p: nat)
    requires plan.Valid() && IsRun(plan, run) && i < |run| && Shape(plan, run[i]) && p < plan.Size()
    requires Unbroken(run[i]) && !run[i].down.nodes[p].Done?
    ensures CanMove(plan, run[i])
  {
    RunInv(plan, run, i);
    SomebodyMoves(plan, run[i], p);
  }

  ghost function Total<T(!new)>(plan: Plan<T>, s: State<T>): (total: nat)
    requires Shape(plan, s)
    ensures total <= 6 * plan.Size()
  {
    U.Total(plan.Up(), s.up, plan.Size()) + D.Total(s.down.nodes)
  }

  lemma StepsAdvance<T(!new)>(plan: Plan<T>, s: State<T>, action: Action)
    requires plan.Valid() && Inv(plan, s) && Shape(plan, s) && Enabled(plan, s, action)
    ensures Total(plan, Next(plan, s, action)) > Total(plan, s)
  {
    match action
    case Rise(rise) => U.StepsAdvance(plan.Up(), s.up, rise);
    case Fall(fall) => D.StepsAdvance(Downward(plan, s.up), s.down, fall);
  }

  // Every run ends: it takes at most six steps per node.
  lemma {:induction false} RunsAreFinite<T(!new)>(plan: Plan<T>, run: seq<State<T>>, i: nat)
    requires plan.Valid() && IsRun(plan, run) && i < |run|
    ensures Shape(plan, run[i]) && i <= Total(plan, run[i]) <= 6 * plan.Size()
  {
    RunInv(plan, run, i);
    if i > 0 {
      RunsAreFinite(plan, run, i - 1);
      RunInv(plan, run, i - 1);
      assert Step(plan, run[i - 1], run[i]);
      var action :| Enabled(plan, run[i - 1], action) && run[i] == Next(plan, run[i - 1], action);
      StepsAdvance(plan, run[i - 1], action);
    }
  }

  // When everybody is done nothing is on offer under either number.
  lemma NothingLeft<T(!new)>(plan: Plan<T>, s: State<T>)
    requires plan.Valid() && Inv(plan, s) && forall p | 0 <= p < plan.Size() :: s.down.nodes[p].Done?
    ensures s.up.offers == map[] && s.down.offers == map[]
  {
    U.NothingLeft(plan.Up(), s.up);
    D.NothingLeft(Goal(plan), s.down);
  }

  // So a run without failures ends with the sum at every node and every exposure used up.
  lemma CompleteRunsReachEveryone<T(!new)>(plan: Plan<T>, run: seq<State<T>>, i: nat)
    requires plan.Valid() && IsRun(plan, run) && i < |run| && Shape(plan, run[i])
    requires Unbroken(run[i]) && !CanMove(plan, run[i])
    ensures forall p | 0 <= p < plan.Size() :: run[i].down.nodes[p] == D.Done(LeftFold(plan.op, plan.x))
    ensures run[i].up.offers == map[] && run[i].down.offers == map[]
  {
    RunInv(plan, run, i);
    forall p: nat | p < plan.Size() ensures run[i].down.nodes[p] == D.Done(LeftFold(plan.op, plan.x)) {
      if !run[i].down.nodes[p].Done? { SomebodyMoves(plan, run[i], p); }
      assert D.StatusInv(Goal(plan), p, run[i].down.nodes[p]);
    }
    NothingLeft(plan, run[i]);
  }
}
