// src/global/node/rooted.rs: broadcasting down the rooted tree. Every node downloads once from its
// parent and exposes what it got for as many downloads as it has children, at its own pace.
//
// A node is its position in the tree's order (`RootedTree.TreeOrder`), the root being position 0.
module RootedBroadcast {
  import opened Wrappers
  import opened Numbers
  import opened RootedTree
  import opened DataService

  // tensors[i] is what node i was called with; only the root's counts. All nodes expose under one number.
  // A service may make a node wait until its exposure is used up, or let it go at once.
  datatype Plan<T> = Plan(tensors: seq<Option<T>>, arity: nat, transfer: nat, waits: bool) {
    function Size(): nat { |tensors| }

    ghost predicate Valid() { |tensors| > 0 && arity > 0 }
  }

  // A node asked for its neighbours is told the parent it downloads from and one child for each download
  // of its exposure.
  lemma NeighborsFollowThePlan<T>(plan: Plan<T>, node: NodeId, root: NodeId, nodes: set<NodeId>, arity: Option<nat>)
    requires node in nodes && root in nodes && arity != Some(0)
    requires plan.Size() == |nodes| && plan.arity == (if arity.Some? then arity.value else |nodes|)
    ensures plan.Valid() && Neighbors(node, root, nodes, arity).Ok?
    ensures var ids, answer := TreeOrder(nodes, root), Neighbors(node, root, nodes, arity).value; var i := PositionOf(ids, node);
      && answer.0 == (if i > 0 then Some(ids[ParentOf(i, plan.arity)]) else None)
      && |answer.1| == Children(plan, i)
      && forall c: nat | c < plan.Size() :: ids[c] in answer.1 <==> ChildOf(plan, i, c)
  {
    var ids := TreeOrder(nodes, root);
    var i, k := PositionOf(ids, node), plan.arity;
    forall c: nat | c < plan.Size() ensures ids[c] in NeighborsAt(ids, i, k).1 <==> ChildOf(plan, i, c) {
      InWindow(ids, FirstChild(i, k, |ids|), LastChild(i, k, |ids|), c);
    }
  }

  datatype BroadcastError = NoTensor | ParentLost(parent: nat)

  datatype Status<+T> = Waiting | Holding(tensor: T) | Serving(tensor: T) | Done(tensor: T) | Failed(error: BroadcastError)

  // What is on offer, and who downloaded each node's exposure, in this order.
  datatype State<T> = State(nodes: seq<Status<T>>, offers: Service<T>, takers: seq<seq<nat>>)

  datatype Action = Start | Download(node: nat) | Lose(node: nat) | Expose(node: nat) | Finish(node: nat)

  predicate Has<T>(status: Status<T>) { status.Holding? || status.Serving? || status.Done? }

  function Children<T>(plan: Plan<T>, i: nat): (count: nat) {
    LastChild(i, plan.arity, plan.Size()) - FirstChild(i, plan.arity, plan.Size())
  }

  predicate ChildOf<T>(plan: Plan<T>, i: nat, c: nat) { IsChild(i, c, plan.arity, plan.Size()) }

  ghost predicate Shape<T>(plan: Plan<T>, s: State<T>) { plan.Valid() && |s.nodes| == |s.takers| == plan.Size() }

  ghost predicate Enabled<T>(plan: Plan<T>, s: State<T>, action: Action)
    requires Shape(plan, s)
  {
    match action
    case Start => s.nodes[0].Waiting?
    case Download(i) =>
      0 < i < plan.Size() && s.nodes[i].Waiting? &&
      (ParentOf(i, plan.arity), plan.transfer) in s.offers
    case Lose(i) => 0 < i < plan.Size() && s.nodes[i].Waiting?
    case Expose(i) => i < plan.Size() && s.nodes[i].Holding? && Children(plan, i) > 0
    case Finish(i) =>
      i < plan.Size() &&
      ((s.nodes[i].Holding? && Children(plan, i) == 0) ||
       (s.nodes[i].Serving? && (plan.waits ==> (i, plan.transfer) !in s.offers)))
  }

  ghost function Next<T>(plan: Plan<T>, s: State<T>, action: Action): (next: State<T>)
    requires Shape(plan, s) && Enabled(plan, s, action)
    ensures Shape(plan, next)
  {
    match action
    case Start =>
      s.(nodes := s.nodes[0 := if plan.tensors[0].Some? then Holding(plan.tensors[0].value) else Failed(NoTensor)])
    case Download(i) =>
      var p := ParentOf(i, plan.arity);
      var key := (p, plan.transfer);
      State(s.nodes[i := Holding(s.offers[key].tensor)], Downloaded(s.offers, key), s.takers[p := s.takers[p] + [i]])
    case Lose(i) => s.(nodes := s.nodes[i := Failed(ParentLost(ParentOf(i, plan.arity)))])
    case Expose(i) =>
      var tensor := s.nodes[i].tensor;
      State(s.nodes[i := Serving(tensor)], s.offers[(i, plan.transfer) := Offer(tensor, Children(plan, i))], s.takers[i := []])
    case Finish(i) => s.(nodes := s.nodes[i := Done(s.nodes[i].tensor)])
  }

  function Actor(action: Action): nat { if action.Start? then 0 else action.node }

  // A step looks at one node and what is on offer only, and the root at its own tensor.
  lemma StepElsewhere<T>(plan: Plan<T>, s: State<T>, other: Plan<T>, z: State<T>, action: Action)
    requires Shape(plan, s) && Enabled(plan, s, action) && Shape(other, z)
    requires other.Size() == plan.Size() && other == plan.(tensors := other.tensors) && (action.Start? ==> other.tensors[0] == plan.tensors[0])
    requires z.nodes[Actor(action)] == s.nodes[Actor(action)] && z.offers == s.offers
    ensures Enabled(other, z, action)
    ensures var next, there := Next(plan, s, action), Next(other, z, action); var i := Actor(action);
      there.nodes == z.nodes[i := next.nodes[i]] && there.offers == next.offers
  {
  }

  ghost predicate Init<T>(plan: Plan<T>, s: State<T>) {
    Shape(plan, s) && s.offers == map[] && forall i | 0 <= i < plan.Size() :: s.nodes[i] == Waiting
  }

  ghost predicate Step<T>(plan: Plan<T>, s: State<T>, next: State<T>)
    requires plan.Valid()
  {
    Shape(plan, s) && exists action :: Enabled(plan, s, action) && next == Next(plan, s, action)
  }

  ghost predicate IsRun<T>(plan: Plan<T>, run: seq<State<T>>)
    requires plan.Valid()
  {
    run != [] && Init(plan, run[0]) && forall i, j | 0 <= i && j == i + 1 && j < |run| :: Step(plan, run[i], run[j])
  }

  // ---- the invariant -----------------------------------------------------------------------------

  ghost predicate StatusInv<T>(plan: Plan<T>, i: nat, status: Status<T>)
    requires plan.Valid() && i < plan.Size()
  {
    && (Has(status) ==> plan.tensors[0] == Some(status.tensor))
    && (status.Serving? ==> Children(plan, i) > 0)
    && (status.Failed? ==> if i == 0 then status.error == NoTensor && plan.tensors[0].None?
                           else status.error == ParentLost(ParentOf(i, plan.arity)))
  }

  // The node has exposed its tensor.
  ghost predicate Offering<T>(plan: Plan<T>, i: nat, status: Status<T>) {
    status.Serving? || (status.Done? && Children(plan, i) > 0)
  }

  // The downloads of an exposure are those of the children that have the tensor, one each; the others
  // are left, and an exposure without any left is gone.
  ghost predicate OfferInv<T>(plan: Plan<T>, s: State<T>, i: nat)
    requires Shape(plan, s) && i < plan.Size()
  {
    var takers, key := s.takers[i], (i, plan.transfer);
    && Distinct(takers) && |takers| <= Children(plan, i)
    && (forall c: nat :: c in takers <==> ChildOf(plan, i, c) && Has(s.nodes[c]))
    && (key in s.offers <==> |takers| < Children(plan, i))
    && (key in s.offers ==> plan.tensors[0] == Some(s.offers[key].tensor) && s.offers[key].left + |takers| == Children(plan, i))
    && (plan.waits && s.nodes[i].Done? ==> |takers| == Children(plan, i))
  }

  ghost predicate Inv<T>(plan: Plan<T>, s: State<T>)
    requires plan.Valid()
  {
    && Shape(plan, s)
    && (forall i | 0 <= i < plan.Size() :: StatusInv(plan, i, s.nodes[i]))
    && (forall key | key in s.offers :: key.0 < plan.Size() && key.1 == plan.transfer && Offering(plan, key.0, s.nodes[key.0]))
    && (forall i | 0 <= i < plan.Size() && Offering(plan, i, s.nodes[i]) :: OfferInv(plan, s, i))
    && (forall i | 0 < i < plan.Size() && Has(s.nodes[i]) :: Offering(plan, ParentOf(i, plan.arity), s.nodes[ParentOf(i, plan.arity)]))
  }

  lemma ChildFacts<T>(plan: Plan<T>, i: nat, c: nat)
    requires plan.Valid() && i < plan.Size() && c < plan.Size()
    ensures ChildOf(plan, i, c) <==> c > 0 && ParentOf(c, plan.arity) == i
    ensures ChildOf(plan, i, c) ==> i < c && Children(plan, i) > 0
  {
    ChildrenAndParentsAgree(i, c, plan.arity, plan.Size());
    ChildrenComeLater(i, plan.arity, plan.Size());
  }

  // A change of node i's status that keeps whether it has the tensor leaves every exposure alone.
  lemma SameHolders<T>(plan: Plan<T>, s: State<T>, i: nat, status: Status<T>, j: nat)
    requires plan.Valid() && Inv(plan, s) && i < plan.Size() && Has(s.nodes[i]) == Has(status)
    requires j < plan.Size() && Offering(plan, j, s.nodes[j])
    requires j == i && plan.waits && status.Done? ==> (i, plan.transfer) !in s.offers
    ensures OfferInv(plan, s.(nodes := s.nodes[i := status]), j)
  {
    var next := s.(nodes := s.nodes[i := status]);
    assert OfferInv(plan, s, j);
    forall c: nat ensures c in s.takers[j] <==> ChildOf(plan, j, c) && Has(next.nodes[c]) {
      assert c in s.takers[j] <==> ChildOf(plan, j, c) && Has(s.nodes[c]);
    }
  }

  lemma StartInv<T>(plan: Plan<T>, s: State<T>)
    requires plan.Valid() && Inv(plan, s) && Enabled(plan, s, Start)
    ensures Inv(plan, Next(plan, s, Start))
  {
    var next := Next(plan, s, Start);
    forall j | 0 <= j < plan.Size() && Offering(plan, j, next.nodes[j]) ensures OfferInv(plan, next, j) {
      assert OfferInv(plan, s, j);
      ChildFacts(plan, j, 0);
      forall c: nat ensures c in next.takers[j] <==> ChildOf(plan, j, c) && Has(next.nodes[c]) {
        assert c in s.takers[j] <==> ChildOf(plan, j, c) && Has(s.nodes[c]);
      }
    }
  }

  lemma LoseInv<T>(plan: Plan<T>, s: State<T>, i: nat)
    requires plan.Valid() && Inv(plan, s) && Enabled(plan, s, Lose(i))
    ensures Inv(plan, Next(plan, s, Lose(i)))
  {
    var next := Next(plan, s, Lose(i));
    forall j | 0 <= j < plan.Size() && Offering(plan, j, next.nodes[j]) ensures OfferInv(plan, next, j) {
      SameHolders(plan, s, i, next.nodes[i], j);
    }
  }

  lemma FinishInv<T>(plan: Plan<T>, s: State<T>, i: nat)
    requires plan.Valid() && Inv(plan, s) && Enabled(plan, s, Finish(i))
    ensures Inv(plan, Next(plan, s, Finish(i)))
  {
    var next := Next(plan, s, Finish(i));
    assert StatusInv(plan, i, s.nodes[i]);
    forall j | 0 <= j < plan.Size() && Offering(plan, j, next.nodes[j]) ensures OfferInv(plan, next, j) {
      SameHolders(plan, s, i, next.nodes[i], j);
    }
  }

  lemma NobodyYet<T>(plan: Plan<T>, s: State<T>, i: nat, c: nat)
    requires plan.Valid() && Inv(plan, s) && i < plan.Size() && !Offering(plan, i, s.nodes[i]) && ChildOf(plan, i, c)
    ensures !Has(s.nodes[c])
  {
    ChildFacts(plan, i, c);
  }

  lemma ExposeOffer<T>(plan: Plan<T>, s: State<T>, i: nat)
    requires plan.Valid() && Inv(plan, s) && Enabled(plan, s, Expose(i))
    ensures OfferInv(plan, Next(plan, s, Expose(i)), i)
  {
    var next := Next(plan, s, Expose(i));
    assert StatusInv(plan, i, s.nodes[i]);
    forall c: nat ensures !(ChildOf(plan, i, c) && Has(next.nodes[c])) {
      if ChildOf(plan, i, c) {
        NobodyYet(plan, s, i, c);
        ChildFacts(plan, i, c);
      }
    }
  }

  lemma ExposeInv<T>(plan: Plan<T>, s: State<T>, i: nat)
    requires plan.Valid() && Inv(plan, s) && Enabled(plan, s, Expose(i))
    ensures Inv(plan, Next(plan, s, Expose(i)))
  {
    var next := Next(plan, s, Expose(i));
    assert StatusInv(plan, i, s.nodes[i]);
    forall j | 0 <= j < plan.Size() && Offering(plan, j, next.nodes[j]) ensures OfferInv(plan, next, j) {
      if j == i { ExposeOffer(plan, s, i); } else { SameHolders(plan, s, i, next.nodes[i], j); }
    }
  }

  lemma DownloadOffer<T>(plan: Plan<T>, s: State<T>, i: nat, j: nat)
    requires plan.Valid() && Inv(plan, s) && Enabled(plan, s, Download(i)) && j < plan.Size() && Offering(plan, j, s.nodes[j])
    ensures OfferInv(plan, Next(plan, s, Download(i)), j)
  {
    var next, p := Next(plan, s, Download(i)), ParentOf(i, plan.arity);
    assert OfferInv(plan, s, j);
    ChildFacts(plan, j, i);
    var before, after := s.takers[j], next.takers[j];
    assert after == if j == p then before + [i] else before;
    forall c: nat ensures c in after <==> ChildOf(plan, j, c) && Has(next.nodes[c]) {
      assert c in before <==> ChildOf(plan, j, c) && Has(s.nodes[c]);
      assert c in after <==> c in before || (j == p && c == i);
    }
    assert i !in before;
  }

  lemma DownloadInv<T>(plan: Plan<T>, s: State<T>, i: nat)
    requires plan.Valid() && Inv(plan, s) && Enabled(plan, s, Download(i))
    ensures Inv(plan, Next(plan, s, Download(i)))
  {
    var next, p := Next(plan, s, Download(i)), ParentOf(i, plan.arity);
    assert OfferInv(plan, s, p);
    forall j | 0 <= j < plan.Size() && Offering(plan, j, next.nodes[j]) ensures OfferInv(plan, next, j) {
      DownloadOffer(plan, s, i, j);
    }
  }

  lemma StepInv<T>(plan: Plan<T>, s: State<T>, action: Action)
    requires plan.Valid() && Inv(plan, s) && Enabled(plan, s, action)
    ensures Inv(plan, Next(plan, s, action))
  {
    match action
    case Start => StartInv(plan, s);
    case Download(i) => DownloadInv(plan, s, i);
    case Lose(i) => LoseInv(plan, s, i);
    case Expose(i) => ExposeInv(plan, s, i);
    case Finish(i) => FinishInv(plan, s, i);
  }

  // ---- every run ---------------------------------------------------------------------------------

  lemma {:induction false} RunInv<T>(plan: Plan<T>, run: seq<State<T>>, i: nat)
    requires plan.Valid() && IsRun(plan, run) && i < |run|
    ensures Inv(plan, run[i])
  {
    if i > 0 {
      RunInv(plan, run, i - 1);
      assert Step(plan, run[i - 1], run[i]);
      var action :| Enabled(plan, run[i - 1], action) && run[i] == Next(plan, run[i - 1], action);
      StepInv(plan, run[i - 1], action);
    }
  }

  // Whoever finishes has the root's tensor; a node fails only as the root without a tensor or by
  // losing its parent.
  lemma FinishedNodesHoldTheRoots<T>(plan: Plan<T>, run: seq<State<T>>, i: nat, p: nat)
    requires plan.Valid() && IsRun(plan, run) && i < |run| && p < plan.Size()
    ensures |run[i].nodes| == plan.Size()
    ensures run[i].nodes[p].Done? ==> plan.tensors[0] == Some(run[i].nodes[p].tensor)
    ensures run[i].nodes[p].Failed? ==>
      if p == 0 then run[i].nodes[p].error == NoTensor && plan.tensors[0].None? else run[i].nodes[p].error == ParentLost(ParentOf(p, plan.arity))
  {
    RunInv(plan, run, i);
    assert StatusInv(plan, p, run[i].nodes[p]);
  }

  // At every moment a node's exposure was downloaded by exactly those children that have the tensor, once
  // each, and by nobody else; what is left is for the other children, and is gone when there are none.
  lemma ExposuresServeTheChildren<T>(plan: Plan<T>, run: seq<State<T>>, i: nat, p: nat)
    requires plan.Valid() && IsRun(plan, run) && i < |run| && p < plan.Size()
    ensures Shape(plan, run[i])
    ensures Offering(plan, p, run[i].nodes[p]) ==>
      Distinct(run[i].takers[p]) && forall c: nat :: c in run[i].takers[p] <==> ChildOf(plan, p, c) && Has(run[i].nodes[c])
    ensures var key := (p, plan.transfer); key in run[i].offers ==>
      && Offering(plan, p, run[i].nodes[p]) && plan.tensors[0] == Some(run[i].offers[key].tensor)
      && run[i].offers[key].left + |run[i].takers[p]| == Children(plan, p)
    ensures Offering(plan, p, run[i].nodes[p]) ==>
      ((p, plan.transfer) !in run[i].offers <==> forall c: nat | ChildOf(plan, p, c) :: Has(run[i].nodes[c]))
    ensures forall key | key in run[i].offers :: key.0 < plan.Size() && key.1 == plan.transfer
  {
    RunInv(plan, run, i);
    if Offering(plan, p, run[i].nodes[p]) {
      assert OfferInv(plan, run[i], p);
      LeftIsForTheOthers(plan, run[i], p);
    }
  }

  lemma NoneLeft(takers: seq<nat>, first: nat, last: nat, left: nat)
    requires Distinct(takers) && first <= last && left + |takers| == last - first
    requires forall c: nat | c in takers :: first <= c < last
    ensures left == 0 <==> forall c: nat | first <= c < last :: c in takers
  {
    var taken, window := Elements(takers), Window(first, last);
    DistinctSize(takers);
    assert taken <= window;
    assert |window - taken| == |window| - |taken| == left;
    if left == 0 {
      forall c: nat | first <= c < last ensures c in takers { assert c in window && c !in window - taken; }
    }
    if forall c: nat | first <= c < last :: c in takers { assert window - taken == {}; }
  }

  lemma LeftIsForTheOthers<T>(plan: Plan<T>, s: State<T>, p: nat)
    requires plan.Valid() && Inv(plan, s) && p < plan.Size() && Offering(plan, p, s.nodes[p])
    ensures (p, plan.transfer) !in s.offers <==> forall c: nat | ChildOf(plan, p, c) :: Has(s.nodes[c])
  {
    var takers := s.takers[p];
    assert OfferInv(plan, s, p);
    assert forall c: nat :: c in takers <==> ChildOf(plan, p, c) && Has(s.nodes[c]);
    NoneLeft(takers, FirstChild(p, plan.arity, plan.Size()), LastChild(p, plan.arity, plan.Size()), Children(plan, p) - |takers|);
  }

  // ---- progress ----------------------------------------------------------------------------------

  ghost predicate Unbroken<T>(s: State<T>) { forall i | 0 <= i < |s.nodes| :: !s.nodes[i].Failed? }

  ghost predicate CanMove<T>(plan: Plan<T>, s: State<T>)
    requires Shape(plan, s)
  {
    exists action :: Enabled(plan, s, action) && !action.Lose?
  }

  // Above a node that waits there is one whose parent has the tensor, or the root itself waits.
  lemma {:induction false} FirstToWait<T>(plan: Plan<T>, s: State<T>, i: nat) returns (c: nat)
    requires plan.Valid() && Inv(plan, s) && Unbroken(s) && i < plan.Size() && s.nodes[i].Waiting?
    ensures c < plan.Size() && s.nodes[c].Waiting? && (c > 0 ==> Has(s.nodes[ParentOf(c, plan.arity)]))
    decreases i
  {
    c := i;
    if i > 0 && s.nodes[ParentOf(i, plan.arity)].Waiting? { c := FirstToWait(plan, s, ParentOf(i, plan.arity)); }
  }

  lemma WaiterMoves<T>(plan: Plan<T>, s: State<T>, i: nat)
    requires plan.Valid() && Inv(plan, s) && Unbroken(s) && i < plan.Size() && s.nodes[i].Waiting?
    ensures CanMove(plan, s)
  {
    var c := FirstToWait(plan, s, i);
    if c == 0 {
      assert Enabled(plan, s, Start);
    } else {
      var p := ParentOf(c, plan.arity);
      ChildFacts(plan, p, c);
      if s.nodes[p].Holding? {
        assert Enabled(plan, s, Expose(p));
      } else {
        assert Offering(plan, p, s.nodes[p]);
        LeftIsForTheOthers(plan, s, p);
        assert Enabled(plan, s, Download(c));
      }
    }
  }

  lemma HolderMoves<T>(plan: Plan<T>, s: State<T>, i: nat)
    requires plan.Valid() && Inv(plan, s) && i < plan.Size() && Has(s.nodes[i]) && !s.nodes[i].Done?
    requires forall j | 0 <= j < plan.Size() :: Has(s.nodes[j])
    ensures CanMove(plan, s)
  {
    if s.nodes[i].Holding? {
      if Children(plan, i) > 0 { assert Enabled(plan, s, Expose(i)); } else { assert Enabled(plan, s, Finish(i)); }
    } else {
      LeftIsForTheOthers(plan, s, i);
      assert Enabled(plan, s, Finish(i));
    }
  }

  lemma SomebodyMoves<T>(plan: Plan<T>, s: State<T>, p: nat)
    requires plan.Valid() && Inv(plan, s) && Unbroken(s) && p < plan.Size() && !s.nodes[p].Done?
    ensures CanMove(plan, s)
  {
    if exists j :: 0 <= j < plan.Size() && s.nodes[j].Waiting? {
      var j :| 0 <= j < plan.Size() && s.nodes[j].Waiting?;
      WaiterMoves(plan, s, j);
    } else {
      HolderMoves(plan, s, p);
    }
  }

  // While nobody has failed and somebody has not finished, a node can move, even when the service makes
  // every node wait for its downloads.
  lemma NeverStuck<T>(plan: Plan<T>, run: seq<State<T>>, i: nat, p: nat)
    requires plan.Valid() && IsRun(plan, run) && i < |run| && Shape(plan, run[i]) && p < plan.Size()
    requires Unbroken(run[i]) && !run[i].nodes[p].Done?
    ensures CanMove(plan, run[i])
  {
    RunInv(plan, run, i);
    SomebodyMoves(plan, run[i], p);
  }

  function Progress<T>(status: Status<T>): (steps: nat)
    ensures steps <= 3
  {
    match status
    case Waiting => 0
    case Holding(_) => 1
    case Serving(_) => 2
    case Done(_) => 3
    case Failed(_) => 3
  }

  function Total<T>(nodes: seq<Status<T>>): (total: nat)
    ensures total <= 3 * |nodes|
  {
    if nodes == [] then 0 else Total(nodes[..|nodes| - 1]) + Progress(nodes[|nodes| - 1])
  }

  lemma {:induction false} TotalUpdate<T>(nodes: seq<Status<T>>, i: nat, status: Status<T>)
    requires i < |nodes|
    ensures Total(nodes[i := status]) == Total(nodes) - Progress(nodes[i]) + Progress(status)
  {
    var last := |nodes| - 1;
    if i == last {
      assert nodes[i := status][..last] == nodes[..last];
    } else {
      assert nodes[i := status][..last] == nodes[..last][i := status];
      TotalUpdate(nodes[..last], i, status);
    }
  }

  lemma StepsAdvance<T>(plan: Plan<T>, s: State<T>, action: Action)
    requires Shape(plan, s) && Enabled(plan, s, action)
    ensures Total(Next(plan, s, action).nodes) > Total(s.nodes)
  {
    var i := Actor(action);
    TotalUpdate(s.nodes, i, Next(plan, s, action).nodes[i]);
  }

  // Every run ends: it takes at most three steps per node.
  lemma {:induction false} RunsAreFinite<T>(plan: Plan<T>, run: seq<State<T>>, i: nat)
    requires plan.Valid() && IsRun(plan, run) && i < |run|
    ensures |run[i].nodes| == plan.Size() && i <= Total(run[i].nodes) <= 3 * plan.Size()
  {
    if i > 0 {
      RunsAreFinite(plan, run, i - 1);
      assert Step(plan, run[i - 1], run[i]);
      var action :| Enabled(plan, run[i - 1], action) && run[i] == Next(plan, run[i - 1], action);
      StepsAdvance(plan, run[i - 1], action);
    }
  }

  // When everybody is done every exposure is used up.
  lemma NothingLeft<T>(plan: Plan<T>, s: State<T>)
    requires plan.Valid() && Inv(plan, s) && forall p | 0 <= p < plan.Size() :: s.nodes[p].Done?
    ensures s.offers == map[]
  {
    forall p: nat | p < plan.Size() && Offering(plan, p, s.nodes[p]) ensures (p, plan.transfer) !in s.offers {
      LeftIsForTheOthers(plan, s, p);
    }
    assert forall key | key in s.offers :: key == (key.0, plan.transfer);
  }

  // So a run without failures ends with the root's tensor at every node and every exposure used up.
  lemma CompleteRunsReachEveryone<T>(plan: Plan<T>, run: seq<State<T>>, i: nat)
    requires plan.Valid() && IsRun(plan, run) && i < |run| && Shape(plan, run[i])
    requires Unbroken(run[i]) && !CanMove(plan, run[i])
    ensures plan.tensors[0].Some? && forall p | 0 <= p < plan.Size() :: run[i].nodes[p] == Done(plan.tensors[0].value)
    ensures run[i].offers == map[]
  {
    RunInv(plan, run, i);
    forall p: nat | p < plan.Size() ensures run[i].nodes[p].Done? && plan.tensors[0] == Some(run[i].nodes[p].tensor) {
      if !run[i].nodes[p].Done? { SomebodyMoves(plan, run[i], p); }
      assert StatusInv(plan, p, run[i].nodes[p]);
    }
    assert run[i].nodes[0].Done?;
    NothingLeft(plan, run[i]);
  }
}
