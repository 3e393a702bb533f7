// src/global/node/rooted.rs, tree.rs, centralized.rs: reducing up the rooted tree. Every node downloads
// what its children expose, adds it to its own tensor and exposes the sum to its parent, at its own pace.
//
// A node is its position in the tree's order (`RootedTree.TreeOrder`), the root being position 0.
module RootedReduce {
  import opened Wrappers
  import opened Numbers
  import opened RingMath
  import opened FoldOrder
  import opened RootedTree
  import opened DataService

  // x[i] is node i's tensor. The rooted reduce waits for one child after the other; the all-reduces add
  // the downloads as they finish. A service may make a node wait until its exposure was downloaded.
  datatype Plan<!T(!new)> = Plan(op: (T, T) -> T, x: seq<T>, arity: nat, transfer: nat, ordered: bool, waits: bool) {
    function Size(): nat { |x| }

    // Adding in the order of arrival is only a function of the tensors under the two laws.
    ghost predicate Valid() { |x| > 0 && arity > 0 && (ordered || (Associative(op) && Commutative(op))) }
  }

  datatype Phase<+T> = Gathering | Serving | Done(result: Option<T>) | Failed(lost: nat)

  // The sum so far, and the children that were added to it, in this order.
  datatype Node<+T> = Node(sum: T, taken: seq<nat>, phase: Phase<T>)

  datatype State<T> = State(nodes: seq<Node<T>>, offers: Service<T>)

  datatype Action = Take(node: nat, child: nat) | Lose(node: nat, child: nat) | Expose(node: nat) | Finish(node: nat)

  function First<T(!new)>(plan: Plan<T>, i: nat): nat { FirstChild(i, plan.arity, plan.Size()) }

  function Last<T(!new)>(plan: Plan<T>, i: nat): nat { LastChild(i, plan.arity, plan.Size()) }

  predicate ChildOf<T(!new)>(plan: Plan<T>, i: nat, c: nat) { First(plan, i) <= c < Last(plan, i) }

  predicate Awaits<T(!new)>(plan: Plan<T>, i: nat, node: Node<T>, c: nat) {
    node.phase.Gathering? && ChildOf(plan, i, c) && c !in node.taken && (plan.ordered ==> c == First(plan, i) + |node.taken|)
  }

  predicate TookAll<T(!new)>(plan: Plan<T>, i: nat, node: Node<T>) { First(plan, i) + |node.taken| == Last(plan, i) }

  ghost predicate Enabled<T(!new)>(plan: Plan<T>, s: State<T>, action: Action)
    requires |s.nodes| == plan.Size()
  {
    var i := action.node;
    i < plan.Size() &&
    match action
    case Take(_, c) => Awaits(plan, i, s.nodes[i], c) && (c, plan.transfer) in s.offers
    case Lose(_, c) => Awaits(plan, i, s.nodes[i], c)
    case Expose(_) => i > 0 && s.nodes[i].phase.Gathering? && TookAll(plan, i, s.nodes[i])
    case Finish(_) =>
      if i == 0 then s.nodes[i].phase.Gathering? && TookAll(plan, i, s.nodes[i])
      else s.nodes[i].phase.Serving? && (plan.waits ==> (i, plan.transfer) !in s.offers)
  }

  ghost function Next<T(!new)>(plan: Plan<T>, s: State<T>, action: Action): (next: State<T>)
    requires |s.nodes| == plan.Size() && Enabled(plan, s, action)
    ensures |next.nodes| == plan.Size() && next.nodes == s.nodes[action.node := next.nodes[action.node]]
  {
    var i, node := action.node, s.nodes[action.node];
    match action
    case Take(_, c) =>
      var key := (c, plan.transfer);
      State(s.nodes[i := Node(plan.op(node.sum, s.offers[key].tensor), node.taken + [c], Gathering)], Downloaded(s.offers, key))
    case Lose(_, c) => s.(nodes := s.nodes[i := node.(phase := Failed(c))])
    case Expose(_) => State(s.nodes[i := node.(phase := Serving)], s.offers[(i, plan.transfer) := Offer(node.sum, 1)])
    case Finish(_) => s.(nodes := s.nodes[i := node.(phase := Done(if i == 0 then Some(node.sum) else None))])
  }

  // A step looks at one node and what is on offer only.
  lemma StepElsewhere<T(!new)>(plan: Plan<T>, s: State<T>, z: State<T>, action: Action)
    requires |s.nodes| == |z.nodes| == plan.Size() && Enabled(plan, s, action)
    requires z.nodes[action.node] == s.nodes[action.node] && z.offers == s.offers
    ensures Enabled(plan, z, action)
    ensures Next(plan, z, action).nodes[action.node] == Next(plan, s, action).nodes[action.node]
    ensures Next(plan, z, action).offers == Next(plan, s, action).offers
  {
  }

  function Fresh<T(!new)>(plan: Plan<T>, i: nat): Node<T>
    requires i < plan.Size()
  {
    Node(plan.x[i], [], Gathering)
  }

  ghost predicate Init<T(!new)>(plan: Plan<T>, s: State<T>) {
    |s.nodes| == plan.Size() && s.offers == map[] && forall i | 0 <= i < plan.Size() :: s.nodes[i] == Fresh(plan, i)
  }

  ghost predicate Step<T(!new)>(plan: Plan<T>, s: State<T>, next: State<T>) {
    |s.nodes| == plan.Size() && exists action :: Enabled(plan, s, action) && next == Next(plan, s, action)
  }

  ghost predicate IsRun<T(!new)>(plan: Plan<T>, run: seq<State<T>>) {
    run != [] && Init(plan, run[0]) && forall i, j | 0 <= i && j == i + 1 && j < |run| :: Step(plan, run[i], run[j])
  }

  // ---- what a node holds -------------------------------------------------------------------------

  // What node i exposes or, for the root, keeps: the tree's own order of addition, no law assumed.
  function SubtreeSum<T(!new)>(plan: Plan<T>, i: nat): T
    requires plan.arity > 0 && i < plan.Size()
  {
    RootedTree.Reduced(plan.op, plan.x, i, plan.arity)
  }

  function Sums<T(!new)>(plan: Plan<T>): (sums: seq<T>)
    requires plan.arity > 0
    ensures |sums| == plan.Size() && forall i | 0 <= i < |sums| :: sums[i] == SubtreeSum(plan, i)
  {
    seq(plan.Size(), i requires 0 <= i < plan.Size() => SubtreeSum(plan, i))
  }

  // Node i's own tensor and those of the children in `taken`, added in this order.
  function Added<T(!new)>(plan: Plan<T>, i: nat, taken: seq<nat>): T
    requires plan.arity > 0 && i < plan.Size() && Below(taken, plan.Size())
  {
    LeftFold(plan.op, [plan.x[i]] + At(Sums(plan), taken))
  }

  lemma AddedOneMore<T(!new)>(plan: Plan<T>, i: nat, taken: seq<nat>, c: nat)
    requires plan.arity > 0 && i < plan.Size() && c < plan.Size() && Below(taken, plan.Size())
    ensures Below(taken + [c], plan.Size())
    ensures Added(plan, i, taken + [c]) == plan.op(Added(plan, i, taken), Sums(plan)[c])
  {
    AtAppend(Sums(plan), taken, [c]);
    var all := [plan.x[i]] + At(Sums(plan), taken + [c]);
    assert all[..|all| - 1] == [plan.x[i]] + At(Sums(plan), taken);
  }

  // The children `first`, `first` + 1, ... in a row.
  function Row(first: nat, count: nat): (row: seq<nat>)
    ensures |row| == count
  {
    seq(count, a requires 0 <= a < count => first + a)
  }

  lemma {:induction false} RowIsReduced<T(!new)>(plan: Plan<T>, i: nat, count: nat)
    requires plan.arity > 0 && i < plan.Size() && First(plan, i) + count <= Last(plan, i)
    ensures Below(Row(First(plan, i), count), plan.Size())
    ensures AddChildren(plan.op, plan.x, Added(plan, i, Row(First(plan, i), count)), First(plan, i) + count, Last(plan, i), plan.arity) ==
      SubtreeSum(plan, i)
    decreases count
  {
    var first := First(plan, i);
    ChildrenComeLater(i, plan.arity, plan.Size());
    if count == 0 {
      assert [plan.x[i]] + At(Sums(plan), Row(first, 0)) == [plan.x[i]];
    } else {
      RowIsReduced(plan, i, count - 1);
      assert Row(first, count) == Row(first, count - 1) + [first + count - 1];
      AddedOneMore(plan, i, Row(first, count - 1), first + count - 1);
    }
  }

  ghost predicate TakenInv<T(!new)>(plan: Plan<T>, i: nat, taken: seq<nat>) {
    && Distinct(taken)
    && (forall a | 0 <= a < |taken| :: ChildOf(plan, i, taken[a]))
    && (plan.ordered ==> taken == Row(First(plan, i), |taken|))
  }

  // All children in another order are a rearrangement of their row.
  lemma TakenIsRow<T(!new)>(plan: Plan<T>, i: nat, taken: seq<nat>)
    requires TakenInv(plan, i, taken) && First(plan, i) + |taken| == Last(plan, i)
    ensures multiset(taken) == multiset(Row(First(plan, i), |taken|))
  {
    var first, last := First(plan, i), Last(plan, i);
    var row := Row(first, |taken|);
    var window := Window(first, last);
    assert Elements(taken) <= window;
    DistinctSize(taken);
    SameSize(Elements(taken), window);
    forall c: nat ensures c in row <==> c in window {
      if first <= c < last { assert row[c - first] == c; }
    }
    DistinctIsSet(taken, window);
    DistinctIsSet(row, window);
  }

  lemma SameSize(a: set<nat>, b: set<nat>)
    requires a <= b && |a| == |b|
    ensures a == b
  {
    assert b == a + (b - a);
  }

  // Whoever added all its children holds what the tree predicts.
  lemma TookAllIsReduced<T(!new)>(plan: Plan<T>, i: nat, taken: seq<nat>)
    requires plan.Valid() && i < plan.Size() && TakenInv(plan, i, taken) && First(plan, i) + |taken| == Last(plan, i)
    ensures Below(taken, plan.Size()) && Added(plan, i, taken) == SubtreeSum(plan, i)
  {
    var row := Row(First(plan, i), |taken|);
    RowIsReduced(plan, i, |taken|);
    if !plan.ordered {
      TakenIsRow(plan, i, taken);
      AtKeepsCounts(Sums(plan), taken, row);
      var own := [plan.x[i]];
      FoldIgnoresOrder(plan.op, own + At(Sums(plan), taken), own + At(Sums(plan), row));
    }
  }

  // ---- the invariant -----------------------------------------------------------------------------

  predicate Exposed<T>(node: Node<T>) { node.phase.Serving? || node.phase.Done? }

  ghost predicate NodeInv<T(!new)>(plan: Plan<T>, i: nat, node: Node<T>)
    requires plan.Valid() && i < plan.Size()
  {
    && TakenInv(plan, i, node.taken)
    && Below(node.taken, plan.Size()) && node.sum == Added(plan, i, node.taken)
    && (Exposed(node) ==> TookAll(plan, i, node))
    && match node.phase
       case Gathering => true
       case Serving => i > 0
       case Done(result) => result == if i == 0 then Some(node.sum) else None
       case Failed(c) => ChildOf(plan, i, c) && c !in node.taken
  }

  ghost predicate TakenBy<T(!new)>(plan: Plan<T>, s: State<T>, c: nat)
    requires plan.Valid() && 0 < c < plan.Size() == |s.nodes|
  {
    c in s.nodes[ParentOf(c, plan.arity)].taken
  }

  // A node's sum is on offer from its exposure until its parent took it.
  ghost predicate OfferInv<T(!new)>(plan: Plan<T>, s: State<T>, c: nat)
    requires plan.Valid() && 0 < c < plan.Size() == |s.nodes|
  {
    && ((c, plan.transfer) in s.offers <==> Exposed(s.nodes[c]) && !TakenBy(plan, s, c))
    && ((c, plan.transfer) in s.offers ==> s.offers[(c, plan.transfer)] == Offer(Sums(plan)[c], 1))
    && (TakenBy(plan, s, c) ==> Exposed(s.nodes[c]))
  }

  ghost predicate Inv<T(!new)>(plan: Plan<T>, s: State<T>)
    requires plan.Valid()
  {
    && |s.nodes| == plan.Size()
    && (forall i | 0 <= i < plan.Size() :: NodeInv(plan, i, s.nodes[i]))
    && (forall c | 0 < c < plan.Size() :: OfferInv(plan, s, c))
    && (forall key | key in s.offers :: 0 < key.0 < plan.Size() && key.1 == plan.transfer)
  }

  lemma ChildFacts<T(!new)>(plan: Plan<T>, i: nat, c: nat)
    requires plan.Valid() && i < plan.Size() && c < plan.Size()
    ensures ChildOf(plan, i, c) <==> c > 0 && ParentOf(c, plan.arity) == i
    ensures ChildOf(plan, i, c) ==> i < c
  {
    ChildrenAndParentsAgree(i, c, plan.arity, plan.Size());
    ChildrenComeLater(i, plan.arity, plan.Size());
  }

  lemma InitInv<T(!new)>(plan: Plan<T>, s: State<T>)
    requires plan.Valid() && Init(plan, s)
    ensures Inv(plan, s)
  {
    forall i | 0 <= i < plan.Size() ensures NodeInv(plan, i, s.nodes[i]) {
      assert [plan.x[i]] + At(Sums(plan), []) == [plan.x[i]];
    }
  }

  lemma TakeNode<T(!new)>(plan: Plan<T>, s: State<T>, i: nat, c: nat)
    requires plan.Valid() && Inv(plan, s) && Enabled(plan, s, Take(i, c))
    ensures NodeInv(plan, i, Next(plan, s, Take(i, c)).nodes[i])
  {
    var node := s.nodes[i];
    assert NodeInv(plan, i, node);
    ChildFacts(plan, i, c);
    assert OfferInv(plan, s, c);
    AddedOneMore(plan, i, node.taken, c);
    if plan.ordered { assert node.taken + [c] == Row(First(plan, i), |node.taken| + 1); }
  }

  lemma TakeInv<T(!new)>(plan: Plan<T>, s: State<T>, i: nat, c: nat)
    requires plan.Valid() && Inv(plan, s) && Enabled(plan, s, Take(i, c))
    ensures Inv(plan, Next(plan, s, Take(i, c)))
  {
    var next := Next(plan, s, Take(i, c));
    TakeNode(plan, s, i, c);
    ChildFacts(plan, i, c);
    assert OfferInv(plan, s, c);
    forall d: nat | 0 < d < plan.Size() ensures OfferInv(plan, next, d) {
      assert OfferInv(plan, s, d);
      assert TakenBy(plan, next, d) <==> TakenBy(plan, s, d) || d == c by { ChildFacts(plan, i, d); }
    }
  }

  // A step that changes a node's phase only.
  lemma PhaseInv<T(!new)>(plan: Plan<T>, s: State<T>, action: Action)
    requires plan.Valid() && Inv(plan, s) && Enabled(plan, s, action) && !action.Take?
    ensures Inv(plan, Next(plan, s, action))
  {
    var i, next := action.node, Next(plan, s, action);
    var node := s.nodes[i];
    assert NodeInv(plan, i, node);
    if TookAll(plan, i, node) { TookAllIsReduced(plan, i, node.taken); }
    assert NodeInv(plan, i, next.nodes[i]);
    forall d: nat | 0 < d < plan.Size() ensures OfferInv(plan, next, d) {
      assert OfferInv(plan, s, d);
      assert TakenBy(plan, next, d) <==> TakenBy(plan, s, d);
    }
  }

  lemma StepInv<T(!new)>(plan: Plan<T>, s: State<T>, action: Action)
    requires plan.Valid() && Inv(plan, s) && Enabled(plan, s, action)
    ensures Inv(plan, Next(plan, s, action))
  {
    if action.Take? { TakeInv(plan, s, action.node, action.child); } else { PhaseInv(plan, s, action); }
  }

  // ---- every run ---------------------------------------------------------------------------------

  lemma {:induction false} RunInv<T(!new)>(plan: Plan<T>, run: seq<State<T>>, i: nat)
    requires plan.Valid() && IsRun(plan, run) && i < |run|
    ensures Inv(plan, run[i])
  {
    if i == 0 {
      InitInv(plan, run[0]);
    } else {
      RunInv(plan, run, i - 1);
      assert Step(plan, run[i - 1], run[i]);
      var action :| Enabled(plan, run[i - 1], action) && run[i] == Next(plan, run[i - 1], action);
      StepInv(plan, run[i - 1], action);
    }
  }

  lemma DoneResult<T(!new)>(plan: Plan<T>, i: nat, node: Node<T>)
    requires plan.Valid() && i < plan.Size() && NodeInv(plan, i, node) && node.phase.Done?
    ensures node.phase.result == if i == 0 then Some(SubtreeSum(plan, 0)) else None
  {
    TookAllIsReduced(plan, i, node.taken);
  }

  // The root ends with the tree's sum, everybody else with nothing; a node fails only by losing a child
  // that it had not added yet.
  lemma OnlyTheRootKeepsTheSum<T(!new)>(plan: Plan<T>, run: seq<State<T>>, i: nat, p: nat)
    requires plan.Valid() && IsRun(plan, run) && i < |run| && p < plan.Size()
    ensures |run[i].nodes| == plan.Size()
    ensures run[i].nodes[p].phase.Done? ==>
      run[i].nodes[p].phase.result == if p == 0 then Some(SubtreeSum(plan, 0)) else None
    ensures run[i].nodes[p].phase.Failed? ==>
      ChildOf(plan, p, run[i].nodes[p].phase.lost) && run[i].nodes[p].phase.lost !in run[i].nodes[p].taken
  {
    RunInv(plan, run, i);
    assert NodeInv(plan, p, run[i].nodes[p]);
    if run[i].nodes[p].phase.Done? { DoneResult(plan, p, run[i].nodes[p]); }
  }

  // At every moment what a node exposed is on offer, with the sum of its subtree, until its parent added
  // it, once; and nothing else is on offer.
  lemma ExposuresServeTheParent<T(!new)>(plan: Plan<T>, run: seq<State<T>>, i: nat, c: nat)
    requires plan.Valid() && IsRun(plan, run) && i < |run| && 0 < c < plan.Size()
    ensures |run[i].nodes| == plan.Size() && Distinct(run[i].nodes[ParentOf(c, plan.arity)].taken)
    ensures (c, plan.transfer) in run[i].offers <==> Exposed(run[i].nodes[c]) && c !in run[i].nodes[ParentOf(c, plan.arity)].taken
    ensures (c, plan.transfer) in run[i].offers ==> run[i].offers[(c, plan.transfer)] == Offer(SubtreeSum(plan, c), 1)
    ensures forall p, d | 0 <= p < plan.Size() && d in run[i].nodes[p].taken :: 0 < d < plan.Size() && ParentOf(d, plan.arity) == p
    ensures forall key | key in run[i].offers :: 0 < key.0 < plan.Size() && key.1 == plan.transfer
  {
    RunInv(plan, run, i);
    assert OfferInv(plan, run[i], c);
    assert NodeInv(plan, ParentOf(c, plan.arity), run[i].nodes[ParentOf(c, plan.arity)]);
    forall p: nat, d: nat | p < plan.Size() && d in run[i].nodes[p].taken ensures 0 < d < plan.Size() && ParentOf(d, plan.arity) == p {
      assert NodeInv(plan, p, run[i].nodes[p]);
      ChildFacts(plan, p, d);
    }
  }

  // ---- progress ----------------------------------------------------------------------------------

  ghost predicate Unbroken<T>(s: State<T>) { forall i | 0 <= i < |s.nodes| :: !s.nodes[i].phase.Failed? }

  ghost predicate CanMove<T(!new)>(plan: Plan<T>, s: State<T>)
    requires |s.nodes| == plan.Size()
  {
    exists action :: Enabled(plan, s, action) && !action.Lose?
  }

  // Of the nodes from `from` on, the last one that still gathers.
  lemma {:induction false} LastToGather<T>(nodes: seq<Node<T>>, from: nat) returns (i: nat)
    requires from < |nodes| && nodes[from].phase.Gathering?
    ensures from <= i < |nodes| && nodes[i].phase.Gathering? && forall j | i < j < |nodes| :: !nodes[j].phase.Gathering?
    decreases |nodes| - from
  {
    i := from;
    if j :| from < j < |nodes| && nodes[j].phase.Gathering? { i := LastToGather(nodes, j); }
  }

  // A child that a gathering node has not added yet: in order, the next one.
  lemma MissingChild<T(!new)>(plan: Plan<T>, i: nat, node: Node<T>) returns (c: nat)
    requires plan.Valid() && i < plan.Size() && NodeInv(plan, i, node) && node.phase.Gathering? && !TookAll(plan, i, node)
    ensures Awaits(plan, i, node, c)
  {
    var first, last, taken := First(plan, i), Last(plan, i), node.taken;
    var window := Window(first, last);
    DistinctSize(taken);
    assert Elements(taken) <= window;
    SubsetSize(Elements(taken), window);
    if plan.ordered {
      c := first + |taken|;
      assert c !in taken;
    } else {
      var missing := window - Elements(taken);
      assert window == Elements(taken) + missing;
      assert |missing| > 0;
      c :| c in missing;
    }
  }

  lemma GathererMoves<T(!new)>(plan: Plan<T>, s: State<T>, i: nat)
    requires plan.Valid() && Inv(plan, s) && Unbroken(s) && i < plan.Size() && s.nodes[i].phase.Gathering?
    ensures CanMove(plan, s)
  {
    var g := LastToGather(s.nodes, i);
    if TookAll(plan, g, s.nodes[g]) {
      assert Enabled(plan, s, if g == 0 then Finish(g) else Expose(g));
    } else {
      assert NodeInv(plan, g, s.nodes[g]);
      var c := MissingChild(plan, g, s.nodes[g]);
      ChildFacts(plan, g, c);
      assert OfferInv(plan, s, c);
      assert Enabled(plan, s, Take(g, c));
    }
  }

  lemma ServerMoves<T(!new)>(plan: Plan<T>, s: State<T>, i: nat)
    requires plan.Valid() && Inv(plan, s) && i < plan.Size() && s.nodes[i].phase.Serving?
    requires forall j | 0 <= j < plan.Size() :: Exposed(s.nodes[j])
    ensures CanMove(plan, s)
  {
    assert NodeInv(plan, i, s.nodes[i]);
    var p := ParentOf(i, plan.arity);
    AllTaken(plan, p, s.nodes[p], i);
    assert OfferInv(plan, s, i);
    assert Enabled(plan, s, Finish(i));
  }

  // A node that exposed its sum added every child.
  lemma AllTaken<T(!new)>(plan: Plan<T>, p: nat, node: Node<T>, c: nat)
    requires plan.Valid() && 0 < c < plan.Size() && p == ParentOf(c, plan.arity) && NodeInv(plan, p, node) && Exposed(node)
    ensures c in node.taken
  {
    ChildFacts(plan, p, c);
    TakenIsRow(plan, p, node.taken);
    var row := Row(First(plan, p), |node.taken|);
    assert row[c - First(plan, p)] == c;
    assert c in multiset(row);
  }

  lemma SomebodyMoves<T(!new)>(plan: Plan<T>, s: State<T>, p: nat)
    requires plan.Valid() && Inv(plan, s) && Unbroken(s) && p < plan.Size() && !s.nodes[p].phase.Done?
    ensures CanMove(plan, s)
  {
    if exists j :: 0 <= j < plan.Size() && s.nodes[j].phase.Gathering? {
      var j :| 0 <= j < plan.Size() && s.nodes[j].phase.Gathering?;
      GathererMoves(plan, s, j);
    } else {
      ServerMoves(plan, s, p);
    }
  }

  // While nobody has failed and somebody has not finished, a node can move, also when the service makes
  // every node wait for its download.
  lemma NeverStuck<T(!new)>(plan: Plan<T>, run: seq<State<T>>, i: nat, p: nat)
    requires plan.Valid() && IsRun(plan, run) && i < |run| && p < plan.Size() == |run[i].nodes|
    requires Unbroken(run[i]) && !run[i].nodes[p].phase.Done?
    ensures CanMove(plan, run[i])
  {
    RunInv(plan, run, i);
    SomebodyMoves(plan, run[i], p);
  }

  // How far node c and its exposure have come.
  ghost function Progress<T(!new)>(plan: Plan<T>, s: State<T>, c: nat): (steps: nat)
    requires plan.Valid() && c < plan.Size() == |s.nodes|
    ensures steps <= 3
  {
    (match s.nodes[c].phase
     case Gathering => 0
     case Serving => 1
     case Done(_) => 2
     case Failed(_) => 2)
    + if c > 0 && TakenBy(plan, s, c) then 1 else 0
  }

  ghost function Total<T(!new)>(plan: Plan<T>, s: State<T>, m: nat): (total: nat)
    requires plan.Valid() && m <= plan.Size() == |s.nodes|
    ensures total <= 3 * m
  {
    if m == 0 then 0 else Total(plan, s, m - 1) + Progress(plan, s, m - 1)
  }

  lemma {:induction false} TotalGrows<T(!new)>(plan: Plan<T>, s: State<T>, next: State<T>, at: nat, m: nat)
    requires plan.Valid() && at < plan.Size() == |s.nodes| == |next.nodes| && m <= plan.Size()
    requires Progress(plan, next, at) > Progress(plan, s, at)
    requires forall c | 0 <= c < plan.Size() :: Progress(plan, next, c) >= Progress(plan, s, c)
    ensures Total(plan, next, m) >= Total(plan, s, m) + if at < m then 1 else 0
  {
    if m > 0 { TotalGrows(plan, s, next, at, m - 1); }
  }

  lemma StepsAdvance<T(!new)>(plan: Plan<T>, s: State<T>, action: Action)
    requires plan.Valid() && Inv(plan, s) && Enabled(plan, s, action)
    ensures Total(plan, Next(plan, s, action), plan.Size()) > Total(plan, s, plan.Size())
  {
    var next := Next(plan, s, action);
    var at := if action.Take? then action.child else action.node;
    forall c | 0 <= c < plan.Size() ensures Progress(plan, next, c) >= Progress(plan, s, c) { NobodyFallsBack(plan, s, action, c); }
    if action.Take? { ChildFacts(plan, action.node, action.child); }
    TotalGrows(plan, s, next, at, plan.Size());
  }

  lemma NobodyFallsBack<T(!new)>(plan: Plan<T>, s: State<T>, action: Action, c: nat)
    requires plan.Valid() && |s.nodes| == plan.Size() && Enabled(plan, s, action) && c < plan.Size()
    ensures Progress(plan, Next(plan, s, action), c) >= Progress(plan, s, c)
  {
    assert c > 0 && TakenBy(plan, s, c) ==> TakenBy(plan, Next(plan, s, action), c);
  }

  // Every run ends: it takes at most three steps per node.
  lemma {:induction false} RunsAreFinite<T(!new)>(plan: Plan<T>, run: seq<State<T>>, i: nat)
    requires plan.Valid() && IsRun(plan, run) && i < |run|
    ensures |run[i].nodes| == plan.Size() && i <= Total(plan, run[i], plan.Size()) <= 3 * plan.Size()
  {
    RunInv(plan, run, i);
    if i > 0 {
      RunsAreFinite(plan, run, i - 1);
      RunInv(plan, run, i - 1);
      assert Step(plan, run[i - 1], run[i]);
      var action :| Enabled(plan, run[i - 1], action) && run[i] == Next(plan, run[i - 1], action);
      StepsAdvance(plan, run[i - 1], action);
    }
  }

  // When everybody is done every exposure was downloaded.
  lemma NothingLeft<T(!new)>(plan: Plan<T>, s: State<T>)
    requires plan.Valid() && Inv(plan, s) && forall p | 0 <= p < plan.Size() :: s.nodes[p].phase.Done?
    ensures s.offers == map[]
  {
    forall c: nat | 0 < c < plan.Size() ensures (c, plan.transfer) !in s.offers {
      assert OfferInv(plan, s, c);
      AllTaken(plan, ParentOf(c, plan.arity), s.nodes[ParentOf(c, plan.arity)], c);
    }
    assert forall key | key in s.offers :: key == (key.0, plan.transfer);
  }

  // So a run without failures ends with the sum at the root and every exposure used up.
  lemma CompleteRunsReduce<T(!new)>(plan: Plan<T>, run: seq<State<T>>, i: nat)
    requires plan.Valid() && IsRun(plan, run) && i < |run| && |run[i].nodes| == plan.Size()
    requires Unbroken(run[i]) && !CanMove(plan, run[i])
    ensures run[i].nodes[0].phase == Done(Some(SubtreeSum(plan, 0)))
    ensures forall p | 0 < p < plan.Size() :: run[i].nodes[p].phase == Done(None)
    ensures run[i].offers == map[]
  {
    RunInv(plan, run, i);
    forall p: nat | p < plan.Size() ensures run[i].nodes[p].phase.Done? {
      if !run[i].nodes[p].phase.Done? { SomebodyMoves(plan, run[i], p); }
    }
    forall p: nat | p < plan.Size() ensures run[i].nodes[p].phase == Done(if p == 0 then Some(SubtreeSum(plan, 0)) else None) {
      assert NodeInv(plan, p, run[i].nodes[p]);
      DoneResult(plan, p, run[i].nodes[p]);
    }
    NothingLeft(plan, run[i]);
  }
}
