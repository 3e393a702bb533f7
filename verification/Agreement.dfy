// src/global/orchestrator/state.rs: do all participants mean the same collective, and who is its root?
module Agreement {
  import opened Wrappers

  type NodeId = nat
  type PeerId = nat

  datatype ReduceOperation = Sum | Mean

  datatype Strategy = Centralized | Tree(arity: nat) | Ring

  datatype CollectiveSpec =
    | AllReduce(op: ReduceOperation, strategy: Strategy, shape: seq<nat>, dtype: nat)
    | Reduce(root: PeerId, op: ReduceOperation, strategy: Strategy, shape: seq<nat>, dtype: nat)
    | Broadcast(strategy: Strategy, metadata: Option<(seq<nat>, nat)>)

  datatype GlobalError =
    | CollectiveBeforeRegister | CollectiveParamsMismatch | UnknownRoot(peer: PeerId) | BroadcastNoTensor
    | BroadcastMultipleTensors | InvalidTreeArity | DuplicatePeer(peer: PeerId) | NotRegisteredOnFinish
    | RegisterParamsMismatch | DoubleRegister | PeerLost(node: NodeId)

  type Peers = map<NodeId, seq<PeerId>>

  // Peers belong to one node only; registration keeps this so.
  ghost predicate PeersUnique(peers: Peers) {
    forall n, m, p | n in peers && m in peers && p in peers[n] && p in peers[m] :: n == m
  }

  // ---- the rule, in arrival order ----------------------------------------------------------------

  ghost function OwnerOf(peers: Peers, root: PeerId): (owner: Option<NodeId>)
    ensures owner.Some? ==> owner.value in peers && root in peers[owner.value]
    ensures owner.None? ==> forall n | n in peers :: root !in peers[n]
  {
    if n :| n in peers && root in peers[n] then Some(n) else None
  }

  ghost function LeastNode(peers: Peers): (least: Option<NodeId>)
    ensures least.Some? ==> least.value in peers && forall n | n in peers :: least.value <= n
    ensures least.None? <==> peers == map[]
  {
    if peers == map[] then None
    else
      HasLeast(peers.Keys);
      var n :| n in peers && forall m | m in peers :: n <= m;
      Some(n)
  }

  lemma HasLeast(nodes: set<NodeId>)
    requires nodes != {}
    ensures exists n :: n in nodes && forall m | m in nodes :: n <= m
  {
    var least := PickLeast(nodes);
  }

  lemma {:induction false} PickLeast(nodes: set<NodeId>) returns (least: NodeId)
    requires nodes != {}
    ensures least in nodes && forall m | m in nodes :: least <= m
  {
    var first :| first in nodes;
    var rest := nodes - {first};
    assert forall m | m in nodes :: m == first || m in rest;
    least := first;
    if rest != {} {
      var other := PickLeast(rest);
      if other < first { least := other; }
    }
  }

  ghost predicate AllEqual(specs: seq<(NodeId, CollectiveSpec)>, first: CollectiveSpec) {
    forall i | 0 <= i < |specs| :: specs[i].1 == first
  }

  // The broadcast loop from entry i on, with the source found so far.
  function BroadcastFrom(specs: seq<(NodeId, CollectiveSpec)>, strategy: Strategy, i: nat, source: Option<NodeId>): Result<NodeId, GlobalError>
    requires i <= |specs|
    decreases |specs| - i
  {
    if i == |specs| then OkOr(source, BroadcastNoTensor)
    else if !specs[i].1.Broadcast? || specs[i].1.strategy != strategy then Err(CollectiveParamsMismatch)
    else if specs[i].1.metadata.Some? then
      if source.Some? then Err(BroadcastMultipleTensors) else BroadcastFrom(specs, strategy, i + 1, Some(specs[i].0))
    else BroadcastFrom(specs, strategy, i + 1, source)
  }

  ghost function Agree(specs: seq<(NodeId, CollectiveSpec)>, peers: Peers): Result<NodeId, GlobalError> {
    if specs == [] then Err(CollectiveParamsMismatch)
    else
      match specs[0].1
      case AllReduce(_, strategy, _, _) =>
        if !AllEqual(specs, specs[0].1) then Err(CollectiveParamsMismatch)
        else if strategy == Tree(0) then Err(InvalidTreeArity)
        else OkOr(LeastNode(peers), CollectiveBeforeRegister)
      case Reduce(root, _, strategy, _, _) =>
        if !AllEqual(specs, specs[0].1) then Err(CollectiveParamsMismatch)
        else if strategy == Tree(0) then Err(InvalidTreeArity)
        else OkOr(OwnerOf(peers, root), UnknownRoot(root))
      case Broadcast(strategy, _) =>
        if strategy == Tree(0) then Err(InvalidTreeArity) else BroadcastFrom(specs, strategy, 0, None)
  }

  // ---- the same decision without any order -------------------------------------------------------

  type Entries = set<(NodeId, CollectiveSpec)>

  ghost predicate IsRootOf(entries: Entries, peers: Peers, root: NodeId) {
    || (exists spec: CollectiveSpec :: spec.AllReduce? && spec.strategy != Tree(0) && AllMean(entries, spec) &&
         root in peers && forall n | n in peers :: root <= n)
    || (exists spec: CollectiveSpec :: spec.Reduce? && spec.strategy != Tree(0) && AllMean(entries, spec) &&
         root in peers && spec.root in peers[root])
    || (exists strategy :: strategy != Tree(0) && AllBroadcast(entries, strategy) && SoleSource(entries, root))
  }

  ghost predicate AllMean(entries: Entries, spec: CollectiveSpec) {
    entries != {} && forall e | e in entries :: e.1 == spec
  }

  ghost predicate AllBroadcast(entries: Entries, strategy: Strategy) {
    entries != {} && forall e | e in entries :: e.1.Broadcast? && e.1.strategy == strategy
  }

  ghost predicate SoleSource(entries: Entries, root: NodeId) {
    exists e :: IsSource(entries, e, root)
  }

  ghost predicate IsSource(entries: Entries, e: (NodeId, CollectiveSpec), root: NodeId) {
    e in entries && e.0 == root && e.1.Broadcast? && e.1.metadata.Some? &&
    forall f | f in entries && f.1.Broadcast? && f.1.metadata.Some? :: f == e
  }

  ghost predicate DistinctNodes(specs: seq<(NodeId, CollectiveSpec)>) {
    forall i, j | 0 <= i < j < |specs| :: specs[i].0 != specs[j].0
  }

  function EntriesOf(specs: seq<(NodeId, CollectiveSpec)>): Entries { set e | e in specs }

  // What the loop has seen before entry i: broadcasts of one strategy, with at most one source.
  ghost predicate SeenBroadcasts(specs: seq<(NodeId, CollectiveSpec)>, strategy: Strategy, i: nat, source: Option<NodeId>) {
    && i <= |specs|
    && (forall k | 0 <= k < i :: specs[k].1.Broadcast? && specs[k].1.strategy == strategy)
    && (source.None? ==> forall k | 0 <= k < i :: specs[k].1.metadata.None?)
    && (source.Some? ==> exists k :: 0 <= k < i && SourceAt(specs, i, k, source.value))
  }

  ghost predicate SourceAt(specs: seq<(NodeId, CollectiveSpec)>, i: nat, k: nat, node: NodeId)
    requires k < i <= |specs| && forall j | 0 <= j < i :: specs[j].1.Broadcast?
  {
    specs[k].0 == node && specs[k].1.metadata.Some? && forall j | 0 <= j < i && specs[j].1.metadata.Some? :: j == k
  }

  lemma {:induction false} BroadcastMeaning(specs: seq<(NodeId, CollectiveSpec)>, strategy: Strategy, i: nat, source: Option<NodeId>)
    requires SeenBroadcasts(specs, strategy, i, source)
    ensures match BroadcastFrom(specs, strategy, i, source)
      case Ok(n) => SeenBroadcasts(specs, strategy, |specs|, Some(n))
      case Err(_) => forall n :: !SeenBroadcasts(specs, strategy, |specs|, Some(n))
    decreases |specs| - i
  {
    if i < |specs| && specs[i].1.Broadcast? && specs[i].1.strategy == strategy {
      if specs[i].1.metadata.None? {
        if source.Some? {
          var k :| 0 <= k < i && SourceAt(specs, i, k, source.value);
          assert SourceAt(specs, i + 1, k, source.value);
        }
        BroadcastMeaning(specs, strategy, i + 1, source);
      } else if source.None? {
        assert SourceAt(specs, i + 1, i, specs[i].0);
        BroadcastMeaning(specs, strategy, i + 1, Some(specs[i].0));
      } else {
        var k :| 0 <= k < i && SourceAt(specs, i, k, source.value);
      }
    }
  }

  lemma SeenMeansSole(specs: seq<(NodeId, CollectiveSpec)>, strategy: Strategy, root: NodeId)
    requires specs != [] && DistinctNodes(specs)
    ensures SeenBroadcasts(specs, strategy, |specs|, Some(root)) <==>
      AllBroadcast(EntriesOf(specs), strategy) && SoleSource(EntriesOf(specs), root)
  {
    assert specs[0] in EntriesOf(specs);
    if SeenBroadcasts(specs, strategy, |specs|, Some(root)) {
      var k :| 0 <= k < |specs| && SourceAt(specs, |specs|, k, root);
      assert IsSource(EntriesOf(specs), specs[k], root);
    }
    if AllBroadcast(EntriesOf(specs), strategy) && SoleSource(EntriesOf(specs), root) {
      var e :| IsSource(EntriesOf(specs), e, root);
      var k :| 0 <= k < |specs| && specs[k] == e;
      assert forall j | 0 <= j < |specs| :: specs[j] in EntriesOf(specs);
      assert SourceAt(specs, |specs|, k, root);
    }
  }

  lemma SpecsAllMean(specs: seq<(NodeId, CollectiveSpec)>, spec: CollectiveSpec)
    requires specs != []
    ensures AllMean(EntriesOf(specs), spec) <==> AllEqual(specs, spec)
    ensures AllMean(EntriesOf(specs), spec) ==> specs[0].1 == spec
  {
    assert specs[0] in EntriesOf(specs);
    if AllMean(EntriesOf(specs), spec) {
      forall j | 0 <= j < |specs| ensures specs[j].1 == spec { assert specs[j] in EntriesOf(specs); }
    }
  }

  // Whether the round succeeds, and its root, depend only on the set of submissions.
  lemma AgreementHasNoOrder(specs: seq<(NodeId, CollectiveSpec)>, peers: Peers)
    requires specs != [] && DistinctNodes(specs) && PeersUnique(peers)
    ensures Agree(specs, peers).Ok? ==> IsRootOf(EntriesOf(specs), peers, Agree(specs, peers).value)
    ensures forall root: NodeId | IsRootOf(EntriesOf(specs), peers, root) :: Agree(specs, peers) == Ok(root)
  {
    var entries, first, agreed := EntriesOf(specs), specs[0].1, Agree(specs, peers);
    assert specs[0] in entries;
    SpecsAllMean(specs, first);
    if first.Broadcast? {
      BroadcastMeaning(specs, first.strategy, 0, None);
      if agreed.Ok? { SeenMeansSole(specs, first.strategy, agreed.value); }
    }
    forall root: NodeId | IsRootOf(entries, peers, root) ensures agreed == Ok(root) {
      RootIsAgreed(specs, peers, root);
    }
  }

  lemma RootIsAgreed(specs: seq<(NodeId, CollectiveSpec)>, peers: Peers, root: NodeId)
    requires specs != [] && DistinctNodes(specs) && PeersUnique(peers) && IsRootOf(EntriesOf(specs), peers, root)
    ensures Agree(specs, peers) == Ok(root)
  {
    var first := specs[0].1;
    assert specs[0] in EntriesOf(specs);
    SpecsAllMean(specs, first);
    if first.Broadcast? {
      BroadcastMeaning(specs, first.strategy, 0, None);
      SeenMeansSole(specs, first.strategy, root);
      if Agree(specs, peers).Ok? { SeenMeansSole(specs, first.strategy, Agree(specs, peers).value); }
    }
  }

  // Two arrival orders of the same submissions give the same success and the same root.
  lemma ArrivalOrderDoesNotMatter(a: seq<(NodeId, CollectiveSpec)>, b: seq<(NodeId, CollectiveSpec)>, peers: Peers)
    requires a != [] && b != [] && DistinctNodes(a) && DistinctNodes(b) && PeersUnique(peers)
    requires EntriesOf(a) == EntriesOf(b)
    ensures Agree(a, peers).Ok? <==> Agree(b, peers).Ok?
    ensures Agree(a, peers).Ok? ==> Agree(a, peers) == Agree(b, peers)
  {
    AgreementHasNoOrder(a, peers);
    AgreementHasNoOrder(b, peers);
  }

  // ---- the named error and the order of arrival --------------------------------------------------

  // Two arrival orders can name different errors: a broadcast without an arity, first or last.
  lemma ErrorDependsOnArrivalOrder() returns (a: seq<(NodeId, CollectiveSpec)>, b: seq<(NodeId, CollectiveSpec)>)
    ensures a != [] && b != [] && DistinctNodes(a) && DistinctNodes(b) && EntriesOf(a) == EntriesOf(b)
    ensures Agree(a, map[0 := [0], 1 := [1]]) == Err(InvalidTreeArity)
    ensures Agree(b, map[0 := [0], 1 := [1]]) == Err(CollectiveParamsMismatch)
  {
    var x, y := (0, Broadcast(Tree(0), None)), (1, AllReduce(Sum, Centralized, [4], 0));
    a, b := [x, y], [y, x];
    assert b[1].1 != b[0].1;
  }

  ghost predicate OneEach(entries: Entries) {
    forall e, f | e in entries && f in entries && e.0 == f.0 :: e == f
  }

  ghost predicate IsArrival(order: seq<(NodeId, CollectiveSpec)>, entries: Entries) {
    DistinctNodes(order) && EntriesOf(order) == entries
  }

  // Every arrival order of the submissions gets the same answer, error included.
  ghost predicate AnswerIgnoresArrival(entries: Entries, peers: Peers) {
    forall a, b | IsArrival(a, entries) && IsArrival(b, entries) :: Agree(a, peers) == Agree(b, peers)
  }

  ghost predicate NoBroadcast(entries: Entries) { forall e | e in entries :: !e.1.Broadcast? }

  ghost predicate BroadcastsAlike(entries: Entries) { exists strategy :: AllBroadcast(entries, strategy) }

  predicate Sends(spec: CollectiveSpec) { spec.Broadcast? && spec.metadata.Some? }

  // No broadcast has an empty tree, and no two that bring a tensor share a strategy.
  ghost predicate OnlyMismatch(entries: Entries) {
    && (forall e | e in entries && e.1.Broadcast? :: e.1.strategy != Tree(0))
    && (forall e, f | e in entries && f in entries && Sends(e.1) && Sends(f.1) && e.1.strategy == f.1.strategy :: e == f)
  }

  lemma ArrivalEntries(order: seq<(NodeId, CollectiveSpec)>, entries: Entries)
    requires IsArrival(order, entries)
    ensures order == [] <==> entries == {}
    ensures forall i | 0 <= i < |order| :: order[i] in entries
    ensures forall e | e in entries :: exists i :: 0 <= i < |order| && order[i] == e
  {
    forall i | 0 <= i < |order| ensures order[i] in entries { assert order[i] in EntriesOf(order); }
    forall e | e in entries ensures exists i :: 0 <= i < |order| && order[i] == e { assert e in EntriesOf(order); }
    if order != [] { assert order[0] in entries; }
  }

  // Without broadcasts the first submission stands for all of them, or they differ.
  lemma AnswerWithoutBroadcast(a: seq<(NodeId, CollectiveSpec)>, b: seq<(NodeId, CollectiveSpec)>, entries: Entries, peers: Peers)
    requires IsArrival(a, entries) && IsArrival(b, entries) && NoBroadcast(entries)
    ensures Agree(a, peers) == Agree(b, peers)
  {
    ArrivalEntries(a, entries);
    ArrivalEntries(b, entries);
    if a != [] {
      SpecsAllMean(a, a[0].1);
      SpecsAllMean(b, a[0].1);
      SpecsAllMean(a, b[0].1);
      SpecsAllMean(b, b[0].1);
    }
  }

  // From entry i on, broadcasts of one strategy: the answer counts the sources.
  lemma {:induction false} ScanAlike(order: seq<(NodeId, CollectiveSpec)>, strategy: Strategy, i: nat, source: Option<NodeId>)
    requires SeenBroadcasts(order, strategy, i, source) && forall k | 0 <= k < |order| :: order[k].1.Broadcast? && order[k].1.strategy == strategy
    ensures var answer := BroadcastFrom(order, strategy, i, source);
      && (answer == Err(BroadcastNoTensor) ==> forall k | 0 <= k < |order| :: !Sends(order[k].1))
      && (answer == Err(BroadcastMultipleTensors) ==> exists j, k :: 0 <= j < k < |order| && Sends(order[j].1) && Sends(order[k].1))
      && (answer.Ok? || answer == Err(BroadcastNoTensor) || answer == Err(BroadcastMultipleTensors))
    decreases |order| - i
  {
    if i < |order| {
      if order[i].1.metadata.None? {
        if source.Some? {
          var k :| 0 <= k < i && SourceAt(order, i, k, source.value);
          assert SourceAt(order, i + 1, k, source.value);
        }
        ScanAlike(order, strategy, i + 1, source);
      } else if source.None? {
        assert SourceAt(order, i + 1, i, order[i].0);
        ScanAlike(order, strategy, i + 1, Some(order[i].0));
      } else {
        var k :| 0 <= k < i && SourceAt(order, i, k, source.value);
        assert Sends(order[k].1) && Sends(order[i].1);
      }
    }
  }

  lemma AnswerAlike(a: seq<(NodeId, CollectiveSpec)>, b: seq<(NodeId, CollectiveSpec)>, entries: Entries, peers: Peers)
    requires IsArrival(a, entries) && IsArrival(b, entries) && BroadcastsAlike(entries) && PeersUnique(peers)
    ensures Agree(a, peers) == Agree(b, peers)
  {
    var strategy :| AllBroadcast(entries, strategy);
    ArrivalEntries(a, entries);
    ArrivalEntries(b, entries);
    if strategy != Tree(0) {
      ArrivalOrderDoesNotMatter(a, b, peers);
      ScanAlike(a, strategy, 0, None);
      ScanAlike(b, strategy, 0, None);
      if Agree(a, peers) == Err(BroadcastNoTensor) { NoSourceAnywhere(b, entries, a); }
      if Agree(b, peers) == Err(BroadcastNoTensor) { NoSourceAnywhere(a, entries, b); }
    }
  }

  lemma NoSourceAnywhere(a: seq<(NodeId, CollectiveSpec)>, entries: Entries, b: seq<(NodeId, CollectiveSpec)>)
    requires IsArrival(a, entries) && IsArrival(b, entries) && forall k | 0 <= k < |b| :: !Sends(b[k].1)
    ensures forall k | 0 <= k < |a| :: !Sends(a[k].1)
  {
    ArrivalEntries(a, entries);
    ArrivalEntries(b, entries);
  }

  // Where the scan cannot find a second source it ends at the first submission that does not fit.
  lemma {:induction false} ScanMismatch(order: seq<(NodeId, CollectiveSpec)>, strategy: Strategy, i: nat, source: Option<NodeId>)
    requires i <= |order| && exists k :: i <= k < |order| && !Fits(order[k].1, strategy)
    requires forall j, k | i <= j < k < |order| && Sends(order[j].1) && Sends(order[k].1) :: !(Fits(order[j].1, strategy) && Fits(order[k].1, strategy))
    requires source.Some? ==> forall k | i <= k < |order| && Sends(order[k].1) :: !Fits(order[k].1, strategy)
    ensures BroadcastFrom(order, strategy, i, source) == Err(CollectiveParamsMismatch)
    decreases |order| - i
  {
    if Fits(order[i].1, strategy) {
      ScanMismatch(order, strategy, i + 1, if Sends(order[i].1) then Some(order[i].0) else source);
    }
  }

  predicate Fits(spec: CollectiveSpec, strategy: Strategy) { spec.Broadcast? && spec.strategy == strategy }

  // Mixed submissions that stay clear of the other two errors always mismatch.
  lemma AlwaysMismatch(order: seq<(NodeId, CollectiveSpec)>, entries: Entries, peers: Peers)
    requires IsArrival(order, entries) && !NoBroadcast(entries) && !BroadcastsAlike(entries) && OnlyMismatch(entries)
    ensures Agree(order, peers) == Err(CollectiveParamsMismatch)
  {
    ArrivalEntries(order, entries);
    var first := order[0].1;
    if first.Broadcast? {
      assert !AllBroadcast(entries, first.strategy);
      var e :| e in entries && !Fits(e.1, first.strategy);
      forall j, k | 0 <= j < k < |order| && Sends(order[j].1) && Sends(order[k].1)
        ensures !(Fits(order[j].1, first.strategy) && Fits(order[k].1, first.strategy))
      {
        assert order[j] != order[k];
      }
      ScanMismatch(order, first.strategy, 0, None);
    } else {
      var e :| e in entries && e.1.Broadcast?;
    }
  }

  lemma OneMore(e: (NodeId, CollectiveSpec), order: seq<(NodeId, CollectiveSpec)>, rest: Entries)
    requires IsArrival(order, rest) && forall f | f in rest :: f.0 != e.0
    ensures IsArrival([e] + order, {e} + rest)
  {
    ArrivalEntries(order, rest);
    var all := [e] + order;
    forall i, j | 0 <= i < j < |all| ensures all[i].0 != all[j].0 { assert all[j] == order[j - 1]; }
    assert EntriesOf(all) == {e} + EntriesOf(order);
  }

  lemma {:induction false} SomeArrival(entries: Entries) returns (order: seq<(NodeId, CollectiveSpec)>)
    requires OneEach(entries)
    ensures IsArrival(order, entries)
    decreases |entries|
  {
    if entries == {} {
      order := [];
      assert EntriesOf(order) == {};
    } else {
      var e :| e in entries;
      var rest := SomeArrival(entries - {e});
      OneMore(e, rest, entries - {e});
      assert {e} + (entries - {e}) == entries;
      order := [e] + rest;
    }
  }

  // Any of the submissions may arrive first, and any other second.
  lemma ArriveFirst(x: (NodeId, CollectiveSpec), y: (NodeId, CollectiveSpec), entries: Entries) returns (order: seq<(NodeId, CollectiveSpec)>)
    requires OneEach(entries) && x in entries && y in entries && x != y
    ensures IsArrival(order, entries) && |order| >= 2 && order[0] == x && order[1] == y
  {
    var rest := entries - {x, y};
    var tail := SomeArrival(rest);
    OneMore(y, tail, rest);
    OneMore(x, [y] + tail, {y} + rest);
    assert {x} + ({y} + rest) == entries;
    order := [x] + ([y] + tail);
  }

  lemma Outsider(entries: Entries, e: (NodeId, CollectiveSpec), strategy: Strategy) returns (o: (NodeId, CollectiveSpec))
    requires e in entries && Fits(e.1, strategy) && !AllBroadcast(entries, strategy)
    ensures o in entries && !Fits(o.1, strategy) && o.1 != e.1
  {
    o :| o in entries && !Fits(o.1, strategy);
  }

  lemma NotAllEqual(order: seq<(NodeId, CollectiveSpec)>, peers: Peers)
    requires |order| >= 2 && order[0].1 != order[1].1 && !order[0].1.Broadcast?
    ensures Agree(order, peers) == Err(CollectiveParamsMismatch)
  {
  }

  // A broadcast without an arity and an outsider: the answer tells which of them came first.
  lemma EmptyTreeTells(entries: Entries, peers: Peers, e: (NodeId, CollectiveSpec))
    requires OneEach(entries) && e in entries && e.1.Broadcast? && e.1.strategy == Tree(0) && !AllBroadcast(entries, Tree(0))
    ensures !AnswerIgnoresArrival(entries, peers)
  {
    var o := Outsider(entries, e, Tree(0));
    var a := ArriveFirst(e, o, entries);
    var b := ArriveFirst(o, e, entries);
    assert Agree(a, peers) == Err(InvalidTreeArity);
    if o.1.Broadcast? { NeverEmptyTree(b, o.1.strategy, 0, None); } else { NotAllEqual(b, peers); }
    assert Agree(b, peers) != Agree(a, peers);
  }

  lemma {:induction false} NeverEmptyTree(order: seq<(NodeId, CollectiveSpec)>, strategy: Strategy, i: nat, source: Option<NodeId>)
    requires i <= |order|
    ensures BroadcastFrom(order, strategy, i, source) != Err(InvalidTreeArity)
    decreases |order| - i
  {
    if i < |order| { NeverEmptyTree(order, strategy, i + 1, if Sends(order[i].1) then Some(order[i].0) else source); }
  }

  lemma SecondMismatches(order: seq<(NodeId, CollectiveSpec)>, strategy: Strategy)
    requires |order| >= 2 && Fits(order[0].1, strategy) && !Fits(order[1].1, strategy)
    ensures BroadcastFrom(order, strategy, 0, None) == Err(CollectiveParamsMismatch)
  {
    assert BroadcastFrom(order, strategy, 1, if Sends(order[0].1) then Some(order[0].0) else None) == Err(CollectiveParamsMismatch);
  }

  // Two sources of one strategy and an outsider: the sources first, or the outsider first.
  lemma TwoSourcesTell(entries: Entries, peers: Peers, e: (NodeId, CollectiveSpec), f: (NodeId, CollectiveSpec))
    requires OneEach(entries) && e in entries && f in entries && e != f && Sends(e.1) && Sends(f.1)
    requires e.1.strategy == f.1.strategy != Tree(0) && !AllBroadcast(entries, e.1.strategy)
    ensures !AnswerIgnoresArrival(entries, peers)
  {
    var o := Outsider(entries, e, e.1.strategy);
    var a := ArriveFirst(e, f, entries);
    var b := ArriveFirst(o, e, entries);
    assert BroadcastFrom(a, e.1.strategy, 1, Some(e.0)) == Err(BroadcastMultipleTensors);
    assert Agree(a, peers) == Err(BroadcastMultipleTensors);
    if o.1.Broadcast? {
      if o.1.strategy != Tree(0) { SecondMismatches(b, o.1.strategy); }
    } else {
      NotAllEqual(b, peers);
    }
    assert Agree(b, peers) != Agree(a, peers);
  }

  // The answer, error included, ignores the order of arrival if and only if there is no broadcast, or
  // all are broadcasts of one strategy, or neither an empty tree nor two sources of one strategy occur.
  lemma AnswerIgnoresArrivalExactlyWhen(entries: Entries, peers: Peers)
    requires OneEach(entries) && PeersUnique(peers)
    ensures AnswerIgnoresArrival(entries, peers) <==> NoBroadcast(entries) || BroadcastsAlike(entries) || OnlyMismatch(entries)
  {
    if NoBroadcast(entries) {
      forall a, b | IsArrival(a, entries) && IsArrival(b, entries) ensures Agree(a, peers) == Agree(b, peers) {
        AnswerWithoutBroadcast(a, b, entries, peers);
      }
    } else if BroadcastsAlike(entries) {
      forall a, b | IsArrival(a, entries) && IsArrival(b, entries) ensures Agree(a, peers) == Agree(b, peers) {
        AnswerAlike(a, b, entries, peers);
      }
    } else if OnlyMismatch(entries) {
      forall a, b | IsArrival(a, entries) && IsArrival(b, entries) ensures Agree(a, peers) == Agree(b, peers) {
        AlwaysMismatch(a, entries, peers);
        AlwaysMismatch(b, entries, peers);
      }
    } else {
      OtherwiseItTells(entries, peers);
    }
  }

  lemma OtherwiseItTells(entries: Entries, peers: Peers)
    requires OneEach(entries) && !BroadcastsAlike(entries) && !OnlyMismatch(entries)
    ensures !AnswerIgnoresArrival(entries, peers)
  {
    if exists e :: e in entries && e.1.Broadcast? && e.1.strategy == Tree(0) {
      var e :| e in entries && e.1.Broadcast? && e.1.strategy == Tree(0);
      EmptyTreeTells(entries, peers, e);
    } else {
      var e, f :| e in entries && f in entries && Sends(e.1) && Sends(f.1) && e.1.strategy == f.1.strategy && e != f;
      TwoSourcesTell(entries, peers, e, f);
    }
  }

  // ---- the method --------------------------------------------------------------------------------

  method FindOwner(peers: Peers, root: PeerId) returns (owner: Option<NodeId>)
    requires PeersUnique(peers)
    ensures owner == OwnerOf(peers, root)
  {
    owner := None;
    var left := peers.Keys;
    while left != {}
      invariant left <= peers.Keys
      invariant owner.None? ==> forall n | n in peers && n !in left :: root !in peers[n]
      invariant owner.Some? ==> owner.value in peers && root in peers[owner.value]
      decreases |left|
    {
      var node :| node in left;
      if root in peers[node] { return Some(node); }
      left := left - {node};
    }
  }

  method FindLeast(peers: Peers) returns (least: Option<NodeId>)
    ensures least == LeastNode(peers)
  {
    least := None;
    var left := peers.Keys;
    while left != {}
      invariant left <= peers.Keys
      invariant least.None? ==> left == peers.Keys
      invariant least.Some? ==> least.value in peers && forall n | n in peers && n !in left :: least.value <= n
      decreases |left|
    {
      var node :| node in left;
      if least.None? || node < least.value { least := Some(node); }
      left := left - {node};
    }
  }

  method AllTheSame(specs: seq<(NodeId, CollectiveSpec)>, first: CollectiveSpec) returns (same: bool)
    ensures same <==> AllEqual(specs, first)
  {
    for i := 0 to |specs|
      invariant forall k | 0 <= k < i :: specs[k].1 == first
    {
      if specs[i].1 != first { return false; }
    }
    return true;
  }

  method FindBroadcastSource(specs: seq<(NodeId, CollectiveSpec)>, strategy: Strategy) returns (result: Result<NodeId, GlobalError>)
    ensures result == BroadcastFrom(specs, strategy, 0, None)
  {
    var source: Option<NodeId> := None;
    for i := 0 to |specs|
      invariant BroadcastFrom(specs, strategy, i, source) == BroadcastFrom(specs, strategy, 0, None)
    {
      var (node, spec) := specs[i];
      if !spec.Broadcast? || strategy != spec.strategy { return Err(CollectiveParamsMismatch); }
      if spec.metadata.Some? {
        if source.Some? { return Err(BroadcastMultipleTensors); }
        source := Some(node);
      }
    }
    result := OkOr(source, BroadcastNoTensor);
  }

  method AgreeCollective(specs: seq<(NodeId, CollectiveSpec)>, peers: Peers) returns (result: Result<NodeId, GlobalError>)
    requires PeersUnique(peers)
    ensures result == Agree(specs, peers)
  {
    if specs == [] { return Err(CollectiveParamsMismatch); }
    var first := specs[0].1;
    if first.Broadcast? {
      if first.strategy == Tree(0) { return Err(InvalidTreeArity); }
      result := FindBroadcastSource(specs, first.strategy);
      return;
    }
    var same := AllTheSame(specs, first);
    if !same { return Err(CollectiveParamsMismatch); }
    if first.strategy == Tree(0) { return Err(InvalidTreeArity); }
    if first.AllReduce? {
      var least := FindLeast(peers);
      result := OkOr(least, CollectiveBeforeRegister);
    } else {
      var owner := FindOwner(peers, first.root);
      result := OkOr(owner, UnknownRoot(first.root));
    }
  }
}
