// src/global/node/ring.rs: the multi-node ring. Nodes run at their own pace and meet only through
// numbered transfers, so the protocol is a state machine over its steps, in any interleaving.
module NodeRing {
  import opened Wrappers
  import opened Numbers
  import opened RingMath
  import opened Layout

  // x[p][c] is slice c of the tensor of the node at position p of the ring.
  datatype Ring<!T(!new)> = Ring(x: seq<seq<T>>, op: (T, T) -> T, shape: T -> nat) {
    function Size(): nat { |x| }

    // One slice per node, and slices of one index agree on their shape, which addition keeps.
    ghost predicate Valid() {
      && |x| > 0
      && (forall p | 0 <= p < |x| :: |x[p]| == |x|)
      && (forall p, q, c | 0 <= p < |x| && 0 <= q < |x| && 0 <= c < |x| :: shape(x[p][c]) == shape(x[q][c]))
      && (forall a, b | shape(a) == shape(b) :: shape(op(a, b)) == shape(a))
    }

    // The transfers of one run: n - 1 adding cycles, then n - 1 replacing cycles.
    function Transfers(): nat requires |x| > 0 { 2 * (|x| - 1) }
  }

  datatype Node<T> = Node(slices: seq<T>, sendIdx: nat, counter: nat, uploaded: bool, incoming: Option<T>, failed: bool)

  // exposed[(p, t)] is transfer t of position p, waiting for its single download.
  datatype State<T> = State(nodes: seq<Node<T>>, exposed: map<(nat, nat), T>)

  function Fresh<T(!new)>(r: Ring<T>, p: nat): Node<T>
    requires p < r.Size()
  {
    Node(r.x[p], p, 0, false, None, false)
  }

  ghost predicate Init<T(!new)>(r: Ring<T>, s: State<T>) {
    && |s.nodes| == r.Size()
    && s.exposed == map[]
    && forall p | 0 <= p < r.Size() :: s.nodes[p] == Fresh(r, p)
  }

  ghost predicate Busy<T(!new)>(r: Ring<T>, s: State<T>, p: nat)
    requires r.Valid()
  {
    p < |s.nodes| == r.Size() && !s.nodes[p].failed && s.nodes[p].counter < r.Transfers()
  }

  ghost predicate Expose<T(!new)>(r: Ring<T>, s: State<T>, s': State<T>, p: nat)
    requires r.Valid()
  {
    && Busy(r, s, p) && !s.nodes[p].uploaded
    && var node := s.nodes[p];
    && node.sendIdx < |node.slices|
    && s' == State(s.nodes[p := node.(uploaded := true)], s.exposed[(p, node.counter) := node.slices[node.sendIdx]])
  }

  ghost predicate Download<T(!new)>(r: Ring<T>, s: State<T>, s': State<T>, p: nat)
    requires r.Valid()
  {
    && Busy(r, s, p) && s.nodes[p].incoming.None?
    && var key := (Previous(r.Size(), p), s.nodes[p].counter);
    && key in s.exposed
    && s' == State(s.nodes[p := s.nodes[p].(incoming := Some(s.exposed[key]))], s.exposed - {key})
  }

  // The end of a cycle: add or replace the received slice, then move on.
  ghost predicate EndCycle<T(!new)>(r: Ring<T>, s: State<T>, s': State<T>, p: nat)
    requires r.Valid()
  {
    && Busy(r, s, p) && s.nodes[p].uploaded && s.nodes[p].incoming.Some?
    && var node := s.nodes[p];
    && node.sendIdx < r.Size() == |node.slices|
    && var recv := Receiving(r.Size(), node.sendIdx);
    && s' == s.(nodes := s.nodes[p := Receive(r, node, recv)])
  }

  // The slice a node receives while it sends slice i.
  function Receiving(n: nat, i: nat): (recv: nat)
    requires i < n
    ensures recv == Previous(n, i) < n
  {
    WrapOnce(i + n - 1, n);
    (i + n - 1) % n
  }

  function Receive<T(!new)>(r: Ring<T>, node: Node<T>, recv: nat): Node<T>
    requires recv < |node.slices| && node.incoming.Some?
  {
    var next := node.(sendIdx := recv, counter := node.counter + 1, uploaded := false, incoming := None);
    if node.counter + 1 < r.Size() then
      next.(slices := node.slices[recv := r.op(node.slices[recv], node.incoming.value)])
    else if r.shape(node.slices[recv]) != r.shape(node.incoming.value) then
      node.(failed := true)
    else
      next.(slices := node.slices[recv := node.incoming.value])
  }

  ghost predicate Next<T(!new)>(r: Ring<T>, s: State<T>, s': State<T>)
    requires r.Valid()
  {
    exists p: nat :: Expose(r, s, s', p) || Download(r, s, s', p) || EndCycle(r, s, s', p)
  }

  ghost predicate IsRun<T(!new)>(r: Ring<T>, run: seq<State<T>>)
    requires r.Valid()
  {
    && |run| > 0 && Init(r, run[0])
    && forall i, j | 0 <= i && j == i + 1 && j < |run| :: Next(r, run[i], run[j])
  }

  // ---- what every node holds at every point ------------------------------------------------------

  // The slice index a node sends in transfer t: its own position, then one lower each cycle.
  function SendIdx(n: nat, p: nat, t: nat): (i: nat)
    requires p < n && t < 2 * n
    ensures i < n
  {
    if t <= p then p - t else if t <= p + n then p + n - t else p + 2 * n - t
  }

  function Finished<T(!new)>(r: Ring<T>, c: nat): (y: seq<T>)
    requires c < |r.x| && forall p | 0 <= p < |r.x| :: |r.x[p]| == |r.x|
    ensures |y| == |r.x| && forall p | 0 <= p < |y| :: y[p] == Reduced(r.op, Column(r.x, c), c, |r.x| - 1, p)
  {
    seq(|r.x|, p requires 0 <= p < |r.x| => Reduced(r.op, Column(r.x, c), c, |r.x| - 1, p))
  }

  // Slice c of the node at position p after t cycles.
  function SliceAt<T(!new)>(r: Ring<T>, p: nat, t: nat, c: nat): T
    requires p < |r.x| && c < |r.x| && forall q | 0 <= q < |r.x| :: |r.x[q]| == |r.x|
  {
    if t < |r.x| then Reduced(r.op, Column(r.x, c), c, t, p)
    else Gathered(Finished(r, c), Owner(|r.x|, c), t - (|r.x| - 1), p)
  }

  // The contents of transfer t from position p: no state appears here.
  ghost function Sent<T(!new)>(r: Ring<T>, p: nat, t: nat): T
    requires r.Valid() && p < r.Size() && t < r.Transfers()
  {
    SliceAt(r, p, t, SendIdx(r.Size(), p, t))
  }

  lemma SendFacts(n: nat, p: nat, t: nat)
    requires p < n && t + 1 < 2 * n
    ensures SendIdx(n, p, t + 1) == Previous(n, SendIdx(n, p, t)) == Receiving(n, SendIdx(n, p, t))
    ensures SendIdx(n, Previous(n, p), t) == SendIdx(n, p, t + 1)
  {
  }

  // The one slice a cycle writes is the one whose partial fold (or total) arrives now.
  lemma SliceStep<T(!new)>(r: Ring<T>, p: nat, t: nat, c: nat)
    requires r.Valid() && p < r.Size() && c < r.Size() && t < r.Transfers()
    ensures SliceAt(r, p, 0, c) == r.x[p][c]
    ensures SliceAt(r, p, t + 1, c) ==
      if c != SendIdx(r.Size(), p, t + 1) then SliceAt(r, p, t, c)
      else if t + 1 < r.Size() then r.op(SliceAt(r, p, t, c), SliceAt(r, Previous(r.Size(), p), t, c))
      else SliceAt(r, Previous(r.Size(), p), t, c)
  {
    var n := r.Size();
    if t + 1 < n {
      ReducedStep(r.op, Column(r.x, c), c, t, p);
    } else {
      GatheredStep(Finished(r, c), Owner(n, c), t - (n - 1), p);
      if t == n - 1 {
        GatheredStep(Finished(r, c), Owner(n, c), 0, p);
        GatheredStep(Finished(r, c), Owner(n, c), 0, Previous(n, p));
      }
    }
  }

  lemma {:induction false} FoldShape<T(!new)>(r: Ring<T>, c: nat, k: nat)
    requires r.Valid() && c < r.Size() && k < r.Size()
    ensures r.shape(RingFold(r.op, Column(r.x, c), c, k)) == r.shape(r.x[0][c])
  {
    if k > 0 {
      FoldShape(r, c, k - 1);
      var q := (c + k) % |r.x|;
      assert Column(r.x, c)[q] == r.x[q][c];
    }
  }

  lemma SliceShape<T(!new)>(r: Ring<T>, p: nat, t: nat, c: nat)
    requires r.Valid() && p < r.Size() && c < r.Size()
    ensures r.shape(SliceAt(r, p, t, c)) == r.shape(r.x[0][c])
  {
    var n := r.Size();
    forall k: nat | k < n ensures r.shape(RingFold(r.op, Column(r.x, c), c, k)) == r.shape(r.x[0][c]) {
      FoldShape(r, c, k);
    }
  }

  // ---- the invariant -----------------------------------------------------------------------------

  ghost predicate NodeInv<T(!new)>(r: Ring<T>, p: nat, node: Node<T>)
    requires r.Valid() && p < r.Size()
  {
    && !node.failed
    && node.counter <= r.Transfers()
    && node.sendIdx == SendIdx(r.Size(), p, node.counter)
    && |node.slices| == r.Size()
    && (forall c | 0 <= c < r.Size() :: node.slices[c] == SliceAt(r, p, node.counter, c))
    && (node.counter == r.Transfers() ==> !node.uploaded && node.incoming.None?)
    && (node.incoming.Some? ==> node.incoming.value == Sent(r, Previous(r.Size(), p), node.counter))
  }

  ghost predicate HasExposed<T(!new)>(node: Node<T>, t: nat) { t < node.counter || (t == node.counter && node.uploaded) }

  ghost predicate HasDownloaded<T(!new)>(node: Node<T>, t: nat) { t < node.counter || (t == node.counter && node.incoming.Some?) }

  // A transfer is on offer exactly between its upload and its download, with its fixed contents.
  ghost predicate OfferInv<T(!new)>(r: Ring<T>, s: State<T>)
    requires r.Valid() && |s.nodes| == r.Size()
  {
    && (forall k | k in s.exposed :: k.0 < r.Size() && k.1 < r.Transfers() && s.exposed[k] == Sent(r, k.0, k.1))
    && (forall p, t | 0 <= p < r.Size() && 0 <= t < r.Transfers() ::
         (p, t) in s.exposed <==> HasExposed(s.nodes[p], t) && !HasDownloaded(s.nodes[Successor(r.Size(), p)], t))
    // a download never overtakes its upload
    && (forall p, t | 0 <= p < r.Size() && 0 <= t < r.Transfers() ::
         HasDownloaded(s.nodes[Successor(r.Size(), p)], t) ==> HasExposed(s.nodes[p], t))
  }

  ghost predicate Inv<T(!new)>(r: Ring<T>, s: State<T>)
    requires r.Valid()
  {
    && |s.nodes| == r.Size()
    && (forall p | 0 <= p < r.Size() :: NodeInv(r, p, s.nodes[p]))
    && OfferInv(r, s)
  }

  lemma InitInv<T(!new)>(r: Ring<T>, s: State<T>)
    requires r.Valid() && Init(r, s)
    ensures Inv(r, s)
  {
    forall p | 0 <= p < r.Size() ensures NodeInv(r, p, s.nodes[p]) {
      forall c | 0 <= c < r.Size() ensures s.nodes[p].slices[c] == SliceAt(r, p, 0, c) {
        ReducedStep(r.op, Column(r.x, c), c, 0, p);
      }
    }
  }

  lemma ExposeInv<T(!new)>(r: Ring<T>, s: State<T>, s': State<T>, p: nat)
    requires r.Valid() && Inv(r, s) && Expose(r, s, s', p)
    ensures Inv(r, s')
  {
    var t := s.nodes[p].counter;
    assert NodeInv(r, p, s.nodes[p]);
    assert forall q | 0 <= q < r.Size() && q != p :: s'.nodes[q] == s.nodes[q];
    assert NodeInv(r, p, s'.nodes[p]);
    forall q, u | 0 <= q < r.Size() && 0 <= u < r.Transfers()
      ensures HasExposed(s'.nodes[q], u) <==> HasExposed(s.nodes[q], u) || (q == p && u == t)
      ensures HasDownloaded(s'.nodes[Successor(r.Size(), q)], u) <==> HasDownloaded(s.nodes[Successor(r.Size(), q)], u)
    {
    }
  }

  lemma DownloadOffers<T(!new)>(r: Ring<T>, s: State<T>, s': State<T>, p: nat)
    requires r.Valid() && |s.nodes| == r.Size() && OfferInv(r, s) && Download(r, s, s', p)
    ensures OfferInv(r, s')
  {
    var n, t := r.Size(), s.nodes[p].counter;
    var giver := Previous(n, p);
    assert forall q | 0 <= q < n && q != p :: s'.nodes[q] == s.nodes[q];
    assert forall q | 0 <= q < n :: Successor(n, q) == p <==> q == giver;
    forall q, u | 0 <= q < n && 0 <= u < r.Transfers()
      ensures HasExposed(s'.nodes[q], u) <==> HasExposed(s.nodes[q], u)
      ensures HasDownloaded(s'.nodes[Successor(n, q)], u) <==>
        HasDownloaded(s.nodes[Successor(n, q)], u) || (q == giver && u == t)
    {
    }
  }

  lemma DownloadInv<T(!new)>(r: Ring<T>, s: State<T>, s': State<T>, p: nat)
    requires r.Valid() && Inv(r, s) && Download(r, s, s', p)
    ensures Inv(r, s')
  {
    DownloadOffers(r, s, s', p);
    assert forall q | 0 <= q < r.Size() && q != p :: s'.nodes[q] == s.nodes[q];
    assert NodeInv(r, p, s.nodes[p]);
    assert NodeInv(r, p, s'.nodes[p]);
  }

  // A cycle's result: slices one cycle further, and never a shape error.
  lemma EndCycleNode<T(!new)>(r: Ring<T>, node: Node<T>, p: nat)
    requires r.Valid() && p < r.Size() && NodeInv(r, p, node) && node.counter < r.Transfers() && node.incoming.Some?
    ensures var recv := Receiving(r.Size(), node.sendIdx);
      NodeInv(r, p, Receive(r, node, recv)) && Receive(r, node, recv).counter == node.counter + 1
  {
    var n, t := r.Size(), node.counter;
    SendFacts(n, p, t);
    var recv := SendIdx(n, p, t + 1);
    SliceShape(r, p, t, recv);
    SliceShape(r, Previous(n, p), t, recv);
    var next := Receive(r, node, recv);
    forall c | 0 <= c < n ensures next.slices[c] == SliceAt(r, p, t + 1, c) {
      SliceStep(r, p, t, c);
    }
  }

  lemma EndCycleInv<T(!new)>(r: Ring<T>, s: State<T>, s': State<T>, p: nat)
    requires r.Valid() && Inv(r, s) && EndCycle(r, s, s', p)
    ensures Inv(r, s')
  {
    assert NodeInv(r, p, s.nodes[p]);
    EndCycleNode(r, s.nodes[p], p);
    assert NodeInv(r, p, s'.nodes[p]);
    assert forall q | 0 <= q < r.Size() && q != p :: s'.nodes[q] == s.nodes[q];
    assert forall t :: HasExposed(s'.nodes[p], t) <==> HasExposed(s.nodes[p], t);
    assert forall t :: HasDownloaded(s'.nodes[p], t) <==> HasDownloaded(s.nodes[p], t);
  }

  lemma NextInv<T(!new)>(r: Ring<T>, s: State<T>, s': State<T>)
    requires r.Valid() && Inv(r, s) && Next(r, s, s')
    ensures Inv(r, s')
  {
    var p: nat :| Expose(r, s, s', p) || Download(r, s, s', p) || EndCycle(r, s, s', p);
    if Expose(r, s, s', p) { ExposeInv(r, s, s', p); }
    else if Download(r, s, s', p) { DownloadInv(r, s, s', p); }
    else { EndCycleInv(r, s, s', p); }
  }

  // ---- what holds in every run -------------------------------------------------------------------

  lemma {:induction false} RunInv<T(!new)>(r: Ring<T>, run: seq<State<T>>, i: nat)
    requires r.Valid() && IsRun(r, run) && i < |run|
    ensures Inv(r, run[i])
  {
    if i == 0 {
      InitInv(r, run[0]);
    } else {
      RunInv(r, run, i - 1);
      assert Next(r, run[i - 1], run[i]);
      NextInv(r, run[i - 1], run[i]);
    }
  }

  // Whatever the interleaving, the contents of a transfer are fixed by its position and number.
  lemma TransfersAreDeterministic<T(!new)>(r: Ring<T>, run: seq<State<T>>, i: nat, p: nat, t: nat)
    requires r.Valid() && IsRun(r, run) && i < |run| && (p, t) in run[i].exposed
    ensures p < r.Size() && t < r.Transfers() && run[i].exposed[(p, t)] == Sent(r, p, t)
  {
    RunInv(r, run, i);
  }

  // A download brings exactly the slice index its receiver is about to write, from the same cycle.
  lemma DownloadsMatchTheirReceiver<T(!new)>(r: Ring<T>, run: seq<State<T>>, i: nat, s': State<T>, p: nat)
    requires r.Valid() && IsRun(r, run) && i < |run| && Download(r, run[i], s', p)
    ensures var node := run[i].nodes[p];
      && node.sendIdx < r.Size()
      && s'.nodes[p].incoming == Some(SliceAt(r, Previous(r.Size(), p), node.counter, Receiving(r.Size(), node.sendIdx)))
  {
    RunInv(r, run, i);
    DownloadMatches(r, run[i], s', p);
  }

  lemma DownloadMatches<T(!new)>(r: Ring<T>, s: State<T>, s': State<T>, p: nat)
    requires r.Valid() && Inv(r, s) && Download(r, s, s', p)
    ensures var node := s.nodes[p];
      && node.sendIdx < r.Size()
      && s'.nodes[p].incoming == Some(SliceAt(r, Previous(r.Size(), p), node.counter, Receiving(r.Size(), node.sendIdx)))
  {
    DownloadBrings(r, s, s', p);
    SendFacts(r.Size(), p, s.nodes[p].counter);
  }

  lemma DownloadBrings<T(!new)>(r: Ring<T>, s: State<T>, s': State<T>, p: nat)
    requires r.Valid() && Inv(r, s) && Download(r, s, s', p)
    ensures s.nodes[p].counter < r.Transfers() && s.nodes[p].sendIdx == SendIdx(r.Size(), p, s.nodes[p].counter)
    ensures s'.nodes[p].incoming == Some(Sent(r, Previous(r.Size(), p), s.nodes[p].counter))
  {
    assert NodeInv(r, p, s.nodes[p]);
  }

  lemma FinishedSlice<T(!new)>(r: Ring<T>, p: nat, node: Node<T>, c: nat)
    requires r.Valid() && p < r.Size() && c < r.Size() && NodeInv(r, p, node) && node.counter == r.Transfers()
    ensures node.slices[c] == RingFold(r.op, Column(r.x, c), c, r.Size() - 1)
  {
    OwnerFinished(r.op, Column(r.x, c), c);
    GatheredStep(Finished(r, c), Owner(r.Size(), c), 0, p);
  }

  // A node that ran both phases holds, for every slice, the one fold that starts at the slice's own
  // position; so all finished nodes agree, and no node ever reports an incoherent tensor.
  lemma FinishedNodesHoldEverySum<T(!new)>(r: Ring<T>, run: seq<State<T>>, i: nat, p: nat)
    requires r.Valid() && IsRun(r, run) && i < |run| && p < r.Size()
    ensures |run[i].nodes| == r.Size() && !run[i].nodes[p].failed
    ensures run[i].nodes[p].counter == r.Transfers() ==>
      && |run[i].nodes[p].slices| == r.Size()
      && forall c | 0 <= c < r.Size() :: run[i].nodes[p].slices[c] == RingFold(r.op, Column(r.x, c), c, r.Size() - 1)
  {
    RunInv(r, run, i);
    if run[i].nodes[p].counter == r.Transfers() {
      forall c | 0 <= c < r.Size()
        ensures run[i].nodes[p].slices[c] == RingFold(r.op, Column(r.x, c), c, r.Size() - 1)
      {
        FinishedSlice(r, p, run[i].nodes[p], c);
      }
    }
  }

  lemma FinishedSlicesAreSums<T(!new)>(r: Ring<T>, run: seq<State<T>>, i: nat, p: nat, c: nat)
    requires r.Valid() && IsRun(r, run) && i < |run| && p < r.Size() && c < r.Size()
    requires Associative(r.op) && Commutative(r.op)
    requires |run[i].nodes| == r.Size() && run[i].nodes[p].counter == r.Transfers()
    ensures |run[i].nodes[p].slices| == r.Size() && run[i].nodes[p].slices[c] == LeftFold(r.op, Column(r.x, c))
  {
    FinishedNodesHoldEverySum(r, run, i, p);
    RingFoldIsSum(r.op, Column(r.x, c), c);
  }

  // ---- no run gets stuck, and none goes on for ever ----------------------------------------------

  ghost predicate AllFinished<T(!new)>(r: Ring<T>, s: State<T>)
    requires r.Valid() && |s.nodes| == r.Size()
  {
    forall p | 0 <= p < r.Size() :: s.nodes[p].counter == r.Transfers()
  }

  lemma {:induction false} SlowestNode<T(!new)>(nodes: seq<Node<T>>) returns (p: nat)
    requires |nodes| > 0
    ensures p < |nodes| && forall q | 0 <= q < |nodes| :: nodes[p].counter <= nodes[q].counter
  {
    if |nodes| == 1 {
      p := 0;
    } else {
      p := SlowestNode(nodes[..|nodes| - 1]);
      var last := |nodes| - 1;
      assert forall q | 0 <= q < last :: nodes[..last][q] == nodes[q];
      if nodes[last].counter < nodes[p].counter { p := last; }
    }
  }

  // Steps of a service whose `expose` returns only once the transfer was downloaded: a cycle ends after
  // both its halves. The other steps are the same, so every such run is a run.
  ghost predicate WaitingNext<T(!new)>(r: Ring<T>, s: State<T>, s': State<T>)
    requires r.Valid()
  {
    exists p: nat :: Expose(r, s, s', p) || Download(r, s, s', p) || WaitingEnd(r, s, s', p)
  }

  ghost predicate WaitingEnd<T(!new)>(r: Ring<T>, s: State<T>, s': State<T>, p: nat)
    requires r.Valid()
  {
    EndCycle(r, s, s', p) && (p, s.nodes[p].counter) !in s.exposed
  }

  // The slowest node, or one of its neighbours, can always act, so no interleaving deadlocks, whether or
  // not an upload waits for its download.
  lemma NeverStuck<T(!new)>(r: Ring<T>, s: State<T>) returns (s': State<T>)
    requires r.Valid() && Inv(r, s) && !AllFinished(r, s)
    ensures WaitingNext(r, s, s') && Next(r, s, s')
  {
    var p := SlowestNode(s.nodes);
    assert NodeInv(r, p, s.nodes[p]);
    if !s.nodes[p].uploaded {
      s' := Upload(r, s, p);
    } else if s.nodes[p].incoming.None? {
      s' := UnblockDownload(r, s, p);
    } else if (p, s.nodes[p].counter) in s.exposed {
      s' := SuccessorDownloads(r, s, p);
    } else {
      s' := s.(nodes := s.nodes[p := Receive(r, s.nodes[p], Receiving(r.Size(), s.nodes[p].sendIdx))]);
      assert WaitingEnd(r, s, s', p);
    }
  }

  lemma Upload<T(!new)>(r: Ring<T>, s: State<T>, p: nat) returns (s': State<T>)
    requires r.Valid() && Inv(r, s) && p < r.Size() && s.nodes[p].counter < r.Transfers() && !s.nodes[p].uploaded
    ensures WaitingNext(r, s, s') && Next(r, s, s')
  {
    var node := s.nodes[p];
    assert NodeInv(r, p, node);
    s' := State(s.nodes[p := node.(uploaded := true)], s.exposed[(p, node.counter) := node.slices[node.sendIdx]]);
    assert Expose(r, s, s', p);
  }

  // The slowest node's upload is on offer: its successor is in the same cycle and has yet to download it.
  lemma SuccessorDownloads<T(!new)>(r: Ring<T>, s: State<T>, p: nat) returns (s': State<T>)
    requires r.Valid() && Inv(r, s) && p < r.Size() && s.nodes[p].counter < r.Transfers() && (p, s.nodes[p].counter) in s.exposed
    requires forall q | 0 <= q < r.Size() :: s.nodes[p].counter <= s.nodes[q].counter
    ensures WaitingNext(r, s, s') && Next(r, s, s')
  {
    var t, q := s.nodes[p].counter, Successor(r.Size(), p);
    assert NodeInv(r, q, s.nodes[q]);
    assert !HasDownloaded(s.nodes[q], t);
    s' := State(s.nodes[q := s.nodes[q].(incoming := Some(s.exposed[(p, t)]))], s.exposed - {(p, t)});
    assert Download(r, s, s', q);
  }

  // If the slowest node waits for its predecessor, either the transfer is on offer or the
  // predecessor, being in the same cycle, has yet to upload it.
  lemma UnblockDownload<T(!new)>(r: Ring<T>, s: State<T>, p: nat) returns (s': State<T>)
    requires r.Valid() && Inv(r, s) && p < r.Size() && s.nodes[p].counter < r.Transfers()
    requires s.nodes[p].uploaded && s.nodes[p].incoming.None?
    requires forall q | 0 <= q < r.Size() :: s.nodes[p].counter <= s.nodes[q].counter
    ensures WaitingNext(r, s, s') && Next(r, s, s')
  {
    var n, t := r.Size(), s.nodes[p].counter;
    var giver := Previous(n, p);
    assert Successor(n, giver) == p;
    assert NodeInv(r, p, s.nodes[p]) && NodeInv(r, giver, s.nodes[giver]);
    if (giver, t) in s.exposed {
      s' := State(s.nodes[p := s.nodes[p].(incoming := Some(s.exposed[(giver, t)]))], s.exposed - {(giver, t)});
      assert Download(r, s, s', p);
    } else {
      assert !HasExposed(s.nodes[giver], t) && s.nodes[giver].counter == t;
      s' := Upload(r, s, giver);
    }
  }

  // When every node is finished every transfer was downloaded.
  lemma NothingLeft<T(!new)>(r: Ring<T>, s: State<T>)
    requires r.Valid() && Inv(r, s) && AllFinished(r, s)
    ensures s.exposed == map[]
  {
    forall p: nat, t: nat | p < r.Size() && t < r.Transfers() ensures (p, t) !in s.exposed {
      assert HasDownloaded(s.nodes[Successor(r.Size(), p)], t);
    }
    assert forall k | k in s.exposed :: k == (k.0, k.1);
  }

  function NodeWork<T(!new)>(node: Node<T>): nat {
    3 * node.counter + (if node.uploaded then 1 else 0) + (if node.incoming.Some? then 1 else 0)
  }

  function Work<T(!new)>(nodes: seq<Node<T>>): nat {
    if nodes == [] then 0 else Work(nodes[..|nodes| - 1]) + NodeWork(nodes[|nodes| - 1])
  }

  lemma {:induction false} WorkUpdate<T(!new)>(nodes: seq<Node<T>>, p: nat, node: Node<T>)
    requires p < |nodes|
    ensures Work(nodes[p := node]) == Work(nodes) - NodeWork(nodes[p]) + NodeWork(node)
  {
    var last := |nodes| - 1;
    if p == last {
      assert nodes[p := node][..last] == nodes[..last];
    } else {
      WorkUpdate(nodes[..last], p, node);
      assert nodes[p := node][..last] == nodes[..last][p := node];
    }
  }

  lemma {:induction false} WorkBound<T(!new)>(nodes: seq<Node<T>>, bound: nat)
    requires forall p | 0 <= p < |nodes| :: NodeWork(nodes[p]) <= bound
    ensures Work(nodes) <= |nodes| * bound
  {
    if nodes != [] {
      WorkBound(nodes[..|nodes| - 1], bound);
      assert |nodes| * bound == (|nodes| - 1) * bound + bound;
    }
  }

  lemma StepWorks<T(!new)>(r: Ring<T>, s: State<T>, s': State<T>, p: nat)
    requires r.Valid() && Inv(r, s) && p < r.Size()
    requires Expose(r, s, s', p) || Download(r, s, s', p) || EndCycle(r, s, s', p)
    ensures |s'.nodes| == |s.nodes| && s'.nodes == s.nodes[p := s'.nodes[p]]
    ensures NodeWork(s'.nodes[p]) == NodeWork(s.nodes[p]) + 1
  {
    assert NodeInv(r, p, s.nodes[p]);
    if EndCycle(r, s, s', p) {
      EndCycleNode(r, s.nodes[p], p);
    }
  }

  lemma NextWorks<T(!new)>(r: Ring<T>, s: State<T>, s': State<T>)
    requires r.Valid() && Inv(r, s) && Next(r, s, s')
    ensures Work(s'.nodes) == Work(s.nodes) + 1
  {
    var p: nat :| Expose(r, s, s', p) || Download(r, s, s', p) || EndCycle(r, s, s', p);
    StepWorks(r, s, s', p);
    WorkUpdate(s.nodes, p, s'.nodes[p]);
  }

  lemma WorkIsBounded<T(!new)>(r: Ring<T>, s: State<T>)
    requires r.Valid() && Inv(r, s)
    ensures Work(s.nodes) <= r.Size() * (3 * r.Transfers())
  {
    forall p | 0 <= p < r.Size() ensures NodeWork(s.nodes[p]) <= 3 * r.Transfers() {
      assert NodeInv(r, p, s.nodes[p]);
    }
    WorkBound(s.nodes, 3 * r.Transfers());
  }

  lemma NoWorkAtFirst<T(!new)>(r: Ring<T>, s: State<T>)
    requires Init(r, s)
    ensures Work(s.nodes) == 0
  {
    assert forall p | 0 <= p < r.Size() :: NodeWork(s.nodes[p]) == 0;
    WorkBound(s.nodes, 0);
  }

  lemma StepAddsWork<T(!new)>(r: Ring<T>, run: seq<State<T>>, i: nat, s: State<T>, s': State<T>)
    requires r.Valid() && IsRun(r, run) && i + 1 < |run| && s == run[i] && s' == run[i + 1]
    ensures Work(s'.nodes) == Work(s.nodes) + 1
  {
    RunInv(r, run, i);
    NextWorks(r, s, s');
  }

  lemma {:induction false} StepsAreWork<T(!new)>(r: Ring<T>, run: seq<State<T>>, i: nat)
    requires r.Valid() && IsRun(r, run) && i < |run|
    ensures Work(run[i].nodes) == i
  {
    if i == 0 {
      NoWorkAtFirst(r, run[0]);
    } else {
      StepsAreWork(r, run, i - 1);
      StepAddsWork(r, run, i - 1, run[i - 1], run[i]);
    }
  }

  // Every run takes at most three steps per node and transfer.
  lemma RunsAreFinite<T(!new)>(r: Ring<T>, run: seq<State<T>>, i: nat)
    requires r.Valid() && IsRun(r, run) && i < |run|
    ensures Work(run[i].nodes) == i <= r.Size() * (3 * r.Transfers())
  {
    RunInv(r, run, i);
    StepsAreWork(r, run, i);
    WorkIsBounded(r, run[i]);
  }
}
