// src/global/node/rooted.rs, src/global/node/tree.rs: an implicit k-ary tree over the node numbers.
module RootedTree {
  import opened Wrappers
  import opened Numbers
  import opened RingMath
  import opened FoldOrder
  import Agreement

  type NodeId = nat

  datatype ReduceError = PeerLost(child: NodeId) | PeerSentIncoherentTensor

  datatype TreeError = InvalidTreeArity | CollectiveParamsMismatch | CollectiveBeforeRegister

  // ---- the tree of indices -----------------------------------------------------------------------

  // Node i > 0 hangs below (i - 1) / k; node i's children start at i * k + 1.
  function ParentOf(i: nat, k: nat): (p: nat)
    requires i > 0 && k > 0
    ensures p < i
  {
    DivisionShrinks(i - 1, k);
    (i - 1) / k
  }

  lemma DivisionShrinks(a: nat, k: nat)
    requires k > 0
    ensures a / k <= a
  {
    assert a == k * (a / k) + a % k;
    ProductNotSmaller(k, a / k);
  }

  lemma ProductNotSmaller(k: nat, q: nat)
    requires k > 0
    ensures q <= k * q
  {
    assert k * q == (k - 1) * q + q;
  }

  function FirstChild(i: nat, k: nat, n: nat): (first: nat)
    ensures first <= n
  {
    if i * k + 1 < n then i * k + 1 else n
  }

  function LastChild(i: nat, k: nat, n: nat): (last: nat)
    ensures FirstChild(i, k, n) <= last <= n
  {
    if FirstChild(i, k, n) + k < n then FirstChild(i, k, n) + k else n
  }

  predicate IsChild(i: nat, c: nat, k: nat, n: nat) { FirstChild(i, k, n) <= c < LastChild(i, k, n) }

  function Window(first: nat, last: nat): (w: set<nat>)
    requires first <= last
    ensures forall c: nat :: c in w <==> first <= c < last
    ensures |w| == last - first
    decreases last - first
  {
    if first == last then {} else
      var rest := Window(first, last - 1);
      rest + {last - 1}
  }

  lemma QuotientIs(a: nat, k: nat, q: nat)
    requires k > 0
    ensures a / k == q <==> q * k <= a < q * k + k
  {
    if q * k <= a < q * k + k {
      assert a == k * q + (a - q * k);
      ModUnique(a, k, q, a - q * k);
    }
    assert a == k * (a / k) + a % k;
  }

  // The two answers agree: c is a child of i exactly when i is c's parent.
  lemma ChildrenAndParentsAgree(i: nat, c: nat, k: nat, n: nat)
    requires k > 0 && i < n && c < n
    ensures IsChild(i, c, k, n) <==> c > 0 && ParentOf(c, k) == i
  {
    if c > 0 { QuotientIs(c - 1, k, i); }
  }

  lemma ChildrenComeLater(i: nat, k: nat, n: nat)
    requires k > 0 && i < n
    ensures i < FirstChild(i, k, n)
  {
    assert i <= i * k;
  }

  // ---- walking it --------------------------------------------------------------------------------

  predicate IsAncestor(i: nat, j: nat, k: nat)
    requires k > 0
    decreases j
  {
    i == j || (i < j && IsAncestor(i, ParentOf(j, k), k))
  }

  lemma {:induction false} RootIsAncestor(j: nat, k: nat)
    requires k > 0
    ensures IsAncestor(0, j, k)
    decreases j
  {
    if j > 0 { RootIsAncestor(ParentOf(j, k), k); }
  }

  // Below i, the way to j goes through exactly one child.
  lemma {:induction false} OneChildOnTheWay(i: nat, j: nat, k: nat, n: nat) returns (c: nat)
    requires k > 0 && i < j < n && IsAncestor(i, j, k)
    ensures IsChild(i, c, k, n) && IsAncestor(c, j, k)
    ensures forall d: nat | IsChild(i, d, k, n) && IsAncestor(d, j, k) :: d == c
    decreases j
  {
    var p := ParentOf(j, k);
    ChildrenComeLater(i, k, n);
    if p == i {
      c := j;
      ChildrenAndParentsAgree(i, j, k, n);
    } else {
      c := OneChildOnTheWay(i, p, k, n);
      ChildrenAndParentsAgree(i, j, k, n);
    }
  }

  lemma ChildIsOnTheWay(i: nat, c: nat, j: nat, k: nat, n: nat)
    requires k > 0 && i < n && j < n && IsChild(i, c, k, n) && IsAncestor(c, j, k)
    ensures i < j && IsAncestor(i, j, k)
    decreases j
  {
    ChildrenComeLater(i, k, n);
    ChildrenAndParentsAgree(i, c, k, n);
    if c < j { ChildIsOnTheWay(i, c, ParentOf(j, k), k, n); }
  }

  // Visit i, then its children's subtrees in order.
  function Preorder(i: nat, k: nat, n: nat): seq<nat>
    requires k > 0 && i < n
    decreases n - i, 0
  {
    ChildrenComeLater(i, k, n);
    [i] + Preorders(FirstChild(i, k, n), LastChild(i, k, n), k, n)
  }

  function Preorders(from: nat, to: nat, k: nat, n: nat): seq<nat>
    requires k > 0 && from <= to <= n
    decreases n - from, 1
  {
    if from == to then [] else Preorder(from, k, n) + Preorders(from + 1, to, k, n)
  }

  // How many of from, from + 1, ..., end - 1 have j below them.
  ghost function AncestorsIn(from: nat, end: nat, j: nat, k: nat): nat
    requires k > 0 && from <= end
    decreases end
  {
    if from == end then 0 else AncestorsIn(from, end - 1, j, k) + Once(IsAncestor(end - 1, j, k))
  }

  lemma {:induction false} NextAncestor(from: nat, end: nat, j: nat, k: nat)
    requires k > 0 && from < end
    ensures AncestorsIn(from, end, j, k) == Once(IsAncestor(from, j, k)) + AncestorsIn(from + 1, end, j, k)
    decreases end
  {
    if from + 1 < end { NextAncestor(from, end - 1, j, k); }
  }

  lemma {:induction false} NoAncestor(from: nat, end: nat, j: nat, k: nat)
    requires k > 0 && from <= end && forall d: nat | from <= d < end :: !IsAncestor(d, j, k)
    ensures AncestorsIn(from, end, j, k) == 0
    decreases end
  {
    if from < end { NoAncestor(from, end - 1, j, k); }
  }

  lemma {:induction false} OneAncestor(from: nat, end: nat, j: nat, k: nat, c: nat)
    requires k > 0 && from <= c < end && IsAncestor(c, j, k) && forall d: nat | from <= d < end && IsAncestor(d, j, k) :: d == c
    ensures AncestorsIn(from, end, j, k) == 1
    decreases end
  {
    if c == end - 1 { NoAncestor(from, end - 1, j, k); } else { OneAncestor(from, end - 1, j, k, c); }
  }

  // A node below i, other than i itself, is below exactly one of i's children.
  lemma ChildrenShare(i: nat, j: nat, k: nat, n: nat)
    requires k > 0 && i < n && j < n
    ensures Once(i == j) + AncestorsIn(FirstChild(i, k, n), LastChild(i, k, n), j, k) == Once(IsAncestor(i, j, k))
  {
    var first, last := FirstChild(i, k, n), LastChild(i, k, n);
    if i < j && IsAncestor(i, j, k) {
      var c := OneChildOnTheWay(i, j, k, n);
      forall d: nat | first <= d < last && IsAncestor(d, j, k) ensures d == c { assert IsChild(i, d, k, n); }
      OneAncestor(first, last, j, k, c);
    } else {
      forall d: nat | first <= d < last ensures !IsAncestor(d, j, k) {
        if IsAncestor(d, j, k) { ChildIsOnTheWay(i, d, j, k, n); }
      }
      NoAncestor(first, last, j, k);
    }
  }

  lemma {:induction false} PreorderVisits(i: nat, j: nat, k: nat, n: nat)
    requires k > 0 && i < n && j < n
    ensures multiset(Preorder(i, k, n))[j] == Once(IsAncestor(i, j, k))
    decreases n - i, 0
  {
    var first, last := FirstChild(i, k, n), LastChild(i, k, n);
    ChildrenComeLater(i, k, n);
    PreordersVisit(first, last, j, k, n);
    ChildrenShare(i, j, k, n);
    assert multiset(Preorder(i, k, n)) == multiset{i} + multiset(Preorders(first, last, k, n));
  }

  lemma {:induction false} PreordersVisit(from: nat, to: nat, j: nat, k: nat, n: nat)
    requires k > 0 && from <= to <= n && j < n
    ensures multiset(Preorders(from, to, k, n))[j] == AncestorsIn(from, to, j, k)
    decreases n - from, 1
  {
    if from < to {
      PreorderVisits(from, j, k, n);
      PreordersVisit(from + 1, to, j, k, n);
      NextPreorder(from, to, j, k, n);
    }
  }

  lemma NextPreorder(from: nat, to: nat, j: nat, k: nat, n: nat)
    requires k > 0 && from < to <= n
    requires multiset(Preorder(from, k, n))[j] == Once(IsAncestor(from, j, k))
    requires multiset(Preorders(from + 1, to, k, n))[j] == AncestorsIn(from + 1, to, j, k)
    ensures multiset(Preorders(from, to, k, n))[j] == AncestorsIn(from, to, j, k)
  {
    assert Preorders(from, to, k, n) == Preorder(from, k, n) + Preorders(from + 1, to, k, n);
    NextAncestor(from, to, j, k);
  }

  lemma {:induction false} PreorderInRange(i: nat, k: nat, n: nat)
    requires k > 0 && i < n
    ensures Below(Preorder(i, k, n), n)
    decreases n - i, 0
  {
    ChildrenComeLater(i, k, n);
    PreordersInRange(FirstChild(i, k, n), LastChild(i, k, n), k, n);
  }

  lemma {:induction false} PreordersInRange(from: nat, to: nat, k: nat, n: nat)
    requires k > 0 && from <= to <= n
    ensures Below(Preorders(from, to, k, n), n)
    decreases n - from, 1
  {
    if from < to {
      PreorderInRange(from, k, n);
      PreordersInRange(from + 1, to, k, n);
    }
  }

  // From the root, every node is reached exactly once.
  lemma EveryNodeReachedOnce(k: nat, n: nat)
    requires k > 0 && n > 0
    ensures multiset(Preorder(0, k, n)) == multiset(Indices(n))
  {
    forall j: nat ensures multiset(Preorder(0, k, n))[j] == multiset(Indices(n))[j] {
      IndicesOnce(n, j);
      PreorderInRange(0, k, n);
      if j < n {
        PreorderVisits(0, j, k, n);
        RootIsAncestor(j, k);
      } else {
        assert j !in Preorder(0, k, n);
      }
    }
  }

  // ---- reducing and broadcasting -----------------------------------------------------------------

  // What node i exposes to its parent: its own tensor and its children's, added in child order.
  function Reduced<T>(op: (T, T) -> T, x: seq<T>, i: nat, k: nat): T
    requires k > 0 && i < |x|
    decreases |x| - i, 0
  {
    ChildrenComeLater(i, k, |x|);
    AddChildren(op, x, x[i], FirstChild(i, k, |x|), LastChild(i, k, |x|), k)
  }

  function AddChildren<T>(op: (T, T) -> T, x: seq<T>, sum: T, from: nat, to: nat, k: nat): T
    requires k > 0 && from <= to <= |x|
    decreases |x| - from, 1
  {
    if from == to then sum else AddChildren(op, x, op(sum, Reduced(op, x, from, k)), from + 1, to, k)
  }

  lemma {:induction false} ReducedIsPreorderFold<T(!new)>(op: (T, T) -> T, x: seq<T>, i: nat, k: nat)
    requires Associative(op) && k > 0 && i < |x|
    ensures Below(Preorder(i, k, |x|), |x|)
    ensures Reduced(op, x, i, k) == LeftFold(op, At(x, Preorder(i, k, |x|)))
    decreases |x| - i, 0
  {
    PreorderInRange(i, k, |x|);
    ChildrenComeLater(i, k, |x|);
    assert At(x, [i]) == [x[i]];
    ChildrenArePreorderFold(op, x, [i], FirstChild(i, k, |x|), LastChild(i, k, |x|), k);
  }

  lemma {:induction false} ChildrenArePreorderFold<T(!new)>(op: (T, T) -> T, x: seq<T>, seen: seq<nat>, from: nat, to: nat, k: nat)
    requires Associative(op) && k > 0 && from <= to <= |x| && seen != [] && Below(seen, |x|)
    ensures Below(seen + Preorders(from, to, k, |x|), |x|)
    ensures AddChildren(op, x, LeftFold(op, At(x, seen)), from, to, k) == LeftFold(op, At(x, seen + Preorders(from, to, k, |x|)))
    decreases |x| - from, 2
  {
    PreordersInRange(from, to, k, |x|);
    AtAppend(x, seen, Preorders(from, to, k, |x|));
    if from == to {
      assert seen + Preorders(from, to, k, |x|) == seen;
    } else {
      var mine, rest := Preorder(from, k, |x|), Preorders(from + 1, to, k, |x|);
      NextChild(op, x, LeftFold(op, At(x, seen)), from, to, k);
      Regroup(seen, mine, rest);
      OneMoreChild(op, x, seen, from, k);
      ChildrenArePreorderFold(op, x, seen + mine, from + 1, to, k);
    }
  }

  lemma NextChild<T>(op: (T, T) -> T, x: seq<T>, sum: T, from: nat, to: nat, k: nat)
    requires k > 0 && from < to <= |x|
    ensures AddChildren(op, x, sum, from, to, k) == AddChildren(op, x, op(sum, Reduced(op, x, from, k)), from + 1, to, k)
    ensures Preorders(from, to, k, |x|) == Preorder(from, k, |x|) + Preorders(from + 1, to, k, |x|)
  {
  }

  lemma {:induction false} OneMoreChild<T(!new)>(op: (T, T) -> T, x: seq<T>, seen: seq<nat>, c: nat, k: nat)
    requires Associative(op) && k > 0 && c < |x| && seen != [] && Below(seen, |x|)
    ensures Below(seen + Preorder(c, k, |x|), |x|)
    ensures op(LeftFold(op, At(x, seen)), Reduced(op, x, c, k)) == LeftFold(op, At(x, seen + Preorder(c, k, |x|)))
    decreases |x| - c, 1
  {
    ReducedIsPreorderFold(op, x, c, k);
    AtAppend(x, seen, Preorder(c, k, |x|));
    LeftFoldAppend(op, At(x, seen), At(x, Preorder(c, k, |x|)));
  }

  // The root holds the sum of all inputs.
  lemma RootHoldsTheSum<T(!new)>(op: (T, T) -> T, x: seq<T>, k: nat)
    requires Associative(op) && Commutative(op) && k > 0 && x != []
    ensures Reduced(op, x, 0, k) == LeftFold(op, x)
  {
    var order := Preorder(0, k, |x|);
    ReducedIsPreorderFold(op, x, 0, k);
    EveryNodeReachedOnce(k, |x|);
    AtKeepsCounts(x, order, Indices(|x|));
    assert At(x, Indices(|x|)) == x;
    assert order != [];
    FoldIgnoresOrder(op, At(x, order), x);
  }

  ghost predicate ChildrenExpose<T>(op: (T, T) -> T, x: seq<T>, i: nat, k: nat, downloads: seq<Option<T>>)
    requires k > 0 && i < |x| && |downloads| == LastChild(i, k, |x|) - FirstChild(i, k, |x|)
  {
    forall c | 0 <= c < |downloads| :: downloads[c] == Some(Reduced(op, x, FirstChild(i, k, |x|) + c, k))
  }

  // One node's part: its own tensor plus what its children expose, in child order. The first child that
  // is lost or sends another shape ends it; otherwise the root keeps the sum and the others expose it
  // for one download.
  method ReduceAt<T>(op: (T, T) -> T, meta: T -> nat, ghost x: seq<T>, own: T, i: nat, ghost k: nat, children: seq<NodeId>, downloads: seq<Option<T>>)
    returns (result: Result<Option<T>, ReduceError>, exposed: Option<T>)
    requires k > 0 && i < |x| && own == x[i] && |children| == |downloads| == LastChild(i, k, |x|) - FirstChild(i, k, |x|)
    ensures ChildrenExpose(op, x, i, k, downloads) && (forall c | 0 <= c < |downloads| :: meta(downloads[c].value) == meta(own)) ==>
      result == Ok(if i == 0 then Some(Reduced(op, x, i, k)) else None) && exposed == if i == 0 then None else Some(Reduced(op, x, i, k))
    ensures forall c | 0 <= c < |downloads| && (downloads[c].None? || meta(downloads[c].value) != meta(own)) &&
                       (forall b | 0 <= b < c :: downloads[b].Some? && meta(downloads[b].value) == meta(own)) ::
      result == Err(if downloads[c].None? then PeerLost(children[c]) else PeerSentIncoherentTensor) && exposed == None
  {
    ghost var first, last := FirstChild(i, k, |x|), LastChild(i, k, |x|);
    ChildrenComeLater(i, k, |x|);
    var sum := own;
    for c := 0 to |downloads|
      invariant forall b | 0 <= b < c :: downloads[b].Some? && meta(downloads[b].value) == meta(own)
      invariant ChildrenExpose(op, x, i, k, downloads) ==> AddChildren(op, x, sum, first + c, last, k) == Reduced(op, x, i, k)
    {
      if downloads[c].None? { return Err(PeerLost(children[c])), None; }
      if meta(downloads[c].value) != meta(own) { return Err(PeerSentIncoherentTensor), None; }
      NextChild(op, x, sum, first + c, last, k);
      sum := op(sum, downloads[c].value);
    }
    if i == 0 { return Ok(Some(sum)), None; }
    return Ok(None), Some(sum);
  }

  // ---- the tree of node numbers ------------------------------------------------------------------

  predicate IsSorted(ids: seq<NodeId>) { forall a, b | 0 <= a < b < |ids| :: ids[a] < ids[b] }

  ghost function Ascending(nodes: set<NodeId>): (ids: seq<NodeId>)
    ensures |ids| == |nodes| && IsSorted(ids) && forall n :: n in ids <==> n in nodes
    decreases |nodes|
  {
    if nodes == {} then []
    else
      Agreement.HasLeast(nodes);
      var least :| least in nodes && forall n | n in nodes :: least <= n;
      var rest := Ascending(nodes - {least});
      LeastInFront(nodes, least, rest);
      [least] + rest
  }

  lemma LeastInFront(nodes: set<NodeId>, least: NodeId, rest: seq<NodeId>)
    requires least in nodes && forall n | n in nodes :: least <= n
    requires |rest| == |nodes| - 1 && IsSorted(rest) && forall n :: n in rest <==> n in nodes - {least}
    ensures |[least] + rest| == |nodes| && IsSorted([least] + rest) && forall n :: n in [least] + rest <==> n in nodes
  {
    var ids := [least] + rest;
    forall a, b | 0 <= a < b < |ids| ensures ids[a] < ids[b] {
      assert ids[b] == rest[b - 1] && rest[b - 1] in rest;
    }
  }

  lemma {:induction false} SortedIsUnique(a: seq<NodeId>, b: seq<NodeId>)
    requires IsSorted(a) && IsSorted(b) && forall n :: n in a <==> n in b
    ensures a == b
  {
    assert (a != [] ==> a[0] in b) && (b != [] ==> b[0] in a);
    if a != [] {
      assert a[0] == b[0];
      forall n ensures n in a[1..] <==> n in b[1..] {
        assert n in a <==> n == a[0] || n in a[1..];
        assert n in b <==> n == b[0] || n in b[1..];
      }
      SortedIsUnique(a[1..], b[1..]);
    }
  }

  // The root first, the others ascending.
  ghost function TreeOrder(nodes: set<NodeId>, root: NodeId): (ids: seq<NodeId>)
    requires root in nodes
    ensures |ids| == |nodes| && ids[0] == root && forall n :: n in ids <==> n in nodes
    ensures forall a, b | 0 <= a < b < |ids| :: ids[a] != ids[b]
  {
    [root] + Ascending(nodes - {root})
  }

  ghost function PositionOf(ids: seq<NodeId>, node: NodeId): (i: nat)
    requires node in ids
    ensures i < |ids| && ids[i] == node
  {
    var i :| 0 <= i < |ids| && ids[i] == node; i
  }

  type Neighbourhood = (Option<NodeId>, seq<NodeId>)

  ghost function NeighborsAt(ids: seq<NodeId>, i: nat, k: nat): Neighbourhood
    requires i < |ids| && k > 0
  {
    (if i > 0 then Some(ids[ParentOf(i, k)]) else None, ids[FirstChild(i, k, |ids|)..LastChild(i, k, |ids|)])
  }

  // Without an arity the tree is a star.
  ghost function Width(arity: Option<nat>, n: nat): (k: nat)
    requires arity != Some(0) && n > 0
    ensures k > 0
  {
    if arity.Some? then arity.value else n
  }

  ghost function Neighbors(node: NodeId, root: NodeId, nodes: set<NodeId>, arity: Option<nat>): Result<Neighbourhood, TreeError> {
    if arity == Some(0) then Err(InvalidTreeArity)
    else if root !in nodes then Err(CollectiveParamsMismatch)
    else if node !in nodes then Err(CollectiveBeforeRegister)
    else
      var ids := TreeOrder(nodes, root);
      Ok(NeighborsAt(ids, PositionOf(ids, node), Width(arity, |ids|)))
  }

  // Parent and child answers agree for any two nodes, and only the root has no parent.
  lemma NeighborsAgree(a: NodeId, b: NodeId, root: NodeId, nodes: set<NodeId>, arity: Option<nat>)
    requires a in nodes && b in nodes && root in nodes && arity != Some(0)
    ensures Neighbors(a, root, nodes, arity).Ok? && Neighbors(b, root, nodes, arity).Ok?
    ensures b in Neighbors(a, root, nodes, arity).value.1 <==> Neighbors(b, root, nodes, arity).value.0 == Some(a)
    ensures Neighbors(a, root, nodes, arity).value.0.None? <==> a == root
  {
    var ids := TreeOrder(nodes, root);
    var i, j, k := PositionOf(ids, a), PositionOf(ids, b), Width(arity, |ids|);
    ChildrenAndParentsAgree(i, j, k, |ids|);
    InWindow(ids, FirstChild(i, k, |ids|), LastChild(i, k, |ids|), j);
    if j > 0 { assert ids[ParentOf(j, k)] == a <==> ParentOf(j, k) == i; }
  }

  lemma InWindow(ids: seq<NodeId>, first: nat, last: nat, j: nat)
    requires first <= last <= |ids| && j < |ids| && forall a, b | 0 <= a < b < |ids| :: ids[a] != ids[b]
    ensures ids[j] in ids[first..last] <==> first <= j < last
  {
    if ids[j] in ids[first..last] {
      var p :| 0 <= p < last - first && ids[first..last][p] == ids[j];
      assert ids[first + p] == ids[j];
    }
    if first <= j < last { assert ids[first..last][j - first] == ids[j]; }
  }

  // Later in the tree's order: the root comes first, the others ascending.
  ghost predicate Later(root: NodeId, a: NodeId, b: NodeId) { b != root && (a == root || a < b) }

  lemma LaterPositions(nodes: set<NodeId>, root: NodeId, a: NodeId, b: NodeId)
    requires root in nodes && a in nodes && b in nodes
    ensures var ids := TreeOrder(nodes, root); Later(root, a, b) <==> a != b && PositionOf(ids, a) < PositionOf(ids, b)
  {
    var ids, others := TreeOrder(nodes, root), Ascending(nodes - {root});
    var i, j := PositionOf(ids, a), PositionOf(ids, b);
    assert ids[0] == root;
    if i > 0 { assert ids[i] == others[i - 1]; }
    if j > 0 { assert ids[j] == others[j - 1]; }
  }

  lemma NeighborsFrom(ids: seq<NodeId>, node: NodeId, root: NodeId, nodes: set<NodeId>, arity: Option<nat>, k: nat) returns (i: nat)
    requires node in nodes && root in nodes && arity != Some(0) && ids == TreeOrder(nodes, root)
    requires k == if arity.Some? then arity.value else |ids|
    ensures i < |ids| && i == PositionOf(ids, node) && Neighbors(node, root, nodes, arity) == Ok(NeighborsAt(ids, i, k))
  {
    i := PositionOf(ids, node);
  }

  lemma StarAt(ids: seq<NodeId>, i: nat)
    requires i < |ids|
    ensures NeighborsAt(ids, i, |ids|) == if i == 0 then (None, ids[1..]) else (Some(ids[0]), [])
  {
    var n := |ids|;
    if i == 0 {
      assert FirstChild(0, n, n) == Min(1, n) && LastChild(0, n, n) == n;
      assert ids[1..n] == ids[1..];
    } else {
      QuotientIs(i - 1, n, 0);
      StarLeaf(i, n);
      assert ParentOf(i, n) == 0 && ids[n..LastChild(i, n, n)] == [];
    }
  }

  lemma StarLeaf(i: nat, n: nat)
    requires 0 < i < n
    ensures FirstChild(i, n, n) == n
  {
    assert i * n == (i - 1) * n + n;
  }

  // Without an arity the tree is a star: the root's children are all the others, ascending, and everybody
  // else has no child and the root as parent.
  lemma WithoutArityItIsAStar(node: NodeId, root: NodeId, nodes: set<NodeId>)
    requires node in nodes && root in nodes
    ensures Neighbors(node, root, nodes, None).Ok?
    ensures node != root ==> Neighbors(node, root, nodes, None).value == (Some(root), [])
    ensures node == root ==> IsCentre(Neighbors(node, root, nodes, None).value, nodes - {root})
  {
    var ids := TreeOrder(nodes, root);
    var i := NeighborsFrom(ids, node, root, nodes, None, |ids|);
    StarAt(ids, i);
    assert ids[0] == root && IsCentre((None, ids[1..]), nodes - {root}) by { RootFirstThenAscending(nodes, root, ids); }
  }

  // No parent, and all the others as children, in ascending order.
  ghost predicate IsCentre(neighbours: Neighbourhood, others: set<NodeId>) {
    neighbours.0.None? && IsSorted(neighbours.1) && forall n :: n in neighbours.1 <==> n in others
  }

  lemma ProductsApart(i: nat, j: nat, k: nat)
    requires i < j
    ensures i * k + k <= j * k
  {
    assert j * k == (j - i - 1) * k + (i * k + k);
  }

  lemma WindowsInOrder(i: nat, j: nat, k: nat, n: nat)
    requires i < j < n && k > 0
    ensures LastChild(i, k, n) <= FirstChild(j, k, n) && LastChild(i, k, n) - FirstChild(i, k, n) <= k
    ensures LastChild(i, k, n) - FirstChild(i, k, n) < k ==> FirstChild(j, k, n) == n
  {
    ProductsApart(i, j, k);
    var a, b := i * k, j * k;
    assert FirstChild(i, k, n) == Min(a + 1, n) && FirstChild(j, k, n) == Min(b + 1, n);
  }

  // Two windows of the order, the first of them earlier and after the root.
  lemma WindowsAscend(ids: seq<NodeId>, others: seq<NodeId>, a: nat, b: nat, c: nat, d: nat, x: NodeId, y: NodeId)
    requires |ids| == |others| + 1 && ids[1..] == others && IsSorted(others)
    requires 1 <= a <= b <= c <= d <= |ids| && x in ids[a..b] && y in ids[c..d]
    ensures x < y
  {
    var p :| 0 <= p < b - a && ids[a..b][p] == x;
    var q :| 0 <= q < d - c && ids[c..d][q] == y;
    assert others[a + p - 1] == x && others[c + q - 1] == y;
  }

  lemma WindowAscends(ids: seq<NodeId>, others: seq<NodeId>, a: nat, b: nat)
    requires |ids| == |others| + 1 && ids[1..] == others && IsSorted(others) && 1 <= a <= b <= |ids|
    ensures IsSorted(ids[a..b])
  {
    forall p, q | 0 <= p < q < b - a ensures ids[a..b][p] < ids[a..b][q] {
      assert ids[a..b][p] == others[a + p - 1] && ids[a..b][q] == others[a + q - 1];
    }
  }

  // The children of a node and of a later one, at most k each.
  ghost predicate FillInOrder(mine: seq<NodeId>, theirs: seq<NodeId>, k: nat) {
    && |mine| <= k && IsSorted(mine) && (|mine| < k ==> theirs == [])
    && forall c, d | c in mine && d in theirs :: c < d
  }

  // With an arity nobody has more children than that, and the places fill up in the order of the nodes:
  // every child of a node comes before every child of a later one, and a node lacks a child only if no
  // later node has any.
  lemma PlacesFillInOrder(a: NodeId, b: NodeId, root: NodeId, nodes: set<NodeId>, k: nat)
    requires a in nodes && b in nodes && root in nodes && k > 0 && Later(root, a, b)
    ensures Neighbors(a, root, nodes, Some(k)).Ok? && Neighbors(b, root, nodes, Some(k)).Ok?
    ensures FillInOrder(Neighbors(a, root, nodes, Some(k)).value.1, Neighbors(b, root, nodes, Some(k)).value.1, k)
  {
    var ids := TreeOrder(nodes, root);
    var i := NeighborsFrom(ids, a, root, nodes, Some(k), k);
    var j := NeighborsFrom(ids, b, root, nodes, Some(k), k);
    assert i < j by { LaterPositions(nodes, root, a, b); }
    assert AscendsAfterRoot(ids) by { RootFirstThenAscending(nodes, root, ids); }
    PlacesAt(ids, i, j, k);
  }

  ghost predicate AscendsAfterRoot(ids: seq<NodeId>) { ids != [] && IsSorted(ids[1..]) }

  lemma RootFirstThenAscending(nodes: set<NodeId>, root: NodeId, ids: seq<NodeId>)
    requires root in nodes && ids == TreeOrder(nodes, root)
    ensures AscendsAfterRoot(ids) && ids[0] == root && forall n :: n in ids[1..] <==> n in nodes && n != root
  {
    assert ids[1..] == Ascending(nodes - {root});
  }

  lemma PlacesAt(ids: seq<NodeId>, i: nat, j: nat, k: nat)
    requires AscendsAfterRoot(ids) && i < j < |ids| && k > 0
    ensures FillInOrder(NeighborsAt(ids, i, k).1, NeighborsAt(ids, j, k).1, k)
  {
    var n := |ids|;
    WindowsInOrder(i, j, k, n);
    ChildrenComeLater(i, k, n);
    WindowAscends(ids, ids[1..], FirstChild(i, k, n), LastChild(i, k, n));
    var mine, theirs := ids[FirstChild(i, k, n)..LastChild(i, k, n)], ids[FirstChild(j, k, n)..LastChild(j, k, n)];
    forall c, d | c in mine && d in theirs ensures c < d {
      WindowsAscend(ids, ids[1..], FirstChild(i, k, n), LastChild(i, k, n), FirstChild(j, k, n), LastChild(j, k, n), c, d);
    }
  }

  // Walking down from the root meets every node exactly once.
  lemma EveryNodeMetOnce(root: NodeId, nodes: set<NodeId>, arity: Option<nat>)
    requires root in nodes && arity != Some(0)
    ensures var ids := TreeOrder(nodes, root); var order := Preorder(0, if arity.Some? then arity.value else |ids|, |ids|);
      Below(order, |ids|) && multiset(At(ids, order)) == multiset(nodes)
  {
    var ids := TreeOrder(nodes, root);
    var order := Preorder(0, Width(arity, |ids|), |ids|);
    PreorderInRange(0, Width(arity, |ids|), |ids|);
    EveryNodeReachedOnce(Width(arity, |ids|), |ids|);
    AtKeepsCounts(ids, order, Indices(|ids|));
    assert At(ids, Indices(|ids|)) == ids;
    DistinctIsSet(ids, nodes);
  }

  lemma {:induction false} DistinctIsSet(ids: seq<NodeId>, nodes: set<NodeId>)
    requires (forall n :: n in ids <==> n in nodes) && forall a, b | 0 <= a < b < |ids| :: ids[a] != ids[b]
    ensures multiset(ids) == multiset(nodes)
  {
    if ids == [] {
      assert nodes == {};
    } else {
      var front, last := ids[..|ids| - 1], ids[|ids| - 1];
      assert ids == front + [last];
      assert forall p | 0 <= p < |front| :: front[p] == ids[p] != last;
      assert last !in front;
      forall n ensures n in front <==> n in nodes - {last} {
        assert n in ids <==> n in front || n == last;
      }
      DistinctIsSet(front, nodes - {last});
      assert nodes == (nodes - {last}) + {last};
    }
  }

  // With the least node as root the order is the sorted one.
  lemma LeastRootOrder(ids: seq<NodeId>, nodes: set<NodeId>)
    requires ids != [] && IsSorted(ids) && forall n :: n in ids <==> n in nodes
    ensures ids[0] in nodes && TreeOrder(nodes, ids[0]) == ids
  {
    assert ids[0] in ids;
    var rest := Ascending(nodes - {ids[0]});
    assert ids == [ids[0]] + ids[1..];
    forall n ensures n in ids[1..] <==> n in rest {
      assert n in ids <==> n == ids[0] || n in ids[1..];
      if n in ids[1..] {
        var p :| 0 <= p < |ids[1..]| && ids[1..][p] == n;
        assert ids[p + 1] == n && ids[0] < ids[p + 1];
      }
    }
    SortedIsUnique(ids[1..], rest);
  }

  lemma NextSiblings(i: nat, k: nat, n: nat)
    requires k > 0
    ensures LastChild(i, k, n) == FirstChild(i + 1, k, n) && FirstChild(n, k, n) == n
  {
    assert (i + 1) * k == i * k + k;
    assert n * k >= n;
  }

  // Every node before `done`, but the first, has its parent recorded.
  ghost predicate ParentsTo(nodes: seq<NodeId>, k: nat, parents: map<NodeId, NodeId>, done: nat)
    requires k > 0 && done <= |nodes|
  {
    && (forall n :: n in parents <==> exists j :: 1 <= j < done && nodes[j] == n)
    && (forall j | 1 <= j < done :: parents[nodes[j]] == nodes[ParentOf(j, k)])
  }

  ghost predicate ChildrenTo(nodes: seq<NodeId>, k: nat, children: map<NodeId, seq<NodeId>>, done: nat)
    requires done <= |nodes|
  {
    && (forall n :: n in children <==> exists j :: 0 <= j < done && nodes[j] == n)
    && (forall j | 0 <= j < done :: children[nodes[j]] == nodes[FirstChild(j, k, |nodes|)..LastChild(j, k, |nodes|)])
  }

  // Record node i as the parent of its window of children.
  method RecordChildren(nodes: seq<NodeId>, k: nat, i: nat, first: nat, last: nat, before: map<NodeId, NodeId>)
    returns (parents: map<NodeId, NodeId>, ch: seq<NodeId>)
    requires k > 0 && IsSorted(nodes) && i < first <= last <= |nodes| && ParentsTo(nodes, k, before, first)
    requires forall c | first <= c < last :: ParentOf(c, k) == i
    ensures ParentsTo(nodes, k, parents, last) && ch == nodes[first..last]
  {
    parents, ch := before, [];
    for c := first to last
      invariant ch == nodes[first..c] && ParentsTo(nodes, k, parents, c)
    {
      RecordOne(nodes, k, parents, i, c);
      parents := parents[nodes[c] := nodes[i]];
      ch := ch + [nodes[c]];
    }
  }

  lemma RecordOne(nodes: seq<NodeId>, k: nat, parents: map<NodeId, NodeId>, i: nat, c: nat)
    requires k > 0 && IsSorted(nodes) && 1 <= c < |nodes| && ParentsTo(nodes, k, parents, c) && ParentOf(c, k) == i
    ensures ParentsTo(nodes, k, parents[nodes[c] := nodes[i]], c + 1)
  {
    var next := parents[nodes[c] := nodes[i]];
    forall n ensures n in next <==> exists j :: 1 <= j < c + 1 && nodes[j] == n {
      if n in parents {
        var j :| 1 <= j < c && nodes[j] == n;
        assert 1 <= j < c + 1 && nodes[j] == n;
      }
    }
  }

  lemma RecordChild(nodes: seq<NodeId>, k: nat, children: map<NodeId, seq<NodeId>>, i: nat, ch: seq<NodeId>)
    requires IsSorted(nodes) && i < |nodes| && ChildrenTo(nodes, k, children, i)
    requires ch == nodes[FirstChild(i, k, |nodes|)..LastChild(i, k, |nodes|)]
    ensures ChildrenTo(nodes, k, children[nodes[i] := ch], i + 1)
  {
    var next := children[nodes[i] := ch];
    forall n ensures n in next <==> exists j :: 0 <= j < i + 1 && nodes[j] == n {
      if n in children {
        var j :| 0 <= j < i && nodes[j] == n;
        assert 0 <= j < i + 1 && nodes[j] == n;
      }
    }
  }

  lemma WindowParents(i: nat, k: nat, n: nat)
    requires k > 0 && i < n
    ensures i < FirstChild(i, k, n)
    ensures forall c | FirstChild(i, k, n) <= c < LastChild(i, k, n) :: ParentOf(c, k) == i
  {
    ChildrenComeLater(i, k, n);
    forall c | FirstChild(i, k, n) <= c < LastChild(i, k, n) ensures ParentOf(c, k) == i { ChildrenAndParentsAgree(i, c, k, n); }
  }

  // The all-reduce tree, built in one pass over the sorted nodes.
  method GetTreeTopology(nodes: seq<NodeId>, arity: nat) returns (parents: map<NodeId, NodeId>, children: map<NodeId, seq<NodeId>>)
    requires arity >= 1 && IsSorted(nodes)
    ensures ParentsTo(nodes, arity, parents, |nodes|) && ChildrenTo(nodes, arity, children, |nodes|)
  {
    parents, children := map[], map[];
    NextSiblings(0, arity, |nodes|);
    for i := 0 to |nodes|
      invariant ParentsTo(nodes, arity, parents, FirstChild(i, arity, |nodes|)) && ChildrenTo(nodes, arity, children, i)
    {
      parents, children := VisitNode(nodes, arity, i, parents, children);
    }
    NextSiblings(0, arity, |nodes|);
  }

  method VisitNode(nodes: seq<NodeId>, k: nat, i: nat, parentsBefore: map<NodeId, NodeId>, childrenBefore: map<NodeId, seq<NodeId>>)
    returns (parents: map<NodeId, NodeId>, children: map<NodeId, seq<NodeId>>)
    requires k > 0 && IsSorted(nodes) && i < |nodes|
    requires ParentsTo(nodes, k, parentsBefore, FirstChild(i, k, |nodes|)) && ChildrenTo(nodes, k, childrenBefore, i)
    ensures ParentsTo(nodes, k, parents, FirstChild(i + 1, k, |nodes|)) && ChildrenTo(nodes, k, children, i + 1)
  {
    WindowParents(i, k, |nodes|);
    NextSiblings(i, k, |nodes|);
    var ch := [];
    parents := parentsBefore;
    var first := FirstChild(i, k, |nodes|);
    if first < |nodes| {
      parents, ch := RecordChildren(nodes, k, i, first, LastChild(i, k, |nodes|), parents);
    }
    RecordChild(nodes, k, childrenBefore, i, ch);
    children := childrenBefore[nodes[i] := ch];
  }

  lemma SortedPosition(nodes: seq<NodeId>, i: nat)
    requires IsSorted(nodes) && i < |nodes|
    ensures nodes[i] in nodes && PositionOf(nodes, nodes[i]) == i
  {
    var p := PositionOf(nodes, nodes[i]);
    assert !(p < i) && !(i < p);
  }

  // It is the rooted tree of the least node: both answer alike for every node.
  lemma TopologyIsNeighbors(nodes: seq<NodeId>, arity: nat, parents: map<NodeId, NodeId>, children: map<NodeId, seq<NodeId>>, i: nat)
    requires arity >= 1 && IsSorted(nodes) && i < |nodes|
    requires ParentsTo(nodes, arity, parents, |nodes|) && ChildrenTo(nodes, arity, children, |nodes|)
    ensures nodes[i] in parents <==> i > 0
    ensures Neighbors(nodes[i], nodes[0], (set n | n in nodes), Some(arity)) ==
      Ok((if i > 0 then Some(parents[nodes[i]]) else None, children[nodes[i]]))
  {
    var all := set n | n in nodes;
    LeastRootOrder(nodes, all);
    SortedPosition(nodes, i);
    RecordedAt(nodes, arity, parents, children, i);
    assert nodes[i] in all;
    assert Neighbors(nodes[i], nodes[0], all, Some(arity)) == Ok(NeighborsAt(nodes, i, arity));
  }

  lemma RecordedAt(nodes: seq<NodeId>, k: nat, parents: map<NodeId, NodeId>, children: map<NodeId, seq<NodeId>>, i: nat)
    requires k >= 1 && IsSorted(nodes) && i < |nodes|
    requires ParentsTo(nodes, k, parents, |nodes|) && ChildrenTo(nodes, k, children, |nodes|)
    ensures (nodes[i] in parents <==> i > 0) && nodes[i] in children
    ensures NeighborsAt(nodes, i, k) == (if i > 0 then Some(parents[nodes[i]]) else None, children[nodes[i]])
  {
    if i > 0 { assert nodes[i] in parents; }
  }
}
