// A rooted collective is written for the positions of its tree, the root being position 0 and the others
// following in ascending order. Here it runs between nodes of which any may be the root.
module RootFirst {
  import opened DataService
  import opened CollectiveRounds
  import RootedTree

  function Position(root: nat, p: nat): nat { if p == root then 0 else if p < root then p + 1 else p }

  function NodeAt(root: nat, q: nat): nat { if q == 0 then root else if q <= root then q - 1 else q }

  lemma OneToOne(root: nat, p: nat)
    ensures NodeAt(root, Position(root, p)) == p && Position(root, NodeAt(root, p)) == p
  {
  }

  function Order(size: nat, root: nat): (ids: seq<nat>)
    ensures |ids| == size
  {
    seq(size, q requires 0 <= q < size => NodeAt(root, q))
  }

  lemma OthersOnly(size: nat, root: nat, n: nat)
    requires root < size
    ensures n in Order(size, root)[1..] <==> n < size && n != root
  {
    var others := Order(size, root)[1..];
    if n < size && n != root {
      OneToOne(root, n);
      assert others[Position(root, n) - 1] == n;
    }
    if n in others {
      var i :| 0 <= i < |others| && others[i] == n;
      assert n == NodeAt(root, i + 1);
    }
  }

  lemma OthersSorted(size: nat, root: nat, others: seq<nat>)
    requires root < size && others == Order(size, root)[1..]
    ensures RootedTree.IsSorted(others)
  {
    forall a, b | 0 <= a < b < |others| ensures others[a] < others[b] {
      assert others[a] == NodeAt(root, a + 1) && others[b] == NodeAt(root, b + 1);
    }
  }

  lemma OthersAscend(members: set<nat>, size: nat, root: nat, others: seq<nat>)
    requires root < size && others == Order(size, root)[1..] && forall n :: n in members <==> n < size
    ensures others == RootedTree.Ascending(members - {root})
  {
    OthersSorted(size, root, others);
    forall n ensures n in others <==> n in RootedTree.Ascending(members - {root}) { OthersOnly(size, root, n); }
    RootedTree.SortedIsUnique(others, RootedTree.Ascending(members - {root}));
  }

  // It is the order of the tree between the nodes 0, 1, ..., size - 1.
  lemma PositionsFollowTheTree(members: set<nat>, size: nat, root: nat)
    requires root < size && forall n :: n in members <==> n < size
    ensures RootedTree.TreeOrder(members, root) == Order(size, root)
  {
    var ids := Order(size, root);
    OthersAscend(members, size, root, ids[1..]);
    assert ids == [ids[0]] + ids[1..];
  }

  function KeyAt(root: nat, k: Key): Key { (Position(root, k.0), k.1) }

  // The service under the names of the positions.
  function Rekey<T>(service: Service<T>, root: nat): (rekeyed: Service<T>) {
    var keys := set k | k in service :: KeyAt(root, k);
    assert forall q | q in keys :: (NodeAt(root, q.0), q.1) in service by {
      forall k | k in service ensures (NodeAt(root, KeyAt(root, k).0), KeyAt(root, k).1) == k { OneToOne(root, k.0); }
    }
    map q | q in keys :: service[(NodeAt(root, q.0), q.1)]
  }

  lemma RekeyedIs<T>(service: Service<T>, root: nat, k: Key)
    ensures k in service <==> KeyAt(root, k) in Rekey(service, root)
    ensures k in service ==> Rekey(service, root)[KeyAt(root, k)] == service[k]
  {
    OneToOne(root, k.0);
  }

  ghost function WithRoot<N(!new), T(!new)>(c: Collective<N, T>, root: nat): Collective<N, T> {
    Collective(
      p => c.start(Position(root, p)),
      (p, node) => c.done(Position(root, p), node),
      (p, node, service, node', service') => c.step(Position(root, p), node, Rekey(service, root), node', Rekey(service', root)))
  }

  ghost function Positioned<N(!new), T(!new)>(s: State<N, T>, root: nat): (positioned: State<N, T>)
    requires root < |s.nodes|
    ensures |positioned.nodes| == |s.nodes|
    ensures forall p | 0 <= p < |s.nodes| :: Position(root, p) < |s.nodes| && positioned.nodes[Position(root, p)] == s.nodes[p]
  {
    var nodes := seq(|s.nodes|, q requires 0 <= q < |s.nodes| => s.nodes[NodeAt(root, q)]);
    assert forall p | 0 <= p < |s.nodes| :: nodes[Position(root, p)] == s.nodes[NodeAt(root, Position(root, p))];
    State(nodes, Rekey(s.service, root))
  }

  lemma MovesPositioned<N(!new), T(!new)>(c: Collective<N, T>, root: nat, s: State<N, T>, s': State<N, T>, p: nat)
    requires root < |s.nodes| && Moves(WithRoot(c, root), s, s', p)
    ensures Moves(c, Positioned(s, root), Positioned(s', root), Position(root, p))
  {
    var before, after, q := Positioned(s, root), Positioned(s', root), Position(root, p);
    forall r | 0 <= r < |s.nodes| && r != q ensures after.nodes[r] == before.nodes[r] {
      OneToOne(root, r);
      OneToOne(root, p);
      var o := NodeAt(root, r);
      assert o != p && s'.nodes[o] == s.nodes[o];
      assert Position(root, o) == r;
    }
    assert after.nodes == before.nodes[q := after.nodes[q]];
  }

  lemma {:induction false} RunPositioned<N(!new), T(!new)>(c: Collective<N, T>, size: nat, root: nat, run: seq<State<N, T>>, i: nat)
    requires root < size && IsRun(WithRoot(c, root), size, run) && i < |run|
    ensures |run[i].nodes| == size && Reached(c, size, Positioned(run[i], root))
  {
    RunKeepsSize(WithRoot(c, root), size, run, i);
    if i == 0 {
      forall q | 0 <= q < size ensures Positioned(run[0], root).nodes[q] == c.start(q) { OneToOne(root, q); }
      ReachedFirst(c, size, Positioned(run[0], root));
    } else {
      RunPositioned(c, size, root, run, i - 1);
      assert SomeoneMoves(WithRoot(c, root), run[i - 1], run[i]);
      var p :| Moves(WithRoot(c, root), run[i - 1], run[i], p);
      MovesPositioned(c, root, run[i - 1], run[i], p);
      ReachedNext(c, size, Positioned(run[i - 1], root), Positioned(run[i], root), Position(root, p));
    }
  }

  // Whatever is reached with any root is reached, position for position, with the root at 0.
  lemma ReachedPositioned<N(!new), T(!new)>(c: Collective<N, T>, size: nat, root: nat, s: State<N, T>)
    requires root < size && Reached(WithRoot(c, root), size, s)
    ensures |s.nodes| == size && Reached(c, size, Positioned(s, root))
  {
    var run :| EndsIn(WithRoot(c, root), size, run, s);
    RunPositioned(c, size, root, run, |run| - 1);
  }

  lemma WithRootCleansUp<N(!new), T(!new)>(c: Collective<N, T>, size: nat, root: nat)
    requires root < size && CleansUp(c, size)
    ensures CleansUp(WithRoot(c, root), size)
  {
    forall s | Reached(WithRoot(c, root), size, s) && Over(WithRoot(c, root), s) ensures s.service == map[] {
      ReachedPositioned(c, size, root, s);
      var positioned := Positioned(s, root);
      forall q | 0 <= q < size ensures c.done(q, positioned.nodes[q]) {
        OneToOne(root, q);
        assert WithRoot(c, root).done(NodeAt(root, q), s.nodes[NodeAt(root, q)]);
      }
      assert Over(c, positioned) && positioned.service == map[];
      forall k: Key ensures k !in s.service { RekeyedIs(s.service, root, k); }
    }
  }
}
