// src/rank/topology.rs: enumerating closed rank rings and choosing among them.
module RingSearch {
  import opened Wrappers
  import opened Numbers
  import opened Lexicographic
  import opened Topology

  // ---- rings -------------------------------------------------------------------------------------

  // Every rank exactly once.
  ghost predicate IsOrder(n: nat, o: seq<nat>) {
    && |o| == n
    && (forall i | 0 <= i < n :: o[i] < n)
    && (forall i, j | 0 <= i < j < n :: o[i] != o[j])
  }

  predicate Linked(links: LinkTable, a: nat, b: nat) {
    a < |links| && b < |links[a]| && links[a][b].Some?
  }

  ghost predicate IsClosedRing(links: LinkTable, n: nat, o: seq<nat>) {
    n > 0 && IsOrder(n, o) && forall i | 0 <= i < n :: Linked(links, o[i], o[Successor(n, i)])
  }

  // The same cycle walked the other way.
  function Backwards(o: seq<nat>): (r: seq<nat>)
    requires |o| > 0
    ensures |r| == |o|
    ensures forall i | 0 <= i < |o| :: r[i] == o[if i == 0 then 0 else |o| - i]
  {
    [o[0]] + seq(|o| - 1, i requires 0 <= i < |o| - 1 => o[|o| - 1 - i])
  }

  // One representative per undirected Hamiltonian cycle: it starts at rank 0, in the lesser direction.
  ghost predicate IsCandidate(links: LinkTable, n: nat, o: seq<nat>) {
    IsClosedRing(links, n, o) && o[0] == 0 && LexLeq(o, Backwards(o))
  }

  lemma BackwardsTwice(o: seq<nat>)
    requires |o| > 0
    ensures Backwards(Backwards(o)) == o
  {
  }

  lemma BackwardsIsRing(links: LinkTable, n: nat, o: seq<nat>)
    requires IsTable(links, n) && IsClosedRing(links, n, o)
    ensures IsClosedRing(links, n, Backwards(o))
  {
    var r := Backwards(o);
    forall i | 0 <= i < n ensures Linked(links, r[i], r[Successor(n, i)]) {
      var j := n - 1 - i;
      assert r[Successor(n, i)] == o[j] && r[i] == o[Successor(n, j)];
      assert links[o[j]][o[Successor(n, j)]] == links[o[Successor(n, j)]][o[j]];
    }
  }

  // Exactly one direction of every Hamiltonian cycle through rank 0 is listed.
  lemma OneDirectionIsCandidate(links: LinkTable, n: nat, o: seq<nat>)
    requires IsTable(links, n) && IsClosedRing(links, n, o) && o[0] == 0
    ensures IsCandidate(links, n, o) || IsCandidate(links, n, Backwards(o))
    ensures IsCandidate(links, n, o) && IsCandidate(links, n, Backwards(o)) ==> o == Backwards(o)
  {
    BackwardsTwice(o);
    BackwardsIsRing(links, n, o);
    LexTotal(o, Backwards(o));
    if LexLeq(o, Backwards(o)) && LexLeq(Backwards(o), o) { LexAntisymmetric(o, Backwards(o)); }
  }

  // ---- the exhaustive search ---------------------------------------------------------------------

  ghost predicate IsPartial(links: LinkTable, n: nat, order: seq<nat>) {
    && 0 < |order| <= n && order[0] == 0
    && (forall i | 0 <= i < |order| :: order[i] < n)
    && (forall i, j | 0 <= i < j < |order| :: order[i] != order[j])
    && (forall i, j | 0 <= i < |order| && j == i + 1 && j < |order| :: Linked(links, order[i], order[j]))
  }

  // `added` is every candidate that extends the prefix, once each.
  ghost predicate Lists(links: LinkTable, n: nat, added: seq<seq<nat>>, prefix: seq<nat>) {
    Distinct(added) && forall o :: o in added <==> IsCandidate(links, n, o) && prefix <= o
  }

  // ... restricted to those whose next rank is below `bound`.
  ghost predicate ListsBelow(links: LinkTable, n: nat, added: seq<seq<nat>>, prefix: seq<nat>, bound: nat)
  {
    && |prefix| < n && Distinct(added)
    && forall o :: o in added <==> IsCandidate(links, n, o) && prefix <= o && o[|prefix|] < bound
  }

  lemma NextIsPositive(links: LinkTable, n: nat, prefix: seq<nat>)
    requires IsPartial(links, n, prefix) && |prefix| < n
    ensures ListsBelow(links, n, [], prefix, 1)
  {
    forall o | IsCandidate(links, n, o) && prefix <= o ensures o[|prefix|] != 0 {
      assert o[0] == 0;
    }
  }

  lemma AllBelow(links: LinkTable, n: nat, added: seq<seq<nat>>, prefix: seq<nat>)
    requires ListsBelow(links, n, added, prefix, n)
    ensures Lists(links, n, added, prefix)
  {
  }

  // A used or unlinked rank cannot come next.
  lemma SkipRank(links: LinkTable, n: nat, added: seq<seq<nat>>, prefix: seq<nat>, c: nat)
    requires IsPartial(links, n, prefix) && ListsBelow(links, n, added, prefix, c) && c < n
    requires c in prefix || !Linked(links, prefix[|prefix| - 1], c)
    ensures ListsBelow(links, n, added, prefix, c + 1)
  {
    forall o | IsCandidate(links, n, o) && prefix <= o ensures o[|prefix|] != c {
      if c in prefix { NotTwice(links, n, prefix, c, o); } else { NotUnlinked(links, n, prefix, c, o); }
    }
  }

  lemma NotTwice(links: LinkTable, n: nat, prefix: seq<nat>, c: nat, o: seq<nat>)
    requires |prefix| < n && IsClosedRing(links, n, o) && prefix <= o && c in prefix
    ensures o[|prefix|] != c
  {
    var i :| 0 <= i < |prefix| && prefix[i] == c;
    assert o[i] == prefix[i];
  }

  lemma NotUnlinked(links: LinkTable, n: nat, prefix: seq<nat>, c: nat, o: seq<nat>)
    requires 0 < |prefix| < n && IsClosedRing(links, n, o) && prefix <= o && !Linked(links, prefix[|prefix| - 1], c)
    ensures o[|prefix|] != c
  {
    var last := |prefix| - 1;
    assert o[last] == prefix[last] && Successor(n, last) == last + 1;
    assert Linked(links, o[last], o[Successor(n, last)]);
  }

  lemma PrefixWithNext(prefix: seq<nat>, c: nat, o: seq<nat>)
    requires |prefix| < |o|
    ensures prefix + [c] <= o <==> prefix <= o && o[|prefix|] == c
  {
    if prefix <= o && o[|prefix|] == c { assert o[..|prefix| + 1] == prefix + [c]; }
    if prefix + [c] <= o { assert o[..|prefix|] == prefix; }
  }

  lemma DistinctAppend<T(!new)>(a: seq<T>, b: seq<T>)
    requires Distinct(a) && Distinct(b) && forall x :: x in a ==> x !in b
    ensures Distinct(a + b)
  {
    forall i, j | 0 <= i < j < |a + b| ensures (a + b)[i] != (a + b)[j] {
      if i < |a| <= j { assert a[i] in a && b[j - |a|] in b; }
    }
  }

  lemma TakeRank(links: LinkTable, n: nat, added: seq<seq<nat>>, sub: seq<seq<nat>>, prefix: seq<nat>, c: nat)
    requires ListsBelow(links, n, added, prefix, c) && Lists(links, n, sub, prefix + [c])
    ensures ListsBelow(links, n, added + sub, prefix, c + 1)
  {
    var both := added + sub;
    forall o ensures o in both <==> IsCandidate(links, n, o) && prefix <= o && o[|prefix|] < c + 1 {
      assert o in both <==> o in added || o in sub;
      if IsCandidate(links, n, o) { PrefixWithNext(prefix, c, o); }
    }
    forall o | o in added ensures o !in sub {
      PrefixWithNext(prefix, c, o);
    }
    DistinctAppend(added, sub);
  }

  lemma ExtendPartial(links: LinkTable, n: nat, prefix: seq<nat>, c: nat)
    requires IsPartial(links, n, prefix) && |prefix| < n && c < n && c !in prefix && Linked(links, prefix[|prefix| - 1], c)
    ensures IsPartial(links, n, prefix + [c])
  {
  }

  // At full length the only possible extension is the order itself.
  lemma FullOrder(links: LinkTable, n: nat, order: seq<nat>)
    requires IsPartial(links, n, order) && |order| == n
    ensures IsCandidate(links, n, order) <==> Linked(links, order[n - 1], order[0]) && LexLeq(order, Backwards(order))
    ensures Lists(links, n, if IsCandidate(links, n, order) then [order] else [], order)
  {
    forall o | IsCandidate(links, n, o) && order <= o ensures o == order {
      assert o[..n] == o;
    }
    if Linked(links, order[n - 1], order[0]) {
      forall i | 0 <= i < n ensures Linked(links, order[i], order[Successor(n, i)]) { }
    }
    if IsClosedRing(links, n, order) { assert Linked(links, order[n - 1], order[Successor(n, n - 1)]); }
  }

  class RingCollector {
    const n: nat
    const links: LinkTable
    var order: seq<nat>
    var used: seq<bool>
    var candidates: seq<seq<nat>>

    ghost predicate Valid()
      reads this
    {
      && IsTable(links, n) && IsPartial(links, n, order)
      && |used| == n && forall i | 0 <= i < n :: used[i] <==> i in order
    }

    constructor (n: nat, links: LinkTable)
      requires n > 0 && IsTable(links, n)
      ensures Valid() && this.n == n && this.links == links && order == [0] && candidates == []
    {
      this.n := n;
      this.links := links;
      this.order := [0];
      this.used := seq(n, i => i == 0);
      this.candidates := [];
    }

    method AddOrder() returns (ghost added: seq<seq<nat>>)
      modifies this`candidates
      ensures added == [order] && candidates == old(candidates) + added
    {
      candidates := candidates + [order];
      added := [order];
    }

    // A complete order is listed if it closes and is the lesser of its two directions.
    method CloseRing() returns (ghost added: seq<seq<nat>>)
      requires Valid() && |order| == n
      modifies this`candidates
      ensures candidates == old(candidates) + added && Lists(links, n, added, order)
    {
      FullOrder(links, n, order);
      added := [];
      if !Linked(links, order[n - 1], order[0]) { return; }
      if LexLeq(order, Backwards(order)) { added := AddOrder(); }
    }

    // Append every candidate that extends `order`, once each; `order` and `used` come back unchanged.
    method CollectRings() returns (ghost added: seq<seq<nat>>)
      requires Valid()
      modifies this`order, this`used, this`candidates
      ensures order == old(order) && used == old(used)
      ensures candidates == old(candidates) + added && Lists(links, n, added, order)
      decreases n - |order|
    {
      if |order| == n {
        added := CloseRing();
        return;
      }
      var current := order[|order| - 1];
      added := [];
      NextIsPositive(links, n, order);
      for candidate := 1 to n
        invariant order == old(order) && used == old(used)
        invariant candidates == old(candidates) + added && ListsBelow(links, n, added, order, candidate)
      {
        if used[candidate] || !Linked(links, current, candidate) {
          SkipRank(links, n, added, order, candidate);
          continue;
        }
        ExtendPartial(links, n, order, candidate);
        used := used[candidate := true];
        order := order + [candidate];
        ghost var sub := CollectRings();
        TakeRank(links, n, added, sub, old(order), candidate);
        Regroup(old(candidates), added, sub);
        added := added + sub;
        order := order[..|order| - 1];
        used := used[candidate := false];
      }
      AllBelow(links, n, added, order);
    }
  }
}
