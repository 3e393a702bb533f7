// src/local/all_reduce/tree.rs, src/local/reduce/tree.rs, src/local/broadcast/tree.rs: recursion over
// groups of one parent and up to `arity` children.
module TreeReduce {
  import opened Numbers
  import opened Wrappers
  import opened Layout
  import opened RingMath

  type PeerId = nat
  type Device = nat

  datatype Tensor<T> = Tensor(device: Device, value: T)

  type Entry<T> = (PeerId, Tensor<T>)
  type Place = (PeerId, Device)

  function ToDevice<T>(tensor: Tensor<T>, device: Device): Tensor<T> { tensor.(device := device) }

  // The sum stays on the left operand's device.
  function Add<T>(op: (T, T) -> T, a: Tensor<T>, b: Tensor<T>): Tensor<T> { a.(value := op(a.value, b.value)) }

  function Values<T>(entries: seq<Entry<T>>): (values: seq<T>)
    ensures |values| == |entries|
  {
    seq(|entries|, i requires 0 <= i < |entries| => entries[i].1.value)
  }

  function Places<T>(entries: seq<Entry<T>>): (places: seq<Place>)
    ensures |places| == |entries|
  {
    seq(|entries|, i requires 0 <= i < |entries| => (entries[i].0, entries[i].1.device))
  }

  ghost predicate AllHold<T>(entries: seq<Entry<T>>, value: T) {
    forall i | 0 <= i < |entries| :: entries[i].1.value == value
  }

  // ---- what the recursion computes ---------------------------------------------------------------

  function GroupSize(n: nat, arity: nat): (size: nat)
    requires n > 0
    ensures 1 <= size <= n
  {
    if n < arity + 1 then n else arity + 1
  }

  // The values of one level of parents.
  function Grouped<T>(op: (T, T) -> T, x: seq<T>, arity: nat): (y: seq<T>)
    ensures |y| <= |x| && (x != [] ==> y != []) && (arity > 0 && |x| > 1 ==> |y| < |x|)
  {
    if x == [] then []
    else
      var n := GroupSize(|x|, arity);
      [LeftFold(op, x[..n])] + Grouped(op, x[n..], arity)
  }

  // The value at the root: the fold the tree actually performs, no law assumed.
  function TreeFold<T>(op: (T, T) -> T, x: seq<T>, arity: nat): T
    requires x != [] && (arity > 0 || |x| == 1)
    decreases |x|
  {
    if |x| == 1 then x[0] else TreeFold(op, Grouped(op, x, arity), arity)
  }

  lemma {:induction false} GroupedKeepsFold<T(!new)>(op: (T, T) -> T, x: seq<T>, arity: nat)
    requires Associative(op) && x != []
    ensures LeftFold(op, Grouped(op, x, arity)) == LeftFold(op, x)
  {
    var n := GroupSize(|x|, arity);
    var head, tail := x[..n], x[n..];
    if tail == [] {
      assert x[..n] == x && Grouped(op, x, arity) == [LeftFold(op, x)];
    } else {
      GroupedKeepsFold(op, tail, arity);
      LeftFoldAppend(op, [LeftFold(op, head)], Grouped(op, tail, arity));
      LeftFoldAppend(op, head, tail);
      assert head + tail == x;
    }
  }

  // Associativity alone makes the tree's value the left-to-right fold of the list.
  lemma {:induction false} TreeFoldIsLeftFold<T(!new)>(op: (T, T) -> T, x: seq<T>, arity: nat)
    requires Associative(op) && x != [] && (arity > 0 || |x| == 1)
    ensures TreeFold(op, x, arity) == LeftFold(op, x)
    decreases |x|
  {
    if |x| > 1 {
      TreeFoldIsLeftFold(op, Grouped(op, x, arity), arity);
      GroupedKeepsFold(op, x, arity);
    }
  }

  // With arity 0 a level of parents is the level below it: the list never gets shorter, so the
  // recursion ends exactly for a positive arity or at most one tensor.
  lemma {:induction false} ZeroArityNeverShrinks<T>(op: (T, T) -> T, x: seq<T>)
    ensures Grouped(op, x, 0) == x
  {
    if x != [] {
      ZeroArityNeverShrinks(op, x[1..]);
      assert GroupSize(|x|, 0) == 1 && LeftFold(op, x[..1]) == x[0];
      assert x == [x[0]] + x[1..];
    }
  }

  // ---- going up ----------------------------------------------------------------------------------

  // Take the first tensor as parent and add the next `arity` to it.
  method TakeGroup<T>(op: (T, T) -> T, tensors: seq<Entry<T>>, arity: nat) returns (parent: Entry<T>, children: seq<Place>, rest: seq<Entry<T>>)
    requires tensors != []
    ensures var n := GroupSize(|tensors|, arity);
      && rest == tensors[n..] && parent.1.value == LeftFold(op, Values(tensors)[..n])
      && (parent.0, parent.1.device) == Places(tensors)[0] && children == Places(tensors)[1..n]
  {
    parent := tensors[0];
    rest := tensors[1..];
    children := [];
    var i := 0;
    ghost var values := Values(tensors);
    while i < arity && rest != []
      invariant 0 <= i <= arity && i + 1 + |rest| == |tensors|
      invariant rest == tensors[i + 1..]
      invariant children == Places(tensors)[1..i + 1]
      invariant (parent.0, parent.1.device) == Places(tensors)[0]
      invariant parent.1.value == LeftFold(op, values[..i + 1])
    {
      var child := rest[0];
      rest := rest[1..];
      children := children + [(child.0, child.1.device)];
      var moved := ToDevice(child.1, parent.1.device);
      parent := (parent.0, Add(op, parent.1, moved));
      assert values[..i + 2][..i + 1] == values[..i + 1];
      i := i + 1;
    }
  }

  function GroupPlaces(places: seq<Place>, arity: nat): (parents: seq<Place>)
  {
    if places == [] then [] else [places[0]] + GroupPlaces(places[GroupSize(|places|, arity)..], arity)
  }

  function GroupChildren(places: seq<Place>, arity: nat): (groups: seq<seq<Place>>)
  {
    if places == [] then []
    else
      var n := GroupSize(|places|, arity);
      [places[1..n]] + GroupChildren(places[n..], arity)
  }

  lemma ConcatenatedFirst<X>(first: seq<X>, rest: seq<seq<X>>)
    ensures Concatenated([first] + rest) == first + Concatenated(rest)
    decreases |rest|
  {
    if rest == [] {
      assert [first][..0] == [];
    } else {
      ConcatenatedFirst(first, rest[..|rest| - 1]);
      assert ([first] + rest)[..|rest|] == [first] + rest[..|rest| - 1];
    }
  }

  lemma {:induction false} FamiliesMatch(places: seq<Place>, arity: nat)
    ensures |GroupPlaces(places, arity)| == |GroupChildren(places, arity)|
  {
    if places != [] { FamiliesMatch(places[GroupSize(|places|, arity)..], arity); }
  }

  lemma OneMoreFamily(parent: Place, children: seq<Place>, rest: seq<Place>, parents: seq<Place>, groups: seq<seq<Place>>)
    requires multiset(rest) == multiset(parents) + multiset(Concatenated(groups))
    ensures multiset([parent] + children + rest) == multiset([parent] + parents) + multiset(Concatenated([children] + groups))
  {
    ConcatenatedFirst(children, groups);
  }

  // Every place is a parent or a child of exactly one group.
  lemma {:induction false} GroupsCover(places: seq<Place>, arity: nat)
    ensures |GroupPlaces(places, arity)| == |GroupChildren(places, arity)|
    ensures multiset(places) == multiset(GroupPlaces(places, arity)) + multiset(Concatenated(GroupChildren(places, arity)))
    decreases |places|, 1
  {
    FamiliesMatch(places, arity);
    if places != [] { FirstFamilyCovers(places, GroupSize(|places|, arity), arity); }
  }

  lemma FirstFamilyCovers(places: seq<Place>, n: nat, arity: nat)
    requires places != [] && n == GroupSize(|places|, arity)
    ensures multiset(places) == multiset(GroupPlaces(places, arity)) + multiset(Concatenated(GroupChildren(places, arity)))
    decreases |places|, 0
  {
    var parent, children, rest := places[0], places[1..n], places[n..];
    assert places == [parent] + children + rest;
    assert multiset(rest) == multiset(GroupPlaces(rest, arity)) + multiset(Concatenated(GroupChildren(rest, arity))) by { GroupsCover(rest, arity); }
    OneMoreFamily(parent, children, rest, GroupPlaces(rest, arity), GroupChildren(rest, arity));
  }

  lemma {:induction false} GroupedSameLength<T>(op: (T, T) -> T, x: seq<T>, places: seq<Place>, arity: nat)
    requires |x| == |places|
    ensures |Grouped(op, x, arity)| == |GroupPlaces(places, arity)|
  {
    if x != [] {
      var n := GroupSize(|x|, arity);
      GroupedSameLength(op, x[n..], places[n..], arity);
    }
  }

  // The groups formed so far and those still to form are the groups of the whole list.
  ghost predicate GroupsSoFar<T>(op: (T, T) -> T, tensors: seq<Entry<T>>, arity: nat, parents: seq<Entry<T>>, groups: seq<seq<Place>>, left: seq<Entry<T>>) {
    && Values(parents) + Grouped(op, Values(left), arity) == Grouped(op, Values(tensors), arity)
    && Places(parents) + GroupPlaces(Places(left), arity) == GroupPlaces(Places(tensors), arity)
    && groups + GroupChildren(Places(left), arity) == GroupChildren(Places(tensors), arity)
  }

  method GroupUp<T>(op: (T, T) -> T, tensors: seq<Entry<T>>, arity: nat) returns (parents: seq<Entry<T>>, groups: seq<seq<Place>>)
    ensures Values(parents) == Grouped(op, Values(tensors), arity)
    ensures Places(parents) == GroupPlaces(Places(tensors), arity) && groups == GroupChildren(Places(tensors), arity)
  {
    var left := tensors;
    parents, groups := [], [];
    while left != []
      invariant GroupsSoFar(op, tensors, arity, parents, groups, left)
      decreases |left|
    {
      var parent, children, rest := TakeGroup(op, left, arity);
      OneMoreGroup(op, tensors, arity, parents, groups, left, parent, children, rest);
      parents, groups := parents + [parent], groups + [children];
      left := rest;
    }
  }

  lemma OneMoreGroup<T>(op: (T, T) -> T, tensors: seq<Entry<T>>, arity: nat, parents: seq<Entry<T>>, groups: seq<seq<Place>>,
                        left: seq<Entry<T>>, parent: Entry<T>, children: seq<Place>, rest: seq<Entry<T>>)
    requires GroupsSoFar(op, tensors, arity, parents, groups, left) && left != []
    requires var n := GroupSize(|left|, arity);
      && rest == left[n..] && parent.1.value == LeftFold(op, Values(left)[..n])
      && (parent.0, parent.1.device) == Places(left)[0] && children == Places(left)[1..n]
    ensures GroupsSoFar(op, tensors, arity, parents + [parent], groups + [children], rest)
  {
    TookGroup(op, left, arity, parent, children, rest);
    Appended(parents, parent, groups, children);
    Regroup(Values(parents), [parent.1.value], Grouped(op, Values(rest), arity));
    Regroup(Places(parents), [(parent.0, parent.1.device)], GroupPlaces(Places(rest), arity));
    Regroup(groups, [children], GroupChildren(Places(rest), arity));
  }

  lemma TookGroup<T>(op: (T, T) -> T, tensors: seq<Entry<T>>, arity: nat, parent: Entry<T>, children: seq<Place>, rest: seq<Entry<T>>)
    requires tensors != []
    requires var n := GroupSize(|tensors|, arity);
      && rest == tensors[n..] && parent.1.value == LeftFold(op, Values(tensors)[..n])
      && (parent.0, parent.1.device) == Places(tensors)[0] && children == Places(tensors)[1..n]
    ensures Grouped(op, Values(tensors), arity) == [parent.1.value] + Grouped(op, Values(rest), arity)
    ensures GroupPlaces(Places(tensors), arity) == [(parent.0, parent.1.device)] + GroupPlaces(Places(rest), arity)
    ensures GroupChildren(Places(tensors), arity) == [children] + GroupChildren(Places(rest), arity)
  {
    var n := GroupSize(|tensors|, arity);
    assert Values(tensors)[n..] == Values(rest);
    assert Places(tensors)[n..] == Places(rest);
  }

  lemma Appended<T>(parents: seq<Entry<T>>, parent: Entry<T>, groups: seq<seq<Place>>, children: seq<Place>)
    ensures Values(parents + [parent]) == Values(parents) + [parent.1.value]
    ensures Places(parents + [parent]) == Places(parents) + [(parent.0, parent.1.device)]
  {
  }

  // ---- coming down -------------------------------------------------------------------------------

  function Spread<T>(tensor: Tensor<T>, places: seq<Place>): (entries: seq<Entry<T>>)
    ensures |entries| == |places|
  {
    seq(|places|, i requires 0 <= i < |places| => (places[i].0, ToDevice(tensor, places[i].1)))
  }

  lemma SpreadFacts<T>(tensor: Tensor<T>, places: seq<Place>)
    ensures Places(Spread(tensor, places)) == places && AllHold(Spread(tensor, places), tensor.value)
  {
  }

  lemma PlacesAppend<T>(a: seq<Entry<T>>, b: seq<Entry<T>>)
    ensures multiset(Places(a + b)) == multiset(Places(a)) + multiset(Places(b))
  {
    assert Places(a + b) == Places(a) + Places(b);
  }

  // Group i's children get what the i-th parent now holds. The parents come back in another order than
  // they went up, so this may be another parent than the one that collected the group; as all parents
  // hold the same value and the children bring their own devices, it does not matter.
  method Redistribute<T>(parents: seq<Entry<T>>, groups: seq<seq<Place>>, ghost value: T) returns (out: seq<Entry<T>>)
    requires |parents| == |groups| && AllHold(parents, value)
    ensures AllHold(out, value)
    ensures multiset(Places(out)) == multiset(Places(parents)) + multiset(Concatenated(groups))
  {
    out := [];
    assert groups[..0] == [] && parents[..0] == [];
    for i := 0 to |parents|
      invariant AllHold(out, value)
      invariant multiset(Places(out)) == multiset(Places(parents[..i])) + multiset(Concatenated(groups[..i]))
    {
      var children := Spread(parents[i].1, groups[i]);
      RedistributeStep(out, parents, groups, i);
      SpreadFacts(parents[i].1, groups[i]);
      out := out + children + [parents[i]];
    }
    assert groups[..|groups|] == groups && parents[..|parents|] == parents;
  }

  lemma RedistributeStep<T>(out: seq<Entry<T>>, parents: seq<Entry<T>>, groups: seq<seq<Place>>, i: nat)
    requires |parents| == |groups| && i < |parents|
    requires multiset(Places(out)) == multiset(Places(parents[..i])) + multiset(Concatenated(groups[..i]))
    ensures multiset(Places(out + Spread(parents[i].1, groups[i]) + [parents[i]])) ==
      multiset(Places(parents[..i + 1])) + multiset(Concatenated(groups[..i + 1]))
  {
    var children := Spread(parents[i].1, groups[i]);
    SpreadFacts(parents[i].1, groups[i]);
    PlacesAppend(out, children);
    PlacesAppend(out + children, [parents[i]]);
    PlacesAppend(parents[..i], [parents[i]]);
    assert parents[..i + 1] == parents[..i] + [parents[i]];
    assert groups[..i + 1][..i] == groups[..i];
    assert Concatenated(groups[..i + 1]) == Concatenated(groups[..i]) + groups[i];
  }

  // ---- the recursive methods ---------------------------------------------------------------------

  // Every peer comes back exactly once, on its own device, with the tree's value. With arity 0 the
  // parents never get fewer, so more than one tensor would recurse for ever.
  method AllReduceInner<T>(op: (T, T) -> T, tensors: seq<Entry<T>>, arity: nat) returns (out: seq<Entry<T>>)
    requires arity > 0 || |tensors| <= 1
    ensures multiset(Places(out)) == multiset(Places(tensors))
    ensures tensors != [] ==> AllHold(out, TreeFold(op, Values(tensors), arity))
    decreases |tensors|
  {
    var parents, groups := GroupUp(op, tensors, arity);
    GroupsCover(Places(tensors), arity);
    ghost var up := Places(parents);
    if tensors == [] { return []; }
    LevelFold(op, Values(tensors), arity);
    ghost var value := TreeFold(op, Values(tensors), arity);
    if |parents| > 1 {
      parents := AllReduceInner(op, parents, arity);
      SamePlacesSameLength(Places(parents), up);
    }
    out := Redistribute(parents, groups, value);
  }

  // One level up keeps the tree's value, also when only the root is left.
  lemma LevelFold<T>(op: (T, T) -> T, x: seq<T>, arity: nat)
    requires x != [] && (arity > 0 || |x| == 1)
    ensures arity > 0 || |Grouped(op, x, arity)| == 1
    ensures TreeFold(op, Grouped(op, x, arity), arity) == TreeFold(op, x, arity)
  {
    if |x| == 1 {
      assert x[..1] == x && x[1..] == [];
      assert Grouped(op, x, arity) == x;
    }
  }

  lemma SamePlacesSameLength(a: seq<Place>, b: seq<Place>)
    requires multiset(a) == multiset(b)
    ensures |a| == |b|
  {
    assert |multiset(a)| == |a| && |multiset(b)| == |b|;
  }

  // The reduced tensor ends on the device of the first one.
  method ReduceInner<T>(op: (T, T) -> T, tensors: seq<Entry<T>>, arity: nat) returns (result: Tensor<T>)
    requires tensors != [] && (arity > 0 || |tensors| == 1)
    ensures result.value == TreeFold(op, Values(tensors), arity) && result.device == tensors[0].1.device
    decreases |tensors|
  {
    var parents, groups := GroupUp(op, tensors, arity);
    LevelFold(op, Values(tensors), arity);
    GroupedSameLength(op, Values(tensors), Places(tensors), arity);
    assert Places(parents)[0] == Places(tensors)[0];
    if |parents| > 1 {
      result := ReduceInner(op, parents, arity);
    } else {
      result := parents[0].1;
    }
  }

  lemma {:induction false} GroupPlacesFewer(places: seq<Place>, arity: nat)
    ensures |GroupPlaces(places, arity)| <= |places| && (places != [] ==> |GroupPlaces(places, arity)| > 0)
    ensures arity > 0 && |places| > 1 ==> |GroupPlaces(places, arity)| < |places|
  {
    if places != [] { GroupPlacesFewer(places[GroupSize(|places|, arity)..], arity); }
  }

  method GroupDevices(places: seq<Place>, arity: nat) returns (parents: seq<Place>, groups: seq<seq<Place>>)
    ensures parents == GroupPlaces(places, arity) && groups == GroupChildren(places, arity)
  {
    var left := places;
    parents, groups := [], [];
    while left != []
      invariant parents + GroupPlaces(left, arity) == GroupPlaces(places, arity)
      invariant groups + GroupChildren(left, arity) == GroupChildren(places, arity)
      decreases |left|
    {
      var n := GroupSize(|left|, arity);
      parents, groups := parents + [left[0]], groups + [left[1..n]];
      left := left[n..];
    }
  }

  // Where the root's copy stays: on the device its tensor came on.
  function Landed<T>(tensor: Tensor<T>, places: seq<Place>): seq<Place>
    requires places != []
  {
    [(places[0].0, tensor.device)] + places[1..]
  }

  // Every peer gets the tensor once: on its own device, except that the root keeps it where it was.
  method BroadcastInner<T>(tensor: Tensor<T>, places: seq<Place>, arity: nat) returns (out: seq<Entry<T>>)
    requires places != [] && (arity > 0 || |places| == 1)
    ensures AllHold(out, tensor.value) && multiset(Places(out)) == multiset(Landed(tensor, places))
    decreases |places|
  {
    var parents, groups := GroupDevices(places, arity);
    GroupsCover(places, arity);
    GroupPlacesFewer(places, arity);
    var entries;
    if |parents| > 1 {
      entries := BroadcastInner(tensor, parents, arity);
    } else {
      entries := [(parents[0].0, tensor)];
      assert Places(entries) == Landed(tensor, parents);
    }
    SamePlacesSameLength(Places(entries), Landed(tensor, parents));
    out := Redistribute(entries, groups, tensor.value);
    LandedGroups(tensor, places, arity);
  }

  lemma FirstOut(places: seq<Place>)
    requires places != []
    ensures multiset(places) == multiset{places[0]} + multiset(places[1..])
  {
    assert places == [places[0]] + places[1..];
  }

  lemma SwapOne(a: Place, b: Place, p: multiset<Place>, q: multiset<Place>, children: multiset<Place>)
    requires multiset{a} + p == multiset{a} + q + children
    ensures multiset{b} + p == multiset{b} + q + children
  {
    forall x ensures p[x] == q[x] + children[x] {
      assert (multiset{a} + p)[x] == (multiset{a} + q + children)[x];
    }
  }

  lemma LandedGroups<T>(tensor: Tensor<T>, places: seq<Place>, arity: nat)
    requires places != []
    ensures GroupPlaces(places, arity) != []
    ensures multiset(Landed(tensor, places)) ==
      multiset(Landed(tensor, GroupPlaces(places, arity))) + multiset(Concatenated(GroupChildren(places, arity)))
  {
    GroupsCover(places, arity);
    var parents := GroupPlaces(places, arity);
    FirstOut(places);
    FirstOut(parents);
    FirstOut(Landed(tensor, places));
    FirstOut(Landed(tensor, parents));
    assert Landed(tensor, places)[1..] == places[1..] && Landed(tensor, parents)[1..] == parents[1..];
    var children := multiset(Concatenated(GroupChildren(places, arity)));
    SwapOne(places[0], Landed(tensor, places)[0], multiset(places[1..]), multiset(parents[1..]), children);
  }

  // All copies are on their own devices exactly when the tensor came on the root's device.
  lemma BroadcastLandsAtHome<T>(tensor: Tensor<T>, places: seq<Place>)
    requires places != []
    ensures multiset(Landed(tensor, places)) == multiset(places) <==> tensor.device == places[0].1
  {
    FirstOut(places);
    FirstOut(Landed(tensor, places));
    assert Landed(tensor, places)[1..] == places[1..];
    if tensor.device == places[0].1 {
      assert Landed(tensor, places) == places;
    } else {
      var moved := (places[0].0, tensor.device);
      assert multiset(Landed(tensor, places))[moved] == multiset(places[1..])[moved] + 1;
      assert multiset(places)[moved] == multiset(places[1..])[moved];
    }
  }

  // ---- the results by peer -----------------------------------------------------------------------

  ghost predicate DistinctPeers<T>(entries: seq<Entry<T>>) {
    forall i, j | 0 <= i < j < |entries| :: entries[i].0 != entries[j].0
  }

  lemma PlaceIsFound<T>(a: seq<Entry<T>>, b: seq<Entry<T>>, i: nat) returns (j: nat)
    requires multiset(Places(a)) == multiset(Places(b)) && i < |a|
    ensures j < |b| && Places(b)[j] == Places(a)[i]
  {
    assert Places(a)[i] in multiset(Places(a));
    assert Places(a)[i] in Places(b);
    j :| 0 <= j < |b| && Places(b)[j] == Places(a)[i];
  }

  // The tensors arrive in some order of the peers; each peer ends with the total on its own device.
  method AllReduceSumTree<T>(op: (T, T) -> T, tensors: seq<Entry<T>>, arity: nat) returns (result: map<PeerId, Tensor<T>>)
    requires DistinctPeers(tensors) && (arity > 0 || |tensors| <= 1)
    ensures result.Keys == set i | 0 <= i < |tensors| :: tensors[i].0
    ensures forall i | 0 <= i < |tensors| ::
      tensors[i].0 in result && result[tensors[i].0] == Tensor(tensors[i].1.device, TreeFold(op, Values(tensors), arity))
  {
    var out := AllReduceInner(op, tensors, arity);
    result := map[];
    for i := 0 to |out|
      invariant forall k | 0 <= k < i :: out[k].0 in result
      invariant forall p | p in result :: exists k :: 0 <= k < |out| && out[k] == (p, result[p])
    {
      result := result[out[i].0 := out[i].1];
    }
    forall i | 0 <= i < |tensors|
      ensures tensors[i].0 in result && result[tensors[i].0] == Tensor(tensors[i].1.device, TreeFold(op, Values(tensors), arity))
    {
      var k := PlaceIsFound(tensors, out, i);
      assert out[k].0 == tensors[i].0;
      var q :| 0 <= q < |out| && out[q] == (tensors[i].0, result[tensors[i].0]);
      var j := PlaceIsFound(out, tensors, q);
      assert tensors[j].0 == tensors[i].0;
    }
    forall p | p in result ensures p in set i | 0 <= i < |tensors| :: tensors[i].0 {
      var q :| 0 <= q < |out| && out[q] == (p, result[p]);
      var j := PlaceIsFound(out, tensors, q);
      assert tensors[j].0 == p;
    }
  }
}
