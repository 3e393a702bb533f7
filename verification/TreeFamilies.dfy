// src/local/all_reduce/tree.rs: which tensors one level of the tree adds up, place by place.
module TreeFamilies {
  import opened RingMath
  import opened TreeReduce

  // Group i is `arity + 1` neighbours, the last group perhaps fewer: the first of them is the parent of the rest.
  ghost predicate IsGroup<T>(op: (T, T) -> T, x: seq<T>, arity: nat, i: nat, start: nat) {
    var end := if start + arity + 1 < |x| then start + arity + 1 else |x|;
    i < |Grouped(op, x, arity)| && start < |x| && Grouped(op, x, arity)[i] == LeftFold(op, x[start..end])
  }

  ghost predicate IsFamily(places: seq<Place>, arity: nat, i: nat, start: nat) {
    var end := if start + arity + 1 < |places| then start + arity + 1 else |places|;
    && start < |places| && i < |GroupPlaces(places, arity)| == |GroupChildren(places, arity)|
    && GroupPlaces(places, arity)[i] == places[start] && GroupChildren(places, arity)[i] == places[start + 1..end]
  }

  lemma NextStart(arity: nat, i: nat)
    requires i > 0
    ensures i * (arity + 1) == (i - 1) * (arity + 1) + arity + 1 >= arity + 1
  {
  }

  lemma TailSlice<T>(x: seq<T>, from: nat, start: nat, end: nat)
    requires from <= |x| && start <= end <= |x| - from
    ensures x[from..][start..end] == x[from + start..from + end]
  {
  }

  lemma GroupShifts<T>(op: (T, T) -> T, x: seq<T>, arity: nat, i: nat, start: nat)
    requires arity + 1 < |x| && IsGroup(op, x[arity + 1..], arity, i, start)
    ensures IsGroup(op, x, arity, i + 1, start + arity + 1)
  {
    var rest, from := x[arity + 1..], start + arity + 1;
    var end := if start + arity + 1 < |rest| then start + arity + 1 else |rest|;
    TailSlice(x, arity + 1, start, end);
    assert Grouped(op, x, arity) == [LeftFold(op, x[..arity + 1])] + Grouped(op, rest, arity);
  }

  lemma {:induction false} GroupsAre<T>(op: (T, T) -> T, x: seq<T>, arity: nat, i: nat, start: nat)
    requires start == i * (arity + 1)
    ensures if start < |x| then IsGroup(op, x, arity, i, start) else |Grouped(op, x, arity)| <= i
  {
    if x == [] {
    } else if i == 0 {
      assert Grouped(op, x, arity)[0] == LeftFold(op, x[..GroupSize(|x|, arity)]);
      assert x[0..GroupSize(|x|, arity)] == x[..GroupSize(|x|, arity)];
    } else {
      NextStart(arity, i);
      if arity + 1 < |x| {
        GroupsAre(op, x[arity + 1..], arity, i - 1, start - (arity + 1));
        if start < |x| { GroupShifts(op, x, arity, i - 1, start - (arity + 1)); }
      } else {
        assert x[|x|..] == [];
      }
    }
  }

  lemma FamilyShifts(places: seq<Place>, arity: nat, i: nat, start: nat)
    requires arity + 1 < |places| && IsFamily(places[arity + 1..], arity, i, start)
    ensures IsFamily(places, arity, i + 1, start + arity + 1)
  {
    var rest, from := places[arity + 1..], start + arity + 1;
    var end := if start + arity + 1 < |rest| then start + arity + 1 else |rest|;
    TailSlice(places, arity + 1, start + 1, end);
    assert GroupPlaces(places, arity) == [places[0]] + GroupPlaces(rest, arity);
    assert GroupChildren(places, arity) == [places[1..arity + 1]] + GroupChildren(rest, arity);
  }

  lemma FirstFamily(places: seq<Place>, arity: nat)
    requires places != []
    ensures IsFamily(places, arity, 0, 0)
  {
    FamiliesMatch(places, arity);
  }

  lemma {:induction false} FamiliesAre(places: seq<Place>, arity: nat, i: nat, start: nat)
    requires start == i * (arity + 1)
    ensures if start < |places| then IsFamily(places, arity, i, start)
      else |GroupPlaces(places, arity)| == |GroupChildren(places, arity)| <= i
  {
    if places == [] {
    } else if i == 0 {
      FirstFamily(places, arity);
    } else {
      NextStart(arity, i);
      if arity + 1 < |places| {
        FamiliesAre(places[arity + 1..], arity, i - 1, start - (arity + 1));
        if start < |places| { FamilyShifts(places, arity, i - 1, start - (arity + 1)); }
      } else {
        assert places[|places|..] == [];
      }
    }
  }
}
