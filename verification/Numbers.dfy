// Machine limits and small facts about numbers, finite sets and sequences.
module Numbers {
  const U64_MAX: nat := 0xFFFF_FFFF_FFFF_FFFF
  const USIZE_MAX: nat := U64_MAX

  function Min(a: int, b: int): int { if a < b then a else b }

  lemma SubsetSize<T>(a: set<T>, b: set<T>)
    requires a <= b
    ensures |a| <= |b|
  {
    assert b == a + (b - a);
  }

  lemma Regroup<T>(a: seq<T>, b: seq<T>, c: seq<T>)
    ensures a + b + c == a + (b + c)
  {
  }

  lemma QuotientIsLargest(k: nat, x: nat, d: nat)
    requires d > 0
    ensures k <= x / d <==> k * d <= x
  {
    if k <= x / d { assert k * d <= x / d * d <= x; } else { assert (x / d + 1) * d <= k * d; }
  }

  // A rank's neighbours on a ring of n ranks.
  function Previous(n: nat, r: nat): (p: nat)
    requires r < n
    ensures p < n
  {
    if r == 0 then n - 1 else r - 1
  }

  function Successor(n: nat, r: nat): (s: nat)
    requires r < n
    ensures s < n && Previous(n, s) == r
  {
    if r + 1 == n then 0 else r + 1
  }

  // i places before rank p.
  function Behind(n: nat, p: nat, i: nat): (q: nat)
    requires p < n && i <= n
    ensures q < n
  {
    if i <= p then p - i else p + n - i
  }

  ghost predicate Distinct<T(!new)>(s: seq<T>) {
    forall i, j | 0 <= i < j < |s| :: s[i] != s[j]
  }

  function Elements<T>(s: seq<T>): set<T> { set x | x in s }

  lemma {:induction false} DistinctSize<T(!new)>(s: seq<T>)
    requires Distinct(s)
    ensures |Elements(s)| == |s|
  {
    if s != [] {
      var front, last := s[..|s| - 1], s[|s| - 1];
      DistinctSize(front);
      assert s == front + [last] && last !in front;
      assert Elements(s) == Elements(front) + {last};
    }
  }
}
