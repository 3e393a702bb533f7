// Vocabulary shared by every ring schedule: the exact fold a ring computes for
// one chunk, and what that fold becomes once the kernel obeys algebraic laws.
module RingMath {
  import opened Numbers

  // What a chunk holds after it left rank `origin` and was reduced at ranks origin+1, ..., origin+k
  // in turn. The visiting rank's own contribution is always the left operand.
  function RingFold<T>(op: (T, T) -> T, x: seq<T>, origin: nat, k: nat): T
    requires origin < |x| && k < |x|
  {
    if k == 0 then x[origin] else op(x[(origin + k) % |x|], RingFold(op, x, origin, k - 1))
  }

  // The left-to-right sum of a non-empty list.
  function LeftFold<T>(op: (T, T) -> T, x: seq<T>): T
    requires |x| > 0
  {
    if |x| == 1 then x[0] else op(LeftFold(op, x[..|x| - 1]), x[|x| - 1])
  }

  ghost predicate Associative<T(!new)>(op: (T, T) -> T) {
    forall a, b, c :: op(op(a, b), c) == op(a, op(b, c))
  }

  ghost predicate Commutative<T(!new)>(op: (T, T) -> T) {
    forall a, b :: op(a, b) == op(b, a)
  }

  // How many hops rank r lies after rank `origin` on a ring of n ranks.
  function Hops(n: nat, origin: nat, r: nat): (d: nat)
    requires origin < n && r < n
    ensures d < n
  {
    if r >= origin then r - origin else r + n - origin
  }

  lemma WrapOnce(x: nat, n: nat)
    requires n > 0 && x < 2 * n
    ensures x % n == if x < n then x else x - n
  {
    if x >= n {
      assert x == n * 1 + (x - n);
      ModUnique(x, n, 1, x - n);
    } else {
      ModUnique(x, n, 0, x);
    }
  }

  lemma ModUnique(x: int, n: int, q: int, r: int)
    requires n > 0 && 0 <= r < n && x == n * q + r
    ensures x % n == r && x / n == q
  {
    var d := q - x / n;
    assert n * d == x % n - r by {
      assert x == n * (x / n) + x % n;
      assert n * d == n * q - n * (x / n);
    }
    MulGrows(n, d);
  }

  lemma Quotient(a: nat, b: nat)
    requires b > 0
    ensures a / b * b <= a
    ensures if a < b then a / b == 0 && a % b == a else a / b > 0
  {
    if a < b { ModUnique(a, b, 0, a); }
  }

  lemma MulSuccessor(a: nat, b: nat)
    ensures (a + 1) * b == a * b + b
  {
  }

  lemma MulGrows(n: int, d: int)
    requires n > 0
    ensures d >= 1 ==> n * d >= n
    ensures d <= -1 ==> n * d <= -n
  {
  }

  lemma {:induction false} LeftFoldAppend<T(!new)>(op: (T, T) -> T, a: seq<T>, b: seq<T>)
    requires |a| > 0 && |b| > 0 && Associative(op)
    ensures LeftFold(op, a + b) == op(LeftFold(op, a), LeftFold(op, b))
  {
    var front := b[..|b| - 1];
    assert (a + b)[..|a + b| - 1] == a + front;
    if |b| == 1 {
      assert a + front == a;
    } else {
      LeftFoldAppend(op, a, front);
    }
  }

  lemma {:induction false} RingFoldIsRotatedSum<T(!new)>(op: (T, T) -> T, x: seq<T>, origin: nat, k: nat)
    requires origin < |x| && k < |x| && Commutative(op)
    ensures RingFold(op, x, origin, k) == LeftFold(op, (x[origin..] + x[..origin])[..k + 1])
  {
    var y := x[origin..] + x[..origin];
    if k == 0 {
      assert y[..1] == [x[origin]];
    } else {
      RingFoldIsRotatedSum(op, x, origin, k - 1);
      WrapOnce(origin + k, |x|);
      assert y[..k + 1][..k] == y[..k];
      assert y[..k + 1][k] == x[(origin + k) % |x|];
    }
  }

  // With an associative and commutative kernel the starting rank no longer matters:
  // the ring computes the plain left-to-right sum over ranks.
  lemma RingFoldIsSum<T(!new)>(op: (T, T) -> T, x: seq<T>, origin: nat)
    requires origin < |x| && Associative(op) && Commutative(op)
    ensures RingFold(op, x, origin, |x| - 1) == LeftFold(op, x)
  {
    var head, tail := x[..origin], x[origin..];
    RingFoldIsRotatedSum(op, x, origin, |x| - 1);
    assert (tail + head)[..|x|] == tail + head;
    assert head + tail == x;
    if origin == 0 { assert tail + head == x; } else { SwapHalves(op, head, tail); }
  }

  lemma SwapHalves<T(!new)>(op: (T, T) -> T, head: seq<T>, tail: seq<T>)
    requires head != [] && tail != [] && Associative(op) && Commutative(op)
    ensures LeftFold(op, tail + head) == LeftFold(op, head + tail)
  {
    LeftFoldAppend(op, tail, head);
    LeftFoldAppend(op, head, tail);
  }

  // ---------------------------------------------------------------------------------------------
  // One chunk travelling round a ring of |x| ranks. It leaves `origin` first; x[r] is rank r's own
  // contribution. Every schedule in the repository is this one, up to the choice of origin.
  // ---------------------------------------------------------------------------------------------

  function Owner(n: nat, origin: nat): (p: nat)
    requires origin < n
    ensures p < n
  {
    Previous(n, origin)
  }

  // What rank r holds after `step` steps of the reducing phase.
  function Reduced<T>(op: (T, T) -> T, x: seq<T>, origin: nat, step: nat, r: nat): T
    requires origin < |x| && r < |x|
  {
    var d := Hops(|x|, origin, r);
    if d <= step then RingFold(op, x, origin, d) else x[r]
  }

  // What rank r holds after `step` steps of an overwriting phase in which the value spreads from
  // `owner`; y[r] is what rank r held when that phase began.
  function Gathered<T>(y: seq<T>, owner: nat, step: nat, r: nat): T
    requires owner < |y| && r < |y|
  {
    if Hops(|y|, owner, r) <= step then y[owner] else y[r]
  }

  lemma HopsAdvance(n: nat, origin: nat, r: nat)
    requires origin < n && r < n
    ensures (origin + Hops(n, origin, r)) % n == r
    ensures r != origin ==> Hops(n, origin, Previous(n, r)) == Hops(n, origin, r) - 1
  {
    WrapOnce(origin + Hops(n, origin, r), n);
  }

  lemma ReducedStep<T>(op: (T, T) -> T, x: seq<T>, origin: nat, step: nat, r: nat)
    requires origin < |x| && r < |x|
    ensures Reduced(op, x, origin, 0, r) == x[r]
    ensures Reduced(op, x, origin, step + 1, r) ==
      if Hops(|x|, origin, r) == step + 1
      then op(Reduced(op, x, origin, step, r), Reduced(op, x, origin, step, Previous(|x|, r)))
      else Reduced(op, x, origin, step, r)
  {
    HopsAdvance(|x|, origin, r);
  }

  lemma GatheredStep<T>(y: seq<T>, owner: nat, step: nat, r: nat)
    requires owner < |y| && r < |y|
    ensures Gathered(y, owner, 0, r) == y[r]
    ensures Gathered(y, owner, |y| - 1, r) == y[owner]
    ensures Gathered(y, owner, step + 1, r) ==
      if Hops(|y|, owner, r) == step + 1
      then Gathered(y, owner, step, Previous(|y|, r))
      else Gathered(y, owner, step, r)
  {
    HopsAdvance(|y|, owner, r);
  }

  // After |x| - 1 reducing steps the rank just before the origin owns the finished chunk.
  lemma OwnerFinished<T>(op: (T, T) -> T, x: seq<T>, origin: nat)
    requires origin < |x|
    ensures Reduced(op, x, origin, |x| - 1, Owner(|x|, origin)) == RingFold(op, x, origin, |x| - 1)
  {
  }
}
