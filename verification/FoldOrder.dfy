// Folding in an order of one's choice: when every contribution is used once and the kernel is
// associative and commutative, the order does not matter.
module FoldOrder {
  import opened RingMath

  ghost predicate Below(order: seq<nat>, n: nat) {
    forall p | 0 <= p < |order| :: order[p] < n
  }

  function At<T>(x: seq<T>, order: seq<nat>): (values: seq<T>)
    requires Below(order, |x|)
    ensures |values| == |order|
  {
    seq(|order|, p requires 0 <= p < |order| => x[order[p]])
  }

  lemma AtAppend<T>(x: seq<T>, a: seq<nat>, b: seq<nat>)
    requires Below(a, |x|) && Below(b, |x|)
    ensures Below(a + b, |x|) && At(x, a + b) == At(x, a) + At(x, b)
  {
  }

  ghost function Once(b: bool): nat { if b then 1 else 0 }

  function Indices(n: nat): (all: seq<nat>)
    ensures |all| == n
  {
    seq(n, i requires 0 <= i < n => i)
  }

  lemma {:induction false} IndicesOnce(n: nat, j: nat)
    ensures multiset(Indices(n))[j] == Once(j < n)
  {
    if n > 0 {
      IndicesOnce(n - 1, j);
      assert Indices(n) == Indices(n - 1) + [n - 1];
    }
  }

  lemma SwapEnds<T(!new)>(op: (T, T) -> T, v: T, b: seq<T>)
    requires Associative(op) && Commutative(op) && b != []
    ensures LeftFold(op, [v] + b) == LeftFold(op, b + [v])
  {
    LeftFoldAppend(op, [v], b);
    LeftFoldAppend(op, b, [v]);
  }

  lemma MoveToEnd<T(!new)>(op: (T, T) -> T, a: seq<T>, v: T, b: seq<T>)
    requires Associative(op) && Commutative(op)
    ensures LeftFold(op, a + [v] + b) == LeftFold(op, a + b + [v])
  {
    assert a + [v] + b == a + ([v] + b) && a + b + [v] == a + (b + [v]);
    if b == [] {
      assert [v] + b == b + [v];
    } else {
      SwapEnds(op, v, b);
      if a == [] {
        assert a + ([v] + b) == [v] + b && a + (b + [v]) == b + [v];
      } else {
        LeftFoldAppend(op, a, [v] + b);
        LeftFoldAppend(op, a, b + [v]);
      }
    }
  }

  // Take the last element of one sequence out of the other.
  lemma TakeOut<X>(x: seq<X>, y: seq<X>) returns (a: seq<X>, b: seq<X>)
    requires x != [] && multiset(x) == multiset(y)
    ensures y == a + [x[|x| - 1]] + b && multiset(x[..|x| - 1]) == multiset(a + b) && |x| == |y|
  {
    var front, v := x[..|x| - 1], x[|x| - 1];
    assert |multiset(x)| == |x| && |multiset(y)| == |y|;
    assert x == front + [v];
    assert v in multiset(y);
    var p :| 0 <= p < |y| && y[p] == v;
    a, b := y[..p], y[p + 1..];
    assert y == a + [v] + b;
    WithoutMiddle(a, v, b);
    WithoutMiddle(front, v, []);
    assert front + [v] + [] == x && front + [] == front;
  }

  lemma WithoutMiddle<X>(a: seq<X>, v: X, b: seq<X>)
    ensures multiset(a + b) == multiset(a + [v] + b) - multiset{v}
  {
    assert multiset(a + [v] + b) == multiset(a) + multiset{v} + multiset(b);
  }

  lemma {:induction false} FoldIgnoresOrder<T(!new)>(op: (T, T) -> T, x: seq<T>, y: seq<T>)
    requires Associative(op) && Commutative(op) && x != [] && multiset(x) == multiset(y)
    ensures y != [] && LeftFold(op, x) == LeftFold(op, y)
    decreases |x|
  {
    var front, v := x[..|x| - 1], x[|x| - 1];
    var a, b := TakeOut(x, y);
    assert x == front + [v];
    MoveToEnd(op, a, v, b);
    if front == [] {
      assert |a + b| == 0 && y == [v];
    } else {
      assert a + b != [] by { assert |multiset(front)| == |multiset(a + b)| > 0; }
      FoldIgnoresOrder(op, front, a + b);
      LeftFoldAppend(op, front, [v]);
      LeftFoldAppend(op, a + b, [v]);
    }
  }

  lemma {:induction false} AtKeepsCounts<T>(x: seq<T>, a: seq<nat>, b: seq<nat>)
    requires Below(a, |x|) && Below(b, |x|) && multiset(a) == multiset(b)
    ensures multiset(At(x, a)) == multiset(At(x, b))
    decreases |a|
  {
    if a == [] {
      assert |multiset(a)| == |a| && |multiset(b)| == |b|;
    } else {
      var front, v := a[..|a| - 1], a[|a| - 1];
      var c, d := TakeOut(a, b);
      assert b[|c|] == v;
      assert Below(c, |x|) by { assert forall p | 0 <= p < |c| :: c[p] == b[p]; }
      assert Below(d, |x|) by { assert forall p | 0 <= p < |d| :: d[p] == b[|c| + 1 + p]; }
      AtAppend(x, c, d);
      AtKeepsCounts(x, front, c + d);
      AtMiddle(x, c, v, d);
      AtAppend(x, front, [v]);
      assert a == front + [v] && At(x, [v]) == [x[v]];
    }
  }

  lemma AtMiddle<T>(x: seq<T>, c: seq<nat>, v: nat, d: seq<nat>)
    requires Below(c, |x|) && Below(d, |x|) && v < |x|
    ensures Below(c + [v] + d, |x|)
    ensures multiset(At(x, c + [v] + d)) == multiset(At(x, c)) + multiset{x[v]} + multiset(At(x, d))
  {
    AtAppend(x, c, [v]);
    AtAppend(x, c + [v], d);
    assert At(x, [v]) == [x[v]];
  }
}
