// The order Rust gives to vectors of integers.
module Lexicographic {

  predicate LexLess(a: seq<nat>, b: seq<nat>) {
    if b == [] then false
    else if a == [] then true
    else a[0] < b[0] || (a[0] == b[0] && LexLess(a[1..], b[1..]))
  }

  predicate LexLeq(a: seq<nat>, b: seq<nat>) {
    a == b || LexLess(a, b)
  }

  lemma {:induction false} LexIrreflexive(a: seq<nat>)
    ensures !LexLess(a, a)
  {
    if a != [] { LexIrreflexive(a[1..]); }
  }

  lemma {:induction false} LexTransitive(a: seq<nat>, b: seq<nat>, c: seq<nat>)
    requires LexLess(a, b) && LexLess(b, c)
    ensures LexLess(a, c)
  {
    if a != [] && a[0] == b[0] == c[0] { LexTransitive(a[1..], b[1..], c[1..]); }
  }

  lemma {:induction false} LexTotal(a: seq<nat>, b: seq<nat>)
    ensures a == b || LexLess(a, b) || LexLess(b, a)
  {
    if a != [] && b != [] && a[0] == b[0] {
      LexTotal(a[1..], b[1..]);
      assert a == [a[0]] + a[1..] && b == [b[0]] + b[1..];
    }
  }

  lemma LexAntisymmetric(a: seq<nat>, b: seq<nat>)
    requires LexLeq(a, b) && LexLeq(b, a)
    ensures a == b
  {
    if a != b {
      LexTransitive(a, b, a);
      LexIrreflexive(a);
    }
  }

  // The first place where they differ decides; a proper prefix is less.
  ghost predicate DiffersFirst(a: seq<nat>, b: seq<nat>, k: nat) {
    k <= |a| && k < |b| && a[..k] == b[..k] && (k < |a| ==> a[k] < b[k])
  }

  lemma {:induction false} LexDecides(a: seq<nat>, b: seq<nat>) returns (k: nat)
    requires LexLess(a, b)
    ensures DiffersFirst(a, b, k)
  {
    k := 0;
    if a != [] && a[0] == b[0] {
      k := LexDecides(a[1..], b[1..]);
      assert a[..k + 1] == [a[0]] + a[1..][..k] && b[..k + 1] == [b[0]] + b[1..][..k];
      k := k + 1;
    }
  }

  lemma {:induction false} LexDecided(a: seq<nat>, b: seq<nat>, k: nat)
    requires DiffersFirst(a, b, k)
    ensures LexLess(a, b)
  {
    if k > 0 {
      assert a[0] == a[..k][0] == b[..k][0] == b[0];
      assert a[1..][..k - 1] == a[..k][1..] && b[1..][..k - 1] == b[..k][1..];
      LexDecided(a[1..], b[1..], k - 1);
    }
  }

  lemma LexLessExactlyWhen(a: seq<nat>, b: seq<nat>)
    ensures LexLess(a, b) <==> exists k :: DiffersFirst(a, b, k)
  {
    if LexLess(a, b) { var k := LexDecides(a, b); }
    if k :| DiffersFirst(a, b, k) { LexDecided(a, b, k); }
  }
}
