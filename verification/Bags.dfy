// Sums of bags over a list, which do not depend on the order of the list.
module Bags {

  ghost function Collect<T, U>(f: T -> multiset<U>, x: seq<T>): multiset<U> {
    if x == [] then multiset{} else Collect(f, x[..|x| - 1]) + f(x[|x| - 1])
  }

  function Without<T>(x: seq<T>, k: nat): seq<T>
    requires k < |x|
  {
    x[..k] + x[k + 1..]
  }

  lemma {:induction false} TakeOut<T, U>(f: T -> multiset<U>, x: seq<T>, k: nat)
    requires k < |x|
    ensures Collect(f, x) == Collect(f, Without(x, k)) + f(x[k])
    decreases |x|
  {
    var n := |x| - 1;
    if k == n {
      assert Without(x, k) == x[..n];
    } else {
      TakeOut(f, x[..n], k);
      assert Without(x, k)[..n - 1] == Without(x[..n], k);
    }
  }

  lemma WithoutLosesOne<T>(x: seq<T>, k: nat)
    requires k < |x|
    ensures multiset(Without(x, k)) == multiset(x) - multiset{x[k]}
  {
    assert x == x[..k] + [x[k]] + x[k + 1..];
  }

  lemma {:induction false} OrderIsIrrelevant<T, U>(f: T -> multiset<U>, x: seq<T>, y: seq<T>)
    requires multiset(x) == multiset(y)
    ensures Collect(f, x) == Collect(f, y)
    decreases |x|
  {
    assert |multiset(x)| == |x| && |multiset(y)| == |y|;
    if x != [] {
      var n := |x| - 1;
      assert x[n] in multiset(y);
      var k :| 0 <= k < |y| && y[k] == x[n];
      WithoutLosesOne(x, n);
      WithoutLosesOne(y, k);
      TakeOut(f, x, n);
      TakeOut(f, y, k);
      OrderIsIrrelevant(f, Without(x, n), Without(y, k));
    }
  }

  lemma {:induction false} SameParts<T, U>(f: T -> multiset<U>, g: T -> multiset<U>, x: seq<T>)
    requires forall t :: t in x ==> f(t) == g(t)
    ensures Collect(f, x) == Collect(g, x)
    decreases |x|
  {
    if x != [] {
      SameParts(f, g, x[..|x| - 1]);
    }
  }
}
