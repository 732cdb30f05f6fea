// Facts about finite sets of row indices that the proofs share.
module IntSets {

  ghost predicate EndsAt(s: set<int>, e: int) {
    e in s && forall x :: x in s ==> x <= e
  }

  lemma {:induction false} LastElement(s: set<int>, x: int) returns (e: int)
    requires x in s
    ensures EndsAt(s, e)
  {
    if y :| y in s && y > x {
      assert y in s - {x};
      e := LastElement(s - {x}, y);
      assert s == (s - {x}) + {x};
    } else {
      e := x;
    }
  }

  lemma SubsetIsSmaller<T>(s: set<T>, t: set<T>)
    requires s <= t
    ensures |s| <= |t|
    ensures |s| == |t| ==> s == t
  {
    assert |t| == |t - s| + |s| by { assert t == (t - s) + s; }
    if |s| == |t| {
      assert t - s == {};
      assert t == (t - s) + s;
    }
  }
}
