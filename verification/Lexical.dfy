// The order in which the program compares names: by code point, shorter first.
module Lexical {

  predicate Less(a: string, b: string) {
    b != "" && (a == "" || a[0] < b[0] || (a[0] == b[0] && Less(a[1..], b[1..])))
  }

  lemma {:induction false} Trichotomy(a: string, b: string)
    ensures Less(a, b) || a == b || Less(b, a)
    ensures !(Less(a, b) && Less(b, a)) && !Less(a, a)
    decreases |a|
  {
    if a != "" && b != "" {
      Trichotomy(a[1..], b[1..]);
      Trichotomy(a[1..], a[1..]);
      assert a == [a[0]] + a[1..] && b == [b[0]] + b[1..];
    } else if a != "" {
      Trichotomy(a[1..], a[1..]);
    }
  }

  lemma {:induction false} Transitive(a: string, b: string, c: string)
    requires Less(a, b) && Less(b, c)
    ensures Less(a, c)
    decreases |a|
  {
    if a != "" && a[0] == b[0] == c[0] {
      Transitive(a[1..], b[1..], c[1..]);
    }
  }

  // They first differ at this place, where a has the smaller character or has ended.
  ghost predicate DifferAt(a: string, b: string, n: int) {
    && 0 <= n < |b| && n <= |a| && a[..n] == b[..n]
    && (n == |a| || a[n] < b[n])
  }

  // The order goes by the first difference.
  lemma {:induction false} LessIffFirstDiffers(a: string, b: string)
    ensures Less(a, b) <==> exists n :: DifferAt(a, b, n)
    decreases |a|
  {
    if a != "" && b != "" && a[0] == b[0] {
      LessIffFirstDiffers(a[1..], b[1..]);
      if n :| DifferAt(a[1..], b[1..], n) {
        assert a[..n + 1] == [a[0]] + a[1..][..n] && b[..n + 1] == [b[0]] + b[1..][..n];
        assert DifferAt(a, b, n + 1);
      }
      if n :| DifferAt(a, b, n) {
        assert a[1..][..n - 1] == a[..n][1..] && b[1..][..n - 1] == b[..n][1..];
        assert DifferAt(a[1..], b[1..], n - 1);
      }
    } else {
      assert Less(a, b) ==> DifferAt(a, b, 0);
      assert forall n :: DifferAt(a, b, n) && n > 0 ==> a[..n][0] == b[..n][0];
    }
  }
}
