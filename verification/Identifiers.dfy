/** The order of identifiers, which breaks every tie. */
module Identifiers {

  predicate IdLeq(a: string, b: string) {
    a == [] || (b != [] && (a[0] < b[0] || (a[0] == b[0] && IdLeq(a[1..], b[1..]))))
  }

  lemma {:induction false} IdTotal(a: string, b: string)
    ensures IdLeq(a, b) || IdLeq(b, a)
  {
    if a != [] && b != [] {
      IdTotal(a[1..], b[1..]);
    }
  }

  lemma {:induction false} IdTransitive(a: string, b: string, c: string)
    requires IdLeq(a, b) && IdLeq(b, c)
    ensures IdLeq(a, c)
  {
    if a != [] && b != [] && c != [] && a[0] == b[0] == c[0] {
      IdTransitive(a[1..], b[1..], c[1..]);
    }
  }

  lemma {:induction false} IdAntisymmetric(a: string, b: string)
    requires IdLeq(a, b) && IdLeq(b, a)
    ensures a == b
  {
    if a != [] && b != [] {
      IdAntisymmetric(a[1..], b[1..]);
      assert a == [a[0]] + a[1..] && b == [b[0]] + b[1..];
    }
  }

  lemma FirstOfPrefix(a: string, b: string)
    requires a != [] && b != []
    ensures forall k: nat :: 0 < k <= |a| && k <= |b| && a[..k] == b[..k] ==> a[0] == b[0]
  {
    forall k: nat | 0 < k <= |a| && k <= |b| && a[..k] == b[..k] ensures a[0] == b[0] {
      assert a[0] == a[..k][0] && b[0] == b[..k][0];
    }
  }

  ghost predicate FirstDifference(a: string, b: string, k: nat) {
    k < |a| && k < |b| && a[..k] == b[..k] && a[k] < b[k]
  }

  lemma DifferenceBehind(x: char, a: string, b: string, k: nat)
    ensures FirstDifference([x] + a, [x] + b, k + 1) <==> FirstDifference(a, b, k)
    ensures !FirstDifference([x] + a, [x] + b, 0)
  {
    if k < |a| && k < |b| {
      assert ([x] + a)[..k + 1] == [x] + a[..k] && ([x] + b)[..k + 1] == [x] + b[..k];
      assert ([x] + a[..k])[1..] == a[..k] && ([x] + b[..k])[1..] == b[..k];
    }
  }

  /** The order is lexicographic: one is a beginning of the other, or the first difference decides. */
  lemma {:induction false} IdLeqIs(a: string, b: string)
    ensures IdLeq(a, b) <==> a <= b || exists k: nat :: FirstDifference(a, b, k)
  {
    if a != [] && b != [] {
      var c, d := a[1..], b[1..];
      IdLeqIs(c, d);
      assert a == [a[0]] + c && b == [b[0]] + d;
      FirstOfPrefix(a, b);
      assert FirstDifference(a, b, 0) <==> a[0] < b[0];
      if a[0] == b[0] {
        assert a <= b <==> c <= d;
        if k: nat :| FirstDifference(a, b, k) {
          DifferenceBehind(a[0], c, d, if k > 0 then k - 1 else 0);
          assert FirstDifference(c, d, k - 1);
        }
        if k: nat :| FirstDifference(c, d, k) {
          DifferenceBehind(a[0], c, d, k);
          assert FirstDifference(a, b, k + 1);
        }
      } else {
        assert forall k: nat :: FirstDifference(a, b, k) ==> k == 0;
      }
    }
  }
}
