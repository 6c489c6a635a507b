/**
 Left folds over byte streams: the shape of every running check value in the
 firmware, whether it is a CRC register or a sum.
 */
module Folds {

  function Fold<R, T>(f: (R, T) -> R, r: R, data: seq<T>): R
    decreases |data|
  {
    if data == [] then r else Fold(f, f(r, data[0]), data[1..])
  }

  // Folding a stream piecewise is folding it whole.
  lemma {:induction false} FoldConcat<R, T>(f: (R, T) -> R, r: R, a: seq<T>, b: seq<T>)
    ensures Fold(f, r, a + b) == Fold(f, Fold(f, r, a), b)
    decreases |a|
  {
    if a == [] {
      assert a + b == b;
    } else {
      assert (a + b)[1..] == a[1..] + b;
      FoldConcat(f, f(r, a[0]), a[1..], b);
    }
  }

  // The loop form: one more element at the end.
  lemma FoldSnoc<R, T>(f: (R, T) -> R, r: R, data: seq<T>, k: nat)
    requires k < |data|
    ensures Fold(f, r, data[..k + 1]) == f(Fold(f, r, data[..k]), data[k])
  {
    assert data[..k + 1] == data[..k] + [data[k]];
    FoldConcat(f, r, data[..k], [data[k]]);
    var q := Fold(f, r, data[..k]);
    assert Fold(f, q, [data[k]]) == Fold(f, f(q, data[k]), []);
  }

  // Two folds with pointwise equal steps agree.
  lemma {:induction false} FoldCongruence<R(!new), T(!new)>(f: (R, T) -> R, g: (R, T) -> R, r: R, data: seq<T>)
    requires forall s, t :: f(s, t) == g(s, t)
    ensures Fold(f, r, data) == Fold(g, r, data)
    decreases |data|
  {
    if data != [] {
      FoldCongruence(f, g, f(r, data[0]), data[1..]);
    }
  }

  ghost predicate StepInjective<R(!new), T(!new)>(f: (R, T) -> R) {
    forall r, s, t :: f(r, t) == f(s, t) ==> r == s
  }

  lemma {:induction false} FoldInjective<R(!new), T(!new)>(f: (R, T) -> R, r: R, s: R, data: seq<T>)
    requires StepInjective(f)
    requires Fold(f, r, data) == Fold(f, s, data)
    ensures r == s
    decreases |data|
  {
    if data != [] {
      FoldInjective(f, f(r, data[0]), f(s, data[0]), data[1..]);
      assert f(r, data[0]) == f(s, data[0]);
    }
  }
}
