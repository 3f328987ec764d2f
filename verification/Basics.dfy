/**
 What several modules need: optional values, the smaller and the larger of two numbers,
 elements and sizes of finite sets.
 */
module Basics {
  datatype Option<+T> = None | Some(value: T)

  function Min(a: int, b: int): int {
    if a < b then a else b
  }

  function Max(a: int, b: int): int {
    if a < b then b else a
  }

  lemma AnElement<E>(xs: set<E>) returns (x: E)
    requires |xs| != 0
    ensures x in xs
  {
    x :| x in xs;
  }

  lemma SubsetSmaller<E>(a: set<E>, b: set<E>)
    requires a <= b
    ensures |a| <= |b| && |b - a| == |b| - |a|
  {
    assert b == a + (b - a);
  }
}
