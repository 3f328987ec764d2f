/**
 What `std::sort` and `std::nth_element` promise: the k-th smallest element.
 */
module OrderStatistics {
  function Insert(x: int, s: seq<int>): (r: seq<int>)
    ensures |r| == |s| + 1
  {
    if s == [] || x <= s[0] then [x] + s else [s[0]] + Insert(x, s[1..])
  }

  function Sorted(s: seq<int>): (r: seq<int>)
    ensures |r| == |s|
  {
    if s == [] then [] else Insert(s[|s| - 1], Sorted(s[..|s| - 1]))
  }

  predicate Ascending(s: seq<int>) {
    forall i, j :: 0 <= i <= j < |s| ==> s[i] <= s[j]
  }

  /** How many elements lie below `d`. */
  function Below(s: seq<int>, d: int): (n: nat)
    ensures n <= |s|
  {
    if s == [] then 0 else Below(s[..|s| - 1], d) + if s[|s| - 1] < d then 1 else 0
  }

  lemma {:induction false} InsertAscends(x: int, s: seq<int>)
    requires Ascending(s)
    ensures Ascending(Insert(x, s))
    ensures forall i :: 0 <= i < |s| + 1 ==> Insert(x, s)[i] == x || Insert(x, s)[i] in s
  {
    if s != [] && x > s[0] { InsertAscends(x, s[1..]); }
  }

  lemma {:induction false} SortedAscends(s: seq<int>)
    ensures Ascending(Sorted(s))
  {
    if s != [] {
      SortedAscends(s[..|s| - 1]);
      InsertAscends(s[|s| - 1], Sorted(s[..|s| - 1]));
    }
  }

  /** Counting from the front instead of from the back. */
  lemma {:induction false} BelowFront(x: int, s: seq<int>, d: int)
    ensures Below([x] + s, d) == Below(s, d) + if x < d then 1 else 0
  {
    if s == [] {
      assert [x] + s == [x];
      assert [x][..0] == [];
    } else {
      var all, n := [x] + s, |s| - 1;
      assert all[..|all| - 1] == [x] + s[..n];
      BelowFront(x, s[..n], d);
    }
  }

  lemma {:induction false} BelowInsert(x: int, s: seq<int>, d: int)
    ensures Below(Insert(x, s), d) == Below(s, d) + if x < d then 1 else 0
  {
    BelowFront(x, s, d);
    if s != [] && x > s[0] {
      BelowInsert(x, s[1..], d);
      BelowFront(s[0], Insert(x, s[1..]), d);
      BelowFront(s[0], s[1..], d);
      assert [s[0]] + s[1..] == s;
    }
  }

  lemma {:induction false} BelowSorted(s: seq<int>, d: int)
    ensures Below(Sorted(s), d) == Below(s, d)
  {
    if s != [] {
      BelowSorted(s[..|s| - 1], d);
      BelowInsert(s[|s| - 1], Sorted(s[..|s| - 1]), d);
    }
  }

  lemma {:induction false} BelowOfAscending(s: seq<int>, d: int, k: nat)
    requires Ascending(s) && k < |s|
    ensures s[k] < d <==> k < Below(s, d)
  {
    var n := |s| - 1;
    if k < n {
      BelowOfAscending(s[..n], d, k);
      if s[n] < d && n > 0 { BelowOfAscending(s[..n], d, n - 1); }
    } else if n > 0 {
      BelowOfAscending(s[..n], d, n - 1);
    }
  }

  /** The k-th smallest element, by counting: it is below `d` exactly when more than `k` elements are. */
  lemma KthByCount(s: seq<int>, k: nat, d: int)
    requires k < |s|
    ensures Sorted(s)[k] < d <==> k < Below(s, d)
  {
    SortedAscends(s);
    BelowSorted(s, d);
    BelowOfAscending(Sorted(s), d, k);
  }

  /** It is `d` exactly when at most `k` elements are below `d` and more than `k` are at most `d`. */
  lemma KthIs(s: seq<int>, k: nat, d: int)
    requires k < |s|
    ensures Sorted(s)[k] == d <==> Below(s, d) <= k < Below(s, d + 1)
  {
    KthByCount(s, k, d);
    KthByCount(s, k, d + 1);
  }

  lemma {:induction false} BelowIsMonotone(s: seq<int>, d: int, e: int)
    requires d <= e
    ensures Below(s, d) <= Below(s, e)
  {
    if s != [] { BelowIsMonotone(s[..|s| - 1], d, e); }
  }

  /** Order statistics depend only on the counts: two sequences with the same counts sort alike. */
  lemma SameCountsSortAlike(s: seq<int>, t: seq<int>)
    requires |s| == |t| && forall d :: Below(s, d) == Below(t, d)
    ensures Sorted(s) == Sorted(t)
  {
    forall k | 0 <= k < |s|
      ensures Sorted(s)[k] == Sorted(t)[k]
    {
      KthIs(s, k, Sorted(s)[k]);
      KthIs(t, k, Sorted(s)[k]);
    }
  }
}
