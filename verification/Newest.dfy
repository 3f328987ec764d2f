/**
 The `n` newest numbers of a growing set: what a bounded table that evicts its oldest
 entry, and a buffer that drops its oldest, both hold.
 */
module Newest {
  import opened Basics

  /** `top` is the `n` largest elements of `s`, or all of them if there are no more. */
  ghost predicate IsNewest(s: set<int>, top: set<int>, n: nat) {
    && top <= s && |top| <= n && (top != s ==> |top| == n)
    && forall a, b :: a in s && b in top && a > b ==> a in top
  }

  ghost function Above(s: set<int>, x: int): set<int> {
    set y | y in s && y > x
  }

  /** Being among the newest is a matter of counting the newer ones. */
  lemma NewestByCount(s: set<int>, top: set<int>, n: nat, x: int)
    requires IsNewest(s, top, n) && x in s
    ensures x in top <==> |Above(s, x)| < n
  {
    if x in top {
      assert Above(s, x) <= top - {x};
      SubsetSmaller(Above(s, x), top - {x});
    } else {
      assert top <= Above(s, x);
      SubsetSmaller(top, Above(s, x));
    }
  }

  lemma AboveGrows(s: set<int>, t: set<int>, x: int)
    requires s <= t
    ensures |Above(s, x)| <= |Above(t, x)|
  {
    SubsetSmaller(Above(s, x), Above(t, x));
  }

  lemma AboveOfMore(s: set<int>, x: int)
    ensures Above(s + {x}, x) == Above(s, x)
  {
  }

  /** There is room for another element. */
  lemma AddToRoom(s: set<int>, top: set<int>, n: nat, x: int)
    requires IsNewest(s, top, n) && |top| < n
    ensures top == s && IsNewest(s + {x}, top + {x}, n)
  {
  }

  /** There is no room, and the new element is older than all that are held. */
  lemma AddOld(s: set<int>, top: set<int>, n: nat, x: int)
    requires IsNewest(s, top, n) && |top| == n && forall y :: y in top ==> x < y
    ensures IsNewest(s + {x}, top, n)
  {
  }

  /** There is no room: the oldest one makes way. */
  lemma AddForOldest(s: set<int>, top: set<int>, n: nat, x: int, oldest: int)
    requires IsNewest(s, top, n) && |top| == n && x !in top && oldest in top && x > oldest
    requires forall y :: y in top ==> oldest <= y
    ensures x !in s && IsNewest(s + {x}, top - {oldest} + {x}, n)
  {
    var t, u := top - {oldest} + {x}, s + {x};
    assert |t| == n;
    forall a, b | a in u && b in t && a > b
      ensures a in t
    {
      if a != x { assert a in top; }
    }
  }

  lemma NewestSize(s: set<int>, top: set<int>, n: nat)
    requires IsNewest(s, top, n)
    ensures |top| == Min(|s|, n)
  {
    SubsetSmaller(top, s);
  }

  /** The oldest of the newest is told by how many are newer. */
  lemma OldestByCount(s: set<int>, top: set<int>, n: nat, oldest: int, x: int)
    requires IsNewest(s, top, n) && x in s
    requires oldest in top && forall y :: y in top ==> oldest <= y
    ensures x == oldest <==> |Above(s, x)| == |top| - 1
  {
    assert Above(s, oldest) == top - {oldest};
    if x > oldest {
      SubsetSmaller(Above(s, x) + {x}, Above(s, oldest));
    } else if x < oldest {
      SubsetSmaller(Above(s, oldest) + {oldest}, Above(s, x));
    }
  }
}
