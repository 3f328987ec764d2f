/**
 The bounded blocking queue between two stages (common/BoundedQueue.h): what its
 critical sections do to the elements.

 `accepted`, `fates` and `popped` are history: everything ever enqueued, for the
 elements already out of the queue whether they were popped (`true`) or dropped,
 and what the pops returned. The waiting and waking is in `QueueMonitor`.
 */
module BoundedQueue {
  import opened Basics

  datatype Shared<T> = Shared(q: seq<T>, peak: nat, dropped: nat, closed: bool,
                              accepted: seq<T>, fates: seq<bool>, popped: seq<T>)

  function Fresh<T>(): Shared<T> {
    Shared([], 0, 0, false, [], [], [])
  }

  // ----- The critical sections -----

  function Enqueue<T>(s: Shared<T>, x: T): Shared<T> {
    s.(q := s.q + [x], peak := if |s.q| + 1 > s.peak then |s.q| + 1 else s.peak, accepted := s.accepted + [x])
  }

  /** `push`, once its wait is over. */
  function Pushed<T>(s: Shared<T>, x: T): Shared<T> {
    if s.closed then s else Enqueue(s, x)
  }

  function TryPushed<T>(cap: nat, s: Shared<T>, x: T): Shared<T> {
    if s.closed || |s.q| >= cap then s else Enqueue(s, x)
  }

  function DropFront<T>(s: Shared<T>): Shared<T>
    requires s.q != []
  {
    s.(q := s.q[1..], dropped := s.dropped + 1, fates := s.fates + [false])
  }

  function ForcePushed<T>(cap: nat, s: Shared<T>, x: T): Shared<T>
    requires cap > 0
  {
    if s.closed then s else Enqueue(if |s.q| >= cap then DropFront(s) else s, x)
  }

  /** `pop` and `popFor`, once their wait is over. */
  function Popped<T>(s: Shared<T>): Shared<T> {
    if s.q == [] then s
    else s.(q := s.q[1..], fates := s.fates + [true], popped := s.popped + [s.q[0]])
  }

  function Closed<T>(s: Shared<T>): Shared<T> {
    s.(closed := true)
  }

  function Cleared<T>(s: Shared<T>): Shared<T> {
    s.(q := [], dropped := s.dropped + |s.q|, fates := s.fates + seq(|s.q|, _ => false))
  }

  // ----- What they keep -----

  /** The elements of `xs` whose fate is `true`, in order. */
  function Picked<T>(xs: seq<T>, fates: seq<bool>): (p: seq<T>)
    requires |xs| == |fates|
    ensures |p| == Count(fates, true)
  {
    if xs == [] then []
    else Picked(xs[..|xs| - 1], fates[..|xs| - 1]) + if fates[|xs| - 1] then [xs[|xs| - 1]] else []
  }

  function Count(fates: seq<bool>, b: bool): nat {
    if fates == [] then 0 else Count(fates[..|fates| - 1], b) + if fates[|fates| - 1] == b then 1 else 0
  }

  /** A FIFO with drops: what left the queue is the older part of what was accepted, every element of it
      popped or dropped; what is left is the rest. */
  ghost predicate IsFifo<T>(cap: nat, s: Shared<T>) {
    && |s.q| <= s.peak <= cap
    && |s.fates| + |s.q| == |s.accepted|
    && s.accepted[|s.fates|..] == s.q
    && s.popped == Picked(s.accepted[..|s.fates|], s.fates)
    && s.dropped == Count(s.fates, false)
  }

  lemma EnqueueKeeps<T>(cap: nat, s: Shared<T>, x: T)
    requires IsFifo(cap, s) && |s.q| < cap
    ensures IsFifo(cap, Enqueue(s, x))
  {
    hide Picked, Count;
    assert (s.accepted + [x])[..|s.fates|] == s.accepted[..|s.fates|];
    assert (s.accepted + [x])[|s.fates|..] == s.accepted[|s.fates|..] + [x];
  }

  /** The oldest queued element leaves the queue. */
  lemma FrontLeaves<T>(s: Shared<T>, fate: bool)
    requires |s.fates| + |s.q| == |s.accepted| && s.accepted[|s.fates|..] == s.q && s.q != []
    ensures var done, fates := |s.fates| + 1, s.fates + [fate];
      && s.accepted[done..] == s.q[1..]
      && Picked(s.accepted[..done], fates) == Picked(s.accepted[..|s.fates|], s.fates) + (if fate then [s.q[0]] else [])
      && Count(fates, false) == Count(s.fates, false) + if fate then 0 else 1
  {
    var n := |s.fates|;
    assert s.q[0] == s.accepted[n];
    assert s.accepted[..n + 1][..n] == s.accepted[..n] && (s.fates + [fate])[..n] == s.fates;
  }

  lemma PoppedKeeps<T>(cap: nat, s: Shared<T>)
    requires IsFifo(cap, s)
    ensures IsFifo(cap, Popped(s))
  {
    hide Picked, Count;
    if s.q != [] { FrontLeaves(s, true); }
  }

  lemma DropFrontKeeps<T>(cap: nat, s: Shared<T>)
    requires IsFifo(cap, s) && s.q != []
    ensures IsFifo(cap, DropFront(s))
  {
    hide Picked, Count;
    FrontLeaves(s, false);
  }

  lemma {:induction false} ClearedKeeps<T>(cap: nat, s: Shared<T>)
    requires IsFifo(cap, s)
    ensures IsFifo(cap, Cleared(s))
    decreases |s.q|
  {
    hide Picked, Count;
    if s.q == [] {
      assert Cleared(s) == s;
    } else {
      DropFrontKeeps(cap, s);
      ClearedKeeps(cap, DropFront(s));
      assert [false] + seq(|s.q| - 1, _ => false) == seq(|s.q|, _ => false);
      assert Cleared(DropFront(s)).fates == Cleared(s).fates;
      assert Cleared(DropFront(s)) == Cleared(s);
    }
  }

  /** Clearing empties the queue: every element queued has become a dropped one. */
  lemma ClearedIsEmpty<T>(cap: nat, s: Shared<T>, i: nat)
    requires IsFifo(cap, s) && i < |s.accepted|
    ensures var r := Cleared(s);
      && r.q == [] && r.dropped == s.dropped + |s.q|
      && r.accepted == s.accepted && r.popped == s.popped && r.closed == s.closed && r.peak == s.peak
      && |r.fates| == |s.accepted| && r.fates[i] == (i < |s.fates| && s.fates[i])
  {
    hide Picked, Count;
  }

  lemma ForcePushedKeeps<T>(cap: nat, s: Shared<T>, x: T)
    requires IsFifo(cap, s) && cap > 0
    ensures IsFifo(cap, ForcePushed(cap, s, x))
  {
    hide IsFifo, DropFront, Enqueue;
    SizeIsBounded(cap, s);
    if !s.closed {
      if |s.q| >= cap {
        DropFrontKeeps(cap, s);
        DropFrontSize(s);
        EnqueueKeeps(cap, DropFront(s), x);
      } else {
        EnqueueKeeps(cap, s, x);
      }
    }
  }

  lemma SizeIsBounded<T>(cap: nat, s: Shared<T>)
    requires IsFifo(cap, s)
    ensures |s.q| <= s.peak <= cap
  {
  }

  lemma DropFrontSize<T>(s: Shared<T>)
    requires s.q != []
    ensures |DropFront(s).q| == |s.q| - 1
  {
  }

  /** Every accepted element is exactly once popped, dropped or queued: element `i` is still queued, at its place
      in acceptance order; or was popped, after exactly the older ones that were popped; or was dropped. */
  lemma {:induction false} EachExactlyOnce<T>(cap: nat, s: Shared<T>, i: nat)
    requires IsFifo(cap, s) && i < |s.accepted|
    ensures i >= |s.fates| ==> s.q[i - |s.fates|] == s.accepted[i]
    ensures i < |s.fates| && s.fates[i] ==>
      Count(s.fates[..i], true) < |s.popped| && s.popped[Count(s.fates[..i], true)] == s.accepted[i]
    ensures |s.popped| + s.dropped + |s.q| == |s.accepted|
  {
    CountsAddUp(s.fates);
    if i < |s.fates| && s.fates[i] {
      var n := |s.fates|;
      PickedAt(s.accepted[..n], s.fates, i);
    }
  }

  lemma {:induction false} CountsAddUp(fates: seq<bool>)
    ensures Count(fates, true) + Count(fates, false) == |fates|
  {
    if fates != [] { CountsAddUp(fates[..|fates| - 1]); }
  }

  lemma {:induction false} PickedAt<T>(xs: seq<T>, fates: seq<bool>, i: nat)
    requires |xs| == |fates| && i < |xs| && fates[i]
    ensures Count(fates[..i], true) < |Picked(xs, fates)| && Picked(xs, fates)[Count(fates[..i], true)] == xs[i]
    decreases |xs|
  {
    var n := |xs| - 1;
    if i < n {
      PickedAt(xs[..n], fates[..n], i);
      assert fates[..n][..i] == fates[..i];
    }
  }

  class BoundedQueue<T> {
    const cap: nat
    var q: seq<T>
    var peak: nat
    var dropped: nat
    var closed: bool
    ghost var accepted: seq<T>
    ghost var fates: seq<bool>
    ghost var popped: seq<T>

    ghost function Abs(): Shared<T>
      reads this
    {
      Shared(q, peak, dropped, closed, accepted, fates, popped)
    }

    ghost predicate Valid()
      reads this
    {
      cap > 0 && IsFifo(cap, Abs())
    }

    constructor (cap: nat)
      requires cap > 0
      ensures Valid() && Abs() == Fresh() && this.cap == cap
      ensures q == [] && peak == 0 && dropped == 0 && !closed
    {
      this.cap := cap;
      q, peak, dropped, closed := [], 0, 0, false;
      accepted, fates, popped := [], [], [];
    }

    /** `push` from the moment its wait for room is over. */
    method PushAwake(x: T) returns (ok: bool)
      requires Valid() && (|q| < cap || closed)
      modifies this
      ensures Valid() && Abs() == Pushed(old(Abs()), x) && ok == !old(closed)
      ensures q == (if ok then old(q) + [x] else old(q)) && peak == Max(old(peak), |q|) && dropped == old(dropped)
    {
      if closed { return false; }
      EnqueueLocked(x);
      ok := true;
    }

    method TryPush(x: T) returns (ok: bool)
      requires Valid()
      modifies this
      ensures Valid() && Abs() == TryPushed(cap, old(Abs()), x) && ok == (!old(closed) && |old(q)| < cap)
      ensures q == (if ok then old(q) + [x] else old(q)) && peak == Max(old(peak), |q|) && dropped == old(dropped)
    {
      if closed || |q| >= cap { return false; }
      EnqueueLocked(x);
      ok := true;
    }

    method ForcePush(x: T) returns (ok: bool)
      requires Valid()
      modifies this
      ensures Valid() && Abs() == ForcePushed(cap, old(Abs()), x) && ok == !old(closed)
      ensures !ok ==> q == old(q) && dropped == old(dropped)
      ensures ok && |old(q)| < cap ==> q == old(q) + [x] && dropped == old(dropped)
      ensures ok && |old(q)| == cap ==> q == old(q)[1..] + [x] && dropped == old(dropped) + 1
      ensures peak == Max(old(peak), |q|)
    {
      hide IsFifo;
      SizeIsBounded(cap, Abs());
      if closed { return false; }
      if |q| >= cap { DropOldest(); }
      EnqueueLocked(x);
      ok := true;
    }

    method DropOldest()
      requires Valid() && q != []
      modifies this
      ensures Valid() && Abs() == DropFront(old(Abs()))
    {
      DropFrontKeeps(cap, Abs());
      hide IsFifo;
      q := q[1..];
      dropped := dropped + 1;
      fates := fates + [false];
    }

    method EnqueueLocked(x: T)
      requires Valid() && |q| < cap
      modifies this
      ensures Valid() && Abs() == Enqueue(old(Abs()), x)
    {
      hide IsFifo;
      EnqueueKeeps(cap, Abs(), x);
      q := q + [x];
      if |q| > peak { peak := |q|; }
      accepted := accepted + [x];
    }

    /** `pop` and `popFor` from the moment their wait is over. */
    method PopAwake(before: T) returns (ok: bool, out: T)
      requires Valid()
      modifies this
      ensures Valid() && Abs() == Popped(old(Abs())) && ok == (old(q) != [])
      ensures out == if ok then old(q)[0] else before
      ensures q == (if ok then old(q)[1..] else []) && dropped == old(dropped) && peak == old(peak)
    {
      hide IsFifo;
      if q == [] { return false, before; }
      PoppedKeeps(cap, Abs());
      out := q[0];
      q := q[1..];
      fates := fates + [true];
      popped := popped + [out];
      ok := true;
    }

    method Close()
      requires Valid()
      modifies this
      ensures Valid() && Abs() == Closed(old(Abs())) && closed && q == old(q)
    {
      closed := true;
    }

    method Clear()
      requires Valid()
      modifies this
      ensures Valid() && Abs() == Cleared(old(Abs()))
      ensures q == [] && dropped == old(dropped) + |old(q)| && closed == old(closed) && peak == old(peak)
    {
      hide IsFifo;
      ClearedKeeps(cap, Abs());
      dropped := dropped + |q|;
      fates := fates + seq(|q|, _ => false);
      q := [];
    }
  }
}
