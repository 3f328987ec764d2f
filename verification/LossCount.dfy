/**
 Counting lost packets from the sequence-number span, as Appendix A.3 of RFC 3550
 does (modules/transport/FrameAssembler.cpp:14-21, 66-67, 158-169).
 */
module LossCount {
  import opened Basics
  import opened Cyclic
  import opened FrameAssembler

  /** The counters after accepted packets with (unbounded) sequence numbers `xs` arrived. */
  function Track(xs: seq<int>): (s: Stats)
    ensures s.received == |xs|
  {
    if xs == [] then EMPTY.stats
    else
      var before := Track(xs[..|xs| - 1]);
      TrackSeq(before.(received := before.received + 1), Wrap(xs[|xs| - 1]))
  }

  ghost predicate WithinHalfTurn(xs: seq<int>) {
    forall i, j :: 0 <= i < |xs| && 0 <= j < |xs| ==> Near(xs[i], xs[j])
  }

  function Highest(xs: seq<int>): (h: int)
    requires xs != []
    ensures h in xs && forall i :: 0 <= i < |xs| ==> xs[i] <= h
  {
    if |xs| == 1 then xs[0]
    else
      var before, last := Highest(xs[..|xs| - 1]), xs[|xs| - 1];
      assert forall i :: 0 <= i < |xs| - 1 ==> xs[i] == xs[..|xs| - 1][i];
      if last > before then last else before
  }

  lemma {:induction false} TrackKnowsSpan(xs: seq<int>)
    requires xs != [] && WithinHalfTurn(xs)
    ensures var s := Track(xs); s.started && s.baseSeq == Wrap(xs[0]) && s.highestSeq == Wrap(Highest(xs))
    decreases |xs|
  {
    hide Wrap, SeqNewer;
    if |xs| == 1 {
      assert xs[..0] == [];
    } else {
      var front, last := xs[..|xs| - 1], xs[|xs| - 1];
      assert forall i :: 0 <= i < |front| ==> front[i] == xs[i];
      TrackKnowsSpan(front);
      var i :| 0 <= i < |front| && front[i] == Highest(front);
      NewerMeansGreater(last, Highest(front));
    }
  }

  ghost function Span(lo: int, hi: int): (s: set<int>)
    requires lo <= hi + 1
    ensures forall y :: y in s <==> lo <= y <= hi
    ensures |s| == hi - lo + 1
    decreases hi - lo + 1
  {
    if lo > hi then {} else Span(lo, hi - 1) + {hi}
  }

  /** The numbers that did arrive, at or after the first one. */
  ghost function Arrived(xs: seq<int>): set<int>
    requires xs != []
  {
    set x | x in xs && x >= xs[0]
  }

  /** The numbers between the first and the highest that never arrived. */
  ghost function Missing(xs: seq<int>): set<int>
    requires xs != []
  {
    Span(xs[0], Highest(xs)) - Arrived(xs)
  }

  /** How many arrivals were repeats, or older than the first. */
  ghost function Surplus(xs: seq<int>): int
    requires xs != []
  {
    |xs| - |Arrived(xs)|
  }

  lemma {:induction false} ElementsAtMost(xs: seq<int>)
    ensures |set x | x in xs| <= |xs|
    decreases |xs|
  {
    if xs != [] {
      ElementsAtMost(xs[1..]);
      assert (set x | x in xs) == (set x | x in xs[1..]) + {xs[0]};
    }
  }

  /** For every run of arrivals within half a turn, in any order: the reported loss is the number of
      missing packets less the repeated and early ones, never below zero. */
  lemma LostIsMissingLessSurplus(xs: seq<int>)
    requires xs != [] && WithinHalfTurn(xs)
    ensures Surplus(xs) >= 0
    ensures Track(xs).ExpectedPackets() == Highest(xs) - xs[0] + 1
    ensures Track(xs).PacketsLost() == if |Missing(xs)| >= Surplus(xs) then |Missing(xs)| - Surplus(xs) else 0
  {
    hide Wrap, Track, Highest;
    TrackKnowsSpan(xs);
    var lo, hi := xs[0], Highest(xs);
    assert lo <= hi;
    var i :| 0 <= i < |xs| && xs[i] == hi;
    assert Near(hi, lo);
    SubWrapped(hi, lo);
    assert Arrived(xs) <= Span(lo, hi);
    SubsetSmaller(Arrived(xs), Span(lo, hi));
    ElementsAtMost(xs);
    SubsetSmaller(Arrived(xs), set x | x in xs);
  }

  /** Before the first packet nothing is expected and nothing lost; after it, the first is all that is expected. */
  lemma NothingLostYet(x: int)
    ensures Track([]).ExpectedPackets() == 0 && Track([]).PacketsLost() == 0
    ensures Track([x]).ExpectedPackets() == 1 && Track([x]).PacketsLost() == 0
  {
    assert [x][..0] == [];
  }

  /** The count is exact precisely when nothing is missing or nothing was repeated or early. */
  lemma LostIsExactWhen(xs: seq<int>)
    requires xs != [] && WithinHalfTurn(xs)
    ensures Track(xs).PacketsLost() == |Missing(xs)| <==> Missing(xs) == {} || Surplus(xs) == 0
  {
    hide Track, Missing;
    LostIsMissingLessSurplus(xs);
  }

  /** In particular for distinct numbers none of which precedes the first. */
  lemma {:induction false} DistinctHaveNoSurplus(xs: seq<int>)
    requires xs != []
    requires forall i, j :: 0 <= i < j < |xs| ==> xs[i] != xs[j]
    requires forall i :: 0 <= i < |xs| ==> xs[i] >= xs[0]
    ensures Surplus(xs) == 0
    decreases |xs|
  {
    hide Arrived;
    OneMoreArrived(xs);
    if |xs| > 1 {
      var front := xs[..|xs| - 1];
      assert forall i :: 0 <= i < |front| ==> front[i] == xs[i];
      DistinctHaveNoSurplus(front);
    }
  }

  lemma OneMoreArrived(xs: seq<int>)
    requires xs != [] && xs[|xs| - 1] >= xs[0]
    requires forall i :: 0 <= i < |xs| - 1 ==> xs[i] != xs[|xs| - 1]
    ensures |Arrived(xs)| == 1 + if |xs| == 1 then 0 else |Arrived(xs[..|xs| - 1])|
  {
    var front, last := xs[..|xs| - 1], xs[|xs| - 1];
    if front == [] {
      assert Arrived(xs) == {last};
    } else {
      assert forall i :: 0 <= i < |front| ==> front[i] == xs[i];
      assert Arrived(xs) == Arrived(front) + {last};
      assert last !in front;
    }
  }

  /** A repeated packet hides a lost one: numbers 0, 2, 2 report no loss. */
  lemma RepeatHidesLoss()
    ensures Track([0, 2, 2]).PacketsLost() == 0 && Missing([0, 2, 2]) == {1}
  {
    hide Highest, SeqNewer;
    var xs := [0, 2, 2];
    assert xs[..2] == [0, 2] && [0, 2][..1] == [0] && [0][..0] == [];
    assert SeqNewer(2, 0) && !SeqNewer(2, 2) by { NewerMeansGreater(2, 0); NewerMeansGreater(2, 2); }
    assert Track([0]).highestSeq == 0;
    assert Track([0, 2]).highestSeq == 2;
    assert Track(xs).highestSeq == 2;
    HighestIsTwo(xs);
  }

  lemma HighestIsTwo(xs: seq<int>)
    requires xs == [0, 2, 2]
    ensures Missing(xs) == {1}
  {
    hide Highest;
    assert xs[0] == 0 && xs[1] == 2 && xs[2] == 2;
  }
}
