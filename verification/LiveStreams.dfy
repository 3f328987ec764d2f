/**
 When the comparisons of the assembler are always meaningful: in a live stream, however
 long and however often its 32-bit numbers wrap, in which no arriving frame is far
 before or after the newest one seen.
 */
module LiveStreams {
  import opened Basics
  import opened Cyclic
  import opened FrameAssembler
  import opened FecRecovery
  import opened Newest
  import opened Packet
  import opened Packetizer
  import opened Reassembly
  import AR = AssemblerRuns
  import E = EndToEnd
  import FD = FecDecoder

  ghost predicate IsTop(s: set<int>, top: int) {
    top in s && forall y :: y in s ==> y <= top
  }

  /** `x` is at most `d` before or after the highest of `s`, if there is one. */
  ghost predicate Steady(s: set<int>, x: int, d: nat) {
    forall top :: IsTop(s, top) ==> top - d <= x <= top + d
  }

  /** Each arriving frame is that close to the newest frame seen. */
  ghost predicate IsLive(stream: seq<Sent>, items: seq<Item>, d: nat)
    requires ValidItems(stream, items)
  {
    forall n :: 0 <= n < |items| ==> Steady(Numbers(stream, items[..n]), Number(stream[items[n].frame]), d)
  }

  // ----- Neighbours are close -----

  /** Each number but the highest has another one at most `d` above it. */
  ghost predicate Dense(s: set<int>, d: nat) {
    forall y :: y in s ==> IsTop(s, y) || exists z :: z in s && y < z <= y + d
  }

  lemma TopExists(s: set<int>) returns (top: int)
    requires |s| != 0
    ensures IsTop(s, top)
    decreases |s|
  {
    var a := AnElement(s);
    if |s - {a}| == 0 {
      top := a;
      forall y | y in s
        ensures y == a
      {
        if y != a { SubsetSmaller({y}, s - {a}); }
      }
    } else {
      var b := TopExists(s - {a});
      top := Max(a, b);
      assert forall y :: y in s ==> y == a || y in s - {a};
    }
  }

  lemma DenseGrows(s: set<int>, x: int, d: nat)
    requires Dense(s, d) && Steady(s, x, d)
    ensures Dense(s + {x}, d)
  {
    var t := s + {x};
    if |s| != 0 {
      var top := TopExists(s);
      forall y | y in t
        ensures IsTop(t, y) || exists z :: z in t && y < z <= y + d
      {
        if y == top {
          if x > top { assert x in t && y < x <= y + d; }
        } else if y in s {
          assert !IsTop(s, y);
          var z :| z in s && y < z <= y + d;
          assert z in t;
        } else if x < top {
          assert top in t && y < top <= y + d;
        }
      }
    } else {
      assert t == {x};
    }
  }

  /** So a number with few above it is not far below the highest. */
  lemma {:induction false} NotFarBelow(s: set<int>, d: nat, top: int, x: int)
    requires Dense(s, d) && IsTop(s, top) && x in s
    ensures top - x <= |Above(s, x)| * d
    decreases |Above(s, x)|
  {
    hide Above;
    if x != top {
      var z :| z in s && x < z <= x + d;
      FewerAbove(s, x, z);
      NotFarBelow(s, d, top, z);
      Times(|Above(s, z)|, |Above(s, x)|, d);
    } else {
      Times(0, |Above(s, x)|, d);
    }
  }

  lemma FewerAbove(s: set<int>, x: int, z: int)
    requires z in s && x < z
    ensures |Above(s, z)| < |Above(s, x)|
  {
    SubsetSmaller(Above(s, z) + {z}, Above(s, x));
  }

  lemma {:induction false} Times(a: nat, b: nat, d: nat)
    requires a <= b
    ensures 0 <= a * d <= b * d
    ensures a < b ==> a * d + d <= b * d
    decreases b
  {
    if a < b {
      Times(a, b - 1, d);
      OneMoreTime(b, d);
    }
  }

  lemma OneMoreTime(b: nat, d: nat)
    requires b > 0
    ensures b * d == (b - 1) * d + d
  {
  }

  // ----- Entries and watermark are close -----

  /** The watermark is at most `max * d` below the newest frame seen. */
  ghost predicate MarkIsNear(t: Table<int>, seen: set<int>, max: nat, d: nat) {
    t.retired.Some? ==> exists top :: IsTop(seen, top) && top - max * d <= t.retired.value <= top
  }

  lemma RetiredAfter(t: Table<int>, max: nat, a: AR.Arrival)
    requires ValidTable(t) && ValidFragment(a.fragment)
    ensures AR.IdealStep(t, max, a).table.retired
         == if BranchOf(AR.Later, t, max, a.id, AR.Least(t.pending.Keys)).Displaces? then Some(AR.Least(t.pending.Keys)) else t.retired
  {
    hide Fill, Join, AR.Least;
  }

  lemma TopMoves(s: set<int>, top: int, x: int)
    requires IsTop(s, top)
    ensures IsTop(s + {x}, Max(top, x))
  {
  }

  /** A displacement retires one of the newest frames; nothing else moves the watermark, or the highest number of
      a full table. */
  lemma MarkStaysNear(t: Table<int>, max: nat, seen: set<int>, d: nat, a: AR.Arrival)
    requires ValidTable(t) && ValidFragment(a.fragment) && max >= 1
    requires IsNewest(seen, t.pending.Keys, max) && (t.retired.Some? ==> |t.pending| == max)
    requires Dense(seen, d) && Steady(seen, a.id, d) && MarkIsNear(t, seen, max, d)
    ensures MarkIsNear(AR.IdealStep(t, max, a).table, seen + {a.id}, max, d)
  {
    hide Above, Dense, IsNewest, AR.IdealStep, AR.Least;
    var keys := t.pending.Keys;
    var least := AR.Least(keys);
    assert |keys| == |t.pending|;
    RetiredAfter(t, max, a);
    KeysWereSeen(seen, keys, max);
    if BranchOf(AR.Later, t, max, a.id, least).Displaces? {
      AR.LeastIs(keys);
      SubsetSmaller(keys, seen);
      var top := TopExists(seen);
      NewestByCount(seen, keys, max, least);
      NotFarBelow(seen, d, top, least);
      Times(|Above(seen, least)|, max, d);
      TopMoves(seen, top, a.id);
    } else if t.retired.Some? {
      AR.LeastIs(keys);
      var top :| IsTop(seen, top) && top - max * d <= t.retired.value <= top;
      assert a.id <= top;
      TopMoves(seen, top, a.id);
    }
  }

  lemma KeysWereSeen(seen: set<int>, keys: set<int>, max: nat)
    requires IsNewest(seen, keys, max)
    ensures keys <= seen
  {
  }

  lemma {:induction false} LiveKeepsMark(max: nat, stream: seq<Sent>, items: seq<Item>, d: nat)
    requires ValidStream(stream) && ValidItems(stream, items) && max >= 1 && IsLive(stream, items, d)
    ensures Dense(Numbers(stream, items), d)
    ensures MarkIsNear(AR.Ideal(max, Arrivals(stream, items)), Numbers(stream, items), max, d)
    decreases |items|
  {
    hide *;
    if items == [] {
      NothingIsNear(max, stream, d);
    } else {
      var n := |items| - 1;
      var front, x := items[..n], items[n];
      OneMore(max, stream, items);
      LivePrefix(stream, items, d, n);
      LiveKeepsMark(max, stream, front, d);
      RunKeepsRows(max, stream, front);
      RowsAreNewest(AR.Ideal(max, Arrivals(stream, front)), stream, max, Numbers(stream, front), Gots(max, stream, front));
      DenseGrows(Numbers(stream, front), Number(stream[x.frame]), d);
      MarkStaysNear(AR.Ideal(max, Arrivals(stream, front)), max, Numbers(stream, front), d,
                    AR.Arrival(Number(stream[x.frame]), AsItsFragment(stream, x)));
    }
  }

  lemma NothingIsNear(max: nat, stream: seq<Sent>, d: nat)
    requires ValidStream(stream)
    ensures Dense(Numbers(stream, []), d) && MarkIsNear(AR.Ideal(max, Arrivals(stream, [])), Numbers(stream, []), max, d)
  {
  }

  lemma LivePrefix(stream: seq<Sent>, items: seq<Item>, d: nat, n: nat)
    requires ValidItems(stream, items) && IsLive(stream, items, d) && n <= |items|
    ensures ValidItems(stream, items[..n]) && IsLive(stream, items[..n], d)
    ensures n < |items| ==>
      items[n].frame < |stream| && Steady(Numbers(stream, items[..n]), Number(stream[items[n].frame]), d)
  {
    hide Steady, Numbers, Number, FragmentCount;
    assert forall m :: 0 <= m <= n ==> items[..n][..m] == items[..m];
  }

  /** Whatever the table compares a steady number against is within half a turn of it. */
  lemma SteadyIsNear(t: Table<int>, max: nat, seen: set<int>, x: int, d: nat)
    requires max >= 1 && (max + 1) * d < HALF
    requires IsNewest(seen, t.pending.Keys, max) && Dense(seen, d) && Steady(seen, x, d) && MarkIsNear(t, seen, max, d)
    ensures AR.NearAll(x, AR.Ids(t))
  {
    hide Above, Dense, IsNewest;
    var keys := t.pending.Keys;
    KeysWereSeen(seen, keys, max);
    Times(max, max + 1, d);
    forall w | w in AR.Ids(t)
      ensures Near(x, w)
    {
      if w in keys {
        SubsetSmaller({w}, seen);
        var top := TopExists(seen);
        NewestByCount(seen, keys, max, w);
        NotFarBelow(seen, d, top, w);
        Times(|Above(seen, w)|, max, d);
      }
    }
  }

  lemma {:induction false} ArrivalsPrefix(stream: seq<Sent>, items: seq<Item>, n: nat)
    requires ValidStream(stream) && ValidItems(stream, items) && n <= |items|
    ensures Arrivals(stream, items)[..n] == Arrivals(stream, items[..n])
    decreases |items|
  {
    hide AsItsFragment, Number, FragmentCount;
    if n < |items| {
      ArrivalsPrefix(stream, items[..|items| - 1], n);
      assert items[..|items| - 1][..n] == items[..n];
    } else {
      assert items[..n] == items;
    }
  }

  /** Fragments of a live stream stay in the window. */
  lemma LiveStaysInWindow(max: nat, stream: seq<Sent>, items: seq<Item>, d: nat)
    requires ValidStream(stream) && ValidItems(stream, items) && max >= 1 && (max + 1) * d < HALF
    requires IsLive(stream, items, d)
    ensures InWindow(max, stream, items)
  {
    var as_ := Arrivals(stream, items);
    forall n | 0 <= n < |as_|
      ensures AR.NearAll(as_[n].id, AR.Ids(AR.Ideal(max, as_[..n])))
    {
      LiveHere(max, stream, items, d, n);
    }
  }

  lemma LiveHere(max: nat, stream: seq<Sent>, items: seq<Item>, d: nat, n: nat)
    requires ValidStream(stream) && ValidItems(stream, items) && max >= 1 && (max + 1) * d < HALF
    requires IsLive(stream, items, d) && n < |items|
    ensures AR.NearAll(Arrivals(stream, items)[n].id, AR.Ids(AR.Ideal(max, Arrivals(stream, items)[..n])))
  {
    hide *;
    var front := items[..n];
    LivePrefix(stream, items, d, n);
    LiveKeepsMark(max, stream, front, d);
    RunKeepsRows(max, stream, front);
    RowsAreNewest(AR.Ideal(max, Arrivals(stream, front)), stream, max, Numbers(stream, front), Gots(max, stream, front));
    ArrivalsPrefix(stream, items, n);
    ArrivalsAreTheStreams(stream, items, n);
    SteadyIsNear(AR.Ideal(max, Arrivals(stream, front)), max, Numbers(stream, front), Number(stream[items[n].frame]), d);
  }

  // ----- From the sender to the receiver -----

  function FrameOf(a: E.Arrival): nat {
    match a case Data(x) => x.frame case Fec(k, _, _, _, _, _) => k
  }

  /** Each arriving packet, DATA or FEC, belongs to a frame at most `d` before or after the newest of which DATA
      packets have arrived. */
  ghost predicate IsLiveRun(stream: seq<Sent>, arrivals: seq<E.Arrival>, d: nat)
    requires E.ValidArrivals(stream, arrivals)
  {
    forall n :: 0 <= n < |arrivals| ==>
      FrameOf(arrivals[n]) < |stream| && Steady(E.Seen(stream, arrivals[..n]), Number(stream[FrameOf(arrivals[n])]), d)
  }

  lemma {:induction false} LiveRunIsLive(cap: nat, max: nat, stream: seq<Sent>, arrivals: seq<E.Arrival>, d: nat)
    requires ValidStream(stream) && E.SeqsApart(stream) && E.ValidArrivals(stream, arrivals) && IsLiveRun(stream, arrivals, d)
    ensures IsLive(stream, E.Reached(cap, max, stream, arrivals), d)
    decreases |arrivals|
  {
    hide *;
    if arrivals == [] {
      E.StartsIdle(cap, max, stream);
      NothingIsLive(stream, d);
    } else {
      var n := |arrivals| - 1;
      E.OneMoreArrival(cap, max, stream, arrivals);
      LiveRunPrefix(stream, arrivals, d);
      LiveRunIsLive(cap, max, stream, arrivals[..n], d);
      E.SeenIsReached(cap, max, stream, arrivals[..n]);
      var recent := E.Run(cap, max, stream, arrivals[..n]).recent;
      BringsItsFrame(recent, cap, stream, arrivals[n]);
      OneMoreLive(stream, E.Reached(cap, max, stream, arrivals[..n]), E.Brings(recent, cap, stream, arrivals[n]), d);
    }
  }

  lemma NothingIsLive(stream: seq<Sent>, d: nat)
    ensures ValidItems(stream, []) && IsLive(stream, [], d)
  {
  }

  lemma LiveRunPrefix(stream: seq<Sent>, arrivals: seq<E.Arrival>, d: nat)
    requires E.ValidArrivals(stream, arrivals) && IsLiveRun(stream, arrivals, d) && arrivals != []
    ensures var n := |arrivals| - 1;
      && E.ValidArrivals(stream, arrivals[..n]) && IsLiveRun(stream, arrivals[..n], d)
      && FrameOf(arrivals[n]) < |stream|
      && Steady(E.Seen(stream, arrivals[..n]), Number(stream[FrameOf(arrivals[n])]), d)
  {
    hide Steady, E.Seen, E.ValidArrivals, E.ValidArrival, Number, FrameOf;
    E.OneMoreSeen(stream, arrivals);
    assert forall m :: 0 <= m < |arrivals| ==> arrivals[..|arrivals| - 1][..m] == arrivals[..m];
  }

  lemma BringsItsFrame(recent: seq<Bytes>, cap: nat, stream: seq<Sent>, a: E.Arrival)
    requires ValidStream(stream) && E.ValidArrival(stream, a)
    ensures var more := E.Brings(recent, cap, stream, a);
      |more| <= 1 && (more != [] ==> more[0].frame == FrameOf(a))
  {
    hide FD.Decide;
  }

  lemma OneMoreLive(stream: seq<Sent>, items: seq<Item>, more: seq<Item>, d: nat)
    requires ValidItems(stream, items) && ValidItems(stream, more) && ValidItems(stream, items + more) && |more| <= 1
    requires IsLive(stream, items, d)
    requires more != [] ==>
      more[0].frame < |stream| && Steady(Numbers(stream, items), Number(stream[more[0].frame]), d)
    ensures IsLive(stream, items + more, d)
  {
    hide Steady, Numbers, Number, FragmentCount;
    var all := items + more;
    assert forall n :: 0 <= n <= |items| ==> all[..n] == items[..n];
    assert items[..|items|] == items;
  }

  /** End-to-end repair of a live stream. The window condition of `EndToEnd.DeliversRepaired` holds for as long as
      packets keep arriving, through any number of wraps of the 32-bit frame numbers, if every packet belongs to a
      frame at most `d` before or after the newest one seen, with (max + 1) * d below half a turn. */
  lemma LiveStreamDelivers(cap: nat, max: nat, stream: seq<Sent>, arrivals: seq<E.Arrival>, d: nat) returns (order: seq<nat>)
    requires ValidStream(stream) && E.SeqsApart(stream) && E.ValidArrivals(stream, arrivals)
    requires max >= 1 && (max + 1) * d < HALF && IsLiveRun(stream, arrivals, d)
    ensures forall k :: k in order ==> k < |stream|
    ensures forall a, b :: 0 <= a < b < |order| ==> order[a] != order[b]
    ensures E.Run(cap, max, stream, arrivals).assembler.table.ready == Wholes(stream, order)
    ensures forall k :: 0 <= k < |stream| ==> (k in order <==> E.Repaired(cap, max, stream, arrivals, k))
  {
    hide *;
    LiveRunIsLive(cap, max, stream, arrivals, d);
    LiveStaysInWindow(max, stream, E.Reached(cap, max, stream, arrivals), d);
    Stays(cap, max, stream, arrivals);
    order := E.DeliversRepaired(cap, max, stream, arrivals);
  }

  lemma Stays(cap: nat, max: nat, stream: seq<Sent>, arrivals: seq<E.Arrival>)
    requires ValidStream(stream) && E.ValidArrivals(stream, arrivals)
    requires InWindow(max, stream, E.Reached(cap, max, stream, arrivals))
    ensures E.StaysInWindow(cap, max, stream, arrivals)
  {
    hide InWindow, E.Reached;
  }
}
