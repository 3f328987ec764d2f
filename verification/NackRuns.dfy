/**
 The gap tracker over whole runs, seen through unbounded sequence numbers.

 A `View` records what really happened since the last baseline: what was received,
 what was given up for want of requests, when each number was asked for. `Tracks`
 says the 32-bit table agrees with it exactly, and every step keeps it.
 */
module NackRuns {
  import opened Basics
  import opened Cyclic
  import opened NackTracker
  import NackCodec

  datatype Event = Arrive(x: int, fragCount: u16, isKey: bool) | Collect | Reset

  /** One request for a number: the highest number then, and the reorder tolerance then. */
  datatype Emission = Emission(top: int, tolerance: int)

  /** `registered`, `closedUnasked` and `discarded` count gaps: noticed, filled before any request,
      forgotten at a discontinuity or reset. */
  datatype View = View(started: bool, base: int, top: int, received: set<int>, retired: set<int>,
                       asked: map<int, seq<Emission>>, reorder: int,
                       registered: nat, closedUnasked: nat, discarded: nat)

  const BLANK: View := View(false, 0, 0, {}, {}, map[], 0, 0, 0, 0)

  /** The unbounded number at or before `top`, less than a turn away, that wraps to `k`. */
  function Unwrap(top: int, k: u32): int {
    top - Sub(Wrap(top), k)
  }

  function Asked(v: View, x: int): seq<Emission> {
    if x in v.asked then v.asked[x] else []
  }

  /** Missing, still of interest: what the gap table is meant to be. */
  predicate IsOpen(c: Config, v: View, x: int) {
    v.started && v.base < x < v.top && v.top - x < c.window && x !in v.received && x !in v.retired
  }

  function OpenSet(c: Config, v: View): set<int> {
    set x | v.base < x < v.top && IsOpen(c, v, x)
  }

  /** Time to ask for `x`: old enough, not asked too often, not asked too recently. */
  predicate IsDue(c: Config, v: View, x: int) {
    var es := Asked(v, x);
    && IsOpen(c, v, x) && |es| < c.maxRequests && v.top - x >= v.reorder
    && (es == [] || v.top - es[|es| - 1].top >= v.reorder)
  }

  predicate IsExhausted(c: Config, v: View, x: int) {
    IsOpen(c, v, x) && |Asked(v, x)| + (if IsDue(c, v, x) then 1 else 0) >= c.maxRequests
  }

  // ----- The unbounded machine -----

  function AfterFirst(v: View, x: int): View {
    v.(started := true, base := x, top := x, received := {x}, retired := {}, asked := map[])
  }

  function AfterLate(c: Config, v: View, x: int): View {
    v.(received := v.received + {x},
       closedUnasked := v.closedUnasked + if IsOpen(c, v, x) && Asked(v, x) == [] then 1 else 0)
  }

  function AfterJump(c: Config, v: View, x: int): View {
    v.(base := x, top := x, received := {x}, retired := {}, asked := map[], discarded := v.discarded + |OpenSet(c, v)|)
  }

  function AfterForward(v: View, x: int): View
    requires x > v.top
  {
    v.(top := x, received := v.received + {x}, registered := v.registered + (x - v.top - 1))
  }

  function AfterCollect(c: Config, v: View): View {
    v.(retired := v.retired + (set x | x in OpenSet(c, v) && IsExhausted(c, v, x)),
       asked := map x | x in v.asked.Keys + OpenSet(c, v) && (x in v.asked || IsDue(c, v, x)) ::
         Asked(v, x) + if IsDue(c, v, x) then [Emission(v.top, v.reorder)] else [])
  }

  function AfterReset(c: Config, v: View): View {
    v.(started := false, reorder := 0, discarded := v.discarded + |OpenSet(c, v)|)
  }

  function ViewNext(c: Config, v: View, e: Event): View {
    match e
    case Arrive(x, fragCount, _) =>
      var v := v.(reorder := Tolerance(c, fragCount));
      if !v.started then AfterFirst(v, x)
      else if x <= v.top then AfterLate(c, v, x)
      else if x - v.top >= c.window then AfterJump(c, v, x)
      else AfterForward(v, x)
    case Collect => AfterCollect(c, v)
    case Reset => AfterReset(c, v)
  }

  /** The tracker's own step: it sees only the 32-bit number. */
  function Next(c: Config, s: State, e: Event): State {
    match e
    case Arrive(x, fragCount, isKey) => Arrived(c, s, Wrap(x), fragCount, isKey)
    case Collect => Collected(c, s)
    case Reset => START.(stats := s.stats.(pending := 0))
  }

  function After(c: Config, es: seq<Event>): State {
    if es == [] then START else Next(c, After(c, es[..|es| - 1]), es[|es| - 1])
  }

  function ViewAfter(c: Config, es: seq<Event>): View {
    if es == [] then BLANK else ViewNext(c, ViewAfter(c, es[..|es| - 1]), es[|es| - 1])
  }

  /** Every arrival lies within half a turn of the highest number before it. */
  ghost predicate WithinHalfATurn(c: Config, es: seq<Event>) {
    forall i :: 0 <= i < |es| && es[i].Arrive? && ViewAfter(c, es[..i]).started ==>
      -HALF <= es[i].x - ViewAfter(c, es[..i]).top < HALF
  }

  // ----- The invariant -----

  ghost predicate Aligned(s: State, v: View) {
    && Consistent(s) && s.hasBaseline == v.started && s.reorder == v.reorder
    && (v.started ==>
        && s.highest == Wrap(v.top) && v.base <= v.top && v.top in v.received
        && (forall x :: x in v.received ==> x <= v.top)
        && (forall x :: x in v.retired ==> x < v.top)
        && (forall x :: x in v.asked ==> x < v.top))
  }

  /** Never more requests than allowed, the first a full tolerance after `x`, each further one a
      full tolerance after the one before. */
  ghost predicate Paced(c: Config, x: int, es: seq<Emission>) {
    && |es| <= Max(0, c.maxRequests)
    && (es != [] ==> es[0].top - x >= es[0].tolerance)
    && forall i :: 0 < i < |es| ==> es[i].top - es[i - 1].top >= es[i].tolerance
  }

  /** The table's counters agree with the requests made. */
  ghost predicate Remembers(c: Config, g: Gap, es: seq<Emission>, x: int, top: int) {
    && g.requests == |es|
    && (es != [] ==> |es| < c.maxRequests && g.lastRequestAt == Wrap(es[|es| - 1].top) && x < es[|es| - 1].top <= top)
  }

  /** The table holds exactly the open numbers, each with its request history. */
  ghost predicate Entry(c: Config, s: State, v: View, k: u32) {
    var x := Unwrap(v.top, k);
    (k in s.gaps <==> IsOpen(c, v, x)) && (k in s.gaps ==> Remembers(c, s.gaps[k], Asked(v, x), x, v.top))
  }

  ghost predicate Entries(c: Config, s: State, v: View) {
    v.started ==> forall k: u32 :: Entry(c, s, v, k)
  }

  /** ... and what was retired had all the requests it is allowed. */
  ghost predicate Pacing(c: Config, v: View) {
    && (forall x :: x in v.asked ==> Paced(c, x, v.asked[x]))
    && (forall x :: x in v.retired ==> |Asked(v, x)| == Max(0, c.maxRequests))
  }

  /** Every registered gap is accounted for, exactly once. */
  ghost predicate Ledger(s: State, v: View) {
    && v.registered == v.closedUnasked + s.stats.recovered + s.stats.givenUp + s.stats.pending + v.discarded
    && s.stats.givenUp == s.stats.lostForReal
  }

  ghost predicate Tracks(c: Config, s: State, v: View) {
    Aligned(s, v) && Entries(c, s, v) && Pacing(c, v) && Ledger(s, v)
  }

  // ----- Wrapping back and forth -----

  lemma UnwrapWraps(top: int, k: u32)
    ensures Wrap(Unwrap(top, k)) == k && top - MOD < Unwrap(top, k) <= top
  {
    var a := Sub(Wrap(top), k);
    assert top - a == k + MOD * (top / MOD + (Wrap(top) - k) / MOD);
    ShiftModulo(k, -(top / MOD + (Wrap(top) - k) / MOD));
  }

  lemma UnwrapIs(top: int, x: int)
    requires top - MOD < x <= top
    ensures Unwrap(top, Wrap(x)) == x && Sub(Wrap(top), Wrap(x)) == top - x
  {
    SubWrapped(top, x);
  }

  /** Moving the highest number on does not change which number an entry stands for. */
  lemma UnwrapMoves(top: int, next: int, k: u32)
    requires top <= next && next - Unwrap(top, k) < MOD
    ensures Unwrap(next, k) == Unwrap(top, k)
  {
    UnwrapWraps(top, k);
    UnwrapIs(next, Unwrap(top, k));
  }

  // ----- Registering -----

  lemma {:induction false} RegisterHolds(gaps: map<u32, Gap>, highest: u32, n: nat, isKey: bool, k: u32)
    requires n < MOD
    ensures k in Register(gaps, highest, n, isKey) <==> k in gaps || 1 <= Sub(highest, k) <= n
    ensures k in gaps ==> Register(gaps, highest, n, isKey)[k] == gaps[k]
    ensures k !in gaps && k in Register(gaps, highest, n, isKey) ==> Register(gaps, highest, n, isKey)[k] == Gap(0, 0, isKey)
    decreases n
  {
    if n != 0 {
      var j := Add(highest, 0 - n);
      RegisterHolds(Emplace(gaps, j, isKey), highest, n - 1, isKey, k);
      BackIs(highest, n, k);
    }
  }

  lemma BackIs(highest: u32, n: nat, k: u32)
    requires 0 < n < MOD
    ensures k == Add(highest, 0 - n) <==> Sub(highest, k) == n
  {
    if Sub(highest, k) == n {
      var q := (highest - k) / MOD;
      assert highest - n == k - MOD * (0 - q);
      ShiftModulo(k, 0 - q);
    }
    if k == Add(highest, 0 - n) {
      var q := (highest - n) / MOD;
      assert highest - k == n - MOD * (0 - q);
      ShiftModulo(n, 0 - q);
    }
  }

  lemma {:induction false} RegisterSize(gaps: map<u32, Gap>, highest: u32, n: nat, isKey: bool)
    requires n < MOD && forall k :: k in gaps ==> !(1 <= Sub(highest, k) <= n)
    ensures |Register(gaps, highest, n, isKey)| == |gaps| + n
    decreases n
  {
    if n != 0 {
      var j := Add(highest, 0 - n);
      BackIs(highest, n, j);
      assert j !in gaps;
      RegisterSize(Emplace(gaps, j, isKey), highest, n - 1, isKey);
    }
  }

  lemma WithoutSize(gaps: map<u32, Gap>, ks: set<u32>)
    requires ks <= gaps.Keys
    ensures |Without(gaps, ks)| + |ks| == |gaps|
  {
    assert Without(gaps, ks).Keys == gaps.Keys - ks;
    assert gaps.Keys == (gaps.Keys - ks) + ks;
    assert |gaps.Keys| == |gaps|;
    assert |Without(gaps, ks).Keys| == |Without(gaps, ks)|;
  }

  // ----- One arrival -----

  /** The table has one entry for each open number. */
  lemma OneEntryEach(c: Config, s: State, v: View)
    requires Aligned(s, v) && Entries(c, s, v) && c.window <= HALF
    ensures |OpenSet(c, v)| == |s.gaps|
  {
    hide Wrap, Unwrap, Remembers;
    if v.started {
      forall k | k in s.gaps
        ensures Unwrap(v.top, k) in OpenSet(c, v)
      {
        assert Entry(c, s, v, k);
      }
      forall x | x in OpenSet(c, v)
        ensures Wrap(x) in s.gaps && Unwrap(v.top, Wrap(x)) == x
      {
        assert Entry(c, s, v, Wrap(x));
        UnwrapIs(v.top, x);
      }
      SameSize(v.top, s.gaps.Keys, OpenSet(c, v));
      assert |s.gaps| == |s.gaps.Keys|;
    } else {
      assert OpenSet(c, v) == {};
    }
  }

  lemma {:induction false} SameSize(top: int, ks: set<u32>, xs: set<int>)
    requires forall k :: k in ks ==> Unwrap(top, k) in xs
    requires forall x :: x in xs ==> Wrap(x) in ks && Unwrap(top, Wrap(x)) == x
    ensures |ks| == |xs|
  {
    hide Wrap, Unwrap;
    if |xs| == 0 {
      if k :| k in ks { assert Unwrap(top, k) in xs; }
      assert ks == {};
    } else {
      var x := AnElement(xs);
      forall k | k in ks - {Wrap(x)}
        ensures Unwrap(top, k) in xs - {x}
      {
        UnwrapWraps(top, k);
      }
      forall y | y in xs - {x}
        ensures Wrap(y) in ks - {Wrap(x)}
      {
      }
      SameSize(top, ks - {Wrap(x)}, xs - {x});
    }
  }

  /** With nothing between baseline and highest, nothing is open and nothing is in the table. */
  lemma NothingOpen(c: Config, s: State, v: View)
    requires v.base == v.top && s.gaps == map[]
    ensures Entries(c, s, v)
  {
  }

  lemma FirstTracks(c: Config, s: State, v: View, x: int)
    requires Tracks(c, s, v) && !v.started
    ensures Tracks(c, s.(highest := Wrap(x), hasBaseline := true), AfterFirst(v, x))
  {
    hide Wrap, Entries;
    NothingOpen(c, s.(highest := Wrap(x), hasBaseline := true), AfterFirst(v, x));
  }

  lemma LateEntry(c: Config, s: State, v: View, x: int, k: u32)
    requires Entry(c, s, v, k) && v.started && v.top - HALF <= x <= v.top && c.window <= HALF
    ensures Entry(c, Late(s, Wrap(x)), AfterLate(c, v, x), k)
  {
    UnwrapIs(v.top, x);
    UnwrapWraps(v.top, k);
    hide Sub, Remembers, Wrap, Unwrap;
  }

  lemma ClosedUnasked(c: Config, s: State, v: View, x: int)
    requires Entry(c, s, v, Wrap(x)) && v.top - HALF <= x <= v.top
    ensures Wrap(x) in s.gaps <==> IsOpen(c, v, x)
    ensures Wrap(x) in s.gaps ==> (s.gaps[Wrap(x)].requests == 0 <==> Asked(v, x) == [])
  {
    UnwrapIs(v.top, x);
  }

  lemma LateTracks(c: Config, s: State, v: View, x: int)
    requires Tracks(c, s, v) && v.started && v.top - HALF <= x <= v.top && c.window <= HALF
    ensures Tracks(c, Late(s, Wrap(x)), AfterLate(c, v, x))
  {
    hide Wrap, Entry, Paced, Unwrap;
    var t, kx := Late(s, Wrap(x)), Wrap(x);
    forall k: u32
      ensures Entry(c, t, AfterLate(c, v, x), k)
    {
      LateEntry(c, s, v, x, k);
    }
    if kx in s.gaps { assert s.gaps == t.gaps[kx := s.gaps[kx]]; }
    ClosedUnasked(c, s, v, x);
  }

  lemma JumpTracks(c: Config, s: State, v: View, x: int)
    requires Tracks(c, s, v) && v.started && c.window <= HALF
    ensures Tracks(c, Discontinuity(s, Wrap(x)), AfterJump(c, v, x))
  {
    hide Wrap, Entries, OpenSet;
    OneEntryEach(c, s, v);
    NothingOpen(c, Discontinuity(s, Wrap(x)), AfterJump(c, v, x));
  }

  /** Which numbers are open once the highest has moved on to `x`. */
  lemma OpenAfterForward(c: Config, s: State, v: View, x: int, k: u32)
    requires Tracks(c, s, v) && v.started && 0 < x - v.top < c.window <= HALF
    ensures Sub(Wrap(x), k) == x - Unwrap(x, k)
    ensures IsOpen(c, AfterForward(v, x), Unwrap(x, k)) <==>
      (k in s.gaps && Sub(Wrap(x), k) < c.window) || 1 <= Sub(Wrap(x), k) <= x - v.top - 1
    ensures k in s.gaps && Sub(Wrap(x), k) < c.window ==> Unwrap(x, k) == Unwrap(v.top, k)
    ensures k in s.gaps ==> !(1 <= Sub(Wrap(x), k) <= x - v.top - 1)
  {
    assert Entry(c, s, v, k);
    UnwrapWraps(x, k);
    UnwrapWraps(v.top, k);
    var y := Unwrap(x, k);
    if k in s.gaps { UnwrapMoves(v.top, x, k); }
    if y <= v.top && x - y < c.window { UnwrapIs(v.top, y); }
  }

  lemma ForwardEntry(c: Config, s: State, v: View, x: int, isKey: bool, k: u32)
    requires Tracks(c, s, v) && v.started && 0 < x - v.top < c.window <= HALF
    requires Sub(Wrap(x), s.highest) == x - v.top
    ensures Entry(c, Forward(c, s, Wrap(x), isKey), AfterForward(v, x), k)
    ensures k in s.gaps ==> !(1 <= Sub(Wrap(x), k) <= x - v.top - 1)
  {
    assert Entry(c, s, v, k);
    OpenAfterForward(c, s, v, x, k);
    hide Sub, Wrap, Unwrap, Forward, IsOpen, Aligned, Ledger, Pacing, Entries;
    ForwardGap(c, s, Wrap(x), isKey, k);
  }

  /** What the 32-bit step does to the entry of `k`. */
  lemma ForwardGap(c: Config, s: State, h: u32, isKey: bool, k: u32)
    requires Sub(h, s.highest) > 0
    ensures var t, stays, n := Forward(c, s, h, isKey), k in s.gaps && Sub(h, k) < c.window, Sub(h, s.highest) - 1;
      && (k in t.gaps <==> stays || 1 <= Sub(h, k) <= n)
      && (k in t.gaps ==> t.gaps[k] == if stays then s.gaps[k] else Gap(0, 0, isKey))
  {
    RegisterHolds(Without(s.gaps, Expired(s.gaps, h, c.window)), h, Sub(h, s.highest) - 1, isKey, k);
    hide Sub, Register;
  }

  lemma ForwardSize(c: Config, s: State, v: View, x: int, isKey: bool)
    requires Tracks(c, s, v) && v.started && 0 < x - v.top < c.window <= HALF
    requires Sub(Wrap(x), s.highest) == x - v.top
    ensures |Forward(c, s, Wrap(x), isKey).gaps| == |s.gaps| - |Expired(s.gaps, Wrap(x), c.window)| + (x - v.top - 1)
  {
    hide Register, Tracks, Sub, Wrap, Entry;
    var aged := Expired(s.gaps, Wrap(x), c.window);
    forall k | k in Without(s.gaps, aged)
      ensures !(1 <= Sub(Wrap(x), k) <= x - v.top - 1)
    {
      ForwardEntry(c, s, v, x, isKey, k);
    }
    RegisterSize(Without(s.gaps, aged), Wrap(x), x - v.top - 1, isKey);
    WithoutSize(s.gaps, aged);
  }

  lemma ForwardTracks(c: Config, s: State, v: View, x: int, isKey: bool)
    requires Tracks(c, s, v) && v.started && 0 < x - v.top < c.window <= HALF
    ensures Sub(Wrap(x), s.highest) == x - v.top
    ensures Tracks(c, Forward(c, s, Wrap(x), isKey), AfterForward(v, x))
  {
    hide Sub, Wrap, Register, Without, Expired, KeyOnes, Entry, Paced;
    SubWrapped(x, v.top);
    ForwardSize(c, s, v, x, isKey);
    forall k: u32
      ensures Entry(c, Forward(c, s, Wrap(x), isKey), AfterForward(v, x), k)
    {
      ForwardEntry(c, s, v, x, isKey, k);
    }
  }

  // ----- Collecting and resetting -----

  /** The tracker's test agrees with the unbounded one. */
  lemma DueAgrees(c: Config, s: State, v: View, k: u32)
    requires Entry(c, s, v, k) && Aligned(s, v) && v.started && c.window <= HALF
    ensures Due(c, s, k) <==> IsDue(c, v, Unwrap(v.top, k))
    ensures Dropped(c, s, k) <==> IsExhausted(c, v, Unwrap(v.top, k))
  {
    var x := Unwrap(v.top, k);
    UnwrapWraps(v.top, k);
    if k in s.gaps {
      UnwrapIs(v.top, x);
      var es := Asked(v, x);
      if es != [] { SubWrapped(v.top, es[|es| - 1].top); }
    }
    hide Wrap, Sub, Unwrap;
  }

  lemma CollectEntry(c: Config, s: State, v: View, k: u32)
    requires Entry(c, s, v, k) && Aligned(s, v) && v.started && c.window <= HALF
    ensures Entry(c, Collected(c, s), AfterCollect(c, v), k)
  {
    var x := Unwrap(v.top, k);
    DueAgrees(c, s, v, k);
    assert x in OpenSet(c, v) <==> IsOpen(c, v, x);
    hide Wrap, Sub, Unwrap, Due, IsDue;
  }

  lemma PacedOnceMore(c: Config, v: View, x: int)
    requires Pacing(c, v)
    ensures x in AfterCollect(c, v).asked ==> Paced(c, x, AfterCollect(c, v).asked[x])
  {
    hide OpenSet, IsOpen, IsExhausted;
    if x in v.asked { assert Paced(c, x, v.asked[x]); }
  }

  lemma RetiredWasAsked(c: Config, v: View, x: int)
    requires Pacing(c, v) && x in AfterCollect(c, v).retired
    ensures |Asked(AfterCollect(c, v), x)| == Max(0, c.maxRequests)
  {
    hide Paced;
    if x in v.asked { assert Paced(c, x, v.asked[x]); PacedIsBounded(c, x, v.asked[x]); }
  }

  lemma PacedIsBounded(c: Config, x: int, es: seq<Emission>)
    requires Paced(c, x, es)
    ensures |es| <= Max(0, c.maxRequests)
  {
  }

  lemma CollectPacing(c: Config, v: View)
    requires Pacing(c, v)
    ensures Pacing(c, AfterCollect(c, v))
  {
    hide AfterCollect, Paced;
    forall x | x in AfterCollect(c, v).asked
      ensures Paced(c, x, AfterCollect(c, v).asked[x])
    {
      PacedOnceMore(c, v, x);
    }
    forall x | x in AfterCollect(c, v).retired
      ensures |Asked(AfterCollect(c, v), x)| == Max(0, c.maxRequests)
    {
      RetiredWasAsked(c, v, x);
    }
  }

  lemma CollectAligned(c: Config, s: State, v: View)
    requires Aligned(s, v)
    ensures Aligned(Collected(c, s), AfterCollect(c, v))
  {
    hide Wrap, Dropped, IsDue, IsExhausted;
    CollectedKeeps(c, s);
    hide Collected, Consistent;
    assert Collected(c, s).hasBaseline == s.hasBaseline && Collected(c, s).reorder == s.reorder
      && Collected(c, s).highest == s.highest by { CollectLeaves(c, s); }
    forall x | v.started && x in AfterCollect(c, v).asked
      ensures x < v.top
    {
    }
  }

  lemma CollectLeaves(c: Config, s: State)
    ensures Collected(c, s).hasBaseline == s.hasBaseline && Collected(c, s).reorder == s.reorder
    ensures Collected(c, s).highest == s.highest
  {
  }

  lemma CollectLedger(c: Config, s: State, v: View)
    requires Ledger(s, v) && Consistent(s)
    ensures Ledger(Collected(c, s), AfterCollect(c, v))
  {
    hide Due, Dropped, KeyOnes, OpenSet, IsDue, IsExhausted;
    var t, dropped := Collected(c, s), DroppedSet(c, s);
    assert t.gaps.Keys == s.gaps.Keys - dropped;
    assert |t.gaps| == |t.gaps.Keys| && |s.gaps| == |s.gaps.Keys|;
  }

  lemma CollectTracks(c: Config, s: State, v: View)
    requires Tracks(c, s, v) && c.window <= HALF
    ensures Tracks(c, Collected(c, s), AfterCollect(c, v))
  {
    CollectPacing(c, v);
    CollectAligned(c, s, v);
    CollectLedger(c, s, v);
    if v.started {
      forall k: u32
        ensures Entry(c, Collected(c, s), AfterCollect(c, v), k)
      {
        CollectEntry(c, s, v, k);
      }
    }
    hide Entry, Collected, Ledger, Pacing, Aligned;
  }

  lemma ResetTracks(c: Config, s: State, v: View)
    requires Tracks(c, s, v) && c.window <= HALF
    ensures Tracks(c, Next(c, s, Reset), AfterReset(c, v))
  {
    hide Wrap, Entry, OpenSet, Paced, Unwrap;
    OneEntryEach(c, s, v);
  }

  // ----- Runs -----

  lemma StepTracks(c: Config, s: State, v: View, e: Event)
    requires Tracks(c, s, v) && c.window <= HALF
    requires e.Arrive? && v.started ==> -HALF <= e.x - v.top < HALF
    ensures Tracks(c, Next(c, s, e), ViewNext(c, v, e))
  {
    hide Late, Forward, Discontinuity, Entry, Wrap, Collected, AfterCollect, OpenSet, Paced, Tolerance, Sub;
    match e
    case Arrive(x, fragCount, isKey) => ArriveTracks(c, s, v, x, fragCount, isKey);
    case Collect => CollectTracks(c, s, v);
    case Reset => ResetTracks(c, s, v);
  }

  function Noted(s: State, reorder: u32): State {
    s.(stats := s.stats.(packetsSeen := s.stats.packetsSeen + 1), reorder := reorder)
  }

  lemma NotedTracks(c: Config, s: State, v: View, reorder: u32)
    requires Tracks(c, s, v)
    ensures Tracks(c, Noted(s, reorder), v.(reorder := reorder))
  {
    hide Wrap, Unwrap, Paced, Remembers;
    var t, w := Noted(s, reorder), v.(reorder := reorder);
    if v.started {
      forall k: u32
        ensures Entry(c, t, w, k)
      {
        assert Entry(c, s, v, k);
      }
    }
  }

  lemma ArriveTracks(c: Config, s: State, v: View, x: int, fragCount: u16, isKey: bool)
    requires Tracks(c, s, v) && c.window <= HALF
    requires v.started ==> -HALF <= x - v.top < HALF
    ensures Tracks(c, Next(c, s, Arrive(x, fragCount, isKey)), ViewNext(c, v, Arrive(x, fragCount, isKey)))
  {
    hide Late, Forward, Discontinuity, Entries, Wrap, OpenSet, Paced, Tolerance, Ledger, Pacing;
    var s1, v1 := Noted(s, Tolerance(c, fragCount)), v.(reorder := Tolerance(c, fragCount));
    NotedTracks(c, s, v, Tolerance(c, fragCount));
    if !v.started {
      FirstTracks(c, s1, v1, x);
    } else {
      NewerByDistance(x, v.top);
      DifferenceModulo(x, v.top);
      if x <= v.top {
        BehindIsNotNewer(x - v.top);
        LateTracks(c, s1, v1, x);
      } else {
        if x - v.top >= c.window { JumpTracks(c, s1, v1, x); } else { ForwardTracks(c, s1, v1, x, isKey); }
      }
    }
  }

  lemma BehindIsNotNewer(d: int)
    requires -HALF <= d <= 0
    ensures !(0 < d % MOD < HALF)
  {
  }

  lemma {:induction false} TableIsExact(c: Config, es: seq<Event>)
    requires WithinHalfATurn(c, es) && c.window <= HALF
    ensures Tracks(c, After(c, es), ViewAfter(c, es))
  {
    hide Next, ViewNext, Tracks;
    if es == [] {
      BlankTracks(c);
    } else {
      var init := es[..|es| - 1];
      assert forall i :: 0 <= i < |init| ==> es[..i] == init[..i];
      TableIsExact(c, init);
      StepTracks(c, After(c, init), ViewAfter(c, init), es[|es| - 1]);
    }
  }

  lemma BlankTracks(c: Config)
    ensures Tracks(c, START, BLANK)
  {
  }

  // ----- What a run establishes -----

  lemma {:induction false} IntervalBound(xs: set<int>, low: int, n: nat)
    requires forall x :: x in xs ==> low <= x < low + n
    ensures |xs| <= n
    decreases n
  {
    if |xs| != 0 {
      var x := AnElement(xs);
      IntervalBound(xs - {low + n - 1}, low, n - 1);
    }
  }

  /** After any run whose arrivals stay within half a turn of the highest number: the table holds exactly the
      numbers strictly between baseline and highest that are younger than the window, never arrived and were not
      retired; a retired number was asked for as often as allowed; every number's requests are spaced by the
      tolerance in force; the table is smaller than the window; and every gap ever noticed is counted once. */
  lemma RunIsExact(c: Config, es: seq<Event>, k: u32, x: int)
    requires WithinHalfATurn(c, es) && c.window <= HALF
    ensures var s, v := After(c, es), ViewAfter(c, es);
      && s.hasBaseline == v.started
      && (v.started && v.top - MOD < x <= v.top && k == Wrap(x) ==>
            (k in s.gaps <==> v.base < x < v.top && v.top - x < c.window && x !in v.received && x !in v.retired))
      && (x in v.retired ==> |Asked(v, x)| == Max(0, c.maxRequests))
      && Paced(c, x, Asked(v, x))
      && (s.gaps == map[] || |s.gaps| <= c.window - 1)
      && v.registered == v.closedUnasked + s.stats.recovered + s.stats.givenUp + |s.gaps| + v.discarded
      && s.stats.givenUp == s.stats.lostForReal
  {
    hide Wrap, Unwrap, Remembers, After, ViewAfter, OpenSet, WithinHalfATurn;
    var s, v := After(c, es), ViewAfter(c, es);
    TableIsExact(c, es);
    if v.started && v.top - MOD < x <= v.top {
      assert Entry(c, s, v, Wrap(x));
      UnwrapIs(v.top, x);
    }
    TableIsSmall(c, s, v);
  }

  lemma TableIsSmall(c: Config, s: State, v: View)
    requires Aligned(s, v) && Entries(c, s, v) && c.window <= HALF
    ensures s.gaps == map[] || |s.gaps| <= c.window - 1
  {
    hide Wrap, Entries;
    OneEntryEach(c, s, v);
    if v.started && c.window > 0 {
      IntervalBound(OpenSet(c, v), v.top - c.window + 1, c.window - 1);
    } else {
      IntervalBound(OpenSet(c, v), 0, 0);
    }
  }

  // ----- When a number is asked for -----

  /** The tolerance is the one of the last packet, whatever became of that. */
  lemma ArrivalSetsTolerance(c: Config, s: State, x: int, fragCount: u16, isKey: bool)
    ensures IsTolerance(c, fragCount, Next(c, s, Arrive(x, fragCount, isKey)).reorder)
    ensures Next(c, s, Arrive(x, fragCount, isKey)).hasBaseline
  {
    hide Late, Forward, Discontinuity, SeqNewer, Sub, Wrap;
    ToleranceIs(c, fragCount, Tolerance(c, fragCount));
    if s.hasBaseline && SeqNewer(Wrap(x), s.highest) { NewerIsAhead(Wrap(x), s.highest); }
    ReorderStays(c, s.(stats := s.stats.(packetsSeen := s.stats.packetsSeen + 1), reorder := Tolerance(c, fragCount)), Wrap(x), isKey);
  }

  lemma ReorderStays(c: Config, s: State, k: u32, isKey: bool)
    ensures Late(s, k).reorder == s.reorder && Late(s, k).hasBaseline == s.hasBaseline
    ensures Discontinuity(s, k).reorder == s.reorder && Discontinuity(s, k).hasBaseline == s.hasBaseline
    ensures Sub(k, s.highest) > 0 ==>
      Forward(c, s, k, isKey).reorder == s.reorder && Forward(c, s, k, isKey).hasBaseline == s.hasBaseline
  {
  }

  /** After a run, the last packet since the last reset, and the tolerance it left. */
  lemma {:induction false} LastArrival(c: Config, es: seq<Event>) returns (n: nat)
    requires After(c, es).hasBaseline
    ensures n < |es| && es[n].Arrive? && forall m :: n < m < |es| ==> es[m].Collect?
    ensures IsTolerance(c, es[n].fragCount, After(c, es).reorder)
    decreases |es|
  {
    hide IsTolerance, Arrived, Collected;
    var last := |es| - 1;
    match es[last]
    case Arrive(x, fragCount, isKey) =>
      n := last;
      ArrivalSetsTolerance(c, After(c, es[..last]), x, fragCount, isKey);
    case Collect =>
      CollectLeaves(c, After(c, es[..last]));
      n := LastArrival(c, es[..last]);
  }

  /** An open number is asked for exactly when requests are left, it lies at least as many numbers behind the
      highest as the last packet's tolerance, and so does the highest number at its last request, if there was one. */
  lemma AskedWhen(c: Config, es: seq<Event>, x: int) returns (n: nat, r: int)
    requires WithinHalfATurn(c, es) && c.window <= HALF && IsOpen(c, ViewAfter(c, es), x)
    ensures n < |es| && es[n].Arrive? && forall m :: n < m < |es| ==> es[m].Collect?
    ensures IsTolerance(c, es[n].fragCount, r)
    ensures var v := ViewAfter(c, es);
      var asked := Asked(v, x);
      Due(c, After(c, es), Wrap(x)) <==>
        |asked| < c.maxRequests && v.top - x >= r && (asked == [] || v.top - asked[|asked| - 1].top >= r)
  {
    hide After, ViewAfter, WithinHalfATurn, IsTolerance, Wrap, Due, Unwrap, Remembers;
    var s, v := After(c, es), ViewAfter(c, es);
    TableIsExact(c, es);
    assert Entry(c, s, v, Wrap(x));
    n := LastArrival(c, es);
    r := s.reorder;
    DueAgrees(c, s, v, Wrap(x));
    UnwrapIs(v.top, x);
  }

  /** Every packet is counted; it asks for nothing; only a jump of a window or more counts as a discontinuity. */
  lemma ArrivalTallies(c: Config, s: State, x: int, fragCount: u16, isKey: bool)
    ensures var t, k := Next(c, s, Arrive(x, fragCount, isKey)), Wrap(x);
      && t.stats.packetsSeen == s.stats.packetsSeen + 1 && t.stats.nacksRequested == s.stats.nacksRequested
      && t.stats.discontinuities == s.stats.discontinuities
           + if s.hasBaseline && SeqNewer(k, s.highest) && Sub(k, s.highest) >= c.window then 1 else 0
  {
    hide Register, Without, Expired, KeyOnes, Wrap, Tolerance;
  }

  // ----- Key frames given up -----

  /** A collection counts the gaps it removes, and among them those marked as a key frame's. */
  lemma CollectionCountsKeys(c: Config, s: State)
    ensures var t := Collected(c, s);
      && t.stats.givenUp == s.stats.givenUp + |set k | k in s.gaps && k !in t.gaps|
      && t.stats.keyFramesGivenUp == s.stats.keyFramesGivenUp + |set k | k in s.gaps && k !in t.gaps && s.gaps[k].likelyKey|
  {
    hide Dropped, Due;
    var t := Collected(c, s);
    assert (set k | k in s.gaps && k !in t.gaps) == DroppedSet(c, s);
    assert (set k | k in s.gaps && k !in t.gaps && s.gaps[k].likelyKey) == KeyOnes(s.gaps, DroppedSet(c, s));
  }

  /** So does a packet that moves the highest number on: what it removes, it removes for its age. */
  lemma ForwardCountsKeys(c: Config, s: State, h: u32, isKey: bool)
    requires 0 < Sub(h, s.highest) < c.window
    ensures var t := Forward(c, s, h, isKey);
      && t.stats.givenUp == s.stats.givenUp + |set k | k in s.gaps && k !in t.gaps|
      && t.stats.keyFramesGivenUp == s.stats.keyFramesGivenUp + |set k | k in s.gaps && k !in t.gaps && s.gaps[k].likelyKey|
  {
    hide Sub;
    var t, aged := Forward(c, s, h, isKey), Expired(s.gaps, h, c.window);
    forall k | k in s.gaps
      ensures k !in t.gaps <==> k in aged
    {
      ForwardGap(c, s, h, isKey, k);
    }
    hide Forward, Register, Expired;
    assert (set k | k in s.gaps && k !in t.gaps) == aged by { ExpiredAreGaps(s.gaps, h, c.window); }
    assert (set k | k in s.gaps && k !in t.gaps && s.gaps[k].likelyKey) == KeyOnes(s.gaps, aged);
    ForwardCounts(c, s, h, isKey);
  }

  lemma ExpiredAreGaps(gaps: map<u32, Gap>, h: u32, window: nat)
    ensures Expired(gaps, h, window) <= gaps.Keys
  {
  }

  lemma ForwardCounts(c: Config, s: State, h: u32, isKey: bool)
    requires Sub(h, s.highest) > 0
    ensures var t, aged := Forward(c, s, h, isKey), Expired(s.gaps, h, c.window);
      && t.stats.givenUp == s.stats.givenUp + |aged|
      && t.stats.keyFramesGivenUp == s.stats.keyFramesGivenUp + |KeyOnes(s.gaps, aged)|
  {
    hide Sub, Register, Expired, KeyOnes;
  }

  /** A second collection with nothing in between asks again only when the tolerance is zero. */
  lemma CollectTwice(c: Config, s: State, k: u32)
    ensures Due(c, Collected(c, s), k) <==> s.reorder == 0 && Due(c, s, k) && s.gaps[k].requests + 1 < c.maxRequests
  {
  }

  lemma AgeGap(highest: u32, a: u32, b: u32)
    requires Sub(highest, b) <= Sub(highest, a)
    ensures Sub(b, a) == Sub(highest, a) - Sub(highest, b)
  {
    var i, j := (highest - a) / MOD, (highest - b) / MOD;
    assert b - a == (Sub(highest, a) - Sub(highest, b)) - MOD * (j - i);
    ShiftModulo(Sub(highest, a) - Sub(highest, b), j - i);
  }

  /** What one collection emits is in the order the NACK codec needs, and free of duplicates. */
  lemma EmittedInOrder(s: State, out: seq<u32>)
    requires OldestFirst(s, out)
    ensures NackCodec.OldestFirst(out)
    ensures forall i, j :: 0 <= i < j < |out| ==> out[i] != out[j]
    ensures forall i :: 0 <= i < |out| ==> Sub(out[i], out[0]) == Age(s, out[0]) - Age(s, out[i])
  {
    hide Sub;
    forall i | 0 <= i < |out|
      ensures Sub(out[i], out[0]) == Age(s, out[0]) - Age(s, out[i])
    {
      AgeGap(s.highest, out[0], out[i]);
    }
  }

  /** It takes at most ceil((window - 1) / 17) entries. */
  lemma CollectFits(c: Config, es: seq<Event>, out: seq<u32>)
    requires WithinHalfATurn(c, es) && c.window <= HALF
    requires OldestFirst(After(c, es), out) && forall k :: k in out ==> Due(c, After(c, es), k)
    ensures out != [] ==> |NackCodec.Greedy(out)| <= (c.window - 2) / 17 + 1
  {
    hide Wrap, Sub, After, ViewAfter, WithinHalfATurn, Unwrap, Remembers, NackCodec.Greedy;
    var s, v := After(c, es), ViewAfter(c, es);
    TableIsExact(c, es);
    EmittedInOrder(s, out);
    if out != [] {
      forall i | 0 <= i < |out|
        ensures 0 < Age(s, out[i]) < c.window
      {
        assert out[i] in out && Entry(c, s, v, out[i]);
        UnwrapWraps(v.top, out[i]);
        UnwrapIs(v.top, Unwrap(v.top, out[i]));
      }
      NackCodec.EntriesForSpan(out);
    }
  }
}
