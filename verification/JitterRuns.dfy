/**
 The jitter buffer over whole runs: order, ledger, capacity, the key-frame gate, and
 what extended frame numbers mean.
 */
module JitterRuns {
  import opened Basics
  import opened Cyclic
  import DE = DelayEstimator
  import opened JitterBuffer

  datatype Event = Push(frame: Frame, nowMs: DE.Clock) | Pop(nowMs: DE.Clock) | Drop | SetRtt(rttMs: DE.i32)

  function Next(c: Config, s: State, e: Event): (r: State)
    requires IsNormal(c) && DE.Deltas(s.estimator.deltas)
    ensures DE.Deltas(r.estimator.deltas)
  {
    match e
    case Push(f, nowMs) => PushedKeepsDeltas(c, s, f, nowMs); Pushed(c, s, f, nowMs)
    case Pop(nowMs) => Popped(s, nowMs)
    case Drop => Resynced(c, s)
    case SetRtt(rttMs) => WithRtt(s, rttMs)
  }

  // ----- What becomes of a pushed frame -----

  datatype Fate = Duplicate | BeforeKey | Late | Kept

  function Ext(s: State, f: Frame): u64 {
    Extended(s.anchor, f.frameId).ext
  }

  /** The gate is looked at before the delivery watermark. */
  function FateOf(s: State, f: Frame): Fate {
    if Holds(s.pending, Ext(s, f)) then Duplicate
    else if !s.started && !f.isKey then BeforeKey
    else if TooLate(s, Ext(s, f)) then Late
    else Kept
  }

  function NewSlot(c: Config, s: State, f: Frame, nowMs: DE.Clock): Slot
    requires IsNormal(c) && DE.Deltas(s.estimator.deltas)
  {
    Slot(Ext(s, f), f, DueTime(DE.Observed(c.delay, s.estimator, f.timestampMs, nowMs), f))
  }

  lemma PushedIs(c: Config, s: State, f: Frame, nowMs: DE.Clock)
    requires IsNormal(c) && DE.Deltas(s.estimator.deltas)
    ensures var r, n := Pushed(c, s, f, nowMs), s.stats;
      && r.lastOut == s.lastOut && r.anchor == Some(Extended(s.anchor, f.frameId))
      && r.started == (s.started || FateOf(s, f).Late? || FateOf(s, f).Kept?)
      && r.estimator == (if FateOf(s, f).Duplicate? then s.estimator else DE.Observed(c.delay, s.estimator, f.timestampMs, nowMs))
      && (!FateOf(s, f).Kept? ==> r.pending == s.pending)
      && match FateOf(s, f)
         case Duplicate => r.stats == n.(framesIn := n.framesIn + 1, framesDuplicate := n.framesDuplicate + 1)
         case BeforeKey => r.stats == n.(framesIn := n.framesIn + 1, framesBeforeKey := n.framesBeforeKey + 1,
                                         framesSampledButDropped := n.framesSampledButDropped + 1)
         case Late => r.stats == n.(framesIn := n.framesIn + 1, framesTooLate := n.framesTooLate + 1,
                                    framesSampledButDropped := n.framesSampledButDropped + 1)
         case Kept =>
           var all := Inserted(s.pending, NewSlot(c, s, f, nowMs)); var kept := WithoutOldest(all, c.hardLimitFrames);
           && r.pending == Forced(kept, Overdue(kept, c.maxFrames))
           && r.stats == n.(framesIn := n.framesIn + 1, framesDropped := n.framesDropped + |all| - |kept|,
                            framesForcedEarly := r.stats.framesForcedEarly)
  {
    hide DE.Observed, DE.PlayAt, Inserted, Extended, NotDue;
  }

  lemma ObservedKeepsDeltas(c: DE.Config, e: DE.State, timestampMs: u32, nowMs: DE.Clock)
    requires DE.IsNormal(c) && DE.Deltas(e.deltas)
    ensures DE.Deltas(DE.Observed(c, e, timestampMs, nowMs).deltas)
    ensures DE.Observed(c, e, timestampMs, nowMs).stats.samplesSeen == e.stats.samplesSeen + 1
  {
    hide DE.Raw, DE.Recent, DE.Follow, DE.Floor, DE.PercentileOffset, DE.Quartile;
  }

  lemma PushedKeepsDeltas(c: Config, s: State, f: Frame, nowMs: DE.Clock)
    requires IsNormal(c) && DE.Deltas(s.estimator.deltas)
    ensures DE.Deltas(Pushed(c, s, f, nowMs).estimator.deltas)
  {
    hide DE.Observed, Pushed, FateOf;
    PushedIs(c, s, f, nowMs);
    ObservedKeepsDeltas(c.delay, s.estimator, f.timestampMs, nowMs);
  }

  function After(c: Config, es: seq<Event>): (r: State)
    requires IsNormal(c)
    ensures DE.Deltas(r.estimator.deltas)
  {
    if es == [] then Start(c, 0) else Next(c, After(c, es[..|es| - 1]), es[|es| - 1])
  }

  // ----- What every operation keeps -----

  ghost predicate Ledger(s: State) {
    && s.stats.framesIn == s.stats.framesOut + s.stats.framesTooLate + s.stats.framesDuplicate + s.stats.framesDropped
                           + s.stats.framesBeforeKey + s.stats.framesDroppedForResync + |s.pending|
    && s.stats.framesSampledButDropped == s.stats.framesTooLate + s.stats.framesBeforeKey
    && s.estimator.stats.samplesSeen == s.stats.framesIn - s.stats.framesDuplicate
  }

  /** In order, beyond what was delivered, within the hard limit, and due at once where the soft limit is passed. */
  ghost predicate Shape(c: Config, s: State) {
    && Ascending(s.pending)
    && (s.lastOut.Some? ==> forall i :: 0 <= i < |s.pending| ==> s.lastOut.value < s.pending[i].ext)
    && |s.pending| <= c.hardLimitFrames
    && forall i :: 0 <= i < |s.pending| - c.maxFrames ==> s.pending[i].playAtMs == 0
  }

  lemma {:induction false} InsertedIs(slots: seq<Slot>, x: Slot, k: nat)
    requires k <= |slots|
    requires (forall i :: 0 <= i < k ==> slots[i].ext < x.ext) && (k < |slots| ==> x.ext < slots[k].ext)
    ensures Inserted(slots, x) == slots[..k] + [x] + slots[k..]
  {
    if k > 0 {
      var rest := slots[1..];
      InsertedIs(rest, x, k - 1);
      assert Inserted(slots, x) == [slots[0]] + Inserted(rest, x);
      Regroup(slots, k, x);
    }
  }

  lemma Regroup(slots: seq<Slot>, k: nat, x: Slot)
    requires 0 < k <= |slots|
    ensures [slots[0]] + (slots[1..][..k - 1] + [x] + slots[1..][k - 1..]) == slots[..k] + [x] + slots[k..]
  {
  }

  /** Where a new number belongs. */
  function Place(slots: seq<Slot>, ext: u64): (k: nat)
    ensures k <= |slots|
    ensures forall i :: 0 <= i < k ==> slots[i].ext < ext
    ensures k < |slots| ==> ext <= slots[k].ext
  {
    if slots == [] || slots[0].ext >= ext then 0 else 1 + Place(slots[1..], ext)
  }

  lemma InsertedAscends(slots: seq<Slot>, x: Slot)
    requires Ascending(slots) && !Holds(slots, x.ext)
    ensures Ascending(Inserted(slots, x))
    ensures forall i :: 0 <= i <= |slots| ==> Inserted(slots, x)[i] == x || Inserted(slots, x)[i] in slots
    ensures var k := Place(slots, x.ext); Inserted(slots, x) == slots[..k] + [x] + slots[k..]
  {
    hide Inserted;
    var k := Place(slots, x.ext);
    InsertedIs(slots, x, k);
  }

  lemma CappedShape(c: Config, s: State, all: seq<Slot>, r: State)
    requires IsNormal(c) && Ascending(all) && r.lastOut == s.lastOut
    requires s.lastOut.Some? ==> forall i :: 0 <= i < |all| ==> s.lastOut.value < all[i].ext
    requires var kept := WithoutOldest(all, c.hardLimitFrames); r.pending == Forced(kept, Overdue(kept, c.maxFrames))
    ensures Shape(c, r)
  {
  }

  lemma PushKeepsShape(c: Config, s: State, f: Frame, nowMs: DE.Clock)
    requires IsNormal(c) && DE.Deltas(s.estimator.deltas) && Shape(c, s)
    ensures Shape(c, Pushed(c, s, f, nowMs))
  {
    hide Inserted, DE.Observed, Pushed, Ascending, Holds, WithoutOldest, Forced, Extended;
    PushedIs(c, s, f, nowMs);
    if FateOf(s, f).Kept? {
      var x := NewSlot(c, s, f, nowMs);
      InsertedAscends(s.pending, x);
      CappedShape(c, s, Inserted(s.pending, x), Pushed(c, s, f, nowMs));
    }
  }

  lemma StepKeepsShape(c: Config, s: State, e: Event)
    requires IsNormal(c) && DE.Deltas(s.estimator.deltas) && Shape(c, s)
    ensures Shape(c, Next(c, s, e))
  {
    hide Pushed;
    match e
    case Push(f, nowMs) => PushKeepsShape(c, s, f, nowMs);
    case _ =>
  }

  lemma StepKeepsLedger(c: Config, s: State, e: Event)
    requires IsNormal(c) && DE.Deltas(s.estimator.deltas) && Ledger(s)
    ensures Ledger(Next(c, s, e))
  {
    hide Pushed, FateOf, DE.Observed, Inserted;
    match e
    case Push(f, nowMs) =>
      PushedIs(c, s, f, nowMs);
      ObservedKeepsDeltas(c.delay, s.estimator, f.timestampMs, nowMs);
    case _ =>
  }

  /** Over any mix of pushes, pops and resynchronisations: the ledger balances, the buffer is in order, within its
      hard limit, and the oldest frames beyond the soft limit are due at once. */
  lemma {:induction false} RunKeeps(c: Config, es: seq<Event>)
    requires IsNormal(c)
    ensures Ledger(After(c, es)) && Shape(c, After(c, es))
  {
    hide Next, Ledger, Shape;
    if es == [] {
      StartIsGood(c);
    } else {
      RunKeeps(c, es[..|es| - 1]);
      StepKeepsLedger(c, After(c, es[..|es| - 1]), es[|es| - 1]);
      StepKeepsShape(c, After(c, es[..|es| - 1]), es[|es| - 1]);
    }
  }

  lemma StartIsGood(c: Config)
    requires IsNormal(c)
    ensures Ledger(Start(c, 0)) && Shape(c, Start(c, 0))
  {
  }

  // ----- Order of delivery -----

  /** The extended numbers delivered so far. */
  function Delivered(c: Config, es: seq<Event>): seq<u64>
    requires IsNormal(c)
  {
    if es == [] then []
    else
      var before, e := After(c, es[..|es| - 1]), es[|es| - 1];
      Delivered(c, es[..|es| - 1]) + if e.Pop? && CanPop(before, e.nowMs) then [before.pending[0].ext] else []
  }

  lemma DeliveryStep(c: Config, s: State, e: Event)
    requires IsNormal(c) && DE.Deltas(s.estimator.deltas) && Shape(c, s)
    ensures var r, pops := Next(c, s, e), e.Pop? && CanPop(s, e.nowMs);
      && r.lastOut == (if pops then Some(s.pending[0].ext) else s.lastOut)
      && r.stats.framesOut == s.stats.framesOut + (if pops then 1 else 0)
      && (pops && s.lastOut.Some? ==> s.lastOut.value < s.pending[0].ext)
  {
    hide Pushed, FateOf, Inserted, DE.Observed;
    if e.Push? { PushedIs(c, s, e.frame, e.nowMs); }
  }

  /** Delivery never goes back. */
  lemma {:induction false} DeliveryAscends(c: Config, es: seq<Event>)
    requires IsNormal(c)
    ensures forall i, j :: 0 <= i < j < |Delivered(c, es)| ==> Delivered(c, es)[i] < Delivered(c, es)[j]
    ensures After(c, es).lastOut == if Delivered(c, es) == [] then None else Some(Delivered(c, es)[|Delivered(c, es)| - 1])
    ensures |Delivered(c, es)| == After(c, es).stats.framesOut
  {
    hide Next, Ledger, Shape, CanPop;
    if es != [] {
      var n := |es| - 1;
      DeliveryAscends(c, es[..n]);
      RunKeeps(c, es[..n]);
      DeliveryStep(c, After(c, es[..n]), es[n]);
    }
  }

  // ----- The key-frame gate -----

  /** The position just after the last resynchronisation; 0 if there was none. */
  function GateClosed(es: seq<Event>): (n: nat)
    ensures n <= |es|
  {
    if es == [] then 0 else if es[|es| - 1].Drop? then |es| else GateClosed(es[..|es| - 1])
  }

  /** A key frame was pushed at or after `from` and before `to`. */
  ghost predicate KeyPushed(es: seq<Event>, from: nat, to: nat)
    requires to <= |es|
  {
    exists i :: from <= i < to && es[i].Push? && es[i].frame.isKey
  }

  /** `f` was pushed since the gate last closed, and is a key frame or came after one. */
  ghost predicate CameThroughGate(es: seq<Event>, f: Frame) {
    exists j :: GateClosed(es) <= j < |es| && es[j].Push? && es[j].frame == f && (f.isKey || KeyPushed(es, GateClosed(es), j))
  }

  ghost predicate Gated(c: Config, es: seq<Event>)
    requires IsNormal(c)
  {
    && (After(c, es).started ==> KeyPushed(es, GateClosed(es), |es|))
    && forall i :: 0 <= i < |After(c, es).pending| ==> CameThroughGate(es, After(c, es).pending[i].frame)
  }

  lemma CameThroughEarlier(es: seq<Event>, f: Frame)
    requires es != [] && CameThroughGate(es[..|es| - 1], f) && !es[|es| - 1].Drop?
    ensures CameThroughGate(es, f)
  {
    var n := |es| - 1;
    var j :| GateClosed(es[..n]) <= j < n && es[..n][j].Push? && es[..n][j].frame == f
      && (f.isKey || KeyPushed(es[..n], GateClosed(es[..n]), j));
    assert es[j].Push? && es[j].frame == f;
    if !f.isKey { KeyPushedEarlier(es, GateClosed(es), j); }
  }

  lemma KeyPushedEarlier(es: seq<Event>, from: nat, to: nat)
    requires es != [] && to <= |es| - 1 && KeyPushed(es[..|es| - 1], from, to)
    ensures KeyPushed(es, from, to) && KeyPushed(es, from, |es|)
  {
    var i :| from <= i < to && es[..|es| - 1][i].Push? && es[..|es| - 1][i].frame.isKey;
    assert es[i].Push? && es[i].frame.isKey;
  }

  /** Frames only leave the buffer, except for the one pushed (`j` is then -1). */
  lemma PendingComesFrom(c: Config, s: State, e: Event, i: nat) returns (j: int)
    requires IsNormal(c) && DE.Deltas(s.estimator.deltas) && Shape(c, s) && i < |Next(c, s, e).pending|
    ensures !e.Drop? && -1 <= j < |s.pending|
    ensures j == -1 ==> e.Push? && FateOf(s, e.frame).Kept? && Next(c, s, e).pending[i].frame == e.frame
    ensures j != -1 ==> s.pending[j].frame == Next(c, s, e).pending[i].frame
  {
    hide Pushed, Inserted, DE.Observed, Extended, Shape, Ascending, Holds, TooLate, WithoutOldest, Forced;
    match e
    case Push(f, nowMs) =>
      PushedIs(c, s, f, nowMs);
      j := i;
      if FateOf(s, f).Kept? {
        ShapeAscends(c, s);
        j := KeptComesFrom(c, s.pending, NewSlot(c, s, f, nowMs), i);
      }
    case Pop(nowMs) => j := if CanPop(s, nowMs) then i + 1 else i;
    case _ => j := i;
  }

  lemma ShapeAscends(c: Config, s: State)
    requires Shape(c, s)
    ensures Ascending(s.pending)
  {
  }

  lemma KeptComesFrom(c: Config, slots: seq<Slot>, x: Slot, i: nat) returns (j: int)
    requires Ascending(slots) && !Holds(slots, x.ext)
    requires var kept := WithoutOldest(Inserted(slots, x), c.hardLimitFrames); i < |Forced(kept, Overdue(kept, c.maxFrames))|
    ensures -1 <= j < |slots|
    ensures var kept := WithoutOldest(Inserted(slots, x), c.hardLimitFrames); var r := Forced(kept, Overdue(kept, c.maxFrames));
      r[i] == var was := if j == -1 then x else slots[j]; if i < |r| - c.maxFrames then was.(playAtMs := 0) else was
  {
    hide Inserted, Ascending, Holds, Place;
    var k, at := Place(slots, x.ext), |slots| + 1 - |WithoutOldest(Inserted(slots, x), c.hardLimitFrames)| + i;
    CappedSlots(c, Inserted(slots, x));
    InsertedAt(slots, x, at);
    j := if at < k then at else if at == k then -1 else at - 1;
  }

  lemma InsertedAt(slots: seq<Slot>, x: Slot, m: nat)
    requires Ascending(slots) && !Holds(slots, x.ext) && m <= |slots|
    ensures var k := Place(slots, x.ext);
      Inserted(slots, x)[m] == if m < k then slots[m] else if m == k then x else slots[m - 1]
  {
    hide Inserted, Ascending, Holds, Place;
    InsertedAscends(slots, x);
  }

  lemma GateOpensWithKey(c: Config, es: seq<Event>)
    requires IsNormal(c) && es != []
    requires After(c, es[..|es| - 1]).started ==> KeyPushed(es[..|es| - 1], GateClosed(es[..|es| - 1]), |es| - 1)
    requires c.startOnKeyFrame
    ensures After(c, es).started ==> KeyPushed(es, GateClosed(es), |es|)
  {
    hide Pushed, FateOf;
    var n := |es| - 1;
    var s := After(c, es[..n]);
    if After(c, es).started && !es[n].Drop? {
      if s.started { KeyPushedEarlier(es, GateClosed(es), n); }
      else if es[n].Push? {
        PushedIs(c, s, es[n].frame, es[n].nowMs);
        ClosedGateTakesKeys(s, es[n].frame);
        assert es[n].frame.isKey;
      }
    }
  }

  lemma ClosedGateTakesKeys(s: State, f: Frame)
    ensures !s.started && (FateOf(s, f).Late? || FateOf(s, f).Kept?) ==> f.isKey
    ensures FateOf(s, f).Kept? ==> s.started || f.isKey
  {
  }

  /** With the gate enabled: everything buffered, and so everything that can be delivered, is a key frame or was
      pushed after one since the gate last closed. */
  lemma {:induction false} GateHolds(c: Config, es: seq<Event>)
    requires IsNormal(c) && c.startOnKeyFrame
    ensures Gated(c, es)
  {
    hide Next, CameThroughGate, KeyPushed;
    if es == [] {
      assert !Start(c, 0).started;
    } else {
      var n := |es| - 1;
      var s := After(c, es[..n]);
      GateHolds(c, es[..n]);
      RunKeeps(c, es[..n]);
      GateOpensWithKey(c, es);
      forall i | 0 <= i < |After(c, es).pending|
        ensures CameThroughGate(es, After(c, es).pending[i].frame)
      {
        PushedCameThrough(c, es);
        var j := PendingComesFrom(c, s, es[n], i);
        if j != -1 { CameThroughEarlier(es, s.pending[j].frame); }
      }
    }
  }

  lemma PushedCameThrough(c: Config, es: seq<Event>)
    requires IsNormal(c) && es != [] && Gated(c, es[..|es| - 1])
    ensures var n := |es| - 1;
      es[n].Push? && FateOf(After(c, es[..n]), es[n].frame).Kept? ==> CameThroughGate(es, es[n].frame)
  {
    hide FateOf, After;
    var n := |es| - 1;
    if es[n].Push? && FateOf(After(c, es[..n]), es[n].frame).Kept? {
      ClosedGateTakesKeys(After(c, es[..n]), es[n].frame);
      if !es[n].frame.isKey { KeyPushedEarlier(es, GateClosed(es), n); }
    }
  }

  /** The frame a pop hands out. */
  predicate HandsOut(c: Config, es: seq<Event>, n: nat, f: Frame)
    requires IsNormal(c) && n < |es|
  {
    var s := After(c, es[..n]);
    es[n].Pop? && CanPop(s, es[n].nowMs) && s.pending[0].frame == f
  }

  /** The frames delivered so far. */
  function DeliveredFrames(c: Config, es: seq<Event>): seq<Frame>
    requires IsNormal(c)
  {
    if es == [] then []
    else
      var before, e := After(c, es[..|es| - 1]), es[|es| - 1];
      DeliveredFrames(c, es[..|es| - 1]) + if e.Pop? && CanPop(before, e.nowMs) then [before.pending[0].frame] else []
  }

  /** With the gate enabled, every frame ever delivered was a key frame, or was pushed after one since the
      resynchronisation that last closed the gate before its delivery. */
  lemma {:induction false} DeliveredCameThroughGate(c: Config, es: seq<Event>, i: nat) returns (n: nat)
    requires IsNormal(c) && c.startOnKeyFrame && i < |DeliveredFrames(c, es)|
    ensures n < |es| && HandsOut(c, es, n, DeliveredFrames(c, es)[i]) && CameThroughGate(es[..n], DeliveredFrames(c, es)[i])
    decreases |es|
  {
    hide After, CameThroughGate;
    var m := |es| - 1;
    if i < |DeliveredFrames(c, es[..m])| {
      n := DeliveredCameThroughGate(c, es[..m], i);
      assert es[..m][..n] == es[..n];
    } else {
      n := m;
      GateHolds(c, es[..m]);
    }
  }

  // ----- "The next delivered frame is a key frame" -----

  /** What the promise needs: a closed gate over an empty buffer, or a key frame at the front. */
  predicate KeyFirst(s: State) {
    if s.pending == [] then !s.started else s.pending[0].frame.isKey
  }

  /** Whether pushing `f` keeps it, from what the buffer looks like before the push. */
  predicate KeepsKeyFirst(c: Config, s: State, f: Frame) {
    var p, ext := s.pending, Ext(s, f);
    match FateOf(s, f)
    case Duplicate => true
    case BeforeKey => true
    case Late => p != []
    case Kept =>
      if p == [] then true
      else if |p| < c.hardLimitFrames then f.isKey || p[0].ext < ext
      else ext < p[0].ext || (if |p| == 1 || ext < p[1].ext then f.isKey else p[1].frame.isKey)
  }

  lemma KeyFirstExactly(c: Config, s: State, f: Frame, nowMs: DE.Clock)
    requires IsNormal(c) && DE.Deltas(s.estimator.deltas) && Shape(c, s) && KeyFirst(s)
    ensures KeyFirst(Pushed(c, s, f, nowMs)) <==> KeepsKeyFirst(c, s, f)
  {
    hide Pushed, Inserted, DE.Observed, Extended, TooLate, Holds;
    PushedIs(c, s, f, nowMs);
    if FateOf(s, f).Kept? { FrontAfterPush(c, s, f, NewSlot(c, s, f, nowMs)); }
  }

  /** The frame at the front after an accepted push. */
  lemma FrontAfterPush(c: Config, s: State, f: Frame, x: Slot)
    requires IsNormal(c) && Shape(c, s) && !Holds(s.pending, x.ext) && x.frame == f
    ensures var p, kept := s.pending, WithoutOldest(Inserted(s.pending, x), c.hardLimitFrames);
      var r := Forced(kept, Overdue(kept, c.maxFrames));
      r != [] && r[0].frame ==
        if p == [] then f
        else if |p| < c.hardLimitFrames then (if p[0].ext < x.ext then p[0].frame else f)
        else if x.ext < p[0].ext then p[0].frame
        else if |p| == 1 || x.ext < p[1].ext then f
        else p[1].frame
  {
    hide Inserted, Ascending, Holds;
    InsertedFront(s.pending, x);
    ShapeAscends(c, s);
  }

  lemma InsertedFront(p: seq<Slot>, x: Slot)
    requires Ascending(p) && !Holds(p, x.ext)
    ensures Inserted(p, x)[0] == if p != [] && p[0].ext < x.ext then p[0] else x
    ensures p != [] ==>
      (Inserted(p, x)[1] == if x.ext < p[0].ext then p[0] else if |p| == 1 || x.ext < p[1].ext then x else p[1])
  {
    InsertedAscends(p, x);
    hide Inserted;
    var k := Place(p, x.ext);
    assert k < |p| ==> p[k].ext != x.ext;
    assert k > 1 ==> p[1].ext < x.ext;
  }

  /** Pushes and round-trip reports, each push meeting the condition when its turn comes. */
  ghost predicate Careful(c: Config, s: State, es: seq<Event>)
    requires IsNormal(c) && DE.Deltas(s.estimator.deltas)
    decreases |es|
  {
    es == []
    || ((match es[0]
         case Push(f, _) => KeepsKeyFirst(c, s, f)
         case SetRtt(_) => true
         case _ => false)
        && Careful(c, Next(c, s, es[0]), es[1..]))
  }

  function AfterFrom(c: Config, s: State, es: seq<Event>): (r: State)
    requires IsNormal(c) && DE.Deltas(s.estimator.deltas)
    ensures DE.Deltas(r.estimator.deltas)
    decreases |es|
  {
    if es == [] then s else AfterFrom(c, Next(c, s, es[0]), es[1..])
  }

  /** After a resynchronisation the next delivered frame is a key frame, as long as every push in between meets
      the condition. A push that does not meet it breaks the promise, though a later one may restore it: what
      holds over a whole run exactly is `JitterIntake.NextIsKeyExactly`. */
  lemma {:induction false} NextIsKey(c: Config, s: State, es: seq<Event>)
    requires IsNormal(c) && DE.Deltas(s.estimator.deltas) && Shape(c, s) && KeyFirst(s) && Careful(c, s, es)
    ensures KeyFirst(AfterFrom(c, s, es)) && Shape(c, AfterFrom(c, s, es))
    decreases |es|
  {
    hide Pushed, KeepsKeyFirst;
    if es != [] {
      StepKeepsShape(c, s, es[0]);
      match es[0]
      case Push(f, nowMs) => KeyFirstExactly(c, s, f, nowMs); NextIsKey(c, Next(c, s, es[0]), es[1..]);
      case SetRtt(_) => NextIsKey(c, Next(c, s, es[0]), es[1..]);
    }
  }

  lemma ResyncIsKeyFirst(c: Config, s: State)
    requires c.startOnKeyFrame
    ensures KeyFirst(Resynced(c, s)) && KeyFirst(Start(c, 0))
  {
  }

  function Video(id: u32, isKey: bool): Frame {
    Frame(id, 0, isKey, [])
  }

  function Fixed(maxFrames: nat, hardLimit: nat): (c: Config)
    requires hardLimit > 0
    ensures IsNormal(c)
  {
    Config(DE.Config(false, 0, 10000, 95, 5, 5, 500, 10, 30), maxFrames, hardLimit, true)
  }

  /** An accepted frame is alone in a buffer that was empty. */
  lemma PushOnEmpty(c: Config, s: State, f: Frame, nowMs: DE.Clock)
    requires IsNormal(c) && DE.Deltas(s.estimator.deltas) && s.pending == [] && FateOf(s, f).Kept?
    ensures var r, x := Pushed(c, s, f, nowMs), NewSlot(c, s, f, nowMs);
      && |r.pending| == 1 && r.pending[0].ext == x.ext && r.pending[0].frame == f && r.pending[0].playAtMs <= x.playAtMs
  {
    hide Pushed, FateOf, DE.Observed, Extended;
    PushedIs(c, s, f, nowMs);
  }

  /** The state after a first key frame. */
  lemma FirstFrame(c: Config, id: u32) returns (s: State)
    requires IsNormal(c) && c.startOnKeyFrame
    ensures s == After(c, [Push(Video(id, true), 0)])
    ensures |s.pending| == 1 && s.pending[0].ext == id && s.pending[0].frame == Video(id, true)
    ensures s.pending[0].playAtMs <= NewSlot(c, Start(c, 0), Video(id, true), 0).playAtMs
    ensures s.started && s.lastOut == None && s.anchor == Some(Anchor(id, id)) && Shape(c, s)
  {
    var es := [Push(Video(id, true), 0)];
    assert es[..0] == [];
    RunKeeps(c, es);
    hide Pushed, DE.Observed, Shape;
    s := After(c, es);
    PushedIs(c, Start(c, 0), Video(id, true), 0);
    PushOnEmpty(c, Start(c, 0), Video(id, true), 0);
  }

  lemma TwoEvents(c: Config, a: Event, b: Event)
    requires IsNormal(c)
    ensures After(c, [a, b]) == Next(c, After(c, [a]), b)
  {
    hide Next;
    assert [a, b][..1] == [a];
  }

  /** It does fail: a reordered older frame sorts ahead of the key frame that opened the gate. */
  lemma ReorderedFrameComesFirst()
    ensures var r := After(Fixed(16, 32), [Push(Video(6, true), 0), Push(Video(5, false), 0)]);
      r.pending != [] && r.pending[0].frame == Video(5, false)
  {
    hide After, Pushed, Shape, Fixed;
    var c, f := Fixed(16, 32), Video(5, false);
    TwoEvents(c, Push(Video(6, true), 0), Push(f, 0));
    SmallFixed(16, 32);
    var s := FirstFrame(c, 6);
    PushedIs(c, s, f, 0);
    FrontAfterPush(c, s, f, NewSlot(c, s, f, 0));
  }

  lemma SmallFixed(maxFrames: nat, hardLimit: nat)
    requires hardLimit > 0
    ensures var c := Fixed(maxFrames, hardLimit);
      c.startOnKeyFrame && c.maxFrames == maxFrames && c.hardLimitFrames == hardLimit && !c.delay.adaptive && c.delay.targetDelayMs == 0
  {
  }

  /** It does fail: the hard limit drops the key frame. */
  lemma HardLimitDropsTheKeyFrame()
    ensures var r := After(Fixed(1, 1), [Push(Video(5, true), 0), Push(Video(6, false), 0)]);
      r.pending != [] && r.pending[0].frame == Video(6, false)
  {
    hide After, Pushed, Shape, Fixed;
    var c, f := Fixed(1, 1), Video(6, false);
    TwoEvents(c, Push(Video(5, true), 0), Push(f, 0));
    SmallFixed(1, 1);
    var s := FirstFrame(c, 5);
    PushedIs(c, s, f, 0);
    FrontAfterPush(c, s, f, NewSlot(c, s, f, 0));
  }

  /** It does fail: a key frame that is itself too late opens the gate. */
  lemma LateKeyFrameOpensTheGate()
    ensures var r := After(Fixed(16, 32), [Push(Video(5, true), 0), Pop(0), Drop, Push(Video(3, true), 0), Push(Video(6, false), 0)]);
      r.pending != [] && r.pending[0].frame == Video(6, false)
  {
    hide After, Pushed, Shape, Fixed, DE.Observed, Extended;
    var c := Fixed(16, 32);
    NearbyNumbers();
    var es := [Push(Video(5, true), 0), Pop(0), Drop, Push(Video(3, true), 0), Push(Video(6, false), 0)];
    SmallFixed(16, 32);
    var s1 := FirstFrame(c, 5);
    DueAtOnce(c, 5);
    StepByStep(c, es);
    var s3 := Next(c, Next(c, s1, es[1]), es[2]);
    PushedIs(c, s3, Video(3, true), 0);
    var s4 := Pushed(c, s3, Video(3, true), 0);
    assert s4.pending == [] && s4.started && s4.lastOut == Some(5) && s4.anchor == Some(Anchor(3, 3));
    PushOnEmpty(c, s4, Video(6, false), 0);
  }

  lemma NearbyNumbers()
    ensures Extended(Some(Anchor(5, 5)), 3) == Anchor(3, 3) && Extended(Some(Anchor(3, 3)), 6) == Anchor(6, 6)
  {
  }

  lemma DueAtOnce(c: Config, id: u32)
    requires IsNormal(c) && !c.delay.adaptive && c.delay.targetDelayMs == 0
    ensures NewSlot(c, Start(c, 0), Video(id, true), 0).playAtMs == 0
  {
  }

  lemma StepByStep(c: Config, es: seq<Event>)
    requires IsNormal(c) && |es| == 5
    ensures After(c, es) == Next(c, Next(c, Next(c, Next(c, After(c, [es[0]]), es[1]), es[2]), es[3]), es[4])
  {
    hide Next;
    assert es[..4][..3] == es[..3] && es[..3][..2] == es[..2] && es[..2][..1] == [es[0]];
    assert After(c, es) == Next(c, After(c, es[..4]), es[4]);
    assert After(c, es[..4]) == Next(c, After(c, es[..3]), es[3]);
    assert After(c, es[..3]) == Next(c, After(c, es[..2]), es[2]);
    assert After(c, es[..2]) == Next(c, After(c, [es[0]]), es[1]);
  }

  // ----- Extended frame numbers -----

  /** The anchor after frames with the unbounded numbers `xs` have been pushed. */
  function AnchorAfter(xs: seq<int>): (a: Option<Anchor>)
    ensures a.Some? <==> xs != []
  {
    if xs == [] then None else Some(Extended(AnchorAfter(xs[..|xs| - 1]), Wrap(xs[|xs| - 1])))
  }

  /** Each number lies within half a turn of the one before it. */
  ghost predicate SmallSteps(xs: seq<int>) {
    forall i, j :: 0 <= i < j < |xs| && j == i + 1 ==> -HALF <= xs[j] - xs[i] < HALF
  }

  const MOD64: int := 0x1_0000_0000_0000_0000

  lemma SignedDistance(x: int, y: int)
    requires -HALF <= x - y < HALF
    ensures Signed(Sub(Wrap(x), Wrap(y))) == x - y
  {
    DifferenceModulo(x, y);
    if x < y { QuotientUnique(x - y, -1, x - y + MOD); }
  }

  /** The extended number is the unbounded one, counted from where the first frame's 32-bit number puts it, modulo
      2^64; so it is that number exactly when that number is neither negative nor too large. */
  lemma {:induction false} ExtendedIs(xs: seq<int>)
    requires xs != [] && SmallSteps(xs)
    ensures var a, y := AnchorAfter(xs).value, Wrap(xs[0]) + xs[|xs| - 1] - xs[0];
      && a.frameId == Wrap(xs[|xs| - 1])
      && a.ext == y % MOD64
      && (a.ext == y <==> 0 <= y < MOD64)
    decreases |xs|
  {
    hide Sub, Wrap, Signed;
    var n := |xs| - 1;
    if n > 0 {
      var init := xs[..n];
      assert init[|init| - 1] == xs[n - 1] && init[0] == xs[0];
      ExtendedIs(init);
      SignedDistance(xs[n], xs[n - 1]);
      SumModulo(Wrap(xs[0]) + xs[n - 1] - xs[0], xs[n] - xs[n - 1]);
    }
  }

  lemma SumModulo(y: int, d: int)
    ensures (y % MOD64 + d) % MOD64 == (y + d) % MOD64
  {
    assert y % MOD64 + d == (y + d) - MOD64 * (y / MOD64);
  }

  /** It does fail below zero: frame 0 first, then the one before it, and the older frame sorts last of all. */
  lemma OneBeforeFrameZero()
    ensures AnchorAfter([0, -1]).value.ext == MOD64 - 1
  {
    assert [0, -1][..1] == [0] && [0][..0] == [];
  }

  /** Where both are exact, extended numbers are ordered as the unbounded ones are. */
  lemma ExtendedOrder(xs: seq<int>, i: nat, j: nat)
    requires SmallSteps(xs) && i < |xs| && j < |xs|
    requires xs[i] - xs[0] + Wrap(xs[0]) >= 0 && xs[j] - xs[0] + Wrap(xs[0]) >= 0
    requires xs[i] - xs[0] + Wrap(xs[0]) < MOD64 && xs[j] - xs[0] + Wrap(xs[0]) < MOD64
    ensures AnchorAfter(xs[..i + 1]).value.ext < AnchorAfter(xs[..j + 1]).value.ext <==> xs[i] < xs[j]
  {
    hide Wrap;
    ExtendedIs(xs[..i + 1]);
    ExtendedIs(xs[..j + 1]);
  }

  function Frames(es: seq<Event>): seq<Frame> {
    if es == [] then [] else Frames(es[..|es| - 1]) + if es[|es| - 1].Push? then [es[|es| - 1].frame] else []
  }

  /** The buffer's anchor is the one all pushed frames leave, whatever became of them. */
  lemma {:induction false} AnchorFollows(c: Config, es: seq<Event>, xs: seq<int>)
    requires IsNormal(c) && |xs| == |Frames(es)| && forall i :: 0 <= i < |xs| ==> Frames(es)[i].frameId == Wrap(xs[i])
    ensures After(c, es).anchor == AnchorAfter(xs)
  {
    hide Pushed, Wrap, Extended;
    if es != [] {
      var n := |es| - 1;
      if es[n].Push? {
        PushedIs(c, After(c, es[..n]), es[n].frame, es[n].nowMs);
        AnchorFollows(c, es[..n], xs[..|xs| - 1]);
      } else {
        AnchorFollows(c, es[..n], xs);
      }
    }
  }
}
