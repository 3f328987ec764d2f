/**
 Out of order in, in order and on time out (modules/transport/JitterBuffer.cpp).

 The ordered map of pending frames is a sequence, ascending by extended frame number.
 */
module JitterBuffer {
  import opened Basics
  import opened Cyclic
  import DE = DelayEstimator
  import opened Packet

  const SIZE_MAX: int := 0xFFFF_FFFF_FFFF_FFFF

  /** `JitterBufferConfig`. */
  datatype Config = Config(delay: DE.Config, maxFrames: nat, hardLimitFrames: nat, startOnKeyFrame: bool)

  /** `AssembledFrame`. */
  datatype Frame = Frame(frameId: u32, timestampMs: u32, isKey: bool, data: Bytes)

  /** A map entry: extended number, frame, time to play it. */
  datatype Slot = Slot(ext: u64, frame: Frame, playAtMs: nat)

  datatype Stats = Stats(framesIn: nat, framesOut: nat, framesTooLate: nat, framesDuplicate: nat, framesForcedEarly: nat,
                         framesDropped: nat, framesDroppedForResync: nat, framesBeforeKey: nat, framesSampledButDropped: nat)

  /** The last frame number seen, as received and extended. */
  datatype Anchor = Anchor(frameId: u32, ext: u64)

  datatype State = State(pending: seq<Slot>, anchor: Option<Anchor>, estimator: DE.State, lastOut: Option<u64>,
                         started: bool, stats: Stats)

  const ZERO: Stats := Stats(0, 0, 0, 0, 0, 0, 0, 0, 0)

  /** What the constructor makes of its argument. */
  function Normalized(c: Config): Config {
    c.(delay := DE.Normalized(c.delay),
       hardLimitFrames := if c.hardLimitFrames != 0 then c.hardLimitFrames
                          else if c.maxFrames > SIZE_MAX / 2 then SIZE_MAX
                          else Max(1, 2 * c.maxFrames))
  }

  predicate IsNormal(c: Config) {
    DE.IsNormal(c.delay) && c.hardLimitFrames > 0
  }

  function Start(c: Config, rttMs: DE.i32): State {
    State([], None, DE.Start(c.delay, rttMs), None, !c.startOnKeyFrame, ZERO)
  }

  // ----- Extended frame numbers -----

  /** `extendFrameId`: 64-bit arithmetic on the signed 32-bit distance from the last frame. */
  function Extended(anchor: Option<Anchor>, frameId: u32): Anchor {
    if anchor.None? then Anchor(frameId, frameId)
    else Anchor(frameId, (anchor.value.ext + Signed(Sub(frameId, anchor.value.frameId))) % 0x1_0000_0000_0000_0000)
  }

  // ----- The ordered map -----

  predicate Ascending(slots: seq<Slot>) {
    forall i, j :: 0 <= i < j < |slots| ==> slots[i].ext < slots[j].ext
  }

  predicate Holds(slots: seq<Slot>, ext: u64) {
    exists i :: 0 <= i < |slots| && slots[i].ext == ext
  }

  function Inserted(slots: seq<Slot>, x: Slot): (r: seq<Slot>)
    ensures |r| == |slots| + 1
  {
    if slots == [] || x.ext < slots[0].ext then [x] + slots else [slots[0]] + Inserted(slots[1..], x)
  }

  // ----- Capacity -----

  function WithoutOldest(slots: seq<Slot>, hardLimit: nat): (r: seq<Slot>)
    ensures |r| <= hardLimit
  {
    if |slots| > hardLimit then slots[|slots| - hardLimit..] else slots
  }

  /** The `n` oldest are due at once. */
  function Forced(slots: seq<Slot>, n: nat): (r: seq<Slot>)
    ensures |r| == |slots|
  {
    seq(|slots|, i requires 0 <= i < |slots| => if i < n then slots[i].(playAtMs := 0) else slots[i])
  }

  function Overdue(slots: seq<Slot>, maxFrames: nat): nat {
    if |slots| > maxFrames then |slots| - maxFrames else 0
  }

  /** How many of the `n` oldest were not due already. */
  function NotDue(slots: seq<Slot>, n: nat): nat
    requires n <= |slots|
  {
    if n == 0 then 0 else NotDue(slots, n - 1) + if slots[n - 1].playAtMs != 0 then 1 else 0
  }

  function Capped(c: Config, s: State): State {
    var kept := WithoutOldest(s.pending, c.hardLimitFrames);
    var n := Overdue(kept, c.maxFrames);
    s.(pending := Forced(kept, n),
       stats := s.stats.(framesDropped := s.stats.framesDropped + |s.pending| - |kept|,
                         framesForcedEarly := s.stats.framesForcedEarly + NotDue(kept, n)))
  }

  /** The newest up to the hard limit, and of these the oldest beyond the soft limit due at once. */
  lemma CappedSlots(c: Config, all: seq<Slot>)
    ensures var kept := WithoutOldest(all, c.hardLimitFrames); var r := Forced(kept, Overdue(kept, c.maxFrames));
      && |r| == Min(|all|, c.hardLimitFrames)
      && forall i :: 0 <= i < |r| ==>
           r[i] == var was := all[|all| - |r| + i]; if i < |r| - c.maxFrames then was.(playAtMs := 0) else was
  {
  }

  lemma KeptSize(all: seq<Slot>, hardLimit: nat)
    ensures |WithoutOldest(all, hardLimit)| <= |all|
  {
  }

  lemma OverdueIs(slots: seq<Slot>, maxFrames: nat)
    ensures Overdue(slots, maxFrames) == if |slots| > maxFrames then |slots| - maxFrames else 0
  {
  }

  lemma CappedIs(c: Config, s: State)
    ensures var kept := WithoutOldest(s.pending, c.hardLimitFrames); var n := Overdue(kept, c.maxFrames);
      Capped(c, s) == s.(pending := Forced(kept, n),
                         stats := s.stats.(framesDropped := s.stats.framesDropped + |s.pending| - |kept|,
                                           framesForcedEarly := s.stats.framesForcedEarly + NotDue(kept, n)))
  {
    hide Forced, NotDue;
  }

  // ----- The operations -----

  predicate TooLate(s: State, ext: u64) {
    s.lastOut.Some? && ext <= s.lastOut.value
  }

  function Pushed(c: Config, s: State, f: Frame, nowMs: DE.Clock): State
    requires IsNormal(c) && DE.Deltas(s.estimator.deltas)
  {
    var a := Extended(s.anchor, f.frameId);
    var s := s.(anchor := Some(a), stats := s.stats.(framesIn := s.stats.framesIn + 1));
    if Holds(s.pending, a.ext) then s.(stats := s.stats.(framesDuplicate := s.stats.framesDuplicate + 1))
    else
      var s := s.(estimator := DE.Observed(c.delay, s.estimator, f.timestampMs, nowMs));
      if !s.started && !f.isKey then
        s.(stats := s.stats.(framesBeforeKey := s.stats.framesBeforeKey + 1,
                             framesSampledButDropped := s.stats.framesSampledButDropped + 1))
      else
        var s := s.(started := true);
        if TooLate(s, a.ext) then
          s.(stats := s.stats.(framesTooLate := s.stats.framesTooLate + 1,
                               framesSampledButDropped := s.stats.framesSampledButDropped + 1))
        else
          Capped(c, s.(pending := Inserted(s.pending, Slot(a.ext, f, DueTime(s.estimator, f)))))
  }

  /** The time to play a frame, from the estimator as the frame left it. */
  function DueTime(e: DE.State, f: Frame): nat {
    if e.floorOffset.Some? then DE.PlayAt(f.timestampMs, e.floorOffset.value, e.level) else 0
  }

  predicate CanPop(s: State, nowMs: DE.Clock) {
    s.pending != [] && s.pending[0].playAtMs <= nowMs
  }

  function Popped(s: State, nowMs: DE.Clock): State {
    if !CanPop(s, nowMs) then s
    else s.(pending := s.pending[1..], lastOut := Some(s.pending[0].ext),
            stats := s.stats.(framesOut := s.stats.framesOut + 1))
  }

  function Resynced(c: Config, s: State): State {
    s.(pending := [], started := !c.startOnKeyFrame,
       stats := s.stats.(framesDroppedForResync := s.stats.framesDroppedForResync + |s.pending|))
  }

  function WithRtt(s: State, rttMs: DE.i32): State {
    if rttMs <= 0 then s
    else s.(estimator := s.estimator.(rttMs := rttMs, stats := s.estimator.stats.(rttMs := rttMs)))
  }

  class JitterBuffer {
    const config: Config
    const estimator: DE.DelayEstimator
    var pending: seq<Slot>
    var anchor: Option<Anchor>
    var lastOut: Option<u64>
    var started: bool
    var stats: Stats

    function Abs(): State
      reads this, estimator
    {
      State(pending, anchor, estimator.Abs(), lastOut, started, stats)
    }

    ghost predicate Valid()
      reads this, estimator
    {
      IsNormal(config) && estimator.Valid() && estimator.config == config.delay
    }

    constructor (config: Config)
      ensures Valid() && this.config == Normalized(config) && Abs() == Start(Normalized(config), 0)
      ensures this.config.maxFrames == config.maxFrames && this.config.startOnKeyFrame == config.startOnKeyFrame
      ensures this.config.hardLimitFrames ==
        if config.hardLimitFrames > 0 then config.hardLimitFrames
        else if config.maxFrames == 0 then 1
        else if 2 * config.maxFrames <= SIZE_MAX then 2 * config.maxFrames
        else SIZE_MAX
      ensures pending == [] && anchor == None && lastOut == None && started == !config.startOnKeyFrame
      ensures fresh(estimator)
    {
      this.config := Normalized(config);
      estimator := new DE.DelayEstimator(config.delay);
      pending, anchor, lastOut, started, stats := [], None, None, !config.startOnKeyFrame, ZERO;
    }

    method Push(frame: Frame, nowMs: DE.Clock)
      requires Valid()
      modifies this, estimator
      ensures Valid() && Abs() == Pushed(config, old(Abs()), frame, nowMs)
    {
      hide DE.Observed, DE.PlayAt, Capped, Inserted, Extended;
      stats := stats.(framesIn := stats.framesIn + 1);
      var extended := ExtendFrameId(frame.frameId);
      if Holds(pending, extended) {
        stats := stats.(framesDuplicate := stats.framesDuplicate + 1);
        return;
      }
      var playAtMs := estimator.Observe(frame.timestampMs, nowMs);
      if !started {
        if !frame.isKey {
          stats := stats.(framesBeforeKey := stats.framesBeforeKey + 1,
                          framesSampledButDropped := stats.framesSampledButDropped + 1);
          return;
        }
        started := true;
      }
      if lastOut.Some? && extended <= lastOut.value {
        stats := stats.(framesTooLate := stats.framesTooLate + 1,
                        framesSampledButDropped := stats.framesSampledButDropped + 1);
        return;
      }
      pending := Inserted(pending, Slot(extended, frame, playAtMs));
      EnforceCapacity();
    }

    method ExtendFrameId(frameId: u32) returns (ext: u64)
      modifies this`anchor
      ensures anchor == Some(Extended(old(anchor), frameId)) && ext == Extended(old(anchor), frameId).ext
    {
      if anchor.None? {
        anchor := Some(Anchor(frameId, frameId));
        return frameId;
      }
      var delta := Signed(Sub(frameId, anchor.value.frameId));
      ext := (anchor.value.ext + delta) % 0x1_0000_0000_0000_0000;
      anchor := Some(Anchor(frameId, ext));
    }

    method EnforceCapacity()
      modifies this`pending, this`stats
      ensures Abs() == Capped(config, old(Abs()))
      ensures |pending| == Min(old(|pending|), config.hardLimitFrames)
      ensures forall i :: 0 <= i < |pending| ==>
        pending[i] == var was := old(pending)[old(|pending|) - |pending| + i];
          if i < |pending| - config.maxFrames then was.(playAtMs := 0) else was
    {
      hide WithoutOldest, Forced, NotDue, Overdue, Capped;
      ghost var was := pending;
      CappedSlots(config, was);
      DropOldest();
      ghost var kept := pending;
      KeptSize(was, config.hardLimitFrames);
      var forcedCount := if |pending| > config.maxFrames then |pending| - config.maxFrames else 0;
      OverdueIs(kept, config.maxFrames);
      ForceOldest(forcedCount);
      CappedIs(config, old(Abs()));
    }

    method DropOldest()
      modifies this`pending, this`stats
      ensures pending == WithoutOldest(old(pending), config.hardLimitFrames)
      ensures stats == old(stats).(framesDropped := old(stats).framesDropped + |old(pending)| - |pending|)
    {
      ghost var all := pending;
      while |pending| > config.hardLimitFrames
        invariant |pending| <= |all| && pending == all[|all| - |pending|..]
        invariant |pending| == |all| || |pending| >= config.hardLimitFrames
        invariant stats == old(stats).(framesDropped := old(stats).framesDropped + |all| - |pending|)
      {
        pending := pending[1..];
        stats := stats.(framesDropped := stats.framesDropped + 1);
      }
    }

    method ForceOldest(forcedCount: nat)
      requires forcedCount <= |pending|
      modifies this`pending, this`stats
      ensures pending == Forced(old(pending), forcedCount)
      ensures stats == old(stats).(framesForcedEarly := old(stats).framesForcedEarly + NotDue(old(pending), forcedCount))
    {
      ghost var was := pending;
      for i := 0 to forcedCount
        invariant pending == Forced(was, i)
        invariant stats == old(stats).(framesForcedEarly := old(stats).framesForcedEarly + NotDue(was, i))
      {
        if pending[i].playAtMs != 0 {
          pending := pending[i := pending[i].(playAtMs := 0)];
          stats := stats.(framesForcedEarly := stats.framesForcedEarly + 1);
        }
      }
    }

    method Pop(nowMs: DE.Clock, before: Frame) returns (ok: bool, out: Frame)
      requires Valid()
      modifies this
      ensures Valid() && Abs() == Popped(old(Abs()), nowMs) && ok == CanPop(old(Abs()), nowMs)
      ensures out == if ok then old(pending)[0].frame else before
    {
      out := before;
      if pending == [] { return false, out; }
      var oldest := pending[0];
      if oldest.playAtMs > nowMs { return false, out; }
      out := oldest.frame;
      lastOut := Some(oldest.ext);
      pending := pending[1..];
      stats := stats.(framesOut := stats.framesOut + 1);
      ok := true;
    }

    /** What the receive loop may sleep: -1 if there is nothing to wait for, 0 if a frame is due, otherwise the time
        until one is, as far as an int can tell. */
    method MsUntilNextDue(nowMs: DE.Clock) returns (ms: int)
      requires Valid()
      ensures ms == -1 <==> pending == []
      ensures ms == 0 <==> CanPop(Abs(), nowMs)
      ensures -1 <= ms <= DE.INT_MAX
      ensures ms > 0 ==> forall t: DE.Clock :: t < nowMs + ms ==> !CanPop(Abs(), t)
      ensures 0 < ms < DE.INT_MAX ==> forall t: DE.Clock :: t >= nowMs + ms ==> CanPop(Abs(), t)
    {
      if pending == [] { return -1; }
      var due := pending[0].playAtMs;
      if due <= nowMs { return 0; }
      ms := Min(due - nowMs, DE.INT_MAX);
    }

    method SetRttMs(rttMs: DE.i32)
      requires Valid()
      modifies estimator
      ensures Valid() && Abs() == WithRtt(old(Abs()), rttMs)
      ensures estimator.rttMs == (if rttMs > 0 then rttMs else old(estimator.rttMs)) && estimator.stats.rttMs ==
        if rttMs > 0 then rttMs else old(estimator.stats.rttMs)
    {
      estimator.SetRttMs(rttMs);
    }

    method DropUntilKeyFrame()
      requires Valid()
      modifies this
      ensures Valid() && Abs() == Resynced(config, old(Abs()))
    {
      stats := stats.(framesDroppedForResync := stats.framesDroppedForResync + |pending|);
      pending := [];
      started := !config.startOnKeyFrame;
    }

    method Reset()
      requires Valid()
      modifies this, estimator
      ensures Valid() && Abs() == Start(config, old(estimator.rttMs))
    {
      pending, anchor, lastOut := [], None, None;
      estimator.Reset();
      started := !config.startOnKeyFrame;
      stats := ZERO;
    }
  }
}
