/**
 The delay estimator over whole runs: how fast the level can fall, what the window
 holds, what the percentiles mean.
 */
module DelayRuns {
  import opened Basics
  import opened Cyclic
  import opened OrderStatistics
  import opened DelayEstimator

  datatype Event = Observe(timestampMs: u32, nowMs: Clock) | SetRtt(rttMs: i32)

  function Next(c: Config, s: State, e: Event): (r: State)
    requires IsNormal(c) && Deltas(s.deltas)
    ensures Deltas(r.deltas)
  {
    match e
    case Observe(timestampMs, nowMs) => Observed(c, s, timestampMs, nowMs)
    case SetRtt(rttMs) => if rttMs <= 0 then s else s.(rttMs := rttMs, stats := s.stats.(rttMs := rttMs))
  }

  function After(c: Config, s: State, es: seq<Event>): (r: State)
    requires IsNormal(c) && Deltas(s.deltas)
    ensures Deltas(r.deltas)
  {
    if es == [] then s else Next(c, After(c, s, es[..|es| - 1]), es[|es| - 1])
  }

  /** The last time `es` observes at, `t` if it observes never. */
  function LastTime(t: int, es: seq<Event>): int {
    if es == [] then t
    else match es[|es| - 1]
         case Observe(_, nowMs) => nowMs
         case SetRtt(_) => LastTime(t, es[..|es| - 1])
  }

  /** Time does not run backwards. */
  predicate InOrder(t: int, es: seq<Event>) {
    es == [] || (InOrder(t, es[..|es| - 1]) && (es[|es| - 1].Observe? ==> LastTime(t, es[..|es| - 1]) <= es[|es| - 1].nowMs))
  }

  // ----- How fast the level falls -----

  /** The level in thousandths, less the part of the next fall already earned. */
  function Potential(s: State): int {
    1000 * s.level - s.remainder
  }

  /** After an observation in adaptive mode. */
  predicate Settled(c: Config, s: State, t: int) {
    s.level <= c.maxDelayMs && s.remainder < 1000 && s.lastObserve.Some? && s.lastObserve.value == t
  }

  lemma ScaledIsBounded(rate: nat, dt: nat, remainder: nat)
    requires remainder < 1000
    ensures 0 <= Scaled(rate, dt, remainder) <= rate * dt + remainder
    ensures rate * dt + remainder <= U64_MAX ==> Scaled(rate, dt, remainder) == rate * dt + remainder
  {
  }

  lemma FollowIsBounded(c: Config, level: i32, remainder: nat, samples: nat, raw: i32, dt: nat)
    requires c.downRateMsPerSec > 0 && remainder < 1000
    ensures var l := Follow(c, level, remainder, samples, raw, dt);
      && l.remainder < 1000
      && 1000 * l.ms - l.remainder >= 1000 * level - remainder - c.downRateMsPerSec * dt
      && (l.ms > level || l.raised ==> l.ms == raw && l.remainder == 0)
      && (l.limited && c.downRateMsPerSec * dt + remainder <= 1000 * (level - INT_MIN) ==>
            1000 * l.ms - l.remainder == 1000 * level - remainder - c.downRateMsPerSec * dt)
  {
    ScaledIsBounded(c.downRateMsPerSec, dt, remainder);
    var drop: int := c.downRateMsPerSec * dt;
    assert drop >= 0 by { Scaling(c.downRateMsPerSec, c.downRateMsPerSec, dt); }
    hide Scaled;
  }

  /** What one adaptive observation does to the level: it follows `raw` and is kept in [`floor`, `maxDelayMs`]. */
  predicate Levels(c: Config, s: State, r: State, nowMs: Clock, samples: nat, raw: i32, floor: i32) {
    var l := Follow(c, s.level, s.remainder, samples, raw, Elapsed(s.lastObserve, nowMs));
    && c.minDelayMs <= floor <= c.maxDelayMs
    && r.level == Clamp(l.ms, floor, c.maxDelayMs) && r.remainder == l.remainder && r.lastObserve == Some(nowMs)
    && r.stats.downRateLimited == s.stats.downRateLimited + (if l.limited then 1 else 0)
    && r.stats.clampedHigh == s.stats.clampedHigh + (if l.ms > c.maxDelayMs then 1 else 0)
    && r.stats.clampedLow == s.stats.clampedLow + (if l.ms < floor then 1 else 0)
  }

  lemma ObservedLevels(c: Config, s: State, timestampMs: u32, nowMs: Clock) returns (samples: nat, raw: i32, floor: i32)
    requires IsNormal(c) && c.adaptive && Deltas(s.deltas)
    ensures var r := Observed(c, s, timestampMs, nowMs);
      && Levels(c, s, r, nowMs, samples, raw, floor)
      && samples == |r.window| && raw == Raw(c, r.window) && floor == r.stats.effectiveMinDelayMs
  {
    hide Raw, Recent, Follow, Floor, Quartile, Sub, PercentileOffset;
    var r := Observed(c, s, timestampMs, nowMs);
    samples, raw, floor := |r.window|, Raw(c, r.window), r.stats.effectiveMinDelayMs;
  }

  /** One step lowers the potential by no more than the rate times the time that passed; and by exactly that much
      when it was held back by the rate and not clamped. */
  lemma StepIsBounded(c: Config, s: State, e: Event, t: int)
    requires IsNormal(c) && c.adaptive && c.downRateMsPerSec > 0 && Deltas(s.deltas) && Settled(c, s, t)
    requires e.Observe? ==> t <= e.nowMs
    ensures var r, u := Next(c, s, e), if e.Observe? then e.nowMs else t;
      && Settled(c, r, u)
      && Potential(r) >= Potential(s) - c.downRateMsPerSec * (u - t)
      && (e.Observe? && IsPureFall(c, s, r, u - t) ==> Potential(r) == Potential(s) - c.downRateMsPerSec * (u - t))
  {
    hide Observed, Follow;
    match e
    case Observe(timestampMs, nowMs) =>
      var samples, raw, floor := ObservedLevels(c, s, timestampMs, nowMs);
      FollowIsBounded(c, s.level, s.remainder, samples, raw, nowMs - t);
      Scaling(c.downRateMsPerSec, c.downRateMsPerSec, nowMs - t);
    case SetRtt(_) =>
  }

  /** Held back by the rate, not clamped, and with room to fall in the range of int. */
  predicate IsPureFall(c: Config, s: State, r: State, dt: int) {
    && r.stats.downRateLimited > s.stats.downRateLimited
    && r.stats.clampedHigh == s.stats.clampedHigh && r.stats.clampedLow == s.stats.clampedLow
    && c.downRateMsPerSec * dt + s.remainder <= 1000 * (s.level - INT_MIN)
  }

  /** Every observation of the run is a pure fall. */
  predicate PureFalls(c: Config, s: State, t: int, es: seq<Event>)
    requires IsNormal(c) && Deltas(s.deltas)
  {
    es == []
    || (var n := |es| - 1;
        && PureFalls(c, s, t, es[..n])
        && (es[n].Observe? ==> IsPureFall(c, After(c, s, es[..n]), After(c, s, es), es[n].nowMs - LastTime(t, es[..n]))))
  }

  lemma {:induction false} PotentialOverRun(c: Config, s: State, t: int, es: seq<Event>)
    requires IsNormal(c) && c.adaptive && c.downRateMsPerSec > 0 && Deltas(s.deltas) && Settled(c, s, t) && InOrder(t, es)
    ensures Settled(c, After(c, s, es), LastTime(t, es)) && LastTime(t, es) >= t
    ensures Potential(After(c, s, es)) >= Potential(s) - c.downRateMsPerSec * (LastTime(t, es) - t)
    ensures PureFalls(c, s, t, es) ==> Potential(After(c, s, es)) == Potential(s) - c.downRateMsPerSec * (LastTime(t, es) - t)
  {
    hide Next, IsPureFall, Potential, Settled, IsNormal, Deltas;
    if es != [] {
      var n := |es| - 1;
      PotentialOverRun(c, s, t, es[..n]);
      var t1, u := LastTime(t, es[..n]), LastTime(t, es);
      StepIsBounded(c, After(c, s, es[..n]), es[n], t1);
      Distribute(c.downRateMsPerSec, t1 - t, u - t1);
      if !es[n].Observe? { StepKeepsPotential(c, After(c, s, es[..n]), es[n]); }
    }
  }

  lemma StepKeepsPotential(c: Config, s: State, e: Event)
    requires IsNormal(c) && Deltas(s.deltas) && !e.Observe?
    ensures Potential(Next(c, s, e)) == Potential(s)
  {
    hide Observed;
  }

  lemma Distribute(k: int, a: int, b: int)
    ensures k * (a + b) == k * a + k * b
  {
  }

  /** Bounded shrink. In adaptive mode, with a positive rate and time that does not run backwards: from any
      observation on, however the time is divided and whatever is observed, the level falls by no more than the
      rate allows for the time that passed, to within a thousandth of what is carried over; and by exactly that,
      up to the carried remainders, when every step was held back by the rate and none was clamped. */
  lemma ShrinkIsBounded(c: Config, s: State, first: Event, es: seq<Event>)
    requires IsNormal(c) && c.adaptive && c.downRateMsPerSec > 0 && Deltas(s.deltas) && s.remainder < 1000
    requires first.Observe? && InOrder(first.nowMs, es)
    ensures var i, u := Next(c, s, first), LastTime(first.nowMs, es); var j := After(c, i, es);
      && 1000 * (i.level - j.level) <= c.downRateMsPerSec * (u - first.nowMs) + 999
      && (PureFalls(c, i, first.nowMs, es) ==>
            1000 * (i.level - j.level) == c.downRateMsPerSec * (u - first.nowMs) + i.remainder - j.remainder)
  {
    hide Next, PureFalls, After, InOrder, LastTime, IsNormal, Deltas;
    FirstSettles(c, s, first);
    PotentialOverRun(c, Next(c, s, first), first.nowMs, es);
  }

  /** Every observation leaves the level between the effective floor and the maximum. */
  lemma FirstSettles(c: Config, s: State, e: Event)
    requires IsNormal(c) && c.adaptive && Deltas(s.deltas) && s.remainder < 1000 && e.Observe?
    ensures var r := Next(c, s, e);
      && Settled(c, r, e.nowMs)
      && c.minDelayMs <= r.stats.effectiveMinDelayMs <= r.level <= c.maxDelayMs
  {
    var samples, raw, floor := ObservedLevels(c, s, e.timestampMs, e.nowMs);
    hide Observed;
  }

  // ----- What the window holds -----

  /** What has been observed, oldest first. */
  function Seen(es: seq<Event>): seq<Sample> {
    if es == [] then []
    else Seen(es[..|es| - 1]) + match es[|es| - 1]
                                case Observe(timestampMs, nowMs) => [Sample(nowMs, nowMs - timestampMs)]
                                case SetRtt(_) => []
  }

  lemma {:induction false} RecentIsSuffix(c: Config, w: seq<Sample>, nowMs: Clock)
    ensures Recent(c, w, nowMs) == w[|w| - |Recent(c, w, nowMs)|..]
  {
    if w != [] && Outdated(c, w[0], nowMs) { RecentIsSuffix(c, w[1..], nowMs); }
  }

  lemma {:induction false} RecentIsExact(c: Config, w: seq<Sample>, nowMs: Clock, k: nat)
    requires (forall i, j :: 0 <= i < j < |w| ==> w[i].atMs <= w[j].atMs) && (forall i :: 0 <= i < |w| ==> w[i].atMs <= nowMs)
    requires k < |w|
    ensures k >= |w| - |Recent(c, w, nowMs)| <==> nowMs - w[k].atMs <= c.windowMs
  {
    if Outdated(c, w[0], nowMs) && k > 0 { RecentIsExact(c, w[1..], nowMs, k - 1); }
  }

  predicate EndsWith(seen: seq<Sample>, w: seq<Sample>) {
    |w| <= |seen| && w == seen[|seen| - |w|..]
  }

  /** In adaptive mode the window is the end of what was observed. */
  lemma {:induction false} WindowIsSuffix(c: Config, rttMs: i32, es: seq<Event>)
    requires IsNormal(c) && c.adaptive
    ensures var s, seen := After(c, Start(c, rttMs), es), Seen(es);
      && EndsWith(seen, s.window)
      && s.stats.samplesSeen == |seen| == s.stats.samplesEvicted + |s.window|
  {
    hide Next, Recent, Floor, EndsWith;
    if es == [] {
      NothingSeen(c, rttMs);
    } else {
      var n := |es| - 1;
      var before, seen := After(c, Start(c, rttMs), es[..n]), Seen(es[..n]);
      WindowIsSuffix(c, rttMs, es[..n]);
      WindowStep(c, before, es[n]);
      if es[n].Observe? {
        var sample := Sample(es[n].nowMs, es[n].nowMs - es[n].timestampMs);
        SuffixOfSuffix(seen, before.window, sample, After(c, Start(c, rttMs), es).window);
      } else {
        assert seen + [] == seen;
      }
    }
  }

  lemma NothingSeen(c: Config, rttMs: i32)
    requires IsNormal(c)
    ensures EndsWith(Seen([]), After(c, Start(c, rttMs), []).window)
  {
  }

  lemma SuffixOfSuffix(seen: seq<Sample>, w: seq<Sample>, x: Sample, r: seq<Sample>)
    requires EndsWith(seen, w) && EndsWith(w + [x], r)
    ensures EndsWith(seen + [x], r)
  {
    assert w + [x] == (seen + [x])[|seen| - |w|..];
  }

  lemma WindowStep(c: Config, s: State, e: Event)
    requires IsNormal(c) && c.adaptive && Deltas(s.deltas)
    ensures var r := Next(c, s, e);
      match e
      case SetRtt(_) => r.window == s.window && r.stats.samplesSeen == s.stats.samplesSeen && r.stats.samplesEvicted == s.stats.samplesEvicted
      case Observe(timestampMs, nowMs) =>
        var all := s.window + [Sample(nowMs, nowMs - timestampMs)];
        && r.window == Recent(c, all, nowMs) && EndsWith(all, r.window)
        && r.stats.samplesSeen == s.stats.samplesSeen + 1
        && r.stats.samplesEvicted == s.stats.samplesEvicted + |all| - |r.window|
  {
    hide Raw, Follow, Floor, Quartile, Sub, PercentileOffset, Recent;
    match e
    case Observe(timestampMs, nowMs) => RecentIsSuffix(c, s.window + [Sample(nowMs, nowMs - timestampMs)], nowMs);
    case _ =>
  }

  lemma {:induction false} SeenInOrder(es: seq<Event>)
    requires InOrder(0, es)
    ensures forall i, j :: 0 <= i < j < |Seen(es)| ==> Seen(es)[i].atMs <= Seen(es)[j].atMs
    ensures forall i :: 0 <= i < |Seen(es)| ==> Seen(es)[i].atMs <= LastTime(0, es)
  {
    if es != [] { SeenInOrder(es[..|es| - 1]); }
  }

  /** ... and, if time does not run backwards, exactly the samples at most `windowMs` old at the last observation. */
  lemma {:induction false} WindowIsExact(c: Config, rttMs: i32, es: seq<Event>, k: nat)
    requires IsNormal(c) && c.adaptive && InOrder(0, es) && k < |Seen(es)|
    ensures k >= |Seen(es)| - |After(c, Start(c, rttMs), es).window| <==> LastTime(0, es) - Seen(es)[k].atMs <= c.windowMs
  {
    hide Next, Recent;
    var n := |es| - 1;
    var before, seen := After(c, Start(c, rttMs), es[..n]), Seen(es[..n]);
    WindowIsSuffix(c, rttMs, es[..n]);
    WindowStep(c, before, es[n]);
    if es[n].SetRtt? {
      WindowIsExact(c, rttMs, es[..n], k);
    } else {
      var gone := |seen| - |before.window|;
      if k < gone { WindowIsExact(c, rttMs, es[..n], k); }
      else {
        SeenInOrder(es);
        var all := before.window + [Sample(es[n].nowMs, es[n].nowMs - es[n].timestampMs)];
        assert all == Seen(es)[gone..];
        RecentIsExact(c, all, es[n].nowMs, k - gone);
      }
    }
  }

  // ----- What the percentiles mean -----

  /** The percentile of a window of `n` samples is the element with rank floor(p * (n - 1) / 100), counted from 0:
      it is `d` exactly when at most that many samples are below `d` and more are at most `d`. */
  lemma PercentileIs(w: seq<Sample>, percentile: int, d: int)
    requires 0 <= percentile <= 100 && w != []
    ensures PercentileOffset(w, percentile) == d
       <==> Below(Offsets(w), d) <= percentile * (|w| - 1) / 100 < Below(Offsets(w), d + 1)
  {
    KthIs(Offsets(w), Index(percentile, |w|), d);
  }

  /** The measured jitter is never negative when the percentiles are in order. */
  lemma RawIsNatural(c: Config, w: seq<Sample>)
    requires IsNormal(c) && c.floorPercentile <= c.delayPercentile
    ensures Raw(c, w) >= 0
  {
    if w != [] {
      Scaling(c.floorPercentile, c.delayPercentile, |w| - 1);
      assert Index(c.floorPercentile, |w|) <= Index(c.delayPercentile, |w|);
      SortedAscends(Offsets(w));
    }
    hide Sorted, Offsets;
  }

  /** The frame interval is exactly `d` when, of the last fifteen time stamp differences, at most three are below
      `d` and at least four are at most `d`; and only then. */
  lemma FrameIntervalIs(s: State, timestampMs: u32, d: int)
    requires Deltas(s.deltas) && s.lastTimestamp.Some? && |Timed(s, timestampMs).deltas| == 15
    ensures var r := Timed(s, timestampMs);
      r.stats.frameIntervalMs == d <==> Below(r.deltas, d) <= 3 && Below(r.deltas, d + 1) >= 4
  {
    var r := Timed(s, timestampMs);
    KthIs(r.deltas, 3, d);
    hide Sorted, Below, Sub;
  }

  // ----- Room in 64 bits -----

  predicate FitsInt64(x: int) {
    -0x8000_0000_0000_0000 <= x <= 0x7FFF_FFFF_FFFF_FFFF
  }

  /** A clock reading less a 32-bit time stamp. */
  predicate IsOffset(x: int) {
    -0xFFFF_FFFF <= x < 0x7FFF_FFFE_8000_0000
  }

  ghost predicate OffsetsFit(s: State) {
    && (forall i :: 0 <= i < |s.window| ==> IsOffset(s.window[i].offsetMs))
    && (s.floorOffset.Some? ==> IsOffset(s.floorOffset.value))
  }

  lemma PercentileFits(w: seq<Sample>, percentile: int)
    requires 0 <= percentile <= 100 && forall i :: 0 <= i < |w| ==> IsOffset(w[i].offsetMs)
    ensures IsOffset(PercentileOffset(w, percentile))
  {
    hide Index;
    if w != [] {
      var ds, k := Offsets(w), Index(percentile, |w|);
      KthByCount(ds, k, -0xFFFF_FFFF);
      KthByCount(ds, k, 0x7FFF_FFFE_8000_0000);
      BelowBounds(ds, -0xFFFF_FFFF, 0x7FFF_FFFE_8000_0000);
    }
  }

  /** What the source computes in signed 64-bit arithmetic for one observation: the offset, the spread of the two
      percentiles, and the time to play. */
  predicate Computes64(c: Config, r: State, timestampMs: u32, nowMs: Clock)
    requires IsNormal(c)
  {
    && FitsInt64(nowMs - timestampMs)
    && FitsInt64(PercentileOffset(r.window, c.delayPercentile) - PercentileOffset(r.window, c.floorPercentile))
    && (r.floorOffset.Some? ==> FitsInt64(timestampMs + r.floorOffset.value) && FitsInt64(timestampMs + r.floorOffset.value + r.level))
  }

  lemma ObservedFits(c: Config, s: State, timestampMs: u32, nowMs: Clock)
    requires IsNormal(c) && Deltas(s.deltas) && OffsetsFit(s)
    ensures OffsetsFit(Observed(c, s, timestampMs, nowMs))
    ensures Computes64(c, Observed(c, s, timestampMs, nowMs), timestampMs, nowMs)
  {
    hide PercentileOffset, Levelled, Recent, Timed;
    var r := Observed(c, s, timestampMs, nowMs);
    var counted := s.(stats := s.stats.(samplesSeen := s.stats.samplesSeen + 1));
    TimedLeaves(counted, timestampMs);
    if c.adaptive {
      var all := s.window + [Sample(nowMs, nowMs - timestampMs)];
      RecentIsSuffix(c, all, nowMs);
      LevelledLeaves(c, Windowed(c, Timed(counted, timestampMs), Sample(nowMs, nowMs - timestampMs)), nowMs);
    }
    PercentileFits(r.window, c.delayPercentile);
    PercentileFits(r.window, c.floorPercentile);
  }

  lemma TimedLeaves(s: State, timestampMs: u32)
    requires Deltas(s.deltas)
    ensures Timed(s, timestampMs).window == s.window && Timed(s, timestampMs).floorOffset == s.floorOffset
  {
    hide Quartile, Sub, Signed;
  }

  lemma LevelledLeaves(c: Config, s: State, nowMs: Clock)
    requires IsNormal(c)
    ensures Levelled(c, s, nowMs).window == s.window
    ensures Levelled(c, s, nowMs).floorOffset == Some(PercentileOffset(s.window, c.floorPercentile))
  {
    hide PercentileOffset, Raw, Follow, Floor;
  }

  /** No signed 64-bit operation of `observe` overflows, whatever has been observed before. */
  lemma {:induction false} NothingOverflows(c: Config, rttMs: i32, es: seq<Event>)
    requires IsNormal(c)
    ensures OffsetsFit(After(c, Start(c, rttMs), es))
    ensures es != [] && es[|es| - 1].Observe? ==>
      Computes64(c, After(c, Start(c, rttMs), es), es[|es| - 1].timestampMs, es[|es| - 1].nowMs)
    decreases |es|
  {
    hide Observed, OffsetsFit, Computes64;
    if es == [] {
      StartFits(c, rttMs);
    } else {
      var m := |es| - 1;
      var before := After(c, Start(c, rttMs), es[..m]);
      NothingOverflows(c, rttMs, es[..m]);
      match es[m]
      case Observe(timestampMs, nowMs) => ObservedFits(c, before, timestampMs, nowMs);
      case SetRtt(_) => RttLeavesOffsets(c, before, es[m]);
    }
  }

  lemma StartFits(c: Config, rttMs: i32)
    requires IsNormal(c)
    ensures OffsetsFit(After(c, Start(c, rttMs), []))
  {
  }

  lemma RttLeavesOffsets(c: Config, s: State, e: Event)
    requires IsNormal(c) && Deltas(s.deltas) && OffsetsFit(s) && e.SetRtt?
    ensures OffsetsFit(Next(c, s, e))
  {
  }
}
