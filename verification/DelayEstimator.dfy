/**
 How long to hold frames back (modules/transport/DelayEstimator.cpp).

 Clock readings are below 2^63 - 2^32 - 2^31. Up to there none of the signed 64-bit
 operations of the source overflows (`DelayRuns.NothingOverflows`); above it one can,
 and the source has no meaning. What the source saturates or clamps is clamped here too.
 */
module DelayEstimator {
  import opened Basics
  import opened Cyclic
  import opened OrderStatistics

  const INT_MIN: int := -0x8000_0000
  const INT_MAX: int := 0x7FFF_FFFF
  const U64_MAX: int := 0xFFFF_FFFF_FFFF_FFFF
  const FRAME_DELTA_WINDOW: nat := 15

  type i32 = x: int | -0x8000_0000 <= x <= 0x7FFF_FFFF
  type Clock = x: int | 0 <= x < 0x7FFF_FFFE_8000_0000

  /** `DelayEstimatorConfig`. */
  datatype Config = Config(adaptive: bool, targetDelayMs: i32, windowMs: u32, delayPercentile: i32, floorPercentile: i32,
                           minDelayMs: i32, maxDelayMs: i32, downRateMsPerSec: i32, minSamples: nat)

  datatype Sample = Sample(atMs: Clock, offsetMs: int)

  datatype Stats = Stats(samplesSeen: nat, samplesEvicted: nat, windowSize: nat, currentDelayMs: i32, rawDelayMs: i32,
                         floorOffsetMs: int, peakDelayMs: i32, raises: nat, downRateLimited: nat,
                         clampedHigh: nat, clampedLow: nat, effectiveMinDelayMs: i32, floorFromBudget: bool,
                         frameIntervalMs: i32, rttMs: i32)

  /** `level` is `targetDelayMs_`, `remainder` `downRateRemainder_`. */
  datatype State = State(window: seq<Sample>, floorOffset: Option<int>, level: i32, lastObserve: Option<Clock>,
                         remainder: nat, rttMs: i32, deltas: seq<int>, lastTimestamp: Option<u32>, stats: Stats)

  function Clamp(x: int, low: int, high: int): int {
    if x < low then low else if x > high then high else x
  }

  /** What the constructor makes of its argument. */
  function Normalized(c: Config): (r: Config)
    ensures IsNormal(r)
  {
    var c := if c.minDelayMs > c.maxDelayMs then c.(minDelayMs := c.maxDelayMs, maxDelayMs := c.minDelayMs) else c;
    c.(delayPercentile := Clamp(c.delayPercentile, 0, 100), floorPercentile := Clamp(c.floorPercentile, 0, 100))
  }

  predicate IsNormal(c: Config) {
    c.minDelayMs <= c.maxDelayMs && 0 <= c.delayPercentile <= 100 && 0 <= c.floorPercentile <= 100
  }

  function Start(c: Config, rttMs: i32): State {
    State([], None, c.targetDelayMs, None, 0, rttMs, [], None,
          Stats(0, 0, 0, c.targetDelayMs, c.targetDelayMs, 0, c.targetDelayMs, 0, 0, 0, 0, c.minDelayMs, false, 0, rttMs))
  }

  // ----- The window -----

  predicate Outdated(c: Config, s: Sample, nowMs: Clock) {
    s.atMs <= nowMs && nowMs - s.atMs > c.windowMs
  }

  /** Without the outdated samples at the front. */
  function Recent(c: Config, w: seq<Sample>, nowMs: Clock): (r: seq<Sample>)
    ensures |r| <= |w|
  {
    if w == [] || !Outdated(c, w[0], nowMs) then w else Recent(c, w[1..], nowMs)
  }

  function Offsets(w: seq<Sample>): (r: seq<int>)
    ensures |r| == |w|
  {
    seq(|w|, i requires 0 <= i < |w| => w[i].offsetMs)
  }

  function Index(percentile: int, n: nat): (i: nat)
    requires 0 <= percentile <= 100 && n > 0
    ensures i < n
  {
    IndexInRange(percentile, n);
    percentile * (n - 1) / 100
  }

  lemma IndexInRange(percentile: int, n: nat)
    requires 0 <= percentile <= 100 && n > 0
    ensures 0 <= percentile * (n - 1) / 100 < n
  {
    Scaling(percentile, 100, n - 1);
  }

  lemma Scaling(p: int, q: int, m: nat)
    requires 0 <= p <= q
    ensures 0 <= p * m <= q * m
  {
  }

  function PercentileOffset(w: seq<Sample>, percentile: int): int
    requires 0 <= percentile <= 100
  {
    if w == [] then 0 else Sorted(Offsets(w))[Index(percentile, |w|)]
  }

  /** The measured jitter: high percentile above low percentile. */
  function Raw(c: Config, w: seq<Sample>): i32
    requires IsNormal(c)
  {
    Clamp(PercentileOffset(w, c.delayPercentile) - PercentileOffset(w, c.floorPercentile), INT_MIN, INT_MAX)
  }

  // ----- Following the measured jitter -----

  /** `scaled`: how many thousandths the level may fall in `dt`, the carried remainder included. */
  function Scaled(rate: nat, dt: nat, remainder: nat): nat {
    Min(Min(rate * dt, U64_MAX) + remainder, U64_MAX)
  }

  datatype Level = Level(ms: i32, remainder: nat, raised: bool, limited: bool)

  function Elapsed(last: Option<Clock>, nowMs: Clock): nat {
    if last.Some? && nowMs > last.value then nowMs - last.value else 0
  }

  /** Up at once; down no faster than the configured rate. */
  function Follow(c: Config, level: i32, remainder: nat, samples: nat, raw: i32, dt: nat): Level {
    if samples < c.minSamples then Level(level, remainder, false, false)
    else if raw > level then Level(raw, 0, true, false)
    else if raw == level || c.downRateMsPerSec <= 0 then Level(raw, 0, false, false)
    else
      var scaled := Scaled(c.downRateMsPerSec, dt, remainder);
      var lowest := level - Min(scaled / 1000, level - INT_MIN);
      Level(Max(raw, lowest), scaled % 1000, false, raw < lowest)
  }

  /** The delay a retransmission needs, if it is known. */
  function Budget(rttMs: i32, frameIntervalMs: i32): i32 {
    if rttMs > 0 && frameIntervalMs > 0 then Min(frameIntervalMs as int + rttMs as int, INT_MAX) else 0
  }

  function Floor(c: Config, rttMs: i32, frameIntervalMs: i32): (f: i32)
    requires IsNormal(c)
    ensures c.minDelayMs <= f <= c.maxDelayMs
  {
    Clamp(Max(c.minDelayMs, Budget(rttMs, frameIntervalMs)), c.minDelayMs, c.maxDelayMs)
  }

  // ----- The frame interval -----

  function Magnitude(x: int): int {
    if x < 0 then -x else x
  }

  function LastDeltas(ds: seq<int>): seq<int> {
    if |ds| > FRAME_DELTA_WINDOW then ds[1..] else ds
  }

  /** The lower quartile of the last time stamp differences. */
  function Quartile(ds: seq<int>): int
    requires ds != []
  {
    Sorted(ds)[|ds| / 4]
  }

  predicate Deltas(ds: seq<int>) {
    |ds| <= FRAME_DELTA_WINDOW && forall i :: 0 <= i < |ds| ==> 0 <= ds[i] <= INT_MAX
  }

  /** `updateFrameInterval`. */
  function Timed(s: State, timestampMs: u32): (r: State)
    requires Deltas(s.deltas)
    ensures Deltas(r.deltas)
  {
    if s.lastTimestamp.None? then s.(lastTimestamp := Some(timestampMs))
    else
      var delta := Min(Magnitude(Signed(Sub(timestampMs, s.lastTimestamp.value))), INT_MAX);
      var deltas := LastDeltas(s.deltas + [delta]);
      QuartileIsADelta(deltas);
      s.(lastTimestamp := Some(timestampMs), deltas := deltas, stats := s.stats.(frameIntervalMs := Quartile(deltas)))
  }

  lemma QuartileIsADelta(ds: seq<int>)
    requires ds != [] && forall i :: 0 <= i < |ds| ==> 0 <= ds[i] <= INT_MAX
    ensures 0 <= Quartile(ds) <= INT_MAX
  {
    KthByCount(ds, |ds| / 4, 0);
    KthByCount(ds, |ds| / 4, INT_MAX + 1);
    BelowBounds(ds, 0, INT_MAX + 1);
  }

  lemma {:induction false} BelowBounds(ds: seq<int>, low: int, high: int)
    requires forall i :: 0 <= i < |ds| ==> low <= ds[i] < high
    ensures Below(ds, low) == 0 && Below(ds, high) == |ds|
  {
    if ds != [] { BelowBounds(ds[..|ds| - 1], low, high); }
  }

  // ----- One observation -----

  function PlayAt(timestampMs: u32, floorOffset: int, level: i32): nat {
    Max(0, timestampMs as int + floorOffset + level as int)
  }

  /** `observe` with `adaptive` off: the lowest offset seen is the clock, the delay is fixed. */
  function ObservedFixed(c: Config, s: State, timestampMs: u32, nowMs: Clock): State {
    var offset := nowMs - timestampMs;
    var floor := if s.floorOffset.None? || offset < s.floorOffset.value then offset else s.floorOffset.value;
    s.(floorOffset := Some(floor), level := c.targetDelayMs,
       stats := s.stats.(currentDelayMs := c.targetDelayMs, rawDelayMs := c.targetDelayMs, floorOffsetMs := floor,
                         peakDelayMs := Max(s.stats.peakDelayMs, c.targetDelayMs)))
  }

  /** The window part of `observe`. */
  function Windowed(c: Config, s: State, sample: Sample): State {
    var w := Recent(c, s.window + [sample], sample.atMs);
    s.(window := w, stats := s.stats.(samplesEvicted := s.stats.samplesEvicted + |s.window| + 1 - |w|, windowSize := |w|))
  }

  /** The level part. */
  function Levelled(c: Config, s: State, nowMs: Clock): State
    requires IsNormal(c)
  {
    var raw := Raw(c, s.window);
    var l := Follow(c, s.level, s.remainder, |s.window|, raw, Elapsed(s.lastObserve, nowMs));
    var floor := Floor(c, s.rttMs, s.stats.frameIntervalMs);
    var level := Clamp(l.ms, floor, c.maxDelayMs);
    var offset := PercentileOffset(s.window, c.floorPercentile);
    s.(floorOffset := Some(offset), level := level, remainder := l.remainder, lastObserve := Some(nowMs),
       stats := s.stats.(raises := s.stats.raises + if l.raised then 1 else 0,
                         downRateLimited := s.stats.downRateLimited + if l.limited then 1 else 0,
                         clampedHigh := s.stats.clampedHigh + if l.ms > c.maxDelayMs then 1 else 0,
                         clampedLow := s.stats.clampedLow + if l.ms < floor then 1 else 0,
                         effectiveMinDelayMs := floor, floorFromBudget := Budget(s.rttMs, s.stats.frameIntervalMs) > c.minDelayMs,
                         currentDelayMs := level, rawDelayMs := raw, floorOffsetMs := offset,
                         peakDelayMs := Max(s.stats.peakDelayMs, level)))
  }

  function Observed(c: Config, s: State, timestampMs: u32, nowMs: Clock): State
    requires IsNormal(c) && Deltas(s.deltas)
  {
    var s := Timed(s.(stats := s.stats.(samplesSeen := s.stats.samplesSeen + 1)), timestampMs);
    if !c.adaptive then ObservedFixed(c, s, timestampMs, nowMs)
    else Levelled(c, Windowed(c, s, Sample(nowMs, nowMs - timestampMs)), nowMs)
  }

  class DelayEstimator {
    const config: Config
    var window: seq<Sample>
    var floorOffset: Option<int>
    var level: i32
    var lastObserve: Option<Clock>
    var remainder: nat
    var rttMs: i32
    var deltas: seq<int>
    var lastTimestamp: Option<u32>
    var stats: Stats

    function Abs(): State
      reads this
    {
      State(window, floorOffset, level, lastObserve, remainder, rttMs, deltas, lastTimestamp, stats)
    }

    ghost predicate Valid()
      reads this
    {
      IsNormal(config) && Deltas(deltas) && remainder < 1000
    }

    constructor (config: Config)
      ensures Valid() && this.config == Normalized(config) && Abs() == Start(Normalized(config), 0)
      ensures this.config.minDelayMs == Min(config.minDelayMs, config.maxDelayMs)
      ensures this.config.maxDelayMs == Max(config.minDelayMs, config.maxDelayMs)
      ensures this.config.delayPercentile == Max(0, Min(config.delayPercentile, 100))
      ensures this.config.floorPercentile == Max(0, Min(config.floorPercentile, 100))
      ensures window == [] && floorOffset == None && level == config.targetDelayMs && lastObserve == None && remainder == 0
    {
      var c := config;
      if c.minDelayMs > c.maxDelayMs { c := c.(minDelayMs := c.maxDelayMs, maxDelayMs := c.minDelayMs); }
      c := c.(delayPercentile := Clamp(c.delayPercentile, 0, 100));
      c := c.(floorPercentile := Clamp(c.floorPercentile, 0, 100));
      this.config := c;
      window, floorOffset, lastObserve, remainder, rttMs, deltas, lastTimestamp := [], None, None, 0, 0, [], None;
      level := c.targetDelayMs;
      stats := Start(c, 0).stats;
    }

    method Observe(timestampMs: u32, nowMs: Clock) returns (playAtMs: nat)
      requires Valid()
      modifies this
      ensures Valid() && Abs() == Observed(config, old(Abs()), timestampMs, nowMs)
      ensures floorOffset.Some? && playAtMs == PlayAt(timestampMs, floorOffset.value, level)
      ensures var due := timestampMs + floorOffset.value + level; playAtMs == if due < 0 then 0 else due
    {
      hide Raw, PercentileOffset, Recent, Follow, Quartile, Floor, Sub;
      var offset := nowMs - timestampMs;
      stats := stats.(samplesSeen := stats.samplesSeen + 1);
      UpdateFrameInterval(timestampMs);
      if !config.adaptive {
        if floorOffset.None? || offset < floorOffset.value { floorOffset := Some(offset); }
        level := config.targetDelayMs;
        stats := stats.(currentDelayMs := level, rawDelayMs := level, floorOffsetMs := floorOffset.value,
                        peakDelayMs := Max(stats.peakDelayMs, level));
      } else {
        Remember(Sample(nowMs, offset));
        Adapt(nowMs);
      }
      playAtMs := PlayAt(timestampMs, floorOffset.value, level);
    }

    /** Take in the sample, let the outdated ones go. */
    method Remember(sample: Sample)
      modifies this`window, this`stats
      ensures Abs() == Windowed(config, old(Abs()), sample)
    {
      window := window + [sample];
      ghost var all, evicted := window, stats.samplesEvicted;
      RecentStep(config, window, sample.atMs);
      while window != []
        invariant Recent(config, window, sample.atMs) == Recent(config, all, sample.atMs)
        invariant stats == old(stats).(samplesEvicted := evicted + |all| - |window|) && |window| <= |all|
        decreases |window|
      {
        hide Recent;
        RecentStep(config, window, sample.atMs);
        var atMs := window[0].atMs;
        if atMs > sample.atMs || sample.atMs - atMs <= config.windowMs { break; }
        window := window[1..];
        stats := stats.(samplesEvicted := stats.samplesEvicted + 1);
      }
      stats := stats.(windowSize := |window|);
    }

    /** The rest of an adaptive `observe`. */
    method Adapt(nowMs: Clock)
      requires Valid()
      modifies this
      ensures Valid() && Abs() == Levelled(config, old(Abs()), nowMs)
    {
      hide PercentileOffset, Follow;
      var floorMs := PercentileOffset(window, config.floorPercentile);
      floorOffset := Some(floorMs);
      var high := PercentileOffset(window, config.delayPercentile);
      var raw := Clamp(high - floorMs, INT_MIN, INT_MAX);
      FollowRaw(raw, nowMs);
      ClampToBudget(raw, nowMs);
    }

    method FollowRaw(raw: i32, nowMs: Clock)
      requires Valid()
      modifies this`level, this`remainder, this`stats
      ensures var l := Follow(config, old(level), old(remainder), |window|, raw, Elapsed(lastObserve, nowMs));
        && level == l.ms && remainder == l.remainder
        && stats == old(stats).(raises := old(stats).raises + if l.raised then 1 else 0,
                                downRateLimited := old(stats).downRateLimited + if l.limited then 1 else 0)
      ensures remainder < 1000
    {
      if |window| < config.minSamples {
      } else if raw > level {
        level := raw;
        remainder := 0;
        stats := stats.(raises := stats.raises + 1);
      } else if raw == level || config.downRateMsPerSec <= 0 {
        level := raw;
        remainder := 0;
      } else {
        var dt := if lastObserve.Some? && nowMs > lastObserve.value then nowMs - lastObserve.value else 0;
        var scaled := Scaled(config.downRateMsPerSec, dt, remainder);
        remainder := scaled % 1000;
        var floorTarget := level - Min(scaled / 1000, level - INT_MIN);
        if raw < floorTarget {
          level := floorTarget;
          stats := stats.(downRateLimited := stats.downRateLimited + 1);
        } else {
          level := raw;
        }
      }
    }

    method ClampToBudget(raw: i32, nowMs: Clock)
      requires Valid() && floorOffset.Some?
      modifies this`level, this`stats, this`lastObserve
      ensures lastObserve == Some(nowMs)
      ensures var floor := Floor(config, rttMs, old(stats).frameIntervalMs);
        && level == Clamp(old(level), floor, config.maxDelayMs)
        && stats == old(stats).(
             clampedHigh := old(stats).clampedHigh + if old(level) > config.maxDelayMs then 1 else 0,
             clampedLow := old(stats).clampedLow + if old(level) < floor then 1 else 0,
             effectiveMinDelayMs := floor,
             floorFromBudget := Budget(rttMs, old(stats).frameIntervalMs) > config.minDelayMs,
             currentDelayMs := level, rawDelayMs := raw, floorOffsetMs := floorOffset.value,
             peakDelayMs := Max(old(stats).peakDelayMs, level))
    {
      var budget: i32 := 0;
      if rttMs > 0 && stats.frameIntervalMs > 0 {
        budget := Min(stats.frameIntervalMs as int + rttMs as int, INT_MAX);
      }
      var floor: i32 := Clamp(Max(config.minDelayMs, budget), config.minDelayMs, config.maxDelayMs);
      stats := stats.(effectiveMinDelayMs := floor, floorFromBudget := budget > config.minDelayMs);
      if level > config.maxDelayMs {
        level := config.maxDelayMs;
        stats := stats.(clampedHigh := stats.clampedHigh + 1);
      } else if level < floor {
        level := floor;
        stats := stats.(clampedLow := stats.clampedLow + 1);
      }
      stats := stats.(currentDelayMs := level, rawDelayMs := raw, floorOffsetMs := floorOffset.value,
                      peakDelayMs := Max(stats.peakDelayMs, level));
      lastObserve := Some(nowMs);
    }

    method UpdateFrameInterval(timestampMs: u32)
      requires Deltas(deltas)
      modifies this`deltas, this`lastTimestamp, this`stats
      ensures Deltas(deltas) && Abs() == Timed(old(Abs()), timestampMs)
    {
      hide Sub, Quartile;
      if lastTimestamp.None? {
        lastTimestamp := Some(timestampMs);
        return;
      }
      var signedDelta := Signed(Sub(timestampMs, lastTimestamp.value));
      lastTimestamp := Some(timestampMs);
      var magnitude := if signedDelta < 0 then -signedDelta else signedDelta;
      deltas := deltas + [Min(magnitude, INT_MAX)];
      if |deltas| > FRAME_DELTA_WINDOW { deltas := deltas[1..]; }
      QuartileIsADelta(deltas);
      stats := stats.(frameIntervalMs := Quartile(deltas));
    }

    method SetRttMs(rttMs: i32)
      requires Valid()
      modifies this`rttMs, this`stats
      ensures Valid()
      ensures Abs() == if rttMs <= 0 then old(Abs()) else old(Abs()).(rttMs := rttMs, stats := old(stats).(rttMs := rttMs))
    {
      if rttMs <= 0 { return; }
      this.rttMs := rttMs;
      stats := stats.(rttMs := rttMs);
    }

    /** The round trip time stays: a change of peer does not change the path. */
    method Reset()
      requires Valid()
      modifies this
      ensures Valid() && Abs() == Start(config, old(rttMs))
    {
      window, floorOffset, level, lastObserve, remainder := [], None, config.targetDelayMs, None, 0;
      deltas, lastTimestamp := [], None;
      stats := Start(config, rttMs).stats;
    }
  }

  lemma RecentStep(c: Config, w: seq<Sample>, nowMs: Clock)
    requires w != []
    ensures Recent(c, w, nowMs) == if Outdated(c, w[0], nowMs) then Recent(c, w[1..], nowMs) else w
  {
  }
}
