/**
 What the delay estimator decides, in numbers: when a frame is due, what the level is
 after each observation, and what its floor and the frame interval are made of.
 */
module DelayLaws {
  import opened Basics
  import opened Cyclic
  import opened OrderStatistics
  import opened DelayEstimator
  import opened DelayRuns

  // ----- When a frame is due -----

  /** A frame is due at its time stamp plus the clock offset plus the level, but not before time 0. */
  lemma DueIs(c: Config, s: State, timestampMs: u32, nowMs: Clock)
    requires IsNormal(c) && Deltas(s.deltas)
    ensures var r := Observed(c, s, timestampMs, nowMs);
      && r.floorOffset.Some?
      && var due := timestampMs + r.floorOffset.value + r.level;
      && (due >= 0 ==> PlayAt(timestampMs, r.floorOffset.value, r.level) == due)
      && (due < 0 ==> PlayAt(timestampMs, r.floorOffset.value, r.level) == 0)
      && (r.floorOffset.value == nowMs - timestampMs && r.level >= 0 ==>
            PlayAt(timestampMs, r.floorOffset.value, r.level) == nowMs + r.level)
  {
    hide Raw, Follow, Floor, Recent, Quartile, PercentileOffset, Sub, Signed;
  }

  predicate IsLeastOffset(seen: seq<Sample>, d: int) {
    (exists i :: 0 <= i < |seen| && seen[i].offsetMs == d) && forall i :: 0 <= i < |seen| ==> d <= seen[i].offsetMs
  }

  /** With `adaptive` off the clock offset is the least one seen so far, and the level the configured delay: a frame
      is due that delay after it would have come with the least delay seen. */
  lemma {:induction false} FixedDelay(c: Config, rttMs: i32, es: seq<Event>)
    requires IsNormal(c) && !c.adaptive
    ensures var r, seen := After(c, Start(c, rttMs), es), Seen(es);
      && r.level == c.targetDelayMs
      && (seen == [] ==> r.floorOffset.None?)
      && (seen != [] ==> r.floorOffset.Some? && IsLeastOffset(seen, r.floorOffset.value))
  {
    hide *;
    StartHasNoDeltas(c, rttMs);
    if es == [] {
      NothingObserved(c, rttMs);
    } else {
      var n := |es| - 1;
      var s, seen := After(c, Start(c, rttMs), es[..n]), Seen(es[..n]);
      FixedDelay(c, rttMs, es[..n]);
      OneMoreEvent(c, rttMs, es);
      if es[n].Observe? {
        var offset := es[n].nowMs - es[n].timestampMs;
        FixedStep(c, s, es[n].timestampMs, es[n].nowMs);
        LeastOfMore(seen, Sample(es[n].nowMs, offset), if s.floorOffset.Some? then s.floorOffset.value else offset);
      } else {
        RttChangesLittle(c, s, es[n]);
      }
    }
  }

  lemma StartHasNoDeltas(c: Config, rttMs: i32)
    ensures Deltas(Start(c, rttMs).deltas)
  {
  }

  lemma NothingObserved(c: Config, rttMs: i32)
    requires IsNormal(c)
    ensures var s := After(c, Start(c, rttMs), []);
      && s.level == c.targetDelayMs && s.floorOffset.None? && s.deltas == [] && s.lastTimestamp.None?
    ensures Seen([]) == [] && Stamps([]) == [] && Differences([]) == []
  {
  }

  lemma OneMoreEvent(c: Config, rttMs: i32, es: seq<Event>)
    requires IsNormal(c) && es != []
    ensures var n := |es| - 1; var s := After(c, Start(c, rttMs), es[..n]);
      && Deltas(s.deltas)
      && After(c, Start(c, rttMs), es) == Next(c, s, es[n])
      && (es[n].Observe? ==>
            && Next(c, s, es[n]) == Observed(c, s, es[n].timestampMs, es[n].nowMs)
            && Seen(es) == Seen(es[..n]) + [Sample(es[n].nowMs, es[n].nowMs - es[n].timestampMs)]
            && Stamps(es) == Stamps(es[..n]) + [es[n].timestampMs])
      && (es[n].SetRtt? ==> Seen(es) == Seen(es[..n]) && Stamps(es) == Stamps(es[..n]))
  {
    hide Observed;
  }

  lemma RttChangesLittle(c: Config, s: State, e: Event)
    requires IsNormal(c) && Deltas(s.deltas) && e.SetRtt?
    ensures var r := Next(c, s, e);
      r.level == s.level && r.floorOffset == s.floorOffset && r.deltas == s.deltas && r.lastTimestamp == s.lastTimestamp
  {
  }

  lemma FixedStep(c: Config, s: State, timestampMs: u32, nowMs: Clock)
    requires IsNormal(c) && !c.adaptive && Deltas(s.deltas)
    ensures var r, offset := Observed(c, s, timestampMs, nowMs), nowMs - timestampMs;
      && r.level == c.targetDelayMs
      && r.floorOffset == Some(if s.floorOffset.Some? then Min(s.floorOffset.value, offset) else offset)
  {
    hide Timed;
    TimedLeaves(s.(stats := s.stats.(samplesSeen := s.stats.samplesSeen + 1)), timestampMs);
  }

  /** ... in numbers: time stamp plus the least offset so far plus `targetDelayMs`. */
  lemma FixedDue(c: Config, rttMs: i32, es: seq<Event>) returns (d: int)
    requires IsNormal(c) && !c.adaptive && es != [] && es[|es| - 1].Observe?
    ensures IsLeastOffset(Seen(es), d)
    ensures var r, t := After(c, Start(c, rttMs), es), es[|es| - 1].timestampMs;
      r.floorOffset.Some? && PlayAt(t, r.floorOffset.value, r.level) == Max(0, t + d + c.targetDelayMs)
  {
    hide After, IsLeastOffset;
    FixedDelay(c, rttMs, es);
    d := After(c, Start(c, rttMs), es).floorOffset.value;
  }

  lemma LeastOfMore(seen: seq<Sample>, x: Sample, d: int)
    requires if seen == [] then d == x.offsetMs else IsLeastOffset(seen, d)
    ensures IsLeastOffset(seen + [x], Min(d, x.offsetMs))
  {
    var all := seen + [x];
    assert all[|seen|] == x;
    if seen != [] {
      var i :| 0 <= i < |seen| && seen[i].offsetMs == d;
      assert all[i].offsetMs == d;
    }
  }

  /** In adaptive mode the clock offset is the floor percentile of the window: `d` exactly when, of its `n` offsets,
      at most floor(p * (n - 1) / 100) are below `d` and more are at most `d`. */
  lemma AdaptiveOffset(c: Config, s: State, timestampMs: u32, nowMs: Clock, d: int)
    requires IsNormal(c) && Deltas(s.deltas) && c.adaptive && Observed(c, s, timestampMs, nowMs).window != []
    ensures var r := Observed(c, s, timestampMs, nowMs);
      r.floorOffset == Some(d) <==>
        Below(Offsets(r.window), d) <= c.floorPercentile * (|r.window| - 1) / 100 < Below(Offsets(r.window), d + 1)
  {
    hide Raw, Follow, Floor, Recent, Quartile, PercentileOffset, Sub, Signed, Below, Offsets;
    var r := Observed(c, s, timestampMs, nowMs);
    PercentileIs(r.window, c.floorPercentile, d);
  }

  // ----- The level -----

  /** The measured jitter is the distance between the two percentiles, kept in the range of int. */
  lemma JitterIs(c: Config, w: seq<Sample>, high: int, low: int)
    requires IsNormal(c) && w != []
    requires Below(Offsets(w), high) <= c.delayPercentile * (|w| - 1) / 100 < Below(Offsets(w), high + 1)
    requires Below(Offsets(w), low) <= c.floorPercentile * (|w| - 1) / 100 < Below(Offsets(w), low + 1)
    ensures INT_MIN <= high - low <= INT_MAX ==> Raw(c, w) == high - low
    ensures high - low < INT_MIN ==> Raw(c, w) == INT_MIN
    ensures high - low > INT_MAX ==> Raw(c, w) == INT_MAX
  {
    hide PercentileOffset, Below, Offsets;
    PercentileIs(w, c.delayPercentile, high);
    PercentileIs(w, c.floorPercentile, low);
  }

  /** Where the level goes before it is clamped: it stays with too few samples; rises to a larger measured jitter
      at once; falls to a smaller one by `rate` thousandths for each millisecond passed, the carried remainder
      included, and at once when no rate is set. */
  function Goal(c: Config, s: State, samples: nat, raw: i32, dt: nat): int {
    if samples < c.minSamples then s.level
    else if raw >= s.level || c.downRateMsPerSec <= 0 then raw
    else Max(raw, s.level - (c.downRateMsPerSec * dt + s.remainder) / 1000)
  }

  /** The saturation of the source at 64 and 32 bits never shows. */
  lemma FollowIsGoal(c: Config, s: State, samples: nat, raw: i32, dt: nat)
    requires s.remainder < 1000
    ensures Follow(c, s.level, s.remainder, samples, raw, dt).ms == Goal(c, s, samples, raw, dt)
  {
    if samples >= c.minSamples && raw < s.level && c.downRateMsPerSec > 0 {
      Scaling(c.downRateMsPerSec, c.downRateMsPerSec, dt);
    }
  }

  /** The floor under the level: `minDelayMs`, or what one retransmission takes, a round trip and a frame interval,
      if both are known and that is more; but never above `maxDelayMs`. */
  lemma FloorIs(c: Config, rttMs: i32, frameIntervalMs: i32)
    requires IsNormal(c)
    ensures rttMs > 0 && frameIntervalMs > 0 ==>
      Floor(c, rttMs, frameIntervalMs) == Max(c.minDelayMs, Min(rttMs as int + frameIntervalMs as int, c.maxDelayMs))
    ensures !(rttMs > 0 && frameIntervalMs > 0) ==> Floor(c, rttMs, frameIntervalMs) == Max(c.minDelayMs, Min(0, c.maxDelayMs))
  {
  }

  /** The level after an observation. */
  lemma LevelIs(c: Config, s: State, timestampMs: u32, nowMs: Clock)
    requires IsNormal(c) && Deltas(s.deltas) && c.adaptive && s.remainder < 1000
    ensures var r := Observed(c, s, timestampMs, nowMs);
      var dt := if s.lastObserve.Some? && s.lastObserve.value < nowMs then nowMs - s.lastObserve.value else 0;
      var goal := Goal(c, s, |r.window|, Raw(c, r.window), dt);
      var floor := r.stats.effectiveMinDelayMs;
      && floor == Floor(c, s.rttMs, r.stats.frameIntervalMs)
      && (goal < floor ==> r.level == floor)
      && (floor <= goal <= c.maxDelayMs ==> r.level == goal)
      && (goal > c.maxDelayMs ==> r.level == c.maxDelayMs)
  {
    hide Raw, Follow, Floor, Recent, Quartile, PercentileOffset, Sub, Signed, Goal;
    var r := Observed(c, s, timestampMs, nowMs);
    FollowIsGoal(c, s, |r.window|, Raw(c, r.window), Elapsed(s.lastObserve, nowMs));
  }

  /** What an adaptive observation reports: current and measured delay, the floor and where it comes from, the
      highest level ever, and the tallies of raises, limited falls and clamps. */
  lemma ReportsAre(c: Config, s: State, timestampMs: u32, nowMs: Clock)
    requires IsNormal(c) && Deltas(s.deltas) && c.adaptive && s.remainder < 1000
    ensures var r := Observed(c, s, timestampMs, nowMs);
      var dt := if s.lastObserve.Some? && s.lastObserve.value < nowMs then nowMs - s.lastObserve.value else 0;
      var raw := Raw(c, r.window);
      var goal, enough := Goal(c, s, |r.window|, raw, dt), |r.window| >= c.minSamples;
      var budget := if s.rttMs > 0 && r.stats.frameIntervalMs > 0
                    then Min(s.rttMs as int + r.stats.frameIntervalMs as int, INT_MAX) else 0;
      && r.floorOffset == Some(r.stats.floorOffsetMs)
      && r.stats.currentDelayMs == r.level && r.stats.rawDelayMs == raw && r.stats.windowSize == |r.window|
      && r.stats.peakDelayMs == Max(s.stats.peakDelayMs, r.level)
      && r.stats.floorFromBudget == (budget > c.minDelayMs)
      && r.stats.samplesSeen == s.stats.samplesSeen + 1
      && r.stats.raises == s.stats.raises + (if enough && raw > s.level then 1 else 0)
      && r.stats.downRateLimited == s.stats.downRateLimited + (if enough && raw < s.level && goal > raw then 1 else 0)
      && r.stats.clampedHigh == s.stats.clampedHigh + (if goal > c.maxDelayMs then 1 else 0)
      && r.stats.clampedLow == s.stats.clampedLow + (if goal < r.stats.effectiveMinDelayMs then 1 else 0)
  {
    hide Raw, Follow, Floor, Recent, Quartile, PercentileOffset, Sub, Signed, Goal;
    var r := Observed(c, s, timestampMs, nowMs);
    var dt := Elapsed(s.lastObserve, nowMs);
    FollowIsGoal(c, s, |r.window|, Raw(c, r.window), dt);
    FollowTells(c, s, |r.window|, Raw(c, r.window), dt);
  }

  /** With `adaptive` off the reports are those of the fixed delay. */
  lemma FixedReportsAre(c: Config, s: State, timestampMs: u32, nowMs: Clock)
    requires IsNormal(c) && Deltas(s.deltas) && !c.adaptive
    ensures var r := Observed(c, s, timestampMs, nowMs);
      && r.floorOffset == Some(r.stats.floorOffsetMs)
      && r.stats.currentDelayMs == r.stats.rawDelayMs == r.level == c.targetDelayMs
      && r.stats.peakDelayMs == Max(s.stats.peakDelayMs, c.targetDelayMs)
      && r.stats.samplesSeen == s.stats.samplesSeen + 1 && r.window == s.window && r.lastObserve == s.lastObserve
  {
    hide Quartile, Sub, Signed;
  }

  lemma FollowTells(c: Config, s: State, samples: nat, raw: i32, dt: nat)
    requires s.remainder < 1000
    ensures var l := Follow(c, s.level, s.remainder, samples, raw, dt);
      && (l.raised <==> samples >= c.minSamples && raw > s.level)
      && (l.limited <==> samples >= c.minSamples && raw < s.level && Goal(c, s, samples, raw, dt) > raw)
  {
    FollowIsGoal(c, s, samples, raw, dt);
    hide Scaled;
  }

  // ----- The time stamp differences -----

  function Stamps(es: seq<Event>): seq<u32> {
    if es == [] then []
    else Stamps(es[..|es| - 1]) + match es[|es| - 1]
                                  case Observe(timestampMs, _) => [timestampMs]
                                  case SetRtt(_) => []
  }

  /** How far apart two time stamps are, in either direction. */
  function Apart(a: u32, b: u32): int {
    var d := Signed(Sub(b, a));
    Min(if d < 0 then -d else d, INT_MAX)
  }

  function Differences(ts: seq<u32>): (ds: seq<int>)
    ensures |ds| == if ts == [] then 0 else |ts| - 1
  {
    seq(if ts == [] then 0 else |ts| - 1, i requires 0 <= i < |ts| - 1 => Apart(ts[i], ts[i + 1]))
  }

  function LastFew(ds: seq<int>): seq<int> {
    if |ds| <= 15 then ds else ds[|ds| - 15..]
  }

  /** The differences kept are the last fifteen between successive time stamps, all of them while there are fewer. */
  lemma DeltasAreTheLast(c: Config, rttMs: i32, es: seq<Event>)
    requires IsNormal(c)
    ensures var r, ts := After(c, Start(c, rttMs), es), Stamps(es);
      var ds := Differences(ts);
      && (r.lastTimestamp == if ts == [] then None else Some(ts[|ts| - 1]))
      && r.deltas == if |ds| <= 15 then ds else ds[|ds| - 15..]
  {
    hide After, Start, Stamps, Differences, Apart;
    DeltasAreTheLastFew(c, rttMs, es);
  }

  lemma {:induction false} DeltasAreTheLastFew(c: Config, rttMs: i32, es: seq<Event>)
    requires IsNormal(c)
    ensures var r, ts := After(c, Start(c, rttMs), es), Stamps(es);
      (r.lastTimestamp == if ts == [] then None else Some(ts[|ts| - 1])) && r.deltas == LastFew(Differences(ts))
  {
    hide *;
    StartHasNoDeltas(c, rttMs);
    if es == [] {
      NothingObserved(c, rttMs);
      LastFifteen([], 0);
    } else {
      var n := |es| - 1;
      var s, ts := After(c, Start(c, rttMs), es[..n]), Stamps(es[..n]);
      DeltasAreTheLastFew(c, rttMs, es[..n]);
      OneMoreEvent(c, rttMs, es);
      if es[n].Observe? {
        ObservedKeepsTimes(c, s, es[n].timestampMs, es[n].nowMs);
        DifferencesGrow(ts, es[n].timestampMs);
        if ts != [] { LastFifteen(Differences(ts), Apart(ts[|ts| - 1], es[n].timestampMs)); }
      } else {
        RttChangesLittle(c, s, es[n]);
      }
    }
  }

  /** One more difference, kept as `Observed` keeps it. */
  lemma LastFifteen(ds: seq<int>, d: int)
    ensures LastFew([]) == []
    ensures var kept := LastFew(ds) + [d]; (if |kept| > 15 then kept[1..] else kept) == LastFew(ds + [d])
  {
  }

  lemma DifferencesGrow(ts: seq<u32>, t: u32)
    ensures Differences(ts + [t]) == if ts == [] then [] else Differences(ts) + [Apart(ts[|ts| - 1], t)]
    ensures ts == [] ==> Differences(ts) == []
  {
    hide Apart;
  }

  lemma ObservedKeepsTimes(c: Config, s: State, timestampMs: u32, nowMs: Clock)
    requires IsNormal(c) && Deltas(s.deltas)
    ensures var r := Observed(c, s, timestampMs, nowMs);
      && r.lastTimestamp == Some(timestampMs)
      && (s.lastTimestamp.None? ==> r.deltas == s.deltas)
      && (s.lastTimestamp.Some? ==>
            var all := s.deltas + [Apart(s.lastTimestamp.value, timestampMs)];
            r.deltas == if |all| > 15 then all[1..] else all)
  {
    hide Quartile, Sub, Signed, Raw, Follow, Floor, Recent, PercentileOffset;
  }
}
