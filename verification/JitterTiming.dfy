/**
 When the jitter buffer lets a frame go: never before the time the estimator gave it when
 it was pushed, unless the buffer has held more than `maxFrames` since; and then at once.
 */
module JitterTiming {
  import opened Basics
  import DE = DelayEstimator
  import DelayLaws
  import opened Cyclic
  import opened JitterBuffer
  import opened JitterRuns

  /** What the estimator said when event `j` pushed a frame: time stamp plus clock offset plus delay, not below 0. */
  function DueAt(c: Config, es: seq<Event>, j: nat): int
    requires IsNormal(c) && j < |es| && es[j].Push?
  {
    var e := After(c, es[..j + 1]).estimator;
    if e.floorOffset.None? then 0 else Max(0, es[j].frame.timestampMs + e.floorOffset.value + e.level)
  }

  /** At some moment since event `j` the buffer held more than `maxFrames`. */
  ghost predicate CrowdedSince(c: Config, es: seq<Event>, j: nat)
    requires IsNormal(c)
  {
    exists m :: j < m <= |es| && |After(c, es[..m]).pending| > c.maxFrames
  }

  ghost predicate PushedAt(c: Config, es: seq<Event>, j: nat, x: Slot)
    requires IsNormal(c)
  {
    && j < |es| && es[j].Push? && es[j].frame == x.frame
    && (x.playAtMs == DueAt(c, es, j) || (x.playAtMs == 0 && CrowdedSince(c, es, j)))
  }

  /** A buffered frame is due when the estimator said, or at once if the buffer has been too full since. */
  ghost predicate IsTimed(c: Config, es: seq<Event>, x: Slot)
    requires IsNormal(c)
  {
    exists j :: 0 <= j < |es| && PushedAt(c, es, j, x)
  }

  /** What a push does to the due times: the oldest frames beyond `maxFrames` are due at once, all others when they
      were due before, and the new one when the estimator says. */
  lemma TimesAfterPush(c: Config, s: State, f: Frame, nowMs: DE.Clock, i: nat) returns (j: int)
    requires IsNormal(c) && DE.Deltas(s.estimator.deltas) && Shape(c, s)
    requires i < |Pushed(c, s, f, nowMs).pending|
    ensures -1 <= j < |s.pending|
    ensures var r := Pushed(c, s, f, nowMs); var x := r.pending[i];
      && (j == -1 ==> FateOf(s, f).Kept? && x.frame == f && x.ext == Ext(s, f) && r.estimator.floorOffset.Some?)
      && (j >= 0 ==> x.frame == s.pending[j].frame && x.ext == s.pending[j].ext)
      && x.playAtMs == if i < |r.pending| - c.maxFrames then 0
                       else if j >= 0 then s.pending[j].playAtMs
                       else Max(0, f.timestampMs + r.estimator.floorOffset.value + r.estimator.level)
  {
    hide Pushed, Inserted, Extended, Ascending, Holds, TooLate, DE.Observed;
    PushedIs(c, s, f, nowMs);
    ShapeAscends(c, s);
    if FateOf(s, f).Kept? {
      var x := NewSlot(c, s, f, nowMs);
      DelayLaws.DueIs(c.delay, s.estimator, f.timestampMs, nowMs);
      j := KeptComesFrom(c, s.pending, x, i);
    } else {
      j := i;
      OldTimes(c, s, i);
    }
  }

  lemma OldTimes(c: Config, s: State, i: nat)
    requires Shape(c, s) && i < |s.pending|
    ensures i < |s.pending| - c.maxFrames ==> s.pending[i].playAtMs == 0
  {
  }

  lemma Earlier(c: Config, es: seq<Event>, x: Slot, j: nat)
    requires IsNormal(c) && es != [] && j < |es| - 1 && PushedAt(c, es[..|es| - 1], j, x)
    ensures DueAt(c, es[..|es| - 1], j) == DueAt(c, es, j) && PushedAt(c, es, j, x)
  {
    hide After;
    var front := es[..|es| - 1];
    assert forall m :: 0 <= m < |es| ==> front[..m] == es[..m];
    if CrowdedSince(c, front, j) {
      var m :| j < m <= |front| && |After(c, front[..m]).pending| > c.maxFrames;
      assert |After(c, es[..m]).pending| > c.maxFrames;
    }
  }

  lemma CrowdedNow(c: Config, es: seq<Event>, j: nat)
    requires IsNormal(c) && j < |es| && |After(c, es).pending| > c.maxFrames
    ensures CrowdedSince(c, es, j)
  {
    hide After;
    assert es[..|es|] == es;
  }

  /** A slot that was there before the last event. */
  lemma StaysTimed(c: Config, es: seq<Event>, was: Slot, x: Slot)
    requires IsNormal(c) && es != [] && IsTimed(c, es[..|es| - 1], was) && x.frame == was.frame
    requires x.playAtMs == was.playAtMs || (x.playAtMs == 0 && |After(c, es).pending| > c.maxFrames)
    ensures IsTimed(c, es, x)
  {
    hide After, DueAt;
    var j :| 0 <= j < |es| - 1 && PushedAt(c, es[..|es| - 1], j, was);
    Earlier(c, es, was, j);
    if x.playAtMs != was.playAtMs { CrowdedNow(c, es, j); }
    assert PushedAt(c, es, j, x);
  }

  lemma IsTimedHere(c: Config, es: seq<Event>, x: Slot)
    requires IsNormal(c) && es != [] && es[|es| - 1].Push? && es[|es| - 1].frame == x.frame
    requires After(c, es).estimator.floorOffset.Some?
    requires var e := After(c, es).estimator;
      || x.playAtMs == Max(0, x.frame.timestampMs + e.floorOffset.value + e.level)
      || (x.playAtMs == 0 && |After(c, es).pending| > c.maxFrames)
    ensures IsTimed(c, es, x)
  {
    hide After;
    var j := |es| - 1;
    assert es[..j + 1] == es;
    if |After(c, es).pending| > c.maxFrames { CrowdedNow(c, es, j); }
    assert PushedAt(c, es, j, x);
  }

  ghost predicate AreTimed(c: Config, es: seq<Event>)
    requires IsNormal(c)
  {
    forall i :: 0 <= i < |After(c, es).pending| ==> IsTimed(c, es, After(c, es).pending[i])
  }

  lemma StepKeepsTimes(c: Config, es: seq<Event>, i: nat)
    requires IsNormal(c) && es != [] && i < |After(c, es).pending|
    requires Shape(c, After(c, es[..|es| - 1])) && AreTimed(c, es[..|es| - 1])
    ensures IsTimed(c, es, After(c, es).pending[i])
  {
    hide IsTimed, Shape, Pushed;
    var s, r, e := After(c, es[..|es| - 1]), After(c, es), es[|es| - 1];
    assert r == Next(c, s, e);
    hide After;
    match e
    case Push(f, nowMs) =>
      var j := TimesAfterPush(c, s, f, nowMs, i);
      if j == -1 { IsTimedHere(c, es, r.pending[i]); } else { StaysTimed(c, es, s.pending[j], r.pending[i]); }
    case Pop(nowMs) => StaysTimed(c, es, s.pending[if CanPop(s, nowMs) then i + 1 else i], r.pending[i]);
    case Drop =>
    case SetRtt(_) => StaysTimed(c, es, s.pending[i], r.pending[i]);
  }

  /** After any run: every buffered frame is due when the estimator said as it was pushed, or at once because the
      buffer has been too full since. */
  lemma {:induction false} AllTimed(c: Config, es: seq<Event>)
    requires IsNormal(c)
    ensures AreTimed(c, es)
  {
    hide IsTimed, Shape, Next;
    if es != [] {
      RunKeeps(c, es[..|es| - 1]);
      AllTimed(c, es[..|es| - 1]);
      forall i | 0 <= i < |After(c, es).pending|
        ensures IsTimed(c, es, After(c, es).pending[i])
      {
        StepKeepsTimes(c, es, i);
      }
    }
  }

  /** When a pop succeeds and when it fails. A frame handed out was pushed by some event `j`, and its time has come
      or the buffer has been too full since; a frame kept back at the front was pushed by some event `j`, its time
      has not come, and the buffer is not too full. */
  lemma PopIsOnTime(c: Config, es: seq<Event>, nowMs: DE.Clock) returns (j: nat)
    requires IsNormal(c) && After(c, es).pending != []
    ensures j < |es| && es[j].Push?
    ensures var s, r := After(c, es), Popped(After(c, es), nowMs);
      && es[j].frame == s.pending[0].frame
      && ((r.pending == s.pending[1..] && r.lastOut == Some(s.pending[0].ext) && (DueAt(c, es, j) <= nowMs || CrowdedSince(c, es, j)))
          || (r == s && DueAt(c, es, j) > nowMs && |s.pending| <= c.maxFrames))
  {
    hide After, DueAt, CrowdedSince;
    var s := After(c, es);
    AllTimed(c, es);
    assert IsTimed(c, es, s.pending[0]);
    RunKeeps(c, es);
    OldTimes(c, s, 0);
    j :| 0 <= j < |es| && PushedAt(c, es, j, s.pending[0]);
  }

  lemma {:induction false} NotDueIs(slots: seq<Slot>, n: nat)
    requires n <= |slots|
    ensures NotDue(slots, n) == |set i: nat | i < n && slots[i].playAtMs != 0|
  {
    var late := set i: nat | i < n && slots[i].playAtMs != 0;
    if n == 0 {
      assert late == {};
    } else {
      NotDueIs(slots, n - 1);
      var before := set i: nat | i < n - 1 && slots[i].playAtMs != 0;
      assert late == before + if slots[n - 1].playAtMs != 0 then {n - 1} else {};
    }
  }

  /** The frames counted as forced early are those the soft limit made due before their time. */
  lemma ForcedEarlyIs(c: Config, s: State, f: Frame, nowMs: DE.Clock)
    requires IsNormal(c) && DE.Deltas(s.estimator.deltas) && FateOf(s, f).Kept?
    ensures var all, r := Inserted(s.pending, NewSlot(c, s, f, nowMs)), Pushed(c, s, f, nowMs);
      && |r.pending| == Min(|all|, c.hardLimitFrames)
      && var kept := all[|all| - |r.pending|..];
         r.stats.framesForcedEarly == s.stats.framesForcedEarly
                                      + |set i: nat | i < |kept| - c.maxFrames && kept[i].playAtMs != 0|
  {
    hide Inserted, NotDue, DE.Observed, Extended;
    var all := Inserted(s.pending, NewSlot(c, s, f, nowMs));
    var kept := WithoutOldest(all, c.hardLimitFrames);
    var n := Overdue(kept, c.maxFrames);
    NotDueIs(kept, n);
    var r := Pushed(c, s, f, nowMs);
    assert |r.pending| == |kept|;
    assert kept == all[|all| - |kept|..];
    assert (set i: nat | i < n && kept[i].playAtMs != 0) == set i: nat | i < |kept| - c.maxFrames && kept[i].playAtMs != 0;
  }
}
