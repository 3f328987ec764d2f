/**
 What the jitter buffer holds between two deliveries, and so which frame it delivers
 next, told from the pushed frames alone.
 */
module JitterIntake {
  import opened Basics
  import DE = DelayEstimator
  import opened Cyclic
  import opened JitterBuffer
  import opened JitterRuns
  import opened Newest

  /** The frames that got past the gate and the watermark, the first of each extended number. Nothing here depends
      on what the buffer holds or has dropped. */
  datatype Intake = Intake(anchor: Option<Anchor>, gateOpen: bool, frames: map<int, Frame>)

  function Taken(lastOut: Option<u64>, t: Intake, f: Frame): Intake {
    var a := Extended(t.anchor, f.frameId);
    if !t.gateOpen && !f.isKey then t.(anchor := Some(a))
    else
      Intake(Some(a), true,
             if a.ext in t.frames || (lastOut.Some? && a.ext <= lastOut.value) then t.frames else t.frames[a.ext := f])
  }

  function AllTaken(lastOut: Option<u64>, t: Intake, es: seq<Event>): Intake
    decreases |es|
  {
    if es == [] then t
    else AllTaken(lastOut, if es[0].Push? then Taken(lastOut, t, es[0].frame) else t, es[1..])
  }

  /** What is taken in from a state with an empty buffer on. */
  function TakenFrom(s: State, es: seq<Event>): Intake {
    AllTaken(s.lastOut, Intake(s.anchor, s.started, map[]), es)
  }

  /** No resynchronisation, and no pop that succeeds. */
  ghost predicate NothingDelivered(c: Config, s: State, es: seq<Event>)
    requires IsNormal(c) && DE.Deltas(s.estimator.deltas)
    decreases |es|
  {
    es == []
    || (!es[0].Drop? && (es[0].Pop? ==> !CanPop(s, es[0].nowMs)) && NothingDelivered(c, Next(c, s, es[0]), es[1..]))
  }

  // ----- The buffer holds the newest of them -----

  ghost function Exts(slots: seq<Slot>): (xs: set<int>)
    ensures forall i :: 0 <= i < |slots| ==> slots[i].ext in xs
    ensures forall x :: x in xs ==> exists i :: 0 <= i < |slots| && slots[i].ext == x
  {
    if slots == [] then {}
    else
      var front := slots[..|slots| - 1];
      assert forall i :: 0 <= i < |front| ==> slots[i] == front[i];
      Exts(front) + {slots[|slots| - 1].ext}
  }

  lemma {:induction false} ExtsCount(slots: seq<Slot>)
    requires Ascending(slots)
    ensures |Exts(slots)| == |slots|
  {
    if slots != [] {
      var n := |slots| - 1;
      ExtsCount(slots[..n]);
      assert slots[n].ext !in Exts(slots[..n]);
    }
  }

  /** Each slot is that of a frame taken in. */
  ghost predicate AreTaken(slots: seq<Slot>, frames: map<int, Frame>) {
    forall i :: 0 <= i < |slots| ==> slots[i].ext in frames && slots[i].frame == frames[slots[i].ext]
  }

  ghost predicate Matches(c: Config, s: State, t: Intake) {
    && s.anchor == t.anchor && s.started == t.gateOpen && (t.frames != map[] ==> t.gateOpen)
    && IsNewest(t.frames.Keys, Exts(s.pending), c.hardLimitFrames)
    && AreTaken(s.pending, t.frames)
  }

  function Kept(c: Config, p: seq<Slot>, x: Slot): seq<Slot> {
    var kept := WithoutOldest(Inserted(p, x), c.hardLimitFrames);
    Forced(kept, Overdue(kept, c.maxFrames))
  }

  /** The new frame goes in, and the oldest goes out if there were too many. */
  lemma KeptIs(c: Config, p: seq<Slot>, x: Slot)
    requires IsNormal(c) && Ascending(p) && !Holds(p, x.ext) && |p| <= c.hardLimitFrames
    ensures |p| < c.hardLimitFrames ==> SameFrames(Kept(c, p, x), Inserted(p, x))
    ensures |p| == c.hardLimitFrames && x.ext < p[0].ext ==> SameFrames(Kept(c, p, x), p)
    ensures |p| == c.hardLimitFrames && p[0].ext < x.ext ==>
      Inserted(p, x)[0] == p[0] && SameFrames(Kept(c, p, x), Inserted(p, x)[1..])
  {
    hide Inserted, Ascending, Holds;
    InsertedFront(p, x);
    if |p| == c.hardLimitFrames && x.ext < p[0].ext { InsertedInFront(p, x); }
  }

  lemma InsertedInFront(p: seq<Slot>, x: Slot)
    requires p != [] && x.ext < p[0].ext
    ensures Inserted(p, x)[1..] == p
  {
  }

  /** The same frames, due at whatever times. */
  ghost predicate SameFrames(a: seq<Slot>, b: seq<Slot>) {
    |a| == |b| && forall i :: 0 <= i < |a| ==> a[i].ext == b[i].ext && a[i].frame == b[i].frame
  }

  lemma {:induction false} SameExts(a: seq<Slot>, b: seq<Slot>)
    requires SameFrames(a, b)
    ensures Exts(a) == Exts(b)
  {
    if a != [] { SameExts(a[..|a| - 1], b[..|b| - 1]); }
  }

  lemma InsertedExts(p: seq<Slot>, x: Slot)
    requires Ascending(p) && !Holds(p, x.ext)
    ensures Exts(Inserted(p, x)) == Exts(p) + {x.ext} && Ascending(Inserted(p, x))
  {
    hide Inserted, Ascending, Holds, Exts, Place;
    InsertedAscends(p, x);
    var k, all := Place(p, x.ext), Inserted(p, x);
    forall y | y in Exts(p) + {x.ext}
      ensures y in Exts(all)
    {
      if y == x.ext {
        assert all[k].ext == y;
      } else {
        var j :| 0 <= j < |p| && p[j].ext == y;
        assert all[if j < k then j else j + 1].ext == y;
      }
    }
    forall y | y in Exts(all)
      ensures y in Exts(p) + {x.ext}
    {
      var i :| 0 <= i < |all| && all[i].ext == y;
      if all[i] != x { var j :| 0 <= j < |p| && p[j] == all[i]; }
    }
  }

  lemma RestExts(all: seq<Slot>)
    requires Ascending(all) && all != []
    ensures Exts(all[1..]) == Exts(all) - {all[0].ext}
  {
    hide Exts;
    var rest := all[1..];
    forall y | y in Exts(all) - {all[0].ext}
      ensures y in Exts(rest)
    {
      var i :| 0 <= i < |all| && all[i].ext == y;
      assert rest[i - 1].ext == y;
    }
    forall y | y in Exts(rest)
      ensures y in Exts(all) - {all[0].ext}
    {
      var i :| 0 <= i < |rest| && rest[i].ext == y;
      assert all[i + 1].ext == y;
    }
  }

  lemma NotHeld(p: seq<Slot>, ext: u64)
    ensures Holds(p, ext) <==> ext in Exts(p)
  {
  }

  lemma ShapeMeans(c: Config, s: State)
    requires IsNormal(c) && Shape(c, s)
    ensures Ascending(s.pending) && |Exts(s.pending)| == |s.pending| <= c.hardLimitFrames
    ensures s.pending != [] ==> s.pending[0].ext in Exts(s.pending) && forall x :: x in Exts(s.pending) ==> s.pending[0].ext <= x
  {
    hide Exts, Overdue;
    ShapeAscends(c, s);
    ExtsCount(s.pending);
    if s.pending != [] { LeastIsFirst(s.pending); }
  }

  lemma LeastIsFirst(p: seq<Slot>)
    requires Ascending(p) && p != []
    ensures p[0].ext in Exts(p) && forall x :: x in Exts(p) ==> p[0].ext <= x
  {
    hide Exts;
  }

  /** A frame accepted by the buffer and new to the intake. */
  lemma KeptMatches(c: Config, s: State, t: Intake, x: Slot)
    requires IsNormal(c) && Shape(c, s) && Matches(c, s, t) && !Holds(s.pending, x.ext) && x.ext !in t.frames
    ensures IsNewest(t.frames[x.ext := x.frame].Keys, Exts(Kept(c, s.pending, x)), c.hardLimitFrames)
    ensures AreTaken(Kept(c, s.pending, x), t.frames[x.ext := x.frame])
  {
    hide *;
    var p, n, keys, frames := s.pending, c.hardLimitFrames, t.frames.Keys, t.frames[x.ext := x.frame];
    var all, r := Inserted(p, x), Kept(c, p, x);
    ShapeMeans(c, s);
    MatchesMeans(c, s, t);
    KeptIs(c, p, x);
    InsertedExts(p, x);
    AllTakenToo(p, x, t.frames);
    assert frames.Keys == keys + {x.ext};
    if |p| < n {
      SameTaken(r, all, frames);
      AddToRoom(keys, Exts(p), n, x.ext);
    } else if x.ext < p[0].ext {
      SameTaken(r, p, frames);
      AddOld(keys, Exts(p), n, x.ext);
    } else {
      OldestMakesWay(c, p, x, frames);
      NotHeld(p, x.ext);
      AddForOldest(keys, Exts(p), n, x.ext, p[0].ext);
    }
  }

  lemma OldestMakesWay(c: Config, p: seq<Slot>, x: Slot, frames: map<int, Frame>)
    requires IsNormal(c) && Ascending(p) && !Holds(p, x.ext) && |p| == c.hardLimitFrames && p[0].ext < x.ext
    requires AreTaken(Inserted(p, x), frames)
    ensures Exts(Kept(c, p, x)) == Exts(p) - {p[0].ext} + {x.ext} && AreTaken(Kept(c, p, x), frames)
  {
    hide Inserted, Kept, Ascending, Holds, Exts, AreTaken, SameFrames;
    var all := Inserted(p, x);
    KeptIs(c, p, x);
    InsertedExts(p, x);
    RestExts(all);
    RestTaken(all, frames);
    SameTaken(Kept(c, p, x), all[1..], frames);
    assert Exts(p) + {x.ext} - {p[0].ext} == Exts(p) - {p[0].ext} + {x.ext};
  }

  lemma MatchesMeans(c: Config, s: State, t: Intake)
    requires IsNormal(c) && Matches(c, s, t)
    ensures IsNewest(t.frames.Keys, Exts(s.pending), c.hardLimitFrames) && AreTaken(s.pending, t.frames)
    ensures c.hardLimitFrames > 0
  {
  }

  lemma AllTakenToo(p: seq<Slot>, x: Slot, frames: map<int, Frame>)
    requires Ascending(p) && !Holds(p, x.ext) && AreTaken(p, frames) && x.ext !in frames
    ensures AreTaken(p, frames[x.ext := x.frame]) && AreTaken(Inserted(p, x), frames[x.ext := x.frame])
  {
    hide Inserted, Ascending, Holds;
    InsertedAscends(p, x);
  }

  lemma SameTaken(a: seq<Slot>, b: seq<Slot>, frames: map<int, Frame>)
    requires SameFrames(a, b) && AreTaken(b, frames)
    ensures AreTaken(a, frames) && Exts(a) == Exts(b)
  {
    hide Exts;
    SameExts(a, b);
  }

  lemma RestTaken(all: seq<Slot>, frames: map<int, Frame>)
    requires AreTaken(all, frames) && all != []
    ensures AreTaken(all[1..], frames)
  {
  }

  /** A frame accepted again after its number was dropped: it is dropped again at once. */
  lemma DroppedAgain(c: Config, s: State, t: Intake, x: Slot)
    requires IsNormal(c) && Shape(c, s) && Matches(c, s, t) && !Holds(s.pending, x.ext) && x.ext in t.frames
    ensures IsNewest(t.frames.Keys, Exts(Kept(c, s.pending, x)), c.hardLimitFrames)
    ensures AreTaken(Kept(c, s.pending, x), t.frames)
  {
    hide Inserted, Kept, Holds, Shape, Ascending, Exts, SameFrames, AreTaken;
    var p, r := s.pending, Kept(c, s.pending, x);
    ShapeMeans(c, s);
    KeptIs(c, p, x);
    NotHeld(p, x.ext);
    assert p[0].ext in Exts(p);
    SameTaken(r, p, t.frames);
  }

  lemma PushMatches(c: Config, s: State, t: Intake, f: Frame, nowMs: DE.Clock)
    requires IsNormal(c) && DE.Deltas(s.estimator.deltas) && Shape(c, s) && Matches(c, s, t)
    requires s.lastOut.Some? ==> forall x :: x in t.frames ==> x > s.lastOut.value
    ensures var u := Taken(s.lastOut, t, f);
      && Matches(c, Pushed(c, s, f, nowMs), u) && Pushed(c, s, f, nowMs).lastOut == s.lastOut
      && (s.lastOut.Some? ==> forall x :: x in u.frames ==> x > s.lastOut.value)
  {
    hide Pushed, Inserted, WithoutOldest, Forced, Holds, Shape, IsNewest, Extended;
    PushedIs(c, s, f, nowMs);
    NotHeld(s.pending, Ext(s, f));
    var x := NewSlot(c, s, f, nowMs);
    if FateOf(s, f).Kept? {
      if x.ext in t.frames { DroppedAgain(c, s, t, x); } else { KeptMatches(c, s, t, x); }
    } else if FateOf(s, f).Duplicate? {
      var i :| 0 <= i < |s.pending| && s.pending[i].ext == Ext(s, f);
      assert s.pending[i].ext in t.frames;
    }
  }

  /** Until the next delivery the buffer holds the `hardLimitFrames` newest frames taken in, each as it was first
      pushed. */
  lemma {:induction false} HoldsTheNewest(c: Config, s: State, t: Intake, es: seq<Event>)
    requires IsNormal(c) && DE.Deltas(s.estimator.deltas) && Shape(c, s) && Matches(c, s, t)
    requires s.lastOut.Some? ==> forall x :: x in t.frames ==> x > s.lastOut.value
    requires NothingDelivered(c, s, es)
    ensures Shape(c, AfterFrom(c, s, es)) && Matches(c, AfterFrom(c, s, es), AllTaken(s.lastOut, t, es))
    decreases |es|
  {
    if es != [] {
      hide Pushed, Shape, Matches, Taken;
      StepKeepsShape(c, s, es[0]);
      if es[0].Push? {
        PushMatches(c, s, t, es[0].frame, es[0].nowMs);
        HoldsTheNewest(c, Next(c, s, es[0]), Taken(s.lastOut, t, es[0].frame), es[1..]);
      } else {
        QuietMatches(c, s, t, es[0]);
        HoldsTheNewest(c, Next(c, s, es[0]), t, es[1..]);
      }
    }
  }

  lemma QuietMatches(c: Config, s: State, t: Intake, e: Event)
    requires IsNormal(c) && DE.Deltas(s.estimator.deltas) && Matches(c, s, t)
    requires !e.Push? && !e.Drop? && (e.Pop? ==> !CanPop(s, e.nowMs))
    ensures Matches(c, Next(c, s, e), t) && Next(c, s, e).lastOut == s.lastOut
  {
  }

  lemma NothingTaken(c: Config, s: State)
    requires s.pending == []
    ensures Matches(c, s, Intake(s.anchor, s.started, map[]))
  {
    assert Exts(s.pending) == {};
  }

  /** The frame that will be delivered first, told from the pushed frames alone: of those taken in, the one with
      exactly `min(count, hardLimitFrames) - 1` newer ones. */
  ghost predicate IsNext(c: Config, frames: map<int, Frame>, x: int) {
    x in frames && |Above(frames.Keys, x)| == Min(|frames|, c.hardLimitFrames) - 1
  }

  /** From an empty buffer on, with any pushes, failing pops and round-trip reports: the buffer stays empty exactly
      while nothing is taken in; otherwise exactly one frame is next, and it is at the front. */
  lemma FrontIsNext(c: Config, s: State, es: seq<Event>)
    requires IsNormal(c) && DE.Deltas(s.estimator.deltas) && Shape(c, s) && s.pending == [] && NothingDelivered(c, s, es)
    ensures var r, frames := AfterFrom(c, s, es), TakenFrom(s, es).frames;
      && (r.pending == [] <==> frames == map[])
      && (r.pending != [] ==>
            && (forall x :: IsNext(c, frames, x) <==> x == r.pending[0].ext)
            && r.pending[0].ext in frames && r.pending[0].frame == frames[r.pending[0].ext])
  {
    hide Shape, AllTaken, AfterFrom, NothingDelivered, IsNewest, Exts;
    var r, frames := AfterFrom(c, s, es), TakenFrom(s, es).frames;
    NothingTaken(c, s);
    HoldsTheNewest(c, s, Intake(s.anchor, s.started, map[]), es);
    ShapeMeans(c, r);
    NewestSize(frames.Keys, Exts(r.pending), c.hardLimitFrames);
    assert |frames.Keys| == |frames|;
    if r.pending != [] {
      var y := r.pending[0].ext;
      forall x | x in frames
        ensures IsNext(c, frames, x) <==> x == y
      {
        OldestByCount(frames.Keys, Exts(r.pending), c.hardLimitFrames, y, x);
      }
    }
  }

  /** The exact condition for "the next delivered frame is a key frame": of the frames taken in since the buffer
      was empty, the oldest among the `hardLimitFrames` newest was pushed as one. */
  lemma NextIsKeyExactly(c: Config, s: State, es: seq<Event>, nowMs: DE.Clock)
    requires IsNormal(c) && DE.Deltas(s.estimator.deltas) && Shape(c, s) && s.pending == [] && NothingDelivered(c, s, es)
    requires CanPop(AfterFrom(c, s, es), nowMs)
    ensures var frames := TakenFrom(s, es).frames;
      AfterFrom(c, s, es).pending[0].frame.isKey <==> exists x :: IsNext(c, frames, x) && frames[x].isKey
  {
    hide Shape, TakenFrom, AfterFrom, NothingDelivered, IsNext;
    FrontIsNext(c, s, es);
    var frames := TakenFrom(s, es).frames;
    assert IsNext(c, frames, AfterFrom(c, s, es).pending[0].ext);
  }

  lemma {:induction false} AfterJoins(c: Config, es: seq<Event>, more: seq<Event>)
    requires IsNormal(c)
    ensures After(c, es + more) == AfterFrom(c, After(c, es), more)
    decreases |more|
  {
    hide Next;
    if more == [] {
      assert es + more == es;
    } else {
      assert (es + [more[0]])[..|es|] == es;
      assert es + more == es + [more[0]] + more[1..];
      AfterJoins(c, es + [more[0]], more[1..]);
    }
  }

  /** The promise of a resynchronisation, over any run: what the next successful pop hands out is, of the frames
      taken in since, the oldest among the `hardLimitFrames` newest. So it is a key frame if and only if that one is. */
  lemma FirstAfterResync(c: Config, before: seq<Event>, es: seq<Event>, nowMs: DE.Clock) returns (x: int)
    requires IsNormal(c) && NothingDelivered(c, After(c, before + [Drop]), es)
    requires CanPop(After(c, before + [Drop] + es), nowMs)
    ensures var run, frames := before + [Drop] + es, TakenFrom(After(c, before + [Drop]), es).frames;
      && (forall y :: IsNext(c, frames, y) <==> y == x) && x in frames
      && DeliveredFrames(c, run + [Pop(nowMs)]) == DeliveredFrames(c, run) + [frames[x]]
  {
    hide Shape, TakenFrom, AfterFrom, NothingDelivered, IsNext, Next;
    var s, run := After(c, before + [Drop]), before + [Drop] + es;
    EmptyAfterDrop(c, before);
    RunKeeps(c, before + [Drop]);
    AfterJoins(c, before + [Drop], es);
    FrontIsNext(c, s, es);
    assert (run + [Pop(nowMs)])[..|run|] == run;
    x := After(c, run).pending[0].ext;
  }

  lemma EmptyAfterDrop(c: Config, before: seq<Event>)
    requires IsNormal(c)
    ensures After(c, before + [Drop]).pending == []
  {
    assert (before + [Drop])[..|before|] == before;
  }

  /** A push that breaks the promise can be made good by a later one: the run is not `Careful`, and yet the frame
      delivered next is a key frame. */
  lemma ABrokenPromiseCanMend()
    ensures var c, es := Fixed(16, 32), [Push(Video(6, true), 0), Push(Video(5, false), 0), Push(Video(4, true), 0)];
      var r := AfterFrom(c, Start(c, 0), es);
      !Careful(c, Start(c, 0), es) && r.pending != [] && r.pending[0].frame == Video(4, true)
  {
    hide *;
    var c, es := Fixed(16, 32), [Push(Video(6, true), 0), Push(Video(5, false), 0), Push(Video(4, true), 0)];
    SmallFixed(16, 32);
    var s := Start(c, 0);
    StartsEmpty(c);
    ThreePushes(c, s, es);
    FrontIsNext(c, s, es);
    ThreeTaken(s);
    FourIsNext(c);
    OnlyOneIsCareless(c, es);
  }

  lemma StartsEmpty(c: Config)
    requires IsNormal(c) && c.startOnKeyFrame
    ensures var s := Start(c, 0);
      && Shape(c, s) && s.pending == [] && s.anchor == None && s.lastOut == None && !s.started && DE.Deltas(s.estimator.deltas)
  {
    StartIsGood(c);
  }

  lemma FourIsNext(c: Config)
    requires c.hardLimitFrames == 32
    ensures IsNext(c, map[6 := Video(6, true), 5 := Video(5, false), 4 := Video(4, true)], 4)
  {
    var frames := map[6 := Video(6, true), 5 := Video(5, false), 4 := Video(4, true)];
    assert frames.Keys == {4, 5, 6};
    assert Above(frames.Keys, 4) == {5, 6};
  }

  lemma ThreePushes(c: Config, s: State, es: seq<Event>)
    requires IsNormal(c) && DE.Deltas(s.estimator.deltas) && |es| == 3
    requires es[0].Push? && es[1].Push? && es[2].Push?
    ensures NothingDelivered(c, s, es)
  {
    hide Next;
    var s1 := Next(c, s, es[0]);
    var s2 := Next(c, s1, es[1]);
    assert es[1..][1..] == es[2..] && es[2..][1..] == [];
    assert NothingDelivered(c, Next(c, s2, es[2]), []);
    assert NothingDelivered(c, s2, es[2..]);
    assert NothingDelivered(c, s1, es[1..]);
  }

  lemma ThreeTaken(s: State)
    requires s.anchor == None && s.lastOut == None && !s.started
    ensures TakenFrom(s, [Push(Video(6, true), 0), Push(Video(5, false), 0), Push(Video(4, true), 0)]).frames
         == map[6 := Video(6, true), 5 := Video(5, false), 4 := Video(4, true)]
  {
    var es := [Push(Video(6, true), 0), Push(Video(5, false), 0), Push(Video(4, true), 0)];
    var t := Intake(None, false, map[]);
    var t1 := Taken(None, t, Video(6, true));
    var t2 := Taken(None, t1, Video(5, false));
    assert t1 == Intake(Some(Anchor(6, 6)), true, map[6 := Video(6, true)]);
    assert t2 == Intake(Some(Anchor(5, 5)), true, map[6 := Video(6, true), 5 := Video(5, false)]);
    assert es[1..] == [Push(Video(5, false), 0), Push(Video(4, true), 0)];
    assert es[1..][1..] == [Push(Video(4, true), 0)] && es[1..][1..][1..] == [];
    assert AllTaken(None, t, es) == AllTaken(None, t1, es[1..]);
    assert AllTaken(None, t1, es[1..]) == AllTaken(None, t2, es[1..][1..]);
  }

  lemma OnlyOneIsCareless(c: Config, es: seq<Event>)
    requires IsNormal(c) && c == Fixed(16, 32) && |es| == 3
    requires es[0] == Push(Video(6, true), 0) && es[1] == Push(Video(5, false), 0)
    ensures !Careful(c, Start(c, 0), es)
  {
    hide Pushed, Shape, Fixed, DE.Observed, After;
    SmallFixed(16, 32);
    var s := FirstFrame(c, 6);
    assert s == Next(c, Start(c, 0), es[0]) by { OneEvent(c, es[0]); }
    assert !KeepsKeyFirst(c, s, Video(5, false));
    assert !Careful(c, s, es[1..]);
  }

  lemma OneEvent(c: Config, e: Event)
    requires IsNormal(c)
    ensures After(c, [e]) == Next(c, Start(c, 0), e)
  {
    hide Next;
    assert [e][..0] == [];
  }
}
