/**
 Which sequence numbers are missing, and which of them to ask for now
 (modules/transport/NackTracker.cpp).
 */
module NackTracker {
  import opened Basics
  import opened Cyclic

  /** `NackTrackerConfig`. */
  datatype Config = Config(minReorder: u32, maxReorder: u32, maxRequests: int, window: nat)

  datatype Gap = Gap(requests: nat, lastRequestAt: u32, likelyKey: bool)

  datatype Stats = Stats(packetsSeen: nat, nacksRequested: nat, recovered: nat, givenUp: nat, keyFramesGivenUp: nat,
                         lostForReal: nat, pending: nat, discontinuities: nat)

  datatype State = State(gaps: map<u32, Gap>, highest: u32, reorder: u32, hasBaseline: bool, stats: Stats)

  const START: State := State(map[], 0, 0, false, Stats(0, 0, 0, 0, 0, 0, 0, 0))

  predicate Consistent(s: State) {
    s.stats.pending == |s.gaps| && (!s.hasBaseline ==> s.gaps == map[])
  }

  /** The reorder tolerance: one frame's worth of packets, within the configured bounds. */
  function Tolerance(c: Config, fragCount: u16): u32 {
    Max(Min(c.minReorder, c.maxReorder), Min(fragCount, Max(c.minReorder, c.maxReorder)))
  }

  /** `r` is what packets of a frame of `fragCount` fragments make the reorder tolerance: that count, kept between
      the smaller and the larger of the two configured bounds, whichever is which. */
  predicate IsTolerance(c: Config, fragCount: u16, r: int) {
    && (c.minReorder <= fragCount <= c.maxReorder || c.maxReorder <= fragCount <= c.minReorder ==> r == fragCount)
    && (fragCount < c.minReorder <= c.maxReorder || c.maxReorder < c.minReorder < fragCount ==> r == c.minReorder)
    && (fragCount < c.maxReorder <= c.minReorder || c.minReorder < c.maxReorder < fragCount ==> r == c.maxReorder)
    && (c.minReorder == c.maxReorder ==> r == c.minReorder)
  }

  lemma ToleranceIs(c: Config, fragCount: u16, r: int)
    ensures IsTolerance(c, fragCount, r) <==> r == Tolerance(c, fragCount)
  {
  }

  function Age(s: State, k: u32): u32 {
    Sub(s.highest, k)
  }

  // ----- One packet -----

  function Without(gaps: map<u32, Gap>, ks: set<u32>): map<u32, Gap> {
    map k | k in gaps && k !in ks :: gaps[k]
  }

  function KeyOnes(gaps: map<u32, Gap>, ks: set<u32>): set<u32> {
    set k | k in ks && k in gaps && gaps[k].likelyKey
  }

  /** Give `ks` up: they count as lost. */
  function GiveUp(s: Stats, gaps: map<u32, Gap>, ks: set<u32>): Stats {
    s.(givenUp := s.givenUp + |ks|, lostForReal := s.lostForReal + |ks|,
       keyFramesGivenUp := s.keyFramesGivenUp + |KeyOnes(gaps, ks)|)
  }

  function Expired(gaps: map<u32, Gap>, highest: u32, window: nat): set<u32> {
    set k | k in gaps && Sub(highest, k) >= window
  }

  /** `emplace`: an existing entry stays. */
  function Emplace(gaps: map<u32, Gap>, k: u32, isKey: bool): map<u32, Gap> {
    if k in gaps then gaps else gaps[k := Gap(0, 0, isKey)]
  }

  /** Register the `n` numbers just before `highest`, oldest first. */
  function Register(gaps: map<u32, Gap>, highest: u32, n: nat, isKey: bool): map<u32, Gap>
    decreases n
  {
    if n == 0 then gaps else Register(Emplace(gaps, Add(highest, 0 - n), isKey), highest, n - 1, isKey)
  }

  /** A number at or before the highest: it may close a gap. */
  function Late(s: State, k: u32): State {
    if k !in s.gaps then s
    else
      var gaps := s.gaps - {k};
      s.(gaps := gaps,
         stats := s.stats.(recovered := s.stats.recovered + if s.gaps[k].requests > 0 then 1 else 0, pending := |gaps|))
  }

  /** A number after the highest, less than a window ahead. */
  function Forward(c: Config, s: State, k: u32, isKey: bool): State
    requires Sub(k, s.highest) > 0
  {
    var aged := Expired(s.gaps, k, c.window);
    var gaps := Register(Without(s.gaps, aged), k, Sub(k, s.highest) - 1, isKey);
    s.(gaps := gaps, highest := k, stats := GiveUp(s.stats, s.gaps, aged).(pending := |gaps|))
  }

  /** A jump of a whole window or more: a new stream, the gaps of the old one are forgotten. */
  function Discontinuity(s: State, k: u32): State {
    s.(gaps := map[], highest := k, stats := s.stats.(discontinuities := s.stats.discontinuities + 1, pending := 0))
  }

  function Arrived(c: Config, s: State, k: u32, fragCount: u16, isKey: bool): State {
    var s := s.(stats := s.stats.(packetsSeen := s.stats.packetsSeen + 1), reorder := Tolerance(c, fragCount));
    if !s.hasBaseline then s.(highest := k, hasBaseline := true)
    else if !SeqNewer(k, s.highest) then Late(s, k)
    else if Sub(k, s.highest) >= c.window then Discontinuity(s, k)
    else Forward(c, s, k, isKey)
  }

  // ----- Asking for retransmission -----

  /** To be asked for now. */
  predicate Due(c: Config, s: State, k: u32) {
    && k in s.gaps && s.gaps[k].requests < c.maxRequests
    && Age(s, k) >= s.reorder
    && (s.gaps[k].requests == 0 || Sub(s.highest, s.gaps[k].lastRequestAt) >= s.reorder)
  }

  /** Given up by this collection: out of requests before it, or by it. */
  predicate Dropped(c: Config, s: State, k: u32) {
    k in s.gaps && (s.gaps[k].requests + if Due(c, s, k) then 1 else 0) >= c.maxRequests
  }

  function DueSet(c: Config, s: State): set<u32> {
    set k | k in s.gaps && Due(c, s, k)
  }

  function DroppedSet(c: Config, s: State): set<u32> {
    set k | k in s.gaps && Dropped(c, s, k)
  }

  function Bumped(c: Config, s: State, k: u32): Gap
    requires k in s.gaps
  {
    if Due(c, s, k) then s.gaps[k].(requests := s.gaps[k].requests + 1, lastRequestAt := s.highest) else s.gaps[k]
  }

  function Collected(c: Config, s: State): State {
    var gaps := map k | k in s.gaps && !Dropped(c, s, k) :: Bumped(c, s, k);
    var stats := GiveUp(s.stats, s.gaps, DroppedSet(c, s));
    s.(gaps := gaps, stats := stats.(nacksRequested := stats.nacksRequested + |DueSet(c, s)|, pending := |gaps|))
  }

  /** Strictly from old to new, seen from the highest number. */
  predicate OldestFirst(s: State, out: seq<u32>) {
    forall i, j :: 0 <= i < j < |out| ==> Age(s, out[i]) > Age(s, out[j])
  }

  class NackTracker {
    const config: Config
    var gaps: map<u32, Gap>
    var highest: u32
    var reorder: u32
    var hasBaseline: bool
    var stats: Stats

    function Abs(): State
      reads this
    {
      State(gaps, highest, reorder, hasBaseline, stats)
    }

    ghost predicate Valid()
      reads this
    {
      Consistent(Abs())
    }

    constructor (config: Config)
      ensures Valid() && Abs() == START && this.config == config
    {
      this.config := config;
      gaps, highest, reorder, hasBaseline := map[], 0, 0, false;
      stats := START.stats;
    }

    method OnPacket(seq_: u32, fragCount: u16, isKey: bool)
      requires Valid()
      modifies this
      ensures Valid() && Abs() == Arrived(config, old(Abs()), seq_, fragCount, isKey)
      ensures IsTolerance(config, fragCount, reorder)
    {
      hide Forward, Late, SeqNewer, Sub;
      ToleranceIs(config, fragCount, Tolerance(config, fragCount));
      stats := stats.(packetsSeen := stats.packetsSeen + 1);
      var reorderMin := Min(config.minReorder, config.maxReorder);
      var reorderMax := Max(config.minReorder, config.maxReorder);
      reorder := if fragCount < reorderMin then reorderMin else if fragCount > reorderMax then reorderMax else fragCount;
      if !hasBaseline {
        highest := seq_;
        hasBaseline := true;
        return;
      }
      if !SeqNewer(seq_, highest) {
        CloseGap(seq_);
        return;
      }
      NewerIsAhead(seq_, highest);
      var forwardDistance := Sub(seq_, highest);
      if forwardDistance >= config.window {
        gaps := map[];
        highest := seq_;
        stats := stats.(discontinuities := stats.discontinuities + 1, pending := 0);
        return;
      }
      Advance(seq_, isKey);
    }

    /** A packet that is not the newest: it may fill a gap. */
    method CloseGap(seq_: u32)
      requires Valid()
      modifies this`gaps, this`stats
      ensures Valid() && Abs() == Late(old(Abs()), seq_)
    {
      if seq_ in gaps {
        if gaps[seq_].requests > 0 { stats := stats.(recovered := stats.recovered + 1); }
        gaps := gaps - {seq_};
        stats := stats.(pending := |gaps|);
      }
    }

    /** The rest of `onPacket`, for a number less than a window ahead. */
    method Advance(seq_: u32, isKey: bool)
      requires 0 < Sub(seq_, highest) < config.window && hasBaseline
      modifies this`gaps, this`highest, this`stats
      ensures Valid() && Abs() == Forward(config, old(Abs()), seq_, isKey)
    {
      hide Sub, Without, Expired, GiveUp;
      var forwardDistance := Sub(seq_, highest);
      highest := seq_;
      EvictExpired();
      var missingCount := forwardDistance - 1;
      var maxTrackedAge := if config.window == 0 then 0 else config.window - 1;
      var trackedCount := Min(missingCount, maxTrackedAge);
      var immediatelyGivenUp := missingCount - trackedCount;
      stats := stats.(givenUp := stats.givenUp + immediatelyGivenUp, lostForReal := stats.lostForReal + immediatelyGivenUp);
      assert immediatelyGivenUp == 0;
      RegisterMissing(trackedCount, isKey);
      stats := stats.(pending := |gaps|);
    }

    method RegisterMissing(trackedCount: nat, isKey: bool)
      modifies this`gaps
      ensures gaps == Register(old(gaps), highest, trackedCount, isKey)
    {
      hide Emplace;
      var age := trackedCount;
      while age != 0
        invariant 0 <= age <= trackedCount
        invariant Register(gaps, highest, age, isKey) == Register(old(gaps), highest, trackedCount, isKey)
      {
        gaps := Emplace(gaps, Add(highest, 0 - age), isKey);
        age := age - 1;
      }
    }

    /** The gaps that slid out of the window behind the new highest number. */
    method EvictExpired()
      modifies this`gaps, this`stats
      ensures gaps == Without(old(gaps), Expired(old(gaps), highest, config.window))
      ensures stats == GiveUp(old(stats), old(gaps), Expired(old(gaps), highest, config.window))
    {
      hide GiveUp, Without, Sub, Lose;
      ghost var was, gone := gaps, {};
      ghost var before := stats;
      EvictNone(before, was);
      var rest := gaps.Keys;
      while rest != {}
        invariant rest <= was.Keys && gone <= was.Keys - rest
        invariant forall k :: k in was && k !in rest ==> (k in gone <==> Sub(highest, k) >= config.window)
        invariant gaps == Without(was, gone) && stats == GiveUp(before, was, gone)
        decreases rest
      {
        var k :| k in rest;
        rest := rest - {k};
        if config.window == 0 || Sub(highest, k) >= config.window {
          EvictOneMore(before, was, gone, k);
          DropGap(k);
          gone := gone + {k};
        }
      }
      assert gone == Expired(was, highest, config.window);
    }

    method CollectNackTargets() returns (out: seq<u32>)
      requires Valid()
      modifies this
      ensures Valid() && Abs() == Collected(config, old(Abs()))
      ensures OldestFirst(old(Abs()), out)
      ensures forall k: u32 :: k in out <==> Due(config, old(Abs()), k)
      ensures stats.nacksRequested == old(stats).nacksRequested + |out|
    {
      hide Due, Dropped, Age, OneStep, Partly, Consistent, Collected;
      out := [];
      ghost var was := Abs();
      CollectedKeeps(config, was);
      if !hasBaseline || gaps == map[] {
        NothingToCollect(config, was);
        EmittedCount(config, was, []);
        return;
      }
      var oldestFirst := SortedByAge();
      out := CollectInOrder(oldestFirst);
      EmittedCount(config, was, out);
      PartlyAll(config, was);
      stats := stats.(pending := |gaps|);
    }

    /** The collection loop. */
    method CollectInOrder(oldestFirst: seq<u32>) returns (out: seq<u32>)
      requires OldestFirst(Abs(), oldestFirst) && forall k: u32 :: k in oldestFirst <==> k in gaps
      modifies this`gaps, this`stats
      ensures Abs() == Partly(config, old(Abs()), old(gaps).Keys)
      ensures OldestFirst(old(Abs()), out)
      ensures forall k: u32 :: k in out <==> k in oldestFirst && Due(config, old(Abs()), k)
    {
      hide Due, Age, OneStep, Partly;
      out := [];
      ghost var was := Abs();
      ghost var done: set<u32> := {};
      PartlyNone(config, was);
      for i := 0 to |oldestFirst|
        invariant done == set k | k in oldestFirst[..i]
        invariant forall k: u32 :: k in out <==> k in oldestFirst[..i] && Due(config, was, k)
        invariant OldestFirst(was, out)
        invariant Abs() == Partly(config, was, done)
      {
        var k := oldestFirst[i];
        assert oldestFirst[..i + 1] == oldestFirst[..i] + [k];
        KeyIsNew(was, oldestFirst, i);
        PartlyMore(config, was, done, k);
        OneMoreOut(was, oldestFirst, i, out);
        var emit := CollectOne(k);
        if emit { out := out + [k]; }
        done := done + {k};
      }
      assert oldestFirst[..|oldestFirst|] == oldestFirst;
      assert done == was.gaps.Keys;
    }

    /** The keys of the table, oldest first. */
    method SortedByAge() returns (out: seq<u32>)
      ensures OldestFirst(Abs(), out)
      ensures forall k: u32 :: k in out <==> k in gaps
    {
      out := [];
      var rest := gaps.Keys;
      while rest != {}
        invariant rest <= gaps.Keys
        invariant forall k: u32 :: k in out <==> k in gaps && k !in rest
        invariant OldestFirst(Abs(), out)
        invariant forall j, k :: 0 <= j < |out| && k in rest ==> Age(Abs(), out[j]) > Age(Abs(), k)
        decreases rest
      {
        var oldest := OldestOf(rest);
        out := out + [oldest];
        rest := rest - {oldest};
      }
    }

    method OldestOf(ks: set<u32>) returns (oldest: u32)
      requires ks != {}
      ensures oldest in ks
      ensures forall k :: k in ks && k != oldest ==> Age(Abs(), oldest) > Age(Abs(), k)
    {
      oldest :| oldest in ks;
      var rest := ks;
      while rest != {}
        invariant oldest in ks && rest <= ks
        invariant forall k :: k in ks && k !in rest && k != oldest ==> Age(Abs(), oldest) > Age(Abs(), k)
        decreases rest
      {
        var k :| k in rest;
        AgesDiffer(Abs(), oldest, k);
        if Sub(highest, k) > Sub(highest, oldest) { oldest := k; }
        rest := rest - {k};
      }
    }

    /** One turn of the collection loop. */
    method CollectOne(seq_: u32) returns (emit: bool)
      requires seq_ in gaps
      modifies this`gaps, this`stats
      ensures emit == Due(config, old(Abs()), seq_)
      ensures Abs() == OneStep(config, old(Abs()), seq_)
    {
      var gap := gaps[seq_];
      if gap.requests >= config.maxRequests {
        DropGap(seq_);
        return false;
      }
      var age := Sub(highest, seq_);
      if age < reorder { return false; }
      if gap.requests > 0 && Sub(highest, gap.lastRequestAt) < reorder { return false; }
      gap := gap.(requests := gap.requests + 1, lastRequestAt := highest);
      gaps := gaps[seq_ := gap];
      stats := stats.(nacksRequested := stats.nacksRequested + 1);
      if gap.requests >= config.maxRequests { DropGap(seq_); }
      emit := true;
    }

    method DropGap(seq_: u32)
      requires seq_ in gaps
      modifies this`gaps, this`stats
      ensures gaps == old(gaps) - {seq_}
      ensures stats == Lose(old(stats), old(gaps)[seq_].likelyKey)
    {
      stats := stats.(givenUp := stats.givenUp + 1, lostForReal := stats.lostForReal + 1);
      if gaps[seq_].likelyKey { stats := stats.(keyFramesGivenUp := stats.keyFramesGivenUp + 1); }
      gaps := gaps - {seq_};
    }

    method Reset()
      requires Valid()
      modifies this
      ensures Valid() && Abs() == START.(stats := old(stats).(pending := 0))
    {
      gaps, highest, reorder, hasBaseline := map[], 0, 0, false;
      stats := stats.(pending := 0);
    }
  }

  /** One gap lost for good. */
  function Lose(s: Stats, likelyKey: bool): Stats {
    s.(givenUp := s.givenUp + 1, lostForReal := s.lostForReal + 1,
       keyFramesGivenUp := s.keyFramesGivenUp + if likelyKey then 1 else 0)
  }

  lemma EmittedCount(c: Config, s: State, out: seq<u32>)
    requires OldestFirst(s, out) && forall k: u32 :: k in out <==> Due(c, s, k)
    ensures Collected(c, s).stats.nacksRequested == s.stats.nacksRequested + |out|
  {
    hide Due, Age, Dropped, KeyOnes;
    assert forall k :: k in DueSet(c, s) <==> k in out by { DueAreGaps(c, s); }
    CountOnce(DueSet(c, s), out);
  }

  lemma DueAreGaps(c: Config, s: State)
    ensures forall k: u32 :: Due(c, s, k) ==> k in s.gaps
  {
  }

  lemma {:induction false} CountOnce(ks: set<u32>, out: seq<u32>)
    requires forall k :: k in ks <==> k in out
    requires forall i, j :: 0 <= i < j < |out| ==> out[i] != out[j]
    ensures |ks| == |out|
    decreases |out|
  {
    if out != [] {
      var n := |out| - 1;
      CountOnce(ks - {out[n]}, out[..n]);
    } else {
      assert ks == {};
    }
  }

  lemma NewerIsAhead(a: u32, b: u32)
    ensures SeqNewer(a, b) ==> Sub(a, b) > 0
  {
  }

  /** What the collection loop does to one gap. */
  function OneStep(c: Config, s: State, k: u32): State
    requires k in s.gaps
  {
    var stats := if Dropped(c, s, k) then Lose(s.stats, s.gaps[k].likelyKey) else s.stats;
    s.(gaps := if Dropped(c, s, k) then s.gaps - {k} else s.gaps[k := Bumped(c, s, k)],
       stats := stats.(nacksRequested := stats.nacksRequested + if Due(c, s, k) then 1 else 0))
  }

  /** The collection, as far as the gaps in `done` are concerned. */
  function Partly(c: Config, s: State, done: set<u32>): State {
    s.(gaps := map k | k in s.gaps && !(k in done && Dropped(c, s, k)) :: if k in done then Bumped(c, s, k) else s.gaps[k],
       stats := GiveUp(s.stats, s.gaps, DroppedSet(c, s) * done).(
         nacksRequested := s.stats.nacksRequested + |DueSet(c, s) * done|))
  }

  lemma PartlyNone(c: Config, s: State)
    ensures Partly(c, s, {}) == s
  {
    assert DroppedSet(c, s) * {} == {} && DueSet(c, s) * {} == {};
    assert KeyOnes(s.gaps, {}) == {};
    assert Partly(c, s, {}).gaps == s.gaps;
  }

  lemma PartlyMore(c: Config, s: State, done: set<u32>, k: u32)
    requires k in s.gaps && k !in done
    ensures k in Partly(c, s, done).gaps
    ensures Due(c, Partly(c, s, done), k) == Due(c, s, k)
    ensures Partly(c, s, done + {k}) == OneStep(c, Partly(c, s, done), k)
  {
    hide Due, Dropped, Bumped, KeyOnes, DroppedSet, DueSet;
    SameGapSameFate(c, s, Partly(c, s, done), k);
    PartlyMoreStats(c, s, done, k);
    assert Partly(c, s, done + {k}).gaps == OneStep(c, Partly(c, s, done), k).gaps;
  }

  lemma SameGapSameFate(c: Config, s: State, p: State, k: u32)
    requires k in s.gaps && k in p.gaps && s.gaps[k] == p.gaps[k] && s.highest == p.highest && s.reorder == p.reorder
    ensures Due(c, p, k) == Due(c, s, k) && Dropped(c, p, k) == Dropped(c, s, k) && Bumped(c, p, k) == Bumped(c, s, k)
  {
  }

  lemma PartlyMoreStats(c: Config, s: State, done: set<u32>, k: u32)
    requires k in s.gaps && k !in done
    ensures var p, q := Partly(c, s, done).stats, Partly(c, s, done + {k}).stats;
      q == (if Dropped(c, s, k) then Lose(p, s.gaps[k].likelyKey) else p).(
             nacksRequested := p.nacksRequested + if Due(c, s, k) then 1 else 0)
  {
    hide Due, Dropped, Bumped;
    var dropped, due := DroppedSet(c, s), DueSet(c, s);
    if Dropped(c, s, k) {
      assert dropped * (done + {k}) == dropped * done + {k};
      GiveUpOneMore(s.gaps, dropped * done, k);
    } else {
      assert dropped * (done + {k}) == dropped * done;
    }
    if Due(c, s, k) {
      assert due * (done + {k}) == due * done + {k};
    } else {
      assert due * (done + {k}) == due * done;
    }
  }

  lemma PartlyAll(c: Config, s: State)
    ensures var p := Partly(c, s, s.gaps.Keys);
      Collected(c, s) == p.(stats := p.stats.(pending := |p.gaps|))
  {
    hide Due, Dropped, Bumped;
    assert DroppedSet(c, s) * s.gaps.Keys == DroppedSet(c, s);
    assert DueSet(c, s) * s.gaps.Keys == DueSet(c, s);
    hide DueSet, DroppedSet;
    assert Partly(c, s, s.gaps.Keys).gaps == Collected(c, s).gaps;
  }

  lemma CollectedKeeps(c: Config, s: State)
    requires Consistent(s)
    ensures Consistent(Collected(c, s))
    ensures forall k: u32 :: Due(c, s, k) ==> k in s.gaps
  {
    if !s.hasBaseline { assert Collected(c, s).gaps == map[]; }
  }

  lemma NothingToCollect(c: Config, s: State)
    requires Consistent(s) && (!s.hasBaseline || s.gaps == map[])
    ensures Collected(c, s) == s
    ensures forall k: u32 :: !Due(c, s, k)
  {
    PartlyNone(c, s);
    PartlyAll(c, s);
    assert s.gaps.Keys == {};
  }

  lemma AgesDiffer(s: State, a: u32, b: u32)
    ensures Age(s, a) == Age(s, b) <==> a == b
  {
    if Age(s, a) == Age(s, b) {
      var i, j := (s.highest - a) / MOD, (s.highest - b) / MOD;
      assert b - a == MOD * (i - j);
    }
  }

  lemma KeyIsNew(s: State, keys: seq<u32>, i: nat)
    requires OldestFirst(s, keys) && i < |keys|
    ensures keys[i] !in keys[..i]
  {
  }

  lemma OneMoreOut(s: State, keys: seq<u32>, i: nat, out: seq<u32>)
    requires OldestFirst(s, keys) && i < |keys| && OldestFirst(s, out)
    requires forall k :: k in out ==> k in keys[..i]
    ensures OldestFirst(s, out + [keys[i]])
  {
    hide Age;
    forall j | 0 <= j < |out|
      ensures Age(s, out[j]) > Age(s, keys[i])
    {
      assert out[j] in keys[..i];
    }
  }

  lemma EvictNone(s: Stats, gaps: map<u32, Gap>)
    ensures Without(gaps, {}) == gaps && GiveUp(s, gaps, {}) == s
  {
    assert Without(gaps, {}) == gaps;
    assert KeyOnes(gaps, {}) == {};
  }

  lemma EvictOneMore(s: Stats, gaps: map<u32, Gap>, gone: set<u32>, k: u32)
    requires k in gaps && k !in gone
    ensures var left := Without(gaps, gone);
      k in left && left[k] == gaps[k] && Without(gaps, gone + {k}) == left - {k}
    ensures GiveUp(s, gaps, gone + {k}) == Lose(GiveUp(s, gaps, gone), gaps[k].likelyKey)
  {
    assert Without(gaps, gone + {k}) == Without(gaps, gone) - {k};
    GiveUpOneMore(gaps, gone, k);
  }

  lemma GiveUpOneMore(gaps: map<u32, Gap>, gone: set<u32>, k: u32)
    requires k in gaps && k !in gone
    ensures |gone + {k}| == |gone| + 1
    ensures |KeyOnes(gaps, gone + {k})| == |KeyOnes(gaps, gone)| + if gaps[k].likelyKey then 1 else 0
  {
    assert KeyOnes(gaps, gone + {k}) == KeyOnes(gaps, gone) + if gaps[k].likelyKey then {k} else {};
  }
}
