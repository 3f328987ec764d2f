/**
 Packetizer and retransmission cache over whole runs: what is resent is what was sent.
 Numbers are unbounded here; `Wrap` gives the ones on the wire.
 */
module RetransmitRuns {
  import opened Cyclic
  import opened Packet
  import opened Packetizer
  import opened RetransmitCache

  /** The send loop stores each frame it has packetized, and lets old ones expire in between. */
  datatype Op = Send(frame: Frame, nowMs: u64) | Expire(nowMs: u64)

  datatype Sent = Sent(frame: Frame, base: int, storedAtMs: u64)

  datatype Run = Run(sent: seq<Sent>, entries: seq<Entry>, next: int)

  predicate Sendable(f: Frame) {
    f.data != [] && FragmentCount(|f.data|) <= 65535
  }

  function Count(s: Sent): (n: nat)
    ensures Sendable(s.frame) ==> 1 <= n <= 65535
  {
    FragmentCount(|s.frame.data|)
  }

  function EntryOf(s: Sent): Entry
    requires Sendable(s.frame)
  {
    Entry(s.frame, Wrap(s.base), Count(s), s.storedAtMs)
  }

  /** Packetized from number `b` on. Frames the packetizer refuses never reach the cache. */
  function After(c: Config, b: int, ops: seq<Op>): Run {
    if ops == [] then Run([], [], b)
    else
      var r := After(c, b, ops[..|ops| - 1]);
      match ops[|ops| - 1]
      case Expire(nowMs) => r.(entries := Fresh(c, r.entries, nowMs))
      case Send(f, nowMs) =>
        if !Sendable(f) then r
        else
          var s := Sent(f, r.next, nowMs);
          Run(r.sent + [s], Stored(c, r.entries, EntryOf(s)), r.next + Count(s))
  }

  // ----- The cache holds the last frames sent, one range after the other -----

  /** Each frame's numbers follow the previous frame's. */
  ghost predicate Chained(sent: seq<Sent>, next: int) {
    && (forall i :: 0 <= i < |sent| ==> Sendable(sent[i].frame))
    && (forall i, j :: 0 <= i < j < |sent| && j == i + 1 ==> sent[i].base + Count(sent[i]) == sent[j].base)
    && (sent != [] ==> sent[|sent| - 1].base + Count(sent[|sent| - 1]) == next)
  }

  ghost predicate Holds(c: Config, r: Run) {
    && Chained(r.sent, r.next)
    && |r.entries| <= |r.sent|
    && (forall k :: 0 <= k < |r.entries| ==> r.entries[k] == EntryOf(r.sent[|r.sent| - |r.entries| + k]))
    && (c.maxFrames != 0 ==> |r.entries| <= c.maxFrames)
  }

  lemma {:induction false} RunHolds(c: Config, b: int, ops: seq<Op>)
    ensures Holds(c, After(c, b, ops))
  {
    hide Holds, Fresh, Stored, Count, EntryOf, Sendable;
    if ops == [] {
      NothingHolds(c, b);
    } else {
      var init := ops[..|ops| - 1];
      RunHolds(c, b, init);
      var r := After(c, b, init);
      match ops[|ops| - 1]
      case Expire(nowMs) => ExpireHolds(c, r, nowMs);
      case Send(f, nowMs) => if Sendable(f) { SendHolds(c, r, Sent(f, r.next, nowMs)); }
    }
  }

  lemma NothingHolds(c: Config, b: int)
    ensures Holds(c, Run([], [], b))
  {
  }

  lemma ExpireHolds(c: Config, r: Run, nowMs: u64)
    requires Holds(c, r)
    ensures Holds(c, r.(entries := Fresh(c, r.entries, nowMs)))
  {
    hide Fresh, Count, FragmentCount;
    FreshIsSuffix(c, r.entries, nowMs);
  }

  lemma StoredIsSuffix(c: Config, es: seq<Entry>, e: Entry)
    requires e.fragCount > 0 && e.frame.data != []
    ensures var all, r := es + [e], Stored(c, es, e);
      |r| <= |all| && r == all[|all| - |r|..] && (c.maxFrames != 0 ==> |r| <= c.maxFrames)
  {
    var kept := Fresh(c, es + [e], e.storedAtMs);
    FreshIsSuffix(c, es + [e], e.storedAtMs);
    hide Fresh;
    var r := Newest(c, kept);
    assert r == kept[|kept| - |r|..];
  }

  lemma SendHolds(c: Config, r: Run, s: Sent)
    requires Holds(c, r) && Sendable(s.frame) && s.base == r.next
    ensures Holds(c, Run(r.sent + [s], Stored(c, r.entries, EntryOf(s)), r.next + Count(s)))
  {
    hide Count, Stored, FragmentCount, Wrap;
    StoredIsSuffix(c, r.entries, EntryOf(s));
    var entries, sent := Stored(c, r.entries, EntryOf(s)), r.sent + [s];
    SendChains(r.sent, r.next, s);
    forall k | 0 <= k < |entries|
      ensures Sendable(sent[|sent| - |entries| + k].frame)
      ensures entries[k] == EntryOf(sent[|sent| - |entries| + k])
    {
      var at := |r.entries| + 1 - |entries| + k;
      assert entries[k] == (r.entries + [EntryOf(s)])[at];
      if at < |r.entries| { assert r.entries[at] == EntryOf(r.sent[|r.sent| - |r.entries| + at]); }
    }
  }

  lemma SendChains(sent: seq<Sent>, next: int, s: Sent)
    requires Chained(sent, next) && Sendable(s.frame) && s.base == next
    ensures Chained(sent + [s], next + Count(s))
  {
    hide Count, Sendable;
  }

  lemma {:induction false} Spacing(sent: seq<Sent>, next: int, i: nat, j: nat)
    requires Chained(sent, next) && i <= j < |sent|
    ensures j - i <= sent[j].base - sent[i].base <= 65535 * (j - i)
    decreases j
  {
    hide Count;
    if i < j { Spacing(sent, next, i, j - 1); }
  }

  /** The frames still held, and their place in what was sent. */
  function First(r: Run): int {
    |r.sent| - |r.entries|
  }

  /** Two held numbers are less than a full turn apart. */
  lemma HeldIsNarrow(c: Config, r: Run, j: nat, k: nat)
    requires Holds(c, r) && 1 <= c.maxFrames <= 65536
    requires First(r) <= j <= k < |r.sent|
    ensures r.sent[k].base + Count(r.sent[k]) - r.sent[j].base < MOD
    ensures j < k ==> r.sent[j].base + Count(r.sent[j]) <= r.sent[k].base
  {
    hide Count, FragmentCount;
    Spacing(r.sent, r.next, j, k);
    CountIsSmall(r.sent[k]);
    if j < k { Spacing(r.sent, r.next, j + 1, k); }
  }

  lemma CountIsSmall(s: Sent)
    requires Sendable(s.frame)
    ensures 1 <= Count(s) <= 65535
  {
  }

  /** The entry of sent frame `k` covers exactly the numbers `k` was sent with. */
  lemma CoversWhatWasSent(c: Config, r: Run, j: nat, k: nat, i: nat)
    requires Holds(c, r) && 1 <= c.maxFrames <= 65536
    requires First(r) <= j < |r.sent| && First(r) <= k < |r.sent| && i < Count(r.sent[k])
    ensures Covers(r.entries[j - First(r)], Wrap(r.sent[k].base + i)) <==> j == k
    ensures Sub(Wrap(r.sent[k].base + i), r.entries[k - First(r)].baseSeq) == i
  {
    hide Count, Wrap, Sub, FragmentCount;
    var x := r.sent[k].base + i;
    assert r.entries[j - First(r)] == EntryOf(r.sent[j]) && r.entries[k - First(r)] == EntryOf(r.sent[k]);
    CountIsSmall(r.sent[k]);
    SubWrapped(x, r.sent[k].base);
    if j < k {
      HeldIsNarrow(c, r, j, k);
      SubWrapped(x, r.sent[j].base);
    } else if k < j {
      HeldIsNarrow(c, r, k, j);
      SubBehind(x, r.sent[j].base);
    }
  }

  lemma SubBehind(x: int, y: int)
    requires -MOD < x - y < 0
    ensures Sub(Wrap(x), Wrap(y)) == x - y + MOD
  {
    DifferenceModulo(x, y);
    QuotientUnique(x - y, -1, x - y + MOD);
  }

  /** Ranges of cached frames are disjoint, also modulo 2^32; and looking up any number a cached frame was sent
      with gives that frame, and the fragment index and count the number was sent with. */
  lemma HeldFragmentIsFound(c: Config, r: Run, k: nat, i: nat)
    requires Holds(c, r) && 1 <= c.maxFrames <= 65536
    requires First(r) <= k < |r.sent| && i < Count(r.sent[k])
    ensures var s, e := Wrap(r.sent[k].base + i), k - First(r);
      && Holder(r.entries, s) == e
      && Found(r.entries[e], s).frame == r.sent[k].frame
      && Found(r.entries[e], s).fragIndex == i && Found(r.entries[e], s).fragCount == Count(r.sent[k])
      && forall j :: 0 <= j < |r.entries| && j != e ==> !Covers(r.entries[j], s)
  {
    hide Count, Wrap, Sub, FragmentCount;
    var s, e := Wrap(r.sent[k].base + i), k - First(r);
    forall j | 0 <= j < |r.entries|
      ensures Covers(r.entries[j], s) <==> j == e
    {
      CoversWhatWasSent(c, r, j + First(r), k, i);
    }
    CoversWhatWasSent(c, r, k, k, i);
    assert r.entries[e] == EntryOf(r.sent[First(r) + e]);
  }

  /** Whatever number is looked up, a hit names a fragment that was sent with this number. */
  lemma HitWasSent(c: Config, r: Run, s: u32)
    requires Holds(c, r) && Holder(r.entries, s) < |r.entries|
    ensures var e := Holder(r.entries, s); var sent, a := r.sent[First(r) + e], Found(r.entries[e], s);
      a.frame == sent.frame && a.fragCount == Count(sent) && a.fragIndex < a.fragCount && Wrap(sent.base + a.fragIndex) == s
  {
    hide Count, Wrap, Sub, FragmentCount;
    var e := Holder(r.entries, s);
    assert r.entries[e] == EntryOf(r.sent[First(r) + e]);
    WrapOfSum(r.sent[First(r) + e].base, s);
  }

  /** Both, after any run. */
  lemma LookupsAreRight(c: Config, b: int, ops: seq<Op>, k: nat, i: nat, s: u32)
    requires 1 <= c.maxFrames <= 65536
    ensures var r := After(c, b, ops);
      && Holds(c, r)
      && (First(r) <= k < |r.sent| && i < Count(r.sent[k]) && s == Wrap(r.sent[k].base + i) ==>
            Holder(r.entries, s) == k - First(r)
            && Found(r.entries[k - First(r)], s).frame == r.sent[k].frame
            && Found(r.entries[k - First(r)], s).fragIndex == i && Found(r.entries[k - First(r)], s).fragCount == Count(r.sent[k]))
      && (Holder(r.entries, s) < |r.entries| ==>
            var sent, a := r.sent[First(r) + Holder(r.entries, s)], Found(r.entries[Holder(r.entries, s)], s);
            a.frame == sent.frame && a.fragIndex < Count(sent) && Wrap(sent.base + a.fragIndex) == s)
  {
    RunHolds(c, b, ops);
    hide After, Count, Wrap, Sub, Chained, FragmentCount;
    var r := After(c, b, ops);
    if First(r) <= k < |r.sent| && i < Count(r.sent[k]) { HeldFragmentIsFound(c, r, k, i); }
    if Holder(r.entries, s) < |r.entries| { HitWasSent(c, r, s); }
  }

  // ----- What must still be held -----

  /** The time of the last operation on the cache; 0 before the first. */
  function LastTime(ops: seq<Op>): int {
    if ops == [] then 0
    else
      match ops[|ops| - 1]
      case Expire(nowMs) => nowMs
      case Send(f, nowMs) => if Sendable(f) then nowMs else LastTime(ops[..|ops| - 1])
  }

  /** Time does not run backwards. */
  ghost predicate InOrder(ops: seq<Op>) {
    forall n :: 0 < n <= |ops| ==> LastTime(ops[..n - 1]) <= LastTime(ops[..n])
  }

  /** Sent so recently that the cache must have it: one of the last `maxFrames` sent, if there is a limit, and the
      last operation came before its retention was over. */
  predicate IsRecent(c: Config, ops: seq<Op>, sent: seq<Sent>, k: nat)
    requires k < |sent|
  {
    && (c.maxFrames == 0 || |sent| - k <= c.maxFrames)
    && LastTime(ops) - sent[k].storedAtMs < c.retentionMs
  }

  ghost predicate HoldsRecent(c: Config, ops: seq<Op>, r: Run) {
    && |r.entries| <= |r.sent|
    && (forall k :: 0 <= k < |r.sent| ==> (First(r) <= k <==> IsRecent(c, ops, r.sent, k)))
    && (forall j, k :: 0 <= j < k < |r.sent| ==> r.sent[j].storedAtMs <= r.sent[k].storedAtMs)
    && (forall k :: 0 <= k < |r.sent| ==> r.sent[k].storedAtMs <= LastTime(ops))
  }

  /** Which entries a store leaves: those not expired, among the last `maxFrames`. */
  lemma StoredIsExact(c: Config, es: seq<Entry>, e: Entry, k: nat)
    requires e.fragCount > 0 && e.frame.data != [] && k <= |es|
    requires forall i, j :: 0 <= i < j < |es| ==> es[i].storedAtMs <= es[j].storedAtMs
    requires forall i :: 0 <= i < |es| ==> es[i].storedAtMs <= e.storedAtMs
    ensures k >= |es| + 1 - |Stored(c, es, e)| <==>
      !Expired(c, (es + [e])[k], e.storedAtMs) && (c.maxFrames == 0 || |es| + 1 - k <= c.maxFrames)
  {
    hide Fresh, Expired;
    FreshIsExact(c, es + [e], e.storedAtMs, k);
  }

  lemma EntryTimes(c: Config, r: Run)
    requires Holds(c, r)
    ensures |r.entries| <= |r.sent|
    ensures forall k :: 0 <= k < |r.entries| ==> r.entries[k].storedAtMs == r.sent[First(r) + k].storedAtMs
  {
    hide Count, FragmentCount, Wrap;
  }

  lemma ExpireHoldsRecent(c: Config, ops: seq<Op>, r: Run, nowMs: u64)
    requires Holds(c, r) && HoldsRecent(c, ops, r) && LastTime(ops) <= nowMs
    ensures HoldsRecent(c, ops + [Expire(nowMs)], r.(entries := Fresh(c, r.entries, nowMs)))
  {
    hide Fresh, Holds;
    EntryTimes(c, r);
    var u, more := r.(entries := Fresh(c, r.entries, nowMs)), ops + [Expire(nowMs)];
    assert LastTime(more) == nowMs;
    hide LastTime;
    forall k | 0 <= k < |r.sent|
      ensures First(u) <= k <==> IsRecent(c, more, u.sent, k)
    {
      assert First(r) <= k <==> IsRecent(c, ops, r.sent, k);
      if First(r) <= k { FreshIsExact(c, r.entries, nowMs, k - First(r)); }
    }
  }

  lemma SendHoldsRecent(c: Config, ops: seq<Op>, r: Run, f: Frame, nowMs: u64)
    requires Holds(c, r) && HoldsRecent(c, ops, r) && LastTime(ops) <= nowMs && Sendable(f)
    ensures var s := Sent(f, r.next, nowMs);
      HoldsRecent(c, ops + [Send(f, nowMs)], Run(r.sent + [s], Stored(c, r.entries, EntryOf(s)), r.next + Count(s)))
  {
    hide Stored, Holds, Count, FragmentCount, Wrap;
    EntryTimes(c, r);
    var s, more := Sent(f, r.next, nowMs), ops + [Send(f, nowMs)];
    var e := EntryOf(s);
    CountIsSmall(s);
    StoredIsSuffix(c, r.entries, e);
    var u := Run(r.sent + [s], Stored(c, r.entries, e), r.next + Count(s));
    assert LastTime(more) == nowMs by { assert more[|more| - 1] == Send(f, nowMs); }
    hide LastTime, Sendable;
    forall k | 0 <= k < |u.sent|
      ensures First(u) <= k <==> IsRecent(c, more, u.sent, k)
    {
      if k < |r.sent| { assert u.sent[k] == r.sent[k] && (First(r) <= k <==> IsRecent(c, ops, r.sent, k)); }
      if First(r) <= k {
        StoredIsExact(c, r.entries, e, k - First(r));
        assert (r.entries + [e])[k - First(r)].storedAtMs == u.sent[k].storedAtMs;
      }
    }
  }

  /** With times in order, a frame that was sent is held if and only if it is recent: among the last `maxFrames`
      sent, and the last operation came before its retention was over. */
  lemma {:induction false} RecentIsHeld(c: Config, b: int, ops: seq<Op>)
    requires InOrder(ops)
    ensures HoldsRecent(c, ops, After(c, b, ops))
    decreases |ops|
  {
    hide Holds, HoldsRecent, Stored, Fresh, EntryOf, Count, Sendable;
    if ops == [] {
      NothingRecent(c, b);
    } else {
      var n := |ops| - 1;
      var init := ops[..n];
      InOrderBefore(ops);
      RecentIsHeld(c, b, init);
      RunHolds(c, b, init);
      var r := After(c, b, init);
      assert ops == init + [ops[n]];
      match ops[n]
      case Expire(nowMs) => ExpireHoldsRecent(c, init, r, nowMs);
      case Send(f, nowMs) =>
        if Sendable(f) { SendHoldsRecent(c, init, r, f, nowMs); } else { RefusedChangesNothing(c, ops, r); }
    }
  }

  lemma NothingRecent(c: Config, b: int)
    ensures HoldsRecent(c, [], Run([], [], b))
  {
  }

  lemma InOrderBefore(ops: seq<Op>)
    requires InOrder(ops) && ops != []
    ensures InOrder(ops[..|ops| - 1]) && LastTime(ops[..|ops| - 1]) <= LastTime(ops)
  {
    hide LastTime;
    var front := ops[..|ops| - 1];
    forall n | 0 < n <= |front|
      ensures LastTime(front[..n - 1]) <= LastTime(front[..n])
    {
      assert front[..n - 1] == ops[..n - 1] && front[..n] == ops[..n];
    }
    assert ops[..|ops|] == ops;
    assert LastTime(ops[..|ops| - 1]) <= LastTime(ops[..|ops|]);
  }

  lemma RefusedChangesNothing(c: Config, ops: seq<Op>, r: Run)
    requires ops != [] && ops[|ops| - 1].Send? && !Sendable(ops[|ops| - 1].frame) && HoldsRecent(c, ops[..|ops| - 1], r)
    ensures HoldsRecent(c, ops, r)
  {
    var init := ops[..|ops| - 1];
    assert LastTime(ops) == LastTime(init);
    hide LastTime;
    assert forall k :: 0 <= k < |r.sent| ==> IsRecent(c, ops, r.sent, k) == IsRecent(c, init, r.sent, k);
  }

  lemma WrapOfSum(base: int, s: u32)
    ensures Wrap(base + Sub(s, Wrap(base))) == s
  {
    AddWrapped(base, Sub(s, Wrap(base)));
    ShiftModulo(s, (s - Wrap(base)) / MOD);
  }

  /** Where the flags are in a DATA packet. */
  const FLAGS_AT: nat := 20

  /** The resent packet is the original one except for the retransmission bit: bit 1 of the flags. */
  lemma ResentIsOriginal(streamId: u16, base: int, f: Frame, i: nat)
    requires Sendable(f) && i < FragmentCount(|f.data|)
    ensures CanFragment(f, i, FragmentCount(|f.data|))
    ensures var n := FragmentCount(|f.data|);
      var was, again := FramePackets(streamId, base, f)[i], FragmentPacket(streamId, Wrap(base + i), f, i, n, true);
      && |was| == |again| > FLAGS_AT
      && was[FLAGS_AT] < 2 && again[FLAGS_AT] == was[FLAGS_AT] + 2
      && forall j :: 0 <= j < |was| && j != FLAGS_AT ==> was[j] == again[j]
  {
    hide FragmentCount, Payload, PacketHeaderBytes;
  }
}
