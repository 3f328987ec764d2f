/**
 Recently sent frames, kept for retransmission (modules/transport/RetransmitCache.cpp).
 */
module RetransmitCache {
  import opened Cyclic
  import opened Packet
  import opened Packetizer

  /** `RetransmitCacheConfig`; `maxFrames` 0 means no limit. */
  datatype Config = Config(retentionMs: int, maxFrames: nat)

  datatype Entry = Entry(frame: Frame, baseSeq: u32, fragCount: u16, storedAtMs: u64)

  datatype Stats = Stats(frames: nat, bytes: nat, framesStored: nat, framesEvicted: nat, hits: nat, misses: nat)

  datatype Answer = Answer(frame: Frame, fragIndex: u16, fragCount: u16)

  /** Old enough to go; an entry stored in the future is not. */
  predicate Expired(c: Config, e: Entry, nowMs: u64) {
    nowMs >= e.storedAtMs && (c.retentionMs <= 0 || nowMs - e.storedAtMs >= c.retentionMs)
  }

  /** Without the expired entries at the front. */
  function Fresh(c: Config, es: seq<Entry>, nowMs: u64): (r: seq<Entry>)
    ensures |r| <= |es|
  {
    if es == [] || !Expired(c, es[0], nowMs) then es else Fresh(c, es[1..], nowMs)
  }

  lemma {:induction false} FreshIsSuffix(c: Config, es: seq<Entry>, nowMs: u64)
    ensures Fresh(c, es, nowMs) == es[|es| - |Fresh(c, es, nowMs)|..]
  {
    if es != [] && Expired(c, es[0], nowMs) { FreshIsSuffix(c, es[1..], nowMs); }
  }

  /** With entries in order of time, exactly the expired ones go. */
  lemma {:induction false} FreshIsExact(c: Config, es: seq<Entry>, nowMs: u64, k: nat)
    requires forall i, j :: 0 <= i < j < |es| ==> es[i].storedAtMs <= es[j].storedAtMs
    requires k < |es|
    ensures k < |es| - |Fresh(c, es, nowMs)| ==> Expired(c, es[k], nowMs)
    ensures k >= |es| - |Fresh(c, es, nowMs)| ==> !Expired(c, es[k], nowMs)
  {
    if Expired(c, es[0], nowMs) && k > 0 { FreshIsExact(c, es[1..], nowMs, k - 1); }
  }

  lemma NothingFresh(c: Config, nowMs: u64)
    ensures Fresh(c, [], nowMs) == []
  {
  }

  lemma FreshStep(c: Config, es: seq<Entry>, nowMs: u64)
    requires es != []
    ensures Fresh(c, es, nowMs) == if Expired(c, es[0], nowMs) then Fresh(c, es[1..], nowMs) else es
  {
  }

  function Newest(c: Config, es: seq<Entry>): (r: seq<Entry>)
    ensures |r| <= |es| && r == es[|es| - |r|..]
  {
    if c.maxFrames == 0 || |es| <= c.maxFrames then es else es[|es| - c.maxFrames..]
  }

  /** Frames without fragments or bytes are not worth keeping. */
  function Stored(c: Config, es: seq<Entry>, e: Entry): (r: seq<Entry>) {
    if e.fragCount == 0 || e.frame.data == [] then es else Newest(c, Fresh(c, es + [e], e.storedAtMs))
  }

  function ByteCount(es: seq<Entry>): nat {
    if es == [] then 0 else |es[0].frame.data| + ByteCount(es[1..])
  }

  predicate Covers(e: Entry, s: u32) {
    Sub(s, e.baseSeq) < e.fragCount
  }

  /** The first entry whose numbers include `s`; `|es|` if there is none. */
  function Holder(es: seq<Entry>, s: u32): (k: nat)
    ensures k <= |es|
    ensures k < |es| ==> Covers(es[k], s)
    ensures forall j :: 0 <= j < k ==> !Covers(es[j], s)
  {
    if es == [] || Covers(es[0], s) then 0 else 1 + Holder(es[1..], s)
  }

  function Found(e: Entry, s: u32): Answer
    requires Covers(e, s)
  {
    Answer(e.frame, Sub(s, e.baseSeq), e.fragCount)
  }

  lemma {:induction false} BytesOfAppend(es: seq<Entry>, e: Entry)
    ensures ByteCount(es + [e]) == ByteCount(es) + |e.frame.data|
  {
    if es == [] {
      assert (es + [e])[1..] == [];
    } else {
      assert (es + [e])[1..] == es[1..] + [e];
      BytesOfAppend(es[1..], e);
    }
  }

  /** Evicting changes neither what was stored nor what was looked up. */
  predicate Kept(before: Stats, after: Stats) {
    before.framesStored == after.framesStored && before.hits == after.hits && before.misses == after.misses
  }

  class RetransmitCache {
    const config: Config
    var entries: seq<Entry>
    var stats: Stats
    ghost var discarded: nat  // entries thrown away by `Reset`

    /** The counters agree with the entries. */
    ghost predicate Valid()
      reads this
    {
      stats.frames == |entries| && Accounted()
    }

    ghost predicate Accounted()
      reads this
    {
      && stats.bytes == ByteCount(entries)
      && stats.framesStored == stats.framesEvicted + |entries| + discarded
    }

    constructor (config: Config)
      ensures Valid() && entries == [] && stats == Stats(0, 0, 0, 0, 0, 0) && this.config == config && discarded == 0
    {
      this.config := config;
      entries, stats, discarded := [], Stats(0, 0, 0, 0, 0, 0), 0;
    }

    method Store(frame: Frame, baseSeq: u32, fragCount: u16, nowMs: u64)
      requires Valid()
      modifies this
      ensures Valid() && entries == Stored(config, old(entries), Entry(frame, baseSeq, fragCount, nowMs))
      ensures fragCount == 0 || frame.data == [] ==> entries == old(entries)
      ensures stats.framesStored == old(stats).framesStored + if fragCount == 0 || frame.data == [] then 0 else 1
      ensures stats.hits == old(stats).hits && stats.misses == old(stats).misses && discarded == old(discarded)
    {
      hide ByteCount;
      if fragCount == 0 || frame.data == [] { return; }
      var entry := Entry(frame, baseSeq, fragCount, nowMs);
      BytesOfAppend(entries, entry);
      stats := stats.(bytes := stats.bytes + |frame.data|);
      entries := entries + [entry];
      stats := stats.(framesStored := stats.framesStored + 1, frames := |entries|);
      EvictExpired(nowMs);
      TrimToLimit();
    }

    method EvictExpired(nowMs: u64)
      requires Valid()
      modifies this
      ensures Valid() && entries == Fresh(config, old(entries), nowMs)
      ensures Kept(old(stats), stats) && discarded == old(discarded)
      ensures stats.framesStored == old(stats).framesStored && stats.hits == old(stats).hits && stats.misses == old(stats).misses
      ensures stats.framesEvicted == old(stats).framesEvicted + old(|entries|) - |entries|
    {
      hide ByteCount, Fresh;
      assert Fresh(config, [], nowMs) == [] by { NothingFresh(config, nowMs); }
      while entries != []
        invariant Accounted() && Fresh(config, entries, nowMs) == Fresh(config, old(entries), nowMs)
        invariant Kept(old(stats), stats) && discarded == old(discarded)
        decreases |entries|
      {
        var oldest := entries[0];
        FreshStep(config, entries, nowMs);
        if nowMs < oldest.storedAtMs { break; }
        var age := nowMs - oldest.storedAtMs;
        if config.retentionMs > 0 && age < config.retentionMs { break; }
        DropOldest();
      }
      stats := stats.(frames := |entries|);
    }

    method TrimToLimit()
      requires Valid()
      modifies this
      ensures Valid() && entries == Newest(config, old(entries))
      ensures Kept(old(stats), stats) && discarded == old(discarded)
    {
      ghost var all := entries;
      while config.maxFrames != 0 && |entries| > config.maxFrames
        invariant |entries| <= |all| && entries == all[|all| - |entries|..]
        invariant |entries| == |all| || (config.maxFrames != 0 && |entries| >= config.maxFrames)
        invariant Accounted() && Kept(old(stats), stats) && discarded == old(discarded)
      {
        hide ByteCount;
        DropOldest();
      }
      stats := stats.(frames := |entries|);
    }

    method DropOldest()
      requires Accounted() && entries != []
      modifies this`entries, this`stats
      ensures Accounted() && entries == old(entries)[1..] && Kept(old(stats), stats)
    {
      stats := stats.(bytes := stats.bytes - |entries[0].frame.data|, framesEvicted := stats.framesEvicted + 1);
      entries := entries[1..];
    }

    /** On a miss the caller's answer is left as it was. */
    method Find(seq_: u32, before: Answer) returns (ok: bool, out: Answer)
      requires Valid()
      modifies this`stats
      ensures Valid()
      ensures ok == (Holder(entries, seq_) < |entries|)
      ensures out == if ok then Found(entries[Holder(entries, seq_)], seq_) else before
      ensures stats == if ok then old(stats).(hits := old(stats).hits + 1) else old(stats).(misses := old(stats).misses + 1)
    {
      out := before;
      for i := 0 to |entries|
        invariant Holder(entries, seq_) == i + Holder(entries[i..], seq_)
        invariant stats == old(stats) && out == before
      {
        var entry := entries[i];
        var fragmentIndex := Sub(seq_, entry.baseSeq);
        if fragmentIndex >= entry.fragCount { continue; }
        stats := stats.(hits := stats.hits + 1);
        return true, Answer(entry.frame, fragmentIndex, entry.fragCount);
      }
      stats := stats.(misses := stats.misses + 1);
      ok := false;
    }

    method Reset()
      requires Valid()
      modifies this
      ensures Valid() && entries == [] && discarded == old(discarded) + old(|entries|)
      ensures stats == old(stats).(frames := 0, bytes := 0)
    {
      discarded := discarded + |entries|;
      entries := [];
      stats := stats.(frames := 0, bytes := 0);
    }
  }
}
