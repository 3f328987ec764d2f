/**
 A lost packet's way back: the receiver asks, the sender answers from its cache
 (app/sender/SenderPipeline.cpp:374-447), and the answer closes the gap and fills the
 slot it was asked for.
 */
module Retransmission {
  import opened Basics
  import opened Cyclic
  import opened Packet
  import opened Packetizer
  import opened NackCodec
  import RC = RetransmitCache
  import RR = RetransmitRuns
  import NT = NackTracker
  import NR = NackRuns
  import FA = FrameAssembler
  import FD = FecDecoder
  import FR = FecRecovery
  import RA = Reassembly
  import RP = ReceiverPipeline

  /** A request for a key frame: a bare header. */
  const PLI: byte := 4

  // ----- The sender's answer -----

  predicate Hit(es: seq<RC.Entry>, s: u32) {
    RC.Holder(es, s) < |es|
  }

  predicate Answers(es: seq<RC.Entry>, s: u32) {
    Hit(es, s) && var a := RC.Found(es[RC.Holder(es, s)], s); CanFragment(a.frame, a.fragIndex, a.fragCount)
  }

  /** The packet resent for number `s`. */
  function Answer(streamId: u16, es: seq<RC.Entry>, s: u32): Bytes
    requires Answers(es, s)
  {
    var a := RC.Found(es[RC.Holder(es, s)], s);
    FragmentPacket(streamId, s, a.frame, a.fragIndex, a.fragCount, true)
  }

  function Replies(streamId: u16, es: seq<RC.Entry>, wanted: seq<u32>): seq<Bytes> {
    if wanted == [] then []
    else
      var s := wanted[|wanted| - 1];
      Replies(streamId, es, wanted[..|wanted| - 1]) + if Answers(es, s) then [Answer(streamId, es, s)] else []
  }

  function Misses(es: seq<RC.Entry>, wanted: seq<u32>): nat {
    if wanted == [] then 0 else Misses(es, wanted[..|wanted| - 1]) + if Hit(es, wanted[|wanted| - 1]) then 0 else 1
  }

  /** Looked up, but impossible to cut. */
  function Uncut(es: seq<RC.Entry>, wanted: seq<u32>): nat {
    if wanted == [] then 0
    else
      var s := wanted[|wanted| - 1];
      Uncut(es, wanted[..|wanted| - 1]) + if Hit(es, s) && !Answers(es, s) then 1 else 0
  }

  datatype Stats = Stats(sendErrors: nat, retransmitMisses: nat, reverseMalformed: nat, plisReceived: nat,
                         nacksReceived: nat, nackedSeqs: nat)

  /** What one datagram on the reverse channel does to the counters. */
  function Tallied(n: Stats, es: seq<RC.Entry>, packet: Bytes): Stats {
    var header := ParsePacketHeader(packet);
    if header.Success? && header.value.kind == PLI && |packet| == PACKET_HEADER_SIZE then
      n.(plisReceived := n.plisReceived + 1)
    else if ParseNack(packet).Failure? then n.(reverseMalformed := n.reverseMalformed + 1)
    else
      var wanted := ParseNack(packet).value;
      n.(nacksReceived := n.nacksReceived + 1, nackedSeqs := n.nackedSeqs + |wanted|,
         retransmitMisses := n.retransmitMisses + Misses(es, wanted),
         sendErrors := n.sendErrors + Uncut(es, wanted))
  }

  /** The send loop's handling of what the receiver sends back. The socket is left out: `replies` is what is
      handed to it. */
  class ReverseChannel {
    const cache: RC.RetransmitCache
    const streamId: u16
    var stats: Stats

    constructor (cache: RC.RetransmitCache, streamId: u16)
      ensures this.cache == cache && this.streamId == streamId && stats == Stats(0, 0, 0, 0, 0, 0)
    {
      this.cache, this.streamId := cache, streamId;
      stats := Stats(0, 0, 0, 0, 0, 0);
    }

    method OnDatagram(packet: Bytes) returns (replies: seq<Bytes>, keyFrame: bool)
      requires cache.Valid()
      modifies this`stats, cache`stats
      ensures cache.Valid()
      ensures replies == if ParseNack(packet).Success? then Replies(streamId, cache.entries, ParseNack(packet).value) else []
      ensures keyFrame <==>
        ParsePacketHeader(packet).Success? && ParsePacketHeader(packet).value.kind == PLI && |packet| == PACKET_HEADER_SIZE
      ensures stats == Tallied(old(stats), cache.entries, packet)
      ensures keyFrame ==> stats == old(stats).(plisReceived := old(stats).plisReceived + 1)
      ensures !keyFrame && ParseNack(packet).Failure? ==> stats == old(stats).(reverseMalformed := old(stats).reverseMalformed + 1)
      ensures ParseNack(packet).Success? ==>
        && stats.nacksReceived == old(stats).nacksReceived + 1
        && stats.nackedSeqs == old(stats).nackedSeqs + |ParseNack(packet).value|
        && (stats.retransmitMisses - old(stats).retransmitMisses) + (stats.sendErrors - old(stats).sendErrors)
           == |ParseNack(packet).value| - |replies|
        && stats.reverseMalformed == old(stats).reverseMalformed && stats.plisReceived == old(stats).plisReceived
    {
      hide Replies, Misses, Uncut, Answers, Hit, ParsePacketHeader, ReadEntries, ExpandAll;
      replies, keyFrame := [], false;
      var header := ParsePacketHeader(packet);
      if header.Failure? {
        stats := stats.(reverseMalformed := stats.reverseMalformed + 1);
        return;
      }
      if header.value.kind == PLI {
        if |packet| != PACKET_HEADER_SIZE {
          stats := stats.(reverseMalformed := stats.reverseMalformed + 1);
          return;
        }
        stats := stats.(plisReceived := stats.plisReceived + 1);
        return [], true;
      }
      if header.value.kind != NACK {
        stats := stats.(reverseMalformed := stats.reverseMalformed + 1);
        return;
      }
      var status, nackedSeqs := DecodeNackPacket(packet);
      if !status.Ok? {
        stats := stats.(reverseMalformed := stats.reverseMalformed + 1);
        return;
      }
      stats := stats.(nacksReceived := stats.nacksReceived + 1, nackedSeqs := stats.nackedSeqs + |nackedSeqs|);
      replies := Resend(nackedSeqs);
      EachIsAccounted(streamId, cache.entries, nackedSeqs);
    }

    /** Look every number up and cut its fragment again, marked as a retransmission. */
    method Resend(wanted: seq<u32>) returns (replies: seq<Bytes>)
      requires cache.Valid()
      modifies this`stats, cache`stats
      ensures cache.Valid() && replies == Replies(streamId, cache.entries, wanted)
      ensures stats == old(stats).(retransmitMisses := old(stats).retransmitMisses + Misses(cache.entries, wanted),
                                   sendErrors := old(stats).sendErrors + Uncut(cache.entries, wanted))
    {
      replies := [];
      for n := 0 to |wanted|
        invariant cache.Valid() && replies == Replies(streamId, cache.entries, wanted[..n])
        invariant stats == old(stats).(
          retransmitMisses := old(stats).retransmitMisses + Misses(cache.entries, wanted[..n]),
          sendErrors := old(stats).sendErrors + Uncut(cache.entries, wanted[..n]))
      {
        hide FragmentPacket, RC.Holder, CanFragment;
        OneMoreWanted(streamId, cache.entries, wanted, n);
        var found, a := cache.Find(wanted[n], RC.Answer(Frame([], 0, 0, false), 0, 0));
        if !found {
          stats := stats.(retransmitMisses := stats.retransmitMisses + 1);
          continue;
        }
        var status, packet := PacketizeOneFragment(streamId, wanted[n], a.frame, a.fragIndex, a.fragCount, true, []);
        if !status.Ok? {
          stats := stats.(sendErrors := stats.sendErrors + 1);
          continue;
        }
        replies := replies + [packet];
      }
      assert wanted[..|wanted|] == wanted;
    }
  }

  lemma OneMoreWanted(streamId: u16, es: seq<RC.Entry>, wanted: seq<u32>, n: nat)
    requires n < |wanted|
    ensures Replies(streamId, es, wanted[..n + 1])
         == Replies(streamId, es, wanted[..n]) + if Answers(es, wanted[n]) then [Answer(streamId, es, wanted[n])] else []
    ensures Misses(es, wanted[..n + 1]) == Misses(es, wanted[..n]) + if Hit(es, wanted[n]) then 0 else 1
    ensures Uncut(es, wanted[..n + 1])
         == Uncut(es, wanted[..n]) + if Hit(es, wanted[n]) && !Answers(es, wanted[n]) then 1 else 0
  {
    hide Answers, Answer, Hit;
    assert wanted[..n + 1][..n] == wanted[..n];
  }

  /** The replies are the answers to the wanted numbers that are still cached. */
  lemma {:induction false} RepliesAre(streamId: u16, es: seq<RC.Entry>, wanted: seq<u32>, p: Bytes)
    ensures p in Replies(streamId, es, wanted)
      <==> exists n :: 0 <= n < |wanted| && Answers(es, wanted[n]) && p == Answer(streamId, es, wanted[n])
  {
    hide Answers, Answer;
    if wanted != [] {
      var m := |wanted| - 1;
      RepliesAre(streamId, es, wanted[..m], p);
      if p in Replies(streamId, es, wanted[..m]) {
        var n :| 0 <= n < m && Answers(es, wanted[..m][n]) && p == Answer(streamId, es, wanted[..m][n]);
        assert Answers(es, wanted[n]);
      }
      if n :| 0 <= n < m && Answers(es, wanted[n]) && p == Answer(streamId, es, wanted[n]) {
        assert Answers(es, wanted[..m][n]);
      }
    }
  }

  /** Each wanted number is answered, missed or impossible to cut. */
  lemma {:induction false} EachIsAccounted(streamId: u16, es: seq<RC.Entry>, wanted: seq<u32>)
    ensures |Replies(streamId, es, wanted)| + Misses(es, wanted) + Uncut(es, wanted) == |wanted|
  {
    hide Answer, Hit;
    if wanted != [] { EachIsAccounted(streamId, es, wanted[..|wanted| - 1]); }
  }

  /** What the cache holds can always be cut, so a number is a miss exactly when no held frame was sent with it. */
  lemma {:induction false} MissesAreUnheld(c: RC.Config, r: RR.Run, streamId: u16, wanted: seq<u32>)
    requires RR.Holds(c, r)
    ensures Uncut(r.entries, wanted) == 0 && |Replies(streamId, r.entries, wanted)| + Misses(r.entries, wanted) == |wanted|
  {
    hide RR.Holds, Answer;
    EachIsAccounted(streamId, r.entries, wanted);
    if wanted != [] {
      MissesAreUnheld(c, r, streamId, wanted[..|wanted| - 1]);
      if Hit(r.entries, wanted[|wanted| - 1]) { HitsAreCut(c, r, wanted[|wanted| - 1]); }
      hide Answers, Hit;
    }
  }

  lemma HitsAreCut(c: RC.Config, r: RR.Run, s: u32)
    requires RR.Holds(c, r) && Hit(r.entries, s)
    ensures Answers(r.entries, s)
  {
    hide Wrap, RC.Holder, FragmentCount, Sub;
    RR.HitWasSent(c, r, s);
    assert RR.Sendable(r.sent[RR.First(r) + RC.Holder(r.entries, s)].frame);
  }

  // ----- The answer is the missing fragment -----

  function OnItsWay(streamId: u16, s: RR.Sent): FR.Sent {
    FR.Sent(streamId, s.base, s.frame)
  }

  /** For every number of a frame that is still cached, the answer is the retransmitted copy of the fragment sent
      with this number. */
  lemma CachedIsAnswered(c: RC.Config, r: RR.Run, streamId: u16, k: nat, i: nat)
    requires RR.Holds(c, r) && 1 <= c.maxFrames <= 65536
    requires RR.First(r) <= k < |r.sent| && i < RR.Count(r.sent[k])
    ensures var s, x := OnItsWay(streamId, r.sent[k]), Wrap(r.sent[k].base + i);
      s.Valid() && i < s.Count() && Answers(r.entries, x) && Answer(streamId, r.entries, x) == s.Copy(i, true)
  {
    hide Wrap, RC.Holder, DataImage, FragmentCount;
    RR.HeldFragmentIsFound(c, r, k, i);
    RR.CountIsSmall(r.sent[k]);
    var s := OnItsWay(streamId, r.sent[k]);
    assert RR.Sendable(r.sent[k].frame);
    assert s.Valid() && s.Count() == RR.Count(r.sent[k]);
  }

  /** And nothing else is ever answered: whatever number is asked for, an answer is a copy of a fragment that was
      sent with it. */
  lemma AnswerWasSent(c: RC.Config, r: RR.Run, streamId: u16, x: u32) returns (k: nat, i: nat)
    requires RR.Holds(c, r) && Answers(r.entries, x)
    ensures k < |r.sent| && OnItsWay(streamId, r.sent[k]).Valid() && i < OnItsWay(streamId, r.sent[k]).Count()
    ensures x == Wrap(r.sent[k].base + i) && Answer(streamId, r.entries, x) == OnItsWay(streamId, r.sent[k]).Copy(i, true)
  {
    hide Wrap, RC.Holder, DataImage, FragmentCount, Sub;
    RR.HitWasSent(c, r, x);
    k := RR.First(r) + RC.Holder(r.entries, x);
    i := RC.Found(r.entries[RC.Holder(r.entries, x)], x).fragIndex;
    assert RR.Sendable(r.sent[k].frame);
  }

  // ----- What the answer does at the receiver -----

  /** A number in the gap table is behind the highest one. */
  lemma GapIsBehind(c: NT.Config, es: seq<NR.Event>, x: u32)
    requires NR.WithinHalfATurn(c, es) && c.window <= HALF && x in NR.After(c, es).gaps
    ensures NR.After(c, es).hasBaseline && !SeqNewer(x, NR.After(c, es).highest)
  {
    hide NR.After, NR.ViewAfter, NR.WithinHalfATurn, NR.Unwrap, NR.Remembers, NR.Ledger, NR.Pacing, Wrap, SeqNewer;
    var s, v := NR.After(c, es), NR.ViewAfter(c, es);
    NR.TableIsExact(c, es);
    assert NR.Entry(c, s, v, x);
    NR.UnwrapWraps(v.top, x);
    NewerMeansGreater(NR.Unwrap(v.top, x), v.top);
  }

  /** A copy of a missing fragment, whenever it comes, closes its gap and no other; it counts as recovered if it
      had been asked for. */
  lemma CopyClosesGap(c: NT.Config, es: seq<NR.Event>, s: FR.Sent, i: nat, again: bool)
    requires NR.WithinHalfATurn(c, es) && 0 < c.window <= HALF && s.Valid() && i < s.Count()
    requires Wrap(s.base + i) in NR.After(c, es).gaps
    ensures var x, t, u := Wrap(s.base + i), NR.After(c, es), RP.Noticed(c, NR.After(c, es), s.Copy(i, again));
      && u.gaps == t.gaps - {x} && u.highest == t.highest
      && u.stats.recovered == t.stats.recovered + if t.gaps[x].requests > 0 then 1 else 0
  {
    hide NR.After, NR.WithinHalfATurn, Wrap, SeqNewer, DataImage, Payload, FragmentCount;
    GapIsBehind(c, es, Wrap(s.base + i));
    DataImageRoundTrip(FragmentHeader(s.streamId, Wrap(s.base + i), s.frame), s.Data(i, again), Payload(s.frame, i));
  }

  /** A copy tells the tracker the number, fragment count and key mark it was sent with. */
  lemma CopyIsNoticed(c: NT.Config, t: NT.State, s: FR.Sent, i: nat, again: bool)
    requires 0 < c.window && s.Valid() && i < s.Count()
    ensures RP.Noticed(c, t, s.Copy(i, again)) == NT.Arrived(c, t, Wrap(s.base + i), s.Count(), s.frame.isKey)
  {
    hide NT.Arrived, Wrap, DataImage, Payload, FragmentCount;
    DataImageRoundTrip(FragmentHeader(s.streamId, Wrap(s.base + i), s.frame), s.Data(i, again), Payload(s.frame, i));
  }

  /** So a DATA packet closes its gap before anything is asked for. */
  lemma DataClosesGap(c: NT.Config, es: seq<NR.Event>, recent: seq<Bytes>, cap: nat, s: FR.Sent, i: nat, again: bool)
    requires NR.WithinHalfATurn(c, es) && 0 < c.window <= HALF && s.Valid() && i < s.Count()
    requires Wrap(s.base + i) in NR.After(c, es).gaps
    ensures Wrap(s.base + i) !in RP.TrackerAfter(c, NR.After(c, es), recent, cap, s.Copy(i, again)).gaps
  {
    hide NR.After, NR.WithinHalfATurn, Wrap, RP.Noticed, FR.Sent.Copy, NT.Due;
    FR.CopyAsMember(s, i, i + 1, i, again);
    CopyClosesGap(c, es, s, i, again);
  }

  /** A fragment rebuilt from an FEC packet closes its gap just as well, so it is not asked for any more. */
  lemma RepairClosesGap(c: NT.Config, es: seq<NR.Event>, recent: seq<Bytes>, cap: nat, s: FR.Sent, first: nat, last: nat, j: nat,
                        fecSeq: u32, gi: byte, gc: byte)
    requires NR.WithinHalfATurn(c, es) && 0 < c.window <= HALF && cap > 0
    requires s.Valid() && first + 2 <= last <= s.Count() && FR.Faithful(recent, s, first, last)
    requires first <= j < last && !FR.Has(recent, s, j)
    requires forall l :: first <= l < last && l != j ==> FR.Has(recent, s, l)
    requires Wrap(s.base + j) in NR.After(c, es).gaps
    ensures var t, u := NR.After(c, es), RP.TrackerAfter(c, NR.After(c, es), recent, cap, s.Fec(first, last, fecSeq, gi, gc));
      u.gaps == t.gaps - {Wrap(s.base + j)} && u.highest == t.highest
  {
    hide NR.After, NR.WithinHalfATurn, Wrap, RP.Noticed, FR.Faithful, FR.Has, FD.Decide, FR.Sent.Copy, FR.Sent.Fec;
    var n, i, again := FR.OneMissing(recent, s, first, last, j, fecSeq, gi, gc);
    FR.FecReads(s, first, last, fecSeq, gi, gc);
    CopyClosesGap(c, es, s, j, again);
  }

  /** A gap that has just been asked for and is not given up is remembered as asked for. */
  lemma AskedIsRemembered(c: NT.Config, t: NT.State, x: u32)
    requires NT.Due(c, t, x)
    ensures x in NT.Collected(c, t).gaps <==> !NT.Dropped(c, t, x)
    ensures x in NT.Collected(c, t).gaps ==> NT.Collected(c, t).gaps[x].requests > 0
  {
  }

  /** A copy of a fragment that a frame under collection lacks fills its slot, and delivers the frame if it was
      the last one missing. */
  lemma CopyFillsSlot(st: FA.State, max: nat, scan: u32, s: FR.Sent, got: set<nat>, i: nat, again: bool)
    requires FA.ValidState(st) && s.Valid() && i < s.Count() && i !in got && got <= RA.All(s.Count())
    requires RA.Id(s) in st.table.pending && RA.Collecting(st.table.pending[RA.Id(s)], s, got)
    requires st.table.retired.Some? ==> SeqNewer(RA.Id(s), st.table.retired.value)
    ensures var id, t, u := RA.Id(s), st.table, FA.Offered(st, max, s.Copy(i, again), scan).table;
      && id in u.pending && u.pending == t.pending[id := u.pending[id]] && RA.Row(u.pending[id], s, got + {i})
      && u.retired == t.retired
      && u.ready == t.ready + if |got + {i}| == s.Count() then [RA.Whole(s)] else []
  {
    hide *;
    var id, f, t := RA.Id(s), RA.AsFragment(s, i, again), st.table;
    RA.CopyReads(s, i, again);
    OfferedIsAccepted(st, max, s.Copy(i, again), scan, f);
    RA.SlotFills(t, id, s, got, i, again, false);
    IntoItsRow(t, max, scan, s, got, i, again);
    IdIsWire(s, i, again);
  }

  lemma OfferedIsAccepted(st: FA.State, max: nat, packet: Bytes, scan: u32, f: FA.Fragment)
    requires FA.ValidState(st) && FA.ReadDatagram(packet).Read? && FA.ReadDatagram(packet).fragment == f
    ensures FA.ValidFragment(f) && FA.ValidTable(st.table)
    ensures FA.Offered(st, max, packet, scan).table == FA.Accept(SeqNewer, st.table, max, f.data.frameId, f, scan).table
  {
    hide FA.Accept;
  }

  lemma IntoItsRow(t: FA.Table<u32>, max: nat, scan: u32, s: FR.Sent, got: set<nat>, i: nat, again: bool)
    requires s.Valid() && i < s.Count() && FA.ValidTable(t) && FA.ValidFragment(RA.AsFragment(s, i, again))
    requires RA.Id(s) in t.pending && RA.Collecting(t.pending[RA.Id(s)], s, got)
    requires RA.AsFragment(s, i, again).data.fragIndex < |t.pending[RA.Id(s)].fragments|
    requires t.retired.Some? ==> SeqNewer(RA.Id(s), t.retired.value)
    ensures FA.Accept(SeqNewer, t, max, RA.Id(s), RA.AsFragment(s, i, again), scan)
         == FA.Store(t, RA.Id(s), RA.AsFragment(s, i, again), false)
  {
    hide FA.Store, SeqNewer, Wrap, FragmentCount;
  }

  lemma IdIsWire(s: FR.Sent, i: nat, again: bool)
    requires s.Valid() && i < s.Count()
    ensures RA.AsFragment(s, i, again).data.frameId == RA.Id(s)
    ensures RA.Whole(s) == RA.Named(s, RA.Id(s))
  {
  }

  // ----- There and back -----

  /** The retransmission round trip, for one number of a request list that the sender has read back (`SendNack`
      says it reads back what the receiver's tracker wanted) and still caches. The replies contain the
      retransmitted copy of exactly the fragment sent with this number, and it reads back as that fragment. When it
      comes, however much else has come meanwhile, it closes its gap if that is still open, and fills its slot if
      its frame is under collection and still lacks it. */
  lemma RequestIsMet(rc: RC.Config, b: int, ops: seq<RR.Op>, streamId: u16, kept: seq<u32>, n: nat, k: nat, i: nat,
                     nc: NT.Config, es: seq<NR.Event>, st: FA.State, max: nat, scan: u32, got: set<nat>)
    requires 1 <= rc.maxFrames <= 65536 && n < |kept|
    requires var r := RR.After(rc, b, ops);
      RR.First(r) <= k < |r.sent| && i < RR.Count(r.sent[k]) && kept[n] == Wrap(r.sent[k].base + i)
    requires NR.WithinHalfATurn(nc, es) && 0 < nc.window <= HALF && FA.ValidState(st)
    ensures var r := RR.After(rc, b, ops);
      var s := OnItsWay(streamId, r.sent[k]);
      && s.Valid() && i < s.Count() && s.Copy(i, true) in Replies(streamId, r.entries, kept)
      && FA.ReadDatagram(s.Copy(i, true)) == FA.Read(kept[n], RA.AsFragment(s, i, true))
      && (kept[n] in NR.After(nc, es).gaps ==>
            RP.Noticed(nc, NR.After(nc, es), s.Copy(i, true)).gaps == NR.After(nc, es).gaps - {kept[n]})
      && (Lacks(st.table, s, got, i) ==>
            var u := FA.Offered(st, max, s.Copy(i, true), scan).table;
            && RA.Id(s) in u.pending && RA.Row(u.pending[RA.Id(s)], s, got + {i})
            && u.ready == st.table.ready + if |got + {i}| == s.Count() then [RA.Whole(s)] else [])
  {
    var r := RR.After(rc, b, ops);
    RR.RunHolds(rc, b, ops);
    hide *;
    var s := OnItsWay(streamId, r.sent[k]);
    CachedIsAnswered(rc, r, streamId, k, i);
    RepliesAre(streamId, r.entries, kept, s.Copy(i, true));
    RA.CopyReads(s, i, true);
    BaseOf(streamId, r.sent[k]);
    if kept[n] in NR.After(nc, es).gaps { CopyClosesGap(nc, es, s, i, true); }
    if Lacks(st.table, s, got, i) {
      LacksMeans(st.table, s, got, i);
      CopyFillsSlot(st, max, scan, s, got, i, true);
    }
  }

  /** The table is collecting `s`, is ahead of no watermark with it, and has all of `got` but not `i`. */
  ghost predicate Lacks(t: FA.Table<u32>, s: FR.Sent, got: set<nat>, i: nat) {
    && s.Valid() && i < s.Count() && i !in got && got <= RA.All(s.Count())
    && RA.Id(s) in t.pending && RA.Collecting(t.pending[RA.Id(s)], s, got)
    && (t.retired.Some? ==> SeqNewer(RA.Id(s), t.retired.value))
  }

  lemma LacksMeans(t: FA.Table<u32>, s: FR.Sent, got: set<nat>, i: nat)
    requires Lacks(t, s, got, i)
    ensures s.Valid() && i < s.Count() && i !in got && got <= RA.All(s.Count())
    ensures RA.Id(s) in t.pending && RA.Collecting(t.pending[RA.Id(s)], s, got)
    ensures t.retired.Some? ==> SeqNewer(RA.Id(s), t.retired.value)
  {
    hide SeqNewer, RA.Collecting;
  }

  lemma BaseOf(streamId: u16, s: RR.Sent)
    ensures OnItsWay(streamId, s).base == s.base
  {
  }

  /** In times: a request for a fragment sent so recently is always met. The frame is among the last `maxFrames`
      sent, and nothing was stored or expired at or after its store time plus the retention. */
  lemma RecentRequestIsMet(rc: RC.Config, b: int, ops: seq<RR.Op>, streamId: u16, kept: seq<u32>, n: nat, k: nat, i: nat)
    requires 1 <= rc.maxFrames <= 65536 && n < |kept| && RR.InOrder(ops)
    requires var r := RR.After(rc, b, ops);
      k < |r.sent| && RR.IsRecent(rc, ops, r.sent, k) && i < RR.Count(r.sent[k]) && kept[n] == Wrap(r.sent[k].base + i)
    ensures var r := RR.After(rc, b, ops);
      var s := OnItsWay(streamId, r.sent[k]);
      && s.Valid() && i < s.Count() && s.Copy(i, true) in Replies(streamId, r.entries, kept)
      && FA.ReadDatagram(s.Copy(i, true)) == FA.Read(kept[n], RA.AsFragment(s, i, true))
  {
    hide *;
    var r := RR.After(rc, b, ops);
    RR.RunHolds(rc, b, ops);
    RR.RecentIsHeld(rc, b, ops);
    HeldWhenRecent(rc, ops, r, k);
    CachedIsAnswered(rc, r, streamId, k, i);
    var s := OnItsWay(streamId, r.sent[k]);
    RepliesAre(streamId, r.entries, kept, s.Copy(i, true));
    RA.CopyReads(s, i, true);
    BaseOf(streamId, r.sent[k]);
  }

  lemma HeldWhenRecent(rc: RC.Config, ops: seq<RR.Op>, r: RR.Run, k: nat)
    requires RR.HoldsRecent(rc, ops, r) && k < |r.sent| && RR.IsRecent(rc, ops, r.sent, k)
    ensures RR.First(r) <= k
  {
    hide RR.IsRecent;
  }

  /** And nothing else comes back: every reply is the retransmitted copy of a fragment that was sent with one of
      the wanted numbers. */
  lemma RepliesWereSent(rc: RC.Config, b: int, ops: seq<RR.Op>, streamId: u16, wanted: seq<u32>, p: Bytes)
    returns (n: nat, k: nat, i: nat)
    requires p in Replies(streamId, RR.After(rc, b, ops).entries, wanted)
    ensures var r := RR.After(rc, b, ops);
      && n < |wanted| && k < |r.sent| && OnItsWay(streamId, r.sent[k]).Valid() && i < OnItsWay(streamId, r.sent[k]).Count()
      && wanted[n] == Wrap(r.sent[k].base + i) && p == OnItsWay(streamId, r.sent[k]).Copy(i, true)
  {
    var r := RR.After(rc, b, ops);
    RR.RunHolds(rc, b, ops);
    hide *;
    RepliesAre(streamId, r.entries, wanted, p);
    n :| 0 <= n < |wanted| && Answers(r.entries, wanted[n]) && p == Answer(streamId, r.entries, wanted[n]);
    k, i := AnswerWasSent(rc, r, streamId, wanted[n]);
  }
}
