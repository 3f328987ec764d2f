/**
 What the assembler's counters count, read off the table before and after a datagram,
 and which fragment a frame takes its time stamp and key mark from.
 */
module AssemblerCounters {
  import opened Basics
  import opened Cyclic
  import opened Packet
  import opened FrameAssembler

  /** At or behind the watermark. */
  predicate IsBehind(t: Table<u32>, id: u32) {
    t.retired.Some? && !SeqNewer(id, t.retired.value)
  }

  /** The fragment count differs from that of the frame's earlier fragments. */
  predicate IsContradiction(t: Table<u32>, f: Fragment) {
    f.data.frameId in t.pending && !t.pending[f.data.frameId].completed
    && t.pending[f.data.frameId].fragCount != f.data.fragCount
  }

  lemma VerdictIs(t: Table<u32>, max: nat, f: Fragment, victim: u32)
    requires ValidTable(t) && ValidFragment(f) && max >= 1
    ensures var id, step := f.data.frameId, Accept(SeqNewer, t, max, f.data.frameId, f, victim);
      var u := step.table;
      var late := IsBehind(t, id) || id !in u.pending;
      && (step.verdict == TooLate <==> late)
      && (step.verdict == Contradicts <==> !late && IsContradiction(t, f))
      && (step.verdict == Completed <==> u.ready != t.ready)
      && (u.ready != t.ready ==> |u.ready| == |t.ready| + 1)
      && (late || IsContradiction(t, f) ==> u == t)
      && (step.verdict == OfDelivered || step.verdict == Repeated <==> !late && !IsContradiction(t, f) && u == t)
  {
    hide SeqNewer, Join;
  }

  lemma PartialGoes(t: Table<u32>, max: nat, f: Fragment, victim: u32)
    requires ValidTable(t) && ValidFragment(f) && max >= 1
    ensures var step := Accept(SeqNewer, t, max, f.data.frameId, f, victim);
      step.evictedPartial <==> exists k :: k in t.pending && k !in step.table.pending && !t.pending[k].completed
  {
    hide SeqNewer, Join, Fill;
  }

  /** One accepted datagram is counted as received, and as one of too late, malformed, duplicate or stored; frames
      that come out are completed, partial ones that go are dropped. */
  lemma AcceptCounts(t: Table<u32>, max: nat, f: Fragment, victim: u32)
    requires ValidTable(t) && ValidFragment(f) && max >= 1
    ensures var id, step := f.data.frameId, Accept(SeqNewer, t, max, f.data.frameId, f, victim);
      var u := step.table;
      var late := IsBehind(t, id) || id !in u.pending;
      && (step.verdict == TooLate <==> late)
      && (step.verdict == Contradicts <==> !late && IsContradiction(t, f))
      && (step.verdict == Completed <==> u.ready != t.ready)
      && (u.ready != t.ready ==> |u.ready| == |t.ready| + 1)
      && (late || IsContradiction(t, f) ==> u == t)
      && (step.verdict == OfDelivered || step.verdict == Repeated <==> !late && !IsContradiction(t, f) && u == t)
      && (step.evictedPartial <==> exists k :: k in t.pending && k !in u.pending && !t.pending[k].completed)
  {
    hide *;
    VerdictIs(t, max, f, victim);
    PartialGoes(t, max, f, victim);
  }

  function One(b: bool): nat {
    if b then 1 else 0
  }

  /** The same for the counters of a datagram offered; one that cannot be read as DATA is malformed, unless its
      header is fine and says it is something else, and moves nothing but that counter. */
  lemma OfferCounts(s: State, max: nat, packet: Bytes, victim: u32)
    requires ValidState(s) && max >= 1
    ensures var r, n, k := ReadDatagram(packet), s.stats, Offered(s, max, packet, victim).stats;
      match r
      case Rejected(_, malformed) =>
        Offered(s, max, packet, victim).table == s.table && k == n.(malformed := n.malformed + One(malformed))
      case Read(_, f) =>
        var t, u, id := s.table, Offered(s, max, packet, victim).table, f.data.frameId;
        var late := IsBehind(t, id) || id !in u.pending;
        && k.received == n.received + 1
        && k.tooLate == n.tooLate + One(late)
        && k.malformed == n.malformed + One(!late && IsContradiction(t, f))
        && k.duplicate == n.duplicate + One(!late && !IsContradiction(t, f) && u == t)
        && k.framesCompleted == n.framesCompleted + |u.ready| - |t.ready|
        && k.framesDropped == n.framesDropped + One(exists j :: j in t.pending && j !in u.pending && !t.pending[j].completed)
        && (OfferStatus(s, max, packet, victim) == if !late && IsContradiction(t, f) then Error(NetError) else Ok)
  {
    hide Accept, ReadDatagram, IsBehind, IsContradiction;
    match ReadDatagram(packet)
    case Rejected(_, _) =>
    case Read(_, f) => AcceptCounts(s.table, max, f, victim);
  }

  /** What can be read: longer than its two headers, no longer than a full packet, and a DATA packet with both
      headers well formed. */
  lemma ReadableIs(packet: Bytes)
    ensures ReadDatagram(packet).Read? <==>
      DATA_PAYLOAD < |packet| <= MAX_DATA_PACKET_SIZE && IsData(packet)
    ensures ReadDatagram(packet).Read? ==>
      && ReadDatagram(packet).seq_ == ParsePacketHeader(packet).value.seq_
      && ReadDatagram(packet).fragment == Fragment(ParseDataHeader(packet[PACKET_HEADER_SIZE..]).value,
                                                   ParsePacketHeader(packet).value.timestampMs, packet[DATA_PAYLOAD..])
    ensures ReadDatagram(packet).Rejected? && !ReadDatagram(packet).malformed <==>
      DATA_PAYLOAD < |packet| <= MAX_DATA_PACKET_SIZE && ParsePacketHeader(packet).Success?
      && ParsePacketHeader(packet).value.kind != DATA
  {
    hide ParsePacketHeader, ParseDataHeader;
  }

  /** The time stamp and key mark of a frame are those of the first of its fragments that was stored. */
  lemma FirstFragmentDecides(t: Table<u32>, max: nat, f: Fragment, victim: u32)
    requires ValidTable(t) && ValidFragment(f) && max >= 1
    ensures var id, u := f.data.frameId, Accept(SeqNewer, t, max, f.data.frameId, f, victim).table;
      && (id in u.pending && id in t.pending && t.pending[id].received > 0 ==>
            u.pending[id].timestampMs == t.pending[id].timestampMs && u.pending[id].isKey == t.pending[id].isKey)
      && (u != t && (id in t.pending ==> t.pending[id].received == 0) ==>
            id in u.pending && u.pending[id].timestampMs == f.timestampMs && u.pending[id].isKey == (f.data.flags % 2 == 1))
      && (u.ready != t.ready ==>
            id in u.pending
            && var whole := u.ready[|t.ready|];
               whole.frameId == id && whole.timestampMs == u.pending[id].timestampMs && whole.isKey == u.pending[id].isKey)
  {
    hide SeqNewer, Join;
  }
}
