/**
 Recovering the one DATA packet a group lost (modules/transport/FecDecoder.cpp).

 `Decide` is what `onFecPacket` concludes from the recent DATA packets and an
 arbitrary received buffer; the class below it computes exactly that.
 */
module FecDecoder {
  import opened Basics
  import opened Cyclic
  import opened Packet
  import opened Parity

  datatype Member = Member(header: PacketHeader, data: DataHeader, payload: Bytes, offset: nat)
  datatype Outcome = Malformed | Complete | Unrecoverable | Recovered(packet: Bytes)

  /** `p` as a member of the group of `size` packets that starts at `base`, if it is one. */
  function AsMember(p: Bytes, base: u32, size: u16): (m: Option<Member>)
    ensures m.Some? ==> m.value.offset < size && ValidDataHeader(m.value.data)
  {
    if !IsData(p) then None
    else
      var header := ParsePacketHeader(p).value;
      var offset := Sub(header.seq_, base);
      if offset >= size then None
      else Some(Member(header, ParseDataHeader(p[PACKET_HEADER_SIZE..]).value, p[DATA_PAYLOAD..], offset))
  }

  function Offsets(ms: seq<Member>): (s: set<nat>) {
    set m | m in ms :: m.offset
  }

  /** The first held packet of each group position, in arrival order. */
  function Collect(recent: seq<Bytes>, base: u32, size: u16): (ms: seq<Member>)
    ensures forall m :: m in ms ==> m.offset < size && ValidDataHeader(m.data)
    ensures forall i, j :: 0 <= i < j < |ms| ==> ms[i].offset != ms[j].offset
  {
    if recent == [] then []
    else
      var before := Collect(recent[..|recent| - 1], base, size);
      var one := AsMember(recent[|recent| - 1], base, size);
      if one.None? || one.value.offset in Offsets(before) then before else before + [one.value]
  }

  /** The smallest offset from `k` on that is not in `offs`; `size` if there is none. */
  function FirstMissing(offs: set<nat>, k: nat, size: nat): (r: nat)
    requires k <= size
    ensures k <= r <= size
    ensures r < size ==> r !in offs
    ensures forall i :: k <= i < r ==> i in offs
    decreases size - k
  {
    if k == size || k !in offs then k else FirstMissing(offs, k + 1, size)
  }

  function MemberPayloads(ms: seq<Member>): (ps: seq<Bytes>)
    ensures |ps| == |ms|
  {
    seq(|ms|, i requires 0 <= i < |ms| => ms[i].payload)
  }

  /** What is left of the parity once every present member has been taken out of it. */
  function Residue(fec: FecHeader, fecPayload: Bytes, ms: seq<Member>): (p: Parity)
    ensures |p.bytes| == |fecPayload|
  {
    AbsorbAll(Parity(fec.payloadLenXor, fecPayload), MemberPayloads(ms))
  }

  /** One packet is missing from a group of `fec.groupSize`: rebuild it from the residue. */
  function Rebuild(fec: FecHeader, fecPayload: Bytes, ms: seq<Member>): (o: Outcome)
    requires ms != []
    ensures o.Recovered? || o.Unrecoverable?
  {
    if exists i :: 0 <= i < |ms| && |ms[i].payload| > |fecPayload| then Unrecoverable
    else
      var p := Residue(fec, fecPayload, ms);
      if p.len == 0 || p.len > |fecPayload| then Unrecoverable
      else
        var reference := ms[0];
        var missingSeq := Add(fec.groupBaseSeq, FirstMissing(Offsets(ms), 0, fec.groupSize));
        var fragIndex := Add(reference.data.fragIndex, Sub(missingSeq, reference.header.seq_));
        if fragIndex >= reference.data.fragCount then Unrecoverable
        else Recovered(DataImage(
          PacketHeader(PROTOCOL_VERSION, DATA, reference.header.streamId, missingSeq, reference.header.timestampMs),
          reference.data.(fragIndex := fragIndex),
          p.bytes[..p.len]))
  }

  function Decide(recent: seq<Bytes>, packet: Bytes): Outcome {
    var header := ParsePacketHeader(packet);
    if header.Failure? || header.value.kind != FEC then Malformed
    else
      var fec := ParseFecHeader(packet[PACKET_HEADER_SIZE..]);
      if fec.Failure? then Malformed
      else
        var ms := Collect(recent, fec.value.groupBaseSeq, fec.value.groupSize);
        if |ms| == fec.value.groupSize then Complete
        else if |ms| <= fec.value.groupSize - 2 then Unrecoverable
        else Rebuild(fec.value, packet[FEC_PAYLOAD..], ms)
  }

  /** The last `cap` elements. */
  function Last(s: seq<Bytes>, cap: nat): seq<Bytes> {
    if |s| <= cap then s else s[|s| - cap..]
  }

  function Remember(recent: seq<Bytes>, cap: nat, packet: Bytes): seq<Bytes> {
    if cap == 0 || |packet| <= DATA_PAYLOAD then recent else Last(recent + [packet], cap)
  }

  lemma RememberIs(recent: seq<Bytes>, cap: nat, packet: Bytes)
    requires |recent| <= cap
    ensures cap == 0 || |packet| <= DATA_PAYLOAD ==> Remember(recent, cap, packet) == recent
    ensures cap > 0 && |packet| > DATA_PAYLOAD ==>
              Remember(recent, cap, packet) == (if |recent| < cap then recent else recent[1..]) + [packet]
  {
  }

  datatype Stats = Stats(received: nat, malformed: nat, complete: nat, recovered: nat,
                         unrecoverable: nat, packetsRecovered: nat, recentPackets: nat)

  /** How one FEC packet moves the counters. */
  function Count(s: Stats, o: Outcome): Stats {
    match o
    case Malformed => s.(malformed := s.malformed + 1)
    case Complete => s.(received := s.received + 1, complete := s.complete + 1)
    case Unrecoverable => s.(received := s.received + 1, unrecoverable := s.unrecoverable + 1)
    case Recovered(_) => s.(received := s.received + 1, recovered := s.recovered + 1,
                            packetsRecovered := s.packetsRecovered + 1)
  }

  class FecDecoder {
    const config: nat  // recentPackets; 0 switches the decoder off
    var recent: seq<Bytes>
    var stats: Stats

    /** The ledger: every FEC packet that could be read ended in exactly one of three ways. */
    ghost predicate Valid()
      reads this
    {
      && |recent| <= config
      && stats.recentPackets == |recent|
      && (forall i :: 0 <= i < |recent| ==> |recent[i]| > DATA_PAYLOAD)
      && stats.received == stats.complete + stats.recovered + stats.unrecoverable
      && stats.packetsRecovered == stats.recovered
    }

    constructor (recentPackets: nat)
      ensures Valid() && config == recentPackets && recent == []
    {
      config := recentPackets;
      recent := [];
      stats := Stats(0, 0, 0, 0, 0, 0, 0);
    }

    method OnDataPacket(packet: Bytes)
      requires Valid()
      modifies this
      ensures Valid() && recent == Remember(old(recent), config, packet)
      ensures config == 0 || |packet| <= DATA_PAYLOAD ==> recent == old(recent)
      ensures config > 0 && |packet| > DATA_PAYLOAD ==>
        recent == (if |old(recent)| < config then old(recent) else old(recent)[1..]) + [packet]
      ensures stats == old(stats).(recentPackets := |recent|)
    {
      hide Remember;
      RememberIs(recent, config, packet);
      if config == 0 || |packet| <= DATA_PAYLOAD { return; }
      recent := recent + [packet];
      ghost var all := recent;
      while |recent| > config
        invariant recent == all || (recent == all[1..] && |recent| == config)
        invariant stats == old(stats)
      {
        recent := recent[1..];
      }
      stats := stats.(recentPackets := |recent|);
    }

    method OnFecPacket(packet: Bytes, before: Bytes) returns (ok: bool, out: Bytes)
      requires Valid()
      modifies this
      ensures Valid() && recent == old(recent)
      ensures config == 0 ==> !ok && stats == old(stats)
      ensures config > 0 ==> ok == Decide(recent, packet).Recovered?
      ensures config > 0 ==> stats == Count(old(stats), Decide(recent, packet))
      ensures config > 0 ==> var o := Decide(recent, packet);
        && stats.malformed == old(stats).malformed + (if o == Malformed then 1 else 0)
        && stats.complete == old(stats).complete + (if o == Complete then 1 else 0)
        && stats.unrecoverable == old(stats).unrecoverable + (if o == Unrecoverable then 1 else 0)
        && stats.recovered == old(stats).recovered + (if ok then 1 else 0)
      ensures out == if ok then Decide(recent, packet).packet else before
    {
      hide Collect, Rebuild, ParseFecHeader, ParsePacketHeader;
      ok, out := false, before;
      if config == 0 { return; }
      var header := ParsePacketHeader(packet);
      if header.Failure? || header.value.kind != FEC {
        stats := stats.(malformed := stats.malformed + 1);
        return;
      }
      var fec := ParseFecHeader(packet[PACKET_HEADER_SIZE..]);
      if fec.Failure? {
        stats := stats.(malformed := stats.malformed + 1);
        return;
      }
      stats := stats.(received := stats.received + 1);
      var members := CollectMembers(recent, fec.value.groupBaseSeq, fec.value.groupSize);
      if |members| == fec.value.groupSize {
        stats := stats.(complete := stats.complete + 1);
        return;
      }
      if |members| <= fec.value.groupSize - 2 {
        stats := stats.(unrecoverable := stats.unrecoverable + 1);
        return;
      }
      ok, out := RebuildPacket(fec.value, packet[FEC_PAYLOAD..], members, before);
      if ok {
        stats := stats.(recovered := stats.recovered + 1, packetsRecovered := stats.packetsRecovered + 1);
      } else {
        stats := stats.(unrecoverable := stats.unrecoverable + 1);
      }
    }

    method Reset()
      requires Valid()
      modifies this
      ensures Valid() && recent == [] && stats == old(stats).(recentPackets := 0)
    {
      recent := [];
      stats := stats.(recentPackets := 0);
    }
  }

  /** The member-matching loop. */
  method CollectMembers(recent: seq<Bytes>, base: u32, size: u16) returns (members: seq<Member>)
    ensures members == Collect(recent, base, size)
  {
    members := [];
    for i := 0 to |recent|
      invariant members == Collect(recent[..i], base, size)
    {
      assert recent[..i + 1][..i] == recent[..i];
      var p := recent[i];
      var header := ParsePacketHeader(p);
      if header.Failure? || header.value.kind != DATA { continue; }
      var groupOffset := Sub(header.value.seq_, base);
      if groupOffset >= size { continue; }
      if exists k :: 0 <= k < |members| && members[k].offset == groupOffset { continue; }
      var data := ParseDataHeader(p[PACKET_HEADER_SIZE..]);
      if data.Failure? { continue; }
      members := members + [Member(header.value, data.value, p[DATA_PAYLOAD..], groupOffset)];
    }
    assert recent[..|recent|] == recent;
  }

  /** Find the hole, take the members out of the parity, rebuild headers and payload. */
  method RebuildPacket(fec: FecHeader, fecPayload: Bytes, members: seq<Member>, before: Bytes)
    returns (ok: bool, out: Bytes)
    requires members != []
    requires forall m :: m in members ==> m.offset < fec.groupSize && ValidDataHeader(m.data)
    ensures ok == Rebuild(fec, fecPayload, members).Recovered?
    ensures out == if ok then Rebuild(fec, fecPayload, members).packet else before
  {
    ok, out := false, before;
    var missingOffset := 0;
    while missingOffset < fec.groupSize
      invariant missingOffset <= fec.groupSize
      invariant FirstMissing(Offsets(members), 0, fec.groupSize) == FirstMissing(Offsets(members), missingOffset, fec.groupSize)
    {
      if !exists k :: 0 <= k < |members| && members[k].offset == missingOffset { break; }
      missingOffset := missingOffset + 1;
    }
    var missingSeq := Add(fec.groupBaseSeq, missingOffset);
    var fits, payloadLen, payload := TakeOut(fec, fecPayload, members);
    if !fits { return; }
    if payloadLen == 0 || payloadLen > |payload| { return; }
    var reference := members[0];
    var fragIndex := Add(reference.data.fragIndex, Sub(missingSeq, reference.header.seq_));
    if fragIndex >= reference.data.fragCount { return; }
    var header := PacketHeader(PROTOCOL_VERSION, DATA, reference.header.streamId, missingSeq, reference.header.timestampMs);
    var data := DataHeader(reference.data.frameId, fragIndex, reference.data.fragCount, reference.data.flags);
    var st: Status;
    st, out := WriteData(header, data, payload[..payloadLen]);
    ok := true;
  }

  /** The XOR loop of the decoder; it stops at a member longer than the parity. */
  method TakeOut(fec: FecHeader, fecPayload: Bytes, members: seq<Member>)
    returns (fits: bool, payloadLen: u16, payload: Bytes)
    ensures fits == !exists i :: 0 <= i < |members| && |members[i].payload| > |fecPayload|
    ensures fits ==> Parity(payloadLen, payload) == Residue(fec, fecPayload, members)
  {
    hide XorLen, XorByte;
    ghost var ps := MemberPayloads(members);
    ghost var start := Parity(fec.payloadLenXor, fecPayload);
    var buf := new byte[|fecPayload|](i requires 0 <= i < |fecPayload| => fecPayload[i]);
    payloadLen := fec.payloadLenXor;
    assert buf[..] == fecPayload;
    for i := 0 to |members|
      invariant forall k :: 0 <= k < i ==> |members[k].payload| <= |fecPayload|
      invariant Parity(payloadLen, buf[..]) == AbsorbAll(start, ps[..i])
    {
      assert ps[..i + 1][..i] == ps[..i];
      if |members[i].payload| > buf.Length { return false, payloadLen, []; }
      payloadLen := XorLen(payloadLen, |members[i].payload| % 65536);
      XorInto(buf, members[i].payload);
    }
    assert ps[..|ps|] == ps;
    return true, payloadLen, buf[..];
  }
}
