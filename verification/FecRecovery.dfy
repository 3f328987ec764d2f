/**
 What the FEC pair achieves together: the decoder rebuilds exactly what the
 packetizer sent, whatever else it is holding.
 */
module FecRecovery {
  import opened Basics
  import opened Cyclic
  import opened Packet
  import opened Parity
  import opened Packetizer
  import opened FecEncoder
  import opened FecDecoder

  // ----- What `Collect` gathers -----

  lemma {:induction false} CollectFinds(recent: seq<Bytes>, base: u32, size: u16, i: nat)
    requires i < |recent| && AsMember(recent[i], base, size).Some?
    ensures AsMember(recent[i], base, size).value.offset in Offsets(Collect(recent, base, size))
    decreases |recent|
  {
    var front := recent[..|recent| - 1];
    if i < |front| {
      assert front[i] == recent[i];
      CollectFinds(front, base, size, i);
    }
  }

  lemma {:induction false} CollectOnlyHeld(recent: seq<Bytes>, base: u32, size: u16, m: Member)
    requires m in Collect(recent, base, size)
    ensures exists p :: p in recent && AsMember(p, base, size) == Some(m)
    decreases |recent|
  {
    var front := recent[..|recent| - 1];
    if m in Collect(front, base, size) {
      CollectOnlyHeld(front, base, size, m);
      var p :| p in front && AsMember(p, base, size) == Some(m);
      assert p in recent;
    } else {
      assert recent[|recent| - 1] in recent;
    }
  }

  /** Element `n` is the first in the buffer that is a member of the group: the decoder copies its headers. */
  predicate IsReference(recent: seq<Bytes>, base: u32, size: u16, n: nat) {
    && n < |recent| && AsMember(recent[n], base, size).Some?
    && forall m :: 0 <= m < n ==> AsMember(recent[m], base, size).None?
  }

  lemma {:induction false} ReferenceIsCollectedFirst(recent: seq<Bytes>, base: u32, size: u16) returns (n: nat)
    requires Collect(recent, base, size) != []
    ensures IsReference(recent, base, size, n)
    ensures Collect(recent, base, size)[0] == AsMember(recent[n], base, size).value
    decreases |recent|
  {
    hide AsMember;
    var front := recent[..|recent| - 1];
    if Collect(front, base, size) == [] {
      n := |front|;
      forall m | 0 <= m < n
        ensures AsMember(recent[m], base, size).None?
      {
        assert front[m] == recent[m];
        if AsMember(front[m], base, size).Some? { CollectFinds(front, base, size, m); }
      }
    } else {
      n := ReferenceIsCollectedFirst(front, base, size);
      assert forall m :: 0 <= m <= n ==> front[m] == recent[m];
    }
  }

  lemma {:induction false} OffsetsCount(ms: seq<Member>)
    requires forall i, j :: 0 <= i < j < |ms| ==> ms[i].offset != ms[j].offset
    ensures |Offsets(ms)| == |ms|
    decreases |ms|
  {
    if ms != [] {
      var front, last := ms[..|ms| - 1], ms[|ms| - 1];
      OffsetsCount(front);
      assert Offsets(ms) == Offsets(front) + {last.offset};
      assert last.offset !in Offsets(front);
    }
  }

  function Upto(n: nat): (s: set<nat>)
    ensures |s| == n
    ensures forall i :: i in s <==> 0 <= i < n
  {
    if n == 0 then {} else Upto(n - 1) + {n - 1}
  }

  lemma NoMoreThanSize(ms: seq<Member>, size: nat)
    requires forall i, j :: 0 <= i < j < |ms| ==> ms[i].offset != ms[j].offset
    requires forall m :: m in ms ==> m.offset < size
    ensures |ms| <= size
  {
    OffsetsCount(ms);
    SubsetSmaller(Offsets(ms), Upto(size));
  }

  /** Distinct positions below `size`, one short: `FirstMissing` is the only hole. */
  lemma OnlyHole(ms: seq<Member>, size: nat)
    requires forall i, j :: 0 <= i < j < |ms| ==> ms[i].offset != ms[j].offset
    requires forall m :: m in ms ==> m.offset < size
    requires |ms| + 1 == size
    ensures FirstMissing(Offsets(ms), 0, size) < size
    ensures forall i :: 0 <= i < size && i != FirstMissing(Offsets(ms), 0, size) ==> i in Offsets(ms)
  {
    OffsetsCount(ms);
    var offs, all, r := Offsets(ms), Upto(size), FirstMissing(Offsets(ms), 0, size);
    assert offs <= all;
    if r == size {
      SubsetSmaller(all, offs);
    }
    forall i | 0 <= i < size && i != r
      ensures i in offs
    {
      if i !in offs {
        assert offs + {r, i} <= all;
        SubsetSmaller(offs + {r, i}, all);
      }
    }
  }

  // ----- FEC on arbitrary bytes -----

  /** Whatever the decoder holds and whatever bytes arrive, a returned packet is a well-formed DATA
      packet for a position inside the announced group that no readable held packet occupies. */
  lemma RecoveredIsSane(recent: seq<Bytes>, packet: Bytes)
    requires Decide(recent, packet).Recovered?
    ensures var out := Decide(recent, packet).packet;
      var fec := ParseFecHeader(packet[PACKET_HEADER_SIZE..]).value;
      && IsData(out)
      && ValidDataHeader(ParseDataHeader(out[PACKET_HEADER_SIZE..]).value)
      && DATA_PAYLOAD < |out| <= DATA_PAYLOAD + (|packet| - FEC_PAYLOAD)
      && Sub(ParsePacketHeader(out).value.seq_, fec.groupBaseSeq) < fec.groupSize
      && forall p :: p in recent && IsData(p) ==>
           ParsePacketHeader(p).value.seq_ != ParsePacketHeader(out).value.seq_
  {
    hide AsMember, Rebuild, FirstMissing, Offsets, Add, Sub, ParsePacketHeader, ParseDataHeader;
    var fec := ParseFecHeader(packet[PACKET_HEADER_SIZE..]).value;
    var ms := Collect(recent, fec.groupBaseSeq, fec.groupSize);
    hide Collect, ParseFecHeader;
    NoMoreThanSize(ms, fec.groupSize);
    OnlyHole(ms, fec.groupSize);
    RebuiltShape(fec, packet[FEC_PAYLOAD..], ms);
    var hole := FirstMissing(Offsets(ms), 0, fec.groupSize);
    SubAfterAdd(fec.groupBaseSeq, hole);
    forall p | p in recent && IsData(p)
      ensures ParsePacketHeader(p).value.seq_ != Add(fec.groupBaseSeq, hole)
    {
      HeldElsewhere(recent, fec.groupBaseSeq, fec.groupSize, hole, p);
    }
  }

  /** What is returned was missing alone, and nothing held of the group is longer than the FEC payload. */
  lemma RecoveredWasAlone(recent: seq<Bytes>, packet: Bytes)
    requires Decide(recent, packet).Recovered?
    ensures var fec := ParseFecHeader(packet[PACKET_HEADER_SIZE..]).value;
      var ms := Collect(recent, fec.groupBaseSeq, fec.groupSize);
      && |ms| == fec.groupSize - 1
      && forall m :: m in ms ==> |m.payload| <= |packet| - FEC_PAYLOAD
  {
    hide Residue, FirstMissing, Offsets, ParsePacketHeader, ParseFecHeader;
    var fec := ParseFecHeader(packet[PACKET_HEADER_SIZE..]).value;
    var ms := Collect(recent, fec.groupBaseSeq, fec.groupSize);
    hide Collect;
    NoMoreThanSize(ms, fec.groupSize);
    forall m | m in ms
      ensures |m.payload| <= |packet| - FEC_PAYLOAD
    {
      var i :| 0 <= i < |ms| && ms[i] == m;
      assert !(|ms[i].payload| > |packet[FEC_PAYLOAD..]|);
    }
  }

  lemma HeldElsewhere(recent: seq<Bytes>, base: u32, size: u16, hole: nat, p: Bytes)
    requires hole < size && hole !in Offsets(Collect(recent, base, size))
    requires p in recent && IsData(p)
    ensures ParsePacketHeader(p).value.seq_ != Add(base, hole)
  {
    hide Collect, Offsets, ParsePacketHeader, ParseDataHeader;
    SubAfterAdd(base, hole);
    var i :| 0 <= i < |recent| && recent[i] == p;
    if AsMember(p, base, size).Some? { CollectFinds(recent, base, size, i); }
  }

  lemma SubAfterAdd(base: u32, n: nat)
    requires n < MOD
    ensures Sub(Add(base, n), base) == n
  {
    ShiftModulo(n, (base + n) / MOD);
  }

  lemma RebuiltShape(fec: FecHeader, fecPayload: Bytes, ms: seq<Member>)
    requires ms != [] && Rebuild(fec, fecPayload, ms).Recovered?
    requires forall m :: m in ms ==> ValidDataHeader(m.data)
    ensures var out := Rebuild(fec, fecPayload, ms).packet;
      && IsData(out)
      && ParsePacketHeader(out).value.seq_ == Add(fec.groupBaseSeq, FirstMissing(Offsets(ms), 0, fec.groupSize))
      && ValidDataHeader(ParseDataHeader(out[PACKET_HEADER_SIZE..]).value)
      && DATA_PAYLOAD < |out| <= DATA_PAYLOAD + |fecPayload|
  {
    hide Residue, FirstMissing, Sub;
    var p, reference := Residue(fec, fecPayload, ms), ms[0];
    var missingSeq := Add(fec.groupBaseSeq, FirstMissing(Offsets(ms), 0, fec.groupSize));
    var fragIndex := Add(reference.data.fragIndex, Sub(missingSeq, reference.header.seq_));
    DataImageRoundTrip(
      PacketHeader(PROTOCOL_VERSION, DATA, reference.header.streamId, missingSeq, reference.header.timestampMs),
      reference.data.(fragIndex := fragIndex),
      p.bytes[..p.len]);
  }

  // ----- What was sent -----

  /** One frame on its way: its first fragment carries number `base`, counted without wrapping. */
  datatype Sent = Sent(streamId: u16, base: int, frame: Frame) {
    ghost predicate Valid() {
      frame.data != [] && FragmentCount(|frame.data|) <= 65535
    }

    function Count(): (n: nat) {
      FragmentCount(|frame.data|)
    }

    /** Fragment `i`, as first sent or as retransmitted. */
    function Copy(i: nat, retransmitted: bool): Bytes
      requires Valid() && i < Count()
    {
      FragmentPacket(streamId, Wrap(base + i), frame, i, Count(), retransmitted)
    }

    function Data(i: nat, retransmitted: bool): DataHeader
      requires Valid() && i < Count()
    {
      FragmentData(frame, i, Count(), retransmitted)
    }

    /** The payloads of fragments `first..last`. */
    function Slice(first: nat, last: nat): (ps: seq<Bytes>)
      requires Valid() && first <= last <= Count()
      ensures |ps| == last - first
    {
      seq(last - first, k requires 0 <= k < last - first => Payload(frame, first + k))
    }

    /** The FEC packet of fragments `first..last`. */
    function Fec(first: nat, last: nat, fecSeq: u32, groupIndex: byte, groupCount: byte): Bytes
      requires Valid() && first <= last <= Count()
    {
      FecImage(PacketHeader(PROTOCOL_VERSION, FEC, streamId, fecSeq, Wrap(frame.captureMs)),
               Wrap(base + first), Slice(first, last), groupIndex, groupCount)
    }
  }

  /** A copy of a fragment, put through the decoder's matching, is the member one expects. */
  lemma CopyAsMember(s: Sent, first: nat, last: nat, i: nat, r: bool)
    requires s.Valid() && first <= i < last <= s.Count()
    ensures IsData(s.Copy(i, r))
    ensures ParsePacketHeader(s.Copy(i, r)).value.seq_ == Wrap(s.base + i)
    ensures AsMember(s.Copy(i, r), Wrap(s.base + first), last - first)
         == Some(Member(FragmentHeader(s.streamId, Wrap(s.base + i), s.frame), s.Data(i, r),
                        Payload(s.frame, i), i - first))
  {
    hide DataImage, Payload, Sub;
    DataImageRoundTrip(FragmentHeader(s.streamId, Wrap(s.base + i), s.frame), s.Data(i, r), Payload(s.frame, i));
    SubWrapped(s.base + i, s.base + first);
  }

  /** The held packets that read as members of the group `first..last` are copies of its fragments. */
  ghost predicate Faithful(recent: seq<Bytes>, s: Sent, first: nat, last: nat)
    requires s.Valid() && first <= last <= s.Count()
  {
    forall p :: p in recent && AsMember(p, Wrap(s.base + first), last - first).Some? ==>
      exists i, r: bool :: first <= i < last && p == s.Copy(i, r)
  }

  ghost predicate Has(recent: seq<Bytes>, s: Sent, i: nat)
    requires s.Valid() && i < s.Count()
  {
    exists r: bool :: s.Copy(i, r) in recent
  }

  /** Collected members are exactly the held fragments, each with its own payload and headers. */
  lemma CollectedCopies(recent: seq<Bytes>, s: Sent, first: nat, last: nat, m: Member) returns (r: bool)
    requires s.Valid() && first <= last <= s.Count()
    requires Faithful(recent, s, first, last)
    requires m in Collect(recent, Wrap(s.base + first), last - first)
    ensures s.Copy(first + m.offset, r) in recent
    ensures m == Member(FragmentHeader(s.streamId, Wrap(s.base + first + m.offset), s.frame),
                        s.Data(first + m.offset, r), Payload(s.frame, first + m.offset), m.offset)
  {
    hide AsMember, Collect, s.Copy, FragmentHeader, FragmentData, Payload, Wrap;
    var base, size := Wrap(s.base + first), last - first;
    CollectOnlyHeld(recent, base, size, m);
    var p :| p in recent && AsMember(p, base, size) == Some(m);
    var i, c: bool :| first <= i < last && p == s.Copy(i, c);
    CopyAsMember(s, first, last, i, c);
    r := c;
  }

  lemma HeldOffsets(recent: seq<Bytes>, s: Sent, first: nat, last: nat, i: nat)
    requires s.Valid() && first <= i < last <= s.Count()
    requires Faithful(recent, s, first, last)
    ensures Has(recent, s, i) <==> i - first in Offsets(Collect(recent, Wrap(s.base + first), last - first))
  {
    hide AsMember, Collect, s.Copy, Wrap;
    var base, size := Wrap(s.base + first), last - first;
    if Has(recent, s, i) {
      var r: bool :| s.Copy(i, r) in recent;
      var k :| 0 <= k < |recent| && recent[k] == s.Copy(i, r);
      CopyAsMember(s, first, last, i, r);
      CollectFinds(recent, base, size, k);
    }
    if i - first in Offsets(Collect(recent, base, size)) {
      var m :| m in Collect(recent, base, size) && m.offset == i - first;
      var r := CollectedCopies(recent, s, first, last, m);
    }
  }

  // ----- The residue -----

  /** Taking the members out one after the other, in whatever order, is taking out their set. */
  lemma {:induction false} MembersAsSet(p: Parity, ps: seq<Bytes>, ms: seq<Member>)
    requires forall i, j :: 0 <= i < j < |ms| ==> ms[i].offset != ms[j].offset
    requires forall m :: m in ms ==> m.offset < |ps| && m.payload == ps[m.offset]
    ensures AbsorbAll(p, MemberPayloads(ms)) == AbsorbChosen(p, ps, Offsets(ms), |ps|)
    decreases |ms|
  {
    hide Absorb;
    if ms == [] {
      AbsorbNone(p, ps, |ps|);
      assert Offsets(ms) == {};
    } else {
      var front, last := ms[..|ms| - 1], ms[|ms| - 1];
      MembersAsSet(p, ps, front);
      assert MemberPayloads(ms)[..|ms| - 1] == MemberPayloads(front);
      assert Offsets(ms) == Offsets(front) + {last.offset};
      assert last.offset !in Offsets(front);
      AbsorbOneMore(p, ps, Offsets(front), last.offset, |ps|);
    }
  }

  /** With one member missing, the residue is that member's length and bytes. */
  lemma ResidueIsMissing(ps: seq<Bytes>, fec: FecHeader, ms: seq<Member>, j: nat)
    requires j < |ps| && |ps[j]| < 65536
    requires fec.payloadLenXor == GroupParity(ps).len
    requires forall i, k :: 0 <= i < k < |ms| ==> ms[i].offset != ms[k].offset
    requires forall m :: m in ms ==> m.offset < |ps| && m.payload == ps[m.offset]
    requires forall i :: 0 <= i < |ps| ==> (i in Offsets(ms) <==> i != j)
    ensures var p := Residue(fec, GroupParity(ps).bytes, ms);
      p.len == |ps[j]| && |p.bytes| >= p.len && p.bytes[..p.len] == ps[j]
  {
    hide Absorb;
    var zero := Parity(0, Zeros(MaxLen(ps)));
    MembersAsSet(GroupParity(ps), ps, ms);
    MissingOneRemains(zero, ps, Offsets(ms), j);
    AbsorbIntoZero(MaxLen(ps), ps[j]);
  }

  // ----- Recovery -----

  /** The FEC packet, read back, announces the group and carries its parity. */
  lemma FecReads(s: Sent, first: nat, last: nat, fecSeq: u32, gi: byte, gc: byte)
    requires s.Valid() && first + 2 <= last <= s.Count()
    ensures var packet := s.Fec(first, last, fecSeq, gi, gc);
      var p := GroupParity(s.Slice(first, last));
      && ParsePacketHeader(packet).Success? && ParsePacketHeader(packet).value.kind == FEC
      && ParseFecHeader(packet[PACKET_HEADER_SIZE..])
         == Success(FecHeader(Wrap(s.base + first), last - first, p.len, gi, gc, 0))
      && packet[FEC_PAYLOAD..] == p.bytes
  {
    hide GroupParity, PacketHeaderBytes, FecHeaderBytes;
    var p := GroupParity(s.Slice(first, last));
    var h := PacketHeader(PROTOCOL_VERSION, FEC, s.streamId, fecSeq, Wrap(s.frame.captureMs));
    var f := FecHeader(Wrap(s.base + first), last - first, p.len, gi, gc, 0);
    var packet := s.Fec(first, last, fecSeq, gi, gc);
    assert packet == PacketHeaderBytes(h) + (FecHeaderBytes(f) + p.bytes);
    PacketHeaderRoundTrip(h, FecHeaderBytes(f) + p.bytes);
    FecHeaderRoundTrip(f, p.bytes);
    assert packet[PACKET_HEADER_SIZE..] == FecHeaderBytes(f) + p.bytes;
  }

  /** All fragments held: nothing to do. */
  lemma NothingMissing(recent: seq<Bytes>, s: Sent, first: nat, last: nat, fecSeq: u32, gi: byte, gc: byte)
    requires s.Valid() && first + 2 <= last <= s.Count()
    requires Faithful(recent, s, first, last)
    requires forall i :: first <= i < last ==> Has(recent, s, i)
    ensures Decide(recent, s.Fec(first, last, fecSeq, gi, gc)) == Complete
  {
    hide Collect, Has, Offsets, ParseFecHeader, ParsePacketHeader, Rebuild, Faithful;
    var size := last - first;
    var ms := Collect(recent, Wrap(s.base + first), size);
    FecReads(s, first, last, fecSeq, gi, gc);
    forall k | 0 <= k < size
      ensures k in Offsets(ms)
    {
      HeldOffsets(recent, s, first, last, first + k);
    }
    NoMoreThanSize(ms, size);
    OffsetsCount(ms);
    SubsetSmaller(Upto(size), Offsets(ms));
  }

  /** Two fragments missing: out of reach for XOR. */
  lemma TwoMissing(recent: seq<Bytes>, s: Sent, first: nat, last: nat, j: nat, k: nat, fecSeq: u32, gi: byte, gc: byte)
    requires s.Valid() && first + 2 <= last <= s.Count()
    requires Faithful(recent, s, first, last)
    requires first <= j < last && first <= k < last && j != k && !Has(recent, s, j) && !Has(recent, s, k)
    ensures Decide(recent, s.Fec(first, last, fecSeq, gi, gc)) == Unrecoverable
  {
    hide Collect, Has, Offsets, ParseFecHeader, ParsePacketHeader, Rebuild, Faithful, Wrap, GroupParity, s.Fec, s.Slice, FirstMissing;
    var size := last - first;
    var ms := Collect(recent, Wrap(s.base + first), size);
    FecReads(s, first, last, fecSeq, gi, gc);
    HeldOffsets(recent, s, first, last, j);
    HeldOffsets(recent, s, first, last, k);
    OffsetsCount(ms);
    OffsetsBelow(ms, size);
    TwoShort(Offsets(ms), j - first, k - first, size);
  }

  lemma TwoShort(offs: set<nat>, j: nat, k: nat, size: nat)
    requires j != k && j !in offs && k !in offs && j < size && k < size && forall o :: o in offs ==> o < size
    ensures |offs| <= size - 2
  {
    SubsetSmaller(offs + {j, k}, Upto(size));
  }

  lemma OffsetsBelow(ms: seq<Member>, size: nat)
    requires forall m :: m in ms ==> m.offset < size
    ensures forall k :: k in Offsets(ms) ==> k < size
  {
  }

  /** Exactly one fragment missing: the decoder returns that fragment, byte for byte, carrying the
      retransmission mark of the first member in its buffer. */
  lemma OneMissing(recent: seq<Bytes>, s: Sent, first: nat, last: nat, j: nat, fecSeq: u32, gi: byte, gc: byte)
    returns (n: nat, i: nat, r: bool)
    requires s.Valid() && first + 2 <= last <= s.Count()
    requires Faithful(recent, s, first, last)
    requires first <= j < last && !Has(recent, s, j)
    requires forall l :: first <= l < last && l != j ==> Has(recent, s, l)
    ensures IsReference(recent, Wrap(s.base + first), last - first, n)
    ensures first <= i < last && i != j && recent[n] == s.Copy(i, r)
    ensures Decide(recent, s.Fec(first, last, fecSeq, gi, gc)) == Recovered(s.Copy(j, r))
  {
    hide Has, Faithful, ParseFecHeader, ParsePacketHeader, Rebuild, Collect, Offsets, Payload, FragmentHeader, FragmentData;
    hide Absorb, GroupParity, MaxLen, s.Fec, s.Copy;
    var size, base := last - first, Wrap(s.base + first);
    var ms := Collect(recent, base, size);
    FecReads(s, first, last, fecSeq, gi, gc);
    forall k | 0 <= k < size
      ensures k in Offsets(ms) <==> k != j - first
    {
      HeldOffsets(recent, s, first, last, first + k);
    }
    OneShort(ms, size, j - first);
    n, i, r := ReferenceIsACopy(recent, s, first, last);
    HasIt(recent, s, n, i, r);
    forall m | m in ms
      ensures m.payload == s.Slice(first, last)[m.offset]
    {
      var c := CollectedCopies(recent, s, first, last, m);
    }
    var fec := FecHeader(base, size, GroupParity(s.Slice(first, last)).len, gi, gc, 0);
    RebuildsMissing(s, first, last, j, fec, ms, r);
  }

  lemma HasIt(recent: seq<Bytes>, s: Sent, n: nat, i: nat, r: bool)
    requires s.Valid() && i < s.Count() && n < |recent| && recent[n] == s.Copy(i, r)
    ensures Has(recent, s, i)
  {
    hide s.Copy;
    assert s.Copy(i, r) in recent;
  }

  lemma ReferenceIsACopy(recent: seq<Bytes>, s: Sent, first: nat, last: nat) returns (n: nat, i: nat, r: bool)
    requires s.Valid() && first <= last <= s.Count() && Faithful(recent, s, first, last)
    requires Collect(recent, Wrap(s.base + first), last - first) != []
    ensures IsReference(recent, Wrap(s.base + first), last - first, n)
    ensures first <= i < last && recent[n] == s.Copy(i, r)
    ensures Collect(recent, Wrap(s.base + first), last - first)[0]
         == Member(FragmentHeader(s.streamId, Wrap(s.base + i), s.frame), s.Data(i, r), Payload(s.frame, i), i - first)
  {
    hide Collect, AsMember, s.Copy, Payload, FragmentHeader, FragmentData, Wrap, FragmentCount;
    n := ReferenceIsCollectedFirst(recent, Wrap(s.base + first), last - first);
    assert recent[n] in recent;
    i, r :| first <= i < last && recent[n] == s.Copy(i, r);
    CopyAsMember(s, first, last, i, r);
  }

  lemma OneShort(ms: seq<Member>, size: nat, hole: nat)
    requires forall i, k :: 0 <= i < k < |ms| ==> ms[i].offset != ms[k].offset
    requires forall m :: m in ms ==> m.offset < size
    requires hole < size && forall k :: 0 <= k < size ==> (k in Offsets(ms) <==> k != hole)
    ensures |ms| == size - 1
  {
    OffsetsCount(ms);
    OffsetsBelow(ms, size);
    assert Offsets(ms) == Upto(size) - {hole};
  }

  /** The rebuilding step, once the members are known to be all fragments but `j`. */
  lemma RebuildsMissing(s: Sent, first: nat, last: nat, j: nat, fec: FecHeader, ms: seq<Member>, r: bool)
    requires s.Valid() && first <= j < last <= s.Count() && ms != []
    requires forall i, k :: 0 <= i < k < |ms| ==> ms[i].offset != ms[k].offset
    requires forall m :: m in ms ==> m.offset < last - first && m.payload == s.Slice(first, last)[m.offset]
    requires forall k :: 0 <= k < last - first ==> (k in Offsets(ms) <==> k != j - first)
    requires ms[0].header == FragmentHeader(s.streamId, Wrap(s.base + first + ms[0].offset), s.frame)
    requires ms[0].data == s.Data(first + ms[0].offset, r)
    requires fec.groupBaseSeq == Wrap(s.base + first) && fec.groupSize == last - first
    requires fec.payloadLenXor == GroupParity(s.Slice(first, last)).len
    ensures Rebuild(fec, GroupParity(s.Slice(first, last)).bytes, ms) == Recovered(s.Copy(j, r))
  {
    hide Absorb, GroupParity, Payload, DataImage, FirstMissing, Residue, Add, Sub, Wrap, Offsets, MaxLen;
    var ps := s.Slice(first, last);
    var L := |GroupParity(ps).bytes|;
    assert forall m :: m in ms ==> |m.payload| <= L;
    assert ps[j - first] == Payload(s.frame, j);
    ResidueIsMissing(ps, fec, ms, j - first);
    HoleIs(ms, last - first, j - first);
    AddWrapped(s.base + first, j - first);
    FragIndexBack(s.base, first + ms[0].offset, j);
  }

  lemma HoleIs(ms: seq<Member>, size: nat, hole: nat)
    requires hole < size && forall k :: 0 <= k < size ==> (k in Offsets(ms) <==> k != hole)
    ensures FirstMissing(Offsets(ms), 0, size) == hole
  {
    hide Offsets;
    assert hole !in Offsets(ms);
  }

  /** The fragment index rebuilt by 32-bit subtraction is the missing fragment's own index. */
  lemma FragIndexBack(base: int, i: u16, j: u16)
    ensures Add(i, Sub(Wrap(base + j), Wrap(base + i))) == j
  {
    DifferenceModulo(base + j, base + i);
    var d := (j - i) % MOD;
    assert i + d == j - MOD * ((j - i) / MOD);
    ShiftModulo(j, (j - i) / MOD);
  }

  // ----- When the rebuilt packet is the original -----

  /** The retransmission mark of a DATA packet. */
  predicate Marked(p: Bytes) {
    IsData(p) && ParseDataHeader(p[PACKET_HEADER_SIZE..]).value.flags / FLAG_RETRANSMIT % 2 == 1
  }

  lemma CopyIsMarked(s: Sent, i: nat, r: bool)
    requires s.Valid() && i < s.Count()
    ensures Marked(s.Copy(i, r)) <==> r
  {
    hide DataImage, Payload, Wrap, FragmentCount;
    DataImageRoundTrip(FragmentHeader(s.streamId, Wrap(s.base + i), s.frame), s.Data(i, r), Payload(s.frame, i));
  }

  /** The rebuilt packet is the original if and only if the first packet of the group in the buffer is one. */
  lemma RebuiltIsOriginal(recent: seq<Bytes>, s: Sent, first: nat, last: nat, j: nat, fecSeq: u32, gi: byte, gc: byte, n: nat)
    requires s.Valid() && first + 2 <= last <= s.Count()
    requires Faithful(recent, s, first, last)
    requires first <= j < last && !Has(recent, s, j)
    requires forall l :: first <= l < last && l != j ==> Has(recent, s, l)
    requires IsReference(recent, Wrap(s.base + first), last - first, n)
    ensures Decide(recent, s.Fec(first, last, fecSeq, gi, gc)) == Recovered(s.Copy(j, false)) <==> !Marked(recent[n])
    ensures Decide(recent, s.Fec(first, last, fecSeq, gi, gc)) == Recovered(s.Copy(j, true)) <==> Marked(recent[n])
  {
    hide Decide, Faithful, Has, IsReference, Marked, Sent.Copy, Sent.Fec, FragmentCount;
    var m, i, r := OneMissing(recent, s, first, last, j, fecSeq, gi, gc);
    OneReference(recent, Wrap(s.base + first), last - first, m, n);
    CopyIsMarked(s, i, r);
    CopyIsMarked(s, j, false);
    CopyIsMarked(s, j, true);
  }

  lemma OneReference(recent: seq<Bytes>, base: u32, size: u16, m: nat, n: nat)
    requires IsReference(recent, base, size, m) && IsReference(recent, base, size, n)
    ensures m == n < |recent|
  {
    hide AsMember;
  }

  /** It need not be: of a frame of two fragments the first is held in a retransmitted copy, and the second
      comes back marked as retransmitted, though it never was. */
  lemma RebuiltIsNotAlwaysOriginal()
    ensures var s := Sent(7, 100, Frame(Zeros(1500), 3, 40, true));
      && s.Valid() && s.Count() == 2
      && Decide([s.Copy(0, true)], s.Fec(0, 2, 0, 0, 1)) == Recovered(s.Copy(1, true))
      && s.Copy(1, true) != s.Copy(1, false)
  {
    var s := Sent(7, 100, Frame(Zeros(1500), 3, 40, true));
    assert |s.frame.data| == 1500;
    var recent := [s.Copy(0, true)];
    LoneCopy(s);
    RebuiltIsOriginal(recent, s, 0, 2, 1, 0, 0, 1, 0);
    CopyIsMarked(s, 0, true);
    CopyIsMarked(s, 1, true);
    CopyIsMarked(s, 1, false);
  }

  lemma LoneCopy(s: Sent)
    requires s.Valid() && s.Count() >= 2
    ensures var recent := [s.Copy(0, true)];
      && Faithful(recent, s, 0, 2) && Has(recent, s, 0) && !Has(recent, s, 1) && IsReference(recent, Wrap(s.base), 2, 0)
  {
    hide s.Copy, AsMember, Payload, FragmentCount;
    var recent := [s.Copy(0, true)];
    assert s.Copy(0, true) in recent;
    CopyAsMember(s, 0, 2, 0, true);
    if c: bool :| s.Copy(1, c) in recent {
      OnlyOneCopy(s, 1, c, 0, true);
    }
  }

  lemma OnlyOneCopy(s: Sent, i: nat, q: bool, j: nat, r: bool)
    requires s.Valid() && i < s.Count() && j < s.Count() && s.Copy(i, q) == s.Copy(j, r)
    ensures i == j
  {
    hide DataImage, Payload;
    DataImageRoundTrip(FragmentHeader(s.streamId, Wrap(s.base + i), s.frame), s.Data(i, q), Payload(s.frame, i));
    DataImageRoundTrip(FragmentHeader(s.streamId, Wrap(s.base + j), s.frame), s.Data(j, r), Payload(s.frame, j));
  }
}
