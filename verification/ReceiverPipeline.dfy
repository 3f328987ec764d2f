/**
 The receive loop's handling of one datagram (app/receiver/ReceiverPipeline.cpp:250-296)
 and its retransmission requests (:660-726): DATA packets go to the gap tracker, the FEC
 buffer and the assembler; FEC packets may hand the tracker and the assembler a rebuilt
 DATA packet; what the tracker wants resent is cut to what one NACK packet can carry.
 */
module ReceiverPipeline {
  import opened Cyclic
  import opened Packet
  import FD = FecDecoder
  import opened FrameAssembler
  import NT = NackTracker
  import NackRuns
  import opened NackCodec

  /** What the FEC decoder and the assembler hold. */
  datatype Receiver = Receiver(recent: seq<Bytes>, assembler: State)

  predicate ValidReceiver(r: Receiver) {
    ValidState(r.assembler)
  }

  const IDLE: Receiver := Receiver([], EMPTY)

  /** `cap` is the decoder's `recentPackets`, `max` the assembler's table size; `scan` is what the
      assembler's search for its oldest entry would answer. */
  function Handled(r: Receiver, cap: nat, max: nat, packet: Bytes, scan: u32): Receiver
    requires ValidReceiver(r)
  {
    var header := ParsePacketHeader(packet);
    if header.Failure? then r.(assembler := Offered(r.assembler, max, packet, scan))
    else if header.value.kind == DATA then
      Receiver(if ParseDataHeader(packet[PACKET_HEADER_SIZE..]).Success? then FD.Remember(r.recent, cap, packet) else r.recent,
               Offered(r.assembler, max, packet, scan))
    else if header.value.kind == FEC && cap > 0 then
      match FD.Decide(r.recent, packet)
      case Recovered(p) => r.(assembler := Offered(r.assembler, max, p, scan))
      case _ => r
    else r
  }

  lemma HandledKeepsValid(r: Receiver, cap: nat, max: nat, packet: Bytes, scan: u32)
    requires ValidReceiver(r)
    ensures ValidReceiver(Handled(r, cap, max, packet, scan))
  {
    hide Offered, FD.Decide, FD.Remember, ParsePacketHeader, ParseDataHeader;
    OfferedKeepsValid(r.assembler, max, packet, scan);
    match FD.Decide(r.recent, packet)
    case Recovered(p) => OfferedKeepsValid(r.assembler, max, p, scan);
    case _ =>
  }

  /** What does not come through: a DATA packet that cannot be read, or any datagram without a readable header,
      leaves the buffer and the table alone and is counted as malformed; a datagram of another type, or an FEC packet
      that rebuilds nothing, leaves everything alone. */
  lemma WhatIsPassedOver(r: Receiver, cap: nat, max: nat, packet: Bytes, scan: u32)
    requires ValidReceiver(r)
    ensures var header := ParsePacketHeader(packet); var after := Handled(r, cap, max, packet, scan);
      && ((header.Failure? || header.value.kind == DATA) && !IsData(packet) ==>
            after == r.(assembler := r.assembler.(stats := r.assembler.stats.(malformed := r.assembler.stats.malformed + 1))))
      && (header.Success? && header.value.kind != DATA && (header.value.kind != FEC || cap == 0) ==> after == r)
      && (header.Success? && header.value.kind == FEC && !FD.Decide(r.recent, packet).Recovered? ==> after == r)
      && (!IsData(packet) ==> after.recent == r.recent)
  {
    hide FD.Decide, FD.Remember, ParsePacketHeader, ParseDataHeader, Accept, Tally, TrackSeq;
  }

  // ----- The gap tracker's share -----

  /** The tracker learns of one readable DATA packet. */
  function Noticed(c: NT.Config, s: NT.State, packet: Bytes): NT.State {
    if c.window == 0 || !IsData(packet) then s
    else
      var d := ParseDataHeader(packet[PACKET_HEADER_SIZE..]).value;
      NT.Arrived(c, s, ParsePacketHeader(packet).value.seq_, d.fragCount, d.flags % 2 == 1)
  }

  /** What a datagram does to the tracker. `recent` is what the FEC decoder holds. */
  function TrackerAfter(c: NT.Config, s: NT.State, recent: seq<Bytes>, cap: nat, packet: Bytes): NT.State {
    if IsData(packet) then (if c.window == 0 then s else NT.Collected(c, Noticed(c, s, packet)))
    else if cap > 0 && FD.Decide(recent, packet).Recovered? then Noticed(c, s, FD.Decide(recent, packet).packet)
    else s
  }

  /** What the search for the oldest entry answers, whenever the question has an answer. */
  ghost predicate Scanned(keys: set<u32>, scan: u32) {
    Ordered(keys) ==> scan == SomeOldest(keys)
  }

  /** The stages the receive loop drives. */
  class ReceiveLoop {
    const decoder: FD.FecDecoder
    const assembler: FrameAssembler
    const tracker: NT.NackTracker

    ghost predicate Valid()
      reads this, decoder, assembler, tracker
    {
      decoder.Valid() && assembler.Valid() && tracker.Valid()
    }

    function Abs(): Receiver
      reads this, decoder, assembler
    {
      Receiver(decoder.recent, assembler.Abs())
    }

    constructor (recentPackets: nat, maxPendingFrames: nat, nack: NT.Config)
      ensures Valid() && Abs() == IDLE && tracker.Abs() == NT.START
      ensures fresh(decoder) && fresh(assembler) && fresh(tracker)
    {
      decoder := new FD.FecDecoder(recentPackets);
      assembler := new FrameAssembler(maxPendingFrames);
      tracker := new NT.NackTracker(nack);
    }

    /** One received datagram that the loss injector let through. A change of sender, which only a readable DATA
        packet can show, empties tracker and FEC buffer. */
    method OnDatagram(packet: Bytes, samePeer: bool) returns (targets: seq<u32>, ghost scan: u32)
      requires Valid()
      modifies decoder, assembler, tracker
      ensures Valid() && OldestFirst(targets)
      ensures var was := if IsData(packet) && !samePeer then old(Abs()).(recent := []) else old(Abs());
        ValidReceiver(was) && Abs() == Handled(was, decoder.config, assembler.max, packet, scan)
      ensures Scanned(old(assembler.pending).Keys, scan)
      ensures var was := if IsData(packet) && !samePeer
                         then NT.START.(stats := old(tracker.stats).(pending := 0)) else old(tracker.Abs());
        && tracker.Abs() == TrackerAfter(tracker.config, was, old(decoder.recent), decoder.config, packet)
        && (forall k: u32 :: k in targets <==>
              IsData(packet) && tracker.config.window > 0 && NT.Due(tracker.config, Noticed(tracker.config, was, packet), k))
      ensures tracker.config.window == 0 && (samePeer || !IsData(packet)) ==> tracker.Abs() == old(tracker.Abs())
    {
      hide Ordered, SomeOldest, Offered, FD.Decide, FD.Remember, NT.Arrived, NT.Collected, NT.Due, ParsePacketHeader, ParseDataHeader, OfferStatus;
      targets, scan := [], SomeOldest(assembler.pending.Keys);
      var header := ParsePacketHeader(packet);
      if header.Failure? {
        scan := Assemble(packet);
        NotFec(decoder.recent, packet);
      } else if header.value.kind == DATA {
        NotFec(decoder.recent, packet);
        targets, scan := OnData(packet, samePeer);
      } else if header.value.kind == FEC {
        scan := OnFec(packet);
      } else {
        NotFec(decoder.recent, packet);
      }
    }

    method Assemble(packet: Bytes) returns (ghost scan: u32)
      requires assembler.Valid()
      modifies assembler
      ensures assembler.Valid() && assembler.Abs() == Offered(old(assembler.Abs()), assembler.max, packet, scan)
      ensures Scanned(old(assembler.pending).Keys, scan)
    {
      var _, victim := assembler.Offer(packet);
      scan := victim;
    }

    method OnData(packet: Bytes, samePeer: bool) returns (targets: seq<u32>, ghost scan: u32)
      requires Valid() && ParsePacketHeader(packet).Success? && ParsePacketHeader(packet).value.kind == DATA
      modifies decoder, assembler, tracker
      ensures Valid() && OldestFirst(targets)
      ensures assembler.Abs() == Offered(old(assembler.Abs()), assembler.max, packet, scan)
      ensures Scanned(old(assembler.pending).Keys, scan)
      ensures var was := if IsData(packet) && !samePeer then [] else old(decoder.recent);
        decoder.recent == if IsData(packet) then FD.Remember(was, decoder.config, packet) else was
      ensures var was := if IsData(packet) && !samePeer
                         then NT.START.(stats := old(tracker.stats).(pending := 0)) else old(tracker.Abs());
        && tracker.Abs() == (if IsData(packet) && tracker.config.window > 0
                             then NT.Collected(tracker.config, Noticed(tracker.config, was, packet)) else was)
        && (forall k: u32 :: k in targets <==>
              IsData(packet) && tracker.config.window > 0 && NT.Due(tracker.config, Noticed(tracker.config, was, packet), k))
    {
      hide Offered, FD.Remember, NT.Arrived, NT.Collected, NT.Due, ParsePacketHeader, ParseDataHeader;
      targets := [];
      if ParseDataHeader(packet[PACKET_HEADER_SIZE..]).Success? {
        if !samePeer {
          tracker.Reset();
          decoder.Reset();
        }
        if tracker.config.window > 0 {
          Notice(packet);
          ghost var noticed := tracker.Abs();
          targets := tracker.CollectNackTargets();
          NackRuns.EmittedInOrder(noticed, targets);
        }
        decoder.OnDataPacket(packet);
      }
      scan := Assemble(packet);
    }

    /** `onPacket` with the fields of a readable DATA packet. */
    method Notice(packet: Bytes)
      requires tracker.Valid() && tracker.config.window > 0
      modifies tracker
      ensures tracker.Valid() && tracker.Abs() == Noticed(tracker.config, old(tracker.Abs()), packet)
    {
      hide NT.Arrived, ParsePacketHeader, ParseDataHeader;
      var header := ParsePacketHeader(packet);
      if header.Success? && header.value.kind == DATA {
        var data := ParseDataHeader(packet[PACKET_HEADER_SIZE..]);
        if data.Success? { tracker.OnPacket(header.value.seq_, data.value.fragCount, data.value.flags % 2 == 1); }
      }
    }

    method OnFec(packet: Bytes) returns (ghost scan: u32)
      requires Valid() && ParsePacketHeader(packet).Success? && ParsePacketHeader(packet).value.kind == FEC
      modifies decoder, assembler, tracker
      ensures Valid()
      ensures Abs() == Handled(old(Abs()), decoder.config, assembler.max, packet, scan)
      ensures Scanned(old(assembler.pending).Keys, scan)
      ensures tracker.Abs() == TrackerAfter(tracker.config, old(tracker.Abs()), old(decoder.recent), decoder.config, packet)
    {
      hide Offered, FD.Decide, NT.Arrived, NT.Collected, ParsePacketHeader, ParseDataHeader, Noticed;
      scan := SomeOldest(assembler.pending.Keys);
      var ok, recovered := decoder.OnFecPacket(packet, []);
      if ok {
        if tracker.config.window > 0 { Notice(recovered); } else { NoTracker(tracker.config, tracker.Abs(), recovered); }
        scan := Assemble(recovered);
      }
    }
  }

  lemma NotFec(recent: seq<Bytes>, packet: Bytes)
    requires ParsePacketHeader(packet).Failure? || ParsePacketHeader(packet).value.kind != FEC
    ensures !FD.Decide(recent, packet).Recovered?
  {
  }

  lemma NoTracker(c: NT.Config, s: NT.State, packet: Bytes)
    requires c.window == 0
    ensures Noticed(c, s, packet) == s
  {
  }

  // ----- Cutting the request list to one packet -----

  /** Keep the oldest targets: exactly the longest prefix whose greedy encoding fits one NACK packet. */
  method Truncate(nackTargets: seq<u32>) returns (kept: seq<u32>)
    ensures kept <= nackTargets
    ensures forall k :: 0 <= k <= |nackTargets| ==> (|Greedy(nackTargets[..k])| <= MAX_NACK_ENTRIES <==> k <= |kept|)
  {
    hide Greedy, FirstEntry, Cut;
    var sendCount, entryCount: nat := 0, 0;
    while sendCount < |nackTargets| && entryCount < MAX_NACK_ENTRIES
      invariant sendCount <= |nackTargets| && entryCount <= MAX_NACK_ENTRIES
      invariant sendCount + Cut(nackTargets[sendCount..], MAX_NACK_ENTRIES - entryCount) == Cut(nackTargets, MAX_NACK_ENTRIES)
    {
      ghost var start := sendCount;
      CutStep(nackTargets[start..], MAX_NACK_ENTRIES - entryCount);
      sendCount := EntryEnd(nackTargets, sendCount);
      assert nackTargets[start..][sendCount - start..] == nackTargets[sendCount..];
      entryCount := entryCount + 1;
    }
    kept := nackTargets[..sendCount];
    CutStops(nackTargets[sendCount..], MAX_NACK_ENTRIES - entryCount);
    forall k | 0 <= k <= |nackTargets|
      ensures |Greedy(nackTargets[..k])| <= MAX_NACK_ENTRIES <==> k <= |kept|
    {
      CutIsLongest(nackTargets, MAX_NACK_ENTRIES, k);
    }
  }

  lemma CutStep(m: seq<u32>, c: nat)
    requires m != [] && c > 0
    ensures 0 < RunEnd(m) <= |m| && Cut(m, c) == RunEnd(m) + Cut(m[RunEnd(m)..], c - 1)
  {
    hide RunEnd;
  }

  lemma CutStops(m: seq<u32>, c: nat)
    requires m == [] || c == 0
    ensures Cut(m, c) == 0
  {
  }

  /** Where the next greedy entry ends: every target less than 17 after its first. */
  method EntryEnd(nackTargets: seq<u32>, start: nat) returns (next: nat)
    requires start < |nackTargets|
    ensures start < next <= |nackTargets| && next == start + RunEnd(nackTargets[start..])
  {
    hide Sub;
    var pid := nackTargets[start];
    next := start + 1;
    assert nackTargets[start..][1..] == nackTargets[next..];
    while next < |nackTargets| && Sub(nackTargets[next], pid) < 17
      invariant start < next <= |nackTargets|
      invariant RunEnd(nackTargets[start..]) == next - start + Run(pid, nackTargets[next..])
    {
      assert nackTargets[next..][1..] == nackTargets[next + 1..];
      next := next + 1;
    }
  }

  /** What is sent never overflows a NACK packet, and the sender reads back exactly the kept targets. */
  method SendNack(nackTargets: seq<u32>, nackSeq: u32, timestampMs: u32, nackBuf: array<byte>)
    returns (st: Status, kept: seq<u32>, nackLen: nat)
    requires nackBuf.Length >= MAX_DATA_PACKET_SIZE && nackTargets != [] && OldestFirst(nackTargets)
    modifies nackBuf
    ensures st.Ok? && nackLen <= nackBuf.Length && ParseNack(nackBuf[..nackLen]) == Success(kept)
    ensures kept != [] && kept <= nackTargets
    ensures forall k :: 0 <= k <= |nackTargets| ==> (|Greedy(nackTargets[..k])| <= MAX_NACK_ENTRIES <==> k <= |kept|)
  {
    hide Greedy, FirstEntry, NackBytes, ParseNack;
    kept := Truncate(nackTargets);
    OneTargetFits(nackTargets);
    assert nackTargets[..|kept|] == kept;
    var header := PacketHeader(PROTOCOL_VERSION, NACK, 0, nackSeq, timestampMs);
    st, nackLen := EncodeNackPacket(header, kept, nackBuf, 0);
    NackRoundTrip(header, kept);
    assert nackBuf[..nackLen] == NackBytes(header, Greedy(kept));
  }

  lemma OneTargetFits(m: seq<u32>)
    requires m != []
    ensures |Greedy(m[..1])| <= MAX_NACK_ENTRIES
  {
    GreedyOfPrefix(m, 1);
  }
}
