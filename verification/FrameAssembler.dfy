/**
 Fragments in, frames out (modules/transport/FrameAssembler.cpp).

 The admission rules are written once, for an arbitrary "is newer" test, so that
 the same text can be read with 32-bit cyclic frame numbers (what the class
 does) and with unbounded ones (what it is meant to do).
 */
module FrameAssembler {
  import opened Basics
  import opened Cyclic
  import opened Packet

  /** A frame being collected. Once `completed` it is a tombstone without fragments. */
  datatype Pending = Pending(fragments: seq<Bytes>, fragCount: u16, received: nat, totalBytes: nat,
                             timestampMs: u32, isKey: bool, completed: bool)

  datatype Assembled<+K> = Assembled(data: Bytes, frameId: K, timestampMs: u32, isKey: bool)

  /** What the caller learns about one accepted DATA packet. */
  datatype Verdict = TooLate | OfDelivered | Contradicts | Repeated | Stored | Completed

  datatype Table<K(==)> = Table(pending: map<K, Pending>, retired: Option<K>, ready: seq<Assembled<K>>)

  datatype Step<K(==)> = Step(table: Table<K>, verdict: Verdict, evictedPartial: bool)

  /** One DATA packet after its headers have been read. */
  datatype Fragment = Fragment(data: DataHeader, timestampMs: u32, payload: Bytes)

  predicate ValidFragment(f: Fragment) {
    ValidDataHeader(f.data) && f.payload != []
  }

  predicate ValidPending(p: Pending) {
    !p.completed ==> |p.fragments| == p.fragCount
  }

  predicate ValidTable<K(==)>(t: Table<K>) {
    forall k :: k in t.pending ==> ValidPending(t.pending[k])
  }

  function Blank(fragCount: u16): (p: Pending)
    ensures |p.fragments| == p.fragCount == fragCount && !p.completed
  {
    Pending(seq(fragCount, _ => []), fragCount, 0, 0, 0, false, false)
  }

  function Join(fragments: seq<Bytes>): Bytes {
    if fragments == [] then [] else Join(fragments[..|fragments| - 1]) + fragments[|fragments| - 1]
  }

  /** Put a fragment into its frame; the first one to arrive sets the time stamp and the key mark. */
  function Fill(p: Pending, f: Fragment): Pending
    requires f.data.fragIndex < |p.fragments|
  {
    p.(fragments := p.fragments[f.data.fragIndex := f.payload],
       received := p.received + 1,
       totalBytes := p.totalBytes + |f.payload|,
       timestampMs := if p.received == 0 then f.timestampMs else p.timestampMs,
       isKey := if p.received == 0 then f.data.flags % 2 == 1 else p.isKey)
  }

  function Finish<K>(p: Pending, id: K): Assembled<K> {
    Assembled(Join(p.fragments), id, p.timestampMs, p.isKey)
  }

  /** The fragment goes into the frame `id`, which is being collected in `t`. */
  function Store<K(==)>(t: Table<K>, id: K, f: Fragment, evictedPartial: bool): Step<K>
    requires id in t.pending && f.data.fragIndex < |t.pending[id].fragments|
  {
    if t.pending[id].fragments[f.data.fragIndex] != [] then Step(t, Repeated, evictedPartial)
    else
      var filled := Fill(t.pending[id], f);
      if filled.received != filled.fragCount then
        Step(t.(pending := t.pending[id := filled]), Stored, evictedPartial)
      else
        Step(t.(pending := t.pending[id := filled.(completed := true, fragments := [])],
                ready := t.ready + [Finish(filled, id)]), Completed, evictedPartial)
  }

  function Evict<K(==)>(t: Table<K>, victim: K): Table<K> {
    t.(pending := t.pending - {victim}, retired := Some(victim))
  }

  /** What happens to an accepted DATA packet for frame `id`. `victim` is what the scan for the
      oldest entry answers, should it be asked. */
  function Accept<K(==)>(newer: (K, K) -> bool, t: Table<K>, max: nat, id: K, f: Fragment, victim: K): Step<K>
    requires ValidTable(t) && ValidFragment(f)
  {
    if t.retired.Some? && !newer(id, t.retired.value) then Step(t, TooLate, false)
    else if id in t.pending then
      if t.pending[id].completed then Step(t, OfDelivered, false)
      else if t.pending[id].fragCount != f.data.fragCount then Step(t, Contradicts, false)
      else Store(t, id, f, false)
    else if |t.pending| >= max then
      if !newer(id, victim) then Step(t, TooLate, false)
      else
        var partial := victim in t.pending && !t.pending[victim].completed;
        Store(Open(Evict(t, victim), id, f), id, f, partial)
    else
      Store(Open(t, id, f), id, f, false)
  }

  function Open<K(==)>(t: Table<K>, id: K, f: Fragment): Table<K> {
    t.(pending := t.pending[id := Blank(f.data.fragCount)])
  }

  /** Which way the admission rules take a packet. */
  datatype Branch = Behind | Held | Older | Displaces | Opens

  function BranchOf<K(==)>(newer: (K, K) -> bool, t: Table<K>, max: nat, id: K, victim: K): Branch {
    if t.retired.Some? && !newer(id, t.retired.value) then Behind
    else if id in t.pending then Held
    else if |t.pending| < max then Opens
    else if newer(id, victim) then Displaces
    else Older
  }

  /** A packet for a frame that has an entry. */
  function IntoHeld<K(==)>(t: Table<K>, id: K, f: Fragment): Step<K>
    requires ValidTable(t) && ValidFragment(f) && id in t.pending
  {
    if t.pending[id].completed then Step(t, OfDelivered, false)
    else if t.pending[id].fragCount != f.data.fragCount then Step(t, Contradicts, false)
    else Store(t, id, f, false)
  }

  function IsPartial<K(==)>(t: Table<K>, victim: K): bool {
    victim in t.pending && !t.pending[victim].completed
  }

  /** The admission rules by branches. */
  lemma AcceptIs<K>(newer: (K, K) -> bool, t: Table<K>, max: nat, id: K, f: Fragment, victim: K)
    requires ValidTable(t) && ValidFragment(f)
    ensures Accept(newer, t, max, id, f, victim) ==
      match BranchOf(newer, t, max, id, victim)
      case Behind => Step(t, TooLate, false)
      case Older => Step(t, TooLate, false)
      case Held => IntoHeld(t, id, f)
      case Opens => Store(Open(t, id, f), id, f, false)
      case Displaces => Store(Open(Evict(t, victim), id, f), id, f, IsPartial(t, victim))
  {
    hide Store;
  }

  // ----- The counters -----

  datatype Stats = Stats(received: nat, malformed: nat, duplicate: nat, tooLate: nat, framesCompleted: nat,
                         framesDropped: nat, baseSeq: u32, highestSeq: u32, started: bool)
  {
    function ExpectedPackets(): nat {
      if started then Sub(highestSeq, baseSeq) + 1 else 0
    }

    function PacketsLost(): nat {
      if ExpectedPackets() > received then ExpectedPackets() - received else 0
    }
  }

  function TrackSeq(s: Stats, seq_: u32): Stats {
    if !s.started then s.(baseSeq := seq_, highestSeq := seq_, started := true)
    else if SeqNewer(seq_, s.highestSeq) then s.(highestSeq := seq_)
    else s
  }

  function Tally(s: Stats, v: Verdict, evictedPartial: bool): Stats {
    var s := s.(framesDropped := s.framesDropped + if evictedPartial then 1 else 0);
    match v
    case TooLate => s.(tooLate := s.tooLate + 1)
    case OfDelivered => s.(duplicate := s.duplicate + 1)
    case Repeated => s.(duplicate := s.duplicate + 1)
    case Contradicts => s.(malformed := s.malformed + 1)
    case Stored => s
    case Completed => s.(framesCompleted := s.framesCompleted + 1)
  }

  // ----- Reading a datagram -----

  datatype Reading = Rejected(code: Code, malformed: bool) | Read(seq_: u32, fragment: Fragment)

  function ReadDatagram(packet: Bytes): (r: Reading)
    ensures r.Read? ==> ValidFragment(r.fragment)
  {
    if |packet| <= DATA_PAYLOAD then Rejected(NetError, true)
    else if |packet| > MAX_DATA_PACKET_SIZE then Rejected(NetError, true)
    else
      var header := ParsePacketHeader(packet);
      if header.Failure? then Rejected(NetError, true)
      else if header.value.kind != DATA then Rejected(InvalidArg, false)
      else
        var data := ParseDataHeader(packet[PACKET_HEADER_SIZE..]);
        if data.Failure? then Rejected(NetError, true)
        else Read(header.value.seq_, Fragment(data.value, header.value.timestampMs, packet[DATA_PAYLOAD..]))
  }

  // ----- The whole operation -----

  datatype State = State(table: Table<u32>, stats: Stats)

  predicate ValidState(s: State) {
    ValidTable(s.table)
  }

  const EMPTY: State := State(Table(map[], None, []), Stats(0, 0, 0, 0, 0, 0, 0, 0, false))

  function Offered(s: State, max: nat, packet: Bytes, victim: u32): State
    requires ValidState(s)
  {
    match ReadDatagram(packet)
    case Rejected(_, malformed) =>
      s.(stats := s.stats.(malformed := s.stats.malformed + if malformed then 1 else 0))
    case Read(seq_, f) =>
      var step := Accept(SeqNewer, s.table, max, f.data.frameId, f, victim);
      State(step.table, Tally(TrackSeq(s.stats.(received := s.stats.received + 1), seq_), step.verdict, step.evictedPartial))
  }

  function OfferStatus(s: State, max: nat, packet: Bytes, victim: u32): Status
    requires ValidState(s)
  {
    match ReadDatagram(packet)
    case Rejected(code, _) => Error(code)
    case Read(_, f) =>
      if Accept(SeqNewer, s.table, max, f.data.frameId, f, victim).verdict == Contradicts then Error(NetError) else Ok
  }

  lemma StoreKeepsValid<K>(t: Table<K>, id: K, f: Fragment, partial: bool)
    requires ValidTable(t) && id in t.pending && f.data.fragIndex < |t.pending[id].fragments|
    ensures ValidTable(Store(t, id, f, partial).table)
  {
  }

  lemma AcceptKeepsValid<K>(newer: (K, K) -> bool, t: Table<K>, max: nat, id: K, f: Fragment, victim: K)
    requires ValidTable(t) && ValidFragment(f)
    ensures ValidTable(Accept(newer, t, max, id, f, victim).table)
  {
  }

  lemma OfferedKeepsValid(s: State, max: nat, packet: Bytes, victim: u32)
    requires ValidState(s)
    ensures ValidState(Offered(s, max, packet, victim))
  {
    hide Accept, ReadDatagram;
    match ReadDatagram(packet)
    case Rejected(_, _) =>
    case Read(_, f) => AcceptKeepsValid(SeqNewer, s.table, max, f.data.frameId, f, victim);
  }

  // ----- Which entry is oldest -----

  /** The cyclic test orders these keys. */
  ghost predicate Ordered(keys: set<u32>) {
    && (forall a, b :: a in keys && b in keys && a != b ==> (SeqNewer(a, b) <==> !SeqNewer(b, a)))
    && (forall a, b, c :: a in keys && b in keys && c in keys && SeqNewer(a, b) && SeqNewer(b, c) ==> SeqNewer(a, c))
  }

  ghost predicate IsOldest(keys: set<u32>, k: u32) {
    k in keys && forall j :: j in keys && j != k ==> SeqNewer(j, k)
  }

  lemma {:induction false} OldestExists(keys: set<u32>) returns (k: u32)
    requires Ordered(keys) && keys != {}
    ensures IsOldest(keys, k)
    decreases |keys|
  {
    var a :| a in keys;
    k := a;
    if keys != {a} {
      var b := OldestExists(keys - {a});
      if !SeqNewer(b, a) { k := b; }
    }
  }

  lemma OnlyOneOldest(keys: set<u32>, a: u32, b: u32)
    requires Ordered(keys) && IsOldest(keys, a) && IsOldest(keys, b)
    ensures a == b
  {
    hide SeqNewer;
  }

  /** The oldest of `keys`, when the cyclic test orders them. */
  ghost function SomeOldest(keys: set<u32>): (k: u32)
    ensures Ordered(keys) && keys != {} ==> IsOldest(keys, k)
  {
    if Ordered(keys) && keys != {} then
      assert exists k: u32 :: IsOldest(keys, k) by { var k := OldestExists(keys); }
      var k: u32 :| IsOldest(keys, k); k
    else 0
  }

  class FrameAssembler {
    const max: nat
    var pending: map<u32, Pending>
    var ready: seq<Assembled<u32>>
    var retired: Option<u32>
    var stats: Stats

    function Contents(): Table<u32>
      reads this
    {
      Table(pending, retired, ready)
    }

    function Abs(): State
      reads this
    {
      State(Contents(), stats)
    }

    ghost predicate Valid()
      reads this
    {
      max >= 1 && ValidTable(Contents())
    }

    constructor (maxPendingFrames: nat)
      ensures Valid() && Abs() == EMPTY && max == if maxPendingFrames == 0 then 1 else maxPendingFrames
    {
      max := if maxPendingFrames == 0 then 1 else maxPendingFrames;
      pending, ready, retired := map[], [], None;
      stats := EMPTY.stats;
    }

    /** Scan the table, whose iteration order is not specified. */
    method OldestPendingFrameId() returns (oldest: u32)
      requires pending != map[]
      ensures oldest in pending
      ensures Ordered(pending.Keys) ==> IsOldest(pending.Keys, oldest)
    {
      oldest :| oldest in pending;
      var rest := pending.Keys;
      while rest != {}
        invariant rest <= pending.Keys
        invariant oldest in pending
        invariant Ordered(pending.Keys) ==>
          forall j :: j in pending && j !in rest && j != oldest ==> SeqNewer(j, oldest)
        decreases rest
      {
        var k :| k in rest;
        if SeqNewer(oldest, k) { oldest := k; }
        rest := rest - {k};
      }
    }

    method EvictOldest(oldest: u32)
      requires Valid() && oldest in pending
      modifies this
      ensures Valid() && Contents() == Evict(old(Contents()), oldest)
      ensures stats == old(stats).(framesDropped := old(stats).framesDropped + if old(pending)[oldest].completed then 0 else 1)
    {
      if !pending[oldest].completed { stats := stats.(framesDropped := stats.framesDropped + 1); }
      retired := Some(oldest);
      pending := pending - {oldest};
    }

    method Offer(packet: Bytes) returns (st: Status, ghost victim: u32)
      requires Valid()
      modifies this
      ensures Valid()
      ensures Abs() == Offered(old(Abs()), max, packet, victim)
      ensures st == OfferStatus(old(Abs()), max, packet, victim)
      ensures Ordered(old(pending).Keys) ==> victim == SomeOldest(old(pending).Keys)
    {
      hide Ordered, IsOldest, SomeOldest, Accept;
      victim := SomeOldest(pending.Keys);
      if |packet| <= DATA_PAYLOAD || |packet| > MAX_DATA_PACKET_SIZE {
        stats := stats.(malformed := stats.malformed + 1);
        return Error(NetError), victim;
      }
      var header := ParsePacketHeader(packet);
      if header.Failure? {
        stats := stats.(malformed := stats.malformed + 1);
        return Error(NetError), victim;
      }
      if header.value.kind != DATA { return Error(InvalidArg), victim; }
      var data := ParseDataHeader(packet[PACKET_HEADER_SIZE..]);
      if data.Failure? {
        stats := stats.(malformed := stats.malformed + 1);
        return Error(NetError), victim;
      }
      stats := TrackSeq(stats.(received := stats.received + 1), header.value.seq_);
      st, victim := AcceptFragment(Fragment(data.value, header.value.timestampMs, packet[DATA_PAYLOAD..]));
    }

    /** From the watermark test to the end of `offer`. */
    method AcceptFragment(f: Fragment) returns (st: Status, ghost victim: u32)
      requires Valid() && ValidFragment(f)
      modifies this
      ensures Valid()
      ensures var step := Accept(SeqNewer, old(Contents()), max, f.data.frameId, f, victim);
        && Contents() == step.table
        && stats == Tally(old(stats), step.verdict, step.evictedPartial)
        && st == if step.verdict == Contradicts then Error(NetError) else Ok
      ensures Ordered(old(pending).Keys) ==> victim == SomeOldest(old(pending).Keys)
    {
      hide Ordered, IsOldest, SomeOldest, SeqNewer, Accept, Store, Open, Evict, Tally, IntoHeld;
      ghost var was := Contents();
      st, victim := Ok, SomeOldest(pending.Keys);
      var id := f.data.frameId;
      if retired.Some? && !SeqNewer(id, retired.value) {
        stats := stats.(tooLate := stats.tooLate + 1);
        TooLateTally(old(stats));
      } else if id in pending {
        st := IntoEntry(f);
        HeldIsNotPartial(was, id, f);
      } else {
        victim := IntoNewEntry(f);
      }
      AcceptIs(SeqNewer, was, max, id, f, victim);
    }

    /** A fragment of a frame that has an entry. */
    method IntoEntry(f: Fragment) returns (st: Status)
      requires Valid() && ValidFragment(f) && f.data.frameId in pending
      modifies this
      ensures Valid()
      ensures var step := IntoHeld(old(Contents()), f.data.frameId, f);
        && Contents() == step.table && stats == Tally(old(stats), step.verdict, false)
        && st == if step.verdict == Contradicts then Error(NetError) else Ok
    {
      hide Store;
      var id := f.data.frameId;
      st := Ok;
      if pending[id].completed {
        stats := stats.(duplicate := stats.duplicate + 1);
      } else if pending[id].fragCount != f.data.fragCount {
        stats := stats.(malformed := stats.malformed + 1);
        st := Error(NetError);
      } else {
        StoreNeverContradicts(Contents(), id, f);
        StoreFragment(f);
      }
    }

    /** A fragment of a frame without an entry: make room if need be, and open one. */
    method IntoNewEntry(f: Fragment) returns (ghost victim: u32)
      requires Valid() && ValidFragment(f) && f.data.frameId !in pending
      modifies this
      ensures Valid()
      ensures var t, id := old(Contents()), f.data.frameId;
        var step :=
          if |t.pending| < max then Store(Open(t, id, f), id, f, false)
          else if SeqNewer(id, victim) then Store(Open(Evict(t, victim), id, f), id, f, IsPartial(t, victim))
          else Step(t, TooLate, false);
        Contents() == step.table && stats == Tally(old(stats), step.verdict, step.evictedPartial)
        && step.verdict != Contradicts
      ensures Ordered(old(pending).Keys) ==> victim == SomeOldest(old(pending).Keys)
    {
      hide Ordered, IsOldest, SomeOldest, SeqNewer, Store, Fill, Join, Blank;
      victim := SomeOldest(pending.Keys);
      var id := f.data.frameId;
      ghost var partial := false;
      if |pending| >= max {
        var oldest := OldestPendingFrameId();
        if Ordered(pending.Keys) { OnlyOneOldest(pending.Keys, oldest, victim); }
        victim := oldest;
        if !SeqNewer(id, oldest) {
          stats := stats.(tooLate := stats.tooLate + 1);
          return;
        }
        partial := IsPartial(Contents(), oldest);
        EvictOldest(oldest);
      }
      pending := pending[id := Blank(f.data.fragCount)];
      ghost var blank := Contents();
      StoreNeverContradicts(blank, id, f);
      StoreFragment(f);
      PartialOnlyCounts(blank, id, f, partial, old(stats));
    }

    /** Keep the fragment; deliver the frame if it was the last one missing. */
    method StoreFragment(f: Fragment)
      requires Valid() && ValidFragment(f) && f.data.frameId in pending
      requires f.data.fragIndex < |pending[f.data.frameId].fragments|
      modifies this
      ensures Valid()
      ensures var step := Store(old(Contents()), f.data.frameId, f, false);
        Contents() == step.table && stats == Tally(old(stats), step.verdict, false)
    {
      var id := f.data.frameId;
      if pending[id].fragments[f.data.fragIndex] != [] {
        stats := stats.(duplicate := stats.duplicate + 1);
        return;
      }
      var filled := Fill(pending[id], f);
      pending := pending[id := filled];
      if filled.received != filled.fragCount { return; }
      var data := JoinFragments(filled.fragments);
      ready := ready + [Assembled(data, id, filled.timestampMs, filled.isKey)];
      stats := stats.(framesCompleted := stats.framesCompleted + 1);
      pending := pending[id := filled.(completed := true, fragments := [])];
    }

    method Pop() returns (ok: bool, out: Option<Assembled<u32>>)
      requires Valid()
      modifies this`ready
      ensures Valid()
      ensures ok == (old(ready) != [])
      ensures ok ==> out == Some(old(ready)[0]) && ready == old(ready)[1..]
      ensures !ok ==> out == None && ready == old(ready)
    {
      if ready == [] { return false, None; }
      ok, out := true, Some(ready[0]);
      ready := ready[1..];
    }

    method Reset()
      requires Valid()
      modifies this
      ensures Valid() && Abs() == EMPTY
    {
      pending, ready, retired := map[], [], None;
      stats := EMPTY.stats;
    }
  }

  lemma TooLateTally(s: Stats)
    ensures Tally(s, TooLate, false) == s.(tooLate := s.tooLate + 1)
  {
  }

  lemma HeldIsNotPartial(t: Table<u32>, id: u32, f: Fragment)
    requires ValidTable(t) && ValidFragment(f) && id in t.pending
    ensures !IntoHeld(t, id, f).evictedPartial
  {
  }

  lemma StoreNeverContradicts(t: Table<u32>, id: u32, f: Fragment)
    requires id in t.pending && f.data.fragIndex < |t.pending[id].fragments|
    ensures Store(t, id, f, false).verdict != Contradicts
  {
  }

  /** Whether a partial frame was evicted shows in the counters and nowhere else. */
  lemma PartialOnlyCounts(t: Table<u32>, id: u32, f: Fragment, partial: bool, s: Stats)
    requires id in t.pending && f.data.fragIndex < |t.pending[id].fragments|
    ensures var a, b := Store(t, id, f, partial), Store(t, id, f, false);
      && a.table == b.table && a.verdict == b.verdict && a.evictedPartial == partial
      && Tally(s, a.verdict, partial) == Tally(s.(framesDropped := s.framesDropped + if partial then 1 else 0), b.verdict, false)
  {
  }

  /** The loop that concatenates the fragments of a complete frame. */
  method JoinFragments(fragments: seq<Bytes>) returns (data: Bytes)
    ensures data == Join(fragments)
  {
    data := [];
    for i := 0 to |fragments|
      invariant data == Join(fragments[..i])
    {
      assert fragments[..i + 1][..i] == fragments[..i];
      data := data + fragments[i];
    }
    assert fragments[..|fragments|] == fragments;
  }
}
