/**
 From the sender's frame to the receiver's frame: packetizer, FEC encoder, a
 channel that loses, repeats and reorders, FEC decoder, assembler.
 */
module EndToEnd {
  import opened Basics
  import opened Cyclic
  import opened Packet
  import opened Packetizer
  import opened FrameAssembler
  import opened FecRecovery
  import FD = FecDecoder
  import FE = FecEncoder
  import AR = AssemblerRuns
  import opened Newest
  import opened Reassembly
  import opened ReceiverPipeline

  /** One received datagram: a copy of a fragment, or the FEC packet of fragments `first..last`. */
  datatype Arrival =
    | Data(item: Item)
    | Fec(frame: nat, first: nat, last: nat, fecSeq: u32, groupIndex: byte, groupCount: byte)

  predicate ValidArrival(stream: seq<Sent>, a: Arrival) {
    match a
    case Data(x) => ValidItem(stream, x)
    case Fec(k, first, last, _, _, _) => k < |stream| && first + 2 <= last <= stream[k].Count()
  }

  ghost predicate ValidArrivals(stream: seq<Sent>, arrivals: seq<Arrival>) {
    forall n :: 0 <= n < |arrivals| ==> ValidArrival(stream, arrivals[n])
  }

  function Datagram(stream: seq<Sent>, a: Arrival): Bytes
    requires ValidArrival(stream, a) && forall k :: 0 <= k < |stream| ==> stream[k].Valid()
  {
    match a
    case Data(x) => Image(stream, x)
    case Fec(k, first, last, fecSeq, gi, gc) => stream[k].Fec(first, last, fecSeq, gi, gc)
  }

  function SeqOf(stream: seq<Sent>, k: nat, i: nat): u32
    requires k < |stream|
  {
    Wrap(stream[k].base + i)
  }

  /** No two fragments of the stream share a 32-bit sequence number. */
  ghost predicate SeqsApart(stream: seq<Sent>) {
    forall j, i, k, l ::
      0 <= j < |stream| && 0 <= i < stream[j].Count() && 0 <= k < |stream| && 0 <= l < stream[k].Count()
      && SeqOf(stream, j, i) == SeqOf(stream, k, l)
      ==> j == k && i == l
  }

  /** The receiver after a run of datagrams, starting idle. */
  ghost function Run(cap: nat, max: nat, stream: seq<Sent>, arrivals: seq<Arrival>): (r: Receiver)
    requires ValidStream(stream) && ValidArrivals(stream, arrivals)
    ensures ValidReceiver(r)
  {
    if arrivals == [] then IDLE
    else
      var n := |arrivals| - 1;
      var before := Run(cap, max, stream, arrivals[..n]);
      var scan := Scan(before.assembler.table);
      HandledKeepsValid(before, cap, max, Datagram(stream, arrivals[n]), scan);
      Handled(before, cap, max, Datagram(stream, arrivals[n]), scan)
  }

  // ----- What the FEC buffer holds -----

  /** Everything held is a copy of some fragment of the stream. */
  ghost predicate HoldsCopies(recent: seq<Bytes>, stream: seq<Sent>)
    requires ValidStream(stream)
  {
    forall p :: p in recent ==> exists x: Item :: ValidItem(stream, x) && p == Image(stream, x)
  }

  /** Copies of a stream without shared numbers are faithful to every one of its groups. */
  lemma CopiesAreFaithful(recent: seq<Bytes>, stream: seq<Sent>, k: nat, first: nat, last: nat)
    requires ValidStream(stream) && SeqsApart(stream) && HoldsCopies(recent, stream)
    requires k < |stream| && first <= last <= stream[k].Count()
    ensures Faithful(recent, stream[k], first, last)
  {
    hide FragmentCount, FragmentPacket, FD.AsMember;
    var s := stream[k];
    forall p | p in recent && FD.AsMember(p, Wrap(s.base + first), last - first).Some?
      ensures exists i, r: bool :: first <= i < last && p == s.Copy(i, r)
    {
      var x: Item :| ValidItem(stream, x) && p == Image(stream, x);
      var i := MemberNumber(stream, x, k, first, last);
      assert p == s.Copy(i, x.retransmitted);
    }
  }

  /** A copy that reads as a member of a group of frame `k` is a fragment of that group. */
  lemma MemberNumber(stream: seq<Sent>, x: Item, k: nat, first: nat, last: nat) returns (i: nat)
    requires ValidStream(stream) && SeqsApart(stream) && ValidItem(stream, x)
    requires k < |stream| && first <= last <= stream[k].Count()
    requires FD.AsMember(Image(stream, x), Wrap(stream[k].base + first), last - first).Some?
    ensures first <= i < last && x.frame == k && x.frag == i
  {
    hide FragmentCount, FragmentPacket, Payload;
    var s, t := stream[k], stream[x.frame];
    CopyAsMember(t, x.frag, x.frag + 1, x.frag, x.retransmitted);
    var o := Sub(Wrap(t.base + x.frag), Wrap(s.base + first));
    assert o < last - first;
    i := first + o;
    DifferenceModulo(t.base + x.frag, s.base + first);
    var d := t.base + x.frag - (s.base + first);
    assert s.base + i == (t.base + x.frag) - MOD * (d / MOD);
    ShiftModulo(t.base + x.frag, d / MOD);
    assert SeqOf(stream, x.frame, x.frag) == SeqOf(stream, k, i);
  }

  // ----- What an FEC packet contributes -----

  /** Over faithful packets the decoder never invents anything: it returns a copy of the group's
      only missing fragment, all others being held, or nothing. */
  lemma NeverInvents(recent: seq<Bytes>, s: Sent, first: nat, last: nat, fecSeq: u32, gi: byte, gc: byte)
    returns (j: nat, r: bool)
    requires s.Valid() && first + 2 <= last <= s.Count() && Faithful(recent, s, first, last)
    ensures first <= j < last
    ensures FD.Decide(recent, s.Fec(first, last, fecSeq, gi, gc)).Recovered? ==>
      && FD.Decide(recent, s.Fec(first, last, fecSeq, gi, gc)) == FD.Recovered(s.Copy(j, r))
      && forall l :: first <= l < last && l != j ==> Has(recent, s, l)
  {
    hide *;
    j, r := first, false;
    if a :| first <= a < last && !Has(recent, s, a) {
      if b :| first <= b < last && !Has(recent, s, b) && b != a {
        TwoMissing(recent, s, first, last, a, b, fecSeq, gi, gc);
      } else {
        j := a;
        var n, i, c := OneMissing(recent, s, first, last, a, fecSeq, gi, gc);
        r := c;
      }
    } else {
      NothingMissing(recent, s, first, last, fecSeq, gi, gc);
    }
  }

  ghost predicate Rescues(o: FD.Outcome, s: Sent, j: nat, r: bool)
    requires s.Valid() && j < s.Count()
  {
    o == FD.Recovered(s.Copy(j, r))
  }

  /** The fragment an arrival brings the assembler, if any. */
  ghost function Brings(recent: seq<Bytes>, cap: nat, stream: seq<Sent>, a: Arrival): (items: seq<Item>)
    requires ValidStream(stream) && ValidArrival(stream, a)
    ensures ValidItems(stream, items)
  {
    match a
    case Data(x) => [x]
    case Fec(k, first, last, _, _, _) =>
      var o := FD.Decide(recent, Datagram(stream, a));
      if cap > 0 && exists j, r :: first <= j < last && Rescues(o, stream[k], j, r) then
        var j, r :| first <= j < last && Rescues(o, stream[k], j, r);
        [Item(k, j, r)]
      else []
  }

  /** The fragments that reach the assembler over a run, directly or rebuilt. */
  ghost function Reached(cap: nat, max: nat, stream: seq<Sent>, arrivals: seq<Arrival>): (items: seq<Item>)
    requires ValidStream(stream) && ValidArrivals(stream, arrivals)
    ensures ValidItems(stream, items)
  {
    if arrivals == [] then []
    else
      var n := |arrivals| - 1;
      Reached(cap, max, stream, arrivals[..n])
      + Brings(Run(cap, max, stream, arrivals[..n]).recent, cap, stream, arrivals[n])
  }

  lemma DataIsHandled(r: Receiver, cap: nat, max: nat, stream: seq<Sent>, x: Item, scan: u32)
    requires ValidReceiver(r) && ValidStream(stream) && ValidItem(stream, x)
    ensures Handled(r, cap, max, Image(stream, x), scan)
         == Receiver(FD.Remember(r.recent, cap, Image(stream, x)), Offered(r.assembler, max, Image(stream, x), scan))
  {
    hide Offered, FD.Remember, FD.Decide, DataImage, Payload;
    var s := stream[x.frame];
    DataImageRoundTrip(FragmentHeader(s.streamId, Wrap(s.base + x.frag), s.frame), s.Data(x.frag, x.retransmitted),
                       Payload(s.frame, x.frag));
  }

  lemma RememberKeepsCopies(recent: seq<Bytes>, cap: nat, stream: seq<Sent>, x: Item)
    requires ValidStream(stream) && ValidItem(stream, x) && HoldsCopies(recent, stream)
    ensures HoldsCopies(FD.Remember(recent, cap, Image(stream, x)), stream)
  {
    hide Image;
    var after := FD.Remember(recent, cap, Image(stream, x));
    forall p | p in after
      ensures exists y: Item :: ValidItem(stream, y) && p == Image(stream, y)
    {
      if p !in recent { assert p == Image(stream, x); }
    }
  }

  lemma FecIsHandled(r: Receiver, cap: nat, max: nat, stream: seq<Sent>, a: Arrival, scan: u32)
    requires ValidReceiver(r) && ValidStream(stream) && ValidArrival(stream, a) && a.Fec?
    ensures Handled(r, cap, max, Datagram(stream, a), scan)
         == if cap > 0 && FD.Decide(r.recent, Datagram(stream, a)).Recovered?
            then r.(assembler := Offered(r.assembler, max, FD.Decide(r.recent, Datagram(stream, a)).packet, scan))
            else r
  {
    hide Offered, FD.Remember, FD.Decide;
    FecReads(stream[a.frame], a.first, a.last, a.fecSeq, a.groupIndex, a.groupCount);
  }

  /** One arrival does to the assembler what offering the fragments it brings does. */
  lemma ArrivalBrings(r: Receiver, cap: nat, max: nat, stream: seq<Sent>, a: Arrival, scan: u32)
    requires ValidReceiver(r) && ValidStream(stream) && SeqsApart(stream) && ValidArrival(stream, a)
    requires HoldsCopies(r.recent, stream)
    ensures var after := Handled(r, cap, max, Datagram(stream, a), scan);
      var items := Brings(r.recent, cap, stream, a);
      && HoldsCopies(after.recent, stream)
      && |items| <= 1
      && after.assembler == if items == [] then r.assembler else Offered(r.assembler, max, Image(stream, items[0]), scan)
  {
    hide HoldsCopies, Handled, SeqsApart, Offered, FD.Decide, FD.Remember;
    match a
    case Data(x) =>
      DataIsHandled(r, cap, max, stream, x, scan);
      RememberKeepsCopies(r.recent, cap, stream, x);
    case Fec(k, first, last, fecSeq, gi, gc) =>
      FecIsHandled(r, cap, max, stream, a, scan);
      CopiesAreFaithful(r.recent, stream, k, first, last);
      StreamIsValid(stream, k);
      var j, c := NeverInvents(r.recent, stream[k], first, last, fecSeq, gi, gc);
      if FD.Decide(r.recent, Datagram(stream, a)).Recovered? {
        assert Rescues(FD.Decide(r.recent, Datagram(stream, a)), stream[k], j, c);
      }
  }

  lemma StreamIsValid(stream: seq<Sent>, k: nat)
    requires ValidStream(stream) && k < |stream|
    ensures stream[k].Valid()
  {
  }

  /** A run of arrivals leaves the assembler as if the fragments that reached it had been offered
      one by one, and the FEC buffer holding copies of the stream. */
  lemma {:induction false} RunReaches(cap: nat, max: nat, stream: seq<Sent>, arrivals: seq<Arrival>)
    requires ValidStream(stream) && SeqsApart(stream) && ValidArrivals(stream, arrivals)
    ensures HoldsCopies(Run(cap, max, stream, arrivals).recent, stream)
    ensures Run(cap, max, stream, arrivals).assembler == Assemble(max, stream, Reached(cap, max, stream, arrivals))
    decreases |arrivals|
  {
    hide *;
    if arrivals == [] {
      StartsIdle(cap, max, stream);
    } else {
      var n := |arrivals| - 1;
      OneMoreArrival(cap, max, stream, arrivals);
      RunReaches(cap, max, stream, arrivals[..n]);
      var before := Run(cap, max, stream, arrivals[..n]);
      ArrivalBrings(before, cap, max, stream, arrivals[n], Scan(before.assembler.table));
      OfferingReaches(max, stream, Reached(cap, max, stream, arrivals[..n]), Brings(before.recent, cap, stream, arrivals[n]));
    }
  }

  lemma StartsIdle(cap: nat, max: nat, stream: seq<Sent>)
    requires ValidStream(stream)
    ensures ValidArrivals(stream, []) && HoldsCopies(Run(cap, max, stream, []).recent, stream)
    ensures Reached(cap, max, stream, []) == []
    ensures Run(cap, max, stream, []).assembler == Assemble(max, stream, [])
  {
  }

  lemma OfferingReaches(max: nat, stream: seq<Sent>, items: seq<Item>, more: seq<Item>)
    requires ValidStream(stream) && ValidItems(stream, items) && ValidItems(stream, more) && |more| <= 1
    ensures ValidItems(stream, items + more) && (more != [] ==> ValidItem(stream, more[0]) && stream[more[0].frame].Valid())
    ensures Assemble(max, stream, items + more)
         == var st := Assemble(max, stream, items);
            if more == [] then st else Offered(st, max, Image(stream, more[0]), Scan(st.table))
  {
    hide Assemble, ValidItem, Offered, Image, Scan;
    var all := items + more;
    if more == [] {
      assert all == items;
    } else {
      assert all[..|all| - 1] == items;
      OneMoreOffered(max, stream, all);
    }
  }

  lemma OneMoreArrival(cap: nat, max: nat, stream: seq<Sent>, arrivals: seq<Arrival>)
    requires ValidStream(stream) && ValidArrivals(stream, arrivals) && arrivals != []
    ensures var n := |arrivals| - 1;
      && ValidArrivals(stream, arrivals[..n]) && ValidArrival(stream, arrivals[n])
      && Run(cap, max, stream, arrivals)
         == Handled(Run(cap, max, stream, arrivals[..n]), cap, max, Datagram(stream, arrivals[n]),
                 Scan(Run(cap, max, stream, arrivals[..n]).assembler.table))
      && Reached(cap, max, stream, arrivals)
         == Reached(cap, max, stream, arrivals[..n]) + Brings(Run(cap, max, stream, arrivals[..n]).recent, cap, stream, arrivals[n])
      && ValidItems(stream, Reached(cap, max, stream, arrivals[..n]) + Brings(Run(cap, max, stream, arrivals[..n]).recent, cap, stream, arrivals[n]))
  {
    hide Handled, Brings, Datagram, Scan;
  }

  // ----- What can be repaired -----

  /** Fragment `i` of frame `k` itself arrived. */
  ghost predicate Arrived(arrivals: seq<Arrival>, k: nat, i: nat) {
    exists n :: 0 <= n < |arrivals| && IsCopy(arrivals[n], k, i)
  }

  predicate IsCopy(a: Arrival, k: nat, i: nat) {
    a.Data? && a.item.frame == k && a.item.frag == i
  }

  function DataCount(arrivals: seq<Arrival>): nat {
    if arrivals == [] then 0
    else DataCount(arrivals[..|arrivals| - 1]) + if arrivals[|arrivals| - 1].Data? then 1 else 0
  }

  /** Fragment `i` of frame `k` is among the last `cap` DATA packets that arrived. */
  ghost predicate InReach(arrivals: seq<Arrival>, cap: nat, k: nat, i: nat) {
    exists m :: 0 <= m < |arrivals| && IsCopy(arrivals[m], k, i) && DataCount(arrivals) - DataCount(arrivals[..m]) <= cap
  }

  /** Arrival `n` is an FEC packet of a group of frame `k` that contains `i`, and by then every other
      fragment of that group has arrived and is still in reach. */
  ghost predicate Rescued(arrivals: seq<Arrival>, cap: nat, k: nat, i: nat, n: nat)
    requires n < |arrivals|
  {
    var a := arrivals[n];
    && a.Fec? && a.frame == k && a.first <= i < a.last
    && forall l :: a.first <= l < a.last && l != i ==> InReach(arrivals[..n], cap, k, l)
  }

  /** The numbers of the frames of which some DATA packet arrived. */
  ghost function Seen(stream: seq<Sent>, arrivals: seq<Arrival>): set<int>
    requires ValidArrivals(stream, arrivals)
  {
    if arrivals == [] then {}
    else
      var n := |arrivals| - 1;
      Seen(stream, arrivals[..n]) + if arrivals[n].Data? then {Number(stream[arrivals[n].item.frame])} else {}
  }

  /** DATA packets of fewer than `max` frames newer than `k` have arrived. */
  ghost predicate Timely(max: nat, stream: seq<Sent>, arrivals: seq<Arrival>, k: nat)
    requires ValidArrivals(stream, arrivals) && k < |stream|
  {
    |Above(Seen(stream, arrivals), Number(stream[k]))| < max
  }

  /** Arrival `n` brings fragment `i` of frame `k`, itself or by what its FEC packet makes up for, and in time. */
  ghost predicate BroughtBy(cap: nat, max: nat, stream: seq<Sent>, arrivals: seq<Arrival>, k: nat, i: nat, n: nat)
    requires ValidArrivals(stream, arrivals) && k < |stream| && n < |arrivals|
  {
    (IsCopy(arrivals[n], k, i) || Rescued(arrivals, cap, k, i, n)) && Timely(max, stream, arrivals[..n], k)
  }

  ghost predicate Brought(cap: nat, max: nat, stream: seq<Sent>, arrivals: seq<Arrival>, k: nat, i: nat)
    requires ValidArrivals(stream, arrivals) && k < |stream|
  {
    exists n :: 0 <= n < |arrivals| && BroughtBy(cap, max, stream, arrivals, k, i, n)
  }

  /** Every fragment of frame `k` arrived or was rescued in time. */
  ghost predicate Repaired(cap: nat, max: nat, stream: seq<Sent>, arrivals: seq<Arrival>, k: nat)
    requires ValidArrivals(stream, arrivals) && k < |stream|
  {
    forall i :: 0 <= i < stream[k].Count() ==> Brought(cap, max, stream, arrivals, k, i)
  }

  /** The DATA packets that arrived. */
  function DataImages(stream: seq<Sent>, arrivals: seq<Arrival>): (ps: seq<Bytes>)
    requires ValidStream(stream) && ValidArrivals(stream, arrivals)
    ensures |ps| == DataCount(arrivals)
  {
    if arrivals == [] then []
    else
      var n := |arrivals| - 1;
      DataImages(stream, arrivals[..n]) + if arrivals[n].Data? then [Image(stream, arrivals[n].item)] else []
  }

  /** The FEC buffer holds the last `cap` of them. */
  lemma {:induction false} BufferIsLast(cap: nat, max: nat, stream: seq<Sent>, arrivals: seq<Arrival>)
    requires ValidStream(stream) && ValidArrivals(stream, arrivals) && 0 < cap
    ensures Run(cap, max, stream, arrivals).recent == FD.Last(DataImages(stream, arrivals), cap)
    decreases |arrivals|
  {
    hide *;
    if arrivals == [] {
      BufferStartsEmpty(cap, max, stream);
    } else {
      var n := |arrivals| - 1;
      var a := arrivals[n];
      OneMoreImage(stream, arrivals);
      OneMoreArrival(cap, max, stream, arrivals);
      BufferIsLast(cap, max, stream, arrivals[..n]);
      var before := Run(cap, max, stream, arrivals[..n]);
      BufferStep(before, cap, max, stream, a, Scan(before.assembler.table));
      var ps := DataImages(stream, arrivals[..n]);
      if a.Data? { LastOfLast(ps, Image(stream, a.item), cap); } else { assert ps + [] == ps; }
    }
  }

  lemma BufferStartsEmpty(cap: nat, max: nat, stream: seq<Sent>)
    requires ValidStream(stream)
    ensures ValidArrivals(stream, []) && Run(cap, max, stream, []).recent == FD.Last(DataImages(stream, []), cap)
  {
  }

  lemma OneMoreImage(stream: seq<Sent>, arrivals: seq<Arrival>)
    requires ValidStream(stream) && ValidArrivals(stream, arrivals) && arrivals != []
    ensures var n := |arrivals| - 1;
      && ValidArrivals(stream, arrivals[..n]) && ValidArrival(stream, arrivals[n])
      && (arrivals[n].Data? ==> ValidItem(stream, arrivals[n].item) && stream[arrivals[n].item.frame].Valid())
      && DataImages(stream, arrivals)
         == DataImages(stream, arrivals[..n]) + (if arrivals[n].Data? then [Image(stream, arrivals[n].item)] else [])
  {
    hide Image;
  }

  lemma BufferStep(r: Receiver, cap: nat, max: nat, stream: seq<Sent>, a: Arrival, scan: u32)
    requires ValidReceiver(r) && ValidStream(stream) && ValidArrival(stream, a) && 0 < cap
    ensures a.Data? ==> ValidItem(stream, a.item)
    ensures Handled(r, cap, max, Datagram(stream, a), scan).recent
         == if a.Data? then FD.Last(r.recent + [Image(stream, a.item)], cap) else r.recent
  {
    hide Handled, Offered, FD.Decide, FD.Last, ValidStream, Image;
    if a.Data? {
      DataIsHandled(r, cap, max, stream, a.item, scan);
      ImageIsLong(stream, a.item);
    } else {
      FecIsHandled(r, cap, max, stream, a, scan);
    }
  }

  lemma LastOfLast(ps: seq<Bytes>, p: Bytes, cap: nat)
    requires 0 < cap
    ensures FD.Last(FD.Last(ps, cap) + [p], cap) == FD.Last(ps + [p], cap)
  {
  }

  lemma {:induction false} ImageAt(stream: seq<Sent>, arrivals: seq<Arrival>, m: nat)
    requires ValidStream(stream) && ValidArrivals(stream, arrivals) && m < |arrivals| && arrivals[m].Data?
    ensures DataCount(arrivals[..m]) < DataCount(arrivals)
    ensures DataImages(stream, arrivals)[DataCount(arrivals[..m])] == Image(stream, arrivals[m].item)
    decreases |arrivals|
  {
    hide Image, ValidStream;
    var n := |arrivals| - 1;
    if m < n {
      ImageAt(stream, arrivals[..n], m);
      assert arrivals[..n][..m] == arrivals[..m];
    }
  }

  /** What is in reach is still held. */
  lemma InReachIsHeld(cap: nat, max: nat, stream: seq<Sent>, arrivals: seq<Arrival>, k: nat, i: nat)
    requires ValidStream(stream) && ValidArrivals(stream, arrivals) && 0 < cap
    requires k < |stream| && i < stream[k].Count() && InReach(arrivals, cap, k, i)
    ensures Has(Run(cap, max, stream, arrivals).recent, stream[k], i)
  {
    hide Run, DataImages, DataCount;
    var m :| 0 <= m < |arrivals| && IsCopy(arrivals[m], k, i) && DataCount(arrivals) - DataCount(arrivals[..m]) <= cap;
    BufferIsLast(cap, max, stream, arrivals);
    ImageAt(stream, arrivals, m);
    var ps, j := DataImages(stream, arrivals), DataCount(arrivals[..m]);
    var recent := FD.Last(ps, cap);
    assert ps[j] == recent[j - (|ps| - |recent|)];
    assert stream[k].Copy(i, arrivals[m].item.retransmitted) in recent;
  }

  /** While no more DATA packets have arrived than the FEC buffer holds, everything that arrived is in reach. */
  lemma ArrivedIsInReach(cap: nat, arrivals: seq<Arrival>, k: nat, i: nat)
    requires DataCount(arrivals) <= cap
    ensures InReach(arrivals, cap, k, i) <==> Arrived(arrivals, k, i)
  {
    hide DataCount;
    if Arrived(arrivals, k, i) {
      var m :| 0 <= m < |arrivals| && IsCopy(arrivals[m], k, i);
      assert DataCount(arrivals) - DataCount(arrivals[..m]) <= cap;
    }
  }

  lemma ImageIsLong(stream: seq<Sent>, x: Item)
    requires ValidStream(stream) && ValidItem(stream, x)
    ensures |Image(stream, x)| > DATA_PAYLOAD
  {
  }

  /** A rescued fragment reaches the assembler. */
  lemma RescuedReaches(cap: nat, max: nat, stream: seq<Sent>, arrivals: seq<Arrival>, k: nat, i: nat, n: nat)
    requires ValidStream(stream) && SeqsApart(stream) && ValidArrivals(stream, arrivals)
    requires n < |arrivals| && 0 < cap
    requires k < |stream| && i < stream[k].Count() && Rescued(arrivals, cap, k, i, n)
    requires !Has(Run(cap, max, stream, arrivals[..n]).recent, stream[k], i)
    ensures Gives(Brings(Run(cap, max, stream, arrivals[..n]).recent, cap, stream, arrivals[n]), k, i)
  {
    var front, a, s := arrivals[..n], arrivals[n], stream[k];
    var recent := Run(cap, max, stream, front).recent;
    GroupIsHeld(cap, max, stream, arrivals, k, i, n);
    hide *;
    var m, l, r := OneMissing(recent, s, a.first, a.last, i, a.fecSeq, a.groupIndex, a.groupCount);
    BringsRescue(recent, cap, stream, a, i, r);
  }

  lemma GroupIsHeld(cap: nat, max: nat, stream: seq<Sent>, arrivals: seq<Arrival>, k: nat, i: nat, n: nat)
    requires ValidStream(stream) && SeqsApart(stream) && ValidArrivals(stream, arrivals)
    requires n < |arrivals| && 0 < cap
    requires k < |stream| && i < stream[k].Count() && Rescued(arrivals, cap, k, i, n)
    ensures stream[k].Valid() && ValidArrivals(stream, arrivals[..n]) && ValidArrival(stream, arrivals[n])
    ensures var a, recent := arrivals[n], Run(cap, max, stream, arrivals[..n]).recent;
      && a.Fec? && a.frame == k && a.first <= i < a.last && a.first + 2 <= a.last <= stream[k].Count()
      && Faithful(recent, stream[k], a.first, a.last)
      && forall l :: a.first <= l < a.last && l != i ==> Has(recent, stream[k], l)
  {
    hide Run, SeqsApart, HoldsCopies, Faithful, Has, InReach;
    var front, a, s := arrivals[..n], arrivals[n], stream[k];
    var recent := Run(cap, max, stream, front).recent;
    RunReaches(cap, max, stream, front);
    CopiesAreFaithful(recent, stream, k, a.first, a.last);
    forall l | a.first <= l < a.last && l != i
      ensures Has(recent, s, l)
    {
      InReachIsHeld(cap, max, stream, front, k, l);
    }
  }

  lemma BringsRescue(recent: seq<Bytes>, cap: nat, stream: seq<Sent>, a: Arrival, i: nat, r: bool)
    requires ValidStream(stream) && ValidArrival(stream, a) && a.Fec? && cap > 0 && a.first <= i < a.last
    requires Rescues(FD.Decide(recent, stream[a.frame].Fec(a.first, a.last, a.fecSeq, a.groupIndex, a.groupCount)), stream[a.frame], i, r)
    ensures Gives(Brings(recent, cap, stream, a), a.frame, i)
  {
    hide FD.Decide;
    var s := stream[a.frame];
    var x := Brings(recent, cap, stream, a)[0];
    OnlyOneCopy(s, x.frag, x.retransmitted, i, r);
  }

  lemma SameImage(stream: seq<Sent>, x: Item, k: nat, i: nat, r: bool)
    requires ValidStream(stream) && SeqsApart(stream) && ValidItem(stream, x)
    requires k < |stream| && i < stream[k].Count() && Image(stream, x) == stream[k].Copy(i, r)
    ensures x.frame == k && x.frag == i
  {
    hide FragmentCount, FD.AsMember, Payload, ParsePacketHeader, Wrap, FragmentPacket;
    var s, t := stream[k], stream[x.frame];
    CopyAsMember(s, i, i + 1, i, r);
    CopyAsMember(t, x.frag, x.frag + 1, x.frag, x.retransmitted);
    assert SeqOf(stream, k, i) == SeqOf(stream, x.frame, x.frag);
  }

  // ----- Exactly what reaches the assembler in time -----

  lemma {:induction false} DataAt(stream: seq<Sent>, arrivals: seq<Arrival>, p: nat) returns (m: nat)
    requires ValidStream(stream) && ValidArrivals(stream, arrivals) && p < DataCount(arrivals)
    ensures m < |arrivals| && arrivals[m].Data? && DataCount(arrivals[..m]) == p
    ensures DataImages(stream, arrivals)[p] == Image(stream, arrivals[m].item)
    decreases |arrivals|
  {
    hide Image, ValidStream;
    var n := |arrivals| - 1;
    if p < DataCount(arrivals[..n]) {
      m := DataAt(stream, arrivals[..n], p);
      assert arrivals[..n][..m] == arrivals[..m];
    } else {
      m := n;
    }
  }

  /** What the FEC buffer holds arrived recently. */
  lemma HeldIsInReach(cap: nat, max: nat, stream: seq<Sent>, arrivals: seq<Arrival>, k: nat, i: nat)
    requires ValidStream(stream) && SeqsApart(stream) && ValidArrivals(stream, arrivals) && 0 < cap
    requires k < |stream| && i < stream[k].Count() && Has(Run(cap, max, stream, arrivals).recent, stream[k], i)
    ensures InReach(arrivals, cap, k, i)
  {
    hide Run, DataImages, DataCount, SeqsApart, Image;
    BufferIsLast(cap, max, stream, arrivals);
    var ps := DataImages(stream, arrivals);
    var recent := FD.Last(ps, cap);
    var c: bool :| stream[k].Copy(i, c) in recent;
    var q :| 0 <= q < |recent| && recent[q] == stream[k].Copy(i, c);
    var p := q + |ps| - |recent|;
    assert ps[p] == recent[q];
    var m := DataAt(stream, arrivals, p);
    SameImage(stream, arrivals[m].item, k, i, c);
    assert IsCopy(arrivals[m], k, i);
  }

  /** An FEC packet that brings a fragment rescues it. */
  lemma OnlyRescuesAreBrought(cap: nat, max: nat, stream: seq<Sent>, arrivals: seq<Arrival>, n: nat)
    requires ValidStream(stream) && SeqsApart(stream) && ValidArrivals(stream, arrivals) && n < |arrivals| && arrivals[n].Fec?
    requires ValidArrivals(stream, arrivals[..n]) && ValidArrival(stream, arrivals[n])
    requires Brings(Run(cap, max, stream, arrivals[..n]).recent, cap, stream, arrivals[n]) != []
    ensures cap > 0
    ensures var x := Brings(Run(cap, max, stream, arrivals[..n]).recent, cap, stream, arrivals[n])[0];
      Rescued(arrivals, cap, x.frame, x.frag, n)
  {
    hide *;
    var front, a := arrivals[..n], arrivals[n];
    var k, recent := a.frame, Run(cap, max, stream, front).recent;
    RunReaches(cap, max, stream, front);
    FecInRange(stream, a);
    CopiesAreFaithful(recent, stream, k, a.first, a.last);
    var j, c := NeverInvents(recent, stream[k], a.first, a.last, a.fecSeq, a.groupIndex, a.groupCount);
    var x := Brings(recent, cap, stream, a)[0];
    BringsRecovered(recent, cap, stream, a);
    OnlyOneCopy(stream[k], x.frag, x.retransmitted, j, c);
    forall l | a.first <= l < a.last && l != j
      ensures InReach(front, cap, k, l)
    {
      HeldIsInReach(cap, max, stream, front, k, l);
    }
    RescuedBy(arrivals, cap, n, j);
  }

  lemma FecInRange(stream: seq<Sent>, a: Arrival)
    requires ValidStream(stream) && ValidArrival(stream, a) && a.Fec?
    ensures a.frame < |stream| && stream[a.frame].Valid() && a.first + 2 <= a.last <= stream[a.frame].Count()
  {
  }

  lemma BringsRecovered(recent: seq<Bytes>, cap: nat, stream: seq<Sent>, a: Arrival)
    requires ValidStream(stream) && ValidArrival(stream, a) && a.Fec? && Brings(recent, cap, stream, a) != []
    ensures cap > 0
    ensures var x := Brings(recent, cap, stream, a)[0];
      && x.frame == a.frame < |stream| && stream[x.frame].Valid() && a.first <= x.frag < a.last
      && a.first + 2 <= a.last <= stream[a.frame].Count()
      && FD.Decide(recent, stream[a.frame].Fec(a.first, a.last, a.fecSeq, a.groupIndex, a.groupCount))
         == FD.Recovered(stream[a.frame].Copy(x.frag, x.retransmitted))
  {
    hide FD.Decide, FragmentCount;
  }

  lemma RescuedBy(arrivals: seq<Arrival>, cap: nat, n: nat, i: nat)
    requires n < |arrivals| && arrivals[n].Fec? && arrivals[n].first <= i < arrivals[n].last
    requires forall l :: arrivals[n].first <= l < arrivals[n].last && l != i ==> InReach(arrivals[..n], cap, arrivals[n].frame, l)
    ensures Rescued(arrivals, cap, arrivals[n].frame, i, n)
  {
  }

  lemma {:induction false} ArrivedIsSeen(stream: seq<Sent>, arrivals: seq<Arrival>, k: nat, i: nat)
    requires ValidArrivals(stream, arrivals) && k < |stream| && Arrived(arrivals, k, i)
    ensures Number(stream[k]) in Seen(stream, arrivals)
    decreases |arrivals|
  {
    hide Number, FragmentCount;
    var m :| 0 <= m < |arrivals| && IsCopy(arrivals[m], k, i);
    if m < |arrivals| - 1 {
      assert IsCopy(arrivals[..|arrivals| - 1][m], k, i);
      ArrivedIsSeen(stream, arrivals[..|arrivals| - 1], k, i);
    }
  }

  /** A rescue follows an arrival of the same frame. */
  lemma RescueNeedsArrival(cap: nat, stream: seq<Sent>, arrivals: seq<Arrival>, k: nat, i: nat, n: nat)
    requires ValidArrivals(stream, arrivals) && n < |arrivals| && Rescued(arrivals, cap, k, i, n)
    ensures k < |stream| && ValidArrivals(stream, arrivals[..n]) && Number(stream[k]) in Seen(stream, arrivals[..n])
    ensures cap > 0
  {
    hide Number, Seen, DataCount;
    var a := arrivals[n];
    assert ValidArrival(stream, a);
    var l := if i == a.first then a.first + 1 else a.first;
    assert InReach(arrivals[..n], cap, k, l);
    var m :| 0 <= m < n && IsCopy(arrivals[..n][m], k, l) && DataCount(arrivals[..n]) - DataCount(arrivals[..n][..m]) <= cap;
    CountsUp(arrivals[..n], m);
    ReachedArrived(arrivals[..n], cap, k, l);
    ArrivedIsSeen(stream, arrivals[..n], k, l);
  }

  lemma {:induction false} CountsUp(arrivals: seq<Arrival>, m: nat)
    requires m < |arrivals| && arrivals[m].Data?
    ensures DataCount(arrivals[..m]) < DataCount(arrivals)
    decreases |arrivals|
  {
    var n := |arrivals| - 1;
    if m < n {
      CountsUp(arrivals[..n], m);
      assert arrivals[..n][..m] == arrivals[..m];
    }
  }

  lemma {:induction false} SeenGrows(stream: seq<Sent>, arrivals: seq<Arrival>, m: nat)
    requires ValidArrivals(stream, arrivals) && m <= |arrivals|
    ensures Seen(stream, arrivals[..m]) <= Seen(stream, arrivals)
    decreases |arrivals|
  {
    hide Number, FragmentCount;
    var n := |arrivals| - 1;
    if m <= n {
      SeenGrows(stream, arrivals[..n], m);
      assert arrivals[..n][..m] == arrivals[..m];
    } else {
      assert arrivals[..m] == arrivals;
    }
  }

  lemma TimelyEarlier(max: nat, stream: seq<Sent>, arrivals: seq<Arrival>, k: nat, m: nat)
    requires ValidArrivals(stream, arrivals) && k < |stream| && m <= |arrivals| && Timely(max, stream, arrivals, k)
    ensures Timely(max, stream, arrivals[..m], k)
  {
    hide Seen, Number, Above;
    SeenGrows(stream, arrivals, m);
    AboveGrows(Seen(stream, arrivals[..m]), Seen(stream, arrivals), Number(stream[k]));
  }

  /** What has arrived of a frame that is still in time was brought in time. */
  lemma ArrivedIsBrought(cap: nat, max: nat, stream: seq<Sent>, arrivals: seq<Arrival>, k: nat, i: nat)
    requires ValidArrivals(stream, arrivals) && k < |stream| && Arrived(arrivals, k, i) && Timely(max, stream, arrivals, k)
    ensures Brought(cap, max, stream, arrivals, k, i)
  {
    hide Timely, Rescued;
    var m :| 0 <= m < |arrivals| && IsCopy(arrivals[m], k, i);
    TimelyEarlier(max, stream, arrivals, k, m);
    assert BroughtBy(cap, max, stream, arrivals, k, i, m);
  }

  lemma BroughtMore(cap: nat, max: nat, stream: seq<Sent>, arrivals: seq<Arrival>, k: nat, i: nat)
    requires ValidArrivals(stream, arrivals) && k < |stream| && arrivals != []
    ensures var n := |arrivals| - 1;
      Brought(cap, max, stream, arrivals, k, i)
      <==> Brought(cap, max, stream, arrivals[..n], k, i) || BroughtBy(cap, max, stream, arrivals, k, i, n)
  {
    hide Timely, InReach, IsCopy;
    var n := |arrivals| - 1;
    forall m | 0 <= m < n
      ensures BroughtBy(cap, max, stream, arrivals[..n], k, i, m) == BroughtBy(cap, max, stream, arrivals, k, i, m)
    {
      assert arrivals[..n][..m] == arrivals[..m];
    }
    hide BroughtBy;
    if m :| 0 <= m < n && BroughtBy(cap, max, stream, arrivals[..n], k, i, m) {
      assert BroughtBy(cap, max, stream, arrivals, k, i, m);
    }
    if m :| 0 <= m < n && BroughtBy(cap, max, stream, arrivals, k, i, m) {
      assert BroughtBy(cap, max, stream, arrivals[..n], k, i, m);
    }
  }

  ghost predicate Gives(more: seq<Item>, k: nat, i: nat) {
    more != [] && more[0].frame == k && more[0].frag == i
  }

  /** Offering at most one fragment more. */
  lemma InTimeMore(max: nat, stream: seq<Sent>, items: seq<Item>, more: seq<Item>, k: nat, i: nat)
    requires ValidItems(stream, items) && ValidItems(stream, more) && |more| <= 1 && k < |stream|
    ensures ValidItems(stream, items + more) && (more != [] ==> more[0].frame < |stream|)
    ensures FragmentInTime(max, stream, items + more, k, i)
      <==> FragmentInTime(max, stream, items, k, i) || (Gives(more, k, i) && InTime(max, stream, items, k))
    ensures Numbers(stream, items + more)
         == Numbers(stream, items) + if more == [] then {} else {Number(stream[more[0].frame])}
  {
    hide InTime, Number;
    var all := items + more;
    if more == [] {
      assert all == items && Numbers(stream, items) + {} == Numbers(stream, items);
    } else {
      assert all[..|all| - 1] == items && all[|all| - 1] == more[0];
      GotMeans(max, stream, all, k, i);
      GotMeans(max, stream, items, k, i);
    }
  }

  /** One arrival brings exactly a copy of its fragment, or what its FEC packet makes up for. */
  lemma OneArrivalBrings(cap: nat, max: nat, stream: seq<Sent>, arrivals: seq<Arrival>, k: nat, i: nat)
    requires ValidStream(stream) && SeqsApart(stream) && ValidArrivals(stream, arrivals) && arrivals != []
    requires k < |stream| && i < stream[k].Count()
    ensures var n := |arrivals| - 1;
      && ValidArrivals(stream, arrivals[..n]) && ValidArrival(stream, arrivals[n])
      && var more := Brings(Run(cap, max, stream, arrivals[..n]).recent, cap, stream, arrivals[n]);
      && |more| <= 1
      && (Gives(more, k, i) ==> IsCopy(arrivals[n], k, i) || Rescued(arrivals, cap, k, i, n))
      && (IsCopy(arrivals[n], k, i) ==> Gives(more, k, i))
      && (Rescued(arrivals, cap, k, i, n) ==> Gives(more, k, i) || Arrived(arrivals[..n], k, i))
  {
    hide Run, SeqsApart, Has, InReach, FD.Decide, Arrived;
    var n := |arrivals| - 1;
    var front, a := arrivals[..n], arrivals[n];
    var recent := Run(cap, max, stream, front).recent;
    var more := Brings(recent, cap, stream, a);
    if more != [] && a.Fec? { OnlyRescuesAreBrought(cap, max, stream, arrivals, n); }
    if Rescued(arrivals, cap, k, i, n) {
      RescueNeedsArrival(cap, stream, arrivals, k, i, n);
      if Has(recent, stream[k], i) {
        HeldIsInReach(cap, max, stream, front, k, i);
        ReachedArrived(front, cap, k, i);
      } else {
        RescuedReaches(cap, max, stream, arrivals, k, i, n);
      }
    }
  }

  /** The frames the assembler sees are those of which DATA packets arrived. */
  lemma {:induction false} SeenIsReached(cap: nat, max: nat, stream: seq<Sent>, arrivals: seq<Arrival>)
    requires ValidStream(stream) && SeqsApart(stream) && ValidArrivals(stream, arrivals)
    ensures Numbers(stream, Reached(cap, max, stream, arrivals)) == Seen(stream, arrivals)
    decreases |arrivals|
  {
    hide *;
    if arrivals == [] {
      NothingSeen(cap, max, stream);
    } else {
      var n := |arrivals| - 1;
      OneMoreArrival(cap, max, stream, arrivals);
      SeenIsReached(cap, max, stream, arrivals[..n]);
      SeenMore(cap, max, stream, arrivals);
      InTimeMore(max, stream, Reached(cap, max, stream, arrivals[..n]),
                 Brings(Run(cap, max, stream, arrivals[..n]).recent, cap, stream, arrivals[n]), 0, 0);
    }
  }

  lemma NothingSeen(cap: nat, max: nat, stream: seq<Sent>)
    requires ValidStream(stream)
    ensures ValidArrivals(stream, []) && Numbers(stream, Reached(cap, max, stream, [])) == Seen(stream, [])
  {
  }

  lemma SeenMore(cap: nat, max: nat, stream: seq<Sent>, arrivals: seq<Arrival>)
    requires ValidStream(stream) && SeqsApart(stream) && ValidArrivals(stream, arrivals) && arrivals != []
    ensures var n := |arrivals| - 1;
      && ValidArrivals(stream, arrivals[..n]) && ValidArrival(stream, arrivals[n]) && stream != []
      && var more := Brings(Run(cap, max, stream, arrivals[..n]).recent, cap, stream, arrivals[n]);
      && |more| <= 1 && (more != [] ==> more[0].frame < |stream|)
      && Seen(stream, arrivals) == Seen(stream, arrivals[..n]) + if more == [] then {} else {Number(stream[more[0].frame])}
  {
    hide *;
    var n := |arrivals| - 1;
    OneMoreSeen(stream, arrivals);
    var recent := Run(cap, max, stream, arrivals[..n]).recent;
    BringsAtMostOne(recent, cap, stream, arrivals[n]);
    var more := Brings(recent, cap, stream, arrivals[n]);
    if arrivals[n].Fec? {
      assert Seen(stream, arrivals[..n]) + {} == Seen(stream, arrivals[..n]);
      if more != [] {
        OnlyRescuesAreBrought(cap, max, stream, arrivals, n);
        RescueNeedsArrival(cap, stream, arrivals, more[0].frame, more[0].frag, n);
      }
    }
  }

  lemma OneMoreSeen(stream: seq<Sent>, arrivals: seq<Arrival>)
    requires ValidArrivals(stream, arrivals) && arrivals != []
    ensures var n := |arrivals| - 1;
      && ValidArrivals(stream, arrivals[..n]) && ValidArrival(stream, arrivals[n]) && stream != []
      && (arrivals[n].Data? ==> arrivals[n].item.frame < |stream|)
      && Seen(stream, arrivals)
         == Seen(stream, arrivals[..n]) + if arrivals[n].Data? then {Number(stream[arrivals[n].item.frame])} else {}
  {
    hide Number, FragmentCount;
    var n := |arrivals| - 1;
    assert ValidArrival(stream, arrivals[n]);
    if arrivals[n].Fec? { assert Seen(stream, arrivals[..n]) + {} == Seen(stream, arrivals[..n]); }
  }

  lemma BringsAtMostOne(recent: seq<Bytes>, cap: nat, stream: seq<Sent>, a: Arrival)
    requires ValidStream(stream) && ValidArrival(stream, a)
    ensures var more := Brings(recent, cap, stream, a);
      |more| <= 1 && (more != [] ==> more[0].frame < |stream|) && (a.Data? ==> more == [a.item])
  {
    hide FD.Decide;
  }

  /** A fragment reaches the assembler in time exactly if it arrived or was rescued in time. */
  lemma {:induction false} BroughtIsReached(cap: nat, max: nat, stream: seq<Sent>, arrivals: seq<Arrival>, k: nat, i: nat)
    requires ValidStream(stream) && SeqsApart(stream) && ValidArrivals(stream, arrivals)
    requires k < |stream| && i < stream[k].Count()
    ensures FragmentInTime(max, stream, Reached(cap, max, stream, arrivals), k, i) <==> Brought(cap, max, stream, arrivals, k, i)
    decreases |arrivals|
  {
    hide *;
    if arrivals == [] {
      NothingBrought(cap, max, stream, k, i);
    } else {
      var n := |arrivals| - 1;
      var front := arrivals[..n];
      OneMoreArrival(cap, max, stream, arrivals);
      BroughtIsReached(cap, max, stream, front, k, i);
      OneArrivalBrings(cap, max, stream, arrivals, k, i);
      var items := Reached(cap, max, stream, front);
      InTimeMore(max, stream, items, Brings(Run(cap, max, stream, front).recent, cap, stream, arrivals[n]), k, i);
      TimelyIsInTime(cap, max, stream, front, k);
      BroughtMore(cap, max, stream, arrivals, k, i);
      BroughtByMeans(cap, max, stream, arrivals, k, i, n);
      if Arrived(front, k, i) && Timely(max, stream, front, k) { ArrivedIsBrought(cap, max, stream, front, k, i); }
    }
  }

  lemma NothingBrought(cap: nat, max: nat, stream: seq<Sent>, k: nat, i: nat)
    requires ValidStream(stream) && k < |stream|
    ensures ValidArrivals(stream, []) && !FragmentInTime(max, stream, Reached(cap, max, stream, []), k, i)
    ensures !Brought(cap, max, stream, [], k, i)
  {
  }

  lemma TimelyIsInTime(cap: nat, max: nat, stream: seq<Sent>, arrivals: seq<Arrival>, k: nat)
    requires ValidStream(stream) && SeqsApart(stream) && ValidArrivals(stream, arrivals) && k < |stream|
    ensures InTime(max, stream, Reached(cap, max, stream, arrivals), k) <==> Timely(max, stream, arrivals, k)
  {
    hide Number, Numbers, Seen, Reached, SeqsApart, ValidStream;
    SeenIsReached(cap, max, stream, arrivals);
  }

  lemma BroughtByMeans(cap: nat, max: nat, stream: seq<Sent>, arrivals: seq<Arrival>, k: nat, i: nat, n: nat)
    requires ValidArrivals(stream, arrivals) && k < |stream| && n < |arrivals|
    ensures ValidArrivals(stream, arrivals[..n])
    ensures BroughtBy(cap, max, stream, arrivals, k, i, n)
      <==> (IsCopy(arrivals[n], k, i) || Rescued(arrivals, cap, k, i, n)) && Timely(max, stream, arrivals[..n], k)
  {
  }

  lemma RepairedIsInTime(cap: nat, max: nat, stream: seq<Sent>, arrivals: seq<Arrival>, k: nat)
    requires ValidStream(stream) && SeqsApart(stream) && ValidArrivals(stream, arrivals) && k < |stream|
    ensures CameInTime(max, stream, Reached(cap, max, stream, arrivals), k) <==> Repaired(cap, max, stream, arrivals, k)
  {
    hide FragmentInTime, Brought, Reached, SeqsApart, ValidStream, FragmentCount;
    forall i | 0 <= i < stream[k].Count()
      ensures FragmentInTime(max, stream, Reached(cap, max, stream, arrivals), k, i) <==> Brought(cap, max, stream, arrivals, k, i)
    {
      BroughtIsReached(cap, max, stream, arrivals, k, i);
    }
  }

  // ----- The theorem -----

  /** Every frame number that reaches the assembler is within half a turn of the entries and the watermark it
      meets there. */
  ghost predicate StaysInWindow(cap: nat, max: nat, stream: seq<Sent>, arrivals: seq<Arrival>)
    requires ValidStream(stream) && ValidArrivals(stream, arrivals)
  {
    InWindow(max, stream, Reached(cap, max, stream, arrivals))
  }

  /** End-to-end repair, for a stream of any length. Frames cut and numbered by the packetizer (any base, across
      the 32-bit wrap); any run of copies of their fragments, original or retransmitted, and of their FEC
      packets, in any order, lossy and with repetitions, however long, whose frame numbers stay in the window.
      The receiver delivers only frames that were sent, each at most once and with the sent bytes, key mark,
      number and time stamp. It delivers exactly those each of whose fragments arrived, or lay in a group all
      of whose other fragments were among the last `cap` DATA arrivals when its FEC packet came, at a moment
      when DATA packets of fewer than `max` newer frames had arrived. */
  lemma DeliversRepaired(cap: nat, max: nat, stream: seq<Sent>, arrivals: seq<Arrival>) returns (order: seq<nat>)
    requires ValidStream(stream) && SeqsApart(stream) && ValidArrivals(stream, arrivals)
    requires max >= 1 && StaysInWindow(cap, max, stream, arrivals)
    ensures forall k :: k in order ==> k < |stream|
    ensures forall a, b :: 0 <= a < b < |order| ==> order[a] != order[b]
    ensures Run(cap, max, stream, arrivals).assembler.table.ready == Wholes(stream, order)
    ensures forall k :: 0 <= k < |stream| ==> (k in order <==> Repaired(cap, max, stream, arrivals, k))
  {
    hide Run, Reached, Wholes, Completions, ValidStream, SeqsApart, Assemble, Repaired, CameInTime, InWindow;
    var items := Reached(cap, max, stream, arrivals);
    order := Completions(max, stream, items);
    RunReaches(cap, max, stream, arrivals);
    AnyOrder(max, stream, items);
    forall k | 0 <= k < |stream|
      ensures k in order <==> Repaired(cap, max, stream, arrivals, k)
    {
      RepairedIsInTime(cap, max, stream, arrivals, k);
    }
  }

  /** In the window the assembler's search for its oldest entry has one answer, so the receiver has no choice:
      `ReceiverPipeline.ReceiveLoop.OnDatagram` takes exactly the steps of `Run`. */
  lemma ScanHasOneAnswer(cap: nat, max: nat, stream: seq<Sent>, arrivals: seq<Arrival>, scan: u32)
    requires ValidStream(stream) && SeqsApart(stream) && ValidArrivals(stream, arrivals)
    requires max >= 1 && StaysInWindow(cap, max, stream, arrivals)
    ensures Ordered(Run(cap, max, stream, arrivals).assembler.table.pending.Keys)
    ensures Scanned(Run(cap, max, stream, arrivals).assembler.table.pending.Keys, scan)
      <==> scan == Scan(Run(cap, max, stream, arrivals).assembler.table)
  {
    hide Run, Reached, ValidStream, SeqsApart, Ordered, SomeOldest, Assemble, Arrivals, AR.Wire, AR.Ideal, AR.WrapTable, AR.Ids;
    var as_ := Arrivals(stream, Reached(cap, max, stream, arrivals));
    RunReaches(cap, max, stream, arrivals);
    AssembleIsWire(max, stream, Reached(cap, max, stream, arrivals));
    AR.WireRefinesIdeal(max, as_);
    AR.KeysAreOrdered(AR.Ideal(max, as_));
  }

  /** No frame is ever late while the stream has no more frames than the assembler's table. */
  lemma FewFramesAreTimely(max: nat, stream: seq<Sent>, arrivals: seq<Arrival>, k: nat)
    requires ValidArrivals(stream, arrivals) && k < |stream| <= max
    ensures Timely(max, stream, arrivals, k)
  {
    hide Number, Seen, StreamNumbers;
    var all, newer := StreamNumbers(stream), Above(Seen(stream, arrivals), Number(stream[k]));
    SeenIsTheStreams(stream, arrivals);
    assert newer <= all - {Number(stream[k])};
    SubsetSmaller(newer, all - {Number(stream[k])});
    SubsetSmaller({Number(stream[k])}, all);
  }

  lemma {:induction false} SeenIsTheStreams(stream: seq<Sent>, arrivals: seq<Arrival>)
    requires ValidArrivals(stream, arrivals)
    ensures Seen(stream, arrivals) <= StreamNumbers(stream)
    decreases |arrivals|
  {
    hide Number, StreamNumbers, FragmentCount;
    if arrivals != [] { SeenIsTheStreams(stream, arrivals[..|arrivals| - 1]); }
  }

  /** Frame numbers within half a turn of one another stay in the window, whatever arrives. */
  lemma CloseFramesStayInWindow(cap: nat, max: nat, stream: seq<Sent>, arrivals: seq<Arrival>)
    requires ValidStream(stream) && ValidArrivals(stream, arrivals) && max >= 1
    requires forall j, k :: 0 <= j < |stream| && 0 <= k < |stream| ==> Near(Number(stream[j]), Number(stream[k]))
    ensures StaysInWindow(cap, max, stream, arrivals)
  {
    hide Reached, Number, InWindow;
    CloseFramesAreInWindow(max, stream, Reached(cap, max, stream, arrivals));
  }

  // ----- What the sender's encoder and numbering provide -----

  /** Frames packetized one after the other, fewer than 2^32 fragments in all, share no number. */
  ghost predicate NumberedInOrder(stream: seq<Sent>) {
    && (forall k :: 0 < k < |stream| ==> stream[k].base == stream[k - 1].base + stream[k - 1].Count())
    && (stream != [] ==> var z := stream[|stream| - 1]; z.base + z.Count() - stream[0].base <= MOD)
  }

  lemma {:induction false} BasesAscend(stream: seq<Sent>, j: nat, k: nat)
    requires NumberedInOrder(stream) && j < k < |stream|
    ensures stream[j].base + stream[j].Count() <= stream[k].base
    decreases k - j
  {
    hide FragmentCount;
    if j + 1 < k { BasesAscend(stream, j, k - 1); }
    assert stream[k].base == stream[k - 1].base + stream[k - 1].Count();
  }

  lemma NumbersAreApart(stream: seq<Sent>)
    requires NumberedInOrder(stream)
    ensures SeqsApart(stream)
  {
    hide FragmentCount;
    forall j, i, k, l | 0 <= j < |stream| && 0 <= i < stream[j].Count() && 0 <= k < |stream| && 0 <= l < stream[k].Count()
      && SeqOf(stream, j, i) == SeqOf(stream, k, l)
      ensures j == k && i == l
    {
      var last := |stream| - 1;
      if j < k { BasesAscend(stream, j, k); }
      if k < j { BasesAscend(stream, k, j); }
      if j < last { BasesAscend(stream, j, last); }
      if k < last { BasesAscend(stream, k, last); }
      if 0 < j { BasesAscend(stream, 0, j); }
      if 0 < k { BasesAscend(stream, 0, k); }
      WrapInjective(stream[j].base + i, stream[k].base + l);
    }
  }

  function JobOf(s: Sent): FE.Job
    requires s.Valid()
  {
    FE.Job(FramePackets(s.streamId, s.base, s.frame), Wrap(s.base), s.streamId, Wrap(s.frame.captureMs))
  }

  /** The packetizer's packets are the original copies. */
  lemma PacketizerSends(s: Sent)
    requires s.Valid()
    ensures FE.AllHaveHeaders(FramePackets(s.streamId, s.base, s.frame))
    ensures forall i :: 0 <= i < s.Count() ==> FramePackets(s.streamId, s.base, s.frame)[i] == s.Copy(i, false)
    ensures FE.Payloads(FramePackets(s.streamId, s.base, s.frame)) == s.Slice(0, s.Count())
  {
    hide Payload, DataImage, FragmentCount;
    var ps := FramePackets(s.streamId, s.base, s.frame);
    forall i | 0 <= i < s.Count()
      ensures ps[i] == s.Copy(i, false) && |ps[i]| >= DATA_PAYLOAD && FE.PayloadOf(ps[i]) == Payload(s.frame, i)
    {
      DataImageRoundTrip(FragmentHeader(s.streamId, Wrap(s.base + i), s.frame), s.Data(i, false), Payload(s.frame, i));
    }
  }

  /** The FEC encoder's packet for group `g` of the packetizer's packets is the FEC packet of that
      group's fragments. */
  lemma EncoderSends(c: FE.Config, s: Sent, g: nat, fecSeq: u32)
    requires s.Valid() && c.groupSize > 0 && FE.First(c.groupSize, g) <= s.Count()
    ensures FE.ValidJob(JobOf(s))
    ensures FE.GroupPacket(c, JobOf(s), g, fecSeq)
         == s.Fec(FE.First(c.groupSize, g), Min(FE.First(c.groupSize, g) + c.groupSize, s.Count()), fecSeq,
                  g % 256, FE.GroupCount(s.Count(), c.groupSize) % 256)
  {
    PacketizerSends(s);
    var ps := FramePackets(s.streamId, s.base, s.frame);
    hide FE.First, FE.GroupCount, FE.FecImage, FragmentCount, FramePackets;
    var first := FE.First(c.groupSize, g);
    var last := Min(first + c.groupSize, s.Count());
    SliceOfPayloads(ps, s, first, last);
    assert FE.Group(ps, c.groupSize, g) == ps[first..last];
    AddWrapped(s.base, first);
  }

  lemma SliceOfPayloads(ps: seq<Bytes>, s: Sent, first: nat, last: nat)
    requires s.Valid() && FE.AllHaveHeaders(ps) && FE.Payloads(ps) == s.Slice(0, s.Count()) && first <= last <= s.Count()
    ensures FE.AllHaveHeaders(ps[first..last]) && FE.Payloads(ps[first..last]) == s.Slice(first, last)
  {
    hide FE.PayloadOf, Payload, FragmentCount;
    forall i | 0 <= i < last - first
      ensures FE.Payloads(ps[first..last])[i] == s.Slice(first, last)[i]
    {
      assert FE.Payloads(ps)[first + i] == s.Slice(0, s.Count())[first + i];
    }
  }

  /** Group `g` of frame `k` came through: all of it arrived in time, or it is a protected group and all of it
      but one fragment arrived ahead of its FEC packet, which was in time. */
  ghost predicate GroupComesThrough(c: FE.Config, cap: nat, max: nat, stream: seq<Sent>, arrivals: seq<Arrival>, k: nat, g: nat)
    requires ValidArrivals(stream, arrivals) && k < |stream|
  {
    var first := FE.First(c.groupSize, g);
    var last := Min(first + c.groupSize, stream[k].Count());
    || (forall i :: first <= i < last ==> CopyInTime(max, stream, arrivals, k, i))
    || (last - first >= c.minGroupSize
        && exists n, j :: 0 <= n < |arrivals| && OneLoss(cap, max, stream, arrivals, k, first, last, n, j))
  }

  ghost predicate CopyInTime(max: nat, stream: seq<Sent>, arrivals: seq<Arrival>, k: nat, i: nat)
    requires ValidArrivals(stream, arrivals) && k < |stream|
  {
    exists n :: 0 <= n < |arrivals| && IsCopy(arrivals[n], k, i) && Timely(max, stream, arrivals[..n], k)
  }

  ghost predicate OneLoss(cap: nat, max: nat, stream: seq<Sent>, arrivals: seq<Arrival>, k: nat, first: nat, last: nat, n: nat, j: nat)
    requires ValidArrivals(stream, arrivals) && k < |stream| && n < |arrivals|
  {
    && arrivals[n].Fec? && arrivals[n].frame == k && arrivals[n].first == first && arrivals[n].last == last
    && first <= j < last
    && (forall i :: first <= i < last && i != j ==> InReach(arrivals[..n], cap, k, i))
    && Timely(max, stream, arrivals[..n], k)
  }

  /** With the encoder's own grouping: if every group of the frame comes through, it is repaired. */
  lemma GroupsRepair(c: FE.Config, cap: nat, max: nat, stream: seq<Sent>, arrivals: seq<Arrival>, k: nat)
    requires ValidArrivals(stream, arrivals) && k < |stream| && c.groupSize > 0
    requires forall g :: 0 <= g < FE.GroupCount(stream[k].Count(), c.groupSize) ==>
      GroupComesThrough(c, cap, max, stream, arrivals, k, g)
    ensures Repaired(cap, max, stream, arrivals, k)
  {
    hide Timely, ValidArrivals, FE.GroupCount, FE.First, FragmentCount, Brought, GroupComesThrough;
    var m := stream[k].Count();
    forall i | 0 <= i < m
      ensures Brought(cap, max, stream, arrivals, k, i)
    {
      var g := GroupOf(i, m, c.groupSize);
      GroupBrings(c, cap, max, stream, arrivals, k, g, i);
    }
  }

  lemma GroupBrings(c: FE.Config, cap: nat, max: nat, stream: seq<Sent>, arrivals: seq<Arrival>, k: nat, g: nat, i: nat)
    requires ValidArrivals(stream, arrivals) && k < |stream| && GroupComesThrough(c, cap, max, stream, arrivals, k, g)
    requires FE.First(c.groupSize, g) <= i < Min(FE.First(c.groupSize, g) + c.groupSize, stream[k].Count())
    ensures Brought(cap, max, stream, arrivals, k, i)
  {
    hide Timely, FE.First, FragmentCount, InReach;
    var first := FE.First(c.groupSize, g);
    var last := Min(first + c.groupSize, stream[k].Count());
    if forall l :: first <= l < last ==> CopyInTime(max, stream, arrivals, k, l) {
      assert CopyInTime(max, stream, arrivals, k, i);
      var n :| 0 <= n < |arrivals| && IsCopy(arrivals[n], k, i) && Timely(max, stream, arrivals[..n], k);
      assert BroughtBy(cap, max, stream, arrivals, k, i, n);
    } else {
      var n, j :| 0 <= n < |arrivals| && OneLoss(cap, max, stream, arrivals, k, first, last, n, j);
      if i == j {
        assert BroughtBy(cap, max, stream, arrivals, k, i, n);
      } else {
        ReachedArrived(arrivals[..n], cap, k, i);
        ArrivedIsBrought(cap, max, stream, arrivals[..n], k, i);
        BroughtEarlier(cap, max, stream, arrivals, k, i, n);
      }
    }
  }

  lemma BroughtEarlier(cap: nat, max: nat, stream: seq<Sent>, arrivals: seq<Arrival>, k: nat, i: nat, n: nat)
    requires ValidArrivals(stream, arrivals) && k < |stream| && n <= |arrivals|
    requires Brought(cap, max, stream, arrivals[..n], k, i)
    ensures Brought(cap, max, stream, arrivals, k, i)
  {
    hide Timely, InReach;
    var m :| 0 <= m < n && BroughtBy(cap, max, stream, arrivals[..n], k, i, m);
    assert arrivals[..n][..m] == arrivals[..m];
    assert BroughtBy(cap, max, stream, arrivals, k, i, m);
  }

  lemma ReachedArrived(arrivals: seq<Arrival>, cap: nat, k: nat, i: nat)
    requires InReach(arrivals, cap, k, i)
    ensures Arrived(arrivals, k, i)
  {
  }

  lemma GroupOf(i: nat, m: nat, size: nat) returns (g: nat)
    requires i < m && size > 0
    ensures g < FE.GroupCount(m, size)
    ensures FE.First(size, g) <= i < Min(FE.First(size, g) + size, m)
  {
    g := i / size;
    assert i == size * (i / size) + i % size;
    FE.GroupExists(m, size, g);
  }
}
