/**
 Which groups of a frame get an FEC packet, which number it has, and what a frame needs
 of the packets the encoder really sends.
 */
module FecGroups {
  import opened Basics
  import opened Cyclic
  import opened Packet
  import opened Packetizer
  import opened FecEncoder
  import opened FecRecovery
  import opened Reassembly
  import E = EndToEnd

  /** How many packets group `g` of a frame of `m` packets has. */
  function Size(size: nat, m: nat, g: nat): int {
    Min(size, m - g * size)
  }

  lemma NextGroup(size: nat, n: nat)
    requires n > 0
    ensures n * size == (n - 1) * size + size
    ensures n > 1 ==> (n - 1) * size == (n - 2) * size + size
  {
  }

  /** All groups but the last are of full size: so all of the first `n` have packets, or all but the last of
      them, or none. */
  lemma {:induction false} PacketsUpTo(c: Config, j: Job, fecSeq: u32, n: nat)
    requires c.groupSize > 0 && ValidJob(j) && n <= GroupCount(|j.packets|, c.groupSize)
    ensures |GroupPackets(c, j, fecSeq, n)|
         == if c.groupSize < c.minGroupSize then 0
            else if n > 0 && |j.packets| - (n - 1) * c.groupSize < c.minGroupSize then n - 1
            else n
    decreases n
  {
    hide GroupPacket, GroupCount;
    if n > 0 {
      PacketsUpTo(c, j, fecSeq, n - 1);
      GroupExists(|j.packets|, c.groupSize, n - 1);
      NextGroup(c.groupSize, n);
    }
  }

  lemma {:induction false} PacketInPlace(c: Config, j: Job, fecSeq: u32, n: nat, g: nat)
    requires c.groupSize > 0 && ValidJob(j) && g < n <= GroupCount(|j.packets|, c.groupSize)
    requires Size(c.groupSize, |j.packets|, g) >= c.minGroupSize
    ensures First(c.groupSize, g) <= |j.packets|
    ensures g < |GroupPackets(c, j, fecSeq, n)|
         && GroupPackets(c, j, fecSeq, n)[g] == GroupPacket(c, j, g, Add(fecSeq, g))
    decreases n
  {
    hide GroupPacket, GroupCount;
    GroupExists(|j.packets|, c.groupSize, g);
    GroupExists(|j.packets|, c.groupSize, n - 1);
    NextGroup(c.groupSize, n);
    if g < n - 1 {
      PacketInPlace(c, j, fecSeq, n - 1, g);
    } else {
      PacketsUpTo(c, j, fecSeq, n - 1);
    }
  }

  /** What the encoder sends for a frame. */
  function Sending(c: Config, s: Sent, fecSeq: u32): seq<Bytes>
    requires s.Valid() && c.groupSize > 0
  {
    E.PacketizerSends(s);
    GroupPackets(c, E.JobOf(s), fecSeq, GroupCount(s.Count(), c.groupSize))
  }

  lemma GroupsCover(m: nat, size: nat, g: nat)
    requires m > 0 && size > 0
    ensures var n := GroupCount(m, size);
      n > 0 && (n - 1) * size < m <= n * size && (g * size < m <==> g < n)
  {
    SomeGroup(m, size);
    GroupExists(m, size, g);
    GroupExists(m, size, GroupCount(m, size));
  }

  /** Group by group: group `g` is the fragments from `g * groupSize` up to the next group or the end; it has an
      FEC packet if and only if these are at least `minGroupSize`; that packet is the `g`-th one, with the `g`-th
      number after `fecSeq`; and there are no other packets. */
  lemma GroupIsProtected(c: Config, s: Sent, fecSeq: u32, g: nat)
    requires s.Valid() && c.groupSize > 0
    ensures var out, n, first := Sending(c, s, fecSeq), GroupCount(s.Count(), c.groupSize), g * c.groupSize;
      var last := Min(first + c.groupSize, s.Count());
      && (n - 1) * c.groupSize < s.Count() <= n * c.groupSize
      && (g < |out| <==> first < s.Count() && last - first >= c.minGroupSize)
      && (g < |out| ==> out[g] == s.Fec(first, last, Add(fecSeq, g), g % 256, n % 256))
  {
    hide GroupPackets, GroupCount, FragmentCount, Add;
    var j, n, first := E.JobOf(s), GroupCount(s.Count(), c.groupSize), g * c.groupSize;
    E.PacketizerSends(s);
    SomeFragment(s);
    GroupsCover(s.Count(), c.groupSize, g);
    PacketsUpTo(c, j, fecSeq, n);
    OnlyTheLastIsShort(s.Count(), c.groupSize, n, g);
    if first < s.Count() && Size(c.groupSize, s.Count(), g) >= c.minGroupSize {
      PacketInPlace(c, j, fecSeq, n, g);
      GroupOnTheWire(c, s, fecSeq, g);
    }
  }

  lemma SomeFragment(s: Sent)
    requires s.Valid()
    ensures s.Count() > 0
  {
  }

  lemma OnlyTheLastIsShort(m: nat, size: nat, n: nat, g: nat)
    requires n > 0 && (n - 1) * size < m <= n * size
    ensures g < n - 1 ==> Size(size, m, g) == size
    ensures g == n - 1 ==> Size(size, m, g) == m - (n - 1) * size
  {
    NextGroup(size, n);
    if g < n - 1 {
      MulMono(g + 1, n - 1, size);
      NextGroup(size, g + 1);
    }
  }

  lemma GroupOnTheWire(c: Config, s: Sent, fecSeq: u32, g: nat)
    requires s.Valid() && c.groupSize > 0 && g * c.groupSize < s.Count()
    ensures ValidJob(E.JobOf(s)) && First(c.groupSize, g) == g * c.groupSize
    ensures GroupPacket(c, E.JobOf(s), g, Add(fecSeq, g))
         == s.Fec(g * c.groupSize, Min(g * c.groupSize + c.groupSize, s.Count()), Add(fecSeq, g), g % 256,
                  GroupCount(s.Count(), c.groupSize) % 256)
  {
    hide GroupPacket, GroupCount, Add;
    E.EncoderSends(c, s, g, Add(fecSeq, g));
  }

  // ----- What the packets sent achieve -----

  /** Group `g` came through: each of its fragments arrived in time, or all but one did ahead of the FEC packet
      that the encoder sent for it, and this came in time. */
  ghost predicate SentGroupComesThrough(c: Config, fecSeq: u32, cap: nat, max: nat, stream: seq<Sent>, arrivals: seq<E.Arrival>,
                                        k: nat, g: nat)
    requires ValidStream(stream) && E.ValidArrivals(stream, arrivals) && k < |stream| && c.groupSize > 0
  {
    var first := g * c.groupSize;
    var last := Min(first + c.groupSize, stream[k].Count());
    || (forall i :: first <= i < last ==> E.CopyInTime(max, stream, arrivals, k, i))
    || (exists n, j :: 0 <= n < |arrivals| && IsSent(c, fecSeq, stream, k, g, arrivals[n])
                       && E.OneLoss(cap, max, stream, arrivals, k, first, last, n, j))
  }

  /** `a` is the packet the encoder sent for group `g` of frame `k`. */
  ghost predicate IsSent(c: Config, fecSeq: u32, stream: seq<Sent>, k: nat, g: nat, a: E.Arrival)
    requires ValidStream(stream) && k < |stream| && c.groupSize > 0
  {
    && E.ValidArrival(stream, a) && g < |Sending(c, stream[k], fecSeq)|
    && E.Datagram(stream, a) == Sending(c, stream[k], fecSeq)[g]
  }

  /** A frame is repaired when each of its groups comes through. */
  lemma SentGroupsRepair(c: Config, fecSeq: u32, cap: nat, max: nat, stream: seq<Sent>, arrivals: seq<E.Arrival>, k: nat)
    requires ValidStream(stream) && E.ValidArrivals(stream, arrivals) && k < |stream| && c.groupSize > 0
    requires forall g :: 0 <= g && g * c.groupSize < stream[k].Count() ==>
      SentGroupComesThrough(c, fecSeq, cap, max, stream, arrivals, k, g)
    ensures E.Repaired(cap, max, stream, arrivals, k)
  {
    hide SentGroupComesThrough, E.GroupComesThrough, E.Repaired, GroupCount, E.ValidArrivals, ValidStream;
    var s := stream[k];
    E.StreamIsValid(stream, k);
    forall g | 0 <= g < GroupCount(s.Count(), c.groupSize)
      ensures E.GroupComesThrough(c, cap, max, stream, arrivals, k, g)
    {
      SomeFragment(s);
      GroupsCover(s.Count(), c.groupSize, g);
      assert SentGroupComesThrough(c, fecSeq, cap, max, stream, arrivals, k, g);
      SentComesThrough(c, fecSeq, cap, max, stream, arrivals, k, g);
    }
    E.GroupsRepair(c, cap, max, stream, arrivals, k);
  }

  lemma SentComesThrough(c: Config, fecSeq: u32, cap: nat, max: nat, stream: seq<Sent>, arrivals: seq<E.Arrival>, k: nat, g: nat)
    requires ValidStream(stream) && E.ValidArrivals(stream, arrivals) && k < |stream| && c.groupSize > 0
    requires SentGroupComesThrough(c, fecSeq, cap, max, stream, arrivals, k, g)
    ensures E.GroupComesThrough(c, cap, max, stream, arrivals, k, g)
  {
    hide E.OneLoss, E.CopyInTime, Sending, E.ValidArrivals, E.Datagram, FragmentCount;
    GroupIsProtected(c, stream[k], fecSeq, g);
  }
}
