/**
 The wire format byte by byte: what is where, and which buffers are accepted
 (modules/transport/Packet.h, Packet.cpp).
 */
module WireFormat {
  import opened Bits
  import opened Cyclic
  import opened Packet
  import opened NackCodec

  /** Two and four bytes as a number, the first one the most significant. */
  function Big16(s: Bytes, at: nat): u16
    requires at + 2 <= |s|
  {
    0x100 * s[at] as int + s[at + 1] as int
  }

  function Big32(s: Bytes, at: nat): u32
    requires at + 4 <= |s|
  {
    0x100_0000 * s[at] as int + 0x1_0000 * s[at + 1] as int + 0x100 * s[at + 2] as int + s[at + 3] as int
  }

  lemma Spells16(s: Bytes, at: nat)
    requires at + 2 <= |s|
    ensures ReadU16(s, at) == Big16(s, at)
  {
  }

  lemma Spells32(s: Bytes, at: nat)
    requires at + 4 <= |s|
    ensures ReadU32(s, at) == Big32(s, at)
  {
  }

  /** The common header: version 1, type 1 to 6, stream, number, time stamp; 12 bytes. */
  lemma PacketHeaderLayout(s: Bytes)
    ensures |s| < 12 ==> ParsePacketHeader(s) == Failure(InvalidArg)
    ensures |s| >= 12 && !(s[0] == 1 && 1 <= s[1] <= 6) ==> ParsePacketHeader(s) == Failure(NetError)
    ensures |s| >= 12 && s[0] == 1 && 1 <= s[1] <= 6 ==>
      ParsePacketHeader(s) == Success(PacketHeader(1, s[1], Big16(s, 2), Big32(s, 4), Big32(s, 8)))
  {
    hide Big16, Big32, ReadU16, ReadU32;
    if |s| >= 12 {
      Spells16(s, 2);
      Spells32(s, 4);
      Spells32(s, 8);
    }
  }

  /** What follows it in a DATA packet: frame, fragment index and count, flags; 9 bytes. */
  lemma DataHeaderLayout(s: Bytes)
    ensures |s| < 9 ==> ParseDataHeader(s) == Failure(InvalidArg)
    ensures |s| >= 9 && Big16(s, 4) >= Big16(s, 6) ==> ParseDataHeader(s) == Failure(NetError)
    ensures |s| >= 9 && Big16(s, 4) < Big16(s, 6) ==>
      ParseDataHeader(s) == Success(DataHeader(Big32(s, 0), Big16(s, 4), Big16(s, 6), s[8]))
  {
    hide Big16, Big32, ReadU16, ReadU32;
    if |s| >= 9 {
      Spells32(s, 0);
      Spells16(s, 4);
      Spells16(s, 6);
    }
  }

  /** What follows it in an FEC packet: first number and size of the group, XOR of the lengths, index and count of
      the group, two reserved bytes; 12 bytes. */
  lemma FecHeaderLayout(s: Bytes)
    ensures |s| < 12 ==> ParseFecHeader(s) == Failure(InvalidArg)
    ensures |s| >= 12 && Big16(s, 4) < 2 ==> ParseFecHeader(s) == Failure(NetError)
    ensures |s| >= 12 && Big16(s, 4) >= 2 ==>
      ParseFecHeader(s) == Success(FecHeader(Big32(s, 0), Big16(s, 4), Big16(s, 6), s[8], s[9], Big16(s, 10)))
  {
    hide Big16, Big32, ReadU16, ReadU32;
    if |s| >= 12 {
      Spells32(s, 0);
      Spells16(s, 4);
      Spells16(s, 6);
      Spells16(s, 10);
    }
  }

  /** A NACK packet: type 3, then the number of entries, 1 to 201, then six bytes each and nothing more. */
  predicate IsNack(s: Bytes) {
    |s| >= 14 && s[0] == 1 && s[1] == 3 && 1 <= Big16(s, 12) <= 201 && |s| == 14 + 6 * Big16(s, 12)
  }

  /** Entry `i` names its first number, and the ones up to 16 after it whose bit is set, bit 0 for the next one. */
  predicate EntryNames(s: Bytes, i: nat, x: u32)
    requires 14 + 6 * (i + 1) <= |s|
  {
    var pid, blp := Big32(s, 14 + 6 * i), Big16(s, 18 + 6 * i);
    x == pid || exists k :: 0 <= k < 16 && x == (pid + 1 + k) % MOD && Bit(blp, k)
  }

  lemma NackLayout(s: Bytes, x: u32)
    ensures ParseNack(s).Success? <==> IsNack(s)
    ensures IsNack(s) ==> (x in ParseNack(s).value <==> exists i :: 0 <= i < Big16(s, 12) && EntryNames(s, i, x))
  {
    hide Big16, Big32, ReadU16, ReadU32, ExpandAll, ReadEntries, EntryNames;
    PacketHeaderLayout(s);
    if |s| >= 14 { Spells16(s, 12); }
    if IsNack(s) { EntriesName(s, Big16(s, 12), x); }
  }

  lemma {:induction false} EntriesName(s: Bytes, n: nat, x: u32)
    requires 14 + 6 * n <= |s|
    ensures x in ExpandAll(ReadEntries(s, n)) <==> exists i :: 0 <= i < n && EntryNames(s, i, x)
  {
    hide Big16, Big32, ReadU16, ReadU32, Expand, ReadEntry, EntryNames;
    if n > 0 {
      EntriesName(s, n - 1, x);
      OneEntryNames(s, n - 1, x);
      var es := ReadEntries(s, n);
      assert es[..n - 1] == ReadEntries(s, n - 1);
    }
  }

  lemma OneEntryNames(s: Bytes, i: nat, x: u32)
    requires 14 + 6 * (i + 1) <= |s|
    ensures x in Expand(ReadEntry(s, i)) <==> EntryNames(s, i, x)
  {
    hide Big16, Big32, ReadU16, ReadU32, Expand, Bit, Sub;
    Spells32(s, 14 + 6 * i);
    Spells16(s, 18 + 6 * i);
    var e := ReadEntry(s, i);
    ExpandNames(e, x);
    AddSub(x, e.pid);
    forall k | 0 <= k < 16
      ensures x == (e.pid + 1 + k) % MOD && Bit(e.blp, k) <==> Sub(x, e.pid) == 1 + k && Bit(e.blp, k)
    {
      SubAdd(e.pid, 1 + k);
    }
  }
}
