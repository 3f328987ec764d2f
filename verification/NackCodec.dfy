/**
 The NACK packet codec (modules/transport/Packet.cpp:156-307): a list of missing
 sequence numbers packed greedily into (pid, bitmap) entries, after the Generic
 NACK of section 6.2.1 of RFC 4585 with a 32-bit PID.
 */
module NackCodec {
  import opened Bits
  import opened Cyclic
  import opened Packet

  datatype Entry = Entry(pid: u32, blp: u16)

  // ----- Greedy packing -----

  /** How many leading elements of `m` lie at cyclic distance at most 16 after `pid`. */
  function Run(pid: u32, m: seq<u32>): (r: nat)
    ensures r <= |m|
  {
    if m == [] || Sub(m[0], pid) > 16 then 0 else 1 + Run(pid, m[1..])
  }

  /** The bitmap of the distances of `m` from `pid`. */
  function Mask(pid: u32, m: seq<u32>): (r: u16)
    requires forall i :: 0 <= i < |m| ==> Sub(m[i], pid) <= 16
  {
    if m == [] then 0
    else
      var before, d := Mask(pid, m[..|m| - 1]), Sub(m[|m| - 1], pid);
      if d == 0 then before else (Pow2Values(); SetBitWidth(before, d - 1, 16); SetBit(before, d - 1))
  }

  lemma {:induction false} RunIsNear(pid: u32, m: seq<u32>)
    ensures forall i :: 0 <= i < Run(pid, m) ==> Sub(m[i], pid) <= 16
    ensures Run(pid, m) < |m| ==> Sub(m[Run(pid, m)], pid) > 16
  {
    if m != [] && Sub(m[0], pid) <= 16 {
      RunIsNear(pid, m[1..]);
      forall i | 0 < i < Run(pid, m)
        ensures Sub(m[i], pid) <= 16
      {
        assert m[i] == m[1..][i - 1];
      }
    }
  }

  /** The run found in a prefix is the run cut off at the prefix's end. */
  lemma {:induction false} RunOfPrefix(pid: u32, m: seq<u32>, k: nat)
    requires k <= |m|
    ensures Run(pid, m[..k]) == if k <= Run(pid, m) then k else Run(pid, m)
  {
    if k != 0 && Sub(m[0], pid) <= 16 {
      RunOfPrefix(pid, m[1..], k - 1);
      assert m[..k][1..] == m[1..][..k - 1];
    }
  }

  /** Where the first entry's run of `m` ends. */
  function RunEnd(m: seq<u32>): (n: nat)
    requires m != []
    ensures 1 <= n <= |m|
  {
    1 + Run(m[0], m[1..])
  }

  lemma RunEndSplits(m: seq<u32>)
    requires m != []
    ensures forall i :: 0 <= i < RunEnd(m) - 1 ==> Sub(m[1..RunEnd(m)][i], m[0]) <= 16
    ensures RunEnd(m) < |m| ==> Sub(m[RunEnd(m)], m[0]) > 16
  {
    RunIsNear(m[0], m[1..]);
    assert forall i :: 0 <= i < RunEnd(m) - 1 ==> m[1..RunEnd(m)][i] == m[1..][i];
  }

  function FirstEntry(m: seq<u32>): Entry
    requires m != []
  {
    RunEndSplits(m);
    Entry(m[0], Mask(m[0], m[1..RunEnd(m)]))
  }

  /** The greedy entry list. */
  function Greedy(m: seq<u32>): seq<Entry>
    decreases |m|
  {
    if m == [] then [] else [FirstEntry(m)] + Greedy(m[RunEnd(m)..])
  }

  // ----- Expansion -----

  /** The sequence numbers named by the set bits of `bits`, bit 0 standing for `pid + 1 + k`. */
  function ExpandBits(pid: u32, bits: nat, k: nat): seq<u32>
    decreases bits
  {
    if bits == 0 then []
    else (if bits % 2 == 1 then [Add(pid, 1 + k)] else []) + ExpandBits(pid, bits / 2, k + 1)
  }

  function Expand(e: Entry): seq<u32> {
    [e.pid] + ExpandBits(e.pid, e.blp, 0)
  }

  function ExpandAll(es: seq<Entry>): seq<u32> {
    if es == [] then [] else ExpandAll(es[..|es| - 1]) + Expand(es[|es| - 1])
  }

  lemma {:induction false} ExpandAllFront(e: Entry, es: seq<Entry>)
    ensures ExpandAll([e] + es) == Expand(e) + ExpandAll(es)
    decreases |es|
  {
    var all := [e] + es;
    if es == [] {
      assert all[..0] == [];
      assert all[0] == e;
    } else {
      assert all[..|all| - 1] == [e] + es[..|es| - 1];
      ExpandAllFront(e, es[..|es| - 1]);
    }
  }

  // ----- Order and distance -----

  /** Strictly oldest first, with the whole list spanning less than one turn. */
  predicate OldestFirst(m: seq<u32>) {
    forall i, j :: 0 <= i < j < |m| ==> Sub(m[i], m[0]) < Sub(m[j], m[0])
  }

  lemma SubChain(a: u32, b: u32, c: u32)
    requires Sub(b, a) <= Sub(c, a)
    ensures Sub(c, b) == Sub(c, a) - Sub(b, a)
  {
    var x, y := Sub(c, a), Sub(b, a);
    var kc, kb := (c - a) / MOD, (b - a) / MOD;
    assert c - b == (x - y) - MOD * (kb - kc);
    ShiftModulo(x - y, kb - kc);
  }

  lemma OldestFirstTail(m: seq<u32>, k: nat)
    requires OldestFirst(m) && k < |m|
    ensures OldestFirst(m[k..])
    ensures forall i :: k <= i < |m| ==> Sub(m[i], m[k]) == Sub(m[i], m[0]) - Sub(m[k], m[0])
  {
    forall i | k <= i < |m|
      ensures Sub(m[i], m[k]) == Sub(m[i], m[0]) - Sub(m[k], m[0])
    {
      SubChain(m[0], m[k], m[i]);
    }
    assert forall i :: 0 <= i < |m| - k ==> m[k..][i] == m[k + i];
  }

  lemma AddSub(a: u32, b: u32)
    ensures Add(b, Sub(a, b)) == a
  {
    ShiftModulo(a, (a - b) / MOD);
  }

  lemma SubAdd(a: u32, n: int)
    requires 0 <= n < MOD
    ensures Sub(Add(a, n), a) == n
  {
    ShiftModulo(n, (a + n) / MOD);
  }

  // ----- What the bitmap records -----

  lemma {:induction false} MaskBits(pid: u32, m: seq<u32>, k: nat)
    requires forall i :: 0 <= i < |m| ==> Sub(m[i], pid) <= 16
    ensures Bit(Mask(pid, m), k) <==> exists i :: 0 <= i < |m| && Sub(m[i], pid) == k + 1
    decreases |m|
  {
    if m == [] {
      BitOfZero(k);
    } else {
      var front, d := m[..|m| - 1], Sub(m[|m| - 1], pid);
      MaskBits(pid, front, k);
      if d != 0 { BitOfSetBit(Mask(pid, front), d - 1, k); }
      assert forall i :: 0 <= i < |front| ==> front[i] == m[i];
      assert m[|m| - 1..] == [m[|m| - 1]];
    }
  }

  /** Strictly increasing distances from `pid`, at most 16. */
  predicate Climbs(pid: u32, m: seq<u32>) {
    && (forall i :: 0 <= i < |m| ==> Sub(m[i], pid) <= 16)
    && forall a, b :: 0 <= a < b < |m| ==> Sub(m[a], pid) < Sub(m[b], pid)
  }

  /** The distances up to `k` are those of the first `j` elements. */
  predicate SplitsAt(pid: u32, m: seq<u32>, k: nat, j: nat) {
    && j <= |m|
    && (forall i :: 0 <= i < j ==> Sub(m[i], pid) <= k)
    && forall i :: j <= i < |m| ==> Sub(m[i], pid) > k
  }

  lemma SplitMovesOn(pid: u32, m: seq<u32>, k: nat, j: nat)
    requires Climbs(pid, m) && SplitsAt(pid, m, k, j)
    ensures var has := j < |m| && Sub(m[j], pid) == k + 1;
      (has <==> Bit(Mask(pid, m), k)) && SplitsAt(pid, m, k + 1, if has then j + 1 else j)
  {
    hide Sub, Mask, Bit;
    MaskBits(pid, m, k);
  }

  /** Bits `k..16` of an entry built from strictly increasing distances are its last elements. */
  lemma {:induction false} ExpandAscending(pid: u32, m: seq<u32>, k: nat, j: nat)
    requires Climbs(pid, m) && SplitsAt(pid, m, k, j) && k <= 16
    ensures ExpandBits(pid, Shift(Mask(pid, m), k), k) == m[j..]
    decreases 16 - k
  {
    hide *;
    SplitFacts(pid, m, k, j);
    if k == 16 {
      NoBitsLeft(pid, m);
    } else {
      SplitMovesOn(pid, m, k, j);
      ExpandStep(pid, m, k);
      var has := j < |m| && Sub(m[j], pid) == k + 1;
      ExpandAscending(pid, m, k + 1, if has then j + 1 else j);
      if has { AddSub(m[j], pid); }
      Dropping(m, j);
    }
  }

  lemma SplitFacts(pid: u32, m: seq<u32>, k: nat, j: nat)
    requires Climbs(pid, m) && SplitsAt(pid, m, k, j) && k <= 16
    ensures j <= |m| && (k == 16 ==> m[j..] == [])
    ensures forall i :: 0 <= i < |m| ==> Sub(m[i], pid) <= 16
  {
    hide Sub;
    assert j < |m| ==> k < Sub(m[j], pid) <= 16;
  }

  lemma Dropping(m: seq<u32>, j: nat)
    requires j <= |m|
    ensures [] + m[j..] == m[j..]
    ensures j < |m| ==> [m[j]] + m[j + 1..] == m[j..]
  {
  }

  lemma ExpandStep(pid: u32, m: seq<u32>, k: nat)
    requires forall i :: 0 <= i < |m| ==> Sub(m[i], pid) <= 16
    ensures ExpandBits(pid, Shift(Mask(pid, m), k), k)
         == (if Bit(Mask(pid, m), k) then [Add(pid, 1 + k)] else []) + ExpandBits(pid, Shift(Mask(pid, m), k + 1), k + 1)
  {
    hide Add, Mask, Sub;
  }

  lemma NoBitsLeft(pid: u32, m: seq<u32>)
    requires forall i :: 0 <= i < |m| ==> Sub(m[i], pid) <= 16
    ensures ExpandBits(pid, Shift(Mask(pid, m), 16), 16) == []
  {
    hide Sub, Mask;
    Pow2Values();
    ShiftOut(Mask(pid, m), 16);
  }

  lemma FirstRunAscends(m: seq<u32>, run: seq<u32>)
    requires OldestFirst(m) && m != [] && run == m[1..RunEnd(m)]
    ensures forall i, j :: 0 <= i < j < |run| ==> Sub(run[i], m[0]) < Sub(run[j], m[0])
    ensures forall i :: 0 <= i < |run| ==> 0 < Sub(run[i], m[0]) <= 16
  {
    RunEndSplits(m);
    assert forall i :: 0 <= i < |run| ==> run[i] == m[i + 1];
  }

  lemma FirstEntryExpands(m: seq<u32>)
    requires OldestFirst(m) && m != []
    ensures Expand(FirstEntry(m)) == m[..RunEnd(m)]
  {
    var run := m[1..RunEnd(m)];
    FirstRunAscends(m, run);
    assert ExpandBits(m[0], Mask(m[0], run), 0) == run by {
      ExpandAscending(m[0], run, 0, 0);
    }
    hide ExpandBits, Mask, OldestFirst;
    assert m[..RunEnd(m)] == [m[0]] + run;
  }

  /** Expanding the greedy entries of an ordered list gives the list back, in order. */
  lemma {:induction false} ExpandGreedy(m: seq<u32>)
    requires OldestFirst(m)
    ensures ExpandAll(Greedy(m)) == m
    decreases |m|
  {
    hide Expand, FirstEntry, RunEnd;
    if m != [] {
      var n := RunEnd(m);
      if n < |m| { OldestFirstTail(m, n); }
      ExpandGreedy(m[n..]);
      FirstEntryExpands(m);
      ExpandAllFront(FirstEntry(m), Greedy(m[n..]));
      assert m == m[..n] + m[n..];
    }
  }

  lemma {:induction false} ExpandBitsNames(e: Entry, k: nat, s: u32)
    requires k <= 16
    ensures s in ExpandBits(e.pid, Shift(e.blp, k), k)
       <==> k + 1 <= Sub(s, e.pid) <= 16 && Bit(e.blp, Sub(s, e.pid) - 1)
    decreases 16 - k
  {
    if k == 16 {
      Pow2Values();
      ShiftOut(e.blp, 16);
    } else {
      ExpandBitsNames(e, k + 1, s);
      SubAdd(e.pid, 1 + k);
      AddSub(s, e.pid);
    }
  }

  lemma ExpandNames(e: Entry, s: u32)
    ensures s in Expand(e) <==> s == e.pid || (1 <= Sub(s, e.pid) <= 16 && Bit(e.blp, Sub(s, e.pid) - 1))
  {
    ExpandBitsNames(e, 0, s);
  }

  lemma FirstEntryNames(m: seq<u32>, s: u32)
    requires m != []
    ensures s in Expand(FirstEntry(m)) <==> s in m[..RunEnd(m)]
  {
    var pid, run, d := m[0], m[1..RunEnd(m)], Sub(s, m[0]);
    RunEndSplits(m);
    ExpandNames(FirstEntry(m), s);
    assert m[..RunEnd(m)] == [pid] + run;
    hide Expand, Mask, Shift, Sub, Run, RunEnd, FirstEntry;
    AddSub(s, pid);
    SubAdd(pid, 0);
    RunNames(pid, run, s);
  }

  /** The bit for a number is set exactly when the number is in the run, or is the pid itself. */
  lemma RunNames(pid: u32, run: seq<u32>, s: u32)
    requires forall i :: 0 <= i < |run| ==> Sub(run[i], pid) <= 16
    ensures var d := Sub(s, pid);
      d >= 1 ==> (1 <= d <= 16 && Bit(Mask(pid, run), d - 1) <==> s in run)
  {
    hide Mask, Sub, Bit;
    var d := Sub(s, pid);
    if d >= 1 {
      MaskBits(pid, run, d - 1);
      AddSub(s, pid);
      if i :| 0 <= i < |run| && Sub(run[i], pid) == d { AddSub(run[i], pid); }
    }
  }

  /** For any list at all, ordered or not, the decoded entries name exactly its elements. */
  lemma {:induction false} ExpandGreedyNames(m: seq<u32>, s: u32)
    ensures s in ExpandAll(Greedy(m)) <==> s in m
    decreases |m|
  {
    if m != [] {
      var n := RunEnd(m);
      ExpandGreedyNames(m[n..], s);
      FirstEntryNames(m, s);
      ExpandAllFront(FirstEntry(m), Greedy(m[n..]));
      assert m == m[..n] + m[n..];
    }
  }

  // ----- Capacity -----

  /** An ordered list needs no more entries than its span divided by 17, plus one. */
  lemma {:induction false} EntriesForSpan(m: seq<u32>)
    requires OldestFirst(m) && m != []
    ensures |Greedy(m)| <= Sub(m[|m| - 1], m[0]) / 17 + 1
    decreases |m|
  {
    var n := RunEnd(m);
    RunEndSplits(m);
    if n < |m| {
      OldestFirstTail(m, n);
      EntriesForSpan(m[n..]);
    }
  }

  /** The length of the part of `m` that the first `c` greedy entries cover. */
  function Cut(m: seq<u32>, c: nat): (n: nat)
    ensures n <= |m|
    decreases |m|
  {
    if m == [] || c == 0 then 0 else RunEnd(m) + Cut(m[RunEnd(m)..], c - 1)
  }

  lemma GreedyOfPrefix(m: seq<u32>, k: nat)
    requires 0 < k <= |m|
    ensures |Greedy(m[..k])| == if k <= RunEnd(m) then 1 else 1 + |Greedy(m[RunEnd(m)..][..k - RunEnd(m)])|
  {
    var n := RunEnd(m);
    RunOfPrefix(m[0], m[1..], k - 1);
    assert m[..k][1..] == m[1..][..k - 1];
    if k > n {
      assert m[..k][n..] == m[n..][..k - n];
    } else {
      assert m[..k][k..] == [];
    }
  }

  lemma GreedyNonEmpty(m: seq<u32>)
    requires m != []
    ensures |Greedy(m)| >= 1
  {
  }

  /** `Cut(m, c)` is the longest prefix that fits in `c` entries. */
  lemma {:induction false} CutIsLongest(m: seq<u32>, c: nat, k: nat)
    requires k <= |m|
    ensures |Greedy(m[..k])| <= c <==> k <= Cut(m, c)
    decreases |m|
  {
    hide FirstEntry, Run;
    if k == 0 {
    } else if c == 0 {
      GreedyNonEmpty(m[..k]);
    } else {
      var n := RunEnd(m);
      GreedyOfPrefix(m, k);
      if k > n { CutIsLongest(m[n..], c - 1, k - n); }
    }
  }

  // ----- Wire format -----

  function EntryBytes(e: Entry): (s: Bytes)
    ensures |s| == 6
  {
    U32Bytes(e.pid) + U16Bytes(e.blp)
  }

  function EntriesBytes(es: seq<Entry>): (s: Bytes)
    ensures |s| == 6 * |es|
  {
    if es == [] then [] else EntriesBytes(es[..|es| - 1]) + EntryBytes(es[|es| - 1])
  }

  const NACK_ENTRIES: nat := PACKET_HEADER_SIZE + NACK_HEADER_SIZE

  function NackBytes(h: PacketHeader, es: seq<Entry>): (s: Bytes)
    requires |es| <= MAX_NACK_ENTRIES
    ensures |s| == NACK_ENTRIES + 6 * |es|
  {
    PacketHeaderBytes(h) + U16Bytes(|es|) + EntriesBytes(es)
  }

  function ReadEntry(s: Bytes, i: nat): Entry
    requires NACK_ENTRIES + 6 * (i + 1) <= |s|
  {
    var at := NACK_ENTRIES + 6 * i;
    Entry(ReadU32(s, at), ReadU16(s, at + 4))
  }

  /** The first `n` entries of a NACK packet. */
  function ReadEntries(s: Bytes, n: nat): (es: seq<Entry>)
    requires NACK_ENTRIES + 6 * n <= |s|
    ensures |es| == n
  {
    if n == 0 then [] else ReadEntries(s, n - 1) + [ReadEntry(s, n - 1)]
  }

  function ParseNack(s: Bytes): Result<seq<u32>> {
    var header := ParsePacketHeader(s);
    if header.Failure? then Failure(NetError)
    else if header.value.kind != NACK then Failure(NetError)
    else if |s| < NACK_ENTRIES then Failure(NetError)
    else
      var n := ReadU16(s, PACKET_HEADER_SIZE);
      if n == 0 || n > MAX_NACK_ENTRIES then Failure(NetError)
      else if |s| != NACK_ENTRIES + 6 * n then Failure(NetError)
      else Success(ExpandAll(ReadEntries(s, n)))
  }

  lemma {:induction false} ReadEntriesBack(s: Bytes, es: seq<Entry>)
    requires NACK_ENTRIES + 6 * |es| <= |s|
    requires s[NACK_ENTRIES..NACK_ENTRIES + 6 * |es|] == EntriesBytes(es)
    ensures ReadEntries(s, |es|) == es
    decreases |es|
  {
    if es != [] {
      var n := |es| - 1;
      var front, e, at := es[..n], es[n], NACK_ENTRIES + 6 * n;
      var img := s[NACK_ENTRIES..at + 6];
      assert img == EntriesBytes(front) + EntryBytes(e);
      assert s[NACK_ENTRIES..at] == img[..6 * n];
      ReadEntriesBack(s, front);
      EntryBack(s, at, e) by { assert s[at..at + 6] == img[6 * n..]; }
    }
  }

  lemma EntryBack(s: Bytes, at: nat, e: Entry)
    requires at + 6 <= |s| && s[at..at + 6] == EntryBytes(e)
    ensures ReadU32(s, at) == e.pid && ReadU16(s, at + 4) == e.blp
  {
    assert s[at..at + 4] == s[at..at + 6][..4] == U32Bytes(e.pid);
    assert s[at + 4..at + 6] == s[at..at + 6][4..] == U16Bytes(e.blp);
    ReadAfterWrite32(s, at, e.pid);
    ReadAfterWrite16(s, at + 4, e.blp);
  }

  /** Decoding an encoded entry list expands exactly those entries. */
  lemma ParseNackBytes(h: PacketHeader, es: seq<Entry>)
    requires ValidPacketHeader(h) && h.kind == NACK
    requires 1 <= |es| <= MAX_NACK_ENTRIES
    ensures ParseNack(NackBytes(h, es)) == Success(ExpandAll(es))
  {
    var s := NackBytes(h, es);
    assert ReadEntries(s, |es|) == es by {
      EntriesBack(PacketHeaderBytes(h) + U16Bytes(|es|), EntriesBytes(es), es);
    }
    NackHeaderBack(h, es);
  }

  lemma EntriesBack(head: Bytes, body: Bytes, es: seq<Entry>)
    requires |head| == NACK_ENTRIES && body == EntriesBytes(es)
    ensures ReadEntries(head + body, |es|) == es
  {
    hide EntriesBytes;
    assert (head + body)[NACK_ENTRIES..NACK_ENTRIES + |body|] == body;
    ReadEntriesBack(head + body, es);
  }

  lemma NackHeaderBack(h: PacketHeader, es: seq<Entry>)
    requires ValidPacketHeader(h) && |es| <= MAX_NACK_ENTRIES
    ensures ParsePacketHeader(NackBytes(h, es)) == Success(h)
    ensures ReadU16(NackBytes(h, es), PACKET_HEADER_SIZE) == |es|
  {
    var s, n := NackBytes(h, es), U16Bytes(|es|);
    assert s == PacketHeaderBytes(h) + (n + EntriesBytes(es));
    PacketHeaderRoundTrip(h, n + EntriesBytes(es));
    assert s[12..14] == n;
    ReadAfterWrite16(s, 12, |es|);
  }

  /** The NACK codec's law: an ordered list that fits comes back unchanged. */
  lemma NackRoundTrip(h: PacketHeader, m: seq<u32>)
    requires ValidPacketHeader(h) && h.kind == NACK
    requires m != [] && OldestFirst(m) && |Greedy(m)| <= MAX_NACK_ENTRIES
    ensures ParseNack(NackBytes(h, Greedy(m))) == Success(m)
  {
    ParseNackBytes(h, Greedy(m));
    ExpandGreedy(m);
  }

  /** For an arbitrary list that fits, the peer learns exactly its elements. */
  lemma NackNamesRoundTrip(h: PacketHeader, m: seq<u32>)
    requires ValidPacketHeader(h) && h.kind == NACK
    requires m != [] && |Greedy(m)| <= MAX_NACK_ENTRIES
    ensures ParseNack(NackBytes(h, Greedy(m))).Success?
    ensures forall s: u32 :: s in ParseNack(NackBytes(h, Greedy(m))).value <==> s in m
  {
    ParseNackBytes(h, Greedy(m));
    forall s: u32
      ensures s in ExpandAll(Greedy(m)) <==> s in m
    {
      ExpandGreedyNames(m, s);
    }
  }

  // ----- The codec as written -----

  /** `outLen` is an out-parameter that a failing call leaves alone: `lenBefore` comes back. */
  method EncodeNackPacket(h: PacketHeader, missing: seq<u32>, buf: array<byte>, lenBefore: nat)
    returns (st: Status, outLen: nat)
    modifies buf
    ensures st == if missing == [] || h.kind != NACK then Error(InvalidArg)
                  else if |Greedy(missing)| > MAX_NACK_ENTRIES then Error(Internal)
                  else if buf.Length < NACK_ENTRIES + 6 * |Greedy(missing)| then Error(InvalidArg)
                  else if h.version != PROTOCOL_VERSION then Error(InvalidArg)
                  else Ok
    ensures st.Ok? ==> buf[..] == Splice(old(buf[..]), 0, NackBytes(h, Greedy(missing)))
    ensures st.Ok? ==> outLen == |NackBytes(h, Greedy(missing))|
    ensures !st.Ok? ==> buf[..] == old(buf[..]) && outLen == lenBefore
  {
    outLen := lenBefore;
    if missing == [] { return Error(InvalidArg), outLen; }
    if h.kind != NACK { return Error(InvalidArg), outLen; }
    var entries := TakeEntries(missing);
    if |entries| > MAX_NACK_ENTRIES { return Error(Internal), outLen; }
    var encodedLen := NACK_ENTRIES + 6 * |entries|;
    if buf.Length < encodedLen { return Error(InvalidArg), outLen; }
    st := EncodePacketHeader(h, buf, 0);
    if !st.Ok? { return; }
    WriteEntries(entries, buf, PacketHeaderBytes(h), old(buf[..]));
    outLen := encodedLen;
  }

  /** Entry count and entries, written just after the packet header. */
  method WriteEntries(entries: seq<Entry>, buf: array<byte>, ghost header: Bytes, ghost before: Bytes)
    requires |entries| <= MAX_NACK_ENTRIES && |header| == PACKET_HEADER_SIZE
    requires NACK_ENTRIES + 6 * |entries| <= buf.Length == |before|
    requires buf[..] == Splice(before, 0, header)
    modifies buf
    ensures buf[..] == Splice(before, 0, header + U16Bytes(|entries|) + EntriesBytes(entries))
  {
    ghost var head := header + U16Bytes(|entries|);
    CopyNext(U16Bytes(|entries|), buf, PACKET_HEADER_SIZE, header, before);
    for i := 0 to |entries|
      invariant buf[..] == Splice(before, 0, head + EntriesBytes(entries[..i]))
    {
      ghost var done := EntriesBytes(entries[..i]);
      CopyNext(EntryBytes(entries[i]), buf, NACK_ENTRIES + 6 * i, head + done, before);
      assert entries[..i + 1][..i] == entries[..i];
      assert head + done + EntryBytes(entries[i]) == head + EntriesBytes(entries[..i + 1]);
    }
    assert entries[..|entries|] == entries;
  }

  /** The packing loop; it gives up as soon as there are too many entries for one packet. */
  method TakeEntries(missing: seq<u32>) returns (entries: seq<Entry>)
    ensures |entries| > MAX_NACK_ENTRIES <==> |Greedy(missing)| > MAX_NACK_ENTRIES
    ensures |entries| <= MAX_NACK_ENTRIES ==> entries == Greedy(missing)
  {
    entries := [];
    var next := 0;
    ghost var rest := Greedy(missing);
    while next < |missing|
      invariant 0 <= next <= |missing|
      invariant rest == Greedy(missing[next..])
      invariant entries + rest == Greedy(missing)
      invariant |entries| <= MAX_NACK_ENTRIES
    {
      var e, n := TakeEntry(missing, next);
      next, rest := n, Greedy(missing[n..]);
      assert entries + ([e] + rest) == (entries + [e]) + rest;
      entries := entries + [e];
      if |entries| > MAX_NACK_ENTRIES { return; }
    }
    assert Greedy(missing[next..]) == [];
  }

  lemma SliceGrows(xs: seq<u32>, i: nat, j: nat)
    requires i <= j < |xs|
    ensures xs[i..j + 1] == xs[i..j] + [xs[j]]
  {
  }

  /** One turn of the packing loop: the entry that starts at `start`, and where the next one starts. */
  method TakeEntry(missing: seq<u32>, start: nat) returns (e: Entry, next: nat)
    requires start < |missing|
    ensures start < next <= |missing|
    ensures Greedy(missing[start..]) == [e] + Greedy(missing[next..])
  {
    hide SetBit, Sub;
    var pid := missing[start];
    var blp: u16 := 0;
    next := start + 1;
    ghost var m := missing[start..];
    ghost var run := [];
    while next < |missing|
      invariant start < next <= |missing|
      invariant run == missing[start + 1..next]
      invariant forall i :: 0 <= i < |run| ==> Sub(run[i], pid) <= 16
      invariant blp == Mask(pid, run)
      invariant Run(pid, m[1..]) == |run| + Run(pid, missing[next..])
    {
      var distance := Sub(missing[next], pid);
      if distance > 16 { break; }
      if distance != 0 {
        Pow2Values();
        SetBitWidth(blp, distance - 1, 16);
        blp := SetBit(blp, distance - 1);
      }
      SliceGrows(missing, start + 1, next);
      assert (run + [missing[next]])[..|run|] == run;
      assert missing[next..][1..] == missing[next + 1..];
      run, next := run + [missing[next]], next + 1;
    }
    e := Entry(pid, blp);
    assert m[1..RunEnd(m)] == run;
    assert m[RunEnd(m)..] == missing[next..];
  }

  method DecodeNackPacket(s: Bytes) returns (st: Status, out: seq<u32>)
    ensures st.Ok? <==> ParseNack(s).Success?
    ensures st.Ok? ==> out == ParseNack(s).value
    ensures !st.Ok? ==> out == [] && st == Error(NetError)
  {
    out := [];
    var header := ParsePacketHeader(s);
    if header.Failure? { return Error(NetError), out; }
    if header.value.kind != NACK { return Error(NetError), out; }
    if |s| < NACK_ENTRIES { return Error(NetError), out; }
    var entryCount := ReadU16(s, PACKET_HEADER_SIZE);
    if entryCount == 0 || entryCount > MAX_NACK_ENTRIES { return Error(NetError), out; }
    if |s| != NACK_ENTRIES + 6 * entryCount { return Error(NetError), out; }
    for entryIndex := 0 to entryCount
      invariant out == ExpandAll(ReadEntries(s, entryIndex))
    {
      var named := ExpandOne(ReadEntry(s, entryIndex));
      assert ReadEntries(s, entryIndex + 1)[..entryIndex] == ReadEntries(s, entryIndex);
      out := out + named;
    }
    st := Ok;
  }

  /** The inner decoding loop: one entry's `pid` and the sequence numbers its bits name. */
  method ExpandOne(e: Entry) returns (out: seq<u32>)
    ensures out == Expand(e)
  {
    out := [e.pid];
    ghost var bits: nat := e.blp;
    for bit := 0 to 16
      invariant bits == Shift(e.blp, bit)
      invariant out + ExpandBits(e.pid, bits, bit) == Expand(e)
    {
      if Bit(e.blp, bit) { out := out + [Add(e.pid, 1 + bit)]; }
      bits := bits / 2;
    }
    Pow2Values();
    ShiftOut(e.blp, 16);
  }
}
