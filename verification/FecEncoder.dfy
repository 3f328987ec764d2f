/**
 Building the XOR packets of a frame (modules/transport/FecEncoder.cpp).
 */
module FecEncoder {
  import opened Basics
  import opened Cyclic
  import opened Packet
  import opened Parity

  datatype Config = Config(groupSize: u16, minGroupSize: u16)
  datatype Stats = Stats(framesSeen: nat, fecPacketsBuilt: nat, groupsSkipped: nat, fecBytes: nat)

  /** What follows the headers of a DATA packet. */
  function PayloadOf(packet: Bytes): Bytes
    requires |packet| >= DATA_PAYLOAD
  {
    packet[DATA_PAYLOAD..]
  }

  predicate AllHaveHeaders(packets: seq<Bytes>) {
    forall i :: 0 <= i < |packets| ==> |packets[i]| >= DATA_PAYLOAD
  }

  function Payloads(packets: seq<Bytes>): (ps: seq<Bytes>)
    requires AllHaveHeaders(packets)
    ensures |ps| == |packets|
  {
    seq(|packets|, i requires 0 <= i < |packets| => PayloadOf(packets[i]))
  }

  function MaxLen(ps: seq<Bytes>): (n: nat)
    ensures forall i :: 0 <= i < |ps| ==> |ps[i]| <= n
    ensures ps != [] ==> exists i :: 0 <= i < |ps| && |ps[i]| == n
  {
    if ps == [] then 0
    else
      var before, last := MaxLen(ps[..|ps| - 1]), |ps[|ps| - 1]|;
      assert forall i :: 0 <= i < |ps| - 1 ==> ps[..|ps| - 1][i] == ps[i];
      Max(before, last)
  }

  /** The parity of a group: zeros as long as its longest payload, with every payload absorbed. */
  function GroupParity(ps: seq<Bytes>): (p: Parity)
    ensures |p.bytes| == MaxLen(ps)
  {
    AbsorbAll(Parity(0, Zeros(MaxLen(ps))), ps)
  }

  /** A whole FEC packet protecting the payloads `ps` of `|ps|` consecutive DATA packets. */
  function FecImage(h: PacketHeader, baseSeq: u32, ps: seq<Bytes>, groupIndex: byte, groupCount: byte): Bytes
    requires |ps| < 65536
  {
    var p := GroupParity(ps);
    PacketHeaderBytes(h) + FecHeaderBytes(FecHeader(baseSeq, |ps|, p.len, groupIndex, groupCount, 0)) + p.bytes
  }

  /** Where group `g` starts. */
  function First(size: nat, g: nat): nat {
    g * size
  }

  /** The DATA packets of group `g`; the last group may be short. */
  function Group(packets: seq<Bytes>, size: nat, g: nat): seq<Bytes>
    requires First(size, g) <= |packets|
  {
    packets[First(size, g)..Min(First(size, g) + size, |packets|)]
  }

  function GroupCount(n: nat, size: nat): nat
    requires size > 0
  {
    n / size + if n % size != 0 then 1 else 0
  }

  lemma GroupExists(n: nat, size: nat, g: nat)
    requires size > 0
    ensures g < GroupCount(n, size) <==> First(size, g) < n
  {
    var q, r := n / size, n % size;
    assert n == q * size + r;
    if g < q {
      assert (g + 1) * size <= q * size by { MulMono(g + 1, q, size); }
    } else if g > q {
      assert First(size, g) >= (q + 1) * size by { MulMono(q + 1, g, size); }
    }
  }

  lemma SomeGroup(n: nat, size: nat)
    requires n > 0 && size > 0
    ensures GroupCount(n, size) > 0 && First(size, GroupCount(n, size) - 1) < n
  {
    GroupExists(n, size, 0);
    GroupExists(n, size, GroupCount(n, size) - 1);
  }

  lemma MulMono(a: nat, b: nat, c: nat)
    requires a <= b
    ensures a * c <= b * c
  {
  }

  /** Everything about one frame that its FEC packets depend on. */
  datatype Job = Job(packets: seq<Bytes>, baseSeq: u32, streamId: u16, timestampMs: u32)

  ghost predicate ValidJob(j: Job) {
    AllHaveHeaders(j.packets)
  }

  /** The FEC packet of group `g`, sent with FEC number `fecSeq`. */
  function GroupPacket(c: Config, j: Job, g: nat, fecSeq: u32): Bytes
    requires c.groupSize > 0 && ValidJob(j) && First(c.groupSize, g) <= |j.packets|
  {
    var header := PacketHeader(PROTOCOL_VERSION, FEC, j.streamId, fecSeq, j.timestampMs);
    FecImage(header, Add(j.baseSeq, First(c.groupSize, g)), Payloads(Group(j.packets, c.groupSize, g)),
             g % 256, GroupCount(|j.packets|, c.groupSize) % 256)
  }

  /** What is left of a packet whose FEC header is refused: the packet header, then zeros. */
  function Unfinished(h: PacketHeader, ps: seq<Bytes>): Bytes {
    PacketHeaderBytes(h) + Zeros(FEC_HEADER_SIZE + MaxLen(ps))
  }

  function UnfinishedGroup(c: Config, j: Job, g: nat, fecSeq: u32): Bytes
    requires c.groupSize > 0 && ValidJob(j) && First(c.groupSize, g) <= |j.packets|
  {
    Unfinished(PacketHeader(PROTOCOL_VERSION, FEC, j.streamId, fecSeq, j.timestampMs), Payloads(Group(j.packets, c.groupSize, g)))
  }

  predicate Protected(c: Config, j: Job, g: nat)
    requires First(c.groupSize, g) <= |j.packets|
  {
    |Group(j.packets, c.groupSize, g)| >= c.minGroupSize
  }

  /** The FEC packets of groups `0..n`, numbered from `fecSeq`. */
  function GroupPackets(c: Config, j: Job, fecSeq: u32, n: nat): (out: seq<Bytes>)
    requires c.groupSize > 0 && ValidJob(j) && n <= GroupCount(|j.packets|, c.groupSize)
    ensures |out| <= n
  {
    if n == 0 then []
    else
      var before := GroupPackets(c, j, fecSeq, n - 1);
      GroupExists(|j.packets|, c.groupSize, n - 1);
      before + if Protected(c, j, n - 1) then [GroupPacket(c, j, n - 1, Add(fecSeq, |before|))] else []
  }

  function TotalBytes(ps: seq<Bytes>): nat {
    if ps == [] then 0 else TotalBytes(ps[..|ps| - 1]) + |ps[|ps| - 1]|
  }

  /** The counters after `n` groups gave the packets `out`. */
  function Charge(s: Stats, n: nat, out: seq<Bytes>): Stats
    requires |out| <= n
  {
    s.(fecPacketsBuilt := s.fecPacketsBuilt + |out|, groupsSkipped := s.groupsSkipped + n - |out|,
       fecBytes := s.fecBytes + TotalBytes(out))
  }

  /** A group of one packet that counts as large enough: `encodeFecHeader` refuses it. */
  predicate Refused(c: Config, packets: seq<Bytes>, g: nat) {
    First(c.groupSize, g) <= |packets| && |Group(packets, c.groupSize, g)| == 1 && c.minGroupSize < 2
  }

  /** What makes `BuildForFrame` fail with `Internal` on a frame of `n` packets. */
  predicate HasLoneGroup(c: Config, n: nat)
    requires c.groupSize > 0
  {
    c.minGroupSize < 2 && (c.groupSize == 1 || n % c.groupSize == 1)
  }

  lemma LoneGroup(c: Config, packets: seq<Bytes>, g: nat)
    requires c.groupSize > 0 && g < GroupCount(|packets|, c.groupSize)
    requires First(c.groupSize, g) <= |packets|
    ensures var m := |Group(packets, c.groupSize, g)|;
      1 <= m <= c.groupSize
      && (m == 1 <==> c.groupSize == 1 || (g == GroupCount(|packets|, c.groupSize) - 1 && |packets| % c.groupSize == 1))
  {
    var n, s := |packets|, c.groupSize as int;
    var q, r := n / s, n % s;
    assert n == q * s + r;
    GroupExists(n, s, g);
    if g < q {
      MulMono(g + 1, q, s);
      assert (g + 1) * s == g * s + s;
    } else {
      assert g == q;
    }
  }

  /** A refused group makes the frame a failing one, and a failing frame's last group is refused. */
  lemma RefusedMeansLone(c: Config, packets: seq<Bytes>, g: nat)
    requires c.groupSize > 0 && g < GroupCount(|packets|, c.groupSize) && First(c.groupSize, g) <= |packets|
    ensures Refused(c, packets, g) ==> HasLoneGroup(c, |packets|)
    ensures g == GroupCount(|packets|, c.groupSize) - 1 && HasLoneGroup(c, |packets|) ==> Refused(c, packets, g)
  {
    LoneGroup(c, packets, g);
  }

  /** The group at which such a frame fails. */
  function FailedAt(c: Config, n: nat): (g: nat)
    requires c.groupSize > 0 && n > 0
    ensures g < GroupCount(n, c.groupSize) && First(c.groupSize, g) <= n
  {
    SomeGroup(n, c.groupSize);
    if c.groupSize == 1 then 0 else GroupCount(n, c.groupSize) - 1
  }

  lemma FirstRefused(c: Config, packets: seq<Bytes>, g: nat)
    requires c.groupSize > 0 && g < GroupCount(|packets|, c.groupSize) && First(c.groupSize, g) <= |packets| && packets != []
    requires Refused(c, packets, g) && forall h :: 0 <= h < g ==> !Refused(c, packets, h)
    ensures g == FailedAt(c, |packets|)
  {
    hide GroupCount;
    LoneGroup(c, packets, g);
    SomeGroup(|packets|, c.groupSize);
    LoneGroup(c, packets, 0);
    assert c.groupSize == 1 ==> Refused(c, packets, 0);
  }

  /** What a frame that fails with `Internal` leaves behind: the packets of the groups before the failing one and
      the unfinished packet, whose number is used up but which is not counted. */
  ghost predicate FailedBehind(c: Config, job: Job, fecSeq: u32, s: Stats, out: seq<Bytes>, nextSeq: u32, after: Stats)
    requires c.groupSize > 0 && ValidJob(job) && job.packets != []
  {
    var f := FailedAt(c, |job.packets|);
    var built := GroupPackets(c, job, fecSeq, f);
    && out == built + [UnfinishedGroup(c, job, f, Add(fecSeq, |built|))]
    && nextSeq == Add(fecSeq, |out|) && after == Charge(s, f, built)
  }

  class FecEncoder {
    const config: Config
    var nextFecSeq: u32
    var stats: Stats

    constructor (config: Config)
      ensures this.config == config && nextFecSeq == 0 && stats == Stats(0, 0, 0, 0)
    {
      this.config := config;
      nextFecSeq := 0;
      stats := Stats(0, 0, 0, 0);
    }

    method BuildForFrame(packets: seq<Bytes>, baseSeq: u32, streamId: u16, timestampMs: u32)
      returns (st: Status, out: seq<Bytes>)
      modifies this
      ensures config.groupSize == 0 || packets == [] ==> st.Ok? && out == [] && stats == old(stats) && nextFecSeq == old(nextFecSeq)
      ensures config.groupSize > 0 && packets != [] ==>
        st == if !AllHaveHeaders(packets) then Error(InvalidArg)
              else if HasLoneGroup(config, |packets|) then Error(Internal)
              else Ok
      ensures config.groupSize > 0 && packets != [] ==>
        (st == Error(InvalidArg) <==> exists i :: 0 <= i < |packets| && |packets[i]| < DATA_PAYLOAD)
      ensures !AllHaveHeaders(packets) && st == Error(InvalidArg) ==> out == [] && stats == old(stats) && nextFecSeq == old(nextFecSeq)
      ensures config.groupSize > 0 && packets != [] && st.Ok? ==>
        var job := Job(packets, baseSeq, streamId, timestampMs);
        var n := GroupCount(|packets|, config.groupSize);
        && out == GroupPackets(config, job, old(nextFecSeq), n)
        && nextFecSeq == Add(old(nextFecSeq), |out|)
        && stats == Charge(old(stats).(framesSeen := old(stats).framesSeen + 1), n, out)
        && stats.framesSeen == old(stats).framesSeen + 1 && stats.fecPacketsBuilt == old(stats).fecPacketsBuilt + |out|
        && stats.groupsSkipped == old(stats).groupsSkipped + n - |out| && stats.fecBytes == old(stats).fecBytes + TotalBytes(out)
      ensures config.groupSize > 0 && packets != [] && st == Error(Internal) ==>
        AllHaveHeaders(packets)
        && FailedBehind(config, Job(packets, baseSeq, streamId, timestampMs), old(nextFecSeq),
                        old(stats).(framesSeen := old(stats).framesSeen + 1), out, nextFecSeq, stats)
    {
      out := [];
      st := Ok;
      if config.groupSize == 0 || packets == [] { return; }
      for i := 0 to |packets|
        invariant forall k :: 0 <= k < i ==> |packets[k]| >= DATA_PAYLOAD
      {
        if |packets[i]| < DATA_PAYLOAD { return Error(InvalidArg), out; }
      }

      stats := stats.(framesSeen := stats.framesSeen + 1);
      st, out := BuildGroups(Job(packets, baseSeq, streamId, timestampMs));
    }

    /** The group loop. */
    method BuildGroups(job: Job) returns (st: Status, out: seq<Bytes>)
      requires config.groupSize > 0 && job.packets != [] && ValidJob(job)
      modifies this
      ensures st == if HasLoneGroup(config, |job.packets|) then Error(Internal) else Ok
      ensures st.Ok? ==>
        var n := GroupCount(|job.packets|, config.groupSize);
        && out == GroupPackets(config, job, old(nextFecSeq), n)
        && nextFecSeq == Add(old(nextFecSeq), |out|)
        && stats == Charge(old(stats), n, out)
      ensures !st.Ok? ==> FailedBehind(config, job, old(nextFecSeq), old(stats), out, nextFecSeq, stats)
    {
      hide *;
      var n := |job.packets|;
      var groupCount := GroupCount(n, config.groupSize);
      st, out := Ok, [];
      SomeGroup(n, config.groupSize);
      GroupPacketsStart(config, job, old(nextFecSeq), old(stats));
      for groupIndex := 0 to groupCount
        invariant st.Ok?
        invariant out == GroupPackets(config, job, old(nextFecSeq), groupIndex)
        invariant nextFecSeq == Add(old(nextFecSeq), |out|)
        invariant stats == Charge(old(stats), groupIndex, out)
        invariant forall g :: 0 <= g < groupIndex ==> !Refused(config, job.packets, g)
      {
        GroupExists(n, config.groupSize, groupIndex);
        var skip, st', one := GroupStep(config, job, groupIndex, nextFecSeq);
        GroupPacketsStep(config, job, old(nextFecSeq), old(stats), groupIndex, one);
        if skip {
          stats := stats.(groupsSkipped := stats.groupsSkipped + 1);
        } else {
          nextFecSeq := Add(nextFecSeq, 1);
          if !st'.Ok? {
            RefusedMeansLone(config, job.packets, groupIndex);
            FirstRefused(config, job.packets, groupIndex);
            FailureLeaves(config, job, old(nextFecSeq), old(stats), out, one);
            return st', out + [one];
          }
          out := out + [one];
          stats := stats.(fecPacketsBuilt := stats.fecPacketsBuilt + 1, fecBytes := stats.fecBytes + |one|);
        }
      }
      RefusedMeansLone(config, job.packets, groupCount - 1);
    }
  }

  lemma FailureLeaves(c: Config, j: Job, fecSeq: u32, s: Stats, built: seq<Bytes>, one: Bytes)
    requires c.groupSize > 0 && ValidJob(j) && j.packets != []
    requires var f := FailedAt(c, |j.packets|);
      built == GroupPackets(c, j, fecSeq, f) && one == UnfinishedGroup(c, j, f, Add(fecSeq, |built|))
    ensures FailedBehind(c, j, fecSeq, s, built + [one], Add(Add(fecSeq, |built|), 1), Charge(s, FailedAt(c, |j.packets|), built))
  {
    hide GroupPackets, UnfinishedGroup, FailedAt, Add, Charge;
    AddTwice(fecSeq, |built|, 1);
  }

  lemma GroupPacketsStart(c: Config, j: Job, fecSeq: u32, s: Stats)
    requires c.groupSize > 0 && ValidJob(j)
    ensures GroupPackets(c, j, fecSeq, 0) == [] && Charge(s, 0, []) == s && Add(fecSeq, 0) == fecSeq
  {
  }

  lemma GroupPacketsStep(c: Config, j: Job, fecSeq: u32, s: Stats, g: nat, one: Bytes)
    requires c.groupSize > 0 && ValidJob(j) && g < GroupCount(|j.packets|, c.groupSize)
    requires First(c.groupSize, g) <= |j.packets|
    ensures var out := GroupPackets(c, j, fecSeq, g);
      var next := GroupPackets(c, j, fecSeq, g + 1);
      var stats := Charge(s, g, out);
      && Add(Add(fecSeq, |out|), 1) == Add(fecSeq, |out| + 1)
      && (!Protected(c, j, g) ==> next == out && Charge(s, g + 1, next) == stats.(groupsSkipped := stats.groupsSkipped + 1))
      && (Protected(c, j, g) && one == GroupPacket(c, j, g, Add(fecSeq, |out|)) ==>
          next == out + [one] &&
          Charge(s, g + 1, next) == stats.(fecPacketsBuilt := stats.fecPacketsBuilt + 1, fecBytes := stats.fecBytes + |one|))
  {
    hide GroupPacket, Protected, GroupCount;
    var out := GroupPackets(c, j, fecSeq, g);
    AddTwice(fecSeq, |out|, 1);
    assert (out + [one])[..|out|] == out;
  }

  /** One turn of the group loop: skip a small group, or build its packet. */
  method GroupStep(c: Config, j: Job, groupIndex: nat, fecSeq: u32) returns (skip: bool, st: Status, one: Bytes)
    requires c.groupSize > 0 && ValidJob(j)
    requires First(c.groupSize, groupIndex) < |j.packets|
    ensures skip == !Protected(c, j, groupIndex)
    ensures !skip ==> st == if Refused(c, j.packets, groupIndex) then Error(Internal) else Ok
    ensures skip ==> !Refused(c, j.packets, groupIndex)
    ensures !skip && st.Ok? ==> one == GroupPacket(c, j, groupIndex, fecSeq)
    ensures !skip && !st.Ok? ==> one == UnfinishedGroup(c, j, groupIndex, fecSeq)
  {
    hide FecImage, Unfinished;
    var first := First(c.groupSize, groupIndex);
    var last := Min(first + c.groupSize, |j.packets|);
    var packetsInGroup := last - first;
    skip, st, one := packetsInGroup < c.minGroupSize, Ok, [];
    if skip { return; }
    var header := PacketHeader(PROTOCOL_VERSION, FEC, j.streamId, fecSeq, j.timestampMs);
    st, one := BuildGroup(j.packets[first..last], header, Add(j.baseSeq, first), groupIndex % 256,
                          GroupCount(|j.packets|, c.groupSize) % 256);
  }

  /** The body of the group loop: XOR the payloads and their lengths, then write the packet. */
  method BuildGroup(group: seq<Bytes>, header: PacketHeader, baseSeq: u32, groupIndex: byte, groupCount: byte)
    returns (st: Status, fecPacket: Bytes)
    requires 0 < |group| < 65536 && AllHaveHeaders(group)
    requires ValidPacketHeader(header)
    ensures st == if |group| >= 2 then Ok else Error(Internal)
    ensures st.Ok? ==> fecPacket == FecImage(header, baseSeq, Payloads(group), groupIndex, groupCount)
    ensures !st.Ok? ==> fecPacket == Unfinished(header, Payloads(group))
  {
    hide PacketHeaderBytes, FecHeaderBytes, GroupParity;
    var payloadLenXor, xorBuf := XorGroup(group);
    var fecHeader := FecHeader(baseSeq, |group|, payloadLenXor, groupIndex, groupCount, 0);
    var buf := new byte[FEC_PAYLOAD + |xorBuf|](_ => 0);
    ghost var blank := buf[..];
    st := EncodePacketHeader(header, buf, 0);
    st := EncodeFecHeader(fecHeader, buf, PACKET_HEADER_SIZE);
    if !st.Ok? {
      HeaderThenZeros(blank, PacketHeaderBytes(header));
      return Error(Internal), buf[..];
    }
    SpliceAdjacent(blank, 0, PacketHeaderBytes(header), FecHeaderBytes(fecHeader));
    CopyNext(xorBuf, buf, FEC_PAYLOAD, PacketHeaderBytes(header) + FecHeaderBytes(fecHeader), blank);
    fecPacket := buf[..];
  }

  lemma HeaderThenZeros(b: Bytes, h: Bytes)
    requires |h| <= |b| && forall i :: 0 <= i < |b| ==> b[i] == 0
    ensures Splice(b, 0, h) == h + Zeros(|b| - |h|)
  {
  }

  method XorGroup(group: seq<Bytes>) returns (payloadLenXor: u16, bytes: Bytes)
    requires AllHaveHeaders(group)
    ensures Parity(payloadLenXor, bytes) == GroupParity(Payloads(group))
  {
    hide Absorb, Zeros;
    ghost var ps := Payloads(group);
    var maxPayload := 0;
    for i := 0 to |group|
      invariant maxPayload == MaxLen(ps[..i])
    {
      assert ps[..i + 1][..i] == ps[..i];
      maxPayload := Max(maxPayload, |group[i]| - DATA_PAYLOAD);
    }
    assert ps[..|ps|] == ps;
    assert forall i :: 0 <= i < |group| ==> PayloadOf(group[i]) == ps[i];
    payloadLenXor, bytes := XorPayloads(group, maxPayload);
  }

  method XorPayloads(group: seq<Bytes>, maxPayload: nat) returns (payloadLenXor: u16, bytes: Bytes)
    requires AllHaveHeaders(group)
    requires forall i :: 0 <= i < |group| ==> |PayloadOf(group[i])| <= maxPayload
    ensures Parity(payloadLenXor, bytes) == AbsorbAll(Parity(0, Zeros(maxPayload)), Payloads(group))
  {
    hide XorByte, XorLen;
    ghost var ps := Payloads(group);
    var xorBuf := new byte[maxPayload](_ => 0);
    payloadLenXor := 0;
    ghost var zero := Parity(0, Zeros(maxPayload));
    assert xorBuf[..] == zero.bytes;
    for i := 0 to |group|
      invariant Parity(payloadLenXor, xorBuf[..]) == AbsorbAll(zero, ps[..i])
    {
      assert ps[..i + 1][..i] == ps[..i];
      var payload := PayloadOf(group[i]);
      payloadLenXor := XorLen(payloadLenXor, |payload| % 65536);
      XorInto(xorBuf, payload);
    }
    assert ps[..|ps|] == ps;
    bytes := xorBuf[..];
  }

  lemma AddTwice(a: u32, n: int, m: int)
    ensures Add(Add(a, n), m) == Add(a, n + m)
  {
    ShiftModulo(a + n + m, (a + n) / MOD);
  }
}
