/**
 Packet headers and their wire format (modules/transport/Packet.h, Packet.cpp).

 Encoders write into a caller-owned buffer, as the C++ does; `...Bytes` is the
 wire image they must produce, and `Parse...` is the decoder. The lemmas at the
 end of each section tie the two together in both directions.
 */
module Packet {
  import opened Cyclic

  const PROTOCOL_VERSION: byte := 1
  const PACKET_HEADER_SIZE: nat := 12
  const DATA_HEADER_SIZE: nat := 9
  const FEC_HEADER_SIZE: nat := 12
  const NACK_HEADER_SIZE: nat := 2
  const MAX_PAYLOAD: nat := 1200
  const MAX_DATA_PACKET_SIZE: nat := PACKET_HEADER_SIZE + DATA_HEADER_SIZE + MAX_PAYLOAD
  /** (1221 - 12 - 2) / 6 entries of six bytes each. */
  const MAX_NACK_ENTRIES: nat := 201

  /** Where the payload of a DATA packet starts. */
  const DATA_PAYLOAD: nat := PACKET_HEADER_SIZE + DATA_HEADER_SIZE
  /** Where the payload of an FEC packet starts. */
  const FEC_PAYLOAD: nat := PACKET_HEADER_SIZE + FEC_HEADER_SIZE

  /** `PacketType` values on the wire. */
  const DATA: byte := 1
  const FEC: byte := 2
  const NACK: byte := 3
  const STATS: byte := 6

  /** `DataHeader::flags` bits. */
  const FLAG_KEYFRAME: byte := 1
  const FLAG_RETRANSMIT: byte := 2

  datatype Code = InvalidArg | NetError | Internal
  datatype Status = Ok | Error(code: Code)
  datatype Result<+T> = Success(value: T) | Failure(code: Code)

  type Bytes = seq<byte>

  datatype PacketHeader = PacketHeader(version: byte, kind: byte, streamId: u16, seq_: u32, timestampMs: u32)
  datatype DataHeader = DataHeader(frameId: u32, fragIndex: u16, fragCount: u16, flags: byte)
  datatype FecHeader = FecHeader(groupBaseSeq: u32, groupSize: u16, payloadLenXor: u16,
                                 groupIndex: byte, groupCount: byte, reserved: u16)

  predicate IsKnownPacketType(kind: byte) {
    DATA <= kind <= STATS
  }

  // ----- Network byte order -----

  function U16Bytes(x: u16): Bytes {
    [x / 256, x % 256]
  }

  function U32Bytes(x: u32): Bytes {
    U16Bytes(x / 65536) + U16Bytes(x % 65536)
  }

  function ReadU16(s: Bytes, at: nat): u16
    requires at + 2 <= |s|
  {
    s[at] as int * 256 + s[at + 1]
  }

  function ReadU32(s: Bytes, at: nat): u32
    requires at + 4 <= |s|
  {
    ReadU16(s, at) as int * 65536 + ReadU16(s, at + 2)
  }

  lemma ReadAfterWrite16(s: Bytes, at: nat, x: u16)
    requires at + 2 <= |s| && s[at..at + 2] == U16Bytes(x)
    ensures ReadU16(s, at) == x
  {
    assert s[at] == s[at..at + 2][0] && s[at + 1] == s[at..at + 2][1];
  }

  lemma ReadAfterWrite32(s: Bytes, at: nat, x: u32)
    requires at + 4 <= |s| && s[at..at + 4] == U32Bytes(x)
    ensures ReadU32(s, at) == x
  {
    var hi, lo := x / 65536, x % 65536;
    assert s[at..at + 2] == s[at..at + 4][..2] == U16Bytes(hi);
    assert s[at + 2..at + 4] == s[at..at + 4][2..] == U16Bytes(lo);
    ReadAfterWrite16(s, at, hi);
    ReadAfterWrite16(s, at + 2, lo);
  }

  lemma WriteAfterRead16(s: Bytes, at: nat)
    requires at + 2 <= |s|
    ensures U16Bytes(ReadU16(s, at)) == s[at..at + 2]
  {
    var x := s[at] as int * 256 + s[at + 1];
    assert x / 256 == s[at] && x % 256 == s[at + 1];
  }

  lemma WriteAfterRead32(s: Bytes, at: nat)
    requires at + 4 <= |s|
    ensures U32Bytes(ReadU32(s, at)) == s[at..at + 4]
  {
    var hi: int, lo: int := ReadU16(s, at), ReadU16(s, at + 2);
    assert (hi * 65536 + lo) / 65536 == hi && (hi * 65536 + lo) % 65536 == lo;
    WriteAfterRead16(s, at);
    WriteAfterRead16(s, at + 2);
    assert s[at..at + 4] == s[at..at + 2] + s[at + 2..at + 4];
  }

  /** `b` with `src` written over it at `off`. */
  function Splice(b: Bytes, off: nat, src: Bytes): (r: Bytes)
    requires off + |src| <= |b|
    ensures |r| == |b|
  {
    b[..off] + src + b[off + |src|..]
  }

  lemma SpliceAdjacent(b: Bytes, off: nat, x: Bytes, y: Bytes)
    requires off + |x| + |y| <= |b|
    ensures Splice(Splice(b, off, x), off + |x|, y) == Splice(b, off, x + y)
  {
  }

  lemma SpliceWhole(b: Bytes, src: Bytes)
    requires |b| == |src|
    ensures Splice(b, 0, src) == src
  {
  }

  /** `memcpy` of `src` to `buf + off`. */
  method CopyTo(src: Bytes, buf: array<byte>, off: nat)
    requires off + |src| <= buf.Length
    modifies buf
    ensures buf[..] == Splice(old(buf[..]), off, src)
  {
    forall i | 0 <= i < |src| {
      buf[off + i] := src[i];
    }
  }

  /** `memcpy` of a further field at `at`, just after the bytes `done` already written. */
  method CopyNext(src: Bytes, buf: array<byte>, at: nat, ghost done: Bytes, ghost before: Bytes)
    requires |done| <= at && at + |src| <= buf.Length == |before|
    requires buf[..] == Splice(before, at - |done|, done)
    modifies buf
    ensures buf[..] == Splice(before, at - |done|, done + src)
  {
    CopyTo(src, buf, at);
    SpliceAdjacent(before, at - |done|, done, src);
  }

  // ----- Common header -----

  predicate ValidPacketHeader(h: PacketHeader) {
    h.version == PROTOCOL_VERSION && IsKnownPacketType(h.kind)
  }

  function PacketHeaderBytes(h: PacketHeader): (s: Bytes)
    ensures |s| == PACKET_HEADER_SIZE
  {
    [h.version, h.kind] + U16Bytes(h.streamId) + U32Bytes(h.seq_) + U32Bytes(h.timestampMs)
  }

  method EncodePacketHeader(h: PacketHeader, buf: array<byte>, off: nat) returns (st: Status)
    requires off <= buf.Length
    modifies buf
    ensures st == (if buf.Length - off >= PACKET_HEADER_SIZE && ValidPacketHeader(h) then Ok else Error(InvalidArg))
    ensures st.Ok? ==> buf[..] == Splice(old(buf[..]), off, PacketHeaderBytes(h))
    ensures !st.Ok? ==> buf[..] == old(buf[..])
  {
    if buf.Length - off < PACKET_HEADER_SIZE { return Error(InvalidArg); }
    if h.version != PROTOCOL_VERSION { return Error(InvalidArg); }
    if !IsKnownPacketType(h.kind) { return Error(InvalidArg); }
    ghost var b := buf[..];
    CopyTo([h.version, h.kind], buf, off);
    CopyNext(U16Bytes(h.streamId), buf, off + 2, [h.version, h.kind], b);
    CopyNext(U32Bytes(h.seq_), buf, off + 4, [h.version, h.kind] + U16Bytes(h.streamId), b);
    CopyNext(U32Bytes(h.timestampMs), buf, off + 8, [h.version, h.kind] + U16Bytes(h.streamId) + U32Bytes(h.seq_), b);
    st := Ok;
  }

  function ParsePacketHeader(s: Bytes): (r: Result<PacketHeader>)
    ensures r.Success? ==> |s| >= PACKET_HEADER_SIZE && ValidPacketHeader(r.value)
  {
    if |s| < PACKET_HEADER_SIZE then Failure(InvalidArg)
    else if s[0] != PROTOCOL_VERSION then Failure(NetError)
    else if !IsKnownPacketType(s[1]) then Failure(NetError)
    else Success(PacketHeader(s[0], s[1], ReadU16(s, 2), ReadU32(s, 4), ReadU32(s, 8)))
  }

  lemma PacketHeaderRoundTrip(h: PacketHeader, rest: Bytes)
    ensures ParsePacketHeader(PacketHeaderBytes(h) + rest)
         == if ValidPacketHeader(h) then Success(h) else Failure(NetError)
  {
    var s := PacketHeaderBytes(h) + rest;
    assert s[2..4] == U16Bytes(h.streamId) && s[4..8] == U32Bytes(h.seq_) && s[8..12] == U32Bytes(h.timestampMs);
    ReadAfterWrite16(s, 2, h.streamId);
    ReadAfterWrite32(s, 4, h.seq_);
    ReadAfterWrite32(s, 8, h.timestampMs);
  }

  /** Every packet the decoder accepts starts with the image of the header it returns. */
  lemma PacketHeaderCanonical(s: Bytes)
    requires ParsePacketHeader(s).Success?
    ensures s[..PACKET_HEADER_SIZE] == PacketHeaderBytes(ParsePacketHeader(s).value)
  {
    WriteAfterRead16(s, 2);
    WriteAfterRead32(s, 4);
    WriteAfterRead32(s, 8);
    assert s[..12] == [s[0], s[1]] + s[2..4] + s[4..8] + s[8..12];
  }

  // ----- DATA header -----

  predicate ValidDataHeader(h: DataHeader) {
    h.fragIndex < h.fragCount
  }

  function DataHeaderBytes(h: DataHeader): (s: Bytes)
    ensures |s| == DATA_HEADER_SIZE
  {
    U32Bytes(h.frameId) + U16Bytes(h.fragIndex) + U16Bytes(h.fragCount) + [h.flags]
  }

  method EncodeDataHeader(h: DataHeader, buf: array<byte>, off: nat) returns (st: Status)
    requires off <= buf.Length
    modifies buf
    ensures st == (if buf.Length - off >= DATA_HEADER_SIZE && ValidDataHeader(h) then Ok else Error(InvalidArg))
    ensures st.Ok? ==> buf[..] == Splice(old(buf[..]), off, DataHeaderBytes(h))
    ensures !st.Ok? ==> buf[..] == old(buf[..])
  {
    if buf.Length - off < DATA_HEADER_SIZE { return Error(InvalidArg); }
    if h.fragCount == 0 { return Error(InvalidArg); }
    if h.fragIndex >= h.fragCount { return Error(InvalidArg); }
    ghost var b := buf[..];
    CopyTo(U32Bytes(h.frameId), buf, off);
    CopyNext(U16Bytes(h.fragIndex), buf, off + 4, U32Bytes(h.frameId), b);
    CopyNext(U16Bytes(h.fragCount), buf, off + 6, U32Bytes(h.frameId) + U16Bytes(h.fragIndex), b);
    CopyNext([h.flags], buf, off + 8, U32Bytes(h.frameId) + U16Bytes(h.fragIndex) + U16Bytes(h.fragCount), b);
    st := Ok;
  }

  function ParseDataHeader(s: Bytes): (r: Result<DataHeader>)
    ensures r.Success? ==> |s| >= DATA_HEADER_SIZE && ValidDataHeader(r.value)
  {
    if |s| < DATA_HEADER_SIZE then Failure(InvalidArg)
    else
      var fragIndex, fragCount := ReadU16(s, 4), ReadU16(s, 6);
      if fragCount == 0 then Failure(NetError)
      else if fragIndex >= fragCount then Failure(NetError)
      else Success(DataHeader(ReadU32(s, 0), fragIndex, fragCount, s[8]))
  }

  lemma DataHeaderRoundTrip(h: DataHeader, rest: Bytes)
    ensures ParseDataHeader(DataHeaderBytes(h) + rest)
         == if ValidDataHeader(h) then Success(h) else Failure(NetError)
  {
    var s := DataHeaderBytes(h) + rest;
    assert s[0..4] == U32Bytes(h.frameId) && s[4..6] == U16Bytes(h.fragIndex) && s[6..8] == U16Bytes(h.fragCount);
    ReadAfterWrite32(s, 0, h.frameId);
    ReadAfterWrite16(s, 4, h.fragIndex);
    ReadAfterWrite16(s, 6, h.fragCount);
  }

  lemma DataHeaderCanonical(s: Bytes)
    requires ParseDataHeader(s).Success?
    ensures s[..DATA_HEADER_SIZE] == DataHeaderBytes(ParseDataHeader(s).value)
  {
    WriteAfterRead32(s, 0);
    WriteAfterRead16(s, 4);
    WriteAfterRead16(s, 6);
    assert s[..9] == s[0..4] + s[4..6] + s[6..8] + [s[8]];
  }

  // ----- A whole DATA packet -----

  function DataImage(h: PacketHeader, d: DataHeader, payload: Bytes): (s: Bytes)
    ensures |s| == DATA_PAYLOAD + |payload|
  {
    PacketHeaderBytes(h) + DataHeaderBytes(d) + payload
  }

  /** A buffer that decodes as a DATA packet (the payload may be empty). */
  predicate IsData(s: Bytes) {
    && ParsePacketHeader(s).Success?
    && ParsePacketHeader(s).value.kind == DATA
    && ParseDataHeader(s[PACKET_HEADER_SIZE..]).Success?
  }

  lemma DataImageRoundTrip(h: PacketHeader, d: DataHeader, payload: Bytes)
    requires ValidPacketHeader(h) && ValidDataHeader(d)
    ensures var s := DataImage(h, d, payload);
      && ParsePacketHeader(s) == Success(h)
      && ParseDataHeader(s[PACKET_HEADER_SIZE..]) == Success(d)
      && s[DATA_PAYLOAD..] == payload
  {
    var s := DataImage(h, d, payload);
    PacketHeaderRoundTrip(h, DataHeaderBytes(d) + payload);
    assert s == PacketHeaderBytes(h) + (DataHeaderBytes(d) + payload);
    DataHeaderRoundTrip(d, payload);
    assert s[PACKET_HEADER_SIZE..] == DataHeaderBytes(d) + payload;
  }

  /** Size the buffer, write both headers, then the payload: the tail that packing a fragment
      (modules/transport/Packetizer.cpp:103-120) and rebuilding a lost one (FecDecoder.cpp:147-156) share. */
  method WriteData(h: PacketHeader, d: DataHeader, payload: Bytes) returns (st: Status, out: Bytes)
    ensures st == if ValidPacketHeader(h) && ValidDataHeader(d) then Ok else Error(InvalidArg)
    ensures st.Ok? ==> out == DataImage(h, d, payload)
  {
    hide ValidPacketHeader, ValidDataHeader, PacketHeaderBytes, DataHeaderBytes;
    var buf := new byte[DATA_PAYLOAD + |payload|](_ => 0);
    ghost var blank := buf[..];
    st := EncodePacketHeader(h, buf, 0);
    if !st.Ok? { return st, []; }
    st := EncodeDataHeader(d, buf, PACKET_HEADER_SIZE);
    if !st.Ok? { return st, []; }
    SpliceAdjacent(blank, 0, PacketHeaderBytes(h), DataHeaderBytes(d));
    ghost var head := PacketHeaderBytes(h) + DataHeaderBytes(d);
    CopyNext(payload, buf, DATA_PAYLOAD, head, blank);
    SpliceWhole(blank, head + payload);
    hide Splice;
    out := buf[..];
  }

  // ----- FEC header -----

  function FecHeaderBytes(h: FecHeader): (s: Bytes)
    ensures |s| == FEC_HEADER_SIZE
  {
    U32Bytes(h.groupBaseSeq) + U16Bytes(h.groupSize) + U16Bytes(h.payloadLenXor)
    + [h.groupIndex, h.groupCount] + U16Bytes(h.reserved)
  }

  method EncodeFecHeader(h: FecHeader, buf: array<byte>, off: nat) returns (st: Status)
    requires off <= buf.Length
    modifies buf
    ensures st == (if buf.Length - off >= FEC_HEADER_SIZE && h.groupSize >= 2 then Ok else Error(InvalidArg))
    ensures st.Ok? ==> buf[..] == Splice(old(buf[..]), off, FecHeaderBytes(h))
    ensures !st.Ok? ==> buf[..] == old(buf[..])
  {
    if buf.Length - off < FEC_HEADER_SIZE { return Error(InvalidArg); }
    if h.groupSize < 2 { return Error(InvalidArg); }
    ghost var b := buf[..];
    CopyTo(U32Bytes(h.groupBaseSeq), buf, off);
    CopyNext(U16Bytes(h.groupSize), buf, off + 4, U32Bytes(h.groupBaseSeq), b);
    CopyNext(U16Bytes(h.payloadLenXor), buf, off + 6, U32Bytes(h.groupBaseSeq) + U16Bytes(h.groupSize), b);
    CopyNext([h.groupIndex, h.groupCount], buf, off + 8, U32Bytes(h.groupBaseSeq) + U16Bytes(h.groupSize) + U16Bytes(h.payloadLenXor), b);
    CopyNext(U16Bytes(h.reserved), buf, off + 10,
             U32Bytes(h.groupBaseSeq) + U16Bytes(h.groupSize) + U16Bytes(h.payloadLenXor) + [h.groupIndex, h.groupCount], b);
    st := Ok;
  }

  function ParseFecHeader(s: Bytes): (r: Result<FecHeader>)
    ensures r.Success? ==> |s| >= FEC_HEADER_SIZE && r.value.groupSize >= 2
  {
    if |s| < FEC_HEADER_SIZE then Failure(InvalidArg)
    else if ReadU16(s, 4) < 2 then Failure(NetError)
    else Success(FecHeader(ReadU32(s, 0), ReadU16(s, 4), ReadU16(s, 6), s[8], s[9], ReadU16(s, 10)))
  }

  lemma FecHeaderRoundTrip(h: FecHeader, rest: Bytes)
    ensures ParseFecHeader(FecHeaderBytes(h) + rest)
         == if h.groupSize >= 2 then Success(h) else Failure(NetError)
  {
    var s := FecHeaderBytes(h) + rest;
    assert s[0..4] == U32Bytes(h.groupBaseSeq) && s[4..6] == U16Bytes(h.groupSize)
        && s[6..8] == U16Bytes(h.payloadLenXor) && s[10..12] == U16Bytes(h.reserved);
    ReadAfterWrite32(s, 0, h.groupBaseSeq);
    ReadAfterWrite16(s, 4, h.groupSize);
    ReadAfterWrite16(s, 6, h.payloadLenXor);
    ReadAfterWrite16(s, 10, h.reserved);
  }
}
