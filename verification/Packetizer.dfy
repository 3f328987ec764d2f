/**
 Cutting a frame into DATA packets (modules/transport/Packetizer.cpp).
 */
module Packetizer {
  import opened Basics
  import opened Cyclic
  import opened Packet

  /** `EncodedFrameView`. */
  datatype Frame = Frame(data: Bytes, frameId: u64, captureMs: u64, isKey: bool)

  /** Rounded up: the fragments cover the frame and the last one is not empty. */
  function FragmentCount(len: nat): (n: nat)
    ensures 1200 * n >= len
    ensures n > 0 ==> 1200 * (n - 1) < len
  {
    len / 1200 + if len % 1200 != 0 then 1 else 0
  }

  function Payload(f: Frame, i: nat): (p: Bytes)
    requires 1200 * i < |f.data|
    ensures 1 <= |p| <= MAX_PAYLOAD
  {
    f.data[1200 * i..1200 * i + Min(1200, |f.data| - 1200 * i)]
  }

  function FragmentHeader(streamId: u16, seq_: u32, f: Frame): PacketHeader {
    PacketHeader(PROTOCOL_VERSION, DATA, streamId, seq_, Wrap(f.captureMs))
  }

  function Flags(isKey: bool, isRetransmit: bool): byte {
    (if isKey then FLAG_KEYFRAME else 0) + (if isRetransmit then FLAG_RETRANSMIT else 0)
  }

  function FragmentData(f: Frame, i: u16, n: u16, isRetransmit: bool): DataHeader {
    DataHeader(Wrap(f.frameId), i, n, Flags(f.isKey, isRetransmit))
  }

  predicate CanFragment(f: Frame, i: u16, n: u16) {
    f.data != [] && i < n && 1200 * i < |f.data|
  }

  /** Fragment `i` of `n`, as a whole UDP packet. */
  function FragmentPacket(streamId: u16, seq_: u32, f: Frame, i: u16, n: u16, isRetransmit: bool): Bytes
    requires CanFragment(f, i, n)
  {
    DataImage(FragmentHeader(streamId, seq_, f), FragmentData(f, i, n, isRetransmit), Payload(f, i))
  }

  /** The out-parameter is reused by callers and untouched on failure: `before` comes back. */
  method PacketizeOneFragment(streamId: u16, seq_: u32, f: Frame, fragIndex: u16, fragCount: u16,
                              isRetransmit: bool, before: Bytes)
    returns (st: Status, out: Bytes)
    ensures st == Ok || st == Error(InvalidArg)
    ensures st.Ok? <==> CanFragment(f, fragIndex, fragCount)
    ensures st.Ok? <==> fragIndex < fragCount && 1200 * fragIndex < |f.data|
    ensures st.Ok? ==> out == FragmentPacket(streamId, seq_, f, fragIndex, fragCount, isRetransmit)
    ensures !st.Ok? ==> out == before
  {
    out := before;
    if f.data == [] { return Error(InvalidArg), out; }
    if fragCount == 0 { return Error(InvalidArg), out; }
    if fragIndex >= fragCount { return Error(InvalidArg), out; }
    var payloadOffset := fragIndex as int * 1200;
    if payloadOffset >= |f.data| { return Error(InvalidArg), out; }
    var payloadLen := Min(1200, |f.data| - payloadOffset);

    var packetHeader := PacketHeader(PROTOCOL_VERSION, DATA, streamId, seq_, f.captureMs % MOD);
    var flags := if f.isKey then FLAG_KEYFRAME else 0;
    if isRetransmit { flags := flags + FLAG_RETRANSMIT; }
    var dataHeader := DataHeader(f.frameId % MOD, fragIndex, fragCount, flags);

    hide DataImage;
    st, out := WriteData(packetHeader, dataHeader, f.data[payloadOffset..payloadOffset + payloadLen]);
  }

  /** Every fragment of `f`, the first one sent with number `base` (wrapped). */
  function FramePackets(streamId: u16, base: int, f: Frame): (ps: seq<Bytes>)
    requires f.data != [] && FragmentCount(|f.data|) <= 65535
    ensures |ps| == FragmentCount(|f.data|)
  {
    var n := FragmentCount(|f.data|);
    seq(n, i requires 0 <= i < n => FragmentPacket(streamId, Wrap(base + i), f, i, n, false))
  }

  class Packetizer {
    const streamId: u16
    var nextSeq: u32

    constructor (streamId: u16, initialSeq: u32)
      ensures this.streamId == streamId && nextSeq == initialSeq
    {
      this.streamId := streamId;
      nextSeq := initialSeq;
    }

    /** All or nothing: a failing call changes neither `nextSeq` nor the caller's packets. */
    method Packetize(f: Frame, before: seq<Bytes>) returns (st: Status, out: seq<Bytes>)
      modifies this
      ensures st == if f.data != [] && FragmentCount(|f.data|) <= 65535 then Ok else Error(InvalidArg)
      ensures st.Ok? ==> out == FramePackets(streamId, old(nextSeq), f)
      ensures st.Ok? ==> nextSeq == Wrap(old(nextSeq) + |out|)
      ensures !st.Ok? ==> out == before && nextSeq == old(nextSeq)
    {
      out := before;
      if f.data == [] { return Error(InvalidArg), out; }
      var fragCount := FragmentCount(|f.data|);
      if fragCount > 65535 { return Error(InvalidArg), out; }
      out := [];
      var seq_ := nextSeq;
      for i := 0 to fragCount
        invariant out == FramePackets(streamId, old(nextSeq), f)[..i]
        invariant seq_ == Wrap(old(nextSeq) + i)
        invariant nextSeq == old(nextSeq)
      {
        var one: Bytes;
        st, one := PacketizeOneFragment(streamId, seq_, f, i, fragCount, false, []);
        out := out + [one];
        AddWrapped(old(nextSeq) + i, 1);
        seq_ := Add(seq_, 1);
      }
      nextSeq := seq_;
      st := Ok;
    }
  }

  // ----- Putting the payloads back together -----

  /** The payloads of fragments `0..n`, joined. */
  function Joined(f: Frame, n: nat): Bytes
    requires n > 0 ==> 1200 * (n - 1) < |f.data|
  {
    if n == 0 then [] else Joined(f, n - 1) + Payload(f, n - 1)
  }

  lemma {:induction false} JoinedIsPrefix(f: Frame, n: nat)
    requires n > 0 ==> 1200 * (n - 1) < |f.data|
    ensures Joined(f, n) == f.data[..Min(1200 * n, |f.data|)]
  {
    if n != 0 { JoinedIsPrefix(f, n - 1); }
  }

  /** Cutting and joining gives the frame back. */
  lemma JoinedIsFrame(f: Frame)
    requires f.data != []
    ensures Joined(f, FragmentCount(|f.data|)) == f.data
  {
    JoinedIsPrefix(f, FragmentCount(|f.data|));
  }
}
