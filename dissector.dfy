/**
 * The frame dissector of afpacket_acquire: a received frame and the length the receive
 * call reported are walked Ethernet -> IPv4 -> TCP through a fixed sequence of checks,
 * the first failing one deciding the result.
 */
module Dissector {
  import opened Bytes
  import opened Checksum
  import opened Headers
  import opened AddressFilter

  /** Size of the receive area the frame is read into (recv(fd, pkt, 2000, MSG_TRUNC)). */
  const RecvSize: nat := 2000
  /** HTTP_PORT: the only TCP port the dissector keeps. */
  const HttpPort: u16 := 80
  /** Offset of the IPv4 header: right behind the Ethernet header. */
  const IpOffset: nat := EthernetHeaderLen

  /** What afpacket_acquire returns: PKT_ERROR, PKT_PASS or the received length. */
  datatype Verdict = PktError | PktPass | Len(n: int)

  /** How far the dissection got, which decides which Packet fields it records. */
  datatype Stage =
    | Received        // fromlen <= 0: nothing recorded
    | EthDecoded      // ethh recorded
    | IpDecoded       // ethh and ip4h recorded
    | TcpDecoded      // ethh, ip4h and tcph recorded
    | PayloadDecoded  // all of them and payload, payload_len
  {
    function Rank(): nat
    {
      match this
      case Received => 0
      case EthDecoded => 1
      case IpDecoded => 2
      case TcpDecoded => 3
      case PayloadDecoded => 4
    }
  }

  datatype Dissection = Dissection(verdict: Verdict, stage: Stage)

  // Derived quantities, as the code computes them.

  /** `len` of the code: total length minus header length, stored in a uint8_t (mod 256). */
  function SegmentLen(buf: seq<byte>): (r: byte)
    requires |buf| >= RecvSize
    ensures (IpTotalLen(buf, IpOffset) - IpHlen(buf, IpOffset) - r) % 0x100 == 0
    ensures IpHlen(buf, IpOffset) <= IpTotalLen(buf, IpOffset) < IpHlen(buf, IpOffset) + 0x100 ==>
              r == IpTotalLen(buf, IpOffset) - IpHlen(buf, IpOffset)
  {
    (IpTotalLen(buf, IpOffset) - IpHlen(buf, IpOffset)) % 0x100
  }

  /** Offset of the TCP header: behind the IPv4 header and its options. */
  function TcpOffset(buf: seq<byte>): (t: nat)
    requires |buf| >= RecvSize
    ensures IpOffset <= t <= IpOffset + 60
  {
    IpOffset + IpHlen(buf, IpOffset)
  }

  /** `payload_len` of the code: `len` minus the TCP header length. */
  function PayloadLen(buf: seq<byte>): (r: int)
    requires |buf| >= RecvSize
    ensures r <= SegmentLen(buf)
    ensures r >= 0 <==> TcpHlen(buf, TcpOffset(buf)) <= SegmentLen(buf)
  {
    SegmentLen(buf) - TcpHlen(buf, TcpOffset(buf))
  }

  function IpHeader(buf: seq<byte>): seq<byte>
    requires |buf| >= RecvSize
  {
    buf[IpOffset..TcpOffset(buf)]
  }

  /** The `tlen` octets from the TCP header on, over which the TCP checksum is computed. */
  function TcpSegment(buf: seq<byte>, tlen: nat): seq<byte>
    requires |buf| >= RecvSize && tlen < 0x100
  {
    buf[TcpOffset(buf)..TcpOffset(buf) + tlen]
  }

  /**
   * The decision sequence of afpacket_acquire, in the code's order.  The length check
   * `fromlen >= 14` is not made; the buffer is the whole receive area, so every
   * octet read lies inside it whatever `fromlen` says.
   */
  function Dissect(buf: seq<byte>, fromlen: int): (d: Dissection)
    requires |buf| >= RecvSize
    ensures d.verdict.Len? ==> d.verdict.n == fromlen
  {
    if fromlen <= 0 then Dissection(Len(fromlen), Received)
    else if EtherType(buf, 0) != EthernetTypeIp then Dissection(PktError, EthDecoded)
    else DissectIPv4(buf, fromlen)
  }

  /** The "Decode IPv4" part of the sequence, once the Ethernet type has been accepted. */
  function DissectIPv4(buf: seq<byte>, fromlen: int): (d: Dissection)
    requires |buf| >= RecvSize
    ensures d.verdict.Len? ==> d.verdict.n == fromlen
  {
    if IpVersion(buf, IpOffset) != 4 then Dissection(PktError, EthDecoded)
    else if IpHlen(buf, IpOffset) < IPv4HeaderLen then Dissection(PktError, IpDecoded)
    else if IpTotalLen(buf, IpOffset) < IpHlen(buf, IpOffset) then Dissection(PktError, IpDecoded)
    else if fromlen < IpTotalLen(buf, IpOffset) then Dissection(PktError, IpDecoded)
    else if SegmentLen(buf) < TcpHeaderLen then Dissection(PktError, IpDecoded)
    else if IpStoredChecksum(buf, IpOffset) != IPv4HeaderChecksum(IpHeader(buf)) then
      Dissection(PktError, IpDecoded)
    // the code's comment speaks of passing non-TCP traffic; the code rejects it
    else if IpProto(buf, IpOffset) != IpProtoTcp then Dissection(PktError, IpDecoded)
    else DissectTcp(buf, fromlen)
  }

  /** The "Decode TCP" part of the sequence, once the IPv4 header has been accepted. */
  function DissectTcp(buf: seq<byte>, fromlen: int): (d: Dissection)
    requires |buf| >= RecvSize
    ensures d.verdict.Len? ==> d.verdict.n == fromlen
  {
    var t := TcpOffset(buf);
    if SegmentLen(buf) < TcpHlen(buf, t) then Dissection(PktError, TcpDecoded)
    else if TcpDstPort(buf, t) != HttpPort && TcpSrcPort(buf, t) != HttpPort then
      Dissection(PktPass, TcpDecoded)
    else if FilterIpAddress(IpSrc(buf, IpOffset), SsdpMulticast) == 0 then
      Dissection(PktPass, TcpDecoded)
    else if FilterIpAddress(IpDst(buf, IpOffset), SsdpMulticast) == 0 then
      Dissection(PktPass, TcpDecoded)
    else if PayloadLen(buf) > 0 then Dissection(PktPass, PayloadDecoded)
    else if TcpStoredChecksum(buf, t) !=
            TcpChecksum(IpSrc(buf, IpOffset), IpDst(buf, IpOffset),
                        TcpSegment(buf, PayloadLen(buf) + TcpHlen(buf, t))) then
      Dissection(PktError, PayloadDecoded)
    else Dissection(Len(fromlen), PayloadDecoded)
  }

  /** The value afpacket_acquire returns. */
  function Classify(buf: seq<byte>, fromlen: int): (r: Verdict)
    requires |buf| >= RecvSize
    ensures r.Len? ==> r.n == fromlen
    ensures fromlen <= 0 ==> r == Len(fromlen)
  {
    Dissect(buf, fromlen).verdict
  }

  // ---------------------------------------------------------------------------
  // A reference description of the outcome, free of the order of the checks.

  /** The structural conditions on the Ethernet and IPv4 headers and the lengths. */
  ghost predicate StructurallyValid(buf: seq<byte>, fromlen: int)
    requires |buf| >= RecvSize
  {
    && EtherType(buf, 0) == EthernetTypeIp
    && IpVersion(buf, IpOffset) == 4
    && IpHlen(buf, IpOffset) >= IPv4HeaderLen
    && IpTotalLen(buf, IpOffset) >= IpHlen(buf, IpOffset)
    && fromlen >= IpTotalLen(buf, IpOffset)
    && (IpTotalLen(buf, IpOffset) - IpHlen(buf, IpOffset)) % 0x100 >= TcpHeaderLen
  }

  /** A structurally valid IPv4 frame with a correct header checksum carrying TCP whose
    * header fits in the (wrapped) segment length. */
  ghost predicate WellFormedTcp(buf: seq<byte>, fromlen: int)
    requires |buf| >= RecvSize
  {
    && StructurallyValid(buf, fromlen)
    && IpStoredChecksum(buf, IpOffset) == IPv4HeaderChecksum(buf[IpOffset..IpOffset + IpHlen(buf, IpOffset)])
    && IpProto(buf, IpOffset) == IpProtoTcp
    && TcpHlen(buf, TcpOffset(buf)) <= SegmentLen(buf)
  }

  /** The selection policy: HTTP on either side, no SSDP multicast address, and `payload_len`
    * 0, i.e. the wrapped segment length equals the TCP header length. */
  ghost predicate Selected(buf: seq<byte>)
    requires |buf| >= RecvSize
  {
    && (TcpSrcPort(buf, TcpOffset(buf)) == HttpPort || TcpDstPort(buf, TcpOffset(buf)) == HttpPort)
    && IpSrc(buf, IpOffset) != SsdpMulticast
    && IpDst(buf, IpOffset) != SsdpMulticast
    && SegmentLen(buf) == TcpHlen(buf, TcpOffset(buf))
  }

  /** The stored TCP checksum matches the one computed over the whole (wrapped) segment. */
  ghost predicate TcpChecksumValid(buf: seq<byte>)
    requires |buf| >= RecvSize
  {
    TcpStoredChecksum(buf, TcpOffset(buf)) ==
      TcpChecksum(IpSrc(buf, IpOffset), IpDst(buf, IpOffset), TcpSegment(buf, SegmentLen(buf)))
  }

  /** Two buffers that hold the same octets from `lo` up to `hi`. */
  ghost predicate AgreeOn(a: seq<byte>, b: seq<byte>, lo: nat, hi: nat)
    requires hi <= |a| && hi <= |b|
  {
    forall k :: lo <= k < hi ==> a[k] == b[k]
  }
}
