/**
 * The Packet record of the capture code and the three routines that work on it in
 * place: afpacket_acquire records the header positions while it dissects the received
 * frame, exchange_for_respond_pkt turns the frame around and ReCalculateChecksum
 * rewrites its checksums.  Header pointers are offsets into the packet buffer, a NULL
 * pointer is None.
 */
module Capture {
  import opened Wrappers
  import opened Bytes
  import opened Checksum
  import opened Headers
  import AddressFilter
  import opened Dissector
  import opened Responder

  class Packet {
    /** The receive area the frame is read into. */
    const pkt: array<byte>
    var ethh: Option<nat>
    var ip4h: Option<nat>
    var tcph: Option<nat>
    var payload: Option<nat>
    var payloadLen: u16

    constructor (buffer: array<byte>)
      ensures pkt == buffer
      ensures ethh == None && ip4h == None && tcph == None && payload == None && payloadLen == 0
    {
      pkt := buffer;
      ethh, ip4h, tcph, payload := None, None, None, None;
      payloadLen := 0;
    }
  }

  /**
   * afpacket_acquire after the receive: `fromlen` is what recv reported and the frame
   * sits in `p.pkt`.  The result is the dissector's verdict, and each Packet field is
   * written exactly when the dissection got past the line that records it: ethh once the
   * length is positive, ip4h once the IP version is 4, tcph once the protocol is TCP,
   * payload and payload_len once the address filter is passed.  Fields not reached keep
   * what they held.
   */
  method Acquire(p: Packet, fromlen: int) returns (r: Verdict)
    requires p.pkt.Length >= RecvSize
    modifies p
    ensures var buf := old(p.pkt[..]);
      var rank := Dissect(buf, fromlen).stage.Rank();
      && r == Classify(buf, fromlen)
      && p.ethh == (if rank >= EthDecoded.Rank() then Some(0) else old(p.ethh))
      && p.ip4h == (if rank >= IpDecoded.Rank() then Some(IpOffset) else old(p.ip4h))
      && p.tcph == (if rank >= TcpDecoded.Rank() then Some(TcpOffset(buf)) else old(p.tcph))
      && p.payload == (if rank >= PayloadDecoded.Rank()
                       then Some(TcpOffset(buf) + TcpHlen(buf, TcpOffset(buf)))
                       else old(p.payload))
      && p.payloadLen == (if rank >= PayloadDecoded.Rank() then PayloadLen(buf) else old(p.payloadLen))
  {
    if fromlen <= 0 {
      return Len(fromlen);
    }
    // Decode ethernet
    p.ethh := Some(0);
    if EtherType(p.pkt[..], 0) != EthernetTypeIp {
      return PktError;
    }
    r := DecodeIPv4(p, fromlen);
  }

  /**
   * The "Decode IPv4" block of afpacket_acquire: the header starts behind the Ethernet
   * header; ip4h is recorded once the version is 4.
   */
  method DecodeIPv4(p: Packet, fromlen: int) returns (r: Verdict)
    requires p.pkt.Length >= RecvSize
    modifies p
    ensures var buf := old(p.pkt[..]);
      var rank := DissectIPv4(buf, fromlen).stage.Rank();
      && r == DissectIPv4(buf, fromlen).verdict
      && p.ethh == old(p.ethh)
      && p.ip4h == (if rank >= IpDecoded.Rank() then Some(IpOffset) else old(p.ip4h))
      && p.tcph == (if rank >= TcpDecoded.Rank() then Some(TcpOffset(buf)) else old(p.tcph))
      && p.payload == (if rank >= PayloadDecoded.Rank()
                       then Some(TcpOffset(buf) + TcpHlen(buf, TcpOffset(buf)))
                       else old(p.payload))
      && p.payloadLen == (if rank >= PayloadDecoded.Rank() then PayloadLen(buf) else old(p.payloadLen))
  {
    var buf := p.pkt[..];
    var cur := EthernetHeaderLen;
    if IpVersion(buf, cur) != 4 {
      return PktError;
    }
    p.ip4h := Some(cur);
    var hlen := IpHlen(buf, cur);
    var iplen := IpTotalLen(buf, cur);
    if hlen < IPv4HeaderLen || iplen < hlen || fromlen < iplen {
      return PktError;
    }
    var len: byte := SegmentLen(buf);  // uint8_t len = iplen - hlen
    assert len == (iplen - hlen) % 0x100;
    if len < TcpHeaderLen {
      return PktError;
    }
    assert buf[cur..cur + hlen] == IpHeader(buf);
    if IpStoredChecksum(buf, cur) != IPv4HeaderChecksum(buf[cur..cur + hlen]) {
      return PktError;
    }
    if IpProto(buf, cur) != IpProtoTcp {
      return PktError;
    }
    r := DecodeTcp(p, fromlen, len);
  }

  /**
   * The "Decode TCP" block of afpacket_acquire, with `len` the segment length computed
   * in the IPv4 block: tcph is recorded at once, payload and payload_len once the port
   * and address filters are passed.
   */
  method DecodeTcp(p: Packet, fromlen: int, len: byte) returns (r: Verdict)
    requires p.pkt.Length >= RecvSize && len == SegmentLen(p.pkt[..])
    modifies p
    ensures var buf := old(p.pkt[..]);
      var rank := DissectTcp(buf, fromlen).stage.Rank();
      && r == DissectTcp(buf, fromlen).verdict
      && p.ethh == old(p.ethh) && p.ip4h == old(p.ip4h)
      && p.tcph == Some(TcpOffset(buf))
      && p.payload == (if rank >= PayloadDecoded.Rank()
                       then Some(TcpOffset(buf) + TcpHlen(buf, TcpOffset(buf)))
                       else old(p.payload))
      && p.payloadLen == (if rank >= PayloadDecoded.Rank() then PayloadLen(buf) else old(p.payloadLen))
  {
    var buf := p.pkt[..];
    var cur := TcpOffset(buf);
    p.tcph := Some(cur);
    var thlen := TcpHlen(buf, cur);
    if len < thlen {
      return PktError;
    }
    if TcpDstPort(buf, cur) != HttpPort && TcpSrcPort(buf, cur) != HttpPort {
      return PktPass;
    }
    if AddressFilter.FilterIpAddress(IpSrc(buf, IpOffset), AddressFilter.SsdpMulticast) == 0 {
      return PktPass;
    }
    if AddressFilter.FilterIpAddress(IpDst(buf, IpOffset), AddressFilter.SsdpMulticast) == 0 {
      return PktPass;
    }
    p.payload := Some(cur + thlen);
    var payloadLen := len - thlen;
    p.payloadLen := payloadLen;
    if payloadLen > 0 {
      return PktPass;
    }
    var tcpCsum := TcpChecksum(IpSrc(buf, IpOffset), IpDst(buf, IpOffset), TcpSegment(buf, payloadLen + thlen));
    if TcpStoredChecksum(buf, cur) != tcpCsum {
      return PktError;
    }
    return Len(fromlen);
  }

  /** memcpy(a + dst, src, |src|): the octets of `src` copied in one at a time. */
  method CopyIn(a: array<byte>, dst: nat, src: seq<byte>)
    requires dst + |src| <= a.Length
    modifies a
    ensures a[..] == CopyInto(old(a[..]), dst, src)
  {
    var j := 0;
    while j < |src|
      invariant 0 <= j <= |src|
      invariant forall k :: 0 <= k < a.Length ==>
                  a[k] == if dst <= k < dst + j then src[k - dst] else old(a[k])
    {
      a[dst + j] := src[j];
      j := j + 1;
    }
    forall k | 0 <= k < a.Length
      ensures a[..][k] == CopyInto(old(a[..]), dst, src)[k]
    {
      CopyIntoAt(old(a[..]), dst, src, k);
    }
  }

  /** A uint16_t field store: `w` written at `k` in network byte order. */
  method StoreBe16(a: array<byte>, k: nat, w: u16)
    requires k + 2 <= a.Length
    modifies a
    ensures a[..] == WriteBe16(old(a[..]), k, w)
  {
    a[k] := HiByte(w);
    a[k + 1] := LoByte(w);
  }

  /** The swap through a temporary of two `n`-octet fields at `x` and `y`:
    * memcpy(tmp, x); memcpy(x, y); memcpy(y, tmp). */
  method SwapThroughTemp(a: array<byte>, x: nat, y: nat, n: nat)
    requires x + n <= y && y + n <= a.Length
    modifies a
    ensures a[..] == SwapFields(old(a[..]), x, y, n)
  {
    ghost var s := a[..];
    var tmp := a[x..x + n];
    CopyIn(a, x, a[y..y + n]);
    CopyIn(a, y, tmp);
    SwapByCopies(s, x, y, n);
  }

  /** The swap of th_sport and th_dport through a uint16_t temporary. */
  method SwapPorts(a: array<byte>, t: nat)
    requires t + 4 <= a.Length
    modifies a
    ensures a[..] == SwapFields(old(a[..]), t, t + 2, 2)
  {
    ghost var s := a[..];
    var portTmp := Be16(a[t], a[t + 1]);
    StoreBe16(a, t, Be16(a[t + 2], a[t + 3]));
    StoreBe16(a, t + 2, portTmp);
    SwapByWords(s, t);
  }

  /** The three swaps of exchange_for_respond_pkt on the frame's octets, with the
    * header offsets `e`, `i` and `t`: MAC pair, address pair, port pair. */
  method SwapAddressing(a: array<byte>, e: nat, i: nat, t: nat)
    requires Separated(e, i, t) && t + 14 <= a.Length
    modifies a
    ensures a[..] == Exchanged(old(a[..]), e, i, t, 0)
  {
    ghost var s0 := a[..];
    SwapThroughTemp(a, e, e + 6, 6);           // layer 2
    ghost var macs := a[..];
    SwapThroughTemp(a, i + 12, i + 16, 4);     // layer 3
    ghost var addrs := a[..];
    SwapPorts(a, t);                           // layer 4
    ghost var ports := a[..];
    SwapsInSteps(s0, e, i, t, macs, addrs, ports);
  }

  /** th_flags = 0; th_flags |= flag: the flags octet ends up holding `flag`. */
  method SetFlags(a: array<byte>, t: nat, flag: byte)
    requires t + 14 <= a.Length
    modifies a
    ensures a[..] == old(a[..])[t + 13 := flag]
  {
    a[t + 13] := 0;
    a[t + 13] := Or(a[t + 13], flag);
  }

  /**
   * exchange_for_respond_pkt: swaps the MAC pair, the IPv4 address pair and the TCP
   * port pair of the recorded headers in place, and overrides the TCP flags with `flag`
   * when `flag` is not zero.  The same packet is returned.
   */
  method ExchangeForRespondPkt(p: Packet, flag: byte) returns (q: Packet)
    requires p.ethh.Some? && p.ip4h.Some? && p.tcph.Some?
    requires Separated(p.ethh.value, p.ip4h.value, p.tcph.value)
    requires p.tcph.value + 14 <= p.pkt.Length
    modifies p.pkt
    ensures q == p
    ensures p.pkt[..] == Exchanged(old(p.pkt[..]), p.ethh.value, p.ip4h.value, p.tcph.value, flag)
  {
    var a := p.pkt;
    var e, i, t := p.ethh.value, p.ip4h.value, p.tcph.value;
    SwapAddressing(a, e, i, t);
    if flag != 0 {
      SetFlags(a, t, flag);
    }
    FlagOverride(old(a[..]), e, i, t, flag);
    q := p;
  }

  /**
   * ReCalculateChecksum: for an IPv4 packet, first (when it has a TCP header) zeroes
   * th_sum and stores the TCP checksum over the current addresses and payload_len plus
   * the TCP header length octets, then zeroes ip_csum and stores the IPv4 header
   * checksum.  A packet without an IPv4 header is left alone.  It always returns 0.
   */
  method ReCalculateChecksum(p: Packet) returns (r: int)
    requires RecalcFits(p.pkt[..], p.ip4h, p.tcph, p.payloadLen)
    modifies p.pkt
    ensures r == 0
    ensures p.pkt[..] == Recalculated(old(p.pkt[..]), p.ip4h, p.tcph, p.payloadLen)
  {
    var a := p.pkt;
    if p.ip4h.Some? {
      var i := p.ip4h.value;
      if p.tcph.Some? {
        StoreTcpChecksum(a, i, p.tcph.value, p.payloadLen);
      }
      StoreIpChecksum(a, i);
    }
    return 0;
  }

  /** Lines 420-422: th_sum = 0, then th_sum = TCPCalculateChecksum(...). */
  method StoreTcpChecksum(a: array<byte>, i: nat, t: nat, payloadLen: u16)
    requires i + 20 <= a.Length && t + 18 <= a.Length && t + TcpLength(a[..], t, payloadLen) <= a.Length
    modifies a
    ensures a[..] == WithTcpChecksum(old(a[..]), i, t, payloadLen)
  {
    StoreBe16(a, t + TcpChecksumOffset, 0);
    assert a[t + 12] == old(a[t + 12]);
    var tcpCsum := TcpChecksumOf(a[..], i, t, payloadLen);
    StoreBe16(a, t + TcpChecksumOffset, tcpCsum);
  }

  /** Lines 425-427: ip_csum = 0, then ip_csum = IPV4CalculateChecksum(...). */
  method StoreIpChecksum(a: array<byte>, i: nat)
    requires i + 20 <= a.Length && i + IpHlen(a[..], i) <= a.Length
    modifies a
    ensures a[..] == WithIpChecksum(old(a[..]), i)
  {
    StoreBe16(a, i + IPv4ChecksumOffset, 0);
    assert a[i] == old(a[i]);
    var ipCsum := IpChecksumOf(a[..], i);
    StoreBe16(a, i + IPv4ChecksumOffset, ipCsum);
  }
}
