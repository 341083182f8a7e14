/** What the dissection sequence guarantees: each check in its place, and the outcome. */
module DissectorProperties {
  import opened Bytes
  import opened Checksum
  import opened Headers
  import opened AddressFilter
  import opened Dissector

  /** The checks on the Ethernet type, the IP version, the header and total lengths, the
    * received length and the wrapped segment length.  A failure of any of them is
    * PKT_ERROR, and it is decided by octets 12..17 alone: no checksum, protocol or TCP
    * octet is looked at, and no TCP header is recorded. */
  lemma StructuralChecksFirst(buf: seq<byte>, other: seq<byte>, fromlen: int)
    requires |buf| >= RecvSize && |other| >= RecvSize && fromlen > 0
    requires AgreeOn(buf, other, 12, 18)
    requires || EtherType(buf, 0) != EthernetTypeIp
             || IpVersion(buf, IpOffset) != 4
             || IpHlen(buf, IpOffset) < IPv4HeaderLen
             || IpTotalLen(buf, IpOffset) < IpHlen(buf, IpOffset)
             || fromlen < IpTotalLen(buf, IpOffset)
             || (IpTotalLen(buf, IpOffset) - IpHlen(buf, IpOffset)) % 0x100 < TcpHeaderLen
    ensures Classify(buf, fromlen) == PktError && Classify(other, fromlen) == PktError
    ensures Dissect(other, fromlen).stage.Rank() <= IpDecoded.Rank()
  {
    assert other[12] == buf[12] && other[13] == buf[13] && other[14] == buf[14];
    assert other[16] == buf[16] && other[17] == buf[17];
  }

  /** An HTTP frame with 20-octet IPv4 and TCP headers, a total length 256·k octets above 40
    * and both checksums matching is accepted with `payload_len` 0: `len` wraps to 20. */
  lemma WrapAccepted(buf: seq<byte>, fromlen: int, k: nat)
    requires |buf| >= RecvSize
    requires EtherType(buf, 0) == EthernetTypeIp && IpVersion(buf, IpOffset) == 4
    requires IpHlen(buf, IpOffset) == IPv4HeaderLen && IpProto(buf, IpOffset) == IpProtoTcp
    requires TcpHlen(buf, TcpOffset(buf)) == TcpHeaderLen
    requires TcpSrcPort(buf, TcpOffset(buf)) == HttpPort || TcpDstPort(buf, TcpOffset(buf)) == HttpPort
    requires IpSrc(buf, IpOffset) != SsdpMulticast && IpDst(buf, IpOffset) != SsdpMulticast
    requires IpTotalLen(buf, IpOffset) == IPv4HeaderLen + TcpHeaderLen + 0x100 * k
    requires fromlen >= IpTotalLen(buf, IpOffset)
    requires IpStoredChecksum(buf, IpOffset) == IPv4HeaderChecksum(IpHeader(buf))
    requires TcpChecksumValid(buf)
    ensures Classify(buf, fromlen) == Len(fromlen)
    ensures SegmentLen(buf) == TcpHeaderLen && PayloadLen(buf) == 0
  {
    assert SegmentLen(buf) == TcpHeaderLen;
    ClassifyCharacterized(buf, fromlen);
  }

  /** `len` is the difference of the two IP lengths taken modulo 256, and the TCP checksum
    * covers `len` octets only.  An HTTP frame with 20-octet IPv4 and TCP headers, a total
    * length 256·k octets above 40 for some k >= 1 and both checksums matching is accepted
    * with `payload_len` 0 although its datagram carries 256·k octets behind the TCP header.
    * Neither checksum covers those octets: a frame that differs from it only there, or
    * anywhere further on, is accepted as well. */
  lemma SegmentLengthWraps(buf: seq<byte>, other: seq<byte>, fromlen: int, k: nat)
    requires |buf| >= RecvSize && |other| >= RecvSize
    requires EtherType(buf, 0) == EthernetTypeIp && IpVersion(buf, IpOffset) == 4
    requires IpHlen(buf, IpOffset) == IPv4HeaderLen && IpProto(buf, IpOffset) == IpProtoTcp
    requires TcpHlen(buf, TcpOffset(buf)) == TcpHeaderLen
    requires TcpSrcPort(buf, TcpOffset(buf)) == HttpPort || TcpDstPort(buf, TcpOffset(buf)) == HttpPort
    requires IpSrc(buf, IpOffset) != SsdpMulticast && IpDst(buf, IpOffset) != SsdpMulticast
    requires k >= 1 && IpTotalLen(buf, IpOffset) == IPv4HeaderLen + TcpHeaderLen + 0x100 * k
    requires fromlen >= IpTotalLen(buf, IpOffset)
    requires IpStoredChecksum(buf, IpOffset) == IPv4HeaderChecksum(IpHeader(buf))
    requires TcpChecksumValid(buf)
    requires AgreeOn(buf, other, 12, TcpOffset(buf) + TcpHeaderLen)
    ensures Classify(buf, fromlen) == Len(fromlen) && Classify(other, fromlen) == Len(fromlen)
    ensures PayloadLen(buf) == 0
    ensures IpTotalLen(buf, IpOffset) - IpHlen(buf, IpOffset) - TcpHlen(buf, TcpOffset(buf)) == 0x100 * k
  {
    assert other[12] == buf[12] && other[13] == buf[13] && other[14] == buf[14];
    assert other[16] == buf[16] && other[17] == buf[17] && other[23] == buf[23];
    var t := TcpOffset(buf);
    assert TcpOffset(other) == t;
    assert IpHeader(other) == IpHeader(buf);
    assert other[t + 12] == buf[t + 12];
    assert IpSrc(other, IpOffset) == IpSrc(buf, IpOffset) && IpDst(other, IpOffset) == IpDst(buf, IpOffset);
    assert TcpSrcPort(other, t) == TcpSrcPort(buf, t) && TcpDstPort(other, t) == TcpDstPort(buf, t);
    assert TcpStoredChecksum(other, t) == TcpStoredChecksum(buf, t);
    WrapAccepted(buf, fromlen, k);
    assert TcpSegment(other, TcpHeaderLen) == TcpSegment(buf, TcpHeaderLen);
    WrapAccepted(other, fromlen, k);
  }

  /** With the structure valid, an IPv4 checksum mismatch is PKT_ERROR whatever the protocol;
    * any protocol other than TCP is then PKT_ERROR too, not PKT_PASS.  Both are decided by
    * the IPv4 header alone, before the TCP header is recorded. */
  lemma IpChecksumBeforeProtocol(buf: seq<byte>, other: seq<byte>, fromlen: int)
    requires |buf| >= RecvSize && |other| >= RecvSize && fromlen > 0
    requires StructurallyValid(buf, fromlen)
    requires AgreeOn(buf, other, 12, TcpOffset(buf))
    requires || IpStoredChecksum(buf, IpOffset) != IPv4HeaderChecksum(IpHeader(buf))
             || IpProto(buf, IpOffset) != IpProtoTcp
    ensures Classify(buf, fromlen) == PktError && Classify(other, fromlen) == PktError
    ensures Dissect(other, fromlen).stage == IpDecoded
  {
    assert other[12] == buf[12] && other[13] == buf[13] && other[14] == buf[14];
    assert other[16] == buf[16] && other[17] == buf[17] && other[23] == buf[23];
    assert other[24] == buf[24] && other[25] == buf[25];
    assert TcpOffset(other) == TcpOffset(buf);
    assert IpHeader(other) == IpHeader(buf);
  }

  /** For a TCP frame with a valid IPv4 header: a TCP header longer than the segment is
    * PKT_ERROR, and a segment on which neither port is HTTP_PORT is PKT_PASS.  Both are
    * decided by the headers up to the TCP data offset: the payload and the TCP checksum
    * are not looked at. */
  lemma TcpLengthAndPortFilter(buf: seq<byte>, other: seq<byte>, fromlen: int)
    requires |buf| >= RecvSize && |other| >= RecvSize && fromlen > 0
    requires StructurallyValid(buf, fromlen)
    requires IpStoredChecksum(buf, IpOffset) == IPv4HeaderChecksum(IpHeader(buf))
    requires IpProto(buf, IpOffset) == IpProtoTcp
    requires AgreeOn(buf, other, 12, TcpOffset(buf) + 13)
    ensures TcpHlen(buf, TcpOffset(buf)) > SegmentLen(buf) ==>
              Classify(buf, fromlen) == PktError && Classify(other, fromlen) == PktError
    ensures TcpHlen(buf, TcpOffset(buf)) <= SegmentLen(buf) &&
            TcpSrcPort(buf, TcpOffset(buf)) != HttpPort && TcpDstPort(buf, TcpOffset(buf)) != HttpPort ==>
              Classify(buf, fromlen) == PktPass && Classify(other, fromlen) == PktPass
    ensures TcpHlen(buf, TcpOffset(buf)) > SegmentLen(buf) ||
            (TcpSrcPort(buf, TcpOffset(buf)) != HttpPort && TcpDstPort(buf, TcpOffset(buf)) != HttpPort) ==>
              Dissect(other, fromlen).stage == TcpDecoded
  {
    assert other[12] == buf[12] && other[13] == buf[13] && other[14] == buf[14];
    assert other[16] == buf[16] && other[17] == buf[17] && other[23] == buf[23];
    assert other[24] == buf[24] && other[25] == buf[25];
    var t := TcpOffset(buf);
    assert TcpOffset(other) == t;
    assert IpHeader(other) == IpHeader(buf);
    assert other[t] == buf[t] && other[t + 1] == buf[t + 1];
    assert other[t + 2] == buf[t + 2] && other[t + 3] == buf[t + 3];
    assert other[t + 12] == buf[t + 12];
  }

  /** An HTTP segment from or to 239.255.255.250 is PKT_PASS. */
  lemma AddressExclusion(buf: seq<byte>, fromlen: int)
    requires |buf| >= RecvSize && fromlen > 0
    requires WellFormedTcp(buf, fromlen)
    requires TcpSrcPort(buf, TcpOffset(buf)) == HttpPort || TcpDstPort(buf, TcpOffset(buf)) == HttpPort
    requires IpSrc(buf, IpOffset) == SsdpMulticast || IpDst(buf, IpOffset) == SsdpMulticast
    ensures Classify(buf, fromlen) == PktPass
    ensures Dissect(buf, fromlen).stage == TcpDecoded
  {
    assert IpHeader(buf) == buf[IpOffset..IpOffset + IpHlen(buf, IpOffset)];
  }

  /** Past the filters the payload length is never negative; a positive one is PKT_PASS; a
    * zero one is PKT_ERROR on a TCP checksum mismatch over the TCP header, and the received
    * length otherwise. */
  lemma PayloadAndFinalResult(buf: seq<byte>, fromlen: int)
    requires |buf| >= RecvSize && fromlen > 0
    requires WellFormedTcp(buf, fromlen)
    requires TcpSrcPort(buf, TcpOffset(buf)) == HttpPort || TcpDstPort(buf, TcpOffset(buf)) == HttpPort
    requires IpSrc(buf, IpOffset) != SsdpMulticast && IpDst(buf, IpOffset) != SsdpMulticast
    ensures PayloadLen(buf) >= 0
    ensures Dissect(buf, fromlen).stage == PayloadDecoded
    ensures PayloadLen(buf) > 0 ==> Classify(buf, fromlen) == PktPass
    ensures PayloadLen(buf) == 0 ==>
              Classify(buf, fromlen) ==
                if TcpStoredChecksum(buf, TcpOffset(buf)) ==
                   TcpChecksum(IpSrc(buf, IpOffset), IpDst(buf, IpOffset),
                               TcpSegment(buf, TcpHlen(buf, TcpOffset(buf))))
                then Len(fromlen) else PktError
  {
    assert IpHeader(buf) == buf[IpOffset..IpOffset + IpHlen(buf, IpOffset)];
  }

  /** A failed or empty receive is returned as it is, without any check. */
  lemma NonPositiveLengthReturned(buf: seq<byte>, fromlen: int)
    requires |buf| >= RecvSize && fromlen <= 0
    ensures Classify(buf, fromlen) == Len(fromlen)
    ensures Dissect(buf, fromlen).stage == Received
  {
  }

  /** The outcome of a positive-length receive, described without the order of the checks:
    * accepted exactly when well formed, selected and TCP-checksum correct; passed exactly
    * when well formed and not selected; an error otherwise. */
  lemma ClassifyCharacterized(buf: seq<byte>, fromlen: int)
    requires |buf| >= RecvSize && fromlen > 0
    ensures Classify(buf, fromlen) == Len(fromlen) <==>
              WellFormedTcp(buf, fromlen) && Selected(buf) && TcpChecksumValid(buf)
    ensures Classify(buf, fromlen) == PktPass <==> WellFormedTcp(buf, fromlen) && !Selected(buf)
    ensures Classify(buf, fromlen) == PktError <==>
              !WellFormedTcp(buf, fromlen) || (Selected(buf) && !TcpChecksumValid(buf))
  {
    assert IpHeader(buf) == buf[IpOffset..IpOffset + IpHlen(buf, IpOffset)];
  }

  /** A header whose stored checksum matches validates: its checksum, field included, is 0. */
  lemma IpHeaderValidates(buf: seq<byte>)
    requires |buf| >= RecvSize && IpHlen(buf, IpOffset) >= IPv4HeaderLen
    requires IpStoredChecksum(buf, IpOffset) == IPv4HeaderChecksum(IpHeader(buf))
    ensures InternetChecksum(IpHeader(buf)) == 0
  {
    var hdr := IpHeader(buf);
    assert hdr[10] == buf[IpOffset + 10] && hdr[11] == buf[IpOffset + 11];
    ChecksumValidates(hdr, IPv4ChecksumOffset);
  }

  /** A segment whose stored checksum matches validates with its pseudo-header in front. */
  lemma TcpSegmentValidates(buf: seq<byte>, tlen: nat)
    requires |buf| >= RecvSize && 18 <= tlen < 0x100
    requires TcpStoredChecksum(buf, TcpOffset(buf)) ==
             TcpChecksum(IpSrc(buf, IpOffset), IpDst(buf, IpOffset), TcpSegment(buf, tlen))
    ensures InternetChecksum(PseudoHeader(IpSrc(buf, IpOffset), IpDst(buf, IpOffset), tlen)
                             + TcpSegment(buf, tlen)) == 0
  {
    var seg := TcpSegment(buf, tlen);
    var ph := PseudoHeader(IpSrc(buf, IpOffset), IpDst(buf, IpOffset), tlen);
    var whole := ph + seg;
    assert whole[28] == seg[16] == buf[TcpOffset(buf) + 16];
    assert whole[29] == seg[17] == buf[TcpOffset(buf) + 17];
    ZeroWordShift(ph, seg, TcpChecksumOffset);
    ChecksumValidates(whole, 12 + TcpChecksumOffset);
  }

  /**
   * An accepted frame is a TCP segment to or from HTTP_PORT with `payload_len` 0: its TCP
   * header, at least 20 octets long, fills the wrapped segment length `len`, so the datagram
   * may still carry a multiple of 256 octets behind it (see SegmentLengthWraps); the received length
   * covers its IP total length, which is at least 40; and both checksums validate in the
   * RFC 1071 sense: summed with their own stored words, the IPv4 header and the
   * pseudo-header plus segment give checksum 0.
   */
  lemma AcceptedFrameShape(buf: seq<byte>, fromlen: int)
    requires |buf| >= RecvSize && fromlen > 0
    requires Classify(buf, fromlen) == Len(fromlen)
    ensures PayloadLen(buf) == 0 && TcpHlen(buf, TcpOffset(buf)) == SegmentLen(buf) >= TcpHeaderLen
    ensures (IpTotalLen(buf, IpOffset) - IpHlen(buf, IpOffset) - TcpHlen(buf, TcpOffset(buf))) % 0x100 == 0
    ensures TcpSrcPort(buf, TcpOffset(buf)) == HttpPort || TcpDstPort(buf, TcpOffset(buf)) == HttpPort
    ensures fromlen >= IpTotalLen(buf, IpOffset) >= IpHlen(buf, IpOffset) + TcpHeaderLen >= 40
    ensures InternetChecksum(IpHeader(buf)) == 0
    ensures InternetChecksum(PseudoHeader(IpSrc(buf, IpOffset), IpDst(buf, IpOffset), SegmentLen(buf))
                             + TcpSegment(buf, SegmentLen(buf))) == 0
  {
    ClassifyCharacterized(buf, fromlen);
    assert WellFormedTcp(buf, fromlen) && Selected(buf) && TcpChecksumValid(buf);
    var d := IpTotalLen(buf, IpOffset) - IpHlen(buf, IpOffset);
    assert d >= 0 && d % 0x100 >= TcpHeaderLen;
    assert d >= TcpHeaderLen;
    assert IpHeader(buf) == buf[IpOffset..IpOffset + IpHlen(buf, IpOffset)];
    IpHeaderValidates(buf);
    TcpSegmentValidates(buf, SegmentLen(buf));
  }
}
