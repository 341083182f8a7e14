/**
 * The capture program's round trip: a frame afpacket_acquire accepts is turned around by
 * exchange_for_respond_pkt, at the header offsets the dissection recorded, and its
 * checksums are rewritten by ReCalculateChecksum with the payload length of 0 the
 * dissection left.  The reply is addressed back to the sender and is itself accepted.
 */
module Response {
  import opened Wrappers
  import opened Bytes
  import opened Checksum
  import opened Headers
  import opened Dissector
  import opened DissectorProperties
  import opened Responder

  /** The octets the exchange keeps that the dissector reads to accept a frame. */
  lemma ExchangeKeepsStructure(s: seq<byte>, t: nat, flag: byte)
    requires |s| >= RecvSize && Separated(0, IpOffset, t) && t + 18 <= |s|
    ensures var x := Exchanged(s, 0, IpOffset, t, flag);
      && EtherType(x, 0) == EtherType(s, 0)
      && x[IpOffset] == s[IpOffset]
      && IpTotalLen(x, IpOffset) == IpTotalLen(s, IpOffset)
      && IpProto(x, IpOffset) == IpProto(s, IpOffset)
      && x[t + 12] == s[t + 12]
  {
    ExchangedAt(s, 0, IpOffset, t, flag, 12);
    ExchangedAt(s, 0, IpOffset, t, flag, 13);
    ExchangedAt(s, 0, IpOffset, t, flag, IpOffset);
    ExchangedAt(s, 0, IpOffset, t, flag, IpOffset + 2);
    ExchangedAt(s, 0, IpOffset, t, flag, IpOffset + 3);
    ExchangedAt(s, 0, IpOffset, t, flag, IpOffset + 9);
    ExchangedAt(s, 0, IpOffset, t, flag, t + 12);
  }

  /** The exchange swaps the address and port pairs. */
  lemma ExchangeSwapsEnds(s: seq<byte>, t: nat, flag: byte)
    requires |s| >= RecvSize && Separated(0, IpOffset, t) && t + 18 <= |s|
    ensures var x := Exchanged(s, 0, IpOffset, t, flag);
      && IpSrc(x, IpOffset) == IpDst(s, IpOffset)
      && IpDst(x, IpOffset) == IpSrc(s, IpOffset)
      && TcpSrcPort(x, t) == TcpDstPort(s, t)
      && TcpDstPort(x, t) == TcpSrcPort(s, t)
  {
    var x := Exchanged(s, 0, IpOffset, t, flag);
    forall k | IpOffset + 12 <= k < IpOffset + 20
      ensures x[k] == s[Partner(0, IpOffset, t, k)]
    {
      ExchangedAt(s, 0, IpOffset, t, flag, k);
    }
    assert IpSrc(x, IpOffset) == IpDst(s, IpOffset);
    assert IpDst(x, IpOffset) == IpSrc(s, IpOffset);
    ExchangedAt(s, 0, IpOffset, t, flag, t);
    ExchangedAt(s, 0, IpOffset, t, flag, t + 1);
    ExchangedAt(s, 0, IpOffset, t, flag, t + 2);
    ExchangedAt(s, 0, IpOffset, t, flag, t + 3);
  }

  /** A frame that agrees with an accepted one on every field the dissector reads,
    * with the addresses and the ports swapped and valid checksums, is accepted too. */
  lemma MirrorAccepted(s: seq<byte>, r: seq<byte>, fromlen: int)
    requires |s| >= RecvSize && |r| >= RecvSize && fromlen > 0
    requires Classify(s, fromlen) == Len(fromlen)
    requires EtherType(r, 0) == EtherType(s, 0) && r[IpOffset] == s[IpOffset]
    requires IpTotalLen(r, IpOffset) == IpTotalLen(s, IpOffset)
    requires IpProto(r, IpOffset) == IpProto(s, IpOffset)
    requires r[TcpOffset(s) + 12] == s[TcpOffset(s) + 12]
    requires IpSrc(r, IpOffset) == IpDst(s, IpOffset) && IpDst(r, IpOffset) == IpSrc(s, IpOffset)
    requires TcpSrcPort(r, TcpOffset(s)) == TcpDstPort(s, TcpOffset(s))
    requires TcpDstPort(r, TcpOffset(s)) == TcpSrcPort(s, TcpOffset(s))
    requires IpStoredChecksum(r, IpOffset) == IPv4HeaderChecksum(IpHeader(r))
    requires TcpChecksumValid(r)
    ensures Classify(r, fromlen) == Len(fromlen)
  {
    ClassifyCharacterized(s, fromlen);
    assert TcpOffset(r) == TcpOffset(s);
    assert SegmentLen(r) == SegmentLen(s);
    assert WellFormedTcp(r, fromlen);
    assert Selected(r);
    ClassifyCharacterized(r, fromlen);
  }

  /** A frame `r` that differs from `x` at most in the two checksum words has the fields of
    * `x` that the dissector reads. */
  lemma FieldsOutsideWords(x: seq<byte>, r: seq<byte>, t: nat)
    requires |x| >= RecvSize && |r| == |x| && t == TcpOffset(x)
    requires IpHlen(x, IpOffset) >= IPv4HeaderLen
    requires forall k :: 0 <= k < |x| && k !in {IpOffset + 10, IpOffset + 11, t + 16, t + 17} ==>
                           r[k] == x[k]
    ensures EtherType(r, 0) == EtherType(x, 0) && r[IpOffset] == x[IpOffset]
    ensures IpTotalLen(r, IpOffset) == IpTotalLen(x, IpOffset)
    ensures IpProto(r, IpOffset) == IpProto(x, IpOffset)
    ensures r[t + 12] == x[t + 12]
    ensures IpSrc(r, IpOffset) == IpSrc(x, IpOffset) && IpDst(r, IpOffset) == IpDst(x, IpOffset)
    ensures TcpSrcPort(r, t) == TcpSrcPort(x, t) && TcpDstPort(r, t) == TcpDstPort(x, t)
  {
    assert r[12] == x[12] && r[13] == x[13] && r[IpOffset] == x[IpOffset];
    assert r[IpOffset + 2] == x[IpOffset + 2] && r[IpOffset + 3] == x[IpOffset + 3];
    assert r[IpOffset + 9] == x[IpOffset + 9] && r[t + 12] == x[t + 12];
    assert r[t] == x[t] && r[t + 1] == x[t + 1] && r[t + 2] == x[t + 2] && r[t + 3] == x[t + 3];
    assert IpSrc(r, IpOffset) == IpSrc(x, IpOffset) by {
      forall k | IpOffset + 12 <= k < IpOffset + 16 ensures r[k] == x[k] { }
    }
    assert IpDst(r, IpOffset) == IpDst(x, IpOffset) by {
      forall k | IpOffset + 16 <= k < IpOffset + 20 ensures r[k] == x[k] { }
    }
  }

  /** A frame `r` that differs from `x` at most in the two checksum words, with both
    * stored checksums matching their computations, reads as `x` with valid checksums. */
  lemma ChecksumWordsOnly(x: seq<byte>, r: seq<byte>, t: nat)
    requires |x| >= RecvSize && |r| == |x| && t == TcpOffset(x)
    requires IpHlen(x, IpOffset) >= IPv4HeaderLen && TcpHlen(x, t) == SegmentLen(x)
    requires forall k :: 0 <= k < |x| && k !in {IpOffset + 10, IpOffset + 11, t + 16, t + 17} ==>
                           r[k] == x[k]
    requires IpStoredChecksum(r, IpOffset) == IpChecksumOf(r, IpOffset)
    requires t + TcpLength(r, t, 0) <= |r|
    requires TcpStoredChecksum(r, t) == TcpChecksumOf(r, IpOffset, t, 0)
    ensures EtherType(r, 0) == EtherType(x, 0) && r[IpOffset] == x[IpOffset]
    ensures IpTotalLen(r, IpOffset) == IpTotalLen(x, IpOffset)
    ensures IpProto(r, IpOffset) == IpProto(x, IpOffset)
    ensures r[t + 12] == x[t + 12]
    ensures IpSrc(r, IpOffset) == IpSrc(x, IpOffset) && IpDst(r, IpOffset) == IpDst(x, IpOffset)
    ensures TcpSrcPort(r, t) == TcpSrcPort(x, t) && TcpDstPort(r, t) == TcpDstPort(x, t)
    ensures IpStoredChecksum(r, IpOffset) == IPv4HeaderChecksum(IpHeader(r))
    ensures TcpChecksumValid(r)
  {
    FieldsOutsideWords(x, r, t);
    assert TcpOffset(r) == t;
    assert SegmentLen(r) == SegmentLen(x);
    assert TcpHlen(r, t) == TcpHlen(x, t) <= 60;
    TcpLengthWraps(r, t, 0);
    assert TcpLength(r, t, 0) == SegmentLen(r);
  }

  /** What the recalculation at the recorded offsets, with payload length 0, keeps and
    * what it makes valid. */
  lemma RecalculationForReply(x: seq<byte>, t: nat)
    requires |x| >= RecvSize && t == TcpOffset(x) && IpHlen(x, IpOffset) >= IPv4HeaderLen
    requires TcpHlen(x, t) == SegmentLen(x)
    ensures RecalcFits(x, Some(IpOffset), Some(t), 0)
    ensures var r := Recalculated(x, Some(IpOffset), Some(t), 0);
      && EtherType(r, 0) == EtherType(x, 0) && r[IpOffset] == x[IpOffset]
      && IpTotalLen(r, IpOffset) == IpTotalLen(x, IpOffset)
      && IpProto(r, IpOffset) == IpProto(x, IpOffset)
      && r[t + 12] == x[t + 12]
      && IpSrc(r, IpOffset) == IpSrc(x, IpOffset) && IpDst(r, IpOffset) == IpDst(x, IpOffset)
      && TcpSrcPort(r, t) == TcpSrcPort(x, t) && TcpDstPort(r, t) == TcpDstPort(x, t)
      && IpStoredChecksum(r, IpOffset) == IPv4HeaderChecksum(IpHeader(r))
      && TcpChecksumValid(r)
  {
    assert TcpLength(x, t, 0) == SegmentLen(x);
    RecalculatedTcp(x, IpOffset, t, 0);
    ChecksumWordsOnly(x, Recalculated(x, Some(IpOffset), Some(t), 0), t);
  }

  /**
   * A response crafted from an accepted frame: its addresses and ports are those of the
   * frame swapped, and afpacket_acquire, given the same length, accepts it as well.
   */
  lemma ResponseAccepted(s: seq<byte>, fromlen: int, flag: byte)
    requires |s| >= RecvSize && fromlen > 0
    requires Classify(s, fromlen) == Len(fromlen)
    ensures Separated(0, IpOffset, TcpOffset(s))
    ensures RecalcFits(Exchanged(s, 0, IpOffset, TcpOffset(s), flag), Some(IpOffset), Some(TcpOffset(s)), 0)
    ensures var r := Recalculated(Exchanged(s, 0, IpOffset, TcpOffset(s), flag),
                                  Some(IpOffset), Some(TcpOffset(s)), 0);
      && IpSrc(r, IpOffset) == IpDst(s, IpOffset) && IpDst(r, IpOffset) == IpSrc(s, IpOffset)
      && TcpSrcPort(r, TcpOffset(s)) == TcpDstPort(s, TcpOffset(s))
      && TcpDstPort(r, TcpOffset(s)) == TcpSrcPort(s, TcpOffset(s))
      && Classify(r, fromlen) == Len(fromlen)
  {
    AcceptedFrameShape(s, fromlen);
    var t := TcpOffset(s);
    var x := Exchanged(s, 0, IpOffset, t, flag);
    ExchangeKeepsStructure(s, t, flag);
    ExchangeSwapsEnds(s, t, flag);
    RecalculationForReply(x, t);
    MirrorAccepted(s, Recalculated(x, Some(IpOffset), Some(t), 0), fromlen);
  }

  /** The headers of an HTTP frame of total length 296 with 20-octet IPv4 and TCP headers. */
  lemma WrappedFrameTemplate() returns (x: seq<byte>)
    ensures |x| == RecvSize
    ensures EtherType(x, 0) == EthernetTypeIp && x[IpOffset] == 0x45 && IpHlen(x, IpOffset) == 20
    ensures IpTotalLen(x, IpOffset) == 296 && IpProto(x, IpOffset) == IpProtoTcp
    ensures IpSrc(x, IpOffset) == [0, 0, 0, 0] && IpDst(x, IpOffset) == [0, 0, 0, 0]
    ensures TcpOffset(x) == 34 && SegmentLen(x) == 20 && TcpHlen(x, 34) == 20
    ensures TcpDstPort(x, 34) == HttpPort
  {
    x := seq(RecvSize, k =>
      if k == 12 then 0x08                                     // ether_type 0x0800
      else if k == 14 then 0x45                                // version 4, IHL 5
      else if k == 16 then 0x01 else if k == 17 then 0x28      // total length 296
      else if k == 23 then IpProtoTcp
      else if k == 37 then 80                                  // th_dport
      else if k == 46 then 0x50                                // data offset 5
      else 0);
    assert x[12] == 0x08 && x[13] == 0 && x[14] == 0x45 && x[16] == 0x01 && x[17] == 0x28;
    assert x[23] == IpProtoTcp && x[36] == 0 && x[37] == 80 && x[46] == 0x50;
    assert x[26] == 0 && x[30] == 0;
  }

  /** That frame with both checksums set by the recalculation is accepted, and 256 octets of
    * its datagram lie behind the TCP header, outside the TCP checksum. */
  lemma WrappedFrameAccepted() returns (buf: seq<byte>)
    ensures |buf| == RecvSize
    ensures Classify(buf, 296) == Len(296)
    ensures IpTotalLen(buf, IpOffset) - IpHlen(buf, IpOffset) - TcpHlen(buf, TcpOffset(buf)) == 0x100
  {
    var x := WrappedFrameTemplate();
    RecalculationForReply(x, 34);
    buf := Recalculated(x, Some(IpOffset), Some(34), 0);
    assert buf[IpOffset] == 0x45;
    assert IpHlen(buf, IpOffset) == 20 && TcpOffset(buf) == 34;
    assert IpTotalLen(buf, IpOffset) == 296 && TcpHlen(buf, 34) == 20;
    SegmentLengthWraps(buf, buf, 296, 1);
  }
}
