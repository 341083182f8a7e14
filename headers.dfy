/**
 * Field access into a frame buffer at fixed offsets: the Ethernet header at a given
 * offset, the IPv4 header of section 3.1 of RFC 791 and the TCP header of section 3.1
 * of RFC 793.  Each accessor models one header macro or struct field read; multi-octet
 * fields are read in network byte order.
 */
module Headers {
  import opened Bytes

  const EthernetHeaderLen: nat := 14   // ETHERNET_HEADER_LEN
  const EthernetTypeIp: u16 := 0x0800  // ETHERNET_TYPE_IP
  const IPv4HeaderLen: nat := 20       // IPV4_HEADER_LEN
  const TcpHeaderLen: nat := 20        // TCP_HEADER_LEN

  // Ethernet header at offset e: destination 0..5, source 6..11, type 12..13.

  function EtherType(s: seq<byte>, e: nat): u16
    requires e + 14 <= |s|
  {
    Be16(s[e + 12], s[e + 13])
  }

  // IPv4 header at offset i.

  /** IP_GET_RAW_VER: the high nibble of the first octet (b >> 4). */
  function IpVersion(s: seq<byte>, i: nat): nat
    requires i < |s|
  {
    s[i] / 16
  }

  /** IPV4_GET_HLEN (and IPV4_GET_RAW_HLEN): header length in octets, (b & 0x0f) << 2. */
  function IpHlen(s: seq<byte>, i: nat): (r: nat)
    requires i < |s|
    ensures r % 4 == 0 && r <= 60
  {
    (s[i] % 16) * 4
  }

  /** IPV4_GET_IPLEN: total length, octets 2..3. */
  function IpTotalLen(s: seq<byte>, i: nat): u16
    requires i + 4 <= |s|
  {
    Be16(s[i + 2], s[i + 3])
  }

  function IpProto(s: seq<byte>, i: nat): byte
    requires i + 10 <= |s|
  {
    s[i + 9]
  }

  function IpStoredChecksum(s: seq<byte>, i: nat): u16
    requires i + 12 <= |s|
  {
    Be16(s[i + 10], s[i + 11])
  }

  function IpSrc(s: seq<byte>, i: nat): (r: seq<byte>)
    requires i + 16 <= |s|
    ensures |r| == 4
  {
    s[i + 12..i + 16]
  }

  function IpDst(s: seq<byte>, i: nat): (r: seq<byte>)
    requires i + 20 <= |s|
    ensures |r| == 4
  {
    s[i + 16..i + 20]
  }

  // TCP header at offset t.

  function TcpSrcPort(s: seq<byte>, t: nat): u16
    requires t + 2 <= |s|
  {
    Be16(s[t], s[t + 1])
  }

  function TcpDstPort(s: seq<byte>, t: nat): u16
    requires t + 4 <= |s|
  {
    Be16(s[t + 2], s[t + 3])
  }

  /** TCP_GET_HLEN: the data offset in octets, (b & 0xf0) >> 2 of octet 12. */
  function TcpHlen(s: seq<byte>, t: nat): (r: nat)
    requires t + 13 <= |s|
    ensures r % 4 == 0 && r <= 60
  {
    (s[t + 12] / 16) * 4
  }

  function TcpFlags(s: seq<byte>, t: nat): byte
    requires t + 14 <= |s|
  {
    s[t + 13]
  }

  function TcpStoredChecksum(s: seq<byte>, t: nat): u16
    requires t + 18 <= |s|
  {
    Be16(s[t + 16], s[t + 17])
  }
}
