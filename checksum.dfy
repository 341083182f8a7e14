/**
 * The Internet checksum of RFC 1071 (sections 1 and 4.1): the one's complement of the
 * one's complement sum of the 16-bit words of the data, an odd trailing octet padded
 * with a zero octet; for TCP the data is preceded by the 12-octet pseudo-header of
 * section 3.1 of RFC 793.
 *
 * The two routines the dissector and the response crafter call are modelled with the
 * assumption under which the code is consistent: the stored checksum word of the header
 * being summed counts as zero.  The dissector compares the stored field against a sum
 * over a range that contains it, and the response crafter zeroes the field before
 * summing; both agree only when the routine skips the field.
 */
module Checksum {
  import opened Bytes

  /** Sum of the big-endian 16-bit words of `s`, an odd last octet padded with zero. */
  function WordSum(s: seq<byte>): nat
    decreases |s|
  {
    if |s| == 0 then 0
    else if |s| == 1 then s[0] * 0x100
    else Be16(s[0], s[1]) + WordSum(s[2..])
  }

  lemma FoldStep(x: nat)
    requires x > 0xFFFF
    ensures 0 < x / 0x1_0000 + x % 0x1_0000 < x
    ensures (x / 0x1_0000 + x % 0x1_0000) % 0xFFFF == x % 0xFFFF
  {
    var q, r := x / 0x1_0000, x % 0x1_0000;
    assert x == 0x1_0000 * q + r;
    assert q >= 1;
    assert x == (q + r) + 0xFFFF * q;
  }

  /** Folds the carries of a sum back into the low 16 bits until it fits (end-around carry). */
  function Fold(x: nat): (r: nat)
    ensures r <= 0xFFFF
    decreases x
  {
    if x <= 0xFFFF then x
    else
      FoldStep(x);
      Fold(x / 0x1_0000 + x % 0x1_0000)
  }

  /** The value the end-around carry arrives at, in closed form: zero for a zero sum,
    * otherwise the representative of the sum modulo 0xFFFF in 1 .. 0xFFFF. */
  function Folded(x: nat): (r: nat)
    ensures r <= 0xFFFF
  {
    if x == 0 then 0 else (x - 1) % 0xFFFF + 1
  }

  /** The closed form read off the remainder modulo 0xFFFF. */
  lemma FoldedByRemainder(x: nat)
    requires x > 0
    ensures Folded(x) == if x % 0xFFFF == 0 then 0xFFFF else x % 0xFFFF
  {
    var q, r := x / 0xFFFF, x % 0xFFFF;
    assert x == 0xFFFF * q + r;
    if r == 0 {
      assert x - 1 == 0xFFFF * (q - 1) + 0xFFFE;
    } else {
      assert x - 1 == 0xFFFF * q + (r - 1);
    }
  }

  /** Folding the carries one at a time arrives at the closed form. */
  lemma {:induction false} FoldIsFolded(x: nat)
    ensures Fold(x) == Folded(x)
    decreases x
  {
    if x > 0xFFFF {
      var y := x / 0x1_0000 + x % 0x1_0000;
      FoldStep(x);
      FoldIsFolded(y);
      FoldedByRemainder(x);
      FoldedByRemainder(y);
    }
  }

  /** The RFC 1071 checksum of `s`: the complement of the folded sum of its words. */
  function InternetChecksum(s: seq<byte>): u16
  {
    0xFFFF - Folded(WordSum(s))
  }

  /** `s` with the 16-bit word at `k` (where it lies inside `s`) read as zero. */
  function ZeroWord(s: seq<byte>, k: nat): (r: seq<byte>)
    ensures |r| == |s|
  {
    if k + 2 <= |s| then s[k := 0][k + 1 := 0]
    else if k < |s| then s[k := 0]
    else s
  }

  /** Offset of the checksum word inside an IPv4 header (section 3.1 of RFC 791). */
  const IPv4ChecksumOffset: nat := 10
  /** Offset of the checksum word inside a TCP header (section 3.1 of RFC 793). */
  const TcpChecksumOffset: nat := 16
  const IpProtoTcp: byte := 6

  /** IPV4CalculateChecksum: the checksum of the IPv4 header `hdr`, its own field read as zero. */
  function IPv4HeaderChecksum(hdr: seq<byte>): u16
  {
    InternetChecksum(ZeroWord(hdr, IPv4ChecksumOffset))
  }

  /** The TCP pseudo-header: source, destination, a zero octet, protocol 6, segment length. */
  function PseudoHeader(src: seq<byte>, dst: seq<byte>, tlen: u16): (r: seq<byte>)
    requires |src| == 4 && |dst| == 4
    ensures |r| == 12
  {
    src + dst + [0, IpProtoTcp, HiByte(tlen), LoByte(tlen)]
  }

  /** The pseudo-header's fields, in the order of section 3.1 of RFC 793. */
  lemma PseudoHeaderLayout(src: seq<byte>, dst: seq<byte>, tlen: u16)
    requires |src| == 4 && |dst| == 4
    ensures var r := PseudoHeader(src, dst, tlen);
      r[..4] == src && r[4..8] == dst && r[8] == 0 && r[9] == IpProtoTcp && Be16(r[10], r[11]) == tlen
  {
    var r := PseudoHeader(src, dst, tlen);
    assert r[..4] == src;
    assert r[4..8] == dst;
    Be16Split(tlen);
  }

  /** TCPCalculateChecksum: the checksum of segment `seg` behind the pseudo-header of
    * `src` and `dst`, the segment's own checksum field read as zero. */
  function TcpChecksum(src: seq<byte>, dst: seq<byte>, seg: seq<byte>): u16
    requires |src| == 4 && |dst| == 4 && |seg| < 0x1_0000
  {
    InternetChecksum(PseudoHeader(src, dst, |seg|) + ZeroWord(seg, TcpChecksumOffset))
  }

  /** IPV4CalculateChecksum spelled out: the checksum of the header with octets 10 and 11
    * replaced by zeros. */
  lemma IPv4HeaderChecksumSpelled(hdr: seq<byte>)
    requires |hdr| >= 12
    ensures IPv4HeaderChecksum(hdr) == InternetChecksum(hdr[..10] + [0, 0] + hdr[12..])
  {
    assert ZeroWord(hdr, IPv4ChecksumOffset) == hdr[..10] + [0, 0] + hdr[12..];
  }

  /** TCPCalculateChecksum spelled out: the checksum of source, destination, a zero octet,
    * protocol 6, the segment length in network order, then the segment with octets 16 and
    * 17 replaced by zeros. */
  lemma TcpChecksumSpelled(src: seq<byte>, dst: seq<byte>, seg: seq<byte>)
    requires |src| == 4 && |dst| == 4 && 18 <= |seg| < 0x1_0000
    ensures TcpChecksum(src, dst, seg) ==
            InternetChecksum(src + dst + [0, IpProtoTcp, |seg| / 0x100, |seg| % 0x100]
                             + seg[..16] + [0, 0] + seg[18..])
  {
    var z := seg[..16] + [0, 0] + seg[18..];
    assert ZeroWord(seg, TcpChecksumOffset) == z;
    var ph := src + dst + [0, IpProtoTcp, |seg| / 0x100, |seg| % 0x100];
    assert PseudoHeader(src, dst, |seg|) == ph;
    assert ph + z == ph + seg[..16] + [0, 0] + seg[18..];
  }

  // ---------------------------------------------------------------------------
  // Properties of the sum

  lemma {:induction false} WordSumAppend(a: seq<byte>, b: seq<byte>)
    requires |a| % 2 == 0
    ensures WordSum(a + b) == WordSum(a) + WordSum(b)
    decreases |a|
  {
    if |a| == 0 {
      assert a + b == b;
    } else {
      assert (a + b)[2..] == a[2..] + b;
      WordSumAppend(a[2..], b);
    }
  }

  /** The word at an even offset `k` contributes its value to the sum, and nothing else does. */
  lemma {:induction false} WordSumField(s: seq<byte>, k: nat)
    requires k % 2 == 0 && k + 2 <= |s|
    ensures WordSum(s) == WordSum(ZeroWord(s, k)) + Be16(s[k], s[k + 1])
    decreases k
  {
    var z := ZeroWord(s, k);
    if k == 0 {
      assert z[2..] == s[2..];
    } else {
      assert z[0] == s[0] && z[1] == s[1];
      assert ZeroWord(s[2..], k - 2) == z[2..];
      WordSumField(s[2..], k - 2);
    }
  }

  /** Adding the complement of a folded sum folds to all ones. */
  lemma FoldComplement(x: nat)
    ensures Folded(x + (0xFFFF - Folded(x))) == 0xFFFF
  {
    if x > 0 {
      var q := (x - 1) / 0xFFFF;
      assert x - 1 == 0xFFFF * q + (Folded(x) - 1);
      assert x + (0xFFFF - Folded(x)) - 1 == 0xFFFF * q + 0xFFFE;
    }
  }

  /**
   * The validation identity: once the word at even offset `k` holds the checksum of the
   * data with that word read as zero, the checksum of the whole data, word included, is 0.
   */
  lemma ChecksumValidates(s: seq<byte>, k: nat)
    requires k % 2 == 0 && k + 2 <= |s|
    requires Be16(s[k], s[k + 1]) == InternetChecksum(ZeroWord(s, k))
    ensures InternetChecksum(s) == 0
  {
    WordSumField(s, k);
    FoldComplement(WordSum(ZeroWord(s, k)));
  }

  /** Zeroing a word behind a prefix is zeroing it in the rest. */
  lemma ZeroWordShift(p: seq<byte>, s: seq<byte>, k: nat)
    ensures ZeroWord(p + s, |p| + k) == p + ZeroWord(s, k)
  {
    assert forall j :: 0 <= j < |p| + |s| ==> ZeroWord(p + s, |p| + k)[j] == (p + ZeroWord(s, k))[j];
  }

  /** Rewriting the stored word does not change a checksum that reads that word as zero. */
  lemma ZeroWordIgnoresField(s: seq<byte>, k: nat, w: u16)
    requires k + 2 <= |s|
    ensures ZeroWord(WriteBe16(s, k, w), k) == ZeroWord(s, k)
  {
  }
}
