/**
 * The response crafter, on the frame's octets: exchange_for_respond_pkt swaps the
 * addressing of a frame in place and may override its TCP flags; ReCalculateChecksum
 * rewrites its TCP and IPv4 checksums.  The offsets `e`, `i` and `t` are those of the
 * Ethernet, IPv4 and TCP headers recorded in the Packet.
 */
module Responder {
  import opened Wrappers
  import opened Bytes
  import opened Checksum
  import opened Headers

  // ---------------------------------------------------------------------------
  // exchange_for_respond_pkt

  /** Where swapping the `n`-octet fields at `a` and `b` takes the octet at `k` from. */
  function SwapSource(a: nat, b: nat, n: nat, k: nat): nat
    requires a + n <= b
  {
    if a <= k < a + n then k + (b - a)
    else if b <= k < b + n then k - (b - a)
    else k
  }

  /** The octets of `s` from position `k` on, each taken from where the swap of the
    * `n`-octet fields at `a` and `b` moves it from. */
  function SwapFrom(s: seq<byte>, a: nat, b: nat, n: nat, k: nat): (r: seq<byte>)
    requires a + n <= b && b + n <= |s| && k <= |s|
    ensures |r| == |s| - k
    decreases |s| - k
  {
    if k == |s| then [] else [s[SwapSource(a, b, n, k)]] + SwapFrom(s, a, b, n, k + 1)
  }

  /** `s` with the `n`-octet fields at `a` and `b` exchanged. */
  function SwapFields(s: seq<byte>, a: nat, b: nat, n: nat): (r: seq<byte>)
    requires a + n <= b && b + n <= |s|
    ensures |r| == |s|
  {
    SwapFrom(s, a, b, n, 0)
  }

  lemma {:induction false} SwapFromAt(s: seq<byte>, a: nat, b: nat, n: nat, k: nat, j: nat)
    requires a + n <= b && b + n <= |s| && k <= j < |s|
    ensures SwapSource(a, b, n, j) < |s|
    ensures SwapFrom(s, a, b, n, k)[j - k] == s[SwapSource(a, b, n, j)]
    decreases j - k
  {
    if k < j {
      SwapFromAt(s, a, b, n, k + 1, j);
    }
  }

  /** Each octet of the swapped data comes from the position SwapSource names. */
  lemma SwapFieldsAt(s: seq<byte>, a: nat, b: nat, n: nat, k: nat)
    requires a + n <= b && b + n <= |s| && k < |s|
    ensures SwapSource(a, b, n, k) < |s|
    ensures SwapFields(s, a, b, n)[k] == s[SwapSource(a, b, n, k)]
  {
    SwapFromAt(s, a, b, n, 0, k);
  }

  /** The swap as the code performs it, through a temporary copy of the first field:
    * tmp := field a; field a := field b; field b := tmp. */
  lemma SwapByCopies(s: seq<byte>, a: nat, b: nat, n: nat)
    requires a + n <= b && b + n <= |s|
    ensures CopyInto(CopyInto(s, a, s[b..b + n]), b, s[a..a + n]) == SwapFields(s, a, b, n)
  {
    var s1 := CopyInto(s, a, s[b..b + n]);
    var r := CopyInto(s1, b, s[a..a + n]);
    forall k | 0 <= k < |s|
      ensures r[k] == SwapFields(s, a, b, n)[k]
    {
      CopyIntoAt(s1, b, s[a..a + n], k);
      CopyIntoAt(s, a, s[b..b + n], k);
      SwapFieldsAt(s, a, b, n, k);
    }
  }

  /** The port swap as the code performs it, through a 16-bit temporary:
    * tmp := sport; sport := dport; dport := tmp. */
  lemma SwapByWords(s: seq<byte>, t: nat)
    requires t + 4 <= |s|
    ensures WriteBe16(WriteBe16(s, t, Be16(s[t + 2], s[t + 3])), t + 2, Be16(s[t], s[t + 1]))
            == SwapFields(s, t, t + 2, 2)
  {
    Be16Octets(s[t + 2], s[t + 3]);
    Be16Octets(s[t], s[t + 1]);
    var r := WriteBe16(WriteBe16(s, t, Be16(s[t + 2], s[t + 3])), t + 2, Be16(s[t], s[t + 1]));
    forall k | 0 <= k < |s|
      ensures r[k] == SwapFields(s, t, t + 2, 2)[k]
    {
      SwapFieldsAt(s, t, t + 2, 2, k);
    }
  }

  /** The headers lie one behind the other, as the dissector records them. */
  predicate Separated(e: nat, i: nat, t: nat)
  {
    e + EthernetHeaderLen <= i && i + IPv4HeaderLen <= t
  }

  /** The octets the response crafter writes: MAC pair (destination and source), IPv4
    * address pair, TCP port pair, and the flags octet when `flag` is not zero. */
  function Exchanged(s: seq<byte>, e: nat, i: nat, t: nat, flag: byte): (r: seq<byte>)
    requires Separated(e, i, t) && t + 14 <= |s|
    ensures |r| == |s|
    ensures flag != 0 ==> r[t + 13] == flag
  {
    var macs := SwapFields(s, e, e + 6, 6);
    var addrs := SwapFields(macs, i + 12, i + 16, 4);
    var ports := SwapFields(addrs, t, t + 2, 2);
    if flag != 0 then ports[t + 13 := flag] else ports
  }

  /** The exchange without a flags override is the three swaps, one after the other. */
  lemma SwapsInSteps(s: seq<byte>, e: nat, i: nat, t: nat,
                     macs: seq<byte>, addrs: seq<byte>, ports: seq<byte>)
    requires Separated(e, i, t) && t + 14 <= |s|
    requires macs == SwapFields(s, e, e + 6, 6)
    requires addrs == SwapFields(macs, i + 12, i + 16, 4)
    requires ports == SwapFields(addrs, t, t + 2, 2)
    ensures Exchanged(s, e, i, t, 0) == ports
  {
  }

  /** A non-zero flag only replaces the flags octet of the swapped frame. */
  lemma FlagOverride(s: seq<byte>, e: nat, i: nat, t: nat, flag: byte)
    requires Separated(e, i, t) && t + 14 <= |s|
    ensures Exchanged(s, e, i, t, flag) ==
            if flag != 0 then Exchanged(s, e, i, t, 0)[t + 13 := flag] else Exchanged(s, e, i, t, 0)
  {
  }

  /** The position whose octet the crafter moves to `k`: the other half of a swapped
    * pair, and `k` itself outside the swapped fields. */
  function Partner(e: nat, i: nat, t: nat, k: nat): nat
  {
    if e <= k < e + 6 then k + 6
    else if e + 6 <= k < e + 12 then k - 6
    else if i + 12 <= k < i + 16 then k + 4
    else if i + 16 <= k < i + 20 then k - 4
    else if t <= k < t + 2 then k + 2
    else if t + 2 <= k < t + 4 then k - 2
    else k
  }

  /** The three swaps, one after the other, move to `k` the octet at its partner. */
  lemma SwapSourcesCompose(e: nat, i: nat, t: nat, k: nat)
    requires Separated(e, i, t)
    ensures SwapSource(e, e + 6, 6, SwapSource(i + 12, i + 16, 4, SwapSource(t, t + 2, 2, k)))
            == Partner(e, i, t, k)
  {
  }

  /** Every octet of the exchanged frame: the flags octet is `flag` when `flag` is not
    * zero, every other octet is the old octet of its partner position, so the MAC,
    * address and port pairs are swapped and nothing else changes. */
  lemma ExchangedAt(s: seq<byte>, e: nat, i: nat, t: nat, flag: byte, k: nat)
    requires Separated(e, i, t) && t + 14 <= |s| && k < |s|
    ensures Partner(e, i, t, k) < |s|
    ensures Exchanged(s, e, i, t, flag)[k] ==
            if flag != 0 && k == t + 13 then flag else s[Partner(e, i, t, k)]
  {
    var macs := SwapFields(s, e, e + 6, 6);
    var addrs := SwapFields(macs, i + 12, i + 16, 4);
    var ports := SwapFields(addrs, t, t + 2, 2);
    var k1 := SwapSource(t, t + 2, 2, k);
    var k2 := SwapSource(i + 12, i + 16, 4, k1);
    SwapFieldsAt(addrs, t, t + 2, 2, k);
    SwapFieldsAt(macs, i + 12, i + 16, 4, k1);
    SwapFieldsAt(s, e, e + 6, 6, k2);
    SwapSourcesCompose(e, i, t, k);
    assert ports[k] == s[Partner(e, i, t, k)];
  }

  lemma PartnerInvolution(e: nat, i: nat, t: nat, k: nat)
    requires Separated(e, i, t)
    ensures Partner(e, i, t, Partner(e, i, t, k)) == k
  {
  }

  /**
   * Crafting twice restores the addressing: the second exchange swaps every pair back,
   * and the flags octet holds the last non-zero override, or its original value when
   * neither call overrides it.  With both flags zero the frame is restored exactly.
   */
  lemma ExchangeTwice(s: seq<byte>, e: nat, i: nat, t: nat, f1: byte, f2: byte)
    requires Separated(e, i, t) && t + 14 <= |s|
    ensures Exchanged(Exchanged(s, e, i, t, f1), e, i, t, f2) ==
            if f2 != 0 then s[t + 13 := f2] else if f1 != 0 then s[t + 13 := f1] else s
  {
    var once := Exchanged(s, e, i, t, f1);
    var twice := Exchanged(once, e, i, t, f2);
    var want := if f2 != 0 then s[t + 13 := f2] else if f1 != 0 then s[t + 13 := f1] else s;
    forall k | 0 <= k < |s|
      ensures twice[k] == want[k]
    {
      ExchangedAt(once, e, i, t, f2, k);
      var p := Partner(e, i, t, k);
      ExchangedAt(s, e, i, t, f1, p);
      PartnerInvolution(e, i, t, k);
    }
  }

  lemma ExchangeInvolution(s: seq<byte>, e: nat, i: nat, t: nat)
    requires Separated(e, i, t) && t + 14 <= |s|
    ensures Exchanged(Exchanged(s, e, i, t, 0), e, i, t, 0) == s
  {
    ExchangeTwice(s, e, i, t, 0, 0);
  }

  // ---------------------------------------------------------------------------
  // ReCalculateChecksum

  /** The length handed to TCPCalculateChecksum: payload_len plus the TCP header length,
    * converted to its uint16_t parameter. */
  function TcpLength(s: seq<byte>, t: nat, payloadLen: u16): u16
    requires t + 13 <= |s|
  {
    (payloadLen + TcpHlen(s, t)) % 0x1_0000
  }

  /** The conversion to uint16_t: the sum itself when it fits, else the sum less 2^16. */
  lemma TcpLengthWraps(s: seq<byte>, t: nat, payloadLen: u16)
    requires t + 13 <= |s|
    ensures TcpLength(s, t, payloadLen) ==
            if payloadLen + TcpHlen(s, t) < 0x1_0000 then payloadLen + TcpHlen(s, t)
            else payloadLen + TcpHlen(s, t) - 0x1_0000
  {
  }

  /** TCPCalculateChecksum as called at lines 421-422: over the frame's current addresses
    * and the first TcpLength octets from the TCP header on. */
  function TcpChecksumOf(s: seq<byte>, i: nat, t: nat, payloadLen: u16): u16
    requires i + 20 <= |s| && t + 13 <= |s| && t + TcpLength(s, t, payloadLen) <= |s|
  {
    TcpChecksum(IpSrc(s, i), IpDst(s, i), s[t..t + TcpLength(s, t, payloadLen)])
  }

  /** IPV4CalculateChecksum as called at lines 426-427: over the IHL*4 header octets. */
  function IpChecksumOf(s: seq<byte>, i: nat): u16
    requires i + 20 <= |s| && i + IpHlen(s, i) <= |s|
  {
    IPv4HeaderChecksum(s[i..i + IpHlen(s, i)])
  }

  /** Lines 420-422: zero th_sum, then store the TCP checksum of the resulting frame. */
  function WithTcpChecksum(s: seq<byte>, i: nat, t: nat, payloadLen: u16): (r: seq<byte>)
    requires i + 20 <= |s| && t + 18 <= |s| && t + TcpLength(s, t, payloadLen) <= |s|
    ensures |r| == |s|
    ensures forall k :: 0 <= k < |s| && k != t + 16 && k != t + 17 ==> r[k] == s[k]
  {
    var zeroed := WriteBe16(s, t + TcpChecksumOffset, 0);
    assert TcpHlen(zeroed, t) == TcpHlen(s, t);
    WriteBe16(zeroed, t + TcpChecksumOffset, TcpChecksumOf(zeroed, i, t, payloadLen))
  }

  /** Lines 425-427: zero ip_csum, then store the IPv4 checksum of the resulting header. */
  function WithIpChecksum(s: seq<byte>, i: nat): (r: seq<byte>)
    requires i + 20 <= |s| && i + IpHlen(s, i) <= |s|
    ensures |r| == |s|
    ensures forall k :: 0 <= k < |s| && k != i + 10 && k != i + 11 ==> r[k] == s[k]
  {
    var zeroed := WriteBe16(s, i + IPv4ChecksumOffset, 0);
    assert IpHlen(zeroed, i) == IpHlen(s, i);
    WriteBe16(zeroed, i + IPv4ChecksumOffset, IpChecksumOf(zeroed, i))
  }

  /** Where ReCalculateChecksum reads and writes lies inside the buffer, and the TCP header
    * starts after the first octet of the IPv4 header. */
  predicate RecalcFits(s: seq<byte>, ip4h: Option<nat>, tcph: Option<nat>, payloadLen: u16)
  {
    ip4h.Some? ==>
      && ip4h.value + 20 <= |s|
      && ip4h.value + IpHlen(s, ip4h.value) <= |s|
      && (tcph.Some? ==>
            && ip4h.value < tcph.value
            && tcph.value + 18 <= |s|
            && tcph.value + TcpLength(s, tcph.value, payloadLen) <= |s|)
  }

  /** The octets after ReCalculateChecksum: for an IPv4 packet, the TCP checksum first
    * (when there is a TCP header), then the IPv4 header checksum; otherwise unchanged. */
  function Recalculated(s: seq<byte>, ip4h: Option<nat>, tcph: Option<nat>, payloadLen: u16): (r: seq<byte>)
    requires RecalcFits(s, ip4h, tcph, payloadLen)
    ensures |r| == |s|
    ensures ip4h.None? ==> r == s
  {
    if ip4h.None? then s
    else
      var i := ip4h.value;
      var withTcp := if tcph.Some? then WithTcpChecksum(s, i, tcph.value, payloadLen) else s;
      assert IpHlen(withTcp, i) == IpHlen(s, i);
      WithIpChecksum(withTcp, i)
  }

  /** The IPv4 header is at least 20 octets and the TCP header lies behind it. */
  predicate Layered(s: seq<byte>, i: nat, t: nat)
    requires i < |s|
  {
    IPv4HeaderLen <= IpHlen(s, i) && i + IpHlen(s, i) <= t
  }

  // Facts about two frames that differ in one checksum word.

  lemma WriteBe16Overwrite(s: seq<byte>, k: nat, w0: u16, w: u16)
    requires k + 2 <= |s|
    ensures WriteBe16(WriteBe16(s, k, w0), k, w) == WriteBe16(s, k, w)
  {
  }

  lemma WriteBe16Same(s: seq<byte>, k: nat)
    requires k + 2 <= |s|
    ensures WriteBe16(s, k, Be16(s[k], s[k + 1])) == s
  {
    var r := WriteBe16(s, k, Be16(s[k], s[k + 1]));
    assert r[k] == s[k] && r[k + 1] == s[k + 1];
  }

  /** A TCP checksum does not depend on the IPv4 checksum word nor on its own word. */
  lemma TcpChecksumOfIgnores(s: seq<byte>, i: nat, t: nat, payloadLen: u16, k: nat, w: u16)
    requires i + 20 <= |s| && t + 18 <= |s| && t + TcpLength(s, t, payloadLen) <= |s|
    requires i + 20 <= t && (k == t + TcpChecksumOffset || k == i + IPv4ChecksumOffset)
    ensures var s' := WriteBe16(s, k, w);
      TcpLength(s', t, payloadLen) == TcpLength(s, t, payloadLen) &&
      TcpChecksumOf(s', i, t, payloadLen) == TcpChecksumOf(s, i, t, payloadLen)
  {
    var s' := WriteBe16(s, k, w);
    var tlen := TcpLength(s, t, payloadLen);
    assert s'[t + 12] == s[t + 12];
    assert IpSrc(s', i) == IpSrc(s, i) && IpDst(s', i) == IpDst(s, i);
    var a, b := ZeroWord(s'[t..t + tlen], TcpChecksumOffset), ZeroWord(s[t..t + tlen], TcpChecksumOffset);
    forall j | 0 <= j < tlen
      ensures a[j] == b[j]
    {
      if j != TcpChecksumOffset && j != TcpChecksumOffset + 1 {
        assert s'[t..t + tlen][j] == s'[t + j] && s[t..t + tlen][j] == s[t + j];
      }
    }
    assert a == b;
  }

  /** An IPv4 header checksum does not depend on its own word, nor on octets behind the
    * header. */
  lemma IpChecksumOfIgnores(s: seq<byte>, i: nat, k: nat, w: u16)
    requires i + 20 <= |s| && i + IpHlen(s, i) <= |s| && k + 2 <= |s|
    requires k == i + IPv4ChecksumOffset || (i + IPv4HeaderLen <= k && i + IpHlen(s, i) <= k)
    ensures var s' := WriteBe16(s, k, w);
      IpHlen(s', i) == IpHlen(s, i) && IpChecksumOf(s', i) == IpChecksumOf(s, i)
  {
    var s' := WriteBe16(s, k, w);
    var hl := IpHlen(s, i);
    WriteBe16At(s, k, w, i);
    var a, b := ZeroWord(s'[i..i + hl], IPv4ChecksumOffset), ZeroWord(s[i..i + hl], IPv4ChecksumOffset);
    forall j | 0 <= j < hl
      ensures a[j] == b[j]
    {
      if j != IPv4ChecksumOffset && j != IPv4ChecksumOffset + 1 {
        assert s'[i..i + hl][j] == s'[i + j] && s[i..i + hl][j] == s[i + j];
      }
    }
    assert a == b;
  }

  /** Zeroing th_sum first makes no difference to the word stored. */
  lemma WithTcpChecksumDirect(s: seq<byte>, i: nat, t: nat, payloadLen: u16)
    requires i + 20 <= |s| && t + 18 <= |s| && t + TcpLength(s, t, payloadLen) <= |s| && i + 20 <= t
    ensures WithTcpChecksum(s, i, t, payloadLen) ==
            WriteBe16(s, t + TcpChecksumOffset, TcpChecksumOf(s, i, t, payloadLen))
  {
    var zeroed := WriteBe16(s, t + TcpChecksumOffset, 0);
    TcpChecksumOfIgnores(s, i, t, payloadLen, t + TcpChecksumOffset, 0);
    WriteBe16Overwrite(s, t + TcpChecksumOffset, 0, TcpChecksumOf(s, i, t, payloadLen));
  }

  /** Zeroing ip_csum first makes no difference to the word stored. */
  lemma WithIpChecksumDirect(s: seq<byte>, i: nat)
    requires i + 20 <= |s| && i + IpHlen(s, i) <= |s|
    ensures WithIpChecksum(s, i) == WriteBe16(s, i + IPv4ChecksumOffset, IpChecksumOf(s, i))
  {
    IpChecksumOfIgnores(s, i, i + IPv4ChecksumOffset, 0);
    WriteBe16Overwrite(s, i + IPv4ChecksumOffset, 0, IpChecksumOf(s, i));
  }

  /** Storing the two checksum words: each reads back its value and every other octet is
    * kept. */
  lemma StoredWords(s: seq<byte>, i: nat, t: nat, c: u16, d: u16)
    requires i + IPv4HeaderLen <= t && t + 18 <= |s|
    ensures var r := WriteBe16(WriteBe16(s, t + TcpChecksumOffset, c), i + IPv4ChecksumOffset, d);
      && TcpStoredChecksum(r, t) == c
      && IpStoredChecksum(r, i) == d
      && forall k :: 0 <= k < |s| && k != i + 10 && k != i + 11 && k != t + 16 && k != t + 17 ==>
           r[k] == s[k]
  {
    WriteBe16Reads(s, t + TcpChecksumOffset, c);
    WriteBe16Reads(WriteBe16(s, t + TcpChecksumOffset, c), i + IPv4ChecksumOffset, d);
  }

  /** Storing back the words already there changes nothing. */
  lemma StoredWordsBack(s: seq<byte>, i: nat, t: nat)
    requires i + IPv4HeaderLen <= t && t + 18 <= |s|
    ensures WriteBe16(WriteBe16(s, t + TcpChecksumOffset, TcpStoredChecksum(s, t)),
                      i + IPv4ChecksumOffset, IpStoredChecksum(s, i)) == s
  {
    var s1 := WriteBe16(s, t + TcpChecksumOffset, TcpStoredChecksum(s, t));
    WriteBe16Same(s, t + TcpChecksumOffset);
    assert s1 == s;
    WriteBe16Same(s, i + IPv4ChecksumOffset);
  }

  /** ReCalculateChecksum on an IPv4+TCP packet stores two words: the TCP checksum and
    * the IPv4 header checksum of the frame as it was, neither covering the other's word. */
  lemma RecalculatedTcpWords(s: seq<byte>, i: nat, t: nat, payloadLen: u16)
    requires RecalcFits(s, Some(i), Some(t), payloadLen) && Layered(s, i, t)
    ensures Recalculated(s, Some(i), Some(t), payloadLen) ==
            WriteBe16(WriteBe16(s, t + TcpChecksumOffset, TcpChecksumOf(s, i, t, payloadLen)),
                      i + IPv4ChecksumOffset, IpChecksumOf(s, i))
  {
    var c := TcpChecksumOf(s, i, t, payloadLen);
    WithTcpChecksumDirect(s, i, t, payloadLen);
    IpChecksumOfIgnores(s, i, t + TcpChecksumOffset, c);
    WithIpChecksumDirect(WriteBe16(s, t + TcpChecksumOffset, c), i);
  }

  /** Whatever is stored in the two checksum words, both checksums, and the lengths they
    * are computed over, stay as they were. */
  lemma ChecksumsIgnoreStores(s: seq<byte>, i: nat, t: nat, payloadLen: u16, c: u16, d: u16)
    requires RecalcFits(s, Some(i), Some(t), payloadLen) && Layered(s, i, t)
    ensures var r := WriteBe16(WriteBe16(s, t + TcpChecksumOffset, c), i + IPv4ChecksumOffset, d);
      && IpHlen(r, i) == IpHlen(s, i)
      && TcpLength(r, t, payloadLen) == TcpLength(s, t, payloadLen)
      && TcpChecksumOf(r, i, t, payloadLen) == TcpChecksumOf(s, i, t, payloadLen)
      && IpChecksumOf(r, i) == IpChecksumOf(s, i)
  {
    var s1 := WriteBe16(s, t + TcpChecksumOffset, c);
    TcpChecksumOfIgnores(s, i, t, payloadLen, t + TcpChecksumOffset, c);
    TcpChecksumOfIgnores(s1, i, t, payloadLen, i + IPv4ChecksumOffset, d);
    IpChecksumOfIgnores(s, i, t + TcpChecksumOffset, c);
    IpChecksumOfIgnores(s1, i, i + IPv4ChecksumOffset, d);
  }

  /**
   * ReCalculateChecksum on an IPv4+TCP packet: only the two checksum words change; the
   * TCP word holds the checksum over the addresses and segment as they were (the
   * addresses already swapped, if the crafter ran first), the IPv4 word the checksum of
   * the header, and both therefore validate on the result.
   */
  lemma RecalculatedTcp(s: seq<byte>, i: nat, t: nat, payloadLen: u16)
    requires RecalcFits(s, Some(i), Some(t), payloadLen) && Layered(s, i, t)
    ensures var r := Recalculated(s, Some(i), Some(t), payloadLen);
      && (forall k :: 0 <= k < |s| && k != i + 10 && k != i + 11 && k != t + 16 && k != t + 17 ==>
            r[k] == s[k])
      && RecalcFits(r, Some(i), Some(t), payloadLen) && Layered(r, i, t)
      && TcpStoredChecksum(r, t) == TcpChecksumOf(s, i, t, payloadLen)
      && TcpStoredChecksum(r, t) == TcpChecksumOf(r, i, t, payloadLen)
      && IpStoredChecksum(r, i) == IpChecksumOf(s, i)
      && IpStoredChecksum(r, i) == IpChecksumOf(r, i)
  {
    var c := TcpChecksumOf(s, i, t, payloadLen);
    var d := IpChecksumOf(s, i);
    RecalculatedTcpWords(s, i, t, payloadLen);
    StoredWords(s, i, t, c, d);
    ChecksumsIgnoreStores(s, i, t, payloadLen, c, d);
  }

  /** ReCalculateChecksum on an IPv4 packet without a TCP header rewrites the IPv4 header
    * checksum only. */
  lemma RecalculatedIpOnly(s: seq<byte>, i: nat, payloadLen: u16)
    requires RecalcFits(s, Some(i), None, payloadLen)
    ensures var r := Recalculated(s, Some(i), None, payloadLen);
      && (forall k :: 0 <= k < |s| && k != i + 10 && k != i + 11 ==> r[k] == s[k])
      && IpStoredChecksum(r, i) == IpChecksumOf(r, i)
  {
    IpChecksumOfIgnores(s, i, i + IPv4ChecksumOffset, 0);
    var d := IpChecksumOf(s, i);
    WriteBe16Overwrite(s, i + IPv4ChecksumOffset, 0, d);
    IpChecksumOfIgnores(s, i, i + IPv4ChecksumOffset, d);
  }

  /** Running ReCalculateChecksum a second time changes nothing. */
  lemma RecalculateIdempotent(s: seq<byte>, i: nat, t: nat, payloadLen: u16)
    requires RecalcFits(s, Some(i), Some(t), payloadLen) && Layered(s, i, t)
    ensures var r := Recalculated(s, Some(i), Some(t), payloadLen);
      RecalcFits(r, Some(i), Some(t), payloadLen) &&
      Recalculated(r, Some(i), Some(t), payloadLen) == r
  {
    var r := Recalculated(s, Some(i), Some(t), payloadLen);
    RecalculatedTcp(s, i, t, payloadLen);
    RecalculatedTcpWords(r, i, t, payloadLen);
    StoredWordsBack(r, i, t);
  }
}
