/** Octets and 16-bit words as they sit in a frame (network byte order). */
module Bytes {

  type byte = b: int | 0 <= b < 0x100
  type u16 = w: int | 0 <= w < 0x1_0000

  /** The 16-bit value of two consecutive octets read in network byte order (ntohs). */
  function Be16(hi: byte, lo: byte): u16
  {
    hi * 0x100 + lo
  }

  function HiByte(w: u16): byte { w / 0x100 }

  function LoByte(w: u16): byte { w % 0x100 }

  lemma Be16Split(w: u16)
    ensures Be16(HiByte(w), LoByte(w)) == w
  {
  }

  /** Splitting a word built from two octets gives the octets back. */
  lemma Be16Octets(hi: byte, lo: byte)
    ensures HiByte(Be16(hi, lo)) == hi && LoByte(Be16(hi, lo)) == lo
  {
  }

  /** Bitwise or of two naturals, bit by bit from the lowest. */
  function BitOr(x: nat, y: nat): nat
    decreases x + y
  {
    if x == 0 then y
    else if y == 0 then x
    else 2 * BitOr(x / 2, y / 2) + (if x % 2 == 1 || y % 2 == 1 then 1 else 0)
  }

  /** The or of two octets is an octet. */
  lemma {:induction false} BitOrBound(x: nat, y: nat, n: nat)
    requires x < n && y < n && (n == 1 || n == 2 || n == 4 || n == 8 || n == 16 || n == 32 || n == 64 || n == 128 || n == 256)
    ensures BitOr(x, y) < n
    decreases n
  {
    if x != 0 && y != 0 {
      BitOrBound(x / 2, y / 2, n / 2);
    }
  }

  /** The `|=` of a uint8_t field. */
  function Or(x: byte, y: byte): (r: byte)
    ensures x == 0 ==> r == y
  {
    BitOrBound(x, y, 0x100);
    BitOr(x, y)
  }

  /** `s` with `w` written at `k` and `k + 1` in network byte order (a uint16_t store). */
  function WriteBe16(s: seq<byte>, k: nat, w: u16): (r: seq<byte>)
    requires k + 2 <= |s|
    ensures |r| == |s|
  {
    s[k := HiByte(w)][k + 1 := LoByte(w)]
  }

  /** Reading the word back after the store gives the stored value (ntohs of htons). */
  lemma WriteBe16Reads(s: seq<byte>, k: nat, w: u16)
    requires k + 2 <= |s|
    ensures var r := WriteBe16(s, k, w); Be16(r[k], r[k + 1]) == w
  {
    Be16Split(w);
  }

  /** The store changes the two octets at `k` and `k + 1` and no other. */
  lemma WriteBe16At(s: seq<byte>, k: nat, w: u16, j: nat)
    requires k + 2 <= |s| && j < |s|
    ensures WriteBe16(s, k, w)[j] == if j == k then HiByte(w) else if j == k + 1 then LoByte(w) else s[j]
  {
  }

  /** `s` with the octets of `src` copied over positions `dst .. dst + |src|` (a memcpy). */
  function CopyInto(s: seq<byte>, dst: nat, src: seq<byte>): (r: seq<byte>)
    requires dst + |src| <= |s|
    ensures |r| == |s|
  {
    s[..dst] + src + s[dst + |src|..]
  }

  /** The octet at `k` after a copy: taken from `src` inside the copied range, kept outside. */
  lemma CopyIntoAt(s: seq<byte>, dst: nat, src: seq<byte>, k: nat)
    requires dst + |src| <= |s| && k < |s|
    ensures CopyInto(s, dst, src)[k] == if dst <= k < dst + |src| then src[k - dst] else s[k]
  {
  }
}
