/** The address filter: filter_ip_address compares a 4-octet IPv4 address with a target. */
module AddressFilter {
  import opened Bytes

  /** 239.255.255.250 (the SSDP multicast group) as the four octets of its s_addr. */
  const SsdpMulticast: seq<byte> := [239, 255, 255, 250]

  /** memcmp(a, b, n) == 0: the first `n` octets agree, compared one octet at a time. */
  function MemcmpZero(a: seq<byte>, b: seq<byte>, n: nat): (r: bool)
    requires n <= |a| && n <= |b|
    ensures r <==> a[..n] == b[..n]
    decreases n
  {
    if n == 0 then true
    else a[0] == b[0] && MemcmpZero(a[1..], b[1..], n - 1)
  }

  /** filter_ip_address: 0 when `addr` is the target address, -1 otherwise. */
  function FilterIpAddress(addr: seq<byte>, target: seq<byte>): (r: int)
    requires |addr| == 4 && |target| == 4
    ensures r == 0 || r == -1
    ensures r == 0 <==> addr == target
  {
    if MemcmpZero(addr, target, 4) then 0 else -1
  }
}
