/** IP addresses as integers, with the IPv4-mapped IPv6 addresses of section 2.5.5.2 of RFC 4291. */
module Addresses {
  import opened Common

  const TWO_32: nat := 0x1_0000_0000
  const TWO_128: nat := 0x1_0000_0000_0000_0000_0000_0000_0000_0000

  type Bits32 = x: nat | x < TWO_32
  type Bits128 = x: nat | x < TWO_128

  datatype IpAddr = V4(v4: Bits32) | V6(v6: Bits128)

  /** The prefix `::ffff:0:0/96`. */
  const MAPPED_PREFIX: nat := 0xFFFF

  function ToV4Mapped(ip: Bits128): (r: Option<Bits32>)
  {
    if ip / TWO_32 == MAPPED_PREFIX then Some(ip % TWO_32) else None
  }

  function ToV6Mapped(ip: Bits32): Bits128 {
    MAPPED_PREFIX * TWO_32 + ip
  }

  /** The same address, or an IPv4 address and its IPv4-mapped form. */
  predicate SameHost(a: IpAddr, b: IpAddr) {
    || a == b
    || (a.V4? && b.V6? && b.v6 == 0xFFFF_0000_0000 + a.v4)
    || (b.V4? && a.V6? && a.v6 == 0xFFFF_0000_0000 + b.v4)
  }

  lemma MappedBits(bits: Bits128)
    ensures ToV4Mapped(bits).Some? <==> 0xFFFF_0000_0000 <= bits <= 0xFFFF_FFFF_FFFF
    ensures ToV4Mapped(bits).Some? ==> bits == 0xFFFF_0000_0000 + ToV4Mapped(bits).value
  {
    assert bits == TWO_32 * (bits / TWO_32) + bits % TWO_32;
  }

  lemma MappedRoundTrip(ip: Bits32, other: Bits128)
    ensures ToV4Mapped(ToV6Mapped(ip)) == Some(ip)
    ensures ToV4Mapped(other) == Some(ip) <==> other == ToV6Mapped(ip)
  {
    assert other == TWO_32 * (other / TWO_32) + other % TWO_32;
  }
}
