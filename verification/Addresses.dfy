/** IP addresses by octet and segment, and the classes of address the program tells apart. */
module Addresses {
  datatype Ipv4 = Ipv4(a: bv8, b: bv8, c: bv8, d: bv8)

  datatype Ipv6 = Ipv6(s0: bv16, s1: bv16, s2: bv16, s3: bv16, s4: bv16, s5: bv16, s6: bv16, s7: bv16)

  datatype IpAddr = V4(v4: Ipv4) | V6(v6: Ipv6)

  const UNSPECIFIED4: Ipv4 := Ipv4(0, 0, 0, 0)
  const UNSPECIFIED6: Ipv6 := Ipv6(0, 0, 0, 0, 0, 0, 0, 0)
  const LOCALHOST6: Ipv6 := Ipv6(0, 0, 0, 0, 0, 0, 0, 1)

  predicate IsMulticast(addr: IpAddr) {
    match addr
    case V4(v4) => 224 <= v4.a <= 239
    case V6(v6) => (v6.s0 & 0xff00) == 0xff00
  }

  /** 224.0.0.0 to 239.255.255.255, and ff00::/8. */
  lemma MulticastRange(addr: IpAddr)
    ensures IsMulticast(addr) <==>
      match addr {
        case V4(v4) => 224 <= v4.a <= 239
        case V6(v6) => v6.s0 >= 0xff00
      }
  {
  }

  predicate IsUnspecified(addr: IpAddr) {
    addr == V4(UNSPECIFIED4) || addr == V6(UNSPECIFIED6)
  }

  predicate IsLoopback(addr: IpAddr) {
    match addr
    case V4(v4) => v4.a == 127
    case V6(v6) => v6 == LOCALHOST6
  }
}
