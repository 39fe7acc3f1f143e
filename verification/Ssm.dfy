/** Source-specific multicast: which groups are in range, which are usable, and which sources are. */
module Ssm {
  import opened Options
  import opened Addresses

  const IPV4_SSM_FIRST_OCTET: bv8 := 232
  const IPV6_SSM_PREFIX: bv16 := 0xff30
  const IPV6_SSM_PREFIX_MASK: bv16 := 0xff70
  const IPV6_PREFIX_BASED_PLEN_MASK: bv16 := 0x00ff
  const IPV6_SCOPE_MASK: bv16 := 0x000f
  const IPV6_SSM_NULL_GROUP_ID: bv32 := 0x4000_0000

  predicate SegmentsAreSsm(addr: Ipv6) {
    && (addr.s0 & IPV6_SSM_PREFIX_MASK) == IPV6_SSM_PREFIX
    && (addr.s1 & IPV6_PREFIX_BASED_PLEN_MASK) == 0
  }

  predicate IsSsm(addr: IpAddr) {
    match addr
    case V4(v4) => v4.a == IPV4_SSM_FIRST_OCTET
    case V6(v6) => SegmentsAreSsm(v6)
  }

  datatype DestinationFault = NullAddress | ReservedScope | LocalScope

  /** Why an SSM group can receive nothing, if it cannot. */
  function DestinationFaultOf(addr: IpAddr): Option<DestinationFault> {
    match addr
    case V4(v4) => if v4 == Ipv4(232, 0, 0, 0) then Some(NullAddress) else None
    case V6(v6) =>
      var scope := v6.s0 & IPV6_SCOPE_MASK;
      if scope == 0 then Some(ReservedScope)
      else if scope == 1 || scope == 2 then Some(LocalScope)
      else
        var withinPrefix := v6.s2 == 0 && v6.s3 == 0 && v6.s4 == 0 && v6.s5 == 0;
        var groupId := ((v6.s6 as bv32) << 16) | (v6.s7 as bv32);
        if withinPrefix && groupId == IPV6_SSM_NULL_GROUP_ID then Some(NullAddress) else None
  }

  datatype SourceFault =
    | NotUnicast | Broadcast | LinkLocal | ThisNetwork | Reserved | Mapped | Compatible

  /** Why an address cannot be an SSM source, if it cannot. The first reason wins. */
  function SourceFaultOf(addr: IpAddr): Option<SourceFault> {
    if IsMulticast(addr) || IsUnspecified(addr) || IsLoopback(addr) then Some(NotUnicast)
    else
      match addr
      case V4(v4) =>
        if v4 == Ipv4(255, 255, 255, 255) then Some(Broadcast)
        else if v4.a == 169 && v4.b == 254 then Some(LinkLocal)
        else if v4.a == 0 then Some(ThisNetwork)
        else if 240 <= v4.a then Some(Reserved)
        else None
      case V6(v6) =>
        var lowFive := v6.s0 == 0 && v6.s1 == 0 && v6.s2 == 0 && v6.s3 == 0 && v6.s4 == 0;
        if 0xfe80 <= v6.s0 <= 0xfebf then Some(LinkLocal)
        else if lowFive && v6.s5 == 0xffff then Some(Mapped)
        else if lowFive && v6.s5 == 0 then Some(Compatible)
        else None
  }

  /** 232.0.0.0/8, and in IPv6 ff30 to ff3f and ffb0 to ffbf with a zero prefix length. */
  lemma SsmGroups(addr: IpAddr)
    ensures IsSsm(addr) <==>
      match addr {
        case V4(v4) => v4.a == 232
        case V6(v6) => (0xff30 <= v6.s0 <= 0xff3f || 0xffb0 <= v6.s0 <= 0xffbf) && v6.s1 % 0x100 == 0
      }
  {
    if addr.V6? {
      SsmRange(addr.v6);
    }
  }

  /** The mask test accepts ff30 to ff3f and ffb0 to ffbf with a zero prefix length, all of it multicast. */
  lemma SsmRange(addr: Ipv6)
    ensures SegmentsAreSsm(addr)
       <==> (0xff30 <= addr.s0 <= 0xff3f || 0xffb0 <= addr.s0 <= 0xffbf) && addr.s1 % 0x100 == 0
    ensures SegmentsAreSsm(addr) ==> IsMulticast(V6(addr))
  {
  }

  /** The ranges the messages name, ff3x::/32 and ffbx::/32. */
  predicate IsDocumentedRange(addr: Ipv6) {
    (0xff30 <= addr.s0 <= 0xff3f || 0xffb0 <= addr.s0 <= 0xffbf) && addr.s1 == 0
  }

  /** Of the groups taken as SSM, the documented ranges hold exactly those whose reserved byte is zero. */
  lemma DocumentedRangeIff(addr: Ipv6)
    ensures IsDocumentedRange(addr) ==> SegmentsAreSsm(addr)
    ensures SegmentsAreSsm(addr) ==> (IsDocumentedRange(addr) <==> addr.s1 / 0x100 == 0)
  {
    SsmRange(addr);
  }

  /** ff3e:1200::1 is taken as SSM and is a permitted destination, outside the documented ranges. */
  lemma OutsideDocumentedRange()
    ensures var group := Ipv6(0xff3e, 0x1200, 0, 0, 0, 0, 0, 1);
      SegmentsAreSsm(group) && DestinationFaultOf(V6(group)).None? && !IsDocumentedRange(group)
  {
  }

  /** Every SSM group is multicast, and nothing accepted as a source is either. */
  lemma SourcesAreNotGroups(addr: IpAddr)
    ensures IsSsm(addr) ==> IsMulticast(addr)
    ensures SourceFaultOf(addr).None? ==> !IsMulticast(addr) && !IsSsm(addr)
  {
    if addr.V6? {
      SsmRange(addr.v6);
    }
  }

  /** Exactly the addresses accepted as sources, by range. */
  lemma AcceptedSources(addr: IpAddr)
    ensures SourceFaultOf(addr).None? <==>
      match addr {
        case V4(v4) => 1 <= v4.a <= 223 && v4.a != 127 && !(v4.a == 169 && v4.b == 254)
        case V6(v6) =>
          && v6.s0 < 0xff00 && !(0xfe80 <= v6.s0 <= 0xfebf)
          && !(v6.s0 == 0 && v6.s1 == 0 && v6.s2 == 0 && v6.s3 == 0 && v6.s4 == 0 && (v6.s5 == 0 || v6.s5 == 0xffff))
      }
  {
  }

  /** And why the others are not. */
  lemma RejectedSources(addr: IpAddr)
    ensures SourceFaultOf(addr).Some? ==>
      match SourceFaultOf(addr).value {
        case NotUnicast =>
          (match addr
           case V4(v4) => 224 <= v4.a <= 239 || v4.a == 127 || v4 == Ipv4(0, 0, 0, 0)
           case V6(v6) =>
             v6.s0 >= 0xff00 || v6 == Ipv6(0, 0, 0, 0, 0, 0, 0, 0) || v6 == Ipv6(0, 0, 0, 0, 0, 0, 0, 1))
        case Broadcast => addr == V4(Ipv4(255, 255, 255, 255))
        case LinkLocal =>
          (match addr
           case V4(v4) => v4.a == 169 && v4.b == 254
           case V6(v6) => 0xfe80 <= v6.s0 <= 0xfebf)
        case ThisNetwork => addr.V4? && addr.v4.a == 0 && addr.v4 != Ipv4(0, 0, 0, 0)
        case Reserved => addr.V4? && addr.v4.a >= 240 && addr.v4 != Ipv4(255, 255, 255, 255)
        case Mapped =>
          addr.V6? && addr.v6 == Ipv6(0, 0, 0, 0, 0, 0xffff, addr.v6.s6, addr.v6.s7)
        case Compatible =>
          && addr.V6? && addr.v6 == Ipv6(0, 0, 0, 0, 0, 0, addr.v6.s6, addr.v6.s7)
          && !(addr.v6.s6 == 0 && addr.v6.s7 <= 1)
      }
  {
    MulticastRange(addr);
  }

  /** An SSM group is usable unless it is 232.0.0.0, of scope 0 to 2, or ffXX:NN00::4000:0. */
  lemma UsableDestinations(addr: IpAddr)
    ensures DestinationFaultOf(addr).None? <==>
      match addr {
        case V4(v4) => v4 != Ipv4(232, 0, 0, 0)
        case V6(v6) =>
          && v6.s0 % 16 >= 3
          && !(v6.s2 == 0 && v6.s3 == 0 && v6.s4 == 0 && v6.s5 == 0 && v6.s6 == 0x4000 && v6.s7 == 0)
      }
    ensures DestinationFaultOf(addr) == Some(ReservedScope) <==> addr.V6? && addr.v6.s0 % 16 == 0
    ensures DestinationFaultOf(addr) == Some(LocalScope) <==> addr.V6? && 1 <= addr.v6.s0 % 16 <= 2
  {
  }
}
