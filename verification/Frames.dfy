/** The byte-offset frame parsers the detectors share (frame.go). */
module Frames {
  import opened Common
  import opened BpfMachine

  const ETHERTYPE_IPV4: bv16 := 0x0800
  const ETHERTYPE_ARP: bv16 := 0x0806
  const ETHERTYPE_VLAN: bv16 := 0x8100
  const ETHERTYPE_QINQ: bv16 := 0x88a8
  const ETHERTYPE_LLDP: bv16 := 0x88cc
  const ETHERTYPE_PTP: bv16 := 0x88f7

  const PROTO_IGMP: bv8 := 2
  const PROTO_UDP: bv8 := 17

  const ETH_HDR_LEN := 14
  const VLAN_TAG_LEN := 4

  const GGO_BUS_PORT: bv16 := 5810

  datatype EtherInfo = EtherInfo(etherType: bv16, payloadOff: nat, vlanID: bv16)

  /** The effective ethertype and payload offset; None for short or double-tagged frames. */
  function ParseEther(b: Bytes): Option<EtherInfo> {
    if |b| < ETH_HDR_LEN then None
    else if Be16(b, 12) != ETHERTYPE_VLAN then Some(EtherInfo(Be16(b, 12), ETH_HDR_LEN, 0))
    else if |b| < ETH_HDR_LEN + VLAN_TAG_LEN then None
    else if Be16(b, 16) == ETHERTYPE_VLAN || Be16(b, 16) == ETHERTYPE_QINQ then None
    else Some(EtherInfo(Be16(b, 16), ETH_HDR_LEN + VLAN_TAG_LEN, Be16(b, 14) & 0x0fff))
  }

  datatype Ipv4Info = Ipv4Info(proto: bv8, l4Off: nat)

  /** The protocol and payload offset of the IPv4 header at off. */
  function ParseIpv4(b: Bytes, off: nat): Option<Ipv4Info> {
    if off + 20 > |b| then None else
      var ihl := HeaderLen(b[off]);
      if ihl < 20 || off + ihl > |b| then None
      else Some(Ipv4Info(b[off + 9], off + ihl))
  }

  datatype UdpPorts = UdpPorts(sport: bv16, dport: bv16, payloadOff: nat)

  function ParseUdp(b: Bytes, off: nat): Option<UdpPorts> {
    if off + 8 > |b| then None
    else Some(UdpPorts(Be16(b, off), Be16(b, off + 2), off + 8))
  }

  /** The UDP ports of an IPv4 frame, untagged or behind one 802.1Q tag. */
  function ParseUdpFrame(b: Bytes): Option<UdpPorts> {
    match ParseEther(b)
    case None => None
    case Some(e) =>
      if e.etherType != ETHERTYPE_IPV4 then None else
        match ParseIpv4(b, e.payloadOff)
        case None => None
        case Some(ip) => if ip.proto != PROTO_UDP then None else ParseUdp(b, ip.l4Off)
  }
}
