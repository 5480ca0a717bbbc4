/** Ethernet and LLDP frames and the OpenFlow 1.0 flow-mod and packet-out
    messages the discovery and forwarding applications build. Frames are kept
    decoded: python-openflow's `pack`/`unpack` of `Ethernet`, `LLDP` and
    `DPID` are not part of this model and are taken to be mutually inverse. */
module Packets {

  import opened Wrappers
  import opened OpenFlow

  /** LLDP ethertype and nearest-bridge group address (clause 7 of IEEE 802.1AB-2009). */
  const LLDP_ETHERTYPE: nat := 0x88cc
  const LLDP_MULTICAST_MAC: Mac := "01:80:c2:00:00:0e"

  /** OpenFlow 1.0 reserved ports and the "no buffer" id. */
  const OFPP_FLOOD: nat := 0xfffb
  const OFPP_LOCAL: nat := 0xfffe
  const OFPP_NONE: nat := 0xffff
  const NO_BUFFER: nat := 0xffff_ffff

  /** The payload of an Ethernet frame: an LLDP data unit with its chassis-id and
      port-id values, or anything else. */
  datatype Payload =
    | LldpPdu(chassisId: string, portId: nat)
    | OtherPayload(data: Bytes)

  datatype Ethernet = Ethernet(destination: Mac, source: Mac, etherType: nat, payload: Payload)

  /** An OpenFlow 1.0 packet-in as the applications read it. */
  datatype PacketIn = PacketIn(bufferId: nat, inPort: nat, frame: Ethernet)

  datatype Action = Output(port: nat)

  /** An OpenFlow 1.0 match; `None` fields are left at their defaults. */
  datatype Match = Match(wildcards: nat, dlSrc: Option<Mac>, dlDst: Option<Mac>, dlType: Option<nat>)

  /** OpenFlow 1.0 `OFPFW_ALL` (all 22 wildcard bits set) and the three
      data-link wildcard flags. */
  const OFPFW_ALL: nat := 0x3f_ffff
  const OFPFW_DL_SRC: nat := 4
  const OFPFW_DL_DST: nat := 8
  const OFPFW_DL_TYPE: nat := 16

  /** A fresh `Match()`: everything wildcarded. */
  const EmptyMatch: Match := Match(OFPFW_ALL, None, None, None)

  const OFPFC_ADD: nat := 0

  datatype AppMessage =
    | FlowMod(command: nat, flowMatch: Match, bufferId: nat, actions: seq<Action>)
    | PacketOut(bufferId: nat, inPort: nat, actions: seq<Action>, data: Option<Ethernet>)
}
