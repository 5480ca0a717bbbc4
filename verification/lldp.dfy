/** The discovery application (napps/kytos/of_lldp/main.py). Every polling
    round it sends out of each switch port an LLDP frame naming the switch and
    the port; a switch that receives such a frame reports it in a packet-in,
    and the two interfaces are then recorded as each other's endpoint. */
module Lldp {

  import opened Wrappers
  import opened OpenFlow
  import opened KytosCore
  import opened Packets
  import Topology

  /** The local port, which `execute` skips. */
  const OFPP_LOCAL_PORT: nat := 65534

  /** A message put on the outgoing buffer for a switch connection. */
  datatype Sent = Sent(destination: Option<nat>, message: AppMessage)

  /** What one `execute` round leaves behind: the messages already put on the
      buffer, and whether the round stopped on an `AttributeError` (a switch
      whose features are unknown, or an OpenFlow 1.3 features reply, which
      carries no port list). */
  datatype Round = Round(sent: seq<Sent>, raised: bool)

  /** The LLDP frame for port `port` of switch `dpid`, as it goes on the wire. */
  function ProbeFrame(dpid: string, port: PhyPort): (f: Ethernet)
    ensures f.etherType == LLDP_ETHERTYPE && f.destination == LLDP_MULTICAST_MAC
    ensures f.source == port.hwAddr
    ensures f.payload == LldpPdu(dpid, port.portNo)
  {
    Ethernet(LLDP_MULTICAST_MAC, port.hwAddr, LLDP_ETHERTYPE, LldpPdu(dpid, port.portNo))
  }

  /** The packet-out carrying that frame; buffer id and in-port keep
      python-openflow's defaults. */
  function Probe(dpid: string, port: PhyPort): (m: AppMessage)
    ensures m.PacketOut? && m.actions == [Output(port.portNo)]
    ensures m.bufferId == NO_BUFFER && m.inPort == OFPP_NONE
    ensures m.data == Some(ProbeFrame(dpid, port))
  {
    PacketOut(NO_BUFFER, OFPP_NONE, [Output(port.portNo)], Some(ProbeFrame(dpid, port)))
  }

  /** The ports `execute` probes, in the order the switch lists them: all but
      the local port, each as often as it is listed. */
  function NonLocal(ports: seq<PhyPort>): (r: seq<PhyPort>)
    ensures forall p :: p in r <==> p in ports && p.portNo != OFPP_LOCAL_PORT
    ensures forall p :: multiset(r)[p] == if p.portNo == OFPP_LOCAL_PORT then 0 else multiset(ports)[p]
  {
    if ports == [] then []
    else
      assert ports == [ports[0]] + ports[1..];
      if ports[0].portNo == OFPP_LOCAL_PORT then NonLocal(ports[1..])
      else [ports[0]] + NonLocal(ports[1..])
  }

  /** The inner loop of `execute` over `switch.features.ports`. */
  function PortProbes(sw: Switch, ports: seq<PhyPort>): (r: seq<Sent>)
    ensures |r| == |NonLocal(ports)|
    ensures forall k :: 0 <= k < |r| ==> r[k] == Sent(sw.connection, Probe(sw.dpid, NonLocal(ports)[k]))
  {
    if ports == [] then []
    else
      var rest := PortProbes(sw, ports[1..]);
      if ports[0].portNo == OFPP_LOCAL_PORT then
        assert NonLocal(ports) == NonLocal(ports[1..]);
        rest
      else
        assert NonLocal(ports) == [ports[0]] + NonLocal(ports[1..]);
        [Sent(sw.connection, Probe(sw.dpid, ports[0]))] + rest
  }

  /** A switch's probes are exactly those of its non-local ports, through its
      own connection. */
  lemma PortProbesMembers(sw: Switch, ports: seq<PhyPort>)
    ensures forall s :: s in PortProbes(sw, ports) <==>
      exists p :: p in ports && p.portNo != OFPP_LOCAL_PORT && s == Sent(sw.connection, Probe(sw.dpid, p))
  {
    var r, np := PortProbes(sw, ports), NonLocal(ports);
    forall s ensures s in r <==> exists p :: p in ports && p.portNo != OFPP_LOCAL_PORT && s == Sent(sw.connection, Probe(sw.dpid, p)) {
      if s in r {
        var k :| 0 <= k < |r| && r[k] == s;
        assert np[k] in np;
      }
      if exists p :: p in ports && p.portNo != OFPP_LOCAL_PORT && s == Sent(sw.connection, Probe(sw.dpid, p)) {
        var p :| p in ports && p.portNo != OFPP_LOCAL_PORT && s == Sent(sw.connection, Probe(sw.dpid, p));
        var k :| 0 <= k < |np| && np[k] == p;
        assert r[k] == s;
      }
    }
  }

  /** The ports `execute` can read off a switch, or `None` when reading them raises. */
  function PortsOf(sw: Switch): Option<seq<PhyPort>> {
    match sw.features
    case None => None
    case Some(features) => features.ports
  }

  /** How many probes the switches' port lists call for, counting the
      switches whose ports can be read. */
  function ProbeCount(net: Network): nat {
    if net == [] then 0
    else
      (match PortsOf(net[0])
       case None => 0
       case Some(ports) => |NonLocal(ports)|) + ProbeCount(net[1..])
  }

  /** `execute`: the outer loop over `controller.switches`. */
  function Execute(net: Network): (r: Round)
    ensures r.raised <==> exists k :: 0 <= k < |net| && PortsOf(net[k]).None?
    ensures !r.raised ==> |r.sent| == ProbeCount(net)
  {
    if net == [] then Round([], false)
    else
      match PortsOf(net[0])
      case None => Round([], true)
      case Some(ports) =>
        var rest := Execute(net[1..]);
        assert forall k :: 1 <= k < |net| ==> net[k] == net[1..][k - 1];
        Round(PortProbes(net[0], ports) + rest.sent, rest.raised)
  }

  /** A round that does not stop probes every port of every switch except the
      local port, once through the switch's own connection, and sends nothing
      else. */
  lemma {:induction false} ExecuteProbesEveryPort(net: Network, s: Sent)
    requires !Execute(net).raised
    ensures s in Execute(net).sent <==>
      exists sw, p :: sw in net && PortsOf(sw).Some? && p in PortsOf(sw).value &&
        p.portNo != OFPP_LOCAL_PORT && s == Sent(sw.connection, Probe(sw.dpid, p))
  {
    if net != [] {
      var ports := PortsOf(net[0]).value;
      ExecuteProbesEveryPort(net[1..], s);
      PortProbesMembers(net[0], ports);
      if s in PortProbes(net[0], ports) {
        var p :| p in ports && p.portNo != OFPP_LOCAL_PORT && s == Sent(net[0].connection, Probe(net[0].dpid, p));
        assert net[0] in net;
      }
      if exists sw, p :: sw in net && PortsOf(sw).Some? && p in PortsOf(sw).value &&
          p.portNo != OFPP_LOCAL_PORT && s == Sent(sw.connection, Probe(sw.dpid, p)) {
        var sw, p :| sw in net && PortsOf(sw).Some? && p in PortsOf(sw).value &&
          p.portNo != OFPP_LOCAL_PORT && s == Sent(sw.connection, Probe(sw.dpid, p));
        if sw != net[0] {
          assert sw in net[1..];
        }
      }
      if exists sw, p :: sw in net[1..] && PortsOf(sw).Some? && p in PortsOf(sw).value &&
          p.portNo != OFPP_LOCAL_PORT && s == Sent(sw.connection, Probe(sw.dpid, p)) {
        var sw, p :| sw in net[1..] && PortsOf(sw).Some? && p in PortsOf(sw).value &&
          p.portNo != OFPP_LOCAL_PORT && s == Sent(sw.connection, Probe(sw.dpid, p));
        assert sw in net;
      }
    }
  }

  /** The interface `get_interface` finds for a port number on a switch that
      may be missing. */
  function GetInterface(net: Network, dpid: string, port: nat): (r: Option<Interface>)
    ensures r == Lookup(net, InterfaceId(dpid, port))
    ensures r.Some? ==> GetSwitchByDpid(net, dpid).Some?
  {
    match GetSwitchByDpid(net, dpid)
    case None => None
    case Some(sw) => GetInterfaceByPortNo(sw, port)
  }

  /** `update_links`: an LLDP frame received on port `in_port` of switch `dpid`
      names the switch and port it was sent from; when both interfaces are
      registered each records the other as its latest endpoint. A frame whose
      ethertype is LLDP but whose payload does not decode raises, and nothing
      changes. */
  function UpdateLinks(net: Network, dpid: string, pin: PacketIn): (r: Network)
    ensures pin.frame.etherType != LLDP_ETHERTYPE || pin.frame.payload.OtherPayload? ==> r == net
    ensures forall id :: Lookup(r, id).Some? <==> Lookup(net, id).Some?
    ensures pin.frame.etherType == LLDP_ETHERTYPE && pin.frame.payload.LldpPdu? ==>
              forall other :: other != InterfaceId(dpid, pin.inPort)
                              && other != InterfaceId(pin.frame.payload.chassisId, pin.frame.payload.portId) ==>
                Lookup(r, other) == Lookup(net, other)
  {
    if pin.frame.etherType != LLDP_ETHERTYPE then net
    else
      match pin.frame.payload
      case OtherPayload(_) => net
      case LldpPdu(chassis, portId) =>
        var a := InterfaceId(dpid, pin.inPort);
        var b := InterfaceId(chassis, portId);
        if GetInterface(net, a.dpid, a.port).Some? && GetInterface(net, b.dpid, b.port).Some? then RecordLink(net, a, b)
        else net
  }

  /** `interface_a.update_endpoint(interface_b)`, then the converse. */
  function RecordLink(net: Network, a: InterfaceId, b: InterfaceId): (r: Network)
    ensures forall id :: Lookup(r, id).Some? <==> Lookup(net, id).Some?
    ensures forall other :: other != a && other != b ==> Lookup(r, other) == Lookup(net, other)
  {
    var net1 := UpdateEndpoint(net, a, PeerInterface(b));
    UpdateEndpointRecords(net, a, PeerInterface(b));
    UpdateEndpointRecords(net1, b, PeerInterface(a));
    UpdateEndpoint(net1, b, PeerInterface(a))
  }

  /** The frame's two ends, when it is an LLDP frame. */
  function LinkEnds(dpid: string, pin: PacketIn): Option<(InterfaceId, InterfaceId)> {
    if pin.frame.etherType == LLDP_ETHERTYPE && pin.frame.payload.LldpPdu? then
      Some((InterfaceId(dpid, pin.inPort), InterfaceId(pin.frame.payload.chassisId, pin.frame.payload.portId)))
    else None
  }

  /** `update_links` records the link in both directions when both ends are
      registered and distinct, and changes no interface other than the two
      ends; otherwise it changes nothing. */
  lemma UpdateLinksRecordsBothEnds(net: Network, dpid: string, pin: PacketIn)
    ensures match LinkEnds(dpid, pin)
      case None => UpdateLinks(net, dpid, pin) == net
      case Some(ends) =>
        var (a, b) := ends;
        match (Lookup(net, a), Lookup(net, b))
        case (Some(ia), Some(ib)) =>
          (a != b ==>
            Lookup(UpdateLinks(net, dpid, pin), a) == Some(UpdateEndpointOf(ia, PeerInterface(b))) &&
            Lookup(UpdateLinks(net, dpid, pin), b) == Some(UpdateEndpointOf(ib, PeerInterface(a)))) &&
          (forall other :: other != a && other != b ==>
            Lookup(UpdateLinks(net, dpid, pin), other) == Lookup(net, other))
        case _ => UpdateLinks(net, dpid, pin) == net
  {
    match LinkEnds(dpid, pin)
    case None =>
    case Some(ends) =>
      var (a, b) := ends;
      var net1 := UpdateEndpoint(net, a, PeerInterface(b));
      UpdateEndpointRecords(net, a, PeerInterface(b));
      UpdateEndpointRecords(net1, b, PeerInterface(a));
  }

  /** Builds the scenario of the discovery round trip below: the packet-in a
      switch would send when the frame `execute` put out of port `p` of switch
      `sw` reaches its port `inPort`. It models no handler of its own. */
  function Echo(sw: Switch, p: PhyPort, bufferId: nat, inPort: nat): (pin: PacketIn)
    ensures pin.frame == ProbeFrame(sw.dpid, p) && pin.inPort == inPort
  {
    PacketIn(bufferId, inPort, ProbeFrame(sw.dpid, p))
  }

  /** Discovery round trip: a probe sent from port `p` of `sw` and received
      on port `inPort` of switch `dpid` makes each of the two interfaces list
      the other as a peer, so both count as switch-to-switch links afterwards. */
  lemma ProbeLinksBothInterfaces(net: Network, sw: Switch, p: PhyPort, dpid: string, inPort: nat, bufferId: nat)
    requires InterfaceId(dpid, inPort) != InterfaceId(sw.dpid, p.portNo)
    requires Lookup(net, InterfaceId(dpid, inPort)).Some?
    requires Lookup(net, InterfaceId(sw.dpid, p.portNo)).Some?
    ensures var after := UpdateLinks(net, dpid, Echo(sw, p, bufferId, inPort));
      Lookup(after, InterfaceId(dpid, inPort)).Some? &&
      PeerInterface(InterfaceId(sw.dpid, p.portNo)) in Lookup(after, InterfaceId(dpid, inPort)).value.endpoints &&
      IsLinkBetweenSwitches(Lookup(after, InterfaceId(dpid, inPort)).value) &&
      Lookup(after, InterfaceId(sw.dpid, p.portNo)).Some? &&
      PeerInterface(InterfaceId(dpid, inPort)) in Lookup(after, InterfaceId(sw.dpid, p.portNo)).value.endpoints &&
      IsLinkBetweenSwitches(Lookup(after, InterfaceId(sw.dpid, p.portNo)).value)
  {
    var pin := Echo(sw, p, bufferId, inPort);
    var a := InterfaceId(dpid, inPort);
    var b := InterfaceId(sw.dpid, p.portNo);
    UpdateLinksRecordsBothEnds(net, dpid, pin);
    var after := UpdateLinks(net, dpid, pin);
    var ia := UpdateEndpointOf(Lookup(net, a).value, PeerInterface(b));
    var ib := UpdateEndpointOf(Lookup(net, b).value, PeerInterface(a));
    assert ia.endpoints[|ia.endpoints| - 1] == PeerInterface(b);
    assert ib.endpoints[|ib.endpoints| - 1] == PeerInterface(a);
  }

  /** The topology application sees the same packet-ins but never takes an
      LLDP probe for a host. */
  lemma ProbesTeachNoHosts(net: Network, sw: Switch, p: PhyPort, dpid: string, inPort: nat, bufferId: nat)
    ensures Topology.UpdateLinks(net, dpid, Echo(sw, p, bufferId, inPort)) == net
  {
  }
}
