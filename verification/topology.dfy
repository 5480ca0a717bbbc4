/** The topology application (napps/kytos/of_topology/main.py): it learns which
    host sits behind each switch port from the packet-ins it sees, and renders
    the registry as a graph of nodes and links for the `/topology` endpoint. */
module Topology {

  import opened Wrappers
  import opened OpenFlow
  import opened KytosCore
  import opened Packets

  /** `update_links`: a frame that is not LLDP teaches the interface it came
      in on that the frame's source MAC sits behind it, unless that interface
      already faces another switch. `dpid` is the switch of the connection the
      packet-in arrived on. */
  function UpdateLinks(net: Network, dpid: string, pin: PacketIn): (r: Network)
    ensures pin.frame.etherType == LLDP_ETHERTYPE ==> r == net
    ensures forall id :: Lookup(r, id).Some? <==> Lookup(net, id).Some?
    ensures forall other :: other != InterfaceId(dpid, pin.inPort) ==> Lookup(r, other) == Lookup(net, other)
  {
    var id := InterfaceId(dpid, pin.inPort);
    if pin.frame.etherType == LLDP_ETHERTYPE then net
    else
      match Lookup(net, id)
      case None => net
      case Some(iface) =>
        if IsLinkBetweenSwitches(iface) then net
        else
          UpdateEndpointRecords(net, id, HostMac(pin.frame.source));
          UpdateEndpoint(net, id, HostMac(pin.frame.source))
  }

  /** What `update_links` does to the interface the packet came in on: it
      records the source MAC as its latest endpoint exactly when the frame is
      not LLDP and the interface has no peer interface; every other interface
      is left alone. */
  lemma UpdateLinksLearnsHost(net: Network, dpid: string, pin: PacketIn)
    ensures var id := InterfaceId(dpid, pin.inPort);
      match Lookup(net, id)
      case None => Lookup(UpdateLinks(net, dpid, pin), id).None?
      case Some(iface) =>
        Lookup(UpdateLinks(net, dpid, pin), id) ==
          if pin.frame.etherType != LLDP_ETHERTYPE && !IsLinkBetweenSwitches(iface)
          then Some(UpdateEndpointOf(iface, HostMac(pin.frame.source)))
          else Some(iface)
    ensures forall other :: other != InterfaceId(dpid, pin.inPort) ==>
              Lookup(UpdateLinks(net, dpid, pin), other) == Lookup(net, other)
  {
    UpdateEndpointRecords(net, InterfaceId(dpid, pin.inPort), HostMac(pin.frame.source));
  }

  /** A learnt host stays learnt: after `update_links` the MAC is among the
      endpoints of the interface it came in on. */
  lemma UpdateLinksRecordsSource(net: Network, dpid: string, pin: PacketIn, iface: Interface)
    requires Lookup(net, InterfaceId(dpid, pin.inPort)) == Some(iface)
    requires pin.frame.etherType != LLDP_ETHERTYPE && !IsLinkBetweenSwitches(iface)
    ensures match Lookup(UpdateLinks(net, dpid, pin), InterfaceId(dpid, pin.inPort))
      case None => false
      case Some(after) =>
        HostMac(pin.frame.source) in after.endpoints && !IsLinkBetweenSwitches(after)
  {
    UpdateLinksLearnsHost(net, dpid, pin);
    var after := UpdateEndpointOf(iface, HostMac(pin.frame.source));
    assert !IsLinkBetweenSwitches(after) by {
      forall k | 0 <= k < |after.endpoints|
        ensures !after.endpoints[k].PeerInterface?
      {
        var e := after.endpoints[k];
        assert e in after.endpoints;
        if e != HostMac(pin.frame.source) {
          var k' :| 0 <= k' < |iface.endpoints| && iface.endpoints[k'] == e;
        }
      }
    }
  }

  /** `update_port_stats` names the reason of a port-status message from the
      list `['CREATED', 'DELETED', 'MODIFIED']`; a reason code past its end
      raises `IndexError`. */
  datatype IndexError = IndexError(index: nat)

  function PortStatusReason(reason: nat): (r: Result<string, IndexError>)
    ensures r.Success? <==> reason < 3
    ensures reason == 0 ==> r == Success("CREATED")
    ensures reason == 1 ==> r == Success("DELETED")
    ensures reason == 2 ==> r == Success("MODIFIED")
  {
    var reasons := ["CREATED", "DELETED", "MODIFIED"];
    if reason < |reasons| then Success(reasons[reason]) else Failure(IndexError(reason))
  }

  /** A node of the rendered graph: a switch's or an interface's `as_dict()`
      (whose fields come from the registry and are represented by the object
      they describe), or a host entry `{type: 'host', id, name, mac}`. */
  datatype Node = SwitchNode(dpid: string) | InterfaceNode(id: InterfaceId) | HostNode(mac: Mac)

  /** A link's ends: a switch id, an interface id or a host MAC. */
  datatype End = SwitchEnd(dpid: string) | InterfaceEnd(id: InterfaceId) | HostEnd(mac: Mac)

  /** `'interface'` joins a switch to its port, `'link'` a port to what it faces. */
  datatype LinkType = InterfaceLink | PlainLink

  datatype Link = Link(source: End, target: End, linkType: LinkType)

  /** `{'nodes': nodes, 'links': links}` before `json.dumps`. */
  datatype Graph = Graph(nodes: seq<Node>, links: seq<Link>)

  /** No host entry appears twice. */
  predicate HostsUnique(nodes: seq<Node>) {
    forall i, j :: 0 <= i < j < |nodes| && nodes[i].HostNode? ==> nodes[i] != nodes[j]
  }

  /** The links an interface contributes through its endpoints: one per peer
      interface, and one per host only when the interface faces no switch. */
  predicate EndpointLink(iface: Interface, eps: seq<Endpoint>, target: End) {
    (target.HostEnd? && HostMac(target.mac) in eps && !IsLinkBetweenSwitches(iface)) ||
    (target.InterfaceEnd? && PeerInterface(target.id) in eps)
  }

  /** The loop over `interface.endpoints`, from `eps` on, for interface `iface` of `sw`. */
  function AddEndpoints(g: Graph, sw: Switch, iface: Interface, eps: seq<Endpoint>): (r: Graph)
    ensures forall l :: l in r.links <==>
      l in g.links || (l.source == InterfaceEnd(IdOf(sw, iface)) && l.linkType == PlainLink &&
                       EndpointLink(iface, eps, l.target))
    ensures forall n :: n in r.nodes <==> n in g.nodes || (n.HostNode? && HostMac(n.mac) in eps)
    ensures HostsUnique(g.nodes) ==> HostsUnique(r.nodes)
    decreases |eps|
  {
    if eps == [] then g
    else
      var from := IdOf(sw, iface);
      var g' := match eps[0]
        case HostMac(mac) =>
          var nodes := if HostNode(mac) in g.nodes then g.nodes else g.nodes + [HostNode(mac)];
          var links := if IsLinkBetweenSwitches(iface) then g.links
                       else g.links + [Link(InterfaceEnd(from), HostEnd(mac), PlainLink)];
          Graph(nodes, links)
        case PeerInterface(id) =>
          Graph(g.nodes, g.links + [Link(InterfaceEnd(from), InterfaceEnd(id), PlainLink)]);
      assert HostsUnique(g.nodes) ==> HostsUnique(g'.nodes);
      assert forall l :: l in g'.links <==>
        l in g.links || (l.source == InterfaceEnd(from) && l.linkType == PlainLink &&
                         EndpointLink(iface, [eps[0]], l.target));
      var r := AddEndpoints(g', sw, iface, eps[1..]);
      assert forall e :: e in eps <==> e == eps[0] || e in eps[1..];
      r
  }

  /** The nodes and links one interface contributes. */
  predicate InterfaceContributes(sw: Switch, iface: Interface, n: Node) {
    n == InterfaceNode(IdOf(sw, iface)) || (n.HostNode? && HostMac(n.mac) in iface.endpoints)
  }

  predicate InterfaceLinks(sw: Switch, iface: Interface, l: Link) {
    l == Link(SwitchEnd(sw.dpid), InterfaceEnd(IdOf(sw, iface)), InterfaceLink) ||
    (l.source == InterfaceEnd(IdOf(sw, iface)) && l.linkType == PlainLink &&
     EndpointLink(iface, iface.endpoints, l.target))
  }

  /** The loop over `switch.interfaces`, from `ifaces` on. */
  function AddInterfaces(g: Graph, sw: Switch, ifaces: seq<Interface>): (r: Graph)
    ensures HostsUnique(g.nodes) ==> HostsUnique(r.nodes)
    decreases |ifaces|
  {
    if ifaces == [] then g
    else
      var id := IdOf(sw, ifaces[0]);
      var g1 := Graph(g.nodes + [InterfaceNode(id)],
                      g.links + [Link(SwitchEnd(sw.dpid), InterfaceEnd(id), InterfaceLink)]);
      assert HostsUnique(g.nodes) ==> HostsUnique(g1.nodes);
      AddInterfaces(AddEndpoints(g1, sw, ifaces[0], ifaces[0].endpoints), sw, ifaces[1..])
  }

  lemma {:induction false} AddInterfacesLinks(g: Graph, sw: Switch, ifaces: seq<Interface>, l: Link)
    ensures l in AddInterfaces(g, sw, ifaces).links <==>
      l in g.links || exists iface :: iface in ifaces && InterfaceLinks(sw, iface, l)
    decreases |ifaces|
  {
    if ifaces != [] {
      var iface := ifaces[0];
      var id := IdOf(sw, iface);
      var g1 := Graph(g.nodes + [InterfaceNode(id)],
                      g.links + [Link(SwitchEnd(sw.dpid), InterfaceEnd(id), InterfaceLink)]);
      var g2 := AddEndpoints(g1, sw, iface, iface.endpoints);
      AddInterfacesLinks(g2, sw, ifaces[1..], l);
      assert l in g2.links <==> l in g.links || InterfaceLinks(sw, iface, l);
      if exists x :: x in ifaces[1..] && InterfaceLinks(sw, x, l) {
        var x :| x in ifaces[1..] && InterfaceLinks(sw, x, l);
        assert x in ifaces;
      }
      if exists x :: x in ifaces && InterfaceLinks(sw, x, l) {
        var x :| x in ifaces && InterfaceLinks(sw, x, l);
        assert x == iface || x in ifaces[1..];
      }
    }
  }

  lemma {:induction false} AddInterfacesNodes(g: Graph, sw: Switch, ifaces: seq<Interface>, n: Node)
    ensures n in AddInterfaces(g, sw, ifaces).nodes <==>
      n in g.nodes || exists iface :: iface in ifaces && InterfaceContributes(sw, iface, n)
    decreases |ifaces|
  {
    if ifaces != [] {
      var iface := ifaces[0];
      var id := IdOf(sw, iface);
      var g1 := Graph(g.nodes + [InterfaceNode(id)],
                      g.links + [Link(SwitchEnd(sw.dpid), InterfaceEnd(id), InterfaceLink)]);
      var g2 := AddEndpoints(g1, sw, iface, iface.endpoints);
      AddInterfacesNodes(g2, sw, ifaces[1..], n);
      assert n in g1.nodes <==> n in g.nodes || n == InterfaceNode(id);
      assert n in g2.nodes <==> n in g.nodes || InterfaceContributes(sw, iface, n);
      if exists x :: x in ifaces[1..] && InterfaceContributes(sw, x, n) {
        var x :| x in ifaces[1..] && InterfaceContributes(sw, x, n);
        assert x in ifaces;
      }
      if exists x :: x in ifaces && InterfaceContributes(sw, x, n) {
        var x :| x in ifaces && InterfaceContributes(sw, x, n);
        assert x == iface || x in ifaces[1..];
      }
    }
  }

  /** A node that a switch contributes: its own entry, or one of an interface's. */
  predicate SwitchContributes(sw: Switch, n: Node) {
    n == SwitchNode(sw.dpid) || exists iface :: iface in sw.interfaces && InterfaceContributes(sw, iface, n)
  }

  predicate SwitchLinks(sw: Switch, l: Link) {
    exists iface :: iface in sw.interfaces && InterfaceLinks(sw, iface, l)
  }

  /** The loop over `controller.switches`, from `switches` on. */
  function AddSwitches(g: Graph, switches: seq<Switch>): (r: Graph)
    ensures HostsUnique(g.nodes) ==> HostsUnique(r.nodes)
    decreases |switches|
  {
    if switches == [] then g
    else
      var sw := switches[0];
      var g1 := Graph(g.nodes + [SwitchNode(sw.dpid)], g.links);
      assert HostsUnique(g.nodes) ==> HostsUnique(g1.nodes);
      AddSwitches(AddInterfaces(g1, sw, sw.interfaces), switches[1..])
  }

  lemma {:induction false} AddSwitchesLinks(g: Graph, switches: seq<Switch>, l: Link)
    ensures l in AddSwitches(g, switches).links <==>
      l in g.links || exists sw :: sw in switches && SwitchLinks(sw, l)
    decreases |switches|
  {
    if switches != [] {
      var sw := switches[0];
      var g1 := Graph(g.nodes + [SwitchNode(sw.dpid)], g.links);
      var g2 := AddInterfaces(g1, sw, sw.interfaces);
      assert AddSwitches(g, switches) == AddSwitches(g2, switches[1..]);
      AddSwitchesLinks(g2, switches[1..], l);
      AddInterfacesLinks(g1, sw, sw.interfaces, l);
      assert l in g2.links <==> l in g.links || SwitchLinks(sw, l);
      if exists x :: x in switches[1..] && SwitchLinks(x, l) {
        var x :| x in switches[1..] && SwitchLinks(x, l);
        assert x in switches;
      }
      if exists x :: x in switches && SwitchLinks(x, l) {
        var x :| x in switches && SwitchLinks(x, l);
        assert x == sw || x in switches[1..];
      }
    }
  }

  lemma {:induction false} AddSwitchesNodes(g: Graph, switches: seq<Switch>, n: Node)
    ensures n in AddSwitches(g, switches).nodes <==>
      n in g.nodes || exists sw :: sw in switches && SwitchContributes(sw, n)
    decreases |switches|
  {
    if switches != [] {
      var sw := switches[0];
      var g1 := Graph(g.nodes + [SwitchNode(sw.dpid)], g.links);
      var g2 := AddInterfaces(g1, sw, sw.interfaces);
      assert AddSwitches(g, switches) == AddSwitches(g2, switches[1..]);
      AddSwitchesNodes(g2, switches[1..], n);
      AddInterfacesNodes(g1, sw, sw.interfaces, n);
      assert n in g1.nodes <==> n in g.nodes || n == SwitchNode(sw.dpid);
      assert n in g2.nodes <==> n in g.nodes || SwitchContributes(sw, n);
      if exists x :: x in switches[1..] && SwitchContributes(x, n) {
        var x :| x in switches[1..] && SwitchContributes(x, n);
        assert x in switches;
      }
      if exists x :: x in switches && SwitchContributes(x, n) {
        var x :| x in switches && SwitchContributes(x, n);
        assert x == sw || x in switches[1..];
      }
    }
  }

  /** `get_json_topology`. */
  function GetJsonTopology(net: Network): (g: Graph)
    ensures HostsUnique(g.nodes)
  {
    AddSwitches(Graph([], []), net)
  }

  /** Every registered switch, every interface and every host MAC an interface
      has seen is a node, and nothing else is; each host appears once. */
  lemma TopologyNodes(net: Network, n: Node)
    ensures n in GetJsonTopology(net).nodes <==>
      exists sw :: sw in net && (n == SwitchNode(sw.dpid) ||
        exists iface :: iface in sw.interfaces &&
          (n == InterfaceNode(IdOf(sw, iface)) || (n.HostNode? && HostMac(n.mac) in iface.endpoints)))
    ensures HostsUnique(GetJsonTopology(net).nodes)
  {
    AddSwitchesNodes(Graph([], []), net, n);
  }

  /** The links are exactly: each switch to each of its interfaces; each
      interface to each peer interface it has seen; and each interface that
      faces no switch to each host it has seen. */
  lemma TopologyLinks(net: Network, l: Link)
    ensures l in GetJsonTopology(net).links <==>
      exists sw, iface :: sw in net && iface in sw.interfaces &&
        (l == Link(SwitchEnd(sw.dpid), InterfaceEnd(IdOf(sw, iface)), InterfaceLink) ||
         (l.source == InterfaceEnd(IdOf(sw, iface)) && l.linkType == PlainLink &&
          ((l.target.HostEnd? && HostMac(l.target.mac) in iface.endpoints && !IsLinkBetweenSwitches(iface)) ||
           (l.target.InterfaceEnd? && PeerInterface(l.target.id) in iface.endpoints))))
  {
    AddSwitchesLinks(Graph([], []), net, l);
  }

  /** A host seen on an interface that faces another switch is drawn as a node
      but never linked from that interface. */
  lemma NoHostLinkOnSwitchPort(net: Network, sw: Switch, iface: Interface, mac: Mac)
    requires sw in net && iface in sw.interfaces
    requires HostMac(mac) in iface.endpoints && IsLinkBetweenSwitches(iface)
    requires forall s, i :: s in net && i in s.interfaces && IdOf(s, i) == IdOf(sw, iface) ==> i == iface
    ensures HostNode(mac) in GetJsonTopology(net).nodes
    ensures Link(InterfaceEnd(IdOf(sw, iface)), HostEnd(mac), PlainLink) !in GetJsonTopology(net).links
  {
    TopologyNodes(net, HostNode(mac));
    TopologyLinks(net, Link(InterfaceEnd(IdOf(sw, iface)), HostEnd(mac), PlainLink));
  }
}
