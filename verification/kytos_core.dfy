/** The part of the controller's switch registry (`kytos.core`, which is not
    part of this model) that the OpenFlow and network applications use:
    switches with their interfaces, interface endpoints and the per-switch
    MAC table. The behaviour given here is what the applications rely on:
    - `get_switch_or_create` registers a switch on first sight and binds the connection;
    - `update_interface` stores an interface under its port number unless one is there;
    - `update_endpoint` (re)records an endpoint as the interface's most recent one;
    - `is_link_between_switches` holds when some endpoint is another interface;
    - `update_mac_table` records a port for a MAC address, `where_is_mac` lists
      the ports recorded for it;
    - `update_description` stores the switch's description. */
module KytosCore {

  import opened Wrappers
  import opened OpenFlow

  /** The identifier `"<dpid>:<port>"` of an interface. */
  datatype InterfaceId = InterfaceId(dpid: string, port: nat)

  /** What an interface is connected to: a host MAC address or another interface. */
  datatype Endpoint = HostMac(mac: Mac) | PeerInterface(id: InterfaceId)

  datatype Interface = Interface(name: string, address: Mac, portNumber: nat,
                                 state: nat, features: nat, endpoints: seq<Endpoint>)

  /** A switch description as the desc-stats reply carries it. */
  datatype SwitchDesc = SwitchDesc(mfrDesc: string, hwDesc: string, swDesc: string, serialNum: string)

  datatype Switch = Switch(dpid: string, connection: Option<nat>, interfaces: seq<Interface>,
                           features: Option<FeaturesReply>, macTable: map<Mac, seq<nat>>,
                           description: Option<SwitchDesc>)

  /** `controller.switches`, in insertion order. */
  type Network = seq<Switch>

  function NewSwitch(dpid: string): Switch {
    Switch(dpid, None, [], None, map[], None)
  }

  /** The calls a features-reply handler makes on the registry, in order. */
  datatype RegistryCall =
    | GetSwitchOrCreate(dpid: string, connection: nat)
    | UpdateInterface(dpid: string, iface: Interface)
    | UpdateFeatures(dpid: string, features: FeaturesReply)

  function IdOf(sw: Switch, iface: Interface): InterfaceId {
    InterfaceId(sw.dpid, iface.portNumber)
  }

  /** `controller.get_switch_by_dpid(dpid)`. */
  function GetSwitchByDpid(net: Network, dpid: string): (r: Option<Switch>)
    ensures r.Some? ==> r.value in net && r.value.dpid == dpid
    ensures r.None? <==> forall i :: 0 <= i < |net| ==> net[i].dpid != dpid
  {
    if net == [] then None
    else if net[0].dpid == dpid then Some(net[0])
    else GetSwitchByDpid(net[1..], dpid)
  }

  /** The interface stored under `port`, if any. */
  function FindPort(ifaces: seq<Interface>, port: nat): (r: Option<Interface>)
    ensures r.Some? ==> r.value in ifaces && r.value.portNumber == port
    ensures r.None? <==> forall i :: 0 <= i < |ifaces| ==> ifaces[i].portNumber != port
  {
    if ifaces == [] then None
    else if ifaces[0].portNumber == port then Some(ifaces[0])
    else FindPort(ifaces[1..], port)
  }

  /** `switch.get_interface_by_port_no(port_no)`. */
  function GetInterfaceByPortNo(sw: Switch, port: nat): Option<Interface> {
    FindPort(sw.interfaces, port)
  }

  /** The interface `id` names, if its switch and port are registered. */
  function Lookup(net: Network, id: InterfaceId): Option<Interface> {
    match GetSwitchByDpid(net, id.dpid)
    case None => None
    case Some(sw) => GetInterfaceByPortNo(sw, id.port)
  }

  /** Puts `sw` in place of the switch registered under its dpid. */
  function ReplaceSwitch(net: Network, sw: Switch): (r: Network)
    ensures |r| == |net|
    ensures forall i :: 0 <= i < |net| ==> r[i] == if net[i].dpid == sw.dpid then sw else net[i]
  {
    seq(|net|, i requires 0 <= i < |net| => if net[i].dpid == sw.dpid then sw else net[i])
  }

  /** Puts `iface` in place of the interface stored under its port number. */
  function ReplacePort(ifaces: seq<Interface>, iface: Interface): (r: seq<Interface>)
    ensures |r| == |ifaces|
    ensures forall j :: 0 <= j < |ifaces| ==>
      r[j] == if ifaces[j].portNumber == iface.portNumber then iface else ifaces[j]
  {
    seq(|ifaces|, j requires 0 <= j < |ifaces| =>
      if ifaces[j].portNumber == iface.portNumber then iface else ifaces[j])
  }

  function ReplaceInterface(sw: Switch, iface: Interface): Switch {
    sw.(interfaces := ReplacePort(sw.interfaces, iface))
  }

  /** `switch.update_interface(interface)`. */
  function AddInterface(sw: Switch, iface: Interface): (r: Switch)
    ensures GetInterfaceByPortNo(r, iface.portNumber).Some?
    ensures GetInterfaceByPortNo(sw, iface.portNumber).None? ==>
              GetInterfaceByPortNo(r, iface.portNumber) == Some(iface)
    ensures forall p :: p != iface.portNumber ==>
              GetInterfaceByPortNo(r, p) == GetInterfaceByPortNo(sw, p)
  {
    if FindPort(sw.interfaces, iface.portNumber).Some? then sw
    else
      var r := sw.(interfaces := sw.interfaces + [iface]);
      FindPortAppend(sw.interfaces, iface);
      r
  }

  lemma {:induction false} FindPortAppend(ifaces: seq<Interface>, iface: Interface)
    ensures FindPort(ifaces + [iface], iface.portNumber) ==
              if FindPort(ifaces, iface.portNumber).Some? then FindPort(ifaces, iface.portNumber) else Some(iface)
    ensures forall p :: p != iface.portNumber ==> FindPort(ifaces + [iface], p) == FindPort(ifaces, p)
  {
    if ifaces != [] {
      assert (ifaces + [iface])[1..] == ifaces[1..] + [iface];
      FindPortAppend(ifaces[1..], iface);
    }
  }

  /** The registry after one call. A call on a dpid nobody registered changes nothing. */
  function Apply(net: Network, call: RegistryCall): Network {
    match call
    case GetSwitchOrCreate(dpid, conn) =>
      (match GetSwitchByDpid(net, dpid)
       case None => net + [NewSwitch(dpid).(connection := Some(conn))]
       case Some(sw) => ReplaceSwitch(net, sw.(connection := Some(conn))))
    case UpdateInterface(dpid, iface) =>
      (match GetSwitchByDpid(net, dpid)
       case None => net
       case Some(sw) => ReplaceSwitch(net, AddInterface(sw, iface)))
    case UpdateFeatures(dpid, features) =>
      (match GetSwitchByDpid(net, dpid)
       case None => net
       case Some(sw) => ReplaceSwitch(net, sw.(features := Some(features))))
  }

  /** The registry after a sequence of calls. */
  function ApplyAll(net: Network, calls: seq<RegistryCall>): Network
    decreases |calls|
  {
    if calls == [] then net else ApplyAll(Apply(net, calls[0]), calls[1..])
  }

  lemma {:induction false} ApplyAllAppend(net: Network, a: seq<RegistryCall>, b: seq<RegistryCall>)
    ensures ApplyAll(net, a + b) == ApplyAll(ApplyAll(net, a), b)
    decreases |a|
  {
    if a == [] {
      assert a + b == b;
    } else {
      assert (a + b)[1..] == a[1..] + b;
      ApplyAllAppend(Apply(net, a[0]), a[1..], b);
    }
  }

  /** The switch `get_switch_or_create(dpid, connection)` returns is registered
      afterwards under `dpid` and bound to `connection`; the other switches are untouched. */
  lemma GetSwitchOrCreateRegisters(net: Network, dpid: string, conn: nat)
    ensures GetSwitchByDpid(Apply(net, GetSwitchOrCreate(dpid, conn)), dpid).Some?
    ensures GetSwitchByDpid(Apply(net, GetSwitchOrCreate(dpid, conn)), dpid).value.connection == Some(conn)
    ensures forall d :: d != dpid ==>
      GetSwitchByDpid(Apply(net, GetSwitchOrCreate(dpid, conn)), d) == GetSwitchByDpid(net, d)
  {
    match GetSwitchByDpid(net, dpid)
    case None =>
      var r := net + [NewSwitch(dpid).(connection := Some(conn))];
      assert r[|net|].dpid == dpid;
      LookupAppendSame(net, NewSwitch(dpid).(connection := Some(conn)));
      forall d | d != dpid
        ensures GetSwitchByDpid(r, d) == GetSwitchByDpid(net, d)
      {
        LookupAppend(net, NewSwitch(dpid).(connection := Some(conn)), d);
      }
    case Some(sw) =>
      ReplaceSwitchLookup(net, sw.(connection := Some(conn)));
  }

  lemma {:induction false} LookupAppend(net: Network, sw: Switch, d: string)
    requires sw.dpid != d
    ensures GetSwitchByDpid(net + [sw], d) == GetSwitchByDpid(net, d)
  {
    if net != [] {
      assert (net + [sw])[1..] == net[1..] + [sw];
      LookupAppend(net[1..], sw, d);
    }
  }

  lemma {:induction false} LookupAppendSame(net: Network, sw: Switch)
    requires GetSwitchByDpid(net, sw.dpid).None?
    ensures GetSwitchByDpid(net + [sw], sw.dpid) == Some(sw)
  {
    if net != [] {
      assert (net + [sw])[1..] == net[1..] + [sw];
      LookupAppendSame(net[1..], sw);
    }
  }

  /** How a lookup sees `ReplaceSwitch`: a registered dpid finds the new switch,
      every other dpid finds what it found before. */
  lemma {:induction false} ReplaceSwitchLookup(net: Network, sw: Switch)
    requires GetSwitchByDpid(net, sw.dpid).Some?
    ensures GetSwitchByDpid(ReplaceSwitch(net, sw), sw.dpid) == Some(sw)
    ensures forall d :: d != sw.dpid ==> GetSwitchByDpid(ReplaceSwitch(net, sw), d) == GetSwitchByDpid(net, d)
  {
    assert ReplaceSwitch(net, sw)[1..] == ReplaceSwitch(net[1..], sw);
    if net[0].dpid != sw.dpid {
      ReplaceSwitchLookup(net[1..], sw);
    } else if GetSwitchByDpid(net[1..], sw.dpid).Some? {
      ReplaceSwitchLookup(net[1..], sw);
    } else {
      ReplaceSwitchElsewhere(net[1..], sw);
    }
  }

  lemma {:induction false} ReplaceSwitchElsewhere(net: Network, sw: Switch)
    ensures forall d :: d != sw.dpid ==> GetSwitchByDpid(ReplaceSwitch(net, sw), d) == GetSwitchByDpid(net, d)
  {
    if net != [] {
      assert ReplaceSwitch(net, sw)[1..] == ReplaceSwitch(net[1..], sw);
      ReplaceSwitchElsewhere(net[1..], sw);
    }
  }

  /** How a lookup sees `ReplacePort`, as `ReplaceSwitchLookup` for switches. */
  lemma {:induction false} ReplacePortLookup(ifaces: seq<Interface>, iface: Interface)
    ensures FindPort(ReplacePort(ifaces, iface), iface.portNumber) ==
              if FindPort(ifaces, iface.portNumber).Some? then Some(iface) else None
    ensures forall p :: p != iface.portNumber ==>
              FindPort(ReplacePort(ifaces, iface), p) == FindPort(ifaces, p)
  {
    if ifaces != [] {
      var r := ReplacePort(ifaces, iface);
      assert r[1..] == ReplacePort(ifaces[1..], iface);
      ReplacePortLookup(ifaces[1..], iface);
    }
  }

  predicate IsLinkBetweenSwitches(iface: Interface) {
    exists k :: 0 <= k < |iface.endpoints| && iface.endpoints[k].PeerInterface?
  }

  function Without(eps: seq<Endpoint>, ep: Endpoint): (r: seq<Endpoint>)
    ensures forall e :: e in r <==> e in eps && e != ep
  {
    if eps == [] then []
    else if eps[0] == ep then Without(eps[1..], ep)
    else [eps[0]] + Without(eps[1..], ep)
  }

  /** `interface.update_endpoint(endpoint)`: the endpoint is recorded once,
      as the most recent one; timestamps are not modelled. */
  function UpdateEndpointOf(iface: Interface, ep: Endpoint): (r: Interface)
    ensures forall e :: e in r.endpoints <==> e in iface.endpoints || e == ep
    ensures |r.endpoints| > 0 && r.endpoints[|r.endpoints| - 1] == ep
    ensures r.(endpoints := iface.endpoints) == iface
  {
    iface.(endpoints := Without(iface.endpoints, ep) + [ep])
  }

  /** `update_endpoint` on the interface `id` names; nothing when it is not registered. */
  function UpdateEndpoint(net: Network, id: InterfaceId, ep: Endpoint): Network {
    match GetSwitchByDpid(net, id.dpid)
    case None => net
    case Some(sw) =>
      match GetInterfaceByPortNo(sw, id.port)
      case None => net
      case Some(iface) => ReplaceSwitch(net, ReplaceInterface(sw, UpdateEndpointOf(iface, ep)))
  }

  /** After `update_endpoint`, the interface `id` names records `ep` as its
      latest endpoint and keeps every endpoint it had; every other interface is
      found unchanged. */
  lemma UpdateEndpointRecords(net: Network, id: InterfaceId, ep: Endpoint)
    ensures Lookup(UpdateEndpoint(net, id, ep), id) ==
              match Lookup(net, id) case None => None case Some(i) => Some(UpdateEndpointOf(i, ep))
    ensures forall other :: other != id ==> Lookup(UpdateEndpoint(net, id, ep), other) == Lookup(net, other)
  {
    match GetSwitchByDpid(net, id.dpid)
    case None =>
    case Some(sw) =>
      match GetInterfaceByPortNo(sw, id.port)
      case None =>
      case Some(iface) =>
        var sw' := ReplaceInterface(sw, UpdateEndpointOf(iface, ep));
        ReplaceSwitchLookup(net, sw');
        ReplacePortLookup(sw.interfaces, UpdateEndpointOf(iface, ep));
  }

  /** `switch.update_mac_table(mac, port)`: the port joins the set recorded for `mac`. */
  function UpdateMacTable(sw: Switch, mac: Mac, port: nat): (r: Switch)
    ensures mac in r.macTable && port in r.macTable[mac]
    ensures forall p :: p in r.macTable[mac] <==> p == port || (mac in sw.macTable && p in sw.macTable[mac])
    ensures forall m :: m != mac ==> (m in r.macTable <==> m in sw.macTable)
    ensures forall m :: m != mac && m in sw.macTable ==> r.macTable[m] == sw.macTable[m]
    ensures r.(macTable := sw.macTable) == sw
  {
    var known := if mac in sw.macTable then sw.macTable[mac] else [];
    sw.(macTable := sw.macTable[mac := if port in known then known else known + [port]])
  }

  /** `switch.where_is_mac(mac)`; the empty list stands for `None`. */
  function WhereIsMac(sw: Switch, mac: Mac): (ports: seq<nat>)
    ensures |ports| > 0 <==> mac in sw.macTable && |sw.macTable[mac]| > 0
    ensures forall p :: p in ports <==> mac in sw.macTable && p in sw.macTable[mac]
  {
    if mac in sw.macTable then sw.macTable[mac] else []
  }

  /** Learning then asking: right after `update_mac_table(mac, port)`,
      `where_is_mac(mac)` is non-empty and lists `port`. */
  lemma LearnThenLocate(sw: Switch, mac: Mac, port: nat)
    ensures port in WhereIsMac(UpdateMacTable(sw, mac, port), mac)
    ensures forall m :: m != mac ==> WhereIsMac(UpdateMacTable(sw, mac, port), m) == WhereIsMac(sw, m)
  {
  }
}
