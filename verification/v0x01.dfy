/** The OpenFlow 1.0 adapter of napps/kytos/of_core/v0x01/utils.py: the
    messages the engine sends a 1.0 switch, and how a 1.0 features reply is
    recorded in the switch registry. */
module AdapterV01 {

  import opened Wrappers
  import opened OpenFlow
  import opened KytosCore

  /** The echo payload `b'kytosd_10'`. */
  const ECHO_DATA: string := "kytosd_10"

  /** `miss_send_len` asking the switch for whole packets. */
  const MISS_SEND_ALL: nat := 0xffff

  /** `update_flow_list`: one flow-statistics request for all flows. */
  function UpdateFlowList(): (out: seq<OutMessage>)
    ensures |out| == 1 && out[0].StatsRequest? && out[0].bodyType == OFPST_FLOW
  {
    [StatsRequest(OFPST_FLOW)]
  }

  /** `send_echo`: one 1.0 echo request carrying the controller's payload. */
  function SendEcho(): (out: OutMessage)
    ensures out.EchoRequest? && out.version == OFP_V10
    ensures |out.data| == |ECHO_DATA| && forall i :: 0 <= i < |ECHO_DATA| ==> out.data[i] == ECHO_DATA[i] as int
  {
    EchoRequest(OFP_V10, Ascii(ECHO_DATA))
  }

  /** `send_set_config`: normal fragment handling, whole packets sent to the controller. */
  function SendSetConfig(): (out: OutMessage)
    ensures out.SetConfig? && out.flags == OFPC_FRAG_NORMAL && out.missSendLen == MISS_SEND_ALL
  {
    SetConfig(OFPC_FRAG_NORMAL, MISS_SEND_ALL)
  }

  /** The interface built from a reply port: name, hardware address, number,
      state and current features, and no endpoints yet. */
  function InterfaceOf(port: PhyPort): (i: Interface)
    ensures i.portNumber == port.portNo && i.endpoints == []
  {
    Interface(port.name, port.hwAddr, port.portNo, port.state, port.curr, [])
  }

  /** The port record an interface was built from. */
  function PortOf(i: Interface): PhyPort {
    PhyPort(i.portNumber, i.address, i.name, i.state, i.features)
  }

  /** No port field is lost or altered on the way into the registry, and an
      interface without endpoints is exactly the one its port record builds. */
  lemma InterfacePortRoundTrip(port: PhyPort, i: Interface)
    ensures PortOf(InterfaceOf(port)) == port
    ensures i.endpoints == [] ==> InterfaceOf(PortOf(i)) == i
  {
  }

  /** One `update_interface` call per reply port, in reply order. */
  function InterfaceCalls(dpid: string, ports: seq<PhyPort>): (calls: seq<RegistryCall>)
    ensures |calls| == |ports|
    ensures forall k :: 0 <= k < |ports| ==> calls[k] == UpdateInterface(dpid, InterfaceOf(ports[k]))
  {
    seq(|ports|, k requires 0 <= k < |ports| => UpdateInterface(dpid, InterfaceOf(ports[k])))
  }

  /** `handle_features_reply` for a 1.0 reply, whose port list is always present:
      look the switch up or create it on this connection, register one interface
      per port, then store the features. The switch returned is the one
      registered under the reply's datapath id. */
  function HandleFeaturesReply(connection: nat, reply: FeaturesReply): (calls: seq<RegistryCall>)
    requires reply.ports.Some?
    ensures |calls| == |reply.ports.value| + 2
    ensures calls[0] == GetSwitchOrCreate(reply.datapathId, connection)
    ensures forall k :: 0 <= k < |reply.ports.value| ==>
              calls[k + 1] == UpdateInterface(reply.datapathId, InterfaceOf(reply.ports.value[k]))
    ensures calls[|calls| - 1] == UpdateFeatures(reply.datapathId, reply)
  {
    [GetSwitchOrCreate(reply.datapathId, connection)]
      + InterfaceCalls(reply.datapathId, reply.ports.value)
      + [UpdateFeatures(reply.datapathId, reply)]
  }

  /** The first reply port with number `p`: the one `update_interface` keeps
      when a reply lists a port number twice. */
  function FirstPort(ports: seq<PhyPort>, p: nat): (r: Option<PhyPort>)
    ensures r.Some? ==> r.value in ports && r.value.portNo == p
    ensures r.None? <==> forall k :: 0 <= k < |ports| ==> ports[k].portNo != p
  {
    if ports == [] then None
    else if ports[0].portNo == p then Some(ports[0])
    else FirstPort(ports[1..], p)
  }

  function InterfaceOfPort(p: Option<PhyPort>): Option<Interface> {
    match p
    case None => None
    case Some(port) => Some(InterfaceOf(port))
  }

  /** The interface calls of a reply, on a registered switch: interfaces it
      already had stay as they were, every other port number gets the
      interface of the first reply port carrying it, connection and features
      are untouched, and no other switch changes. */
  lemma {:induction false} ApplyInterfaceCalls(net: Network, dpid: string, ports: seq<PhyPort>)
    requires GetSwitchByDpid(net, dpid).Some?
    decreases |ports|
    ensures var after := ApplyAll(net, InterfaceCalls(dpid, ports));
      var sw := GetSwitchByDpid(net, dpid).value;
      && GetSwitchByDpid(after, dpid).Some?
      && GetSwitchByDpid(after, dpid).value.connection == sw.connection
      && GetSwitchByDpid(after, dpid).value.features == sw.features
      && (forall p :: GetInterfaceByPortNo(GetSwitchByDpid(after, dpid).value, p) ==
            if GetInterfaceByPortNo(sw, p).Some? then GetInterfaceByPortNo(sw, p)
            else InterfaceOfPort(FirstPort(ports, p)))
      && (forall d :: d != dpid ==> GetSwitchByDpid(after, d) == GetSwitchByDpid(net, d))
  {
    var sw := GetSwitchByDpid(net, dpid).value;
    if ports == [] {
      assert InterfaceCalls(dpid, ports) == [];
    } else {
      var calls := InterfaceCalls(dpid, ports);
      assert calls[1..] == InterfaceCalls(dpid, ports[1..]);
      var sw1 := AddInterface(sw, InterfaceOf(ports[0]));
      var net1 := ReplaceSwitch(net, sw1);
      assert Apply(net, calls[0]) == net1;
      ReplaceSwitchLookup(net, sw1);
      ApplyInterfaceCalls(net1, dpid, ports[1..]);
      assert ApplyAll(net, calls) == ApplyAll(net1, calls[1..]);
    }
  }

  /** A 1.0 features reply leaves the registry with the switch registered under
      the reply's datapath id, bound to the connection and holding the reply as
      its features; every reply port has an interface, and a switch seen for
      the first time holds exactly the interfaces of its reply. */
  lemma FeaturesReplyRegisters(net: Network, connection: nat, reply: FeaturesReply)
    requires reply.ports.Some?
    ensures var after := ApplyAll(net, HandleFeaturesReply(connection, reply));
      var dpid := reply.datapathId;
      && GetSwitchByDpid(after, dpid).Some?
      && GetSwitchByDpid(after, dpid).value.connection == Some(connection)
      && GetSwitchByDpid(after, dpid).value.features == Some(reply)
      && (forall k :: 0 <= k < |reply.ports.value| ==>
            GetInterfaceByPortNo(GetSwitchByDpid(after, dpid).value, reply.ports.value[k].portNo).Some?)
      && (GetSwitchByDpid(net, dpid).None? ==> forall p ::
            GetInterfaceByPortNo(GetSwitchByDpid(after, dpid).value, p) ==
            InterfaceOfPort(FirstPort(reply.ports.value, p)))
      && (forall d :: d != dpid ==> GetSwitchByDpid(after, d) == GetSwitchByDpid(net, d))
  {
    var dpid := reply.datapathId;
    var first := [GetSwitchOrCreate(dpid, connection)];
    var middle := InterfaceCalls(dpid, reply.ports.value);
    var last := [UpdateFeatures(dpid, reply)];
    assert HandleFeaturesReply(connection, reply) == (first + middle) + last;
    ApplyAllAppend(net, first + middle, last);
    InterfacesRegistered(net, connection, reply);
    var net2 := ApplyAll(net, first + middle);
    var sw2 := GetSwitchByDpid(net2, dpid).value;
    assert ApplyAll(net2, last) == ReplaceSwitch(net2, sw2.(features := Some(reply)));
    ReplaceSwitchLookup(net2, sw2.(features := Some(reply)));
  }

  /** The registry just before the features update: the switch exists on the
      connection and holds an interface for every reply port. */
  lemma InterfacesRegistered(net: Network, connection: nat, reply: FeaturesReply)
    requires reply.ports.Some?
    ensures var dpid := reply.datapathId;
      var net2 := ApplyAll(net, [GetSwitchOrCreate(dpid, connection)] + InterfaceCalls(dpid, reply.ports.value));
      && GetSwitchByDpid(net2, dpid).Some?
      && GetSwitchByDpid(net2, dpid).value.connection == Some(connection)
      && (forall k :: 0 <= k < |reply.ports.value| ==>
            GetInterfaceByPortNo(GetSwitchByDpid(net2, dpid).value, reply.ports.value[k].portNo).Some?)
      && (GetSwitchByDpid(net, dpid).None? ==> forall p ::
            GetInterfaceByPortNo(GetSwitchByDpid(net2, dpid).value, p) ==
            InterfaceOfPort(FirstPort(reply.ports.value, p)))
      && (forall d :: d != dpid ==> GetSwitchByDpid(net2, d) == GetSwitchByDpid(net, d))
  {
    var dpid := reply.datapathId;
    var ports := reply.ports.value;
    var first := [GetSwitchOrCreate(dpid, connection)];
    var middle := InterfaceCalls(dpid, ports);
    ApplyAllAppend(net, first, middle);
    var net1 := ApplyAll(net, first);
    assert net1 == Apply(net, first[0]);
    GetSwitchOrCreateRegisters(net, dpid, connection);
    ApplyInterfaceCalls(net1, dpid, ports);
    var sw2 := GetSwitchByDpid(ApplyAll(net1, middle), dpid).value;
    forall k | 0 <= k < |ports|
      ensures GetInterfaceByPortNo(sw2, ports[k].portNo).Some?
    {
      assert FirstPort(ports, ports[k].portNo).Some?;
    }
    if GetSwitchByDpid(net, dpid).None? {
      assert GetSwitchByDpid(net1, dpid).value.interfaces == [];
    }
  }
}
