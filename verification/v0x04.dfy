/** The OpenFlow 1.3 adapter of napps/kytos/of_core/v0x04/utils.py. A 1.3
    features reply carries no port list (section A.3.1 of OpenFlow 1.3.0), so
    no interface is registered from it. */
module AdapterV04 {

  import opened Wrappers
  import opened OpenFlow
  import opened KytosCore

  /** The echo payload `b'kytosd_13'`. */
  const ECHO_DATA: string := "kytosd_13"

  /** `update_flow_list`: flow statistics are not requested from 1.3 switches. */
  function UpdateFlowList(): (out: seq<OutMessage>)
    ensures |out| == 0
  {
    []
  }

  /** `send_echo`: one 1.3 echo request carrying the controller's payload. */
  function SendEcho(): (out: OutMessage)
    ensures out.EchoRequest? && out.version == OFP_V13
    ensures |out.data| == |ECHO_DATA| && forall i :: 0 <= i < |ECHO_DATA| ==> out.data[i] == ECHO_DATA[i] as int
  {
    EchoRequest(OFP_V13, Ascii(ECHO_DATA))
  }

  /** `handle_features_reply` for a 1.3 reply: look the switch up or create it
      on this connection, then store the features; the port list is not read. */
  function HandleFeaturesReply(connection: nat, reply: FeaturesReply): (calls: seq<RegistryCall>)
    ensures |calls| == 2
    ensures calls[0] == GetSwitchOrCreate(reply.datapathId, connection)
    ensures calls[1] == UpdateFeatures(reply.datapathId, reply)
  {
    [GetSwitchOrCreate(reply.datapathId, connection), UpdateFeatures(reply.datapathId, reply)]
  }

  /** A 1.3 features reply leaves the switch registered under the reply's
      datapath id, bound to the connection and holding the reply as its
      features, with exactly the interfaces it had before (none for a new
      switch); no other switch changes. */
  lemma FeaturesReplyRegisters(net: Network, connection: nat, reply: FeaturesReply)
    ensures var after := ApplyAll(net, HandleFeaturesReply(connection, reply));
      var dpid := reply.datapathId;
      && GetSwitchByDpid(after, dpid).Some?
      && GetSwitchByDpid(after, dpid).value.connection == Some(connection)
      && GetSwitchByDpid(after, dpid).value.features == Some(reply)
      && GetSwitchByDpid(after, dpid).value.interfaces ==
           (if GetSwitchByDpid(net, dpid).Some? then GetSwitchByDpid(net, dpid).value.interfaces else [])
      && (forall d :: d != dpid ==> GetSwitchByDpid(after, d) == GetSwitchByDpid(net, d))
  {
    var dpid := reply.datapathId;
    var calls := HandleFeaturesReply(connection, reply);
    assert ApplyAll(net, calls) == ApplyAll(Apply(net, calls[0]), [calls[1]]);
    assert ApplyAll(Apply(net, calls[0]), [calls[1]]) == Apply(Apply(net, calls[0]), calls[1]);
    GetSwitchOrCreateRegisters(net, dpid, connection);
    var net1 := Apply(net, calls[0]);
    var sw1 := GetSwitchByDpid(net1, dpid).value;
    if GetSwitchByDpid(net, dpid).Some? {
      var sw := GetSwitchByDpid(net, dpid).value;
      ReplaceSwitchLookup(net, sw.(connection := Some(connection)));
      assert sw1.interfaces == sw.interfaces;
    } else {
      LookupAppendSame(net, NewSwitch(dpid).(connection := Some(connection)));
      assert sw1.interfaces == [];
    }
    ReplaceSwitchLookup(net1, sw1.(features := Some(reply)));
  }
}
