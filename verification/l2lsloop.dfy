/** The loop-avoiding learning switch (napps/kytos/of_l2lsloop/main.py): the
    learning switch without the LLDP exception, whose flows match on the three
    data-link fields explicitly, and which floods a frame only when the switch
    says it has not flooded it yet. */
module L2lsLoop {

  import opened Wrappers
  import opened OpenFlow
  import opened KytosCore
  import opened Packets
  import L2ls

  /** A fresh `Match()` with the three data-link wildcard flags subtracted. */
  const LoopWildcards: nat := OFPFW_ALL - OFPFW_DL_SRC - OFPFW_DL_DST - OFPFW_DL_TYPE

  /** The match the loop-avoiding switch installs. */
  function LoopMatch(frame: Ethernet, fill: bool): Match {
    L2ls.WithFrame(EmptyMatch.(wildcards := LoopWildcards), frame, fill)
  }

  /** The subtraction lowers exactly the three data-link flags of `OFPFW_ALL`:
      the flow matches on source, destination and ethertype and on nothing
      else. Wildcard filling keeps it so for a frame whose fields are not at
      their defaults, and then the match is the one the learning switch
      installs. */
  lemma LoopMatchWildcards(frame: Ethernet, fill: bool)
    ensures LoopWildcards == 0x3f_ffe3
    ensures !L2ls.HasFlag(LoopWildcards, OFPFW_DL_SRC) && !L2ls.HasFlag(LoopWildcards, OFPFW_DL_DST) &&
            !L2ls.HasFlag(LoopWildcards, OFPFW_DL_TYPE)
    ensures (!fill || L2ls.Addressed(frame)) ==> LoopMatch(frame, fill).wildcards == LoopWildcards
    ensures fill && L2ls.Addressed(frame) ==> LoopMatch(frame, fill) == L2ls.ForwardingMatch(frame, fill)
  {
    L2ls.ForwardingMatchWildcards(frame, fill);
  }

  /** The switch and its flood table after the packet-in, and the messages
      sent back. */
  datatype Reaction = Reaction(switch: Switch, floodTable: seq<Ethernet>, sent: seq<AppMessage>)

  /** `handle_packet_in`. `shouldFlood` is the switch's `should_flood(ethernet)`
      answer, and `update_flood_table` appends the frame to `floodTable`. */
  function HandlePacketIn(sw: Switch, floodTable: seq<Ethernet>, shouldFlood: bool, fill: bool,
                          pin: PacketIn): (r: Reaction)
    ensures r.switch == UpdateMacTable(sw, pin.frame.source, pin.inPort)
  {
    var frame := pin.frame;
    var sw' := UpdateMacTable(sw, frame.source, pin.inPort);
    var ports := WhereIsMac(sw', frame.destination);
    if |ports| > 0 then
      Reaction(sw', floodTable, [L2ls.Forward(pin, LoopMatch(frame, fill), ports[0])])
    else if shouldFlood then
      Reaction(sw', floodTable + [frame], [L2ls.Flood(pin)])
    else Reaction(sw', floodTable, [])
  }

  /** A located destination gets a flow-mod out of one of its ports; otherwise
      the frame is flooded, and remembered as flooded, only when the switch
      allows it; nothing else is sent. */
  lemma HandlePacketInReplies(sw: Switch, floodTable: seq<Ethernet>, shouldFlood: bool, fill: bool, pin: PacketIn)
    ensures var r := HandlePacketIn(sw, floodTable, shouldFlood, fill, pin);
      var ports := WhereIsMac(r.switch, pin.frame.destination);
      |r.sent| <= 1 &&
      (|ports| > 0 ==>
        r.floodTable == floodTable && |r.sent| == 1 && r.sent[0].FlowMod? &&
        r.sent[0].flowMatch == LoopMatch(pin.frame, fill) && r.sent[0].bufferId == pin.bufferId &&
        |r.sent[0].actions| == 1 && r.sent[0].actions[0].port in ports) &&
      (|ports| == 0 ==>
        (r.sent == [L2ls.Flood(pin)] <==> shouldFlood) &&
        (r.sent == [] <==> !shouldFlood) &&
        r.floodTable == if shouldFlood then floodTable + [pin.frame] else floodTable)
  {
  }

  /** Where the two switches agree: for a destination that is not an LLDP
      address both send the same flood, and with wildcard filling and a frame
      whose fields are not at their defaults both install the same flow. */
  lemma AgreesWithL2ls(sw: Switch, floodTable: seq<Ethernet>, fill: bool, lldpMacs: set<Mac>, pin: PacketIn)
    requires pin.frame.destination !in lldpMacs
    ensures var loop := HandlePacketIn(sw, floodTable, true, fill, pin);
      var plain := L2ls.HandlePacketIn(sw, lldpMacs, fill, pin);
      loop.switch == plain.switch &&
      (fill && L2ls.Addressed(pin.frame) ==> loop.sent == plain.sent) &&
      (WhereIsMac(plain.switch, pin.frame.destination) == [] ==> loop.sent == plain.sent)
  {
    LoopMatchWildcards(pin.frame, fill);
  }

  /** An LLDP destination is not exempt here: the loop-avoiding switch answers
      it as it answers any other frame. */
  lemma LldpNotExempt(sw: Switch, floodTable: seq<Ethernet>, fill: bool, pin: PacketIn)
    requires pin.frame.destination == LLDP_MULTICAST_MAC
    ensures |HandlePacketIn(sw, floodTable, true, fill, pin).sent| == 1
    ensures L2ls.HandlePacketIn(sw, {LLDP_MULTICAST_MAC}, fill, pin).sent == []
  {
  }
}
