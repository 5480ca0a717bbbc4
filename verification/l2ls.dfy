/** The learning switch (napps/kytos/of_l2ls/main.py): every packet-in teaches
    the switch where its source MAC lives; a frame to a MAC already located is
    answered with a flow that forwards such frames there, any other frame is
    flooded. Frames to the LLDP addresses are left to the discovery
    application. */
module L2ls {

  import opened Wrappers
  import opened OpenFlow
  import opened KytosCore
  import opened Packets

  /** The default of a `Match`'s `dl_src` and `dl_dst` fields. */
  const ZERO_MAC: Mac := "00:00:00:00:00:00"

  /** Whether the one-bit wildcard flag `flag` is set in `w`. */
  predicate HasFlag(w: nat, flag: nat)
    requires flag > 0
  {
    (w / flag) % 2 == 1
  }

  /** Adding `flag` once moves the quotient by one, so it toggles the flag. */
  lemma DivShift(w: nat, flag: nat)
    requires flag > 0
    ensures (w + flag) / flag == w / flag + 1
  {
    var q, m := w / flag, w % flag;
    var q', m' := (w + flag) / flag, (w + flag) % flag;
    var k := q' - q - 1;
    assert k * flag == q' * flag - q * flag - flag;
    assert k * flag == m - m';
  }

  /** `w | flag` and `w & ~flag` for a one-bit flag. */
  function RaiseFlag(w: nat, flag: nat): (r: nat)
    requires flag > 0
    ensures HasFlag(r, flag)
    ensures HasFlag(w, flag) ==> r == w
  {
    if HasFlag(w, flag) then w
    else
      DivShift(w, flag);
      w + flag
  }

  function LowerFlag(w: nat, flag: nat): (r: nat)
    requires flag > 0
    ensures !HasFlag(r, flag)
    ensures !HasFlag(w, flag) ==> r == w
  {
    if HasFlag(w, flag) then
      assert w >= flag;
      DivShift(w - flag, flag);
      w - flag
    else w
  }

  /** What assigning a match field does to the wildcards. With `fill`, the
      python-openflow `Match` lowers the field's wildcard flag when the value
      differs from the field's default and raises it otherwise; without, the
      wildcards are left as they are. */
  function Fill(w: nat, flag: nat, isDefault: bool, fill: bool): (r: nat)
    requires flag > 0
    ensures !fill ==> r == w
    ensures fill ==> (HasFlag(r, flag) <==> isDefault)
  {
    if !fill then w else if isDefault then RaiseFlag(w, flag) else LowerFlag(w, flag)
  }

  /** `match.dl_src = mac`, `match.dl_dst = mac` and `match.dl_type = t`. */
  function SetDlSrc(m: Match, mac: Mac, fill: bool): (r: Match)
    ensures r.dlSrc == Some(mac) && r.dlDst == m.dlDst && r.dlType == m.dlType
  {
    m.(dlSrc := Some(mac), wildcards := Fill(m.wildcards, OFPFW_DL_SRC, mac == ZERO_MAC, fill))
  }

  function SetDlDst(m: Match, mac: Mac, fill: bool): (r: Match)
    ensures r.dlDst == Some(mac) && r.dlSrc == m.dlSrc && r.dlType == m.dlType
  {
    m.(dlDst := Some(mac), wildcards := Fill(m.wildcards, OFPFW_DL_DST, mac == ZERO_MAC, fill))
  }

  function SetDlType(m: Match, t: nat, fill: bool): (r: Match)
    ensures r.dlType == Some(t) && r.dlSrc == m.dlSrc && r.dlDst == m.dlDst
  {
    m.(dlType := Some(t), wildcards := Fill(m.wildcards, OFPFW_DL_TYPE, t == 0, fill))
  }

  /** A frame's three data-link fields written into `m`, in the order the
      applications assign them. */
  function WithFrame(m: Match, frame: Ethernet, fill: bool): (r: Match)
    ensures r.dlSrc == Some(frame.source) && r.dlDst == Some(frame.destination) &&
            r.dlType == Some(frame.etherType)
  {
    SetDlType(SetDlDst(SetDlSrc(m, frame.source, fill), frame.destination, fill), frame.etherType, fill)
  }

  /** Whether none of the frame's data-link fields holds its default. */
  predicate Addressed(frame: Ethernet) {
    frame.source != ZERO_MAC && frame.destination != ZERO_MAC && frame.etherType != 0
  }

  /** The match the learning switch installs: a fresh `Match()` with the
      frame's fields assigned and its wildcards never touched directly. */
  function ForwardingMatch(frame: Ethernet, fill: bool): Match {
    WithFrame(EmptyMatch, frame, fill)
  }

  /** Without wildcard filling the installed match keeps every field
      wildcarded, so the switch applies the flow to every frame; with filling
      exactly the three data-link flags are lowered. */
  lemma ForwardingMatchWildcards(frame: Ethernet, fill: bool)
    ensures !fill ==> ForwardingMatch(frame, fill).wildcards == OFPFW_ALL
    ensures fill && Addressed(frame) ==>
      ForwardingMatch(frame, fill).wildcards == OFPFW_ALL - OFPFW_DL_SRC - OFPFW_DL_DST - OFPFW_DL_TYPE
  {
    if fill && Addressed(frame) {
      assert HasFlag(OFPFW_ALL, OFPFW_DL_SRC);
      assert HasFlag(OFPFW_ALL - OFPFW_DL_SRC, OFPFW_DL_DST);
      assert HasFlag(OFPFW_ALL - OFPFW_DL_SRC - OFPFW_DL_DST, OFPFW_DL_TYPE);
    }
  }

  /** The switch after the packet-in, and the messages sent back to it. */
  datatype Reaction = Reaction(switch: Switch, sent: seq<AppMessage>)

  /** The flow-mod answering a frame whose destination sits behind `port`. */
  function Forward(pin: PacketIn, m: Match, port: nat): (msg: AppMessage)
    ensures msg.FlowMod? && msg.command == OFPFC_ADD && msg.flowMatch == m
    ensures msg.bufferId == pin.bufferId && msg.actions == [Output(port)]
  {
    FlowMod(OFPFC_ADD, m, pin.bufferId, [Output(port)])
  }

  /** The packet-out flooding the buffered frame. */
  function Flood(pin: PacketIn): (msg: AppMessage)
    ensures msg.PacketOut? && msg.actions == [Output(OFPP_FLOOD)]
    ensures msg.bufferId == pin.bufferId && msg.inPort == pin.inPort && msg.data.None?
  {
    PacketOut(pin.bufferId, pin.inPort, [Output(OFPP_FLOOD)], None)
  }

  /** `handle_packet_in`. `lldpMacs` is `settings.lldp_macs`. */
  function HandlePacketIn(sw: Switch, lldpMacs: set<Mac>, fill: bool, pin: PacketIn): (r: Reaction)
    ensures r.switch == UpdateMacTable(sw, pin.frame.source, pin.inPort)
  {
    var frame := pin.frame;
    var sw' := UpdateMacTable(sw, frame.source, pin.inPort);
    if frame.destination in lldpMacs then Reaction(sw', [])
    else
      var ports := WhereIsMac(sw', frame.destination);
      if |ports| > 0 then Reaction(sw', [Forward(pin, ForwardingMatch(frame, fill), ports[0])])
      else Reaction(sw', [Flood(pin)])
  }

  /** One message at most goes back, and none for an LLDP destination; a
      destination already located gets a flow-mod out of one of its ports, any
      other gets a flood. */
  lemma HandlePacketInReplies(sw: Switch, lldpMacs: set<Mac>, fill: bool, pin: PacketIn)
    ensures var r := HandlePacketIn(sw, lldpMacs, fill, pin);
      (pin.frame.destination in lldpMacs <==> r.sent == []) &&
      |r.sent| <= 1 &&
      (pin.frame.destination !in lldpMacs ==>
        var ports := WhereIsMac(r.switch, pin.frame.destination);
        if |ports| > 0 then
          r.sent[0].FlowMod? && r.sent[0].flowMatch == ForwardingMatch(pin.frame, fill) &&
          r.sent[0].bufferId == pin.bufferId &&
          |r.sent[0].actions| == 1 && r.sent[0].actions[0].port in ports
        else r.sent == [Flood(pin)])
  {
  }

  /** The source MAC is located at the port it came in on, and what was
      known about every other MAC is kept. */
  lemma HandlePacketInLearns(sw: Switch, lldpMacs: set<Mac>, fill: bool, pin: PacketIn)
    ensures var r := HandlePacketIn(sw, lldpMacs, fill, pin);
      pin.inPort in WhereIsMac(r.switch, pin.frame.source) &&
      forall m :: m != pin.frame.source ==> WhereIsMac(r.switch, m) == WhereIsMac(sw, m)
  {
    LearnThenLocate(sw, pin.frame.source, pin.inPort);
  }

  /** A repeated packet-in teaches nothing new. */
  lemma HandlePacketInIdempotent(sw: Switch, lldpMacs: set<Mac>, fill: bool, pin: PacketIn)
    ensures var once := HandlePacketIn(sw, lldpMacs, fill, pin);
      HandlePacketIn(once.switch, lldpMacs, fill, pin) == once
  {
    var once := HandlePacketIn(sw, lldpMacs, fill, pin);
    var mac := pin.frame.source;
    assert mac in once.switch.macTable && pin.inPort in once.switch.macTable[mac];
    assert UpdateMacTable(once.switch, mac, pin.inPort) == once.switch by {
      assert once.switch.macTable[mac := once.switch.macTable[mac]] == once.switch.macTable;
    }
  }

  /** Learning pays off: once host `a` has sent a frame in on port `q`, a frame
      to `a` that is not for LLDP is answered with a flow out of a port where
      `a` has been seen. */
  lemma LearnedHostGetsFlow(sw: Switch, lldpMacs: set<Mac>, fill: bool, first: PacketIn, second: PacketIn)
    requires second.frame.destination == first.frame.source
    requires first.frame.source !in lldpMacs
    ensures var after := HandlePacketIn(sw, lldpMacs, fill, first).switch;
      var r := HandlePacketIn(after, lldpMacs, fill, second);
      |r.sent| == 1 && r.sent[0].FlowMod? && r.sent[0].actions[0].port in WhereIsMac(r.switch, first.frame.source) &&
      first.inPort in WhereIsMac(r.switch, first.frame.source)
  {
    var a := first.frame.source;
    var after := HandlePacketIn(sw, lldpMacs, fill, first).switch;
    HandlePacketInLearns(sw, lldpMacs, fill, first);
    var r := HandlePacketIn(after, lldpMacs, fill, second);
    assert first.inPort in WhereIsMac(r.switch, a) by {
      assert r.switch == UpdateMacTable(after, second.frame.source, second.inPort);
    }
    HandlePacketInReplies(after, lldpMacs, fill, second);
  }
}
