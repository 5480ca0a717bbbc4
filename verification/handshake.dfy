/** The connection engine of napps/kytos/of_core/main.py: how raw bytes from a
    switch are framed, how the first frame negotiates the version, how frames
    are held back during the handshake, and how the handshake is completed by
    the features request and reply. Python-openflow's decoders are parameters
    (`Codec`); events put on the controller's buffers are listed in `Emitted`. */
module Handshake {

  import opened Wrappers
  import opened OpenFlow
  import opened Framing
  import opened Negotiation
  import opened KytosCore
  import AdapterV01
  import AdapterV04

  /** `CONNECTION_STATE`. */
  datatype ConnState = New | Setup | Established | Finished | Failed

  /** `connection.protocol.state`; `NoProtocolState` before the hello. */
  datatype ProtocolState =
    | NoProtocolState
    | SendingFeatures
    | WaitingFeaturesReply
    | HandshakeComplete
    | HelloFailed

  /** A switch connection as the engine sees it: `version` is
      `connection.protocol.version`, `None` until negotiated, and `remaining`
      is `connection.remaining_data`. */
  datatype Connection = Connection(id: nat, state: ConnState, protocolState: ProtocolState,
                                   version: Option<nat>, remaining: Bytes)

  /** What the engine puts on the controller's buffers, in order. */
  datatype Emitted =
    | MessageIn(message: Message)       // `emit_message_in`
    | MessageOut(out: OutMessage)       // `emit_message_out`
    | HelloFailedEvent                  // `kytos/of_core.hello_failed`
    | Closed                            // `connection.close()`

  /** Python-openflow's decoders: `GenericHello(packet=...)` and the per-version
      `connection.protocol.unpack`, with their `UnpackException` as failure. */
  datatype Codec = Codec(parseHello: Bytes -> Result<PeerHello, UnpackError>,
                         unpack: (nat, Bytes) -> Result<Message, UnpackError>)

  /** How `handle_raw_in` ends: it returns, or the `ValueError` of `max([])`
      escapes it. */
  datatype Outcome = Returned | RaisedValueError

  datatype RawIn = RawIn(conn: Connection, emitted: seq<Emitted>, outcome: Outcome)

  /** The connection of a switch that has just connected. */
  function NewConnection(id: nat): Connection {
    Connection(id, New, NoProtocolState, None, [])
  }

  /** How state, sub-state and version go together: no version before the
      hello, a supported version from the hello on, `sending_features` or
      `waiting_features_reply` during SETUP, `handshake_complete` once
      ESTABLISHED, and `hello_failed` when FAILED. */
  predicate Wf(c: Connection) {
    match c.state
    case New => c.protocolState == NoProtocolState && c.version.None?
    case Setup =>
      && c.version.Some? && c.version.value in SupportedVersions
      && (c.protocolState == SendingFeatures || c.protocolState == WaitingFeaturesReply)
    case Established =>
      c.version.Some? && c.version.value in SupportedVersions && c.protocolState == HandshakeComplete
    case Finished => c.version.Some? && c.version.value in SupportedVersions
    case Failed => c.protocolState == HelloFailed && c.version.None?
  }

  /** The error message `fail_negotiation` sends: a 1.3 `OFPET_HELLO_FAILED` /
      `OFPHFC_INCOMPATIBLE` error echoing the hello's xid. */
  function HelloFailedError(hello: PeerHello): (m: OutMessage)
    ensures m.ErrorMsg? && m.version == Max(SupportedVersions) && m.xid == hello.header.xid
    ensures m.errType == OFPET_HELLO_FAILED && m.code == OFPHFC_INCOMPATIBLE
  {
    ErrorMsg(Max(SupportedVersions), hello.header.xid, OFPET_HELLO_FAILED, OFPHFC_INCOMPATIBLE)
  }

  /** The exception handler of the hello step: `hello_failed`, closed, FAILED. */
  function HelloFailure(c: Connection): Connection {
    c.(protocolState := HelloFailed, state := Failed)
  }

  /** The loop of `handle_raw_in` over the frames of one batch, from frame
      `packets[0]` on, with `deferred` the frames held back so far. */
  function ProcessPackets(c: Connection, packets: seq<Bytes>, deferred: seq<Bytes>, codec: Codec): (r: RawIn)
    requires c.state != Finished && c.state != Failed
    ensures r.conn.id == c.id
    ensures Wf(c) ==> Wf(r.conn)
    ensures r.conn.state == Established ==> c.state == Established
    ensures r.conn.state == Failed ==> c.state == New && r.conn.protocolState == HelloFailed
    ensures c.state != New ==> r.outcome == Returned && r.conn.version == c.version
                               && r.conn.protocolState == c.protocolState
                               && (r.conn.state == c.state || r.conn.state == Finished)
    ensures c.state == New && r.conn.state == Setup ==> r.conn.protocolState == SendingFeatures
    ensures r.outcome == RaisedValueError ==> c.state == New && r == RawIn(c, [], RaisedValueError)
    decreases |packets|
  {
    if packets == [] then RawIn(c.(remaining := Flatten(deferred) + c.remaining), [], Returned)
    else
      var packet := packets[0];
      if c.state == New then
        match codec.parseHello(packet)
        case Failure(_) => RawIn(HelloFailure(c), [Closed], Returned)
        case Success(hello) =>
          match Negotiate(hello)
          case Failure(EmptyIntersection) => RawIn(c, [], RaisedValueError)
          case Failure(Incompatible) =>
            RawIn(HelloFailure(c), [HelloFailedEvent, MessageOut(HelloFailedError(hello)), Closed], Returned)
          case Success(v) =>
            var c' := c.(version := Some(v), protocolState := SendingFeatures, state := Setup);
            var rest := ProcessPackets(c', packets[1..], deferred, codec);
            rest.(emitted := [MessageOut(FeaturesRequest(v))] + rest.emitted)
      else
        var decoded := if c.version.None? then Failure(UnpackException) else codec.unpack(c.version.value, packet);
        match decoded
        case Failure(_) => RawIn(c.(state := Finished), [Closed], Returned)
        case Success(message) =>
          if c.state == Setup && !(message.header.msgType == OFPT_FEATURES_REPLY
                                   && c.protocolState == WaitingFeaturesReply)
          then ProcessPackets(c, packets[1..], deferred + [packet], codec)
          else
            var rest := ProcessPackets(c, packets[1..], deferred, codec);
            rest.(emitted := [MessageIn(message)] + rest.emitted)
  }

  /** `handle_raw_in(event)` for `newData` arriving on `c`. */
  function HandleRawIn(c: Connection, newData: Bytes, codec: Codec): (r: RawIn)
    requires c.state != Finished && c.state != Failed ==> NoZeroLength(c.remaining + newData)
    ensures c.state == Finished || c.state == Failed ==> r == RawIn(c, [], Returned)
    ensures r.conn.id == c.id
    ensures Wf(c) ==> Wf(r.conn)
    ensures r.conn.state == Established ==> c.state == Established
    ensures c.state != New ==> r.outcome == Returned && r.conn.version == c.version
                               && r.conn.protocolState == c.protocolState
                               && (r.conn.state == c.state || r.conn.state == Finished)
    ensures c.state == New && r.conn.state == Setup ==> r.conn.protocolState == SendingFeatures
    ensures r.outcome == RaisedValueError ==>
              c.state == New && r.emitted == [] && r.conn == c.(remaining := Slice(c.remaining + newData).remainder)
  {
    if c.state == Finished || c.state == Failed then RawIn(c, [], Returned)
    else
      var sliced := Slice(c.remaining + newData);
      if sliced.packets == [] then RawIn(c.(remaining := sliced.remainder), [], Returned)
      else ProcessPackets(c.(remaining := sliced.remainder), sliced.packets, [], codec)
  }

  /** `handle_features_request_sent`: the sub-state moves from `sending_features`
      to `waiting_features_reply` once the request has gone out. The connection
      state is not consulted. */
  function HandleFeaturesRequestSent(c: Connection): (r: Connection)
    ensures r.protocolState == (if c.protocolState == SendingFeatures then WaitingFeaturesReply else c.protocolState)
    ensures r.(protocolState := c.protocolState) == c
  {
    if c.protocolState == SendingFeatures then c.(protocolState := WaitingFeaturesReply) else c
  }

  /** The end of `handle_features_reply`: SETUP with `waiting_features_reply`
      becomes ESTABLISHED with `handshake_complete`; any other connection is left alone. */
  function CompleteHandshake(c: Connection): (r: Connection)
    ensures r.state == Established <==> c.state == Established || (c.state == Setup && c.protocolState == WaitingFeaturesReply)
    ensures r != c ==> c.state == Setup && c.protocolState == WaitingFeaturesReply
    ensures r.id == c.id && r.version == c.version && r.remaining == c.remaining
    ensures r != c ==> r == c.(protocolState := HandshakeComplete, state := Established)
  {
    if c.state == Setup && c.protocolState == WaitingFeaturesReply
    then c.(protocolState := HandshakeComplete, state := Established)
    else c
  }

  /** What `handle_features_reply` leaves behind: the registry, the connection,
      and whether an exception escaped before the state transition. */
  datatype FeaturesOutcome = FeaturesOutcome(net: Network, conn: Connection, raisedAttributeError: bool)

  /** `handle_features_reply` of main.py as written: it iterates `features.ports`,
      which a 1.3 reply does not have, so for a 1.3 reply the `AttributeError`
      is raised after the switch has been looked up or created and before the
      handshake is completed. */
  function HandleFeaturesReplyAsWritten(net: Network, c: Connection, reply: FeaturesReply): (r: FeaturesOutcome)
    ensures r.raisedAttributeError <==> reply.ports.None?
    ensures reply.ports.None? ==> r.conn == c
    ensures reply.ports.Some? ==> r.conn == CompleteHandshake(c)
    ensures GetSwitchByDpid(r.net, reply.datapathId).Some?
            && GetSwitchByDpid(r.net, reply.datapathId).value.connection == Some(c.id)
    ensures forall d :: d != reply.datapathId ==> GetSwitchByDpid(r.net, d) == GetSwitchByDpid(net, d)
  {
    match reply.ports
    case None =>
      GetSwitchOrCreateRegisters(net, reply.datapathId, c.id);
      FeaturesOutcome(Apply(net, GetSwitchOrCreate(reply.datapathId, c.id)), c, true)
    case Some(_) =>
      AdapterV01.FeaturesReplyRegisters(net, c.id, reply);
      FeaturesOutcome(ApplyAll(net, AdapterV01.HandleFeaturesReply(c.id, reply)), CompleteHandshake(c), false)
  }

  /** `handle_features_reply` registering the reply through the adapter of its
      own version (a reply with a port list is a 1.0 reply), then completing
      the handshake. */
  function HandleFeaturesReply(net: Network, c: Connection, reply: FeaturesReply): (r: FeaturesOutcome)
    ensures !r.raisedAttributeError
    ensures r.conn == CompleteHandshake(c)
  {
    var calls := if reply.ports.Some? then AdapterV01.HandleFeaturesReply(c.id, reply)
                 else AdapterV04.HandleFeaturesReply(c.id, reply);
    FeaturesOutcome(ApplyAll(net, calls), CompleteHandshake(c), false)
  }

  /** `KeyError` from `self.pyof_version_libs[version]`. */
  datatype KeyError = KeyError

  /** `handle_echo_request`: the reply of the negotiated version, echoing the
      request's xid and data. */
  function HandleEchoRequest(c: Connection, request: Message): (r: Result<OutMessage, KeyError>)
    requires request.body.EchoBody?
    ensures r.Success? <==> c.version.Some? && c.version.value in SupportedVersions
    ensures r.Success? ==> r.value.EchoReply? && r.value.version == c.version.value
    ensures r.Success? ==> r.value.xid == request.header.xid && r.value.data == request.body.data
  {
    if c.version.Some? && c.version.value in SupportedVersions
    then Success(EchoReply(c.version.value, request.header.xid, request.body.data))
    else Failure(KeyError)
  }
}
