/** Properties of the connection engine of napps/kytos/of_core/main.py: what one
    batch of raw input does in each connection state, and the order in which a
    handshake must pass through its states. */
module HandshakeProperties {

  import opened Wrappers
  import opened OpenFlow
  import opened Framing
  import opened Negotiation
  import opened KytosCore
  import opened Handshake
  import AdapterV01
  import AdapterV04

  /** Every frame decodes under version `v`. */
  predicate AllDecode(codec: Codec, v: nat, packets: seq<Bytes>) {
    forall i :: 0 <= i < |packets| ==> codec.unpack(v, packets[i]).Success?
  }

  /** Whether a decoded message is handed on rather than held back: during
      SETUP only a features reply awaited in `waiting_features_reply` passes. */
  predicate Passes(c: Connection, m: Message) {
    c.state != Setup || (m.header.msgType == OFPT_FEATURES_REPLY && c.protocolState == WaitingFeaturesReply)
  }

  /** The frames held back, in arrival order. */
  function Held(c: Connection, codec: Codec, v: nat, packets: seq<Bytes>): (held: seq<Bytes>)
    requires AllDecode(codec, v, packets)
    ensures |held| <= |packets|
    ensures forall p :: p in held ==> p in packets && !Passes(c, codec.unpack(v, p).value)
  {
    if packets == [] then []
    else
      var rest := Held(c, codec, v, packets[1..]);
      if Passes(c, codec.unpack(v, packets[0]).value) then rest else [packets[0]] + rest
  }

  /** The messages handed on, in arrival order. */
  function Delivered(c: Connection, codec: Codec, v: nat, packets: seq<Bytes>): (out: seq<Emitted>)
    requires AllDecode(codec, v, packets)
    ensures |out| + |Held(c, codec, v, packets)| == |packets|
    ensures forall e :: e in out ==> e.MessageIn? && Passes(c, e.message)
  {
    if packets == [] then []
    else
      var m := codec.unpack(v, packets[0]).value;
      var rest := Delivered(c, codec, v, packets[1..]);
      if Passes(c, m) then [MessageIn(m)] + rest else rest
  }

  /** On a SETUP or ESTABLISHED connection whose frames all decode, the loop
      hands on the passing messages in order and puts the held frames, in
      order, ahead of what the slicer left over. */
  lemma {:induction false} ProcessDecoded(c: Connection, packets: seq<Bytes>, deferred: seq<Bytes>, codec: Codec)
    requires c.state == Setup || c.state == Established
    requires c.version.Some? && AllDecode(codec, c.version.value, packets)
    ensures ProcessPackets(c, packets, deferred, codec) ==
      RawIn(c.(remaining := Flatten(deferred + Held(c, codec, c.version.value, packets)) + c.remaining),
            Delivered(c, codec, c.version.value, packets), Returned)
    decreases |packets|
  {
    var v := c.version.value;
    if packets == [] {
      assert deferred + [] == deferred;
    } else {
      var p := packets[0];
      assert AllDecode(codec, v, packets[1..]);
      ProcessDecoded(c, packets[1..], deferred + [p], codec);
      ProcessDecoded(c, packets[1..], deferred, codec);
      assert deferred + [p] + Held(c, codec, v, packets[1..]) == deferred + ([p] + Held(c, codec, v, packets[1..]));
    }
  }

  /** An ESTABLISHED connection hands on every decoded message. */
  lemma {:induction false} EstablishedHoldsNothing(c: Connection, codec: Codec, v: nat, packets: seq<Bytes>)
    requires c.state == Established && AllDecode(codec, v, packets)
    ensures Held(c, codec, v, packets) == []
    ensures Delivered(c, codec, v, packets) ==
              seq(|packets|, i requires 0 <= i < |packets| => MessageIn(codec.unpack(v, packets[i]).value))
  {
    if packets != [] {
      EstablishedHoldsNothing(c, codec, v, packets[1..]);
    }
  }

  /** While the features request is still being sent, every frame is held back. */
  lemma {:induction false} SendingHoldsAll(c: Connection, codec: Codec, v: nat, packets: seq<Bytes>)
    requires c.state == Setup && c.protocolState == SendingFeatures && AllDecode(codec, v, packets)
    ensures Held(c, codec, v, packets) == packets
    ensures Delivered(c, codec, v, packets) == []
  {
    if packets != [] {
      SendingHoldsAll(c, codec, v, packets[1..]);
    }
  }

  /** Raw input on an ESTABLISHED connection: every complete frame is decoded
      and handed on in order, the incomplete tail is kept. */
  lemma EstablishedPassesThrough(c: Connection, data: Bytes, codec: Codec)
    requires c.state == Established && c.version.Some?
    requires NoZeroLength(c.remaining + data)
    requires AllDecode(codec, c.version.value, Slice(c.remaining + data).packets)
    ensures var packets := Slice(c.remaining + data).packets;
      HandleRawIn(c, data, codec) ==
        RawIn(c.(remaining := Slice(c.remaining + data).remainder),
              seq(|packets|, i requires 0 <= i < |packets| => MessageIn(codec.unpack(c.version.value, packets[i]).value)),
              Returned)
  {
    var sliced := Slice(c.remaining + data);
    var c1 := c.(remaining := sliced.remainder);
    EstablishedHoldsNothing(c1, codec, c.version.value, sliced.packets);
    if sliced.packets != [] {
      ProcessDecoded(c1, sliced.packets, [], codec);
      var none: seq<Bytes> := [];
      assert none + none == none;
    }
  }

  /** Raw input while `sending_features`: nothing is handed on and nothing is
      consumed; the new bytes are only appended to the buffer. */
  lemma SendingFeaturesBuffers(c: Connection, data: Bytes, codec: Codec)
    requires c.state == Setup && c.protocolState == SendingFeatures && c.version.Some?
    requires NoZeroLength(c.remaining + data)
    requires AllDecode(codec, c.version.value, Slice(c.remaining + data).packets)
    ensures HandleRawIn(c, data, codec) == RawIn(c.(remaining := c.remaining + data), [], Returned)
  {
    var sliced := Slice(c.remaining + data);
    var c1 := c.(remaining := sliced.remainder);
    SliceLossless(c.remaining + data);
    if sliced.packets != [] {
      SendingHoldsAll(c1, codec, c.version.value, sliced.packets);
      ProcessDecoded(c1, sliced.packets, [], codec);
      assert [] + sliced.packets == sliced.packets;
    }
  }

  /** Raw input while `waiting_features_reply`: exactly the features replies
      are handed on, in order; every other frame is held back, in order, ahead
      of the incomplete tail. */
  lemma WaitingPassesReplies(c: Connection, data: Bytes, codec: Codec)
    requires c.state == Setup && c.protocolState == WaitingFeaturesReply && c.version.Some?
    requires NoZeroLength(c.remaining + data)
    requires AllDecode(codec, c.version.value, Slice(c.remaining + data).packets)
    ensures var r := HandleRawIn(c, data, codec);
      var sliced := Slice(c.remaining + data);
      var c1 := c.(remaining := sliced.remainder);
      && r.conn == c.(remaining := Flatten(Held(c1, codec, c.version.value, sliced.packets)) + sliced.remainder)
      && r.emitted == Delivered(c1, codec, c.version.value, sliced.packets)
      && (forall e :: e in r.emitted ==> e.MessageIn? && e.message.header.msgType == OFPT_FEATURES_REPLY)
      && (forall p :: p in Held(c1, codec, c.version.value, sliced.packets) ==>
            codec.unpack(c.version.value, p).value.header.msgType != OFPT_FEATURES_REPLY)
  {
    var sliced := Slice(c.remaining + data);
    var c1 := c.(remaining := sliced.remainder);
    if sliced.packets != [] {
      ProcessDecoded(c1, sliced.packets, [], codec);
      assert [] + Held(c1, codec, c.version.value, sliced.packets) == Held(c1, codec, c.version.value, sliced.packets);
    }
  }

  /** A frame that fails to decode after the hello ends the connection as
      FINISHED: the messages before it have been handed on, the connection is
      closed, and the frames held back in this batch are dropped. */
  lemma {:induction false} UndecodableFrameFinishes(c: Connection, packets: seq<Bytes>, deferred: seq<Bytes>,
                                                    codec: Codec, k: nat)
    requires c.state == Setup || c.state == Established
    requires c.version.Some? && k < |packets|
    requires AllDecode(codec, c.version.value, packets[..k])
    requires codec.unpack(c.version.value, packets[k]).Failure?
    ensures ProcessPackets(c, packets, deferred, codec) ==
              RawIn(c.(state := Finished), Delivered(c, codec, c.version.value, packets[..k]) + [Closed], Returned)
    decreases k
  {
    if k > 0 {
      assert packets[1..][..k - 1] == packets[..k][1..];
      assert AllDecode(codec, c.version.value, packets[1..][..k - 1]);
      UndecodableFrameFinishes(c, packets[1..], deferred + [packets[0]], codec, k - 1);
      UndecodableFrameFinishes(c, packets[1..], deferred, codec, k - 1);
    }
  }

  /** The first frame on a NEW connection is the peer's hello. When a version is
      agreed, the connection is SETUP in `sending_features` with that version,
      and exactly one features request of that version has been sent; the rest
      of the batch is held back. */
  lemma HelloAgreed(c: Connection, data: Bytes, codec: Codec, hello: PeerHello, v: nat)
    requires c.state == New && NoZeroLength(c.remaining + data)
    requires |Slice(c.remaining + data).packets| > 0
    requires codec.parseHello(Slice(c.remaining + data).packets[0]) == Success(hello)
    requires Negotiate(hello) == Success(v)
    requires AllDecode(codec, v, Slice(c.remaining + data).packets[1..])
    ensures var sliced := Slice(c.remaining + data);
      HandleRawIn(c, data, codec) ==
        RawIn(c.(version := Some(v), protocolState := SendingFeatures, state := Setup,
                 remaining := Flatten(sliced.packets[1..]) + sliced.remainder),
              [MessageOut(FeaturesRequest(v))], Returned)
  {
    var sliced := Slice(c.remaining + data);
    var c1 := c.(version := Some(v), protocolState := SendingFeatures, state := Setup, remaining := sliced.remainder);
    SendingHoldsAll(c1, codec, v, sliced.packets[1..]);
    ProcessDecoded(c1, sliced.packets[1..], [], codec);
    assert [] + sliced.packets[1..] == sliced.packets[1..];
  }

  /** A hello with no bitmap and an unsupported header version: `hello_failed`,
      one HELLO_FAILED/INCOMPATIBLE error echoing the hello's xid, the
      connection closed and FAILED; the rest of the batch is dropped. */
  lemma HelloIncompatible(c: Connection, data: Bytes, codec: Codec, hello: PeerHello)
    requires c.state == New && NoZeroLength(c.remaining + data)
    requires |Slice(c.remaining + data).packets| > 0
    requires codec.parseHello(Slice(c.remaining + data).packets[0]) == Success(hello)
    requires Negotiate(hello) == Failure(Incompatible)
    ensures HandleRawIn(c, data, codec) ==
      RawIn(c.(protocolState := HelloFailed, state := Failed, remaining := Slice(c.remaining + data).remainder),
            [HelloFailedEvent, MessageOut(ErrorMsg(OFP_V13, hello.header.xid, OFPET_HELLO_FAILED, OFPHFC_INCOMPATIBLE)),
             Closed],
            Returned)
  {
    assert Max(SupportedVersions) == OFP_V13;
  }

  /** A first frame that is not a valid hello: `hello_failed`, closed, FAILED,
      and nothing sent to the switch. */
  lemma HelloUnreadable(c: Connection, data: Bytes, codec: Codec)
    requires c.state == New && NoZeroLength(c.remaining + data)
    requires |Slice(c.remaining + data).packets| > 0
    requires codec.parseHello(Slice(c.remaining + data).packets[0]).Failure?
    ensures HandleRawIn(c, data, codec) ==
      RawIn(c.(protocolState := HelloFailed, state := Failed, remaining := Slice(c.remaining + data).remainder),
            [Closed], Returned)
  {
  }

  /** A version bitmap sharing nothing with ours: `max([])` raises out of the
      handler; nothing is sent, the connection stays NEW, and the whole batch,
      hello included, has left the buffer. */
  lemma HelloDisjointBitmap(c: Connection, data: Bytes, codec: Codec, hello: PeerHello)
    requires c.state == New && NoZeroLength(c.remaining + data)
    requires |Slice(c.remaining + data).packets| > 0
    requires codec.parseHello(Slice(c.remaining + data).packets[0]) == Success(hello)
    requires |hello.versions| > 0 && forall i :: 0 <= i < |hello.versions| ==> hello.versions[i] !in SupportedVersions
    ensures HandleRawIn(c, data, codec) ==
      RawIn(c.(remaining := Slice(c.remaining + data).remainder), [], RaisedValueError)
  {
    assert Negotiate(hello) == Failure(EmptyIntersection);
  }

  /** As written, a 1.3 features reply, which has no port list, raises
      `AttributeError` in `handle_features_reply` after the switch has been
      looked up or created: the reply's features are not stored, the
      connection is left in SETUP with `waiting_features_reply` and the
      handshake never completes. */
  lemma AsWrittenStallsOn13(net: Network, c: Connection, reply: FeaturesReply)
    requires reply.ports.None?
    requires c.state == Setup && c.protocolState == WaitingFeaturesReply
    ensures var r := HandleFeaturesReplyAsWritten(net, c, reply);
      && r.raisedAttributeError
      && r.conn == c && r.conn.state != Established
      && GetSwitchByDpid(r.net, reply.datapathId).Some?
      && GetSwitchByDpid(r.net, reply.datapathId).value.features ==
           (if GetSwitchByDpid(net, reply.datapathId).Some?
            then GetSwitchByDpid(net, reply.datapathId).value.features else None)
  {
    GetSwitchOrCreateRegisters(net, reply.datapathId, c.id);
    var sw := GetSwitchByDpid(Apply(net, GetSwitchOrCreate(reply.datapathId, c.id)), reply.datapathId).value;
    if GetSwitchByDpid(net, reply.datapathId).Some? {
      ReplaceSwitchLookup(net, GetSwitchByDpid(net, reply.datapathId).value.(connection := Some(c.id)));
    } else {
      LookupAppendSame(net, NewSwitch(reply.datapathId).(connection := Some(c.id)));
    }
  }

  /** The corrected handler completes a handshake awaiting its reply, whatever
      the version, and leaves the switch registered on the connection with the
      reply as its features. */
  lemma CorrectedCompletes(net: Network, c: Connection, reply: FeaturesReply)
    requires c.state == Setup && c.protocolState == WaitingFeaturesReply
    ensures var r := HandleFeaturesReply(net, c, reply);
      && r.conn.state == Established && r.conn.protocolState == HandshakeComplete
      && GetSwitchByDpid(r.net, reply.datapathId).Some?
      && GetSwitchByDpid(r.net, reply.datapathId).value.connection == Some(c.id)
      && GetSwitchByDpid(r.net, reply.datapathId).value.features == Some(reply)
  {
    if reply.ports.Some? {
      AdapterV01.FeaturesReplyRegisters(net, c.id, reply);
    } else {
      AdapterV04.FeaturesReplyRegisters(net, c.id, reply);
    }
  }

  /** On a reply with a port list the corrected handler does exactly what the
      handler as written does. */
  lemma CorrectedAgreesOnPortList(net: Network, c: Connection, reply: FeaturesReply)
    requires reply.ports.Some?
    ensures HandleFeaturesReply(net, c, reply) == HandleFeaturesReplyAsWritten(net, c, reply)
  {
  }
}
