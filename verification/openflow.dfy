/** The OpenFlow wire header shared by every version (section A.1 of the
    OpenFlow Switch Specification 1.0.0: version, type, length, xid) and the
    decoded and outbound messages the connection engine handles. Message
    bodies are decoded by python-openflow, which is not part of this model:
    only the fields the engine reads are kept. */
module OpenFlow {

  import opened Wrappers

  type Byte = b: int | 0 <= b < 256
  type Bytes = seq<Byte>

  const OFP_HEADER_LEN: nat := 8

  /** Protocol version numbers on the wire. */
  const OFP_V10: nat := 0x01
  const OFP_V13: nat := 0x04

  /** Message type codes; 0 to 6 coincide in OpenFlow 1.0 and 1.3. */
  const OFPT_HELLO: nat := 0
  const OFPT_ERROR: nat := 1
  const OFPT_ECHO_REQUEST: nat := 2
  const OFPT_ECHO_REPLY: nat := 3
  const OFPT_FEATURES_REQUEST: nat := 5
  const OFPT_FEATURES_REPLY: nat := 6

  /** `OFPET_HELLO_FAILED` and its `OFPHFC_INCOMPATIBLE` code (both 0 in 1.0 and 1.3). */
  const OFPET_HELLO_FAILED: nat := 0
  const OFPHFC_INCOMPATIBLE: nat := 0

  /** Statistics body types of OpenFlow 1.0. */
  const OFPST_DESC: nat := 0
  const OFPST_FLOW: nat := 1
  const OFPST_PORT: nat := 4

  /** `OFPC_FRAG_NORMAL` config flag of OpenFlow 1.0. */
  const OFPC_FRAG_NORMAL: nat := 0

  /** Big-endian unsigned 16-bit read (`struct.unpack('!H', ...)`). */
  function U16At(s: Bytes, i: nat): (v: nat)
    requires i + 2 <= |s|
    ensures v < 0x1_0000
  {
    (s[i] as int) * 256 + (s[i + 1] as int)
  }

  /** Big-endian unsigned 32-bit read. */
  function U32At(s: Bytes, i: nat): (v: nat)
    requires i + 4 <= |s|
    ensures v < 0x1_0000_0000
  {
    U16At(s, i) * 0x1_0000 + U16At(s, i + 2)
  }

  function U16Bytes(v: nat): (b: Bytes)
    requires v < 0x1_0000
    ensures |b| == 2 && U16At(b, 0) == v
  {
    [v / 256, v % 256]
  }

  function U32Bytes(v: nat): (b: Bytes)
    requires v < 0x1_0000_0000
    ensures |b| == 4 && U32At(b, 0) == v
  {
    var b := U16Bytes(v / 0x1_0000) + U16Bytes(v % 0x1_0000);
    assert U16At(b, 0) == v / 0x1_0000 && U16At(b, 2) == v % 0x1_0000;
    b
  }

  /** The fixed 8-byte header. */
  datatype Header = Header(version: Byte, msgType: Byte, length: nat, xid: nat)

  predicate WireHeader(h: Header) {
    h.length < 0x1_0000 && h.xid < 0x1_0000_0000
  }

  function EncodeHeader(h: Header): (b: Bytes)
    requires WireHeader(h)
    ensures |b| == OFP_HEADER_LEN
  {
    [h.version, h.msgType] + U16Bytes(h.length) + U32Bytes(h.xid)
  }

  /** Reads the header from the first 8 bytes; `Header.unpack(packet[:8])`. */
  function ParseHeader(b: Bytes): (h: Header)
    requires |b| >= OFP_HEADER_LEN
    ensures WireHeader(h)
  {
    Header(b[0], b[1], U16At(b, 2), U32At(b, 4))
  }

  /** Decoding an encoded header gives it back, so no header field is lost on the wire. */
  lemma ParseEncodeHeader(h: Header, body: Bytes)
    requires WireHeader(h)
    ensures ParseHeader(EncodeHeader(h) + body) == h
  {
    var e := EncodeHeader(h);
    var b := e + body;
    assert b[2..4] == U16Bytes(h.length);
    assert b[4..8] == U32Bytes(h.xid);
    assert U16At(b, 2) == U16At(U16Bytes(h.length), 0);
    assert U32At(b, 4) == U32At(U32Bytes(h.xid), 0) by {
      assert U16At(b, 4) == U16At(b[4..8], 0);
      assert U16At(b, 6) == U16At(b[4..8], 2);
    }
  }

  /** Hardware (MAC) addresses as python-openflow prints them, `"aa:bb:cc:dd:ee:ff"`. */
  type Mac = string

  /** A physical port record of an OpenFlow 1.0 features reply. */
  datatype PhyPort = PhyPort(portNo: nat, hwAddr: Mac, name: string, state: nat, curr: nat)

  /** A features reply. `ports` is `None` for OpenFlow 1.3, whose features
      reply carries no port list (section A.3.1 of OpenFlow 1.3.0). */
  datatype FeaturesReply = FeaturesReply(datapathId: string, ports: Option<seq<PhyPort>>)

  /** Decoded message bodies, as far as the engine reads them. */
  datatype Body =
    | EchoBody(data: Bytes)
    | FeaturesBody(features: FeaturesReply)
    | OtherBody

  datatype Message = Message(header: Header, body: Body)

  /** Messages the engine builds for sending. Fresh requests carry no xid
      here: python-openflow assigns one when it packs them. */
  datatype OutMessage =
    | Hello(version: nat)
    | FeaturesRequest(version: nat)
    | EchoRequest(version: nat, data: Bytes)
    | EchoReply(version: nat, xid: nat, data: Bytes)
    | SetConfig(flags: nat, missSendLen: nat)
    | StatsRequest(bodyType: nat)
    | ErrorMsg(version: nat, xid: nat, errType: nat, code: nat)

  /** The bytes of an ASCII text literal such as `b'kytosd_10'`. */
  function Ascii(s: string): (b: Bytes)
    requires forall i :: 0 <= i < |s| ==> s[i] as int < 128
    ensures |b| == |s|
    ensures forall i :: 0 <= i < |s| ==> b[i] == s[i] as int
  {
    if s == [] then [] else [s[0] as int] + Ascii(s[1..])
  }
}
