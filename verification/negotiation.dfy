/** Version negotiation of napps/kytos/of_core/main.py (`_get_version_from_bitmask`,
    `_get_version_from_header`, `_negotiate`), following section 6.3.1 of the
    OpenFlow Switch Specification 1.3.0: a hello carrying a version bitmap is
    answered with the highest common version, otherwise the lower of the two
    header versions is used. */
module Negotiation {

  import opened Wrappers
  import opened OpenFlow

  /** `self.versions` (main.py:44). */
  const SupportedVersions: seq<nat> := [OFP_V10, OFP_V13]

  /** A hello as `GenericHello` parses it: its header, and the versions of its
      version-bitmap element (empty when the element is absent). */
  datatype PeerHello = PeerHello(header: Header, versions: seq<nat>)

  /** How negotiation can end without a version. */
  datatype NegotiationError =
    /** `_get_version_from_header` returned `None`: `fail_negotiation` runs and
        `NegotiationException` is raised. */
    | Incompatible
    /** The bitmap shares no version with ours: `max([])` raises `ValueError`,
        which no handler of the engine catches. */
    | EmptyIntersection

  function Max(s: seq<nat>): (m: nat)
    requires |s| > 0
    ensures m in s
    ensures forall x :: x in s ==> x <= m
  {
    if |s| == 1 then s[0]
    else
      var rest := Max(s[1..]);
      assert forall x :: x in s ==> x == s[0] || x in s[1..];
      if s[0] >= rest then s[0] else rest
  }

  /** The peer's versions that we support, in the peer's order. */
  function Common(peer: seq<nat>): (c: seq<nat>)
    ensures forall v :: v in c <==> v in peer && v in SupportedVersions
  {
    if peer == [] then []
    else
      var rest := Common(peer[1..]);
      assert forall v :: v in peer <==> v == peer[0] || v in peer[1..];
      if peer[0] in SupportedVersions then [peer[0]] + rest else rest
  }

  /** `_get_version_from_bitmask(message_versions)`. */
  function VersionFromBitmask(peer: seq<nat>): (r: Result<nat, NegotiationError>)
    ensures r.Success? <==> exists v :: v in peer && v in SupportedVersions
    ensures r.Success? ==> r.value in peer && r.value in SupportedVersions
    ensures r.Success? ==> forall v :: v in peer && v in SupportedVersions ==> v <= r.value
    ensures r.Failure? ==> r.error == EmptyIntersection
  {
    var common := Common(peer);
    if |common| == 0 then Failure(EmptyIntersection) else Success(Max(common))
  }

  /** `_get_version_from_header(message_version)`: `min(v, max(versions))` when we
      support it, else `None`. With versions 1 and 4 that accepts exactly a peer
      speaking 1.0 or anything from 1.3 up, answered with 1.3. */
  function VersionFromHeader(v: nat): (r: Option<nat>)
    ensures r.Some? <==> v == OFP_V10 || v >= OFP_V13
    ensures r.Some? ==> r.value in SupportedVersions && r.value <= v
    ensures r.Some? ==> (v >= OFP_V13 <==> r.value == OFP_V13)
  {
    var version := if v < Max(SupportedVersions) then v else Max(SupportedVersions);
    if version in SupportedVersions then Some(version) else None
  }

  /** `_negotiate`'s choice of version: the bitmap when it lists anything,
      otherwise the header version. */
  function Negotiate(hello: PeerHello): (r: Result<nat, NegotiationError>)
    ensures r.Success? ==> r.value in SupportedVersions
    ensures r.Failure? && r.error == EmptyIntersection ==> |hello.versions| > 0
    ensures r.Failure? && r.error == Incompatible ==> |hello.versions| == 0
  {
    if |hello.versions| > 0 then VersionFromBitmask(hello.versions)
    else
      match VersionFromHeader(hello.header.version)
      case Some(v) => Success(v)
      case None => Failure(Incompatible)
  }

  /** A non-empty bitmap takes precedence: the header version plays no part. */
  lemma BitmapOverridesHeader(h1: Header, h2: Header, versions: seq<nat>)
    requires |versions| > 0
    ensures Negotiate(PeerHello(h1, versions)) == Negotiate(PeerHello(h2, versions))
  {
  }

  /** Without a bitmap, negotiation succeeds exactly for header versions 1 and >= 4,
      agreeing on 1.0 or 1.3 respectively; peers announcing 1.1 or 1.2 fail. */
  lemma HeaderFallback(h: Header)
    ensures Negotiate(PeerHello(h, [])) ==
      if h.version == OFP_V10 then Success(OFP_V10)
      else if h.version >= OFP_V13 then Success(OFP_V13)
      else Failure(Incompatible)
  {
  }

  /** A peer bitmap {1, 2, 4} against ours {1, 4} agrees on 1.3; {2, 3} raises from `max`. */
  lemma BitmapExamples(h: Header)
    ensures Negotiate(PeerHello(h, [1, 2, 4])) == Success(OFP_V13)
    ensures Negotiate(PeerHello(h, [2, 3])) == Failure(EmptyIntersection)
  {
    assert 4 in [1, 2, 4] && 4 in SupportedVersions;
    assert forall v :: v in [2, 3] ==> v !in SupportedVersions;
  }
}
