/** `of_slicer` and `unpack` of napps/kytos/of_core/utils.py: cutting the
    accumulated byte stream of one connection into OpenFlow frames by the
    length field of their header, and splitting a frame into header and body. */
module Framing {

  import opened Wrappers
  import opened OpenFlow

  function Flatten(ps: seq<Bytes>): (b: Bytes) {
    if ps == [] then [] else ps[0] + Flatten(ps[1..])
  }

  lemma FlattenAppend(a: seq<Bytes>, b: seq<Bytes>)
    ensures Flatten(a + b) == Flatten(a) + Flatten(b)
  {
    if a == [] {
      assert a + b == b;
    } else {
      assert (a + b)[1..] == a[1..] + b;
      FlattenAppend(a[1..], b);
    }
  }

  lemma FlattenCons(p: Bytes, ps: seq<Bytes>)
    ensures Flatten([p] + ps) == p + Flatten(ps)
  {
    assert ([p] + ps)[1..] == ps;
  }

  /** The big-endian length at bytes 2..4 of the current window. */
  function DeclaredLength(w: Bytes): nat
    requires |w| >= 4
  {
    U16At(w, 2)
  }

  /** The slicer stops on this window: fewer than 4 bytes, or fewer than it declares. */
  predicate Incomplete(w: Bytes) {
    |w| < 4 || |w| < DeclaredLength(w)
  }

  /** Every length field the slicer reads is at least 1. A zero length would make
      the `while` loop of `of_slicer` cut empty packets forever; this is the
      condition under which `of_slicer` returns at all. */
  predicate NoZeroLength(w: Bytes)
    decreases |w|
  {
    Incomplete(w) || (DeclaredLength(w) > 0 && NoZeroLength(w[DeclaredLength(w)..]))
  }

  datatype Sliced = Sliced(packets: seq<Bytes>, remainder: Bytes)

  /** `of_slicer(remaining_data)`: the complete frames in order and the unconsumed tail. */
  function Slice(w: Bytes): (r: Sliced)
    requires NoZeroLength(w)
    ensures Incomplete(r.remainder)
    ensures |w| < 4 ==> r == Sliced([], w)
    decreases |w|
  {
    if Incomplete(w) then Sliced([], w)
    else
      var n := DeclaredLength(w);
      var rest := Slice(w[n..]);
      Sliced([w[..n]] + rest.packets, rest.remainder)
  }

  /** Nothing is lost, duplicated or reordered: the packets followed by the
      remainder spell the input exactly. */
  lemma {:induction false} SliceLossless(w: Bytes)
    requires NoZeroLength(w)
    ensures Flatten(Slice(w).packets) + Slice(w).remainder == w
    decreases |w|
  {
    if !Incomplete(w) {
      var n := DeclaredLength(w);
      var rest := Slice(w[n..]);
      SliceLossless(w[n..]);
      FlattenCons(w[..n], rest.packets);
      assert w == w[..n] + w[n..];
    }
  }

  /** The loop of `of_slicer` as written. */
  method OfSlicer(data: Bytes) returns (pkts: seq<Bytes>, remaining: Bytes)
    requires NoZeroLength(data)
    ensures Sliced(pkts, remaining) == Slice(data)
  {
    pkts := [];
    remaining := data;
    while |remaining| > 3
      invariant NoZeroLength(remaining)
      invariant Slice(data) == Sliced(pkts + Slice(remaining).packets, Slice(remaining).remainder)
      decreases |remaining|
    {
      var lengthField := U16At(remaining, 2);
      if |remaining| >= lengthField {
        assert Slice(remaining).packets == [remaining[..lengthField]] + Slice(remaining[lengthField..]).packets;
        pkts := pkts + [remaining[..lengthField]];
        remaining := remaining[lengthField..];
      } else {
        break;
      }
    }
  }

  /** Packet `p` is cut at offset `off` of `w`: the window there has a header whose
      length field is exactly `|p|`, and `p` is the bytes it covers. */
  predicate CutAt(w: Bytes, off: nat, p: Bytes) {
    && off + 4 <= |w|
    && off + |p| <= |w|
    && |p| > 0
    && DeclaredLength(w[off..]) == |p|
    && w[off..off + |p|] == p
  }

  lemma CutShift(w: Bytes, n: nat, off: nat, p: Bytes)
    requires n <= |w|
    requires CutAt(w[n..], off, p)
    ensures CutAt(w, n + off, p)
  {
    assert w[n..][off..] == w[n + off..];
    assert w[n..][off..off + |p|] == w[n + off..n + off + |p|];
  }

  /** Each packet is the span its own window's length field declares, and packets
      follow each other without gap in input order. */
  lemma {:induction false} SlicePacketsFramed(w: Bytes)
    requires NoZeroLength(w)
    ensures forall i :: 0 <= i < |Slice(w).packets| ==>
      CutAt(w, |Flatten(Slice(w).packets[..i])|, Slice(w).packets[i])
    decreases |w|
  {
    var ps := Slice(w).packets;
    if !Incomplete(w) {
      var n := DeclaredLength(w);
      var rest := Slice(w[n..]).packets;
      assert ps == [w[..n]] + rest;
      SlicePacketsFramed(w[n..]);
      forall i | 0 <= i < |ps|
        ensures CutAt(w, |Flatten(ps[..i])|, ps[i])
      {
        if i == 0 {
          assert ps[..0] == [];
          assert w[0..] == w;
          assert CutAt(w, 0, w[..n]);
        } else {
          var off := |Flatten(rest[..i - 1])|;
          assert ps[..i] == [w[..n]] + rest[..i - 1];
          FlattenCons(w[..n], rest[..i - 1]);
          assert |Flatten(ps[..i])| == n + off;
          assert ps[i] == rest[i - 1];
          CutShift(w, n, off, rest[i - 1]);
        }
      }
    }
  }

  lemma SameLengthField(x: Bytes, y: Bytes)
    requires |x| >= 4
    ensures DeclaredLength(x + y) == DeclaredLength(x)
  {
    assert (x + y)[2] == x[2] && (x + y)[3] == x[3];
  }

  lemma {:induction false} NoZeroLengthPrefix(x: Bytes, y: Bytes)
    requires NoZeroLength(x + y)
    ensures NoZeroLength(x)
    decreases |x|
  {
    if !Incomplete(x) {
      var n := DeclaredLength(x);
      SameLengthField(x, y);
      assert (x + y)[n..] == x[n..] + y;
      NoZeroLengthPrefix(x[n..], y);
    }
  }

  lemma SliceUnfold(w: Bytes)
    requires NoZeroLength(w)
    requires !Incomplete(w)
    ensures DeclaredLength(w) > 0
    ensures Slice(w) == Sliced([w[..DeclaredLength(w)]] + Slice(w[DeclaredLength(w)..]).packets,
                               Slice(w[DeclaredLength(w)..]).remainder)
  {
  }

  /** Slicing `x` and then the remainder followed by `y` gives the same frames and
      tail as slicing `x ++ y` at once: delivery boundaries do not matter. */
  lemma {:induction false} SliceCompose(x: Bytes, y: Bytes)
    requires NoZeroLength(x + y)
    ensures NoZeroLength(x)
    ensures NoZeroLength(Slice(x).remainder + y)
    ensures Slice(x + y)
         == Sliced(Slice(x).packets + Slice(Slice(x).remainder + y).packets,
                   Slice(Slice(x).remainder + y).remainder)
    decreases |x|
  {
    NoZeroLengthPrefix(x, y);
    if Incomplete(x) {
      assert Slice(x) == Sliced([], x);
      assert [] + Slice(x + y).packets == Slice(x + y).packets;
    } else {
      var n := DeclaredLength(x);
      var xy := x + y;
      SameLengthField(x, y);
      assert !Incomplete(xy);
      assert xy[n..] == x[n..] + y;
      assert xy[..n] == x[..n];
      SliceUnfold(x);
      SliceUnfold(xy);
      SliceCompose(x[n..], y);
      var sx := Slice(x[n..]);
      var t := Slice(sx.remainder + y);
      assert Slice(xy) == Sliced([x[..n]] + (sx.packets + t.packets), t.remainder);
      assert [x[..n]] + (sx.packets + t.packets) == ([x[..n]] + sx.packets) + t.packets;
    }
  }

  /** A well-formed OpenFlow frame: at least the 4 bytes up to the length field,
      and a length field equal to its size. */
  predicate ValidFrame(f: Bytes) {
    |f| >= 4 && DeclaredLength(f) == |f|
  }

  /** Any concatenation of well-formed frames is sliced back into exactly those frames. */
  lemma {:induction false} SliceValidFrames(frames: seq<Bytes>)
    requires forall i :: 0 <= i < |frames| ==> ValidFrame(frames[i])
    ensures NoZeroLength(Flatten(frames))
    ensures Slice(Flatten(frames)) == Sliced(frames, [])
  {
    if frames != [] {
      var f := frames[0];
      var tail := Flatten(frames[1..]);
      assert Flatten(frames) == f + tail;
      SameLengthField(f, tail);
      assert (f + tail)[|f|..] == tail;
      assert (f + tail)[..|f|] == f;
      SliceValidFrames(frames[1..]);
      assert frames == [f] + frames[1..];
    }
  }

  /** A frame missing its last byte yields nothing and is buffered whole. */
  lemma ShortFrameWaits(f: Bytes)
    requires ValidFrame(f)
    ensures NoZeroLength(f[..|f| - 1])
    ensures Slice(f[..|f| - 1]) == Sliced([], f[..|f| - 1])
  {
    var p := f[..|f| - 1];
    if |p| >= 4 {
      assert p[2] == f[2] && p[3] == f[3];
    }
  }

  /** Successive deliveries of the byte stream, the unconsumed tail kept in between
      (`remaining_data + new_data` at main.py:159-160). */
  function Deliver(buffer: Bytes, chunks: seq<Bytes>): (r: Sliced)
    requires NoZeroLength(buffer + Flatten(chunks))
    decreases |chunks|
  {
    if chunks == [] then Sliced([], buffer)
    else
      var first := buffer + chunks[0];
      assert buffer + Flatten(chunks) == first + Flatten(chunks[1..]);
      SliceCompose(first, Flatten(chunks[1..]));
      var s := Slice(first);
      var more := Deliver(s.remainder, chunks[1..]);
      Sliced(s.packets + more.packets, more.remainder)
  }

  /** Starting from an incomplete buffer, any split of the stream into deliveries
      yields what slicing the whole stream at once yields. */
  lemma {:induction false} DeliverIsWholeSlice(buffer: Bytes, chunks: seq<Bytes>)
    requires Incomplete(buffer)
    requires NoZeroLength(buffer + Flatten(chunks))
    ensures Deliver(buffer, chunks) == Slice(buffer + Flatten(chunks))
    decreases |chunks|
  {
    if chunks == [] {
      assert buffer + Flatten(chunks) == buffer;
    } else {
      var first := buffer + chunks[0];
      assert buffer + Flatten(chunks) == first + Flatten(chunks[1..]);
      SliceCompose(first, Flatten(chunks[1..]));
      DeliverIsWholeSlice(Slice(first).remainder, chunks[1..]);
    }
  }

  /** Well-formed frames delivered in arbitrary pieces come out exactly once each, in
      order, byte for byte, with nothing left buffered. */
  lemma StreamReassembly(frames: seq<Bytes>, chunks: seq<Bytes>)
    requires forall i :: 0 <= i < |frames| ==> ValidFrame(frames[i])
    requires Flatten(chunks) == Flatten(frames)
    ensures NoZeroLength([] + Flatten(chunks))
    ensures Deliver([], chunks) == Sliced(frames, [])
  {
    var stream: Bytes := [] + Flatten(chunks);
    assert stream == Flatten(frames);
    SliceValidFrames(frames);
    assert Incomplete([]);
    DeliverIsWholeSlice([], chunks);
    assert Deliver([], chunks) == Slice(stream);
  }

  /** `UnpackException`, the only error `unpack` lets out. */
  datatype UnpackError = UnpackException

  /** `unpack(packet)`: the header from the first 8 bytes, then the body decoder on
      the rest only when bytes remain. `newMessage` and `unpackBody` stand for
      python-openflow's `new_message_from_header` and `message.unpack`, with their
      `UnpackException`/`ValueError` failures folded into `UnpackException`. */
  function Unpack<M>(packet: Bytes,
                     newMessage: Header -> Result<M, UnpackError>,
                     unpackBody: (M, Bytes) -> Result<M, UnpackError>): (r: Result<M, UnpackError>)
    ensures r.Success? <==>
      && |packet| >= OFP_HEADER_LEN
      && newMessage(ParseHeader(packet[..OFP_HEADER_LEN])).Success?
      && (|packet| > OFP_HEADER_LEN ==>
            unpackBody(newMessage(ParseHeader(packet[..OFP_HEADER_LEN])).value,
                       packet[OFP_HEADER_LEN..]).Success?)
    ensures |packet| == OFP_HEADER_LEN ==> r == newMessage(ParseHeader(packet))
  {
    if |packet| < OFP_HEADER_LEN then Failure(UnpackException)
    else
      var header := ParseHeader(packet[..OFP_HEADER_LEN]);
      var message :- newMessage(header);
      if |packet| > OFP_HEADER_LEN then unpackBody(message, packet[OFP_HEADER_LEN..])
      else Success(message)
  }

  /** The body decoder is consulted only when bytes follow the header. */
  lemma UnpackHeaderOnly<M>(packet: Bytes,
                            newMessage: Header -> Result<M, UnpackError>,
                            body1: (M, Bytes) -> Result<M, UnpackError>,
                            body2: (M, Bytes) -> Result<M, UnpackError>)
    requires |packet| <= OFP_HEADER_LEN
    ensures Unpack(packet, newMessage, body1) == Unpack(packet, newMessage, body2)
  {
  }

  /** With a body present, a decoded header hands exactly bytes 8.. to the body decoder. */
  lemma UnpackBodyOnRest<M>(header: Header, body: Bytes,
                            newMessage: Header -> Result<M, UnpackError>,
                            unpackBody: (M, Bytes) -> Result<M, UnpackError>)
    requires WireHeader(header)
    requires |body| > 0
    requires newMessage(header).Success?
    ensures Unpack(EncodeHeader(header) + body, newMessage, unpackBody)
         == unpackBody(newMessage(header).value, body)
  {
    var p := EncodeHeader(header) + body;
    assert p[..OFP_HEADER_LEN] == EncodeHeader(header) + [];
    ParseEncodeHeader(header, []);
    assert p[OFP_HEADER_LEN..] == body;
  }
}
