/** The order of a handshake across the engine's handlers: raw input, the
    notice that a features request went out (`handle_features_request_sent`)
    and an incoming features reply (`handle_features_reply`). A connection only
    becomes ESTABLISHED by passing NEW, SETUP/`sending_features` and
    SETUP/`waiting_features_reply` in that order, one handler call per step. */
module HandshakeTrace {

  import opened Wrappers
  import opened OpenFlow
  import opened Framing
  import opened Handshake

  datatype Event =
    | RawData(data: Bytes)
    | FeaturesRequestSent
    | FeaturesReplyIn

  /** Raw input reaching the slicer must satisfy its precondition; a FINISHED
      or FAILED connection never slices, so it takes any bytes. */
  predicate Allowed(c: Connection, e: Event) {
    e.RawData? && c.state != Finished && c.state != Failed ==> NoZeroLength(c.remaining + e.data)
  }

  /** The connection after one handler call. */
  function Step(c: Connection, e: Event, codec: Codec): Connection
    requires Allowed(c, e)
  {
    match e
    case RawData(data) => HandleRawIn(c, data, codec).conn
    case FeaturesRequestSent => HandleFeaturesRequestSent(c)
    case FeaturesReplyIn => CompleteHandshake(c)
  }

  predicate Terminal(c: Connection) {
    c.state == Finished || c.state == Failed
  }

  /** How far the handshake has got: 0 NEW, 1 `sending_features`,
      2 `waiting_features_reply`, 3 ESTABLISHED. */
  function Stage(c: Connection): nat {
    match c.state
    case New => 0
    case Setup => if c.protocolState == WaitingFeaturesReply then 2 else 1
    case Established => 3
    case Finished => 0
    case Failed => 0
  }

  /** One handler call keeps the connection well formed, never leaves FINISHED
      or FAILED, and otherwise moves the handshake forward by at most one
      stage: past NEW only on raw input, past `sending_features` only when the
      request has gone out, past `waiting_features_reply` only on the reply. */
  lemma StepAdvancesByOne(c: Connection, e: Event, codec: Codec)
    requires Wf(c) && Allowed(c, e)
    ensures Wf(Step(c, e, codec))
    ensures Terminal(c) ==> Terminal(Step(c, e, codec))
    ensures !Terminal(Step(c, e, codec)) ==>
      var next := Step(c, e, codec);
      && (Stage(next) == Stage(c) || Stage(next) == Stage(c) + 1)
      && (Stage(next) == Stage(c) + 1 ==>
            (Stage(c) == 0 ==> e.RawData?)
            && (Stage(c) == 1 ==> e.FeaturesRequestSent?)
            && (Stage(c) == 2 ==> e.FeaturesReplyIn?))
  {
  }

  /** Whether every event of a run meets its handler's precondition. */
  predicate Runnable(c: Connection, events: seq<Event>, codec: Codec)
    decreases |events|
  {
    events == [] || (Allowed(c, events[0]) && Runnable(Step(c, events[0], codec), events[1..], codec))
  }

  /** The connection before each event and after the last one. */
  function States(c: Connection, events: seq<Event>, codec: Codec): (s: seq<Connection>)
    requires Runnable(c, events, codec)
    ensures |s| == |events| + 1 && s[0] == c
    ensures forall i :: 0 <= i < |events| ==>
              Allowed(s[i], events[i]) && s[i + 1] == Step(s[i], events[i], codec)
    decreases |events|
  {
    if events == [] then [c]
    else [c] + States(Step(c, events[0], codec), events[1..], codec)
  }

  /** A stage sequence that starts at or below `n`, ends above it and climbs by
      at most one per step crosses from `n` to `n + 1` somewhere, the first time
      after staying at or below `n`. */
  lemma {:induction false} FirstCrossing(st: seq<nat>, n: nat) returns (i: nat)
    requires |st| > 0 && st[0] <= n < st[|st| - 1]
    requires forall j :: 0 <= j < |st| - 1 ==> st[j] <= st[j + 1] <= st[j] + 1
    ensures i < |st| - 1 && st[i] == n && st[i + 1] == n + 1
    ensures forall j :: 0 <= j <= i ==> st[j] <= n
  {
    i := 0;
    while st[i + 1] <= n
      invariant i < |st| - 1
      invariant forall j :: 0 <= j <= i ==> st[j] <= n
      decreases |st| - i
    {
      i := i + 1;
    }
  }

  /** A run from a fresh connection that ends ESTABLISHED went through the three
      handshake steps in order: a hello agreed on raw input, then the features
      request seen going out, then the features reply. */
  lemma EstablishedInOrder(id: nat, events: seq<Event>, codec: Codec) returns (i: nat, j: nat, k: nat)
    requires Runnable(NewConnection(id), events, codec)
    requires States(NewConnection(id), events, codec)[|events|].state == Established
    ensures 0 <= i < j < k < |events|
    ensures var s := States(NewConnection(id), events, codec);
      && events[i].RawData? && s[i].state == New && s[i + 1].state == Setup
      && s[i + 1].protocolState == SendingFeatures
      && events[j].FeaturesRequestSent? && s[j + 1].protocolState == WaitingFeaturesReply
      && events[k].FeaturesReplyIn? && s[k].protocolState == WaitingFeaturesReply && s[k + 1].state == Established
  {
    var s := States(NewConnection(id), events, codec);
    i, j, k := Crossings(s, events, codec);
  }

  /** The three crossings of a run of well-formed, non-terminal states from
      stage 0 to stage 3. */
  lemma Crossings(s: seq<Connection>, events: seq<Event>, codec: Codec) returns (i: nat, j: nat, k: nat)
    requires |s| == |events| + 1 && s[0].state == New && Wf(s[0]) && s[|events|].state == Established
    requires forall m :: 0 <= m < |events| ==> Allowed(s[m], events[m]) && s[m + 1] == Step(s[m], events[m], codec)
    ensures 0 <= i < j < k < |events|
    ensures events[i].RawData? && s[i].state == New && s[i + 1].state == Setup
    ensures s[i + 1].protocolState == SendingFeatures
    ensures events[j].FeaturesRequestSent? && s[j + 1].protocolState == WaitingFeaturesReply
    ensures events[k].FeaturesReplyIn? && s[k].protocolState == WaitingFeaturesReply && s[k + 1].state == Established
  {
    forall m | 0 <= m <= |events|
      ensures Wf(s[m])
    {
      WfAlong(s, events, codec, m);
    }
    forall m | 0 <= m <= |events|
      ensures !Terminal(s[m])
    {
      NotTerminalBefore(s, events, codec, m);
    }
    var st := seq(|s|, m requires 0 <= m < |s| => Stage(s[m]));
    forall m | 0 <= m < |st| - 1
      ensures st[m] <= st[m + 1] <= st[m] + 1
    {
      StepAdvancesByOne(s[m], events[m], codec);
    }
    assert st[0] == 0 && st[|st| - 1] == 3;
    i := FirstCrossing(st, 0);
    j := FirstCrossing(st, 1);
    k := FirstCrossing(st, 2);
    StepAdvancesByOne(s[i], events[i], codec);
    StepAdvancesByOne(s[j], events[j], codec);
    StepAdvancesByOne(s[k], events[k], codec);
  }

  lemma {:induction false} WfAlong(s: seq<Connection>, events: seq<Event>, codec: Codec, m: nat)
    requires |s| == |events| + 1 && Wf(s[0]) && m < |s|
    requires forall i :: 0 <= i < |events| ==> Allowed(s[i], events[i]) && s[i + 1] == Step(s[i], events[i], codec)
    ensures Wf(s[m])
  {
    if m > 0 {
      WfAlong(s, events, codec, m - 1);
      StepAdvancesByOne(s[m - 1], events[m - 1], codec);
    }
  }

  lemma {:induction false} NotTerminalBefore(s: seq<Connection>, events: seq<Event>, codec: Codec, m: nat)
    requires |s| == |events| + 1 && m < |s| && !Terminal(s[|events|])
    requires forall i :: 0 <= i <= |events| ==> Wf(s[i])
    requires forall i :: 0 <= i < |events| ==> Allowed(s[i], events[i]) && s[i + 1] == Step(s[i], events[i], codec)
    ensures !Terminal(s[m])
    decreases |s| - m
  {
    if m < |events| {
      NotTerminalBefore(s, events, codec, m + 1);
      StepAdvancesByOne(s[m], events[m], codec);
    }
  }
}
