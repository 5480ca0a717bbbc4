/** `UserSpeed` of kytos/of_stats/user_speed.py: link speeds a user writes in
    `user_speed.json`, looked up per port, then per switch, then globally. The
    file itself is not read here: `speeds` is the dict `json.load` returns, and
    a missing file is the empty dict. */
module UserSpeed {

  import opened Wrappers
  import opened Text
  import opened Json

  /** The file's figures are in Gbit/s; `get_speed` answers in bit/s. */
  const GIGA: real := 1_000_000_000.0

  /** The `port` argument of `get_speed`: a port number, a string, or left out. */
  datatype PortArg = PortNum(n: int) | PortText(s: string) | NoPort

  /** What `get_speed` raises instead of answering. */
  datatype SpeedError =
    | NotADict      // the switch entry is neither null nor an object: no `.get`
    | NotANumber    // the value found cannot be multiplied into a speed

  /** `str(port)` unless `port` is already a string; `str(None)` is `"None"`. */
  function PortKey(port: PortArg): (key: string)
    ensures port.PortText? ==> key == port.s
    ensures port.NoPort? ==> key == "None"
    ensures port.PortNum? ==> |key| > 0 && (IsDigits(key) <==> port.n >= 0)
    ensures port.PortNum? && port.n >= 0 ==> key == NatToString(port.n) && ParseDigits(key) == port.n
    ensures port.PortNum? && port.n < 0 ==> key == "-" + NatToString(-port.n)
  {
    match port
    case PortNum(n) =>
      if n >= 0 then ParseNatToString(n); IntToString(n) else IntToString(n)
    case PortText(s) => s
    case NoPort => "None"
  }

  /** `speed *= 10**9` when a speed was found. A JSON `true` or `false` is a
      Python int; a string, list or dict is not a speed (a string or list
      would be repeated 10**9 times, a dict raises). */
  function Scale(v: Json): (r: Result<Option<real>, SpeedError>)
    ensures v.JNull? <==> r == Success(None)
    ensures v.JNum? ==> r == Success(Some(v.n * GIGA))
    ensures r.Failure? <==> v.JStr? || v.JArr? || v.JObj?
  {
    match v
    case JNull => Success(None)
    case JBool(b) => Success(Some(if b then GIGA else 0.0))
    case JNum(n) => Success(Some(n * GIGA))
    case _ => Failure(NotANumber)
  }

  /** `get_speed(dpid, port)`: the port's own entry wins, then the switch's
      `"default"`, and only a switch with no entry (or a null one) falls back
      to the top-level `"default"`. */
  function GetSpeed(speeds: map<string, Json>, dpid: string, port: PortArg): (r: Result<Option<real>, SpeedError>)
    ensures Get(speeds, dpid).JNull? ==> r == Scale(Get(speeds, "default"))
    ensures Get(speeds, dpid).JObj? && PortKey(port) in Get(speeds, dpid).fields ==>
              r == Scale(Get(speeds, dpid).fields[PortKey(port)])
    ensures Get(speeds, dpid).JObj? && PortKey(port) !in Get(speeds, dpid).fields ==>
              r == Scale(Get(Get(speeds, dpid).fields, "default"))
    ensures r == Failure(NotADict) <==> !(Get(speeds, dpid).JNull? || Get(speeds, dpid).JObj?)
  {
    var key := PortKey(port);
    match Get(speeds, dpid)
    case JNull => Scale(Get(speeds, "default"))
    case JObj(switch) =>
      if key !in switch then Scale(Get(switch, "default")) else Scale(switch[key])
    case _ => Failure(NotADict)
  }

  /** Without a user file every query answers `None`. */
  lemma NoFileNoSpeed(dpid: string, port: PortArg)
    ensures GetSpeed(map[], dpid, port) == Success(None)
  {
  }

  /** The port is stringified before the lookup, so the number 4 and the
      string "4" select the same entry; and a call without a port looks up
      the key "None", since the `port is None` test comes after the
      stringification and never holds. */
  lemma PortStringified(speeds: map<string, Json>, dpid: string, n: nat)
    ensures GetSpeed(speeds, dpid, PortNum(n)) == GetSpeed(speeds, dpid, PortText(NatToString(n)))
    ensures GetSpeed(speeds, dpid, NoPort) == GetSpeed(speeds, dpid, PortText("None"))
  {
  }

  /** Distinct port numbers never share an entry. */
  lemma PortKeysDistinct(a: int, b: int)
    requires a != b
    ensures PortKey(PortNum(a)) != PortKey(PortNum(b))
  {
    if PortKey(PortNum(a)) == PortKey(PortNum(b)) {
      IntToStringInjective(a, b);
    }
  }

  /** A port's own entry ignores both defaults: rewriting the switch's and the
      global `"default"` does not change the answer. */
  lemma PortEntryIgnoresDefaults(speeds: map<string, Json>, dpid: string, port: PortArg,
                                 switchDefault: Json, globalDefault: Json)
    requires dpid in speeds && speeds[dpid].JObj?
    requires PortKey(port) in speeds[dpid].fields && PortKey(port) != "default"
    requires dpid != "default"
    ensures var switch := speeds[dpid].fields["default" := switchDefault];
      GetSpeed(speeds[dpid := JObj(switch)]["default" := globalDefault], dpid, port) == GetSpeed(speeds, dpid, port)
  {
    var switch := speeds[dpid].fields["default" := switchDefault];
    var speeds' := speeds[dpid := JObj(switch)]["default" := globalDefault];
    assert Get(speeds', dpid) == JObj(switch);
    assert switch[PortKey(port)] == speeds[dpid].fields[PortKey(port)];
  }

  /** Writing a speed for a port makes every later query for that port answer
      it, in bit/s, whatever the defaults say. */
  lemma SetPortSpeed(speeds: map<string, Json>, dpid: string, port: nat, gbps: real)
    requires dpid in speeds && speeds[dpid].JObj?
    ensures var switch := speeds[dpid].fields[NatToString(port) := JNum(gbps)];
      GetSpeed(speeds[dpid := JObj(switch)], dpid, PortNum(port)) == Success(Some(gbps * GIGA))
  {
  }
}
