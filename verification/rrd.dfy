/** The round-robin databases of napps/kytos/of_stats/stats.py: where each
    statistics file lives, the argument strings handed to rrdtool, the time
    window and resolution of a fetch, the choice of the latest sample, and the
    once-per-switch description request. rrdtool itself, the clock and the
    file system are parameters: `now` is `time.time()`, `first` is
    `rrdtool.first`, and whether a file exists is a boolean or an `Option`. */
module Rrd {

  import opened Wrappers
  import opened Text
  import opened Json
  import opened OpenFlow
  import opened KytosCore

  /** settings.py: one sample every 30 s, unknown after two missed samples,
      counters between 0 and the largest 64-bit value, archives averaging up
      to half unknown samples and kept for 30 days. */
  const STATS_INTERVAL: nat := 30
  const TIMEOUT: nat := 2 * STATS_INTERVAL
  const MIN: nat := 0
  const MAX: nat := 0x1_0000_0000_0000_0000 - 1
  const XFF: string := "0.5"
  const PERIOD: string := "30d"

  /** The consolidation steps of `_get_archives`, in order. */
  const ARCHIVE_STEPS: seq<string> :=
    ["30s", "1m", "2m", "4m", "8m", "15m", "30m", "1h", "2h",
     "4h", "8h", "12h", "1d", "2d", "3d", "6d", "10d", "15d"]

  /** An application's database family: its folder and its data sources. */
  datatype RrdFamily = RrdFamily(app: string, dataSources: seq<string>)

  /** A fetch bound: a Unix time or one of rrdtool's words (`first`, `now`,
      `end-90s`, ...). */
  datatype Bound = BInt(n: int) | BText(s: string)

  /** `str(bound)`. */
  function BoundText(b: Bound): string {
    match b
    case BInt(n) => IntToString(n)
    case BText(s) => s
  }

  datatype RrdError =
    | MissingValue(dataSource: string)        // `ds_values[ds]` raises `KeyError`
    | FileNotFound(app: string, index: seq<string>)
    | ZeroDivision                            // `(end - start) // 0`

  /** `PortStats.rrd`'s data sources, built as the comprehension builds them:
      statistic outermost, direction innermost. */
  function PortDataSources(): (ds: seq<string>)
    ensures ds == ["rx_bytes", "tx_bytes", "rx_dropped", "tx_dropped", "rx_errors", "tx_errors"]
  {
    var stats := ["bytes", "dropped", "errors"];
    var directions := ['r', 't'];
    var ds := seq(6, i requires 0 <= i < 6 => [directions[i % 2]] + "x_" + stats[i / 2]);
    assert ds[0] == "rx_bytes" && ds[1] == "tx_bytes";
    assert ds[2] == "rx_dropped" && ds[3] == "tx_dropped";
    assert ds[4] == "rx_errors" && ds[5] == "tx_errors";
    ds
  }

  const PORT_STATS: RrdFamily := RrdFamily("ports", PortDataSources())
  const AGGREGATE_STATS: RrdFamily := RrdFamily("aggr", ["packet_count", "byte_count", "flow_count"])
  const FLOW_STATS: RrdFamily := RrdFamily("flows", ["packet_count", "byte_count"])

  /** The index of a port's database: the switch, then the port number. */
  function PortIndex(dpid: string, port: nat): seq<string> {
    [dpid, NatToString(port)]
  }

  /** A path component pathlib keeps as one name: non-empty, no slash. */
  predicate Component(s: string) {
    |s| > 0 && '/' !in s
  }

  predicate Components(parts: seq<string>) {
    forall k :: 0 <= k < |parts| ==> Component(parts[k])
  }

  /** The components below `DIR` of `get_rrd(index)`: the application folder,
      one folder per index item but the last, and the last item with `.rrd`. */
  function RrdComponents(family: RrdFamily, index: seq<string>): (parts: seq<string>)
    requires |index| > 0
    ensures |parts| == |index| + 1
  {
    [family.app] + index[..|index| - 1] + [index[|index| - 1] + ".rrd"]
  }

  /** `get_rrd(index)`: the path of the database, under the settings folder
      `dir`. The file is not created. */
  function GetRrd(dir: string, family: RrdFamily, index: seq<string>): (path: string)
    requires |index| > 0
    ensures |path| > |dir| && path[..|dir|] == dir && path[|dir|] == '/'
  {
    dir + "/" + Join(RrdComponents(family, index), '/')
  }

  /** Below the settings folder, the path splits back into the application
      folder, the index folders and the file name, when every one of them is
      a proper path component. */
  lemma GetRrdComponents(dir: string, family: RrdFamily, index: seq<string>)
    requires |index| > 0
    requires Component(family.app) && Components(index)
    ensures Split(GetRrd(dir, family, index)[|dir| + 1..], '/') == RrdComponents(family, index)
  {
    var parts := RrdComponents(family, index);
    assert GetRrd(dir, family, index)[|dir| + 1..] == Join(parts, '/');
    assert NoSep(parts, '/') by {
      forall k | 0 <= k < |parts| ensures '/' !in parts[k] {
        if k == |parts| - 1 {
          assert '/' !in ".rrd";
        } else if k > 0 {
          assert parts[k] == index[k - 1];
        }
      }
    }
    SplitJoin(parts, '/');
  }

  /** Two indexes whose items are proper path components never share a
      database file. */
  lemma GetRrdInjective(dir: string, family: RrdFamily, a: seq<string>, b: seq<string>)
    requires |a| > 0 && |b| > 0
    requires Component(family.app) && Components(a) && Components(b)
    requires GetRrd(dir, family, a) == GetRrd(dir, family, b)
    ensures a == b
  {
    GetRrdComponents(dir, family, a);
    GetRrdComponents(dir, family, b);
    var pa := RrdComponents(family, a);
    var pb := RrdComponents(family, b);
    assert pa == pb;
    assert |a| == |b|;
    var n := |a|;
    assert a[..n - 1] == pa[1..n] == pb[1..n] == b[..n - 1];
    assert a[n - 1] + ".rrd" == pa[n] == pb[n] == b[n - 1] + ".rrd";
    assert a[n - 1] == (a[n - 1] + ".rrd")[..|a[n - 1] + ".rrd"| - 4];
    assert b[n - 1] == (b[n - 1] + ".rrd")[..|b[n - 1] + ".rrd"| - 4];
    assert a == a[..n - 1] + [a[n - 1]];
    assert b == b[..n - 1] + [b[n - 1]];
  }

  /** The timestamp field of an update line: the given time, or `N` for now. */
  function TimestampText(tstamp: Option<int>): (t: string)
    ensures ':' !in t
  {
    match tstamp
    case None => "N"
    case Some(t) => IntToStringHasNo(t, ':'); IntToString(t)
  }

  /** The first data source the update has no value for. */
  function FirstMissing(ds: seq<string>, values: map<string, int>): (r: Option<string>)
    ensures r.None? <==> forall k :: 0 <= k < |ds| ==> ds[k] in values
    ensures r.Some? ==> r.value in ds && r.value !in values
  {
    if ds == [] then None
    else if ds[0] !in values then Some(ds[0])
    else FirstMissing(ds[1..], values)
  }

  /** The values of an update in data-source order, as `str` prints them. */
  function ValueTexts(ds: seq<string>, values: map<string, int>): (texts: seq<string>)
    requires forall k :: 0 <= k < |ds| ==> ds[k] in values
    ensures |texts| == |ds|
    ensures forall k :: 0 <= k < |ds| ==> texts[k] == IntToString(values[ds[k]])
  {
    seq(|ds|, k requires 0 <= k < |ds| => IntToString(values[ds[k]]))
  }

  /** `RRD.update`: the line `<tstamp or N>:<v1>:<v2>:...` with one value per
      data source in the family's order; values for other names are ignored
      and a missing one raises `KeyError`. */
  function UpdateLine(family: RrdFamily, tstamp: Option<int>, values: map<string, int>): (r: Result<string, RrdError>)
    ensures r.Failure? <==> exists k :: 0 <= k < |family.dataSources| && family.dataSources[k] !in values
    ensures r.Failure? ==> r.error.MissingValue? && r.error.dataSource in family.dataSources
                           && r.error.dataSource !in values
  {
    match FirstMissing(family.dataSources, values)
    case Some(ds) => Failure(MissingValue(ds))
    case None =>
      Success(TimestampText(tstamp) + ":" + Join(ValueTexts(family.dataSources, values), ':'))
  }

  /** An update line reads back field by field: the timestamp, then each data
      source's value in order, each printed integer parsing back to itself. */
  lemma UpdateLineFields(family: RrdFamily, tstamp: Option<int>, values: map<string, int>)
    requires |family.dataSources| > 0
    requires forall k :: 0 <= k < |family.dataSources| ==> family.dataSources[k] in values
    ensures UpdateLine(family, tstamp, values).Success?
    ensures var fields := Split(UpdateLine(family, tstamp, values).value, ':');
      && |fields| == |family.dataSources| + 1
      && fields[0] == TimestampText(tstamp)
      && forall k :: 0 <= k < |family.dataSources| ==>
           fields[k + 1] == IntToString(values[family.dataSources[k]])
  {
    var ds := family.dataSources;
    var texts := ValueTexts(ds, values);
    var parts := [TimestampText(tstamp)] + texts;
    assert Join(parts, ':') == TimestampText(tstamp) + ":" + Join(texts, ':') by {
      assert parts[1..] == texts;
    }
    forall k | 0 <= k < |parts| ensures ':' !in parts[k] {
      if k > 0 {
        assert parts[k] == IntToString(values[ds[k - 1]]);
        IntToStringHasNo(values[ds[k - 1]], ':');
      }
    }
    SplitJoin(parts, ':');
  }

  /** `get_counter(ds)`: a COUNTER data source with the settings' heartbeat and bounds. */
  function CounterOption(ds: string): string {
    CounterText(ds, TIMEOUT, MIN, MAX)
  }

  /** `DS:<name>:COUNTER:<heartbeat>:<min>:<max>`. */
  function CounterText(ds: string, heartbeat: nat, lo: nat, hi: nat): string {
    Join(["DS", ds, "COUNTER"] + [NatToString(heartbeat), NatToString(lo), NatToString(hi)], ':')
  }

  /** One averaging archive of `_get_archives`. */
  function ArchiveOption(step: string): string {
    Join(["RRA", "AVERAGE", XFF, step, PERIOD], ':')
  }

  /** An archive option reads back as the average consolidation, the xfiles
      factor, its step and the retention period. */
  lemma ArchiveFields(step: string)
    requires ':' !in step
    ensures Split(ArchiveOption(step), ':') == ["RRA", "AVERAGE", XFF, step, PERIOD]
  {
    SplitJoin(["RRA", "AVERAGE", XFF, step, PERIOD], ':');
  }

  /** `_get_archives`: one archive per consolidation step, in order. */
  function Archives(): (rras: seq<string>)
    ensures |rras| == |ARCHIVE_STEPS| == 18
    ensures forall j :: 0 <= j < |ARCHIVE_STEPS| ==> rras[j] == ArchiveOption(ARCHIVE_STEPS[j])
  {
    seq(|ARCHIVE_STEPS|, j requires 0 <= j < |ARCHIVE_STEPS| => ArchiveOption(ARCHIVE_STEPS[j]))
  }

  /** One counter option per data source, in order. */
  function Counters(dataSources: seq<string>): (opts: seq<string>)
    ensures |opts| == |dataSources|
    ensures forall k :: 0 <= k < |dataSources| ==> opts[k] == CounterOption(dataSources[k])
  {
    seq(|dataSources|, k requires 0 <= k < |dataSources| => CounterOption(dataSources[k]))
  }

  /** `create_rrd(rrd, tstamp)`: path, start (default `N`) and step, then one
      counter per data source in order, then the 18 archives. */
  function CreateOptions(path: string, tstamp: Option<int>, family: RrdFamily): (opts: seq<string>)
    ensures |opts| == 5 + |family.dataSources| + |ARCHIVE_STEPS|
    ensures opts[..5] == [path, "--start", TimestampText(tstamp), "--step", NatToString(STATS_INTERVAL)]
    ensures forall k :: 0 <= k < |family.dataSources| ==> opts[5 + k] == CounterOption(family.dataSources[k])
    ensures forall j :: 0 <= j < |ARCHIVE_STEPS| ==> opts[5 + |family.dataSources| + j] == ArchiveOption(ARCHIVE_STEPS[j])
  {
    var head := [path, "--start", TimestampText(tstamp), "--step", NatToString(STATS_INTERVAL)];
    var rest := Counters(family.dataSources) + Archives();
    assert (head + rest)[..5] == head;
    head + rest
  }

  /** A counter option reads back field by field: its data source, the COUNTER
      type, and the heartbeat and bounds as numbers. */
  lemma CounterFields(ds: string, heartbeat: nat, lo: nat, hi: nat)
    requires ':' !in ds
    ensures var f := Split(CounterText(ds, heartbeat, lo, hi), ':');
      && |f| == 6 && f[0] == "DS" && f[1] == ds && f[2] == "COUNTER"
      && f[3] == NatToString(heartbeat) && ParseDigits(f[3]) == heartbeat
      && f[4] == NatToString(lo) && ParseDigits(f[4]) == lo
      && f[5] == NatToString(hi) && ParseDigits(f[5]) == hi
  {
    var parts := ["DS", ds, "COUNTER"] + [NatToString(heartbeat), NatToString(lo), NatToString(hi)];
    NatToStringHasNo(heartbeat, ':');
    NatToStringHasNo(lo, ':');
    NatToStringHasNo(hi, ':');
    assert NoSep(parts, ':');
    SplitJoin(parts, ':');
    ParseNatToString(heartbeat);
    ParseNatToString(lo);
    ParseNatToString(hi);
  }

  /** `_calc_start_end`: `end == 'now'` becomes the clock and `start ==
      'first'` the database's first sample; every integer bound is then moved
      back one second. Only these two words are resolved, each on its own
      side. */
  function CalcStartEnd(start: Bound, end: Bound, now: int, first: int): (r: (Bound, Bound))
    ensures start == BText("first") ==> r.0 == BInt(first - 1)
    ensures start.BInt? ==> r.0 == BInt(start.n - 1)
    ensures start.BText? && start.s != "first" ==> r.0 == start
    ensures end == BText("now") ==> r.1 == BInt(now - 1)
    ensures end.BInt? ==> r.1 == BInt(end.n - 1)
    ensures end.BText? && end.s != "now" ==> r.1 == end
  {
    var e := if end == BText("now") then BInt(now) else end;
    var s := if start == BText("first") then BInt(first) else start;
    var s' := if s.BInt? then BInt(s.n - 1) else s;
    var e' := if e.BInt? then BInt(e.n - 1) else e;
    (s', e')
  }

  /** Python's `a // b`: rounded towards minus infinity for either sign of `b`. */
  function FloorDiv(a: int, b: int): (q: int)
    requires b != 0
    ensures b > 0 ==> b * q <= a < b * q + b
    ensures b < 0 ==> b * q >= a > b * q + b
  {
    if b > 0 then a / b else (-a) / (-b)
  }

  /** A positive divisor gives a positive floor quotient exactly when it fits. */
  lemma FloorDivPositive(a: int, b: int)
    requires b != 0
    ensures b > 0 ==> (FloorDiv(a, b) > 0 <==> a >= b)
  {
    if b > 0 {
      var q := FloorDiv(a, b);
      if q > 0 {
        assert b * q >= b * 1;
      }
    }
  }

  /** The resolution arguments of `fetch`: asked for only when a point count is
      given and both bounds are integers, and kept only when the resolution
      `(end - start) // n_points` is positive. */
  function ResolutionArgs(start: Bound, end: Bound, nPoints: Option<int>): (r: Result<seq<string>, RrdError>)
    ensures r.Failure? <==> nPoints == Some(0) && start.BInt? && end.BInt?
    ensures r.Failure? ==> r.error == ZeroDivision
    ensures r.Success? && r.value != [] ==>
              nPoints.Some? && start.BInt? && end.BInt? && |r.value| == 3 && r.value[..2] == ["-a", "-r"]
              && FloorDiv(end.n - start.n, nPoints.value) > 0
              && r.value[2] == NatToString(FloorDiv(end.n - start.n, nPoints.value)) + "s"
    ensures nPoints.Some? && nPoints.value != 0 && start.BInt? && end.BInt? ==>
              r.Success? && (r.value != [] <==> FloorDiv(end.n - start.n, nPoints.value) > 0)
    ensures nPoints.Some? && nPoints.value > 0 && start.BInt? && end.BInt? ==>
              (r == Success([]) <==> end.n - start.n < nPoints.value)
  {
    if nPoints.None? || !start.BInt? || !end.BInt? then Success([])
    else if nPoints.value == 0 then Failure(ZeroDivision)
    else
      var resolution := FloorDiv(end.n - start.n, nPoints.value);
      FloorDivPositive(end.n - start.n, nPoints.value);
      if resolution > 0 then Success(["-a", "-r", NatToString(resolution) + "s"]) else Success([])
  }

  /** The arguments `fetch(index, start, end, n_points)` hands `rrdtool.fetch`,
      or why it raises first: a missing file, then a zero point count. */
  function FetchArgs(dir: string, family: RrdFamily, index: seq<string>, present: bool,
                     start: Bound, end: Bound, nPoints: Option<int>, now: int, first: int): (r: Result<seq<string>, RrdError>)
    requires |index| > 0
    ensures !present <==> r == Failure(FileNotFound(family.app, index))
    ensures r.Success? ==> |r.value| >= 6 && r.value[0] == GetRrd(dir, family, index) && r.value[1] == "AVERAGE"
  {
    if !present then Failure(FileNotFound(family.app, index))
    else
      var (s, e) := CalcStartEnd(start, end, now, first);
      match ResolutionArgs(s, e, nPoints)
      case Failure(err) => Failure(err)
      case Success(res) =>
        Success([GetRrd(dir, family, index), "AVERAGE", "--start", BoundText(s), "--end", BoundText(e)] + res)
  }

  /** With `fetch`'s own defaults (start `first`, end `now`, `n_points=None`)
      a fetch spans from one second before the first sample to one second
      before now, at the database's own resolution. */
  lemma FetchDefaults(dir: string, family: RrdFamily, index: seq<string>, now: int, first: int)
    requires |index| > 0
    ensures FetchArgs(dir, family, index, true, BText("first"), BText("now"), None, now, first)
            == Success([GetRrd(dir, family, index), "AVERAGE", "--start", IntToString(first - 1),
                        "--end", IntToString(now - 1)])
  {
    var args := [GetRrd(dir, family, index), "AVERAGE", "--start", IntToString(first - 1),
                 "--end", IntToString(now - 1)];
    assert CalcStartEnd(BText("first"), BText("now"), now, first) == (BInt(first - 1), BInt(now - 1));
    assert args + [] == args;
  }

  /** `range(lo, hi, step)` for a positive step. */
  function Range(lo: int, hi: int, step: int): (r: seq<int>)
    requires step > 0
    ensures forall k :: 0 <= k < |r| ==> r[k] == lo + k * step && r[k] < hi
    ensures lo + |r| * step >= hi
    decreases hi - lo
  {
    if lo >= hi then [] else [lo] + Range(lo + step, hi, step)
  }

  /** The timestamps `fetch` returns for rrdtool's `(start, stop, step)`: every
      step after `start` up to and including `stop`. */
  function FetchTimestamps(start: int, stop: int, step: int): (ts: seq<int>)
    requires step > 0
    ensures forall k :: 0 <= k < |ts| ==> ts[k] == start + (k + 1) * step && ts[k] <= stop
    ensures start + (|ts| + 1) * step > stop
  {
    Range(start + step, stop + 1, step)
  }

  /** What `rrdtool.fetch` returned for a window: timestamps, column names and
      one row of values per timestamp. */
  datatype Fetched = Fetched(timestamps: seq<int>, cols: seq<string>, rows: seq<seq<Json>>)

  /** rrdtool's answer has one row per timestamp and one value per column in
      every row, and the column names are the database's distinct data sources. */
  predicate Shaped(f: Fetched) {
    && |f.rows| == |f.timestamps|
    && (forall i :: 0 <= i < |f.rows| ==> |f.rows[i]| == |f.cols|)
    && (forall a, b :: 0 <= a < b < |f.cols| ==> f.cols[a] != f.cols[b])
  }

  /** `{k: v for k, v in zip(keys, values)}`: a later key overrides an earlier one. */
  function ZipMap(keys: seq<string>, values: seq<Json>): (m: map<string, Json>)
    requires |keys| == |values|
    ensures m.Keys == set k | k in keys
    decreases |keys|
  {
    if keys == [] then map[]
    else ZipMap(keys[..|keys| - 1], values[..|values| - 1])[keys[|keys| - 1] := values[|values| - 1]]
  }

  /** With distinct keys, each key maps to the value at its own position. */
  lemma {:induction false} ZipMapAt(keys: seq<string>, values: seq<Json>, k: nat)
    requires |keys| == |values| && k < |keys|
    requires forall a, b :: 0 <= a < b < |keys| ==> keys[a] != keys[b]
    ensures ZipMap(keys, values)[keys[k]] == values[k]
    decreases |keys|
  {
    var n := |keys| - 1;
    if k < n {
      var ks, vs := keys[..n], values[..n];
      assert ZipMap(keys, values) == ZipMap(ks, vs)[keys[n] := values[n]];
      assert forall a, b :: 0 <= a < b < |ks| ==> ks[a] != ks[b] by {
        forall a, b | 0 <= a < b < |ks| ensures ks[a] != ks[b] {
          assert ks[a] == keys[a] && ks[b] == keys[b];
        }
      }
      ZipMapAt(ks, vs, k);
      assert ks[k] == keys[k] && vs[k] == values[k];
      assert keys[k] != keys[n];
    }
  }

  /** A row `fetch_latest` accepts: its first value is known and it is not
      older than two intervals before now. */
  predicate Recent(f: Fetched, i: nat, now: int)
    requires Shaped(f) && i < |f.rows| && |f.cols| > 0
  {
    f.rows[i][0] != JNull && f.timestamps[i] > now - STATS_INTERVAL * 2
  }

  /** `fetch_latest(index)` on what the window ending now returned (`None` when
      the database file is missing). The backward scan does not stop at the
      first match, so the row kept is the EARLIEST recent one with a known
      first value; with none, every column reads 0. */
  method FetchLatest(fetched: Option<Fetched>, now: int) returns (latest: map<string, Json>, chosen: Option<nat>)
    requires fetched.Some? ==> Shaped(fetched.value) && |fetched.value.cols| > 0
    ensures fetched.None? ==> latest == map[] && chosen.None?
    ensures fetched.Some? ==> latest.Keys == set c | c in fetched.value.cols
    ensures fetched.Some? && chosen.Some? ==>
              var f := fetched.value;
              && chosen.value < |f.rows| && Recent(f, chosen.value, now)
              && (forall j :: 0 <= j < chosen.value ==> !Recent(f, j, now))
              && (forall k :: 0 <= k < |f.cols| ==> latest[f.cols[k]] == f.rows[chosen.value][k])
    ensures fetched.Some? && chosen.None? ==>
              var f := fetched.value;
              && (forall j :: 0 <= j < |f.rows| ==> !Recent(f, j, now))
              && (forall k :: 0 <= k < |f.cols| ==> latest[f.cols[k]] == JNum(0.0))
  {
    if fetched.None? {
      return map[], None;
    }
    var f := fetched.value;
    chosen := None;
    var i := |f.rows|;
    while i > 0
      invariant 0 <= i <= |f.rows|
      invariant chosen.None? ==> forall j :: i <= j < |f.rows| ==> !Recent(f, j, now)
      invariant chosen.Some? ==> i <= chosen.value < |f.rows| && Recent(f, chosen.value, now)
                                 && forall j :: i <= j < chosen.value ==> !Recent(f, j, now)
    {
      i := i - 1;
      if Recent(f, i, now) {
        chosen := Some(i);
      }
    }
    var row := if chosen.Some? then f.rows[chosen.value] else seq(|f.cols|, _ => JNum(0.0));
    latest := ZipMap(f.cols, row);
    forall k | 0 <= k < |f.cols| ensures latest[f.cols[k]] == row[k] {
      ZipMapAt(f.cols, row, k);
    }
  }

  /** `Description.request`: a DESC statistics request, only for a switch whose
      description has not been recorded yet. */
  function DescriptionRequest(recorded: map<string, SwitchDesc>, dpid: string): (out: seq<OutMessage>)
    ensures |out| <= 1
    ensures |out| == 1 <==> dpid !in recorded
    ensures |out| == 1 ==> out[0] == StatsRequest(OFPST_DESC)
  {
    if dpid in recorded then [] else [StatsRequest(OFPST_DESC)]
  }

  /** What `Description.listen` leaves behind: the recorded descriptions, the
      registry, and whether it raised. */
  datatype Listened = Listened(recorded: map<string, SwitchDesc>, net: Network, raised: bool)

  /** `Description.listen`: the description is recorded first, then handed to
      the registered switch (`update_description`); with no switch under the
      dpid the hand-over raises `AttributeError` and the registry is as before. */
  function DescriptionListen(recorded: map<string, SwitchDesc>, net: Network, dpid: string, desc: SwitchDesc)
    : (r: Listened)
    ensures r.recorded.Keys == recorded.Keys + {dpid} && r.recorded[dpid] == desc
    ensures forall d :: d in recorded && d != dpid ==> r.recorded[d] == recorded[d]
    ensures r.raised <==> GetSwitchByDpid(net, dpid).None?
    ensures r.raised ==> r.net == net
    ensures !r.raised ==> GetSwitchByDpid(r.net, dpid) == Some(GetSwitchByDpid(net, dpid).value.(description := Some(desc)))
    ensures forall d :: d != dpid ==> GetSwitchByDpid(r.net, d) == GetSwitchByDpid(net, d)
  {
    match GetSwitchByDpid(net, dpid)
    case None => Listened(recorded[dpid := desc], net, true)
    case Some(sw) =>
      var described := sw.(description := Some(desc));
      ReplaceSwitchLookup(net, described);
      Listened(recorded[dpid := desc], ReplaceSwitch(net, described), false)
  }

  /** Descriptions are asked once: after the reply for a switch is heard, no
      further request goes to it, and requests to other switches are as before. */
  lemma DescriptionAskedOnce(recorded: map<string, SwitchDesc>, net: Network, dpid: string, desc: SwitchDesc, other: string)
    requires other != dpid
    ensures DescriptionRequest(DescriptionListen(recorded, net, dpid, desc).recorded, dpid) == []
    ensures DescriptionRequest(DescriptionListen(recorded, net, dpid, desc).recorded, other)
            == DescriptionRequest(recorded, other)
  {
  }
}
