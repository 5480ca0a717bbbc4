/** The REST reshaping of napps/kytos/of_stats/stats_api.py: query bounds,
    rrdtool rows turned into one list per column, rows with no known value
    dropped, the 404 body, and the latest-statistics lists of ports and flows.
    Flask, `json.dumps` and rrdtool are not modelled: a fetch and a
    `fetch_latest` are function parameters, their shapes as rrd.dfy states. */
module StatsApi {

  import opened Wrappers
  import opened Text
  import opened Json
  import opened KytosCore
  import opened Rrd
  import opened Sorting
  import UserSpeed

  // ---------------------------------------------------------------- bounds

  /** A `start`/`end` query value: all digits becomes a number, anything else
      (the defaults `first` and `now` included) is handed on as written. */
  function CoerceBound(arg: Option<string>, default: string): (b: Bound)
    ensures b.BInt? <==> IsDigits(arg.GetOr(default))
    ensures b.BText? ==> b.s == arg.GetOr(default)
  {
    var s := arg.GetOr(default);
    if IsDigits(s) then BInt(ParseDigits(s)) else BText(s)
  }

  /** A printed natural number comes back as that number; the defaults and
      signed or empty values stay text. */
  lemma CoerceBoundCases(n: nat, s: string)
    ensures CoerceBound(Some(NatToString(n)), "first") == BInt(n)
    ensures CoerceBound(None, "first") == BText("first")
    ensures CoerceBound(None, "now") == BText("now")
    ensures |s| > 0 && s[0] == '-' ==> CoerceBound(Some(s), "now") == BText(s)
    ensures CoerceBound(Some(""), "now") == BText("")
  {
    ParseNatToString(n);
    assert !IsDigit('f') && !IsDigit('n');
  }

  // ---------------------------------------------------------------- tables

  /** `self._stats` after `_fetch`: one list per column, in column order, and
      the `timestamps` list. */
  datatype Table = Table(names: seq<string>, timestamps: seq<int>, columns: seq<seq<Json>>)

  /** Every column list is as long as the timestamps list. */
  predicate WellShaped(t: Table) {
    |t.columns| == |t.names| && forall c :: 0 <= c < |t.columns| ==> |t.columns[c]| == |t.timestamps|
  }

  /** A row of a table: its timestamp and its value in each column. */
  datatype Row = Row(timestamp: int, cells: seq<Json>)

  function RowAt(t: Table, i: nat): (r: Row)
    requires WellShaped(t) && i < |t.timestamps|
    ensures |r.cells| == |t.names|
  {
    Row(t.timestamps[i], seq(|t.columns|, c requires 0 <= c < |t.columns| => t.columns[c][i]))
  }

  function Rows(t: Table): (rows: seq<Row>)
    requires WellShaped(t)
    ensures |rows| == |t.timestamps|
    ensures forall i :: 0 <= i < |rows| ==> rows[i] == RowAt(t, i)
  {
    seq(|t.timestamps|, i requires 0 <= i < |t.timestamps| => RowAt(t, i))
  }

  /** A row with no known value. */
  predicate NullRow(r: Row) {
    forall k :: 0 <= k < |r.cells| ==> r.cells[k] == JNull
  }

  /** The rows worth keeping, in their order. */
  function FilterRows(rows: seq<Row>): (r: seq<Row>)
    ensures |r| <= |rows|
  {
    if rows == [] then []
    else (if NullRow(rows[0]) then [] else [rows[0]]) + FilterRows(rows[1..])
  }

  lemma {:induction false} FilterRowsAppend(a: seq<Row>, b: seq<Row>)
    ensures FilterRows(a + b) == FilterRows(a) + FilterRows(b)
  {
    if a == [] {
      assert a + b == b;
    } else {
      assert (a + b)[1..] == a[1..] + b;
      FilterRowsAppend(a[1..], b);
    }
  }

  /** A row survives exactly when it has a known value. */
  lemma {:induction false} FilterRowsMembers(rows: seq<Row>)
    ensures forall r :: r in FilterRows(rows) <==> r in rows && !NullRow(r)
  {
    if rows != [] {
      FilterRowsMembers(rows[1..]);
      assert rows == [rows[0]] + rows[1..];
    }
  }

  lemma {:induction false} FilterRowsIdempotent(rows: seq<Row>)
    ensures FilterRows(FilterRows(rows)) == FilterRows(rows)
  {
    if rows != [] {
      FilterRowsIdempotent(rows[1..]);
      var head := if NullRow(rows[0]) then [] else [rows[0]];
      FilterRowsAppend(head, FilterRows(rows[1..]));
      if !NullRow(rows[0]) {
        assert FilterRows(head) == head by {
          assert head[1..] == [];
        }
      }
    }
  }

  /** `_fetch`'s loop: value `i` of column `c` is row `i`'s value at position
      `c`, and the timestamps are rrdtool's. */
  function Transpose(f: Fetched): (t: Table)
    requires Shaped(f)
    ensures WellShaped(t) && t.names == f.cols && t.timestamps == f.timestamps
    ensures forall c, i :: 0 <= c < |f.cols| && 0 <= i < |f.rows| ==> t.columns[c][i] == f.rows[i][c]
  {
    Table(f.cols, f.timestamps,
          seq(|f.cols|, c requires 0 <= c < |f.cols| =>
            seq(|f.rows|, i requires 0 <= i < |f.rows| => f.rows[i][c])))
  }

  /** The rows rrdtool returned, paired with their timestamps. */
  function FetchedRows(f: Fetched): (rows: seq<Row>)
    requires Shaped(f)
    ensures |rows| == |f.rows|
  {
    seq(|f.rows|, i requires 0 <= i < |f.rows| => Row(f.timestamps[i], f.rows[i]))
  }

  /** Reading the transposed lists row by row gives back exactly what rrdtool
      returned. */
  lemma TransposeRows(f: Fetched)
    requires Shaped(f)
    ensures Rows(Transpose(f)) == FetchedRows(f)
  {
    var t := Transpose(f);
    forall i | 0 <= i < |f.rows| ensures RowAt(t, i) == Row(f.timestamps[i], f.rows[i]) {
      assert RowAt(t, i).cells == f.rows[i];
    }
  }

  // ------------------------------------------------------------ _remove_null

  /** Where the inner loop of `_remove_null` leaves `col` for row `i`: at the
      first column from `c` on with a known value, or at the last column. */
  function StopColumn(t: Table, i: nat, c: nat): (stop: nat)
    requires WellShaped(t) && i < |t.timestamps| && c < |t.names|
    ensures c <= stop < |t.names|
    ensures t.columns[stop][i] == JNull ==> forall k :: c <= k < |t.names| ==> t.columns[k][i] == JNull
    decreases |t.names| - c
  {
    if c == |t.names| - 1 || t.columns[c][i] != JNull then c else StopColumn(t, i, c + 1)
  }

  /** The test after the inner loop: the value of the column it stopped at. */
  predicate KeepsRow(t: Table, i: nat)
    requires WellShaped(t) && i < |t.timestamps| && |t.names| > 0
  {
    t.columns[StopColumn(t, i, 0)][i] != JNull
  }

  /** Testing the column left behind by the loop is testing whether the row
      has any known value. */
  lemma KeepsRowIffKnown(t: Table, i: nat)
    requires WellShaped(t) && i < |t.timestamps| && |t.names| > 0
    ensures KeepsRow(t, i) <==> !NullRow(RowAt(t, i))
  {
    var stop := StopColumn(t, i, 0);
    if KeepsRow(t, i) {
      assert RowAt(t, i).cells[stop] != JNull;
    }
  }

  /** `lst.pop(i)` on every list, the timestamps included. */
  function DropRow(t: Table, i: nat): (r: Table)
    requires WellShaped(t) && i < |t.timestamps|
    ensures WellShaped(r) && r.names == t.names && |r.timestamps| == |t.timestamps| - 1
  {
    Table(t.names, t.timestamps[..i] + t.timestamps[i + 1..],
          seq(|t.columns|, c requires 0 <= c < |t.columns| => t.columns[c][..i] + t.columns[c][i + 1..]))
  }

  lemma DropRowRows(t: Table, i: nat)
    requires WellShaped(t) && i < |t.timestamps|
    ensures Rows(DropRow(t, i)) == Rows(t)[..i] + Rows(t)[i + 1..]
  {
    var d := DropRow(t, i);
    var expected := Rows(t)[..i] + Rows(t)[i + 1..];
    forall j | 0 <= j < |d.timestamps| ensures RowAt(d, j) == expected[j] {
      var src := if j < i then j else j + 1;
      assert expected[j] == RowAt(t, src);
      assert RowAt(d, j).cells == RowAt(t, src).cells;
    }
  }

  /** The backward loop of `_remove_null` with rows `i..` already settled:
      row `i - 1` is examined next and popped when it has no known value. */
  function RemoveFrom(t: Table, i: nat): (r: Table)
    requires WellShaped(t) && i <= |t.timestamps| && (i == 0 || |t.names| > 0)
    ensures WellShaped(r) && r.names == t.names
    decreases i
  {
    if i == 0 then t
    else
      var t' := if KeepsRow(t, i - 1) then t else DropRow(t, i - 1);
      RemoveFrom(t', i - 1)
  }

  lemma {:induction false} RemoveFromRows(t: Table, i: nat)
    requires WellShaped(t) && i <= |t.timestamps| && (i == 0 || |t.names| > 0)
    ensures Rows(RemoveFrom(t, i)) == FilterRows(Rows(t)[..i]) + Rows(t)[i..]
    decreases i
  {
    var rows := Rows(t);
    if i == 0 {
      assert rows[..0] == [];
    } else {
      var pre, row := rows[..i - 1], rows[i - 1];
      assert rows[..i] == pre + [row];
      FilterRowsAppend(pre, [row]);
      assert FilterRows([row]) == (if NullRow(row) then [] else [row]) by {
        assert [row][1..] == [];
      }
      KeepsRowIffKnown(t, i - 1);
      if KeepsRow(t, i - 1) {
        RemoveFromKeep(t, i);
      } else {
        RemoveFromDrop(t, i);
      }
    }
  }

  /** The step of RemoveFromRows that keeps row i - 1. */
  lemma {:induction false} RemoveFromKeep(t: Table, i: nat)
    requires WellShaped(t) && 0 < i <= |t.timestamps| && |t.names| > 0 && KeepsRow(t, i - 1)
    ensures Rows(RemoveFrom(t, i)) == FilterRows(Rows(t)[..i - 1]) + Rows(t)[i - 1..]
    decreases i, 0
  {
    assert RemoveFrom(t, i) == RemoveFrom(t, i - 1);
    RemoveFromRows(t, i - 1);
  }

  /** The step of RemoveFromRows that pops row i - 1. */
  lemma {:induction false} RemoveFromDrop(t: Table, i: nat)
    requires WellShaped(t) && 0 < i <= |t.timestamps| && |t.names| > 0 && !KeepsRow(t, i - 1)
    ensures Rows(RemoveFrom(t, i)) == FilterRows(Rows(t)[..i - 1]) + Rows(t)[i..]
    decreases i, 0
  {
    var rows := Rows(t);
    var d := DropRow(t, i - 1);
    assert RemoveFrom(t, i) == RemoveFrom(d, i - 1);
    DropRowRows(t, i - 1);
    RemoveFromRows(d, i - 1);
    var drows := Rows(d);
    assert drows[..i - 1] == rows[..i - 1];
    assert drows[i - 1..] == rows[i..];
  }

  /** `_remove_null`'s `UnboundLocalError`: with no data column the inner
      loop never binds `col`. */
  datatype UnboundLocalError = UnboundLocalError

  /** `_remove_null`: rows with no known value are popped from every list. */
  function RemoveNull(t: Table): (r: Result<Table, UnboundLocalError>)
    requires WellShaped(t)
    ensures r.Failure? <==> |t.names| == 0 && |t.timestamps| > 0
    ensures r.Success? ==> WellShaped(r.value) && r.value.names == t.names
  {
    if |t.names| == 0 && |t.timestamps| > 0 then Failure(UnboundLocalError)
    else Success(RemoveFrom(t, |t.timestamps|))
  }

  /** `_remove_null` keeps exactly the rows with a known value, in order. */
  lemma RemoveNullFilters(t: Table)
    requires WellShaped(t)
    ensures RemoveNull(t).Success? ==> Rows(RemoveNull(t).value) == FilterRows(Rows(t))
  {
    if RemoveNull(t).Success? {
      RemoveFromRows(t, |t.timestamps|);
      assert Rows(t)[..|t.timestamps|] == Rows(t);
    }
  }

  /** A table is determined by its column names and its rows. */
  lemma TableOfRows(a: Table, b: Table)
    requires WellShaped(a) && WellShaped(b) && a.names == b.names && Rows(a) == Rows(b)
    ensures a == b
  {
    forall i | 0 <= i < |a.timestamps| ensures a.timestamps[i] == b.timestamps[i] {
      assert Rows(a)[i].timestamp == Rows(b)[i].timestamp;
    }
    forall c | 0 <= c < |a.columns| ensures a.columns[c] == b.columns[c] {
      forall i | 0 <= i < |a.timestamps| ensures a.columns[c][i] == b.columns[c][i] {
        assert Rows(a)[i].cells[c] == Rows(b)[i].cells[c];
      }
    }
  }

  /** Removing null rows twice removes nothing more. */
  lemma RemoveNullIdempotent(t: Table)
    requires WellShaped(t)
    requires RemoveNull(t).Success?
    ensures RemoveNull(RemoveNull(t).value) == RemoveNull(t)
  {
    var once := RemoveNull(t).value;
    RemoveNullFilters(t);
    assert |once.names| > 0 || |once.timestamps| == 0 by {
      if |t.names| == 0 {
        assert once == t;
      }
    }
    RemoveNullFilters(once);
    FilterRowsIdempotent(Rows(t));
    TableOfRows(RemoveNull(once).value, once);
  }

  /** `_fetch(index, start, end, n_points)` on what rrdtool returned. */
  function FetchStats(f: Fetched): (r: Result<Table, UnboundLocalError>)
    requires Shaped(f) && "timestamps" !in f.cols
    ensures r.Failure? <==> |f.cols| == 0 && |f.rows| > 0
    ensures r.Success? ==> WellShaped(r.value) && r.value.names == f.cols
  {
    RemoveNull(Transpose(f))
  }

  /** The lists `_fetch` answers hold, row by row, exactly the rows rrdtool
      returned that have a known value, in rrdtool's order. */
  lemma FetchStatsRows(f: Fetched)
    requires Shaped(f) && "timestamps" !in f.cols
    ensures FetchStats(f).Success? ==> Rows(FetchStats(f).value) == FilterRows(FetchedRows(f))
  {
    RemoveNullFilters(Transpose(f));
    TransposeRows(f);
  }

  // ----------------------------------------------------------- get_points

  /** `_get_rrd_not_found_error(e)`: a JSON:API error object with status 404. */
  function NotFoundError(detail: string): (body: Json)
    ensures body.JObj? && body.fields.Keys == {"errors"}
    ensures var e := body.fields["errors"];
      && e.JObj? && e.fields.Keys == {"status", "title", "detail"}
      && e.fields["status"] == JStr("404") && e.fields["title"] == JStr("Database not found.")
      && e.fields["detail"] == JStr(detail)
  {
    JObj(map["errors" := JObj(map["status" := JStr("404"),
                                  "title" := JStr("Database not found."),
                                  "detail" := JStr(detail)])])
  }

  /** The `FileNotFoundError` message of `fetch`; `index` is the tuple's repr. */
  function NotFoundMessage(app: string, index: string): string {
    "RRD for app " + app + " and index " + index + " not found"
  }

  /** What `get_points` answers: the statistics, or the 404 body. */
  datatype Points = Data(stats: Table) | Missing(body: Json)

  /** What escapes `get_points`. */
  datatype PointsError = Unbound | Uncaught(error: RrdError)

  /** The point count `get_points` asks for unless told otherwise; both
      statistics APIs call it with this default. */
  const DEFAULT_POINTS: int := 30

  /** `get_points(index, n_points)`: the query's bounds and the point count go
      to the fetch; a missing database answers the 404 body, any other failure
      escapes. `fetch` is the family's `fetch(index, start, end, n_points)`
      and `indexRepr` is `str(index)`. */
  function GetPoints(args: map<string, string>, nPoints: int,
                     fetch: (Bound, Bound, Option<int>) -> Result<Fetched, RrdError>, indexRepr: string)
    : (r: Result<Points, PointsError>)
    requires forall a, b, n :: fetch(a, b, n).Success? ==> Shaped(fetch(a, b, n).value) && "timestamps" !in fetch(a, b, n).value.cols
    ensures var fetched := fetch(CoerceBound(if "start" in args then Some(args["start"]) else None, "first"),
                                 CoerceBound(if "end" in args then Some(args["end"]) else None, "now"),
                                 Some(nPoints));
      && (fetched.Failure? && fetched.error.FileNotFound? ==>
            r == Success(Missing(NotFoundError(NotFoundMessage(fetched.error.app, indexRepr)))))
      && (fetched.Failure? && !fetched.error.FileNotFound? ==> r == Failure(Uncaught(fetched.error)))
      && (fetched.Success? ==>
            (r.Success? <==> FetchStats(fetched.value).Success?)
            && (r.Success? ==> r.value == Data(FetchStats(fetched.value).value)))
  {
    var start := CoerceBound(if "start" in args then Some(args["start"]) else None, "first");
    var end := CoerceBound(if "end" in args then Some(args["end"]) else None, "now");
    match fetch(start, end, Some(nPoints))
    case Failure(FileNotFound(app, _)) => Success(Missing(NotFoundError(NotFoundMessage(app, indexRepr))))
    case Failure(e) => Failure(Uncaught(e))
    case Success(f) =>
      match FetchStats(f)
      case Failure(_) => Failure(Unbound)
      case Success(t) => Success(Data(t))
  }

  /** With the default point count, integer bounds at least 30 seconds apart
      ask rrdtool for a resolution of a thirtieth of the span; closer bounds
      keep the database's own resolution, and the count never divides by zero. */
  lemma DefaultPointsResolution(start: int, end: int)
    ensures var r := ResolutionArgs(BInt(start), BInt(end), Some(DEFAULT_POINTS));
      && r.Success?
      && (end - start >= DEFAULT_POINTS ==> r.value == ["-a", "-r", NatToString((end - start) / DEFAULT_POINTS) + "s"])
      && (end - start < DEFAULT_POINTS ==> r.value == [])
  {
    var q := FloorDiv(end - start, DEFAULT_POINTS);
    assert q == (end - start) / DEFAULT_POINTS;
  }

  // ------------------------------------------------------------ get_latest

  /** `sorted(sw.interfaces)`: the interfaces dict is keyed by port number. */
  function PortOrder(iface: Interface): seq<int> {
    [iface.portNumber as int]
  }

  /** `PortStatsAPI._get_speed`: the user's speed for the port, else the speed
      the interface derives from its OpenFlow features (`ofSpeed`). */
  function PortSpeed(speeds: map<string, Json>, dpid: string, iface: Interface, ofSpeed: Option<real>)
    : (r: Result<Option<real>, UserSpeed.SpeedError>)
    ensures UserSpeed.GetSpeed(speeds, dpid, UserSpeed.PortNum(iface.portNumber)).Failure? ==> r.Failure?
    ensures UserSpeed.GetSpeed(speeds, dpid, UserSpeed.PortNum(iface.portNumber)) == Success(None) ==> r == Success(ofSpeed)
    ensures UserSpeed.GetSpeed(speeds, dpid, UserSpeed.PortNum(iface.portNumber)).Success?
            && UserSpeed.GetSpeed(speeds, dpid, UserSpeed.PortNum(iface.portNumber)).value.Some? ==>
              r == UserSpeed.GetSpeed(speeds, dpid, UserSpeed.PortNum(iface.portNumber))
  {
    match UserSpeed.GetSpeed(speeds, dpid, UserSpeed.PortNum(iface.portNumber))
    case Failure(e) => Failure(e)
    case Success(None) => Success(ofSpeed)
    case Success(Some(v)) => Success(Some(v))
  }

  function SpeedJson(speed: Option<real>): Json {
    match speed
    case None => JNull
    case Some(v) => JNum(v)
  }

  /** One entry of the port list before utilization is added: the latest
      values, then `port`, `name`, `mac` and `speed` written over them. */
  function PortEntry(latest: map<string, Json>, iface: Interface, speed: Option<real>): (row: map<string, Json>)
    ensures row.Keys == latest.Keys + {"port", "name", "mac", "speed"}
    ensures row["port"] == JNum(iface.portNumber as real) && row["name"] == JStr(iface.name)
    ensures row["mac"] == JStr(iface.address) && row["speed"] == SpeedJson(speed)
    ensures forall k :: k in latest && k !in {"port", "name", "mac", "speed"} ==> row[k] == latest[k]
  {
    latest["port" := JNum(iface.portNumber as real)]["name" := JStr(iface.name)]
          ["mac" := JStr(iface.address)]["speed" := SpeedJson(speed)]
  }

  /** What escapes `_get_latest_stats` for one interface: the speed lookup
      raised, or `_add_utilization` did. */
  datatype EntryError =
    | SpeedFailed(cause: UserSpeed.SpeedError)
    | UtilKeyError(key: string)   // the bytes column is not in the row
    | UtilTypeError               // the bytes value is not a number (a `None`)
    | UtilZeroDivision            // the speed is zero

  /** The value as a Python number, if it is one: a JSON boolean is an int. */
  function NumberOf(v: Json): (n: Option<real>)
    ensures n.Some? <==> v.JNum? || v.JBool?
    ensures v.JNum? ==> n == Some(v.n)
  {
    match v
    case JNum(x) => Some(x)
    case JBool(b) => Some(if b then 1.0 else 0.0)
    case _ => None
  }

  /** `row[bytes_col] / (speed / 8)` for a known speed: the column is read
      first, then the operand types are checked, then the divisor. */
  function UtilValue(row: map<string, Json>, bytesCol: string, speed: real): (r: Result<Json, EntryError>)
    ensures bytesCol !in row ==> r == Failure(UtilKeyError(bytesCol))
    ensures bytesCol in row && NumberOf(row[bytesCol]).None? ==> r == Failure(UtilTypeError)
    ensures bytesCol in row && NumberOf(row[bytesCol]).Some? && speed == 0.0 ==> r == Failure(UtilZeroDivision)
    ensures r.Success? <==> bytesCol in row && NumberOf(row[bytesCol]).Some? && speed != 0.0
    ensures r.Success? ==> r.value.JNum? && r.value.n * speed == 8.0 * NumberOf(row[bytesCol]).value
  {
    if bytesCol !in row then Failure(UtilKeyError(bytesCol))
    else match NumberOf(row[bytesCol])
      case None => Failure(UtilTypeError)
      case Some(bytes) =>
        if speed == 0.0 then Failure(UtilZeroDivision) else Success(JNum(bytes / (speed / 8.0)))
  }

  /** A bytes column `_add_utilization` can divide by a non-zero speed. */
  predicate Measured(row: map<string, Json>, bytesCol: string) {
    bytesCol in row && NumberOf(row[bytesCol]).Some?
  }

  /** `_add_utilization(row, iface)`, where `speed` is the `row['speed']` just
      written: no speed gives null `rx_util` and `tx_util`; a known one
      divides `rx_bytes`, then `tx_bytes`, by the speed in bytes per second,
      and the first division that raises ends the entry. */
  function AddUtilization(row: map<string, Json>, speed: Option<real>): (r: Result<map<string, Json>, EntryError>)
    ensures r.Success? <==> speed.None? || (speed.value != 0.0 && Measured(row, "rx_bytes") && Measured(row, "tx_bytes"))
    ensures speed.Some? && "rx_bytes" !in row ==> r == Failure(UtilKeyError("rx_bytes"))
    ensures speed.Some? && "rx_bytes" in row && !Measured(row, "rx_bytes") ==> r == Failure(UtilTypeError)
    ensures speed == Some(0.0) && Measured(row, "rx_bytes") ==> r == Failure(UtilZeroDivision)
    ensures speed.Some? && speed.value != 0.0 && Measured(row, "rx_bytes") && "tx_bytes" !in row ==>
              r == Failure(UtilKeyError("tx_bytes"))
    ensures speed.Some? && speed.value != 0.0 && Measured(row, "rx_bytes") && "tx_bytes" in row ==>
              Measured(row, "tx_bytes") || r == Failure(UtilTypeError)
    ensures r.Success? ==> r.value.Keys == row.Keys + {"rx_util", "tx_util"}
    ensures r.Success? ==> forall k :: k in row && k !in {"rx_util", "tx_util"} ==> r.value[k] == row[k]
    ensures r.Success? && speed.None? ==> r.value["rx_util"] == JNull && r.value["tx_util"] == JNull
    ensures r.Success? && speed.Some? ==>
              && r.value["rx_util"].JNum? && r.value["rx_util"].n * speed.value == 8.0 * NumberOf(row["rx_bytes"]).value
              && r.value["tx_util"].JNum? && r.value["tx_util"].n * speed.value == 8.0 * NumberOf(row["tx_bytes"]).value
  {
    match speed
    case None => Success(row["rx_util" := JNull]["tx_util" := JNull])
    case Some(s) =>
      match UtilValue(row, "rx_bytes", s)
      case Failure(e) => Failure(e)
      case Success(rx) =>
        match UtilValue(row["rx_util" := rx], "tx_bytes", s)
        case Failure(e) => Failure(e)
        case Success(tx) => Success(row["rx_util" := rx]["tx_util" := tx])
  }

  /** The entry of one interface: its latest sample with port, name, MAC and
      speed written over it, then its utilization; or what the speed lookup
      or the utilization raises. */
  function EntryFor(iface: Interface, speeds: map<string, Json>, dpid: string,
                    fetchLatest: nat -> map<string, Json>, ofSpeed: Interface -> Option<real>)
    : (r: Result<map<string, Json>, EntryError>)
    ensures PortSpeed(speeds, dpid, iface, ofSpeed(iface)).Failure? ==>
              r == Failure(SpeedFailed(PortSpeed(speeds, dpid, iface, ofSpeed(iface)).error))
    ensures r.Success? <==>
              var speed := PortSpeed(speeds, dpid, iface, ofSpeed(iface));
              var latest := fetchLatest(iface.portNumber);
              speed.Success? &&
              (speed.value.None? || (speed.value.value != 0.0 && Measured(latest, "rx_bytes") && Measured(latest, "tx_bytes")))
    ensures r.Success? ==> r.value.Keys == fetchLatest(iface.portNumber).Keys + {"port", "name", "mac", "speed", "rx_util", "tx_util"}
    ensures r.Success? ==> r.value["port"] == JNum(iface.portNumber as real)
  {
    match PortSpeed(speeds, dpid, iface, ofSpeed(iface))
    case Failure(e) => Failure(SpeedFailed(e))
    case Success(speed) =>
      var latest := fetchLatest(iface.portNumber);
      var row := PortEntry(latest, iface, speed);
      assert Measured(row, "rx_bytes") == Measured(latest, "rx_bytes");
      assert Measured(row, "tx_bytes") == Measured(latest, "tx_bytes");
      AddUtilization(row, speed)
  }

  /** A port whose speed is known but which has no database yet (`fetch_latest`
      answers `{}`) makes the whole list raise `KeyError: 'rx_bytes'`. */
  lemma MissingDatabaseRaises(iface: Interface, speeds: map<string, Json>, dpid: string,
                              fetchLatest: nat -> map<string, Json>, ofSpeed: Interface -> Option<real>, s: real)
    requires PortSpeed(speeds, dpid, iface, ofSpeed(iface)) == Success(Some(s))
    requires fetchLatest(iface.portNumber) == map[]
    ensures EntryFor(iface, speeds, dpid, fetchLatest, ofSpeed) == Failure(UtilKeyError("rx_bytes"))
  {
    assert "rx_bytes" !in PortEntry(map[], iface, Some(s));
  }

  /** A database with no recent sample reads zero in every column, so a port
      with a non-zero speed shows zero utilization. */
  lemma ZeroSampleZeroUtilization(iface: Interface, speeds: map<string, Json>, dpid: string,
                                  fetchLatest: nat -> map<string, Json>, ofSpeed: Interface -> Option<real>, s: real)
    requires PortSpeed(speeds, dpid, iface, ofSpeed(iface)) == Success(Some(s)) && s != 0.0
    requires var latest := fetchLatest(iface.portNumber);
      "rx_bytes" in latest && latest["rx_bytes"] == JNum(0.0) && "tx_bytes" in latest && latest["tx_bytes"] == JNum(0.0)
    ensures var r := EntryFor(iface, speeds, dpid, fetchLatest, ofSpeed);
      r.Success? && r.value["rx_util"] == JNum(0.0) && r.value["tx_util"] == JNum(0.0)
  {
    var row := PortEntry(fetchLatest(iface.portNumber), iface, Some(s));
    assert row["rx_bytes"] == JNum(0.0) && row["tx_bytes"] == JNum(0.0);
  }

  /** The entries of `ifaces` in order; the first interface whose entry raises
      ends the list. */
  function PortEntries(ifaces: seq<Interface>, speeds: map<string, Json>, dpid: string,
                       fetchLatest: nat -> map<string, Json>, ofSpeed: Interface -> Option<real>)
    : (r: Result<seq<map<string, Json>>, EntryError>)
    ensures r.Success? <==> forall k :: 0 <= k < |ifaces| ==> EntryFor(ifaces[k], speeds, dpid, fetchLatest, ofSpeed).Success?
    ensures r.Success? ==> |r.value| == |ifaces|
    ensures r.Failure? ==>
              exists k :: 0 <= k < |ifaces|
                && EntryFor(ifaces[k], speeds, dpid, fetchLatest, ofSpeed).Failure?
                && r.error == EntryFor(ifaces[k], speeds, dpid, fetchLatest, ofSpeed).error
                && forall j :: 0 <= j < k ==> EntryFor(ifaces[j], speeds, dpid, fetchLatest, ofSpeed).Success?
  {
    Collect(ifaces, iface => EntryFor(iface, speeds, dpid, fetchLatest, ofSpeed))
  }

  /** Entry k of a successful list is the entry of interface k. */
  lemma PortEntriesAt(ifaces: seq<Interface>, speeds: map<string, Json>, dpid: string,
                      fetchLatest: nat -> map<string, Json>, ofSpeed: Interface -> Option<real>)
    requires PortEntries(ifaces, speeds, dpid, fetchLatest, ofSpeed).Success?
    ensures var entries := PortEntries(ifaces, speeds, dpid, fetchLatest, ofSpeed).value;
      forall k :: 0 <= k < |ifaces| ==> entries[k] == EntryFor(ifaces[k], speeds, dpid, fetchLatest, ofSpeed).value
  {
    CollectAt(ifaces, iface => EntryFor(iface, speeds, dpid, fetchLatest, ofSpeed));
  }

  /** Interfaces sorted by port number give entries whose ports ascend. */
  lemma SortedEntries(ifaces: seq<Interface>, speeds: map<string, Json>, dpid: string,
                      fetchLatest: nat -> map<string, Json>, ofSpeed: Interface -> Option<real>)
    requires SortedBy(ifaces, PortOrder)
    requires PortEntries(ifaces, speeds, dpid, fetchLatest, ofSpeed).Success?
    ensures var entries := PortEntries(ifaces, speeds, dpid, fetchLatest, ofSpeed).value;
      && (forall k :: 0 <= k < |ifaces| ==> "port" in entries[k] && entries[k]["port"] == JNum(ifaces[k].portNumber as real))
      && (forall k, l :: 0 <= k < l < |ifaces| ==> entries[k]["port"].n <= entries[l]["port"].n)
      && (forall iface :: iface in ifaces ==>
            exists k :: 0 <= k < |entries| && entries[k]["port"] == JNum(iface.portNumber as real))
  {
    var entries := PortEntries(ifaces, speeds, dpid, fetchLatest, ofSpeed).value;
    PortEntriesAt(ifaces, speeds, dpid, fetchLatest, ofSpeed);
    forall k | 0 <= k < |ifaces| ensures "port" in entries[k] && entries[k]["port"] == JNum(ifaces[k].portNumber as real) {
      assert EntryFor(ifaces[k], speeds, dpid, fetchLatest, ofSpeed).Success?;
    }
    forall k, l | 0 <= k < l < |ifaces| ensures entries[k]["port"].n <= entries[l]["port"].n {
      LexSingle(ifaces[k].portNumber, ifaces[l].portNumber);
    }
    forall iface | iface in ifaces
      ensures exists k :: 0 <= k < |entries| && entries[k]["port"] == JNum(iface.portNumber as real)
    {
      var k :| 0 <= k < |ifaces| && ifaces[k] == iface;
      assert entries[k]["port"] == JNum(ifaces[k].portNumber as real);
    }
  }

  /** `PortStatsAPI.get_list`: nothing for an unknown switch, otherwise one
      entry per interface in port-number order, or what the first failing
      entry raises. */
  function PortsLatest(sw: Option<Switch>, speeds: map<string, Json>,
                       fetchLatest: nat -> map<string, Json>, ofSpeed: Interface -> Option<real>)
    : (r: Result<seq<map<string, Json>>, EntryError>)
    ensures sw.None? ==> r == Success([])
    ensures sw.Some? ==> (r.Success? <==> forall iface :: iface in sw.value.interfaces ==>
                                            EntryFor(iface, speeds, sw.value.dpid, fetchLatest, ofSpeed).Success?)
    ensures sw.Some? ==> r == PortEntries(SortBy(sw.value.interfaces, PortOrder), speeds, sw.value.dpid, fetchLatest, ofSpeed)
  {
    match sw
    case None => Success([])
    case Some(s) =>
      var sorted := SortBy(s.interfaces, PortOrder);
      assert forall iface :: iface in sorted <==> iface in s.interfaces by {
        forall iface ensures iface in sorted <==> iface in s.interfaces {
          SortByMembers(s.interfaces, PortOrder, iface);
        }
      }
      PortEntries(sorted, speeds, s.dpid, fetchLatest, ofSpeed)
  }

  /** The port list has one entry per interface of the switch, with ports in
      ascending order. */
  lemma PortsLatestOrdered(sw: Switch, speeds: map<string, Json>,
                           fetchLatest: nat -> map<string, Json>, ofSpeed: Interface -> Option<real>)
    requires PortsLatest(Some(sw), speeds, fetchLatest, ofSpeed).Success?
    ensures var entries := PortsLatest(Some(sw), speeds, fetchLatest, ofSpeed).value;
      && |entries| == |sw.interfaces|
      && (forall k :: 0 <= k < |entries| ==> "port" in entries[k] && entries[k]["port"].JNum?)
      && (forall k, l :: 0 <= k < l < |entries| ==> entries[k]["port"].n <= entries[l]["port"].n)
      && (forall iface :: iface in sw.interfaces ==>
            exists k :: 0 <= k < |entries| && entries[k]["port"] == JNum(iface.portNumber as real))
  {
    var sorted := SortBy(sw.interfaces, PortOrder);
    var entries := PortEntries(sorted, speeds, sw.dpid, fetchLatest, ofSpeed).value;
    assert entries == PortsLatest(Some(sw), speeds, fetchLatest, ofSpeed).value;
    SortedEntries(sorted, speeds, sw.dpid, fetchLatest, ofSpeed);
    forall iface | iface in sw.interfaces ensures iface in sorted {
      SortByMembers(sw.interfaces, PortOrder, iface);
    }
  }

  /** A flow as the flow list reads it: its id and `flow.as_dict()['flow']`. */
  datatype Flow = Flow(id: string, fields: map<string, Json>)

  /** `sorted(sw.flows, key=lambda f: f.id)`. */
  function FlowOrder(flow: Flow): seq<int> {
    CodePoints(flow.id)
  }

  /** `dct.pop('self.id')` on a dict without that key. */
  datatype KeyError = KeyError(key: string)

  /** One entry of the flow list: the flow's dict with `self.id` renamed `id`
      and `stats` holding the latest byte and packet counts (0 when the
      database has none). */
  function FlowEntry(latest: map<string, Json>, dct: map<string, Json>): (r: Result<map<string, Json>, KeyError>)
    ensures r.Failure? <==> "self.id" !in dct
    ensures r.Failure? ==> r.error == KeyError("self.id")
    ensures r.Success? ==>
              && r.value.Keys == dct.Keys - {"self.id"} + {"id", "stats"}
              && r.value["id"] == dct["self.id"]
              && r.value["stats"] == JObj(map["Bps" := GetOr(latest, "byte_count", JNum(0.0)),
                                              "pps" := GetOr(latest, "packet_count", JNum(0.0))])
              && forall k :: k in dct && k !in {"self.id", "id", "stats"} ==> r.value[k] == dct[k]
  {
    if "self.id" !in dct then Failure(KeyError("self.id"))
    else
      var stats := map["Bps" := GetOr(latest, "byte_count", JNum(0.0)),
                       "pps" := GetOr(latest, "packet_count", JNum(0.0))];
      var id := dct["self.id"];
      Success((dct - {"self.id"})["id" := id]["stats" := JObj(stats)])
  }

  function FlowEntries(flows: seq<Flow>, fetchLatest: string -> map<string, Json>)
    : (r: Result<seq<map<string, Json>>, KeyError>)
    ensures r.Success? <==> forall k :: 0 <= k < |flows| ==> "self.id" in flows[k].fields
    ensures r.Success? ==> |r.value| == |flows| && forall k :: 0 <= k < |flows| ==>
              r.value[k] == FlowEntry(fetchLatest(flows[k].id), flows[k].fields).value
    decreases |flows|
  {
    if flows == [] then Success([])
    else
      match FlowEntry(fetchLatest(flows[0].id), flows[0].fields)
      case Failure(e) => Failure(e)
      case Success(entry) =>
        match FlowEntries(flows[1..], fetchLatest)
        case Failure(e) => Failure(e)
        case Success(rest) =>
          assert forall k :: 1 <= k < |flows| ==> flows[k] == flows[1..][k - 1];
          Success([entry] + rest)
  }

  /** `FlowStatsAPI.get_list`: nothing for an unknown switch, otherwise one
      entry per flow in flow-id order. `flowsOf` is the switch's `flows`. */
  function FlowsLatest(sw: Option<Switch>, flowsOf: Switch -> seq<Flow>, fetchLatest: string -> map<string, Json>)
    : (r: Result<seq<map<string, Json>>, KeyError>)
    ensures sw.None? ==> r == Success([])
    ensures sw.Some? ==> r == FlowEntries(SortBy(flowsOf(sw.value), FlowOrder), fetchLatest)
  {
    match sw
    case None => Success([])
    case Some(s) => FlowEntries(SortBy(flowsOf(s), FlowOrder), fetchLatest)
  }

  /** The flow list has one entry per flow of the switch, ids in ascending
      order, each carrying its own flow's counters. */
  lemma FlowsLatestOrdered(sw: Switch, flowsOf: Switch -> seq<Flow>, fetchLatest: string -> map<string, Json>)
    requires FlowsLatest(Some(sw), flowsOf, fetchLatest).Success?
    ensures var sorted := SortBy(flowsOf(sw), FlowOrder);
      var entries := FlowsLatest(Some(sw), flowsOf, fetchLatest).value;
      && |entries| == |flowsOf(sw)|
      && (forall k, l :: 0 <= k < l < |sorted| ==> LexLe(CodePoints(sorted[k].id), CodePoints(sorted[l].id)))
      && (forall k :: 0 <= k < |entries| ==>
            entries[k]["id"] == sorted[k].fields["self.id"]
            && entries[k]["stats"].fields["Bps"] == GetOr(fetchLatest(sorted[k].id), "byte_count", JNum(0.0)))
  {
  }
}
