# Kytos OpenFlow applications, modelled in Dafny

This project models the core of the Kytos SDN controller's network
applications. Each part is written as immutable datatypes and pure functions,
and properties about them are proved.

- **The OpenFlow connection engine** (`of_core`). It covers:
  - framing the byte stream of a switch connection into OpenFlow frames by their header's length field;
  - negotiating the protocol version from the switch's hello (bitmap first, then header version);
  - the handshake state machine: NEW, then SETUP while the features request is being sent and its reply awaited, then ESTABLISHED, with FAILED and FINISHED as dead ends;
  - holding back early frames during the handshake;
  - answering echo requests;
  - the per-version adapters for OpenFlow 1.0 and 1.3 that turn a features reply into calls on the switch registry.
- **The statistics application** (`of_stats`). It covers:
  - user-configured link speeds;
  - the round-robin database paths and the `rrdtool` argument strings;
  - the fetch window and resolution;
  - latest-sample selection;
  - the once-per-switch description request;
  - the REST reshaping of fetched rows: transposition, removal of null rows, the 404 body, and the sorted port and flow lists, with each port's utilization.
- **Topology and discovery** (`of_topology`, `of_lldp`):
  - learning which host sits behind a port;
  - rendering the registry as nodes and links, with host de-duplication;
  - sending an LLDP probe out of every port;
  - recording a discovered link on both of its interfaces.
- **The two learning switches** (`of_l2ls`, `of_l2lsloop`): learning MAC locations, and choosing between installing a flow, flooding, or staying silent.

The controller's switch registry (`kytos.core`) is not part of this model.
Module `KytosCore` gives it the behaviour the applications rely on:

- a switch list;
- interfaces stored under port numbers;
- `update_endpoint` re-recording an endpoint as the interface's latest;
- a MAC table.

The python-openflow codecs are also outside the model. The model keeps frames
and messages decoded, and it takes the hello parser and the per-version
decoder as function parameters. The clock, `rrdtool` and the user's speed file
are parameters too: the current time, what `rrdtool.fetch` returned, and the
parsed JSON dict.

FAILED and FINISHED are dead ends only for raw input: `handle_raw_in`
(napps/kytos/of_core/main.py:155-157) returns at once for them. The other
handlers do not look at the connection state. `handle_features_request_sent`
(napps/kytos/of_core/main.py:339-341) moves the sub-state from
`sending_features` to `waiting_features_reply` whatever the state, so a
FINISHED connection still in `sending_features` takes that sub-state.
`Handshake.HandleFeaturesRequestSent` models this.

## Model

| member | source | states |
|---|---|---|
| Framing.Slice | napps/kytos/of_core/utils.py:10-22 | The tail `of_slicer` returns is shorter than a header or shorter than its own declared length; an input under 4 bytes gives no packets and comes back whole |
| Framing.OfSlicer | napps/kytos/of_core/utils.py:10-22 | The `while` loop as written returns the same packets and tail as the recursive definition, for any input whose length fields are at least 1 |
| Framing.SliceLossless | napps/kytos/of_core/utils.py:10-22 | The packets followed by the tail spell the input exactly: nothing lost, duplicated or reordered |
| Framing.SlicePacketsFramed | napps/kytos/of_core/utils.py:15-18 | Each packet is as long as the big-endian 16-bit length at bytes 2..4 of the window it was cut from, and packets follow each other without gaps in input order |
| Framing.SliceCompose | napps/kytos/of_core/utils.py:10-22 | Slicing `x`, then slicing the tail followed by `y`, gives the same packets and final tail as slicing `x ++ y` at once |
| Framing.SliceValidFrames | napps/kytos/of_core/utils.py:10-22 | A concatenation of well-formed frames is sliced back into exactly those frames with an empty tail |
| Framing.ShortFrameWaits | napps/kytos/of_core/utils.py:14-21 | A frame missing its last byte gives no packet and stays buffered whole |
| Framing.DeliverIsWholeSlice | napps/kytos/of_core/main.py:159-160 | Starting from an incomplete buffer, however the stream is split into deliveries, the frames handed on are those of slicing the whole stream at once |
| Framing.StreamReassembly | napps/kytos/of_core/main.py:159-160 | Well-formed frames delivered in arbitrary pieces come out exactly once each, in order, with nothing left buffered |
| Framing.Unpack | napps/kytos/of_core/utils.py:25-37 | Succeeds exactly when the frame has a full 8-byte header, the header decodes, and, when bytes follow, the body decodes; a bare header's result is the header decoder's |
| Framing.UnpackHeaderOnly | napps/kytos/of_core/utils.py:31-34 | An 8-byte frame never reaches the body decoder |
| Framing.UnpackBodyOnRest | napps/kytos/of_core/utils.py:31-33 | With a body present, the body decoder receives exactly bytes 8 onwards |
| OpenFlow.ParseEncodeHeader | napps/kytos/of_core/utils.py:28-29 | Decoding an encoded 8-byte header gives back version, type, length and xid |
| Negotiation.VersionFromBitmask | napps/kytos/of_core/main.py:259-262 | The highest version both sides list; an empty intersection is the `ValueError` of `max([])`, not `None` |
| Negotiation.VersionFromHeader | napps/kytos/of_core/main.py:264-267 | `min(v, 4)` when that is 1 or 4, otherwise `None` |
| Negotiation.Negotiate | napps/kytos/of_core/main.py:279-286 | A non-empty bitmap decides, otherwise the header version; no version is the incompatible-hello failure |
| Negotiation.BitmapOverridesHeader | napps/kytos/of_core/main.py:279-280 | With a non-empty bitmap the header version plays no part |
| Negotiation.HeaderFallback | napps/kytos/of_core/main.py:264-286 | Without a bitmap, header 1 agrees on 1.0, headers 4 and above on 1.3, and 2 or 3 fail |
| Negotiation.BitmapExamples | napps/kytos/of_core/main.py:259-262 | Bitmap {1, 2, 4} agrees on 1.3; {2, 3} raises from `max` |
| Handshake.HelloFailedError | napps/kytos/of_core/main.py:306-315 | The error sent on failed negotiation is a 1.3 HELLO_FAILED/INCOMPATIBLE error echoing the hello's xid |
| Handshake.ProcessPackets | napps/kytos/of_core/main.py:166-211 | The per-frame loop keeps the connection well formed, reaches ESTABLISHED only from ESTABLISHED and FAILED only from NEW, and raises only on a NEW connection, leaving it untouched |
| Handshake.HandleRawIn | napps/kytos/of_core/main.py:150-211 | Raw input on a FINISHED or FAILED connection, whatever its bytes, changes nothing and emits nothing; only live connections need length fields of at least 1, since only they reach the slicer; after the hello the version and sub-state never change, and the state either stays or becomes FINISHED |
| Handshake.HandleFeaturesRequestSent | napps/kytos/of_core/main.py:339-341 | Only the sub-state `sending_features` changes, to `waiting_features_reply`; nothing else about the connection changes |
| Handshake.HandleFeaturesReplyAsWritten | napps/kytos/of_core/main.py:112-132 | The handler as written raises `AttributeError` exactly when the reply has no port list; the connection is then unchanged, still in SETUP if it was. With a port list it completes the handshake as `Handshake.CompleteHandshake` does. Either way the switch is registered on the connection and no other switch changes |
| Handshake.HandleFeaturesReply | napps/kytos/of_core/main.py:112-132 | The corrected features-reply handler never raises, and it always ends with the transition of lines 129-132, `Handshake.CompleteHandshake` |
| Handshake.CompleteHandshake | napps/kytos/of_core/main.py:129-132 | A connection becomes ESTABLISHED exactly when it was SETUP and waiting for the reply, and then its only other change is the sub-state `handshake_complete`; any other connection is unchanged |
| Handshake.HandleEchoRequest | napps/kytos/of_core/main.py:235-240 | The reply has the negotiated version and the request's xid and data; an unknown version is the `KeyError` of the version table |
| HandshakeProperties.ProcessDecoded | napps/kytos/of_core/main.py:189-211 | If every frame decodes, the messages that pass are handed on in order and the held-back frames go back, in order, ahead of the slicer's tail |
| HandshakeProperties.EstablishedHoldsNothing | napps/kytos/of_core/main.py:201-208 | An ESTABLISHED connection holds nothing back |
| HandshakeProperties.SendingHoldsAll | napps/kytos/of_core/main.py:201-206 | While the features request is being sent, every frame is held back |
| HandshakeProperties.EstablishedPassesThrough | napps/kytos/of_core/main.py:150-211 | On an ESTABLISHED connection every complete frame is decoded and handed on in order, and the incomplete tail is kept |
| HandshakeProperties.SendingFeaturesBuffers | napps/kytos/of_core/main.py:201-211 | While `sending_features`, raw input hands nothing on; the buffer is the old buffer with the new bytes appended |
| HandshakeProperties.WaitingPassesReplies | napps/kytos/of_core/main.py:201-211 | While `waiting_features_reply`, exactly the features replies are handed on; every other frame is held back in order |
| HandshakeProperties.UndecodableFrameFinishes | napps/kytos/of_core/main.py:189-194 | A frame that fails to decode after the hello makes the connection FINISHED and closed, and the frames after it are dropped |
| HandshakeProperties.HelloAgreed | napps/kytos/of_core/main.py:269-293 | An agreed hello makes the connection SETUP in `sending_features` with that version, and sends exactly one features request of that version |
| HandshakeProperties.HelloIncompatible | napps/kytos/of_core/main.py:284-315 | An unsupported header version gives `hello_failed`, one HELLO_FAILED error echoing the xid, a closed connection and FAILED |
| HandshakeProperties.HelloUnreadable | napps/kytos/of_core/main.py:170-185 | A first frame that is no valid hello gives `hello_failed`, closed and FAILED, and sends nothing to the switch |
| HandshakeProperties.HelloDisjointBitmap | napps/kytos/of_core/main.py:259-262 | A disjoint bitmap raises out of the handler: nothing is sent and the connection stays NEW |
| HandshakeProperties.AsWrittenStallsOn13 | napps/kytos/of_core/main.py:112-132 | As written, a 1.3 features reply raises before the handshake completes, so the connection stays in SETUP |
| HandshakeProperties.CorrectedCompletes | napps/kytos/of_core/main.py:112-132 | The corrected handler completes an awaited handshake for either version and registers the switch on the connection with the reply as its features |
| HandshakeProperties.CorrectedAgreesOnPortList | napps/kytos/of_core/main.py:112-127 | On a reply that has a port list, the corrected handler does exactly what the handler as written does |
| HandshakeTrace.StepAdvancesByOne | napps/kytos/of_core/main.py:129-132 | One handler call keeps the connection well formed and never leaves a dead end. It moves the handshake forward at most one stage: past NEW only on raw input, past `sending_features` only on the request-sent notice, past `waiting_features_reply` only on the reply |
| HandshakeTrace.EstablishedInOrder | napps/kytos/of_core/main.py:339-341 | Every run from a fresh connection that ends ESTABLISHED passes an agreed hello, then the request-sent notice, then the reply, in that order |
| AdapterV01.UpdateFlowList | napps/kytos/of_core/v0x01/utils.py:22-27 | Exactly one flow-statistics request |
| AdapterV01.SendEcho | napps/kytos/of_core/v0x01/utils.py:65-66 | Exactly one 1.0 echo request with payload `kytosd_10` |
| AdapterV01.SendSetConfig | napps/kytos/of_core/v0x01/utils.py:70-73 | Exactly one set-config with OFPC_FRAG_NORMAL and miss_send_len 0xffff |
| AdapterV01.InterfaceOf | napps/kytos/of_core/v0x01/utils.py:48-53 | The interface carries the port's name, hardware address, number, state and current features, and no endpoints |
| AdapterV01.InterfacePortRoundTrip | napps/kytos/of_core/v0x01/utils.py:48-53 | No port field is lost on the way into the registry: the port record comes back from the interface |
| AdapterV01.InterfaceCalls | napps/kytos/of_core/v0x01/utils.py:47-54 | One `update_interface` call per reply port, in reply order |
| AdapterV01.HandleFeaturesReply | napps/kytos/of_core/v0x01/utils.py:40-58 | Look the switch up or create it on the connection, then one interface call per port, then the features update |
| AdapterV01.ApplyInterfaceCalls | napps/kytos/of_core/v0x01/utils.py:47-54 | Interfaces already registered are kept; every other reply port number gets the interface of its first occurrence; other port numbers stay absent |
| AdapterV01.FeaturesReplyRegisters | napps/kytos/of_core/v0x01/utils.py:40-58 | Afterwards the switch is registered under the reply's datapath id, bound to the connection, holds the reply as its features, and has an interface for every reply port |
| AdapterV01.InterfacesRegistered | napps/kytos/of_core/v0x01/utils.py:44-54 | Before the features update, the switch is registered on the connection with an interface for every reply port, built from that port if the switch is new; other switches are unchanged |
| AdapterV04.UpdateFlowList | napps/kytos/of_core/v0x04/utils.py:18 | No message is sent |
| AdapterV04.SendEcho | napps/kytos/of_core/v0x04/utils.py:47-48 | Exactly one 1.3 echo request with payload `kytosd_13` |
| AdapterV04.HandleFeaturesReply | napps/kytos/of_core/v0x04/utils.py:31-40 | Look the switch up or create it, then only the features update; the port list is not read |
| AdapterV04.FeaturesReplyRegisters | napps/kytos/of_core/v0x04/utils.py:31-40 | Afterwards the switch is registered under the datapath id, bound to the connection, holds the reply, and gains no interface |
| KytosCore.GetSwitchOrCreateRegisters | napps/kytos/of_core/v0x01/utils.py:44-45 | The switch is found under its dpid afterwards, bound to the connection, and every other switch is unchanged |
| KytosCore.GetSwitchByDpid | napps/kytos/of_lldp/main.py:102 | Finds a registered switch with that dpid, and none exactly when no switch has it |
| KytosCore.AddInterface | napps/kytos/of_core/v0x01/utils.py:54 | The port is occupied afterwards, by the new interface if it was free, and no other port changes |
| KytosCore.UpdateEndpointOf | napps/kytos/of_topology/main.py:60 | The endpoint becomes the latest one, every earlier endpoint is kept, and nothing else about the interface changes |
| KytosCore.UpdateEndpointRecords | napps/kytos/of_lldp/main.py:106-107 | `update_endpoint` on a registered interface changes that interface as above and no other; on an unregistered one it changes nothing |
| KytosCore.UpdateMacTable | napps/kytos/of_l2ls/main.py:52 | The port joins the ports recorded for the MAC, and every other MAC's entry is unchanged |
| KytosCore.WhereIsMac | napps/kytos/of_l2ls/main.py:56 | Lists exactly the recorded ports; empty for an unknown MAC |
| KytosCore.LearnThenLocate | napps/kytos/of_l2ls/main.py:52-56 | Right after learning a MAC at a port, looking it up lists that port, and lookups of other MACs are unchanged |
| UserSpeed.PortKey | kytos/of_stats/user_speed.py:32-33 | A string port is its own key, no port is `"None"`. A non-negative number is its decimal text, which parses back to the number; a negative one is `-` and the text of its magnitude |
| UserSpeed.Scale | kytos/of_stats/user_speed.py:43-45 | A found number is multiplied by 10**9; `None` stays `None`; a string, list or object is not a speed |
| UserSpeed.GetSpeed | kytos/of_stats/user_speed.py:25-45 | A null or missing switch gives the global default. A switch object gives the port's entry if present, else the switch default. Any other switch value is an error |
| UserSpeed.NoFileNoSpeed | kytos/of_stats/user_speed.py:18-23 | Without a user file every query answers `None` |
| UserSpeed.PortStringified | kytos/of_stats/user_speed.py:32-39 | Port 4 and `"4"` select the same entry, and a call without a port looks up the key `"None"` |
| UserSpeed.PortKeysDistinct | kytos/of_stats/user_speed.py:32-33 | Distinct port numbers never share an entry |
| UserSpeed.PortEntryIgnoresDefaults | kytos/of_stats/user_speed.py:39-42 | A port's own entry wins whatever the switch and global defaults say |
| UserSpeed.SetPortSpeed | kytos/of_stats/user_speed.py:41-45 | Writing a port's speed makes the lookup answer it, in bit/s |
| Rrd.PortDataSources | napps/kytos/of_stats/stats.py:253-254 | The port data sources are rx_bytes, tx_bytes, rx_dropped, tx_dropped, rx_errors, tx_errors, in that order |
| Rrd.GetRrd | napps/kytos/of_stats/stats.py:99-104 | The path is the settings folder, the application folder, every index item but the last, then `<last>.rrd` |
| Rrd.GetRrdComponents | napps/kytos/of_stats/stats.py:99-104 | Below the settings folder the path splits back into exactly those components |
| Rrd.GetRrdInjective | napps/kytos/of_stats/stats.py:99-104 | Different indexes of proper path components never share a database file |
| Rrd.UpdateLine | napps/kytos/of_stats/stats.py:77-82 | The update line is `<tstamp or N>:` followed by the values in data-source order; a missing value is an error naming the first missing data source |
| Rrd.UpdateLineFields | napps/kytos/of_stats/stats.py:77-82 | Splitting the line at `:` gives back the timestamp text and then each value's decimal text in data-source order |
| Rrd.Archives | napps/kytos/of_stats/stats.py:237-247 | Exactly 18 averaging archives, one per step, in the fixed order |
| Rrd.ArchiveFields | napps/kytos/of_stats/stats.py:244-245 | An archive option reads back as AVERAGE, the xfiles factor, its step and the period |
| Rrd.CreateOptions | napps/kytos/of_stats/stats.py:140-145 | The options are the path, `--start`, the start time or `N`, `--step`, 30, then one counter per data source in order, then the 18 archives |
| Rrd.CounterFields | napps/kytos/of_stats/stats.py:135-138 | A counter option reads back as its data source, COUNTER, the heartbeat, the minimum and the maximum |
| Rrd.CalcStartEnd | napps/kytos/of_stats/stats.py:196-212 | `now` becomes the clock and `first` the database's first time. Every integer bound is then one less, and other bounds pass through |
| Rrd.FloorDiv | napps/kytos/of_stats/stats.py:184 | Python's `//`: the largest integer not above the exact quotient |
| Rrd.ResolutionArgs | napps/kytos/of_stats/stats.py:181-186 | `-a -r <r>s` is added only when a point count is given with integer bounds and r = (end - start) // n is positive. A count of 0 with integer bounds is the `ZeroDivisionError`; any other count with integer bounds succeeds and adds the pair exactly when the floor quotient is positive, so a positive count adds nothing exactly when the window is shorter than the count |
| Rrd.FetchArgs | napps/kytos/of_stats/stats.py:171-189 | A missing database is `FileNotFoundError` for that index; otherwise the argument list starts with the database path and AVERAGE and has at least the four bound arguments |
| Rrd.FetchDefaults | napps/kytos/of_stats/stats.py:149-189 | With `fetch`'s own defaults (start `first`, end `now`, `n_points=None`) the window runs from the first time minus one to the clock minus one, with no resolution arguments |
| Rrd.Range | napps/kytos/of_stats/stats.py:194 | Python's `range(lo, hi, step)`: element k is lo + k·step, every element is below hi, and the next one would reach hi |
| Rrd.FetchTimestamps | napps/kytos/of_stats/stats.py:192-194 | The timestamps are start+step, start+2·step, and so on, none beyond the stop, each step apart |
| Rrd.ZipMapAt | napps/kytos/of_stats/stats.py:235 | With distinct column names, each column maps to the value at its own position |
| Rrd.FetchLatest | napps/kytos/of_stats/stats.py:214-235 | A missing database gives `{}`. Otherwise each column maps to the chosen row's value, or 0 if none is recent. The chosen row is the earliest with a known first value and a time after now − 60, since the backward scan does not stop |
| Rrd.DescriptionRequest | napps/kytos/of_stats/stats.py:353-359 | A DESC statistics request is sent exactly when the switch has no recorded description |
| Rrd.DescriptionListen | napps/kytos/of_stats/stats.py:361-369 | The description is recorded. A registered switch then holds it as its description, and no other switch changes. Handing it over raises exactly when the switch is not registered, and then the registry is unchanged |
| Rrd.DescriptionAskedOnce | napps/kytos/of_stats/stats.py:353-369 | After the description of a switch is heard, it is never asked again, and other switches are unaffected |
| StatsApi.CoerceBound | napps/kytos/of_stats/stats_api.py:24-27 | A query value of digits only becomes that number; anything else, including the defaults `first` and `now`, passes through as text |
| StatsApi.CoerceBoundCases | napps/kytos/of_stats/stats_api.py:24-27 | A printed natural number comes back as itself; the defaults stay words |
| StatsApi.Transpose | napps/kytos/of_stats/stats_api.py:49-55 | One list per column; value i of a column is row i's value at that column's position; `timestamps` lists the row times |
| StatsApi.TransposeRows | napps/kytos/of_stats/stats_api.py:49-55 | Reading the lists row by row gives back exactly the rows `rrdtool` returned, with their times |
| StatsApi.StopColumn | napps/kytos/of_stats/stats_api.py:73-76 | The inner loop stops at the first column with a known value, or at the last column |
| StatsApi.KeepsRowIffKnown | napps/kytos/of_stats/stats_api.py:73-79 | Testing the column the loop stopped at is testing whether the row has any known value |
| StatsApi.DropRow | napps/kytos/of_stats/stats_api.py:81-82 | Popping index i from every list removes row i and keeps the others in order |
| StatsApi.RemoveFromRows | napps/kytos/of_stats/stats_api.py:72-82 | The backward loop leaves the rows before its start untouched and filters the rest |
| StatsApi.RemoveFrom | napps/kytos/of_stats/stats_api.py:72-82 | Popping rows from index i downwards keeps the column names and a list of equal length for every column |
| StatsApi.DropRowRows | napps/kytos/of_stats/stats_api.py:81-82 | Read row by row, the table after popping index i is the old rows without row i |
| StatsApi.RemoveNull | napps/kytos/of_stats/stats_api.py:65-82 | Fails with the unbound `col` exactly when there is no data column and at least one row; otherwise keeps the column names and all lists equally long |
| StatsApi.RemoveNullFilters | napps/kytos/of_stats/stats_api.py:65-82 | The rows kept are exactly those with a known value, in their original order |
| StatsApi.RemoveNullIdempotent | napps/kytos/of_stats/stats_api.py:65-82 | Removing null rows a second time removes nothing more |
| StatsApi.FetchStats | napps/kytos/of_stats/stats_api.py:49-57 | `_fetch` is the transposition with null rows removed |
| StatsApi.FetchStatsRows | napps/kytos/of_stats/stats_api.py:49-57 | The lists returned hold exactly the rows `rrdtool` returned that have a known value, in order |
| StatsApi.NotFoundError | napps/kytos/of_stats/stats_api.py:92-97 | The body is `{errors: {status: "404", title: "Database not found.", detail: <message>}}` |
| StatsApi.GetPoints | napps/kytos/of_stats/stats_api.py:22-33 | The coerced bounds and the point count go to the fetch. A missing database answers the 404 body with the fetch's message. Any other fetch failure escapes |
| StatsApi.DefaultPointsResolution | napps/kytos/of_stats/stats.py:181-186 | With `get_points`' default of 30 points, integer bounds at least 30 seconds apart ask for a resolution of a thirtieth of the span; closer bounds add no resolution arguments |
| StatsApi.PortSpeed | napps/kytos/of_stats/stats_api.py:169-175 | The user's speed wins; without one, the interface's own speed |
| StatsApi.PortEntry | napps/kytos/of_stats/stats_api.py:153-162 | The latest sample with the port number, name, MAC and speed added |
| StatsApi.NumberOf | napps/kytos/of_stats/stats_api.py:186 | A value divides as a number exactly when it is a number or a boolean; `None`, strings, lists and dicts do not |
| StatsApi.UtilValue | napps/kytos/of_stats/stats_api.py:186 | Reading a missing bytes column is a `KeyError`, a non-number is a `TypeError`, a zero speed is a `ZeroDivisionError`, in that order; otherwise the utilization times the speed is 8 times the bytes |
| StatsApi.AddUtilization | napps/kytos/of_stats/stats_api.py:177-187 | No speed gives null `rx_util` and `tx_util`. A known speed succeeds exactly when it is non-zero and both `rx_bytes` and `tx_bytes` are numbers; it reports the first failure, `rx_bytes` before `tx_bytes`. Success keeps every other column and gives each utilization times the speed as 8 times the bytes |
| StatsApi.EntryFor | napps/kytos/of_stats/stats_api.py:153-187 | A failing speed lookup escapes. Otherwise the entry exists exactly when the speed is unknown, or it is non-zero and the latest sample has numeric `rx_bytes` and `tx_bytes`. The entry has the sample's columns plus port, name, MAC, speed and both utilizations |
| StatsApi.MissingDatabaseRaises | napps/kytos/of_stats/stats_api.py:156-186 | A port with a known speed but no database (`fetch_latest` answers `{}`) raises `KeyError: 'rx_bytes'` |
| StatsApi.ZeroSampleZeroUtilization | napps/kytos/of_stats/stats_api.py:183-186 | The zero row of a database without recent samples gives zero utilization at any non-zero speed |
| StatsApi.PortEntries | napps/kytos/of_stats/stats_api.py:153-187 | The list exists exactly when every interface's entry succeeds (speed lookup and utilization), and then has one entry per interface; otherwise the first failing entry's error escapes |
| StatsApi.PortEntriesAt | napps/kytos/of_stats/stats_api.py:153-187 | Entry k is interface k's entry, so the list keeps the interfaces' order |
| StatsApi.SortedEntries | napps/kytos/of_stats/stats_api.py:148-162 | For interfaces sorted by port number, entry k reports port k, ports ascend, and every interface's port appears |
| StatsApi.PortsLatest | napps/kytos/of_stats/stats_api.py:35-43 | An unknown switch gives an empty list. For a known switch the list exists exactly when every interface's entry succeeds, and it is the entries of the interfaces sorted by port number |
| StatsApi.PortsLatestOrdered | napps/kytos/of_stats/stats_api.py:148-151 | The port list has one entry per interface, with ports in ascending order |
| StatsApi.FlowEntry | napps/kytos/of_stats/stats_api.py:238-246 | `self.id` is renamed `id`; stats carry `Bps` and `pps` from the byte and packet counts, 0 when absent; a dict without `self.id` is a `KeyError` |
| StatsApi.FlowEntries | napps/kytos/of_stats/stats_api.py:235-246 | One entry per flow, in order, up to the first `KeyError` |
| StatsApi.FlowsLatest | napps/kytos/of_stats/stats_api.py:35-43 | An unknown switch gives an empty list |
| StatsApi.FlowsLatestOrdered | napps/kytos/of_stats/stats_api.py:230-233 | The flow list has one entry per flow, ids in ascending order |
| Sorting.SortBy | napps/kytos/of_stats/stats_api.py:232-233 | `sorted` returns a permutation of its input ordered by key |
| Topology.UpdateLinks | napps/kytos/of_topology/main.py:51-60 | An LLDP frame changes nothing. No interface appears or disappears, and no interface but the one the packet came in on changes |
| Topology.UpdateLinksLearnsHost | napps/kytos/of_topology/main.py:51-60 | The in-port interface records the source MAC as its latest endpoint exactly when the frame is not LLDP and the interface has no peer interface. No other interface changes |
| Topology.UpdateLinksRecordsSource | napps/kytos/of_topology/main.py:56-60 | After learning, the MAC is an endpoint of that interface and the interface still faces no switch |
| Topology.PortStatusReason | napps/kytos/of_topology/main.py:74-78 | Reasons 0, 1 and 2 are CREATED, DELETED and MODIFIED; any other code is an `IndexError` |
| Topology.AddEndpoints | napps/kytos/of_topology/main.py:103-120 | Each peer endpoint adds a link. Each MAC adds a host node only if absent, and a link only when the interface faces no switch |
| Topology.AddInterfacesLinks | napps/kytos/of_topology/main.py:96-120 | Each interface adds its `interface` link from the switch and its endpoint links, and nothing else |
| Topology.AddInterfacesNodes | napps/kytos/of_topology/main.py:96-113 | Each interface adds its own node and the hosts it has seen, and nothing else |
| Topology.AddSwitchesLinks | napps/kytos/of_topology/main.py:94-120 | The links are the union of every switch's interface links |
| Topology.AddSwitchesNodes | napps/kytos/of_topology/main.py:94-113 | The nodes are every switch, every interface and every host seen |
| Topology.GetJsonTopology | napps/kytos/of_topology/main.py:86-123 | No host node appears twice |
| Topology.TopologyNodes | napps/kytos/of_topology/main.py:93-113 | A node is present exactly when it is a registered switch, one of its interfaces, or a MAC one of them has seen; hosts are unique |
| Topology.TopologyLinks | napps/kytos/of_topology/main.py:97-120 | A link is present exactly when it joins a switch to its interface, an interface to a peer, or an interface facing no switch to a host |
| Topology.NoHostLinkOnSwitchPort | napps/kytos/of_topology/main.py:112-115 | A host seen on a switch-to-switch interface is drawn as a node but never linked from it |
| Lldp.ProbeFrame | napps/kytos/of_lldp/main.py:42-51 | Ethertype 0x88cc, destination 01:80:c2:00:00:0e, source the port's hardware address; chassis id the dpid and port id the port number |
| Lldp.Probe | napps/kytos/of_lldp/main.py:53-55 | A packet-out with a single output to the probed port, carrying the frame |
| Lldp.NonLocal | napps/kytos/of_lldp/main.py:34-40 | The ports probed: exactly the listed ports other than 65534, each as many times as it is listed |
| Lldp.PortProbes | napps/kytos/of_lldp/main.py:34-61 | Message k is the probe of the k-th listed port other than 65534, sent to the switch's connection; there are as many messages as such ports and no other message |
| Lldp.PortProbesMembers | napps/kytos/of_lldp/main.py:34-61 | A message is among a switch's probes exactly when it is the probe of one of its listed ports other than 65534, through its connection |
| Lldp.Execute | napps/kytos/of_lldp/main.py:30-34 | The round raises exactly when some switch has no readable port list; a round that does not raise sends as many messages as the switches have non-local ports |
| Lldp.ExecuteProbesEveryPort | napps/kytos/of_lldp/main.py:30-61 | In a round that does not raise, a message is sent exactly when it is the probe of a non-local port of a switch, through that switch's connection |
| Lldp.GetInterface | napps/kytos/of_lldp/main.py:74-79 | The interface of a registered switch at that port, and none when the switch is missing |
| Lldp.UpdateLinks | napps/kytos/of_lldp/main.py:92-107 | A frame that is not LLDP, or whose payload is not LLDP, changes nothing. No interface appears or disappears, and no interface other than the two ends the frame names changes |
| Lldp.RecordLink | napps/kytos/of_lldp/main.py:105-107 | Recording a link makes no interface appear or disappear and changes no interface other than its two ends |
| Lldp.UpdateLinksRecordsBothEnds | napps/kytos/of_lldp/main.py:92-107 | A non-LLDP frame changes nothing. If both ends are registered, each records the other as its latest endpoint and no third interface changes. If either end is missing, nothing changes |
| Lldp.ProbeLinksBothInterfaces | napps/kytos/of_lldp/main.py:47-107 | A probe sent from (dpid, p) and received on (A, q) makes both interfaces list each other as peers, so both become switch-to-switch links |
| Lldp.ProbesTeachNoHosts | napps/kytos/of_topology/main.py:51-60 | A returning LLDP probe leaves the topology application's host records unchanged |
| L2ls.Fill | napps/kytos/of_l2ls/main.py:61-64 | With wildcard filling, assigning a field lowers its wildcard flag unless the value is the default; without filling the wildcards stay |
| L2ls.WithFrame | napps/kytos/of_l2ls/main.py:61-64 | The match carries the frame's source, destination and ethertype |
| L2ls.ForwardingMatchWildcards | napps/kytos/of_l2ls/main.py:61-64 | Without wildcard filling, the installed match keeps every field wildcarded. With filling, exactly the three data-link flags are lowered |
| L2ls.Forward | napps/kytos/of_l2ls/main.py:59-66 | A flow-mod ADD with the match, the packet-in's buffer id and a single output |
| L2ls.Flood | napps/kytos/of_l2ls/main.py:73-77 | A packet-out with the packet-in's buffer id and in-port and a single FLOOD output |
| L2ls.HandlePacketIn | napps/kytos/of_l2ls/main.py:47-52 | Every packet-in is learnt, LLDP destinations included |
| L2ls.HandlePacketInReplies | napps/kytos/of_l2ls/main.py:55-83 | At most one message. None exactly for an LLDP destination. A located destination gets a flow-mod for this frame out of one of its ports; otherwise a flood |
| L2ls.HandlePacketInLearns | napps/kytos/of_l2ls/main.py:52 | The source MAC is located at the in-port, and every other MAC's location is unchanged |
| L2ls.HandlePacketInIdempotent | napps/kytos/of_l2ls/main.py:52-83 | The same packet-in a second time gives the same switch and the same answer |
| L2ls.LearnedHostGetsFlow | napps/kytos/of_l2ls/main.py:52-70 | After host a sends in on port q, a frame to a gets a single flow-mod out of a port where a was seen, and q is among them |
| L2lsLoop.LoopMatchWildcards | napps/kytos/of_l2lsloop/main.py:47-53 | The subtraction gives 0x3fffe3, which lowers exactly the three data-link flags. With wildcard filling and non-default fields, this match equals the learning switch's |
| L2lsLoop.HandlePacketIn | napps/kytos/of_l2lsloop/main.py:37-42 | Every packet-in is learnt, with no LLDP exception |
| L2lsLoop.HandlePacketInReplies | napps/kytos/of_l2lsloop/main.py:44-82 | At most one message. A located destination gets a flow-mod out of one of its ports. Otherwise the frame is flooded and recorded exactly when `should_flood` allows; if not, nothing is sent or recorded |
| L2lsLoop.AgreesWithL2ls | napps/kytos/of_l2lsloop/main.py:44-76 | For a non-LLDP destination both switches learn alike and flood alike; with wildcard filling and non-default fields they install the same flow |
| L2lsLoop.LldpNotExempt | napps/kytos/of_l2lsloop/main.py:41-44 | A frame to the LLDP group address is answered here but ignored by the learning switch |

## Left out

- `switch.update_lastseen()` at the start of `handle_raw_in` (napps/kytos/of_core/main.py:150-152) is left out: the last-seen time is a clock reading the model does not keep.
- Sockets, event buffers, threads and the polling loops (`execute_as_loop`, `msg_out.put`) are left out. Emitted messages are returned as sequences in emission order.
- The clock, `rrdtool`, file existence and `rrd_lock` are left out. The current time, the database's first time, whether the file exists and what `rrdtool.fetch` returned are parameters.
- Python-openflow's `pack`/`unpack`, `GenericHello`, `unpack_gen`, `new_message_from_header` and `NegotiationException` are left out. They come from code that is not part of this model. The hello parser and per-version decoder are function parameters; Ethernet and LLDP frames are kept decoded.
- `kytos.core` (switch registry, interfaces, `Flow`) is not part of this model. `KytosCore` states the behaviour assumed of it. Endpoint timestamps are not modelled.
- `should_flood` and `update_flood_table` of the registry are left out. The first is a boolean parameter; the second appends the frame to a flood-table sequence.
- `settings.lldp_macs` of the learning switch is a parameter, because its settings file is not part of this model.
- python-openflow's `Match` wildcard filling is left out. Whether assigning a field lowers its wildcard flag depends on the library version, so it is the `fill` parameter.
- Framing.Slice: requires every length field the loop reads to be at least 1. A zero length makes the loop of `of_slicer` never end, so there is no result to model.
- Main.execute, `_update_flow_list` and `handle_flow_stats_reply` of of_core are left out. They use names that are never imported, and `Flow`, which is not part of this model.
- `handle_core_new_connection`, `_say_hello`, `send_features_request`, `handle_queued_openflow_echo_reply` and `handle_openflow_in_hello_failed` are left out as separate functions. Each only emits or closes, and the handshake model includes their effects.
- Utilization in the port list is computed on exact reals: floating-point rounding of `speed / 8` and of the division is not modelled.
- Flask handlers, `json.dumps` and the HTTP response are left out; REST bodies are `Json` values. JSON numbers are reals, without Python's int/float distinction.
- `PortStats`, `AggregateStats` and `FlowStats` request and listen bodies are left out. Flow ids come from `Flow.from_flow_stats`, which is not part of this model.
- StatsApi.GetPoints: the tuple index appears in the not-found message as its Python repr, passed in as text.
- StatsApi.CoerceBound: `str.isdigit` is modelled for ASCII digits only, not for other Unicode digits.
- UserSpeed.Scale: a string or list speed, which Python would repeat 10**9 times, is an error here.
- Rrd.FetchArgs: its contract fixes only the head of the argument list; FetchDefaults and ResolutionArgs state the rest for the default and resolution cases.
- Rrd.FetchLatest: requires the `rrdtool` answer to be well shaped, with one row per timestamp, one value per column, distinct column names and at least one column.
- Rrd.GetRrd: index items containing `/` are not given pathlib's splitting.
- Lldp.UpdateLinks: port numbers are taken to be truthy whenever present, and a payload that does not decode leaves everything unchanged.
- Lldp.Probe: the packet-out's buffer id and in-port are python-openflow's defaults (no buffer, OFPP_NONE).
- Topology.GetJsonTopology: `as_dict()` of switches and interfaces stands for the object it describes, taken to differ from every host entry. The `nodes`/`links` dict is the `Graph` datatype.
- Legacy kyco-era copies of these applications, the flow manager, the topology layout and the IPv6-drop applications are left out. They are outside the modelled core.

## Findings

| source | as written | input that shows it | evidently intended | confidence | as-written member | corrected member |
|---|---|---|---|---|---|---|
| napps/kytos/of_core/main.py:118 | `handle_features_reply` iterates `features.ports` for both versions | an OpenFlow 1.3 features reply, which has no port list | register the switch through the adapter of its version and complete the handshake | medium, not executed (the reply class is python-openflow's) | HandshakeProperties.AsWrittenStallsOn13 | HandshakeProperties.CorrectedCompletes |
