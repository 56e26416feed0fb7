# MonitorMetrics — a verified Dafny model

This project models `MonitorMetrics`, the class in Open Liberty's MicroProfile
Metrics 2.3 monitor bundle that turns one monitoring MBean into MicroProfile
metrics. A `MonitorMetrics` object holds one JMX object name. It has three jobs:

- **Labelling.** `getMBeanStatsString` derives a tag value from the object name
  and caches it. It splits the name on `,`, trims each segment and scans the
  segments. A `service=` or `port=` segment records that field and scanning
  goes on. The first `name=` segment stops the scan. The label is then
  `serviceURL.serviceName.portName` when all three were seen, else the
  sanitised `name=` value, else `"unknown"`.
- **Registration.** `createMetrics` walks the mapping table one row at a time:
  - A `COUNTER` or `GAUGE` row registers an adapter under
    `(metric name, {tag-name: label})`. The tag is dropped when the row has no
    tag-name column.
  - A `SIMPLE_TIMER` row registers under `(metric name, {class, method})`.
    Those two values come from the REST object name (`getRESTMBeanStatsTags`).
  - Each of these rows goes into the vendor or the base registry (the
    registry-type column, compared ignoring case). Its row ID is added to the
    tracked set.
  - A row of any other metric type does nothing.
- **Unregistration.** `unregisterMetrics` removes every tracked ID from the
  vendor registry and clears the set.

Modules:

- `Wrappers` holds `Option` and `Result`.
- `JavaString` models the `java.lang.String` operations the class uses. These
  are `split` (with its dropping of trailing empty strings), `trim`,
  `contains`, `indexOf`, `substring` (which can throw), literal `replace` and
  `equalsIgnoreCase`.
- `MetricsApi` holds the MicroProfile types the class calls:
  - `MetricType` with `valueOf`;
  - `MetricID`, with tags as a map from tag name to an optional value;
  - `Metadata` and the three adapters, kept as records of the attributes
    they would read;
  - the `MetricRegistry` and `SharedMetricRegistries` classes, whose registry
    is a map from `MetricID` to what was registered.
- `MBeanLabel` holds the pure specification of the label and of the REST tags,
  and the lemmas about them.
- `MonitorMetrics` holds:
  - the functional specification of one row and of a whole `createMetrics`
    run, as the pair `Bridge` of cache, tracked IDs and both registries;
  - the `MonitorMetrics` class, whose fields `mbeanStatsName` (an `Option`
    cache) and `metricIDs` its methods update in place. Each method is proved
    equal to its specification function.

A Java exception is a `Failure` carrying `JavaException`. `createMetrics`
stops at the first row that throws. The rows before it keep their effects.

Behaviour of the code worth knowing, each proved by the lemma named:

- A quoted name keeps its quotes, as underscores: the object name
  `type=Stats,name="My Bean/1"` is labelled `_My_Bean_1_` (`QuotedNameExample`).
- The REST object name `name=com.foo.Bar/myMethod()` has only two `/`-parts, so
  `Tags[2]` throws `ArrayIndexOutOfBounds` (`TwoPartRestExample`). With three
  parts the class is part 1 and the method is part 2 (`ThreePartRestExample`).
- The service name is what follows the first `}` of the value
  (`ServiceNameShape`).
- Label derivation can throw:
  - a `name=`, `service=` or `port=` segment with nothing after its `=` makes
    `split("=")[1]` throw `ArrayIndexOutOfBounds`;
  - a service value without a `}`, or whose first `{` comes after its first
    `}`, makes `substring` throw `StringIndexOutOfBounds`.

  `createMetrics` propagates both (`ServiceURLShape`, `StatsNameSanitises`,
  `RowThrows`).
- When several `service=` or `port=` segments come before the first `name=`,
  the last one wins (`ScanFindsLast`).
- A REST object name with no `name=` segment gives three null slots. The
  simple timer is then registered with null tag values (`RestTagsWithoutName`).
- A metric-type cell that is not a `MetricType` constant throws
  `IllegalArgumentException` from `valueOf`. It is not skipped like the known
  but unsupported types (`RowThrows`, `MetricsApi.ValueOf`).
- A simple timer is registered under its class/method tags but tracked under
  the row ID. So `unregisterMetrics` does not remove it
  (`TimerOutlivesUnregister`). Rows registered in the base registry are not
  removed either, since unregistration looks only at vendor.

## Model

| member | source | states |
|---|---|---|
| MetricsApi.ValueOf | dev/com.ibm.ws.microprofile.metrics.2.3.monitor/src/com/ibm/ws/microprofile/metrics/monitor/MonitorMetrics.java:61 | `MetricType.valueOf` returns the constant with exactly that name, or throws IllegalArgument when no constant has it |
| MetricsApi.MetricRegistry.Register | dev/com.ibm.ws.microprofile.metrics.2.3.monitor/src/com/ibm/ws/microprofile/metrics/monitor/MonitorMetrics.java:74-76 | registering maps the ID (metadata name, tags) to the metadata and adapter; every other entry is unchanged |
| MetricsApi.MetricRegistry.Remove | dev/com.ibm.ws.microprofile.metrics.2.3.monitor/src/com/ibm/ws/microprofile/metrics/monitor/MonitorMetrics.java:210 | `remove` deletes exactly that ID and returns whether it was present |
| MetricsApi.SharedMetricRegistries.constructor | dev/com.ibm.ws.microprofile.metrics.2.3.monitor/src/com/ibm/ws/microprofile/metrics/monitor/MonitorMetrics.java:47-48 | the vendor and base registries `getOrCreate` returns are two distinct registry objects, so a row registers in exactly one of them and unregistration touches only vendor (a new pair starts empty; the source's registries may already hold metrics, which every other member allows) |
| JavaString.SecondElement | dev/com.ibm.ws.microprofile.metrics.2.3.monitor/src/com/ibm/ws/microprofile/metrics/monitor/MonitorMetrics.java:179 | `split(c)[1]` is the text between the first and second delimiter when it exists, and throws ArrayIndexOutOfBounds otherwise |
| JavaString.TrimSlice | dev/com.ibm.ws.microprofile.metrics.2.3.monitor/src/com/ibm/ws/microprofile/metrics/monitor/MonitorMetrics.java:144 | `trim` returns a slice of the segment, drops only characters at or below U+0020, and keeps nothing of that kind at either end |
| JavaString.SplitHasNoDelimiter | dev/com.ibm.ws.microprofile.metrics.2.3.monitor/src/com/ibm/ws/microprofile/metrics/monitor/MonitorMetrics.java:143 | no piece of `split(c)` contains the delimiter |
| MBeanLabel.SanitizePointwise | dev/com.ibm.ws.microprofile.metrics.2.3.monitor/src/com/ibm/ws/microprofile/metrics/monitor/MonitorMetrics.java:180-182 | the `[^a-zA-Z0-9._]` replacement keeps each letter, digit, `.` and `_` and turns every other character into `_`, position by position (the space and `/` replacements before it are absorbed by it, see `StatsNameSanitises`) |
| MBeanLabel.StatsNameSanitises | dev/com.ibm.ws.microprofile.metrics.2.3.monitor/src/com/ibm/ws/microprofile/metrics/monitor/MonitorMetrics.java:178-184 | getMBeanStatsName succeeds exactly when there is a second `=`-field and throws ArrayIndexOutOfBounds otherwise; the result is that field sanitised, of the same length, with only name characters |
| MBeanLabel.ServiceNameShape | dev/com.ibm.ws.microprofile.metrics.2.3.monitor/src/com/ibm/ws/microprofile/metrics/monitor/MonitorMetrics.java:186-191 | the service name is the unquoted value after its first `}` (the whole value when there is none), holds no quote, and the call throws exactly when the value is missing |
| MBeanLabel.SubstringBraces | dev/com.ibm.ws.microprofile.metrics.2.3.monitor/src/com/ibm/ws/microprofile/metrics/monitor/MonitorMetrics.java:196 | the substring between the braces succeeds exactly when a `}` exists and the first `{`, if any, comes before the first `}`; otherwise it throws StringIndexOutOfBounds |
| MBeanLabel.ServiceURLShape | dev/com.ibm.ws.microprofile.metrics.2.3.monitor/src/com/ibm/ws/microprofile/metrics/monitor/MonitorMetrics.java:193-199 | the service URL succeeds exactly when the value exists and its braces are in order; it is the text between them with the scheme dropped and `/` turned into `.`, and holds no `/`, quote or `}`; each failure carries its exception |
| MBeanLabel.PortNameShape | dev/com.ibm.ws.microprofile.metrics.2.3.monitor/src/com/ibm/ws/microprofile/metrics/monitor/MonitorMetrics.java:201-205 | the port name is the unquoted value, holds no quote, and the call throws ArrayIndexOutOfBounds exactly when the value is missing |
| MBeanLabel.ClassifyKind | dev/com.ibm.ws.microprofile.metrics.2.3.monitor/src/com/ibm/ws/microprofile/metrics/monitor/MonitorMetrics.java:144-157 | a trimmed segment takes the `service=` branch exactly when it contains `service=`, the `port=` branch exactly when it contains `port=` but not `service=`, the `name=` branch exactly when it contains `name=` and neither earlier key, and no branch otherwise |
| MBeanLabel.ScanFailsIff | dev/com.ibm.ws.microprofile.metrics.2.3.monitor/src/com/ibm/ws/microprofile/metrics/monitor/MonitorMetrics.java:143-158 | the scan throws exactly when some segment the loop reaches is malformed for its kind |
| MBeanLabel.ScanFindsLast | dev/com.ibm.ws.microprofile.metrics.2.3.monitor/src/com/ibm/ws/microprofile/metrics/monitor/MonitorMetrics.java:143-158 | each field is set exactly when a segment of its kind is reached, and then holds the value parsed from the last such segment |
| MBeanLabel.ScanStopsAtName | dev/com.ibm.ws.microprofile.metrics.2.3.monitor/src/com/ibm/ws/microprofile/metrics/monitor/MonitorMetrics.java:154-157 | once a `name=` segment has been read or a segment threw, later segments change nothing |
| MBeanLabel.ComposeShape | dev/com.ibm.ws.microprofile.metrics.2.3.monitor/src/com/ibm/ws/microprofile/metrics/monitor/MonitorMetrics.java:159-171 | the label is url.service.port when all three were found, otherwise the sanitised name, otherwise "unknown"; it never holds a quote |
| MBeanLabel.LabelShape | dev/com.ibm.ws.microprofile.metrics.2.3.monitor/src/com/ibm/ws/microprofile/metrics/monitor/MonitorMetrics.java:136-176 | a label that is computed is the composition of a well-formed scan of the object name's segments |
| MBeanLabel.LabelUnknown | dev/com.ibm.ws.microprofile.metrics.2.3.monitor/src/com/ibm/ws/microprofile/metrics/monitor/MonitorMetrics.java:169-171 | an object name with no service, port or name segment is labelled "unknown" |
| MBeanLabel.LabelFromFirstName | dev/com.ibm.ws.microprofile.metrics.2.3.monitor/src/com/ibm/ws/microprofile/metrics/monitor/MonitorMetrics.java:154-157 | when only unrelated segments come before the first `name=` segment, the label is (or throws as) getMBeanStatsName of that segment |
| MBeanLabel.LabelOfOtherThenName | dev/com.ibm.ws.microprofile.metrics.2.3.monitor/src/com/ibm/ws/microprofile/metrics/monitor/MonitorMetrics.java:143-168 | an unrelated segment followed by a `name=` segment is labelled by the name segment alone |
| MBeanLabel.QuotedNameExample | dev/com.ibm.ws.microprofile.metrics.2.3.monitor/src/com/ibm/ws/microprofile/metrics/monitor/MonitorMetrics.java:178-184 | `type=Stats,name="My Bean/1"` is labelled `_My_Bean_1_`, quotes sanitised rather than stripped |
| MBeanLabel.LabelOfServiceThenPort | dev/com.ibm.ws.microprofile.metrics.2.3.monitor/src/com/ibm/ws/microprofile/metrics/monitor/MonitorMetrics.java:143-165 | a service segment followed by a port segment is labelled url.service.port from their parsed values |
| MBeanLabel.ServiceLabelOfParts | dev/com.ibm.ws.microprofile.metrics.2.3.monitor/src/com/ibm/ws/microprofile/metrics/monitor/MonitorMetrics.java:136-205 | `service="{http://host/path}name",port="p"` is labelled `host.path.name.p` for every host, path, name and port without separator characters |
| MBeanLabel.RestTagsFrom | dev/com.ibm.ws.microprofile.metrics.2.3.monitor/src/com/ibm/ws/microprofile/metrics/monitor/MonitorMetrics.java:119-132 | the tag array the REST scan returns has at least three slots |
| MBeanLabel.RestTags | dev/com.ibm.ws.microprofile.metrics.2.3.monitor/src/com/ibm/ws/microprofile/metrics/monitor/MonitorMetrics.java:117-133 | getRESTMBeanStatsTags returns at least three slots, so `objName_rest[1]` and `[2]` are in bounds |
| MBeanLabel.CleanMethodHasNoParen | dev/com.ibm.ws.microprofile.metrics.2.3.monitor/src/com/ibm/ws/microprofile/metrics/monitor/MonitorMetrics.java:124-128 | after the replacements the method slot holds no `(`, so the third replacement never has an effect |
| MBeanLabel.MethodTagsShape | dev/com.ibm.ws.microprofile.metrics.2.3.monitor/src/com/ibm/ws/microprofile/metrics/monitor/MonitorMetrics.java:122-128 | the `/`-split throws ArrayIndexOutOfBounds exactly when there are fewer than three parts; otherwise every slot is its part, slot 2 cleaned of parentheses |
| MBeanLabel.RestTagsWithoutName | dev/com.ibm.ws.microprofile.metrics.2.3.monitor/src/com/ibm/ws/microprofile/metrics/monitor/MonitorMetrics.java:118-132 | with no `name=` segment the REST tags are three null slots |
| MBeanLabel.RestTagsFromFirstName | dev/com.ibm.ws.microprofile.metrics.2.3.monitor/src/com/ibm/ws/microprofile/metrics/monitor/MonitorMetrics.java:119-129 | the REST tags come from the first trimmed segment containing `name=` |
| MBeanLabel.RestTagsOfOneSegment | dev/com.ibm.ws.microprofile.metrics.2.3.monitor/src/com/ibm/ws/microprofile/metrics/monitor/MonitorMetrics.java:119-129 | an object name that is a single `name=` segment is split on `/` itself |
| MBeanLabel.RestTagsOfTwo | dev/com.ibm.ws.microprofile.metrics.2.3.monitor/src/com/ibm/ws/microprofile/metrics/monitor/MonitorMetrics.java:122-124 | a `name=` segment with only two `/`-parts throws ArrayIndexOutOfBounds |
| MBeanLabel.TwoPartRestExample | dev/com.ibm.ws.microprofile.metrics.2.3.monitor/src/com/ibm/ws/microprofile/metrics/monitor/MonitorMetrics.java:122-124 | `name=com.foo.Bar/myMethod()` throws ArrayIndexOutOfBounds |
| MBeanLabel.RestTagsOfThree | dev/com.ibm.ws.microprofile.metrics.2.3.monitor/src/com/ibm/ws/microprofile/metrics/monitor/MonitorMetrics.java:117-133 | `context/class/method` gives the slots context, class and the cleaned method |
| MBeanLabel.ThreePartRestExample | dev/com.ibm.ws.microprofile.metrics.2.3.monitor/src/com/ibm/ws/microprofile/metrics/monitor/MonitorMetrics.java:117-133 | `name=app/com.foo.Bar/myMethod()` gives `name=app`, `com.foo.Bar`, `myMethod` |
| MonitorMetrics.CacheIsTransparent | dev/com.ibm.ws.microprofile.metrics.2.3.monitor/src/com/ibm/ws/microprofile/metrics/monitor/MonitorMetrics.java:136-175 | while the cache agrees with the label, a call returns the label computed afresh, stores it on success, and never changes a filled cache |
| MonitorMetrics.EnvOf | dev/com.ibm.ws.microprofile.metrics.2.3.monitor/src/com/ibm/ws/microprofile/metrics/monitor/MonitorMetrics.java:58 | the label and REST tags a row uses are functions of the object name alone; computed REST tags have at least three slots |
| MonitorMetrics.RowThrows | dev/com.ibm.ws.microprofile.metrics.2.3.monitor/src/com/ibm/ws/microprofile/metrics/monitor/MonitorMetrics.java:53-110 | a row throws, in this order, the label's exception when it has a tag-name column, IllegalArgument for an unknown type name, or the REST tags' exception for a simple timer, and nothing else; a row that throws registers nothing and tracks nothing |
| MonitorMetrics.RowEffect | dev/com.ibm.ws.microprofile.metrics.2.3.monitor/src/com/ibm/ws/microprofile/metrics/monitor/MonitorMetrics.java:56-110 | a counter, gauge or simple-timer row registers its metadata and adapter under its ID, in vendor exactly when the registry type is "vendor" ignoring case, and tracks its row ID; any other row changes nothing |
| MonitorMetrics.FirstThrow | dev/com.ibm.ws.microprofile.metrics.2.3.monitor/src/com/ibm/ws/microprofile/metrics/monitor/MonitorMetrics.java:51-114 | finds the first row of the table that throws: every earlier row does not throw and that row does |
| MonitorMetrics.CreateAllEffect | dev/com.ibm.ws.microprofile.metrics.2.3.monitor/src/com/ibm/ws/microprofile/metrics/monitor/MonitorMetrics.java:51-114 | createMetrics throws exactly when some row throws, with that first row's exception, and tracks exactly the IDs of the rows before it |
| MonitorMetrics.CreateAllFrame | dev/com.ibm.ws.microprofile.metrics.2.3.monitor/src/com/ibm/ws/microprofile/metrics/monitor/MonitorMetrics.java:51-114 | for a table without simple-timer rows, a run that completes changes no registry entry outside the tracked IDs |
| MonitorMetrics.CreateThenUnregister | dev/com.ibm.ws.microprofile.metrics.2.3.monitor/src/com/ibm/ws/microprofile/metrics/monitor/MonitorMetrics.java:207-214 | after a completed createMetrics of a table without simple-timer rows, unregisterMetrics leaves the original vendor registry minus every tracked ID, leaves base alone and clears the tracked set |
| MonitorMetrics.TimerOutlivesUnregister | dev/com.ibm.ws.microprofile.metrics.2.3.monitor/src/com/ibm/ws/microprofile/metrics/monitor/MonitorMetrics.java:97-106 | a vendor simple timer, registered under class/method tags but tracked under its row ID, is still registered after unregisterMetrics |
| MonitorMetrics.UnregisterIdempotent | dev/com.ibm.ws.microprofile.metrics.2.3.monitor/src/com/ibm/ws/microprofile/metrics/monitor/MonitorMetrics.java:207-214 | unregistering twice is the same as once, base is never touched, and no tracked ID is left in vendor |
| MonitorMetrics.MonitorMetrics.constructor | dev/com.ibm.ws.microprofile.metrics.2.3.monitor/src/com/ibm/ws/microprofile/metrics/monitor/MonitorMetrics.java:38-43 | a new object holds the object name, an empty cache and no tracked IDs |
| MonitorMetrics.MonitorMetrics.GetMBeanStatsString | dev/com.ibm.ws.microprofile.metrics.2.3.monitor/src/com/ibm/ws/microprofile/metrics/monitor/MonitorMetrics.java:136-176 | returns the cached label when one is stored; otherwise computes the label, stores it on success, and always returns the label of the object name |
| MonitorMetrics.MonitorMetrics.ScanSegments | dev/com.ibm.ws.microprofile.metrics.2.3.monitor/src/com/ibm/ws/microprofile/metrics/monitor/MonitorMetrics.java:143-158 | the segment loop, with its `continue` and `break`, ends in the scan state of the classified segments |
| MonitorMetrics.MonitorMetrics.ScanSegment | dev/com.ibm.ws.microprofile.metrics.2.3.monitor/src/com/ibm/ws/microprofile/metrics/monitor/MonitorMetrics.java:144-157 | one loop iteration updates the scan state as the classified segment dictates |
| MonitorMetrics.MonitorMetrics.GetRESTMBeanStatsTags | dev/com.ibm.ws.microprofile.metrics.2.3.monitor/src/com/ibm/ws/microprofile/metrics/monitor/MonitorMetrics.java:117-133 | returns a fresh array holding the REST tags of the object name, or throws exactly their exception |
| MonitorMetrics.MonitorMetrics.SplitMethodSlots | dev/com.ibm.ws.microprofile.metrics.2.3.monitor/src/com/ibm/ws/microprofile/metrics/monitor/MonitorMetrics.java:122-128 | returns a fresh array holding the `/`-parts of the segment, the method slot cleaned, or throws ArrayIndexOutOfBounds |
| MonitorMetrics.MonitorMetrics.CreateMetrics | dev/com.ibm.ws.microprofile.metrics.2.3.monitor/src/com/ibm/ws/microprofile/metrics/monitor/MonitorMetrics.java:45-115 | the row loop leaves cache, tracked IDs and both registries as the table's specification run does, and throws what it throws; it keeps the cache consistent with the object name's label |
| MonitorMetrics.MonitorMetrics.CreateRow | dev/com.ibm.ws.microprofile.metrics.2.3.monitor/src/com/ibm/ws/microprofile/metrics/monitor/MonitorMetrics.java:53-61 | one row's tag, ID and type lookup change the state as the row's specification does, keeping the cache consistent with the object name's label |
| MonitorMetrics.MonitorMetrics.RegisterMetric | dev/com.ibm.ws.microprofile.metrics.2.3.monitor/src/com/ibm/ws/microprofile/metrics/monitor/MonitorMetrics.java:67-110 | the registry choice and the per-type branches register and track as the row's specification does |
| MonitorMetrics.MonitorMetrics.UnregisterMetrics | dev/com.ibm.ws.microprofile.metrics.2.3.monitor/src/com/ibm/ws/microprofile/metrics/monitor/MonitorMetrics.java:207-214 | removes every tracked ID from vendor and clears the tracked set, leaving base and the cache unchanged |

## Left out

- The platform MBean server and JMX reads: an adapter is a record of the object name and attribute names it would read. What it would read is not modelled.
- `SharedMetricRegistries.getOrCreate` beyond the two registries it returns. Registry internals are left out: re-registering an ID overwrites it, and no duplicate or conflicting-metadata exception is modelled.
- MicroProfile Config global tags added to a `MetricID`, and the validation the `Tag` constructor does on tag names.
- A null `Tag` passed to `MetricID` or `register` is modelled as no tag. A null tag value (a REST slot when no `name=` segment exists) is kept as `None`.
- `Tr.debug` tracing, and the boolean `remove` returns, which is only traced.
- The Java regex engine: the patterns used are literal strings or one character class, modelled directly.
- The `MappingTable` column indices: a row is a record with one field per column. A row shorter than the column index, and a null metric-name, metric-type or registry-type cell (a `NullPointerException`), are not modelled. These cells are non-null strings here.
- Java strings are UTF-16 code units. Here they are sequences of Unicode scalar values. `equalsIgnoreCase` is modelled with ASCII case folding.
- The iteration order of the `HashSet` in `unregisterMetrics`: the model removes the IDs in any order, which the result does not depend on.
- Concurrency: the cache and the tracked set are modelled single-threaded.
- `EchoService12PortType.java` is not part of this model: it declares a web service interface with no logic.
- MonitorMetrics.CreateAllFrame: stated for tables without simple-timer rows, because a simple timer registers under an ID other than the one it tracks (see `TimerOutlivesUnregister`).
- MonitorMetrics.CreateThenUnregister: stated for the same tables as `CreateAllFrame`, for the same reason.
