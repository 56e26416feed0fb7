/**
 * MonitorMetrics: the bridge from one MBean to MicroProfile metrics. It
 * registers one metric per row of a mapping table, tags them with the label
 * of the MBean, remembers the IDs it registered and removes them again from
 * the vendor registry.
 *
 * The first half states what createMetrics and unregisterMetrics do as
 * functions of a Bridge value (the object's fields and the two registries)
 * and proves what that means; the class at the end does the same with the
 * source's loops, and its methods are proved against those functions.
 */
module MonitorMetrics {
  import opened Wrappers
  import opened JavaString
  import opened MBeanLabel
  import opened MetricsApi

  /**
   * One row of the mapping table, the String[] that createMetrics reads by
   * the column constants of MappingTable; None stands for a null cell.
   */
  datatype MappingRow = MappingRow(
    registryType: string,
    metricName: string,
    metricType: string,
    displayName: Option<string>,
    description: Option<string>,
    unit: Option<string>,
    attribute: Option<string>,
    subAttribute: Option<string>,
    secondAttribute: Option<string>,
    secondSubAttribute: Option<string>,
    statsTagName: Option<string>)

  // ---------------------------------------------------------------------
  // The cached label
  // ---------------------------------------------------------------------

  /** What getMBeanStatsString returns, given the label a scan computes and the cached field: the cache when set. */
  function Cached(scanned: Result<string, JavaException>, cache: Option<string>): Result<string, JavaException>
  {
    if cache.Some? then Success(cache.value) else scanned
  }

  /** The cached field after getMBeanStatsString: set by a scan that succeeds, left alone otherwise. */
  function NextCache(scanned: Result<string, JavaException>, cache: Option<string>): Option<string>
  {
    match Cached(scanned, cache)
    case Success(statsLabel) => Some(statsLabel)
    case Failure(_) => cache
  }

  /** The cached field holds nothing, or the label a scan computes. */
  predicate Consistent(scanned: Result<string, JavaException>, cache: Option<string>)
  {
    cache.Some? ==> scanned == Success(cache.value)
  }

  /**
   * While the cache is consistent the caching cannot be observed: the call
   * returns the scanned label, and the cache stays consistent. Once set,
   * the cache is returned as it is and never rewritten.
   */
  lemma CacheIsTransparent(scanned: Result<string, JavaException>, cache: Option<string>)
    requires Consistent(scanned, cache)
    ensures Cached(scanned, cache) == scanned
    ensures Consistent(scanned, NextCache(scanned, cache))
    ensures scanned.Success? ==> NextCache(scanned, cache) == Some(scanned.value)
    ensures cache.Some? ==> NextCache(scanned, cache) == cache
  {
  }

  // ---------------------------------------------------------------------
  // createMetrics, row by row
  // ---------------------------------------------------------------------

  /**
   * What a row reads of the MonitorMetrics object: its object name, the
   * label getMBeanStatsString scans from it and the slots
   * getRESTMBeanStatsTags returns for it. Both are functions of the object
   * name alone, so computing them ahead changes nothing: a row only looks
   * at them (and only throws their exception) where the source calls them.
   */
  datatype Env = Env(
    objectName: string,
    statsLabel: Result<string, JavaException>,
    restTags: Result<seq<Option<string>>, JavaException>)

  /** The environment of an object name. */
  function EnvOf(objectName: string): (env: Env)
    ensures env.objectName == objectName
    ensures env.restTags.Success? ==> |env.restTags.value| >= 3
  {
    Env(objectName, StatsLabel(objectName), RestTags(objectName))
  }

  /** The slots a successful getRESTMBeanStatsTags returns have at least three entries. */
  predicate WellFormedEnv(env: Env)
  {
    env.restTags.Success? ==> |env.restTags.value| >= 3
  }

  /** The tag a row's metric gets (lines 56-59): none for a null tag-name column, else that name with the label. */
  function RowTags(row: MappingRow, statsLabel: string): Tags
  {
    if row.statsTagName.Some? then map[row.statsTagName.value := Some(statsLabel)] else map[]
  }

  /** The tags a simple timer is registered with (lines 100-105): class and method from the REST slots 1 and 2. */
  function TimerTags(slots: seq<Option<string>>): Tags
    requires |slots| >= 3
  {
    map["class" := slots[1], "method" := slots[2]]
  }

  /** The Metadata built for a row of the given type. */
  function RowMetadata(row: MappingRow, t: MetricType): Metadata
  {
    Metadata(row.metricName, row.displayName, row.description, t, row.unit)
  }

  /** The registry-type column names the vendor registry, ignoring case (line 67); any other value means base. */
  predicate IsVendorRow(row: MappingRow)
  {
    EqualsIgnoreCase(row.registryType, "vendor")
  }

  /** The object's fields that createMetrics and unregisterMetrics change, with both registries. */
  datatype Bridge = Bridge(
    statsName: Option<string>,
    ids: set<MetricID>,
    vendor: map<MetricID, Registration>,
    base: map<MetricID, Registration>)

  /** The state after some rows, and the exception that ended the call, if any. */
  datatype Outcome = Outcome(bridge: Bridge, thrown: Option<JavaException>)

  /** register on the registry a row selects. */
  function Put(b: Bridge, toVendor: bool, id: MetricID, reg: Registration): Bridge
  {
    if toVendor then b.(vendor := b.vendor[id := reg]) else b.(base := b.base[id := reg])
  }

  /** One pass of the loop of createMetrics: the label (only for a tagged row), then the type, then the registration. */
  function ProcessRow(env: Env, b: Bridge, row: MappingRow): Outcome
    requires WellFormedEnv(env)
  {
    if row.statsTagName.Some? then
      match Cached(env.statsLabel, b.statsName)
      case Failure(e) => Outcome(b, Some(e))
      case Success(statsLabel) =>
        RegisterRow(env, b.(statsName := Some(statsLabel)), row, RowTags(row, statsLabel))
    else RegisterRow(env, b, row, map[])
  }

  /** Lines 60-110: valueOf, then one registration and one tracked ID for a counter, a gauge or a simple timer. */
  function RegisterRow(env: Env, b: Bridge, row: MappingRow, tags: Tags): Outcome
    requires WellFormedEnv(env)
  {
    match ValueOf(row.metricType)
    case Failure(e) => Outcome(b, Some(e))
    case Success(t) =>
      var metricID := MetricID(row.metricName, tags);
      var md := RowMetadata(row, t);
      if t == Counter then
        var mc := MonitorCounter(env.objectName, row.attribute, row.subAttribute);
        Outcome(Put(b, IsVendorRow(row), metricID, Registration(md, mc)).(ids := b.ids + {metricID}), None)
      else if t == Gauge then
        var mg := MonitorGauge(env.objectName, row.attribute, row.subAttribute);
        Outcome(Put(b, IsVendorRow(row), metricID, Registration(md, mg)).(ids := b.ids + {metricID}), None)
      else if t == SimpleTimer then
        var mst := MonitorSimpleTimer(env.objectName, row.attribute, row.subAttribute, row.secondAttribute, row.secondSubAttribute);
        match env.restTags
        case Failure(e) => Outcome(b, Some(e))
        case Success(slots) =>
          var timerID := MetricID(row.metricName, TimerTags(slots));
          Outcome(Put(b, IsVendorRow(row), timerID, Registration(md, mst)).(ids := b.ids + {metricID}), None)
      else Outcome(b, None)
  }

  /** createMetrics: the rows in order, up to the first one that throws; the effects of earlier rows stay. */
  function CreateAll(env: Env, b: Bridge, rows: seq<MappingRow>): Outcome
    requires WellFormedEnv(env)
    decreases |rows|
  {
    if rows == [] then Outcome(b, None)
    else
      var out := ProcessRow(env, b, rows[0]);
      if out.thrown.Some? then out else CreateAll(env, out.bridge, rows[1..])
  }

  /** unregisterMetrics: every tracked ID removed from the vendor registry, and nothing tracked any more. */
  function Unregistered(b: Bridge): Bridge
  {
    b.(vendor := b.vendor - b.ids, ids := {})
  }

  // ---------------------------------------------------------------------
  // What a row does, stated without the loop
  // ---------------------------------------------------------------------

  /** The types createMetrics registers; any other type is skipped. */
  predicate IsRegisteredType(t: MetricType)
  {
    t == Counter || t == Gauge || t == SimpleTimer
  }

  /** A row whose type names a constant that createMetrics registers. */
  predicate TracksRow(row: MappingRow)
  {
    ValueOf(row.metricType).Success? && IsRegisteredType(ValueOf(row.metricType).value)
  }

  /** The exception a row throws, if any, in the order the source meets them: line 58, line 61, line 98. */
  function RowException(env: Env, row: MappingRow): Option<JavaException>
  {
    if row.statsTagName.Some? && env.statsLabel.Failure? then Some(env.statsLabel.error)
    else if ValueOf(row.metricType).Failure? then Some(IllegalArgument)
    else if ValueOf(row.metricType).value == SimpleTimer && env.restTags.Failure? then Some(env.restTags.error)
    else None
  }

  /** The MetricID a row adds to metricIDs (line 60): the metric name with the row's tag, if it has one. */
  function RowID(env: Env, row: MappingRow): MetricID
  {
    var tags := if row.statsTagName.Some? && env.statsLabel.Success?
      then RowTags(row, env.statsLabel.value) else map[];
    MetricID(row.metricName, tags)
  }

  /** The MetricID a row is registered under: the tracked one, except for a simple timer, which gets class and method. */
  function RegisteredID(env: Env, row: MappingRow): MetricID
    requires WellFormedEnv(env) && TracksRow(row) && RowException(env, row).None?
  {
    if ValueOf(row.metricType).value == SimpleTimer then MetricID(row.metricName, TimerTags(env.restTags.value))
    else RowID(env, row)
  }

  /** The adapter a row registers; a null sub-attribute column selects the constructor without one. */
  function RowAdapter(objectName: string, row: MappingRow): Adapter
    requires TracksRow(row)
  {
    match ValueOf(row.metricType).value
    case Counter => MonitorCounter(objectName, row.attribute, row.subAttribute)
    case Gauge => MonitorGauge(objectName, row.attribute, row.subAttribute)
    case _ => MonitorSimpleTimer(objectName, row.attribute, row.subAttribute, row.secondAttribute, row.secondSubAttribute)
  }

  /** A row throws exactly what RowException says, and then changes nothing but the cache, which stays consistent. */
  lemma RowThrows(env: Env, b: Bridge, row: MappingRow)
    requires WellFormedEnv(env) && Consistent(env.statsLabel, b.statsName)
    ensures var out := ProcessRow(env, b, row);
      && out.thrown == RowException(env, row)
      && Consistent(env.statsLabel, out.bridge.statsName)
      && (out.thrown.Some? ==> out.bridge.ids == b.ids && out.bridge.vendor == b.vendor && out.bridge.base == b.base)
  {
    CacheIsTransparent(env.statsLabel, b.statsName);
  }

  /**
   * A row that does not throw: a counter, gauge or simple timer row
   * registers one metric, in vendor exactly when the registry-type column
   * is "vendor" ignoring case, and tracks its row ID; any other row changes
   * no registry and no ID.
   */
  lemma RowEffect(env: Env, b: Bridge, row: MappingRow)
    requires WellFormedEnv(env) && Consistent(env.statsLabel, b.statsName)
    requires RowException(env, row).None?
    ensures var out := ProcessRow(env, b, row);
      && out.thrown.None?
      && (!TracksRow(row) ==>
            out.bridge.ids == b.ids && out.bridge.vendor == b.vendor && out.bridge.base == b.base)
      && (TracksRow(row) ==>
            var reg := Registration(RowMetadata(row, ValueOf(row.metricType).value), RowAdapter(env.objectName, row));
            && out.bridge.ids == b.ids + {RowID(env, row)}
            && (IsVendorRow(row) ==>
                  out.bridge.vendor == b.vendor[RegisteredID(env, row) := reg] && out.bridge.base == b.base)
            && (!IsVendorRow(row) ==>
                  out.bridge.base == b.base[RegisteredID(env, row) := reg] && out.bridge.vendor == b.vendor))
  {
    CacheIsTransparent(env.statsLabel, b.statsName);
    var tags := if row.statsTagName.Some? then RowTags(row, env.statsLabel.value) else map[];
    var mid := if row.statsTagName.Some? then b.(statsName := Some(env.statsLabel.value)) else b;
    assert ProcessRow(env, b, row) == RegisterRow(env, mid, row, tags);
    assert RowID(env, row) == MetricID(row.metricName, tags);
  }

  /** The IDs the given rows track. */
  function TrackedIDs(env: Env, rows: seq<MappingRow>): set<MetricID>
  {
    set k | 0 <= k < |rows| && TracksRow(rows[k]) :: RowID(env, rows[k])
  }

  /** The index of the first row that throws, or the number of rows when none does. */
  function FirstThrow(env: Env, rows: seq<MappingRow>): (n: nat)
    ensures n <= |rows|
    ensures forall k :: 0 <= k < n ==> RowException(env, rows[k]).None?
    ensures n < |rows| ==> RowException(env, rows[n]).Some?
    decreases |rows|
  {
    if rows == [] then 0
    else if RowException(env, rows[0]).Some? then 0
    else 1 + FirstThrow(env, rows[1..])
  }

  /** The tracked IDs of a row followed by more rows. */
  lemma TrackedIDsCons(env: Env, rows: seq<MappingRow>)
    requires rows != []
    ensures TrackedIDs(env, rows) ==
      (if TracksRow(rows[0]) then {RowID(env, rows[0])} else {}) + TrackedIDs(env, rows[1..])
  {
    var rest := rows[1..];
    forall id | id in TrackedIDs(env, rows)
      ensures id in (if TracksRow(rows[0]) then {RowID(env, rows[0])} else {}) + TrackedIDs(env, rest)
    {
      var k :| 0 <= k < |rows| && TracksRow(rows[k]) && id == RowID(env, rows[k]);
      if k > 0 {
        assert rest[k - 1] == rows[k];
      }
    }
    forall id | id in TrackedIDs(env, rest)
      ensures id in TrackedIDs(env, rows)
    {
      var k :| 0 <= k < |rest| && TracksRow(rest[k]) && id == RowID(env, rest[k]);
      assert rows[k + 1] == rest[k];
    }
  }

  /**
   * createMetrics from a consistent cache throws exactly when some row
   * throws, and then what the first such row throws; the IDs it tracks are
   * those of the rows before that one (all rows when none throws), added to
   * the ones already tracked; the cache stays consistent.
   */
  lemma {:induction false} CreateAllEffect(env: Env, b: Bridge, rows: seq<MappingRow>)
    requires WellFormedEnv(env) && Consistent(env.statsLabel, b.statsName)
    ensures var out := CreateAll(env, b, rows);
      var n := FirstThrow(env, rows);
      && (out.thrown.None? <==> n == |rows|)
      && (n < |rows| ==> out.thrown == RowException(env, rows[n]))
      && out.bridge.ids == b.ids + TrackedIDs(env, rows[..n])
      && Consistent(env.statsLabel, out.bridge.statsName)
    decreases |rows|
  {
    var n := FirstThrow(env, rows);
    if rows == [] {
      assert TrackedIDs(env, rows[..n]) == {};
    } else {
      RowThrows(env, b, rows[0]);
      var first := ProcessRow(env, b, rows[0]);
      if first.thrown.Some? {
        assert n == 0;
        assert TrackedIDs(env, rows[..n]) == {};
      } else {
        RowEffect(env, b, rows[0]);
        CreateAllEffect(env, first.bridge, rows[1..]);
        assert rows[..n][1..] == rows[1..][..n - 1];
        TrackedIDsCons(env, rows[..n]);
      }
    }
  }

  /** A row that registers no simple timer registers under the ID it tracks. */
  predicate RegistersTracked(row: MappingRow)
  {
    ValueOf(row.metricType) != Success(SimpleTimer)
  }

  /** Updating a map under a key of the removed set does not change what is left. */
  lemma UpdateRemoved<K, V>(m: map<K, V>, k: K, v: V, removed: set<K>)
    requires k in removed
    ensures m[k := v] - removed == m - removed
  {
    assert (m[k := v] - removed).Keys == (m - removed).Keys;
  }

  /** Removing part of a set first and then all of it is removing all of it. */
  lemma RemovePartFirst<K, V>(m: map<K, V>, part: set<K>, whole: set<K>)
    requires part <= whole
    ensures (m - part) - whole == m - whole
  {
    assert ((m - part) - whole).Keys == (m - whole).Keys;
  }

  /**
   * Without simple timers, createMetrics changes each registry only under
   * the IDs it tracks: outside those IDs both registries are as before.
   */
  lemma {:induction false} CreateAllFrame(env: Env, b: Bridge, rows: seq<MappingRow>)
    requires WellFormedEnv(env) && Consistent(env.statsLabel, b.statsName)
    requires CreateAll(env, b, rows).thrown.None?
    requires forall k :: 0 <= k < |rows| ==> RegistersTracked(rows[k])
    ensures var out := CreateAll(env, b, rows).bridge;
      var tracked := TrackedIDs(env, rows);
      out.vendor - tracked == b.vendor - tracked && out.base - tracked == b.base - tracked
    decreases |rows|
  {
    if rows != [] {
      var row := rows[0];
      var rest := rows[1..];
      RowThrows(env, b, row);
      RowEffect(env, b, row);
      var mid := ProcessRow(env, b, row).bridge;
      assert forall k :: 0 <= k < |rest| ==> rest[k] == rows[k + 1];
      CreateAllFrame(env, mid, rest);
      TrackedIDsCons(env, rows);
      var out := CreateAll(env, b, rows).bridge;
      var tracked := TrackedIDs(env, rows);
      var later := TrackedIDs(env, rest);
      assert out == CreateAll(env, mid, rest).bridge;
      RemovePartFirst(out.vendor, later, tracked);
      RemovePartFirst(out.base, later, tracked);
      RemovePartFirst(mid.vendor, later, tracked);
      RemovePartFirst(mid.base, later, tracked);
      if TracksRow(row) {
        var reg := Registration(RowMetadata(row, ValueOf(row.metricType).value), RowAdapter(env.objectName, row));
        UpdateRemoved(b.vendor, RowID(env, row), reg, tracked);
        UpdateRemoved(b.base, RowID(env, row), reg, tracked);
      }
    }
  }

  /**
   * Create, then unregister: when no row throws and none is a simple
   * timer, unregisterMetrics leaves the vendor registry as it was before
   * createMetrics except that every ID tracked before or by it is gone.
   * Registrations in base stay (nothing is removed from base).
   */
  lemma CreateThenUnregister(env: Env, b: Bridge, rows: seq<MappingRow>)
    requires WellFormedEnv(env) && Consistent(env.statsLabel, b.statsName)
    requires CreateAll(env, b, rows).thrown.None?
    requires forall k :: 0 <= k < |rows| ==> RegistersTracked(rows[k])
    ensures var tracked := TrackedIDs(env, rows);
      var after := Unregistered(CreateAll(env, b, rows).bridge);
      && after.vendor == b.vendor - (b.ids + tracked)
      && after.base == CreateAll(env, b, rows).bridge.base
      && after.ids == {}
  {
    var out := CreateAll(env, b, rows);
    var tracked := TrackedIDs(env, rows);
    CreateAllEffect(env, b, rows);
    CreateAllFrame(env, b, rows);
    assert rows[..|rows|] == rows;
    assert out.bridge.ids == b.ids + tracked;
    assert out.bridge.vendor - (b.ids + tracked) == (out.bridge.vendor - tracked) - b.ids;
    assert b.vendor - (b.ids + tracked) == (b.vendor - tracked) - b.ids;
  }

  /**
   * A simple timer is registered under class and method tags but tracked
   * under the row's own tag, which has at most one entry; so unregister
   * misses it. Registered in vendor under an ID not tracked before, it is
   * still there after unregisterMetrics.
   */
  lemma TimerOutlivesUnregister(env: Env, b: Bridge, row: MappingRow)
    requires WellFormedEnv(env) && Consistent(env.statsLabel, b.statsName)
    requires ValueOf(row.metricType) == Success(SimpleTimer) && IsVendorRow(row)
    requires RowException(env, row).None? && RegisteredID(env, row) !in b.ids
    ensures RegisteredID(env, row) in Unregistered(ProcessRow(env, b, row).bridge).vendor
  {
    RowEffect(env, b, row);
    var timerID := RegisteredID(env, row);
    assert "class" in timerID.tags && "method" in timerID.tags;
  }

  /** Unregistering twice is unregistering once, and base is never touched. */
  lemma UnregisterIdempotent(b: Bridge)
    ensures Unregistered(Unregistered(b)) == Unregistered(b)
    ensures Unregistered(b).base == b.base
    ensures forall id :: id in b.ids ==> id !in Unregistered(b).vendor
  {
  }

  // ---------------------------------------------------------------------
  // The class
  // ---------------------------------------------------------------------

  class MonitorMetrics {
    const objectName: string
    var mbeanStatsName: Option<string>
    var metricIDs: set<MetricID>

    /** The cached label, once set, is the label of the object name. */
    ghost predicate Valid()
      reads this
    {
      Consistent(StatsLabel(objectName), mbeanStatsName)
    }

    /** The fields as a Bridge, with the registries' contents. */
    function State(shared: SharedMetricRegistries): Bridge
      reads this, shared.vendor, shared.base
    {
      Bridge(mbeanStatsName, metricIDs, shared.vendor.metrics, shared.base.metrics)
    }

    constructor (objectName: string)
      ensures this.objectName == objectName && mbeanStatsName == None && metricIDs == {}
      ensures Valid()
    {
      this.objectName := objectName;
      mbeanStatsName := None;
      metricIDs := {};
    }

    /**
     * getMBeanStatsString: the cached label when set; otherwise one scan of
     * the segments of the object name, whose result is cached when it does
     * not throw.
     */
    method GetMBeanStatsString() returns (statsLabel: Result<string, JavaException>)
      modifies this`mbeanStatsName
      ensures statsLabel == Cached(StatsLabel(objectName), old(mbeanStatsName))
      ensures mbeanStatsName == NextCache(StatsLabel(objectName), old(mbeanStatsName))
      ensures old(mbeanStatsName).Some? ==> statsLabel == Success(old(mbeanStatsName).value) && mbeanStatsName == old(mbeanStatsName)
      ensures old(Valid()) ==> Valid() && statsLabel == StatsLabel(objectName)
    {
      if mbeanStatsName.Some? {
        return Success(mbeanStatsName.value);
      }
      var scanned := ScanSegments(Split(objectName, ','));
      if scanned.Failure? {
        return Failure(scanned.error);
      }
      var st := scanned.value;
      var sb := "";
      if st.serviceURL.Some? && st.serviceName.Some? && st.portName.Some? {
        sb := sb + st.serviceURL.value;
        assert sb == st.serviceURL.value;
        sb := sb + ".";
        sb := sb + st.serviceName.value;
        sb := sb + ".";
        sb := sb + st.portName.value;
      } else if st.mbeanObjName.Some? {
        sb := sb + st.mbeanObjName.value;
        assert sb == st.mbeanObjName.value;
      } else {
        sb := sb + "unknown";
        assert sb == "unknown";
      }
      assert sb == Compose(st);
      assert StatsLabel(objectName) == Success(Compose(st));
      mbeanStatsName := Some(sb);
      return Success(sb);
    }

    /**
     * The loop of getMBeanStatsString over the segments: one body per
     * segment, until the first name= segment or the first exception.
     */
    method ScanSegments(segments: seq<string>) returns (scanned: Result<ScanState, JavaException>)
      ensures scanned == Scan(Classified(segments))
    {
      var st := Unscanned;
      var i := 0;
      while i < |segments|
        invariant 0 <= i <= |segments|
        invariant st.mbeanObjName.None?
        invariant Scan(Classified(segments[..i])) == Success(st)
      {
        ScanClassifiedSnoc(segments, i);
        var next := ScanSegment(st, segments[i]);
        if next.Failure? || next.value.mbeanObjName.Some? {
          ScanClassifiedStops(segments, i + 1);
          return next;
        }
        st := next.value;
        i := i + 1;
      }
      assert segments[..i] == segments;
      return Success(st);
    }

    /**
     * The body of that loop on one segment: trim it, then the service=,
     * port= and name= tests in that order; the helpers it calls may throw.
     */
    method ScanSegment(st: ScanState, raw: string) returns (next: Result<ScanState, JavaException>)
      requires st.mbeanObjName.None?
      ensures next == ScanStep(st, Classify(raw))
    {
      var subString := Trim(raw);
      if Contains(subString, "service=") {
        var serviceName := ServiceName(subString);
        if serviceName.Failure? {
          return Failure(serviceName.error);
        }
        var serviceURL := ServiceURL(subString);
        if serviceURL.Failure? {
          return Failure(serviceURL.error);
        }
        return Success(st.(serviceName := Some(serviceName.value), serviceURL := Some(serviceURL.value)));
      }
      if Contains(subString, "port=") {
        var portName := PortName(subString);
        if portName.Failure? {
          return Failure(portName.error);
        }
        return Success(st.(portName := Some(portName.value)));
      }
      if Contains(subString, "name=") {
        var mbeanObjName := StatsName(subString);
        if mbeanObjName.Failure? {
          return Failure(mbeanObjName.error);
        }
        return Success(st.(mbeanObjName := Some(mbeanObjName.value)));
      }
      return Success(st);
    }

    /**
     * getRESTMBeanStatsTags: three nulls, or the '/'-parts of the first
     * segment that contains name=, with the method slot cleaned in place.
     */
    method GetRESTMBeanStatsTags() returns (tags: Result<array<Option<string>>, JavaException>)
      ensures tags.Success? <==> RestTags(objectName).Success?
      ensures tags.Success? ==> fresh(tags.value) && tags.value[..] == RestTags(objectName).value
      ensures tags.Failure? ==> tags.error == RestTags(objectName).error
    {
      var slots := new Option<string>[3](_ => None);
      var segments := Split(objectName, ',');
      var i := 0;
      while i < |segments|
        invariant 0 <= i <= |segments|
        invariant RestTagsFrom(segments[i..]) == RestTags(objectName)
        invariant fresh(slots) && slots[..] == [None, None, None]
      {
        var subString := Trim(segments[i]);
        if Contains(subString, "name=") {
          tags := SplitMethodSlots(subString);
          return;
        }
        assert segments[i..][1..] == segments[i + 1..];
        i := i + 1;
      }
      return Success(slots);
    }

    /** The name= branch of getRESTMBeanStatsTags: the '/'-parts as an array, slot 2 cleaned in place (lines 122-129). */
    method SplitMethodSlots(subString: string) returns (tags: Result<array<Option<string>>, JavaException>)
      ensures tags.Success? <==> MethodTags(subString).Success?
      ensures tags.Success? ==> fresh(tags.value) && tags.value[..] == MethodTags(subString).value
      ensures tags.Failure? ==> tags.error == MethodTags(subString).error
    {
      var parts := Split(subString, '/');
      var split := new Option<string>[|parts|](k => if 0 <= k < |parts| then Some(parts[k]) else None);
      if split.Length < 3 {
        return Failure(ArrayIndexOutOfBounds);
      }
      split[2] := Some(Replace(split[2].value, "()", ""));
      split[2] := Some(Replace(split[2].value, "(", "_"));
      split[2] := Some(Replace(split[2].value, "(", ""));
      MethodTagsShape(subString);
      assert forall k :: 0 <= k < |parts| && k != 2 ==> split[k] == Some(parts[k]);
      assert split[2] == Some(CleanMethod(parts[2]));
      assert split[..] == MethodTags(subString).value;
      return Success(split);
    }

    /**
     * createMetrics: every row in order, as CreateAll says; an exception
     * ends the call and is returned, with the effects of the earlier rows
     * kept.
     */
    method CreateMetrics(shared: SharedMetricRegistries, data: seq<MappingRow>) returns (thrown: Option<JavaException>)
      requires shared.Valid()
      modifies this, shared.vendor, shared.base
      ensures State(shared) == CreateAll(EnvOf(objectName), old(State(shared)), data).bridge
      ensures thrown == CreateAll(EnvOf(objectName), old(State(shared)), data).thrown
      ensures old(Valid()) ==> Valid()
    {
      var env := EnvOf(objectName);
      var i := 0;
      while i < |data|
        invariant 0 <= i <= |data|
        invariant CreateAll(env, State(shared), data[i..]) == CreateAll(env, old(State(shared)), data)
        invariant old(Valid()) ==> Valid()
      {
        assert data[i..][0] == data[i] && data[i..][1..] == data[i + 1..];
        thrown := CreateRow(shared, data[i]);
        if thrown.Some? {
          return;
        }
        i := i + 1;
      }
      return None;
    }

    /** One pass of the loop body of createMetrics: the label for a tagged row (lines 53-59), then the registration. */
    method CreateRow(shared: SharedMetricRegistries, metricData: MappingRow) returns (thrown: Option<JavaException>)
      requires shared.Valid()
      modifies this, shared.vendor, shared.base
      ensures Outcome(State(shared), thrown) == ProcessRow(EnvOf(objectName), old(State(shared)), metricData)
      ensures old(Valid()) ==> Valid()
    {
      if Valid() {
        RowThrows(EnvOf(objectName), State(shared), metricData);
      }
      var metricTag: Tags := map[];
      if metricData.statsTagName.Some? {
        var statsLabel := GetMBeanStatsString();
        if statsLabel.Failure? {
          return Some(statsLabel.error);
        }
        metricTag := RowTags(metricData, statsLabel.value);
      }
      thrown := RegisterMetric(shared, metricData, metricTag);
    }

    /** Lines 60-110 for one row: valueOf, then one registration and one tracked ID for a counter, a gauge or a simple timer. */
    method RegisterMetric(shared: SharedMetricRegistries, metricData: MappingRow, metricTag: Tags) returns (thrown: Option<JavaException>)
      requires shared.Valid()
      modifies this`metricIDs, shared.vendor, shared.base
      ensures Outcome(State(shared), thrown) == RegisterRow(EnvOf(objectName), old(State(shared)), metricData, metricTag)
    {
      var metricID := MetricID(metricData.metricName, metricTag);
      var typ := ValueOf(metricData.metricType);
      if typ.Failure? {
        return Some(typ.error);
      }
      var metricRegistry := if IsVendorRow(metricData) then shared.vendor else shared.base;
      var md := RowMetadata(metricData, typ.value);
      if typ.value == Counter {
        var mc := MonitorCounter(objectName, metricData.attribute, metricData.subAttribute);
        metricRegistry.Register(md, mc, metricTag);
        metricIDs := metricIDs + {metricID};
      } else if typ.value == Gauge {
        var mg := MonitorGauge(objectName, metricData.attribute, metricData.subAttribute);
        metricRegistry.Register(md, mg, metricTag);
        metricIDs := metricIDs + {metricID};
      } else if typ.value == SimpleTimer {
        var mst := MonitorSimpleTimer(objectName, metricData.attribute, metricData.subAttribute,
          metricData.secondAttribute, metricData.secondSubAttribute);
        var objNameRest := GetRESTMBeanStatsTags();
        if objNameRest.Failure? {
          return Some(objNameRest.error);
        }
        var classTag := objNameRest.value[1];
        var methodTag := objNameRest.value[2];
        metricRegistry.Register(md, mst, map["class" := classTag, "method" := methodTag]);
        metricIDs := metricIDs + {metricID};
      }
      return None;
    }

    /** unregisterMetrics: each tracked ID removed from the vendor registry, whatever remove answers; then none is tracked. */
    method UnregisterMetrics(shared: SharedMetricRegistries)
      requires shared.Valid()
      modifies this`metricIDs, shared.vendor
      ensures State(shared) == Unregistered(old(State(shared)))
    {
      var registry := shared.vendor;
      var pending := metricIDs;
      while pending != {}
        invariant pending <= metricIDs
        invariant registry.metrics == old(registry.metrics) - (metricIDs - pending)
        invariant metricIDs == old(metricIDs)
        decreases |pending|
      {
        var metricID :| metricID in pending;
        var removed := registry.Remove(metricID);
        pending := pending - {metricID};
        assert registry.metrics == old(registry.metrics) - (metricIDs - pending);
      }
      assert registry.metrics == old(registry.metrics) - metricIDs;
      metricIDs := {};
    }
  }
}
