/**
 * The parts of the MicroProfile Metrics 2.3 API and of the monitor package
 * that MonitorMetrics uses: MetricType and its valueOf, MetricID, Metadata,
 * the adapter objects it registers, and the registries it registers them in.
 * Only what MonitorMetrics observes of them is modelled.
 */
module MetricsApi {
  import opened Wrappers
  import opened JavaString

  /** The constants of org.eclipse.microprofile.metrics.MetricType in version 2.3. */
  datatype MetricType =
    | Counter | ConcurrentGauge | Gauge | Metered | Histogram | Timer | SimpleTimer | Invalid

  /** The Java name of each constant, which valueOf accepts. */
  function ConstantName(t: MetricType): string
  {
    match t
    case Counter => "COUNTER"
    case ConcurrentGauge => "CONCURRENT_GAUGE"
    case Gauge => "GAUGE"
    case Metered => "METERED"
    case Histogram => "HISTOGRAM"
    case Timer => "TIMER"
    case SimpleTimer => "SIMPLE_TIMER"
    case Invalid => "INVALID"
  }

  /** MetricType.valueOf: the constant with exactly that name, else IllegalArgumentException. */
  function ValueOf(name: string): (r: Result<MetricType, JavaException>)
    ensures r.Success? ==> ConstantName(r.value) == name
    ensures r.Failure? ==> r.error == IllegalArgument && forall t: MetricType :: ConstantName(t) != name
  {
    if name == "COUNTER" then Success(Counter)
    else if name == "CONCURRENT_GAUGE" then Success(ConcurrentGauge)
    else if name == "GAUGE" then Success(Gauge)
    else if name == "METERED" then Success(Metered)
    else if name == "HISTOGRAM" then Success(Histogram)
    else if name == "TIMER" then Success(Timer)
    else if name == "SIMPLE_TIMER" then Success(SimpleTimer)
    else if name == "INVALID" then Success(Invalid)
    else Failure(IllegalArgument)
  }

  /** The tags of a metric, by tag name; a None value is a Tag built with a null value. */
  type Tags = map<string, Option<string>>

  /** A metric's identity in a registry: its name and its tags. */
  datatype MetricID = MetricID(name: string, tags: Tags)

  /** What Metadata.builder() is given; None stands for a null argument. */
  datatype Metadata = Metadata(
    name: string,
    displayName: Option<string>,
    description: Option<string>,
    metricType: MetricType,
    unit: Option<string>)

  /**
   * The adapters of the monitor package, recorded by what they are built
   * with: the object name and the attribute names they read. A subAttribute
   * of None stands for the constructor without a sub-attribute.
   */
  datatype Adapter =
    | MonitorCounter(objectName: string, attribute: Option<string>, subAttribute: Option<string>)
    | MonitorGauge(objectName: string, attribute: Option<string>, subAttribute: Option<string>)
    | MonitorSimpleTimer(
        objectName: string,
        attribute: Option<string>,
        subAttribute: Option<string>,
        secondAttribute: Option<string>,
        secondSubAttribute: Option<string>)

  /** What a registry holds under one MetricID. */
  datatype Registration = Registration(metadata: Metadata, metric: Adapter)

  /** One MetricRegistry: the metrics it holds, by MetricID. */
  class MetricRegistry {
    var metrics: map<MetricID, Registration>

    constructor ()
      ensures metrics == map[]
    {
      metrics := map[];
    }

    /** register(metadata, metric, tags...): the metric is held under the metadata's name and the tags. */
    method Register(metadata: Metadata, metric: Adapter, tags: Tags)
      modifies this
      ensures metrics == old(metrics)[MetricID(metadata.name, tags) := Registration(metadata, metric)]
    {
      metrics := metrics[MetricID(metadata.name, tags) := Registration(metadata, metric)];
    }

    /** remove(metricID): true exactly when a metric was held under that ID; afterwards none is. */
    method Remove(id: MetricID) returns (removed: bool)
      modifies this
      ensures removed == (id in old(metrics))
      ensures metrics == old(metrics) - {id}
    {
      removed := id in metrics;
      metrics := metrics - {id};
    }
  }

  /** The shared registries, as getOrCreate returns them for the vendor and the base scope. */
  class SharedMetricRegistries {
    const vendor: MetricRegistry
    const base: MetricRegistry

    /** The two scopes are two different registries. */
    ghost predicate Valid()
    {
      vendor != base
    }

    constructor ()
      ensures Valid() && fresh(vendor) && fresh(base)
      ensures vendor.metrics == map[] && base.metrics == map[]
    {
      vendor := new MetricRegistry();
      base := new MetricRegistry();
    }
  }
}
