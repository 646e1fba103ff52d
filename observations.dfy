/** The record shapes of the monitoring agent's observations, as the JSON
    decoder fills them in. Go pointers that may be nil are Options. */
module Observations {
  import opened Wrappers

  /** A 64-bit IEEE float, kept as its bit pattern: the shim only copies
      metric values, it never computes with them. */
  datatype Float64 = Float64(bits: bv64)

  /** The dynamically typed `value` of a metric. The JSON decoder yields a
      float64 for every JSON number; strings, booleans, null, arrays and
      objects are all `Other` here, since the shim treats them alike. */
  datatype MetricValue = Number(n: Float64) | Other

  datatype ObservationMetric = ObservationMetric(
    metricType: string,
    value: MetricValue,
    unit: string)

  /** One observation. `metrics` maps a field name to a pointer to its
      metric, so an entry may be nil (a JSON `null`). The Go field widths
      (uint64, int32, int64) are not modelled: these values are only copied. */
  datatype Observation = Observation(
    version: nat,
    accountId: string,
    available: bool,
    checkId: string,
    checkType: Option<string>,
    collectorId: Option<string>,
    collectorKeys: seq<string>,
    entityId: string,
    monitoringZoneId: Option<string>,
    period: int,
    status: Option<string>,
    target: string,
    tenantId: Option<string>,
    timestamp: int,
    metrics: map<string, Option<ObservationMetric>>)
}
