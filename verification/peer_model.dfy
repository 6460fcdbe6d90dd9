/**
 * The records of the metrics response the program decodes, and the per-peer
 * counter record it aggregates them into (`device_peer_csv.go`).
 */
module PeerModel {
  import opened Wrappers
  import opened Strconv

  /** The number of counters per peer: the length of the `[4]int` array. */
  const Slots: nat := 4

  /** A `[4]int`: one counter per requested metric, in request order. */
  type Counters = m: seq<Int64> | |m| == 4 witness [0, 0, 0, 0]

  datatype KeyDetail = KeyDetail(keyType: string, addr: string, deviceOid: Int64)

  datatype Value = Value(key: KeyDetail, vtype: string, value: Int64)

  /** One object's statistics: one group of per-peer values per requested metric. */
  datatype Stat = Stat(oid: Int64, time: Int64, duration: Int64, values: seq<seq<Value>>)

  /**
   * The decoded response. Only its `stats` take part in the computation, and
   * the aggregation takes them directly (`Aggregation.Aggregate`).
   */
  datatype MetricRsp = MetricRsp(
    stats: seq<Stat>, cycle: string, nodeId: Int64, from: Int64, until: Int64, clock: Int64)

  datatype PeerDetails = PeerDetails(metrics: Counters)

  /** The `peerList` map, keyed by peer address. */
  type PeerList = map<string, PeerDetails>

  /** Go's zero value of `peerDetails`, which reading an absent key of a map yields. */
  const ZeroDetails: PeerDetails := PeerDetails([0, 0, 0, 0])

  /** `newPeerDetails`: a fresh record whose four counters are all zero. */
  function NewPeerDetails(): (p: PeerDetails)
    ensures forall i | 0 <= i < Slots :: p.metrics[i] == 0
    ensures p == ZeroDetails
  {
    PeerDetails([0, 0, 0, 0])
  }

  /** The map literal inside `mapToMetric`. */
  const MetricLabels: map<int, string> :=
    map[0 := "BytesIn", 1 := "BytesOut", 2 := "PacketsIn", 3 := "PacketsOut"]

  /**
   * `mapToMetric(i)`: the name of counter `i`; a key missing from the Go map
   * reads as the empty string.
   */
  function MapToMetric(i: int): (name: string)
    ensures name != "" <==> 0 <= i < Slots
    ensures i == 0 ==> name == "BytesIn"
    ensures i == 1 ==> name == "BytesOut"
    ensures i == 2 ==> name == "PacketsIn"
    ensures i == 3 ==> name == "PacketsOut"
  {
    if i in MetricLabels then MetricLabels[i] else ""
  }

  /** The counter a metric name denotes: the inverse of `MapToMetric`. */
  function MetricIndex(name: string): (r: Option<nat>)
    ensures r.Some? ==> r.value < Slots
  {
    if name == "BytesIn" then Some(0)
    else if name == "BytesOut" then Some(1)
    else if name == "PacketsIn" then Some(2)
    else if name == "PacketsOut" then Some(3)
    else None
  }

  /** Every counter has a name of its own, and every name denotes exactly one counter. */
  lemma MetricLabelsRoundTrip(i: int, name: string)
    ensures 0 <= i < Slots ==> MetricIndex(MapToMetric(i)) == Some(i)
    ensures MetricIndex(name) == Some(i) ==> MapToMetric(i) == name
  {
  }

}
