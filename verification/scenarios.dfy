/**
 * What the model yields for small concrete responses, proved by lemma: the
 * table `main` builds for them and the file it writes.
 */
module Scenarios {
  import opened Wrappers
  import opened Strconv
  import opened PeerModel
  import opened Aggregation
  import opened CsvOutput

  /** A value of the peer at `addr` reported for device 42. */
  function PeerValue(addr: string, v: Int64): Value {
    Value(KeyDetail("ipaddr", addr, 42), "count", v)
  }

  /** A stat of device 42 carrying one group per requested metric, each with one value of the peer. */
  function FourMetrics(addr: string, m: Counters): Stat {
    Stat(42, 0, 30000, [[PeerValue(addr, m[0])], [PeerValue(addr, m[1])],
                        [PeerValue(addr, m[2])], [PeerValue(addr, m[3])]])
  }

  /**
   * The counter a stat writes into slot `i` when its group `i` holds a single
   * value of the peer.
   */
  lemma SingleValueSlot(stats: seq<Stat>, st: Stat, a: string, i: nat, v: Int64)
    requires i < |st.values| && st.values[i] == [PeerValue(a, v)]
    ensures SlotValue(Entries(stats + [st]), a, i) == v
  {
    LaterStatWins(stats, st, a, i);
    StatSlot(st.values, a, i);
    GroupSlot(i, st.values[i], a);
  }

  /** Two stats for one peer yield that one peer. */
  lemma TwoStatsKeys(a: string, p: Counters, q: Counters)
    ensures Aggregate([FourMetrics(a, p), FourMetrics(a, q)]).Success?
    ensures Aggregate([FourMetrics(a, p), FourMetrics(a, q)]).value.Keys == {a}
  {
    var stats := [FourMetrics(a, p), FourMetrics(a, q)];
    AtMostFourGroupsSucceeds(stats);
    assert Occurs(stats, 0, 0, 0);
    assert forall s, g, j | Occurs(stats, s, g, j) :: stats[s].values[g][j].key.addr == a;
  }

  /**
   * A last stat whose group `i` holds one value of the peer, for every `i`,
   * decides all of the peer's counters, whatever came before it.
   */
  lemma LastStatDecides(first: seq<Stat>, last: Stat, a: string, q: Counters)
    requires |last.values| == Slots
    requires forall i | 0 <= i < Slots :: last.values[i] == [PeerValue(a, q[i])]
    ensures Aggregate(first + [last]).Success? && a in Aggregate(first + [last]).value ==>
      Aggregate(first + [last]).value[a].metrics == q
  {
    var r := Aggregate(first + [last]);
    if r.Success? && a in r.value {
      var m := r.value[a].metrics;
      forall i | 0 <= i < Slots
        ensures m[i] == q[i]
      {
        SingleValueSlot(first, last, a, i, q[i]);
      }
      assert m == q;
    }
  }

  /** The peer's counters are the later stat's values, not sums over both stats. */
  lemma TwoStatsCounters(a: string, p: Counters, q: Counters)
    ensures Aggregate([FourMetrics(a, p), FourMetrics(a, q)]).Success? && a in Aggregate([FourMetrics(a, p), FourMetrics(a, q)]).value ==>
      Aggregate([FourMetrics(a, p), FourMetrics(a, q)]).value[a].metrics == q
  {
    var first, last := FourMetrics(a, p), FourMetrics(a, q);
    assert [first] + [last] == [first, last];
    LastStatDecides([first], last, a, q);
  }

  /**
   * Two stats of device 42, each with all four counters of one peer: the table
   * holds that peer alone, with the later stat's counters.
   */
  lemma LaterStatReplaces(a: string, p: Counters, q: Counters)
    ensures Aggregate([FourMetrics(a, p), FourMetrics(a, q)]) == Success(map[a := PeerDetails(q)])
  {
    TwoStatsKeys(a, p, q);
    TwoStatsCounters(a, p, q);
    SinglePeerTable(Aggregate([FourMetrics(a, p), FourMetrics(a, q)]), a, q);
  }

  /** A table with one key and known counters is that one record. */
  lemma SinglePeerTable(r: Result<PeerList, Panic>, a: string, q: Counters)
    requires r.Success? && r.value.Keys == {a} && r.value[a].metrics == q
    ensures r == Success(map[a := PeerDetails(q)])
  {
    assert r.value == map[a := r.value[a]];
  }

  /** Counters 1, 2, 3, 4 followed by 5, 6, 7, 8 for peer 10.0.0.1 leave 5, 6, 7, 8: nothing is summed. */
  lemma OverwriteNotSum()
    ensures Aggregate([FourMetrics("10.0.0.1", [1, 2, 3, 4]), FourMetrics("10.0.0.1", [5, 6, 7, 8])])
      == Success(map["10.0.0.1" := PeerDetails([5, 6, 7, 8])])
  {
    LaterStatReplaces("10.0.0.1", [1, 2, 3, 4], [5, 6, 7, 8]);
  }

  /** A single-digit count is written as that one digit. */
  lemma ItoaDigit(d: Int64)
    requires 0 <= d < 10
    ensures Itoa(d) == [DigitChar(d)]
  {
  }

  /** The file written for a table of one peer: the header, then that peer's line. */
  lemma OnePeerCsv(a: string, p: PeerDetails)
    ensures IsIterationOrder(map[a := p], [a])
    ensures Csv(map[a := p], [a]) == Header + Row(a, p)
  {
    var t := map[a := p];
    var lines := CsvLines(t, [a]);
    assert lines == [Header, Row(a, p)];
    assert lines[1..][1..] == [];
    assert Concat(lines[1..]) == Row(a, p) + Concat(lines[1..][1..]);
  }

  /** The file for the two-stat response above. */
  lemma OverwriteNotSumCsv()
    ensures Csv(map["10.0.0.1" := PeerDetails([5, 6, 7, 8])], ["10.0.0.1"]) ==
      Header + "10.0.0.1,5,6,7,8\n"
  {
  }

  /**
   * A fifth group is harmless while it is empty; a value in it indexes past the
   * `[4]int` array and panics.
   */
  lemma FifthGroup(a: string, m: Counters, extra: seq<Value>)
    ensures Aggregate([Stat(42, 0, 30000, FourMetrics(a, m).values + [extra])]).Failure? <==> |extra| > 0
  {
    var st := Stat(42, 0, 30000, FourMetrics(a, m).values + [extra]);
    if |extra| > 0 {
      assert Occurs([st], 0, 4, 0);
    }
  }
}
