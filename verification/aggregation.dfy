/**
 * The two passes of `main` that fold the decoded metrics response into
 * `peerList`: pass 1 gives every peer address a zeroed counter record, pass 2
 * writes each value into the counter of its group's position. Both passes walk
 * the response in the same order, which `Entries` spells out.
 */
module Aggregation {
  import opened Wrappers
  import opened Strconv
  import opened PeerModel

  /** Go's run-time panic for an array index outside `[0, length)`. */
  datatype Panic = IndexOutOfRange(index: nat, length: nat)

  /** One `value` as the passes see it: its group's position, its peer address and its value. */
  datatype Entry = Entry(slot: nat, addr: string, value: Int64)

  function ToEntry(slot: nat, v: Value): Entry {
    Entry(slot, v.key.addr, v.value)
  }

  /** The values of one group, in order. */
  function GroupEntries(slot: nat, group: seq<Value>): seq<Entry> {
    seq(|group|, j requires 0 <= j < |group| => ToEntry(slot, group[j]))
  }

  /** The values of one stat: its groups in order, each tagged with its position. */
  function StatEntries(groups: seq<seq<Value>>): seq<Entry> {
    if |groups| == 0 then []
    else StatEntries(groups[..|groups| - 1]) + GroupEntries(|groups| - 1, groups[|groups| - 1])
  }

  /**
   * Within a stat the groups are visited in order: the positions of the
   * visited entries never decrease and stay below the number of groups.
   */
  lemma {:induction false} StatEntriesInOrder(groups: seq<seq<Value>>)
    ensures forall k | 0 <= k < |StatEntries(groups)| :: StatEntries(groups)[k].slot < |groups|
    ensures forall k1, k2 | 0 <= k1 < k2 < |StatEntries(groups)| ::
      StatEntries(groups)[k1].slot <= StatEntries(groups)[k2].slot
  {
    if |groups| > 0 {
      var n := |groups| - 1;
      StatEntriesInOrder(groups[..n]);
    }
  }

  /** The order in which both passes visit the values: stats, then groups, then values. */
  function Entries(stats: seq<Stat>): seq<Entry> {
    if |stats| == 0 then []
    else Entries(stats[..|stats| - 1]) + StatEntries(stats[|stats| - 1].values)
  }

  /** `(s, g, j)` is the position of a value: stat `s`, group `g`, place `j` in the group. */
  ghost predicate Occurs(stats: seq<Stat>, s: int, g: int, j: int) {
    0 <= s < |stats| && 0 <= g < |stats[s].values| && 0 <= j < |stats[s].values[g]|
  }

  /** Every peer address of every value of every group of every stat. */
  ghost function PeerAddrs(stats: seq<Stat>): set<string> {
    set s, g, j | 0 <= s < |stats| && 0 <= g < |stats[s].values| && 0 <= j < |stats[s].values[g]|
      :: stats[s].values[g][j].key.addr
  }

  function AddrsOf(es: seq<Entry>): set<string> {
    set e | e in es :: e.addr
  }

  /** The entries of a stat are exactly its values, each tagged with its group's position. */
  lemma {:induction false} StatEntriesMembership(groups: seq<seq<Value>>)
    ensures forall g, j | 0 <= g < |groups| && 0 <= j < |groups[g]| ::
      ToEntry(g, groups[g][j]) in StatEntries(groups)
    ensures forall e | e in StatEntries(groups) ::
      e.slot < |groups| && exists j :: 0 <= j < |groups[e.slot]| && e == ToEntry(e.slot, groups[e.slot][j])
  {
    if |groups| > 0 {
      var n := |groups| - 1;
      StatEntriesMembership(groups[..n]);
      assert forall g | 0 <= g < n :: groups[..n][g] == groups[g];
      forall g, j | 0 <= g < |groups| && 0 <= j < |groups[g]|
        ensures ToEntry(g, groups[g][j]) in StatEntries(groups)
      {
        if g == n {
          assert GroupEntries(n, groups[n])[j] == ToEntry(g, groups[g][j]);
        } else {
          assert ToEntry(g, groups[..n][g][j]) in StatEntries(groups[..n]);
        }
      }
      var last := GroupEntries(n, groups[n]);
      forall e | e in last
        ensures e.slot < |groups| && exists j :: 0 <= j < |groups[e.slot]| && e == ToEntry(e.slot, groups[e.slot][j])
      {
        var j :| 0 <= j < |last| && last[j] == e;
        assert e == ToEntry(n, groups[n][j]);
      }
    }
  }

  /** The entries of a response are exactly its values, each tagged with its group's position. */
  lemma {:induction false} EntriesMembership(stats: seq<Stat>)
    ensures forall s, g, j | Occurs(stats, s, g, j) :: ToEntry(g, stats[s].values[g][j]) in Entries(stats)
    ensures forall e | e in Entries(stats) ::
      exists s, j :: Occurs(stats, s, e.slot, j) && e == ToEntry(e.slot, stats[s].values[e.slot][j])
  {
    if |stats| > 0 {
      var n := |stats| - 1;
      EntriesMembership(stats[..n]);
      StatEntriesMembership(stats[n].values);
      forall s, g, j | Occurs(stats, s, g, j)
        ensures ToEntry(g, stats[s].values[g][j]) in Entries(stats)
      {
        if s < n {
          assert Occurs(stats[..n], s, g, j);
        }
      }
      forall e | e in Entries(stats)
        ensures exists s, j :: Occurs(stats, s, e.slot, j) && e == ToEntry(e.slot, stats[s].values[e.slot][j])
      {
        if e in Entries(stats[..n]) {
          var s, j :| Occurs(stats[..n], s, e.slot, j) && e == ToEntry(e.slot, stats[..n][s].values[e.slot][j]);
          assert Occurs(stats, s, e.slot, j);
        } else {
          assert e in StatEntries(stats[n].values);
          var j :| 0 <= j < |stats[n].values[e.slot]| && e == ToEntry(e.slot, stats[n].values[e.slot][j]);
          assert Occurs(stats, n, e.slot, j);
        }
      }
    }
  }

  /** The addresses the passes visit are the peer addresses of the response. */
  lemma AddrsOfEntries(stats: seq<Stat>)
    ensures AddrsOf(Entries(stats)) == PeerAddrs(stats)
  {
    EntriesMembership(stats);
    forall a | a in PeerAddrs(stats)
      ensures a in AddrsOf(Entries(stats))
    {
      var s, g, j :| Occurs(stats, s, g, j) && stats[s].values[g][j].key.addr == a;
      assert ToEntry(g, stats[s].values[g][j]) in Entries(stats);
    }
    forall a | a in AddrsOf(Entries(stats))
      ensures a in PeerAddrs(stats)
    {
      var e :| e in Entries(stats) && e.addr == a;
      var s, j :| Occurs(stats, s, e.slot, j) && e == ToEntry(e.slot, stats[s].values[e.slot][j]);
    }
  }

  /** Pass 1 (device_peer_csv.go:111-117): every visited address gets a fresh zeroed record. */
  function InsertPeers(t: PeerList, es: seq<Entry>): (r: PeerList)
    ensures r.Keys == t.Keys + AddrsOf(es)
    ensures forall a | a in r :: r[a] == (if a in AddrsOf(es) then NewPeerDetails() else t[a])
    decreases |es|
  {
    if |es| == 0 then t
    else
      assert AddrsOf(es) == {es[0].addr} + AddrsOf(es[1..]) by {
        assert es == [es[0]] + es[1..];
      }
      InsertPeers(t[es[0].addr := NewPeerDetails()], es[1..])
  }

  /** Reading `peerList[addr]` in Go: the stored record, or the zero value if there is none. */
  function Lookup(t: PeerList, a: string): (p: PeerDetails)
    ensures a in t ==> p == t[a]
    ensures a !in t ==> p == NewPeerDetails()
  {
    if a in t then t[a] else ZeroDetails
  }

  /** Entry `e` writes counter `i` of peer `a`. */
  predicate Writes(e: Entry, a: string, i: nat) {
    e.addr == a && e.slot == i
  }

  /** `es[k]` is the last entry that writes counter `i` of peer `a`. */
  ghost predicate IsLastWrite(es: seq<Entry>, k: int, a: string, i: nat) {
    0 <= k < |es| && Writes(es[k], a, i) && forall k' | k < k' < |es| :: !Writes(es[k'], a, i)
  }

  /** The value of the last entry that writes counter `i` of peer `a`, if any does. */
  function LastValue(es: seq<Entry>, a: string, i: nat): (r: Option<Int64>)
    ensures r.None? <==> forall k | 0 <= k < |es| :: !Writes(es[k], a, i)
    ensures r.Some? ==> exists k :: IsLastWrite(es, k, a, i) && es[k].value == r.value
  {
    if |es| == 0 then None
    else if Writes(es[|es| - 1], a, i) then
      assert IsLastWrite(es, |es| - 1, a, i);
      Some(es[|es| - 1].value)
    else
      var prefix := es[..|es| - 1];
      var r := LastValue(prefix, a, i);
      assert forall k | 0 <= k < |prefix| :: prefix[k] == es[k];
      assert forall k | IsLastWrite(prefix, k, a, i) :: IsLastWrite(es, k, a, i);
      r
  }

  /** Only one entry is the last to write a given counter. */
  lemma LastWriteUnique(es: seq<Entry>, k1: int, k2: int, a: string, i: nat)
    requires IsLastWrite(es, k1, a, i) && IsLastWrite(es, k2, a, i)
    ensures k1 == k2
  {
  }

  /** What counter `i` of peer `a` holds once pass 2 is over: the last value written, else 0. */
  function SlotValue(es: seq<Entry>, a: string, i: nat): Int64 {
    match LastValue(es, a, i)
    case Some(v) => v
    case None => 0
  }

  /** The last write in `[e] + rest` is the last one in `rest`, or else `e` itself. */
  lemma LastValueCons(e: Entry, rest: seq<Entry>, a: string, i: nat)
    ensures LastValue([e] + rest, a, i) ==
      match LastValue(rest, a, i)
      case Some(v) => Some(v)
      case None => if Writes(e, a, i) then Some(e.value) else None
  {
    LastValueAppend([e], rest, a, i);
    assert [e][..0] == [];
  }

  /** `es[k]` is the first entry whose group position lies outside the counter array. */
  ghost predicate IsFirstOutOfRange(es: seq<Entry>, k: int) {
    0 <= k < |es| && es[k].slot >= Slots && forall k' | 0 <= k' < k :: es[k'].slot < Slots
  }

  /**
   * Pass 2 (device_peer_csv.go:119-129): each entry overwrites counter `slot` of
   * its peer's record; reading a missing peer yields the zero record, and a
   * position outside the `[4]int` array is a run-time panic.
   */
  function WriteSlots(t: PeerList, es: seq<Entry>): (r: Result<PeerList, Panic>)
    ensures r.Failure? ==> r.error.length == Slots <= r.error.index
    ensures |es| == 0 ==> r == Success(t)
    decreases |es|
  {
    if |es| == 0 then Success(t)
    else if es[0].slot >= Slots then Failure(IndexOutOfRange(es[0].slot, Slots))
    else WriteSlots(WriteEntry(t, es[0]), es[1..])
  }

  /** One step of pass 2: entry `e` overwrites counter `e.slot` of its peer's record. */
  function WriteEntry(t: PeerList, e: Entry): (r: PeerList)
    requires e.slot < Slots
    ensures r.Keys == t.Keys + {e.addr}
    ensures r[e.addr].metrics[e.slot] == e.value
    ensures forall i | 0 <= i < Slots && i != e.slot :: r[e.addr].metrics[i] == Lookup(t, e.addr).metrics[i]
    ensures forall a | a in t && a != e.addr :: r[a] == t[a]
  {
    var p := Lookup(t, e.addr);
    t[e.addr := PeerDetails(p.metrics[e.slot := e.value])]
  }

  /**
   * Pass 2 panics exactly when some value sits in a group at position 4 or
   * beyond, and then at the first such value.
   */
  lemma {:induction false} WriteSlotsPanics(t: PeerList, es: seq<Entry>)
    ensures WriteSlots(t, es).Failure? <==> exists k :: 0 <= k < |es| && es[k].slot >= Slots
    ensures WriteSlots(t, es).Failure? ==>
      exists k :: IsFirstOutOfRange(es, k) && WriteSlots(t, es).error == IndexOutOfRange(es[k].slot, Slots)
    decreases |es|
  {
    if |es| > 0 {
      if es[0].slot >= Slots {
        assert IsFirstOutOfRange(es, 0);
      } else {
        var rest := es[1..];
        assert forall k | 0 <= k < |rest| :: rest[k] == es[k + 1];
        WriteSlotsPanics(WriteEntry(t, es[0]), rest);
        var r := WriteSlots(t, es);
        assert r == WriteSlots(WriteEntry(t, es[0]), rest);
        if r.Failure? {
          var k :| IsFirstOutOfRange(rest, k) && r.error == IndexOutOfRange(rest[k].slot, Slots);
          assert IsFirstOutOfRange(es, k + 1);
        }
        if exists k :: 0 <= k < |es| && es[k].slot >= Slots {
          var k :| 0 <= k < |es| && es[k].slot >= Slots;
          assert rest[k - 1].slot >= Slots;
        }
      }
    }
  }

  /**
   * When pass 2 completes, its keys are the keys it started from plus the
   * visited addresses, and counter `i` of peer `a` holds the last value written
   * to it, or what `a` held before if nothing was.
   */
  lemma {:induction false} WriteSlotsWrites(t: PeerList, es: seq<Entry>)
    ensures WriteSlots(t, es).Success? ==> WriteSlots(t, es).value.Keys == t.Keys + AddrsOf(es)
    ensures WriteSlots(t, es).Success? ==> forall a, i | a in WriteSlots(t, es).value && 0 <= i < Slots ::
      WriteSlots(t, es).value[a].metrics[i] ==
        match LastValue(es, a, i) case Some(v) => v case None => Lookup(t, a).metrics[i]
    decreases |es|
  {
    if |es| > 0 && es[0].slot < Slots && WriteSlots(t, es).Success? {
      var e, rest := es[0], es[1..];
      var t' := WriteEntry(t, e);
      WriteSlotsWrites(t', rest);
      var r := WriteSlots(t, es).value;
      assert r == WriteSlots(t', rest).value;
      assert es == [e] + rest;
      assert AddrsOf(es) == {e.addr} + AddrsOf(rest);
      forall a, i | a in r && 0 <= i < Slots
        ensures r[a].metrics[i] == match LastValue(es, a, i) case Some(v) => v case None => Lookup(t, a).metrics[i]
      {
        WriteEntryThenRest(t, e, rest, a, i);
      }
    }
  }

  /**
   * One step of pass 2 followed by the rest: the counter ends with the rest's
   * last write, else with what entry `e` left in it.
   */
  lemma WriteEntryThenRest(t: PeerList, e: Entry, rest: seq<Entry>, a: string, i: nat)
    requires e.slot < Slots && i < Slots
    ensures (match LastValue(rest, a, i) case Some(v) => v case None => Lookup(WriteEntry(t, e), a).metrics[i]) ==
      (match LastValue([e] + rest, a, i) case Some(v) => v case None => Lookup(t, a).metrics[i])
  {
    LastValueCons(e, rest, a, i);
  }

  /**
   * The aggregation of `main` (device_peer_csv.go:109-129): pass 1 then pass 2
   * over the same values, starting from an empty `peerList`.
   */
  function Aggregate(stats: seq<Stat>): (r: Result<PeerList, Panic>)
    ensures r.Failure? <==> exists s, g, j :: Occurs(stats, s, g, j) && g >= Slots
    ensures r.Success? ==> r.value.Keys == PeerAddrs(stats)
    ensures r.Success? ==> forall a, i | a in r.value && 0 <= i < Slots ::
      r.value[a].metrics[i] == SlotValue(Entries(stats), a, i)
  {
    var es := Entries(stats);
    EntriesMembership(stats);
    AddrsOfEntries(stats);
    var peers := InsertPeers(map[], es);
    WriteSlotsPanics(peers, es);
    WriteSlotsWrites(peers, es);
    WriteSlots(peers, es)
  }

  /**
   * Pass 2 never adds or removes a key: every address it reads was inserted by
   * pass 1, so the Go zero value of a missing key is never used.
   */
  lemma PassTwoKeepsKeys(stats: seq<Stat>)
    ensures forall e | e in Entries(stats) :: e.addr in InsertPeers(map[], Entries(stats))
    ensures WriteSlots(InsertPeers(map[], Entries(stats)), Entries(stats)).Success? ==>
      WriteSlots(InsertPeers(map[], Entries(stats)), Entries(stats)).value.Keys ==
      InsertPeers(map[], Entries(stats)).Keys
  {
    WriteSlotsWrites(InsertPeers(map[], Entries(stats)), Entries(stats));
  }

  /**
   * Pass 1 is redundant: since reading a missing peer yields the same zeroed
   * record pass 1 would have stored, pass 2 alone from an empty map gives the
   * same outcome.
   */
  lemma SinglePassEquivalent(stats: seq<Stat>)
    ensures WriteSlots(map[], Entries(stats)) == Aggregate(stats)
  {
    var es := Entries(stats);
    PanicsAgree(map[], InsertPeers(map[], es), es);
    TablesAgree(InsertPeers(map[], es), es);
  }

  /** Where pass 2 panics does not depend on the map it starts from. */
  lemma PanicsAgree(t1: PeerList, t2: PeerList, es: seq<Entry>)
    ensures WriteSlots(t1, es).Failure? <==> WriteSlots(t2, es).Failure?
    ensures WriteSlots(t1, es).Failure? ==> WriteSlots(t1, es).error == WriteSlots(t2, es).error
  {
    WriteSlotsPanics(t1, es);
    WriteSlotsPanics(t2, es);
    var r1, r2 := WriteSlots(t1, es), WriteSlots(t2, es);
    if r1.Failure? {
      var k1 :| IsFirstOutOfRange(es, k1) && r1.error == IndexOutOfRange(es[k1].slot, Slots);
      var k2 :| IsFirstOutOfRange(es, k2) && r2.error == IndexOutOfRange(es[k2].slot, Slots);
      assert k1 == k2;
    }
  }

  /**
   * Pass 2 from the zeroed records of pass 1 ends with the same table as
   * pass 2 from an empty map.
   */
  lemma TablesAgree(peers: PeerList, es: seq<Entry>)
    requires peers == InsertPeers(map[], es)
    ensures WriteSlots(map[], es).Success? && WriteSlots(peers, es).Success? ==>
      WriteSlots(map[], es).value == WriteSlots(peers, es).value
  {
    WriteSlotsWrites(map[], es);
    WriteSlotsWrites(peers, es);
    var r1, r2 := WriteSlots(map[], es), WriteSlots(peers, es);
    if r1.Success? && r2.Success? {
      var m1, m2 := r1.value, r2.value;
      assert m1.Keys == m2.Keys;
      forall a | a in m1
        ensures m1[a] == m2[a]
      {
        assert forall i | 0 <= i < Slots :: m1[a].metrics[i] == m2[a].metrics[i];
        assert m1[a].metrics == m2[a].metrics;
      }
      assert m1 == m2;
    }
  }

  /** A response whose stats hold at most four groups each never panics. */
  lemma AtMostFourGroupsSucceeds(stats: seq<Stat>)
    requires forall s | 0 <= s < |stats| :: |stats[s].values| <= Slots
    ensures Aggregate(stats).Success?
  {
  }

  /** The last write in `xs + ys` is the last one in `ys`, or else the last one in `xs`. */
  lemma {:induction false} LastValueAppend(xs: seq<Entry>, ys: seq<Entry>, a: string, i: nat)
    ensures LastValue(xs + ys, a, i) ==
      match LastValue(ys, a, i) case Some(v) => Some(v) case None => LastValue(xs, a, i)
    decreases |ys|
  {
    if |ys| == 0 {
      assert xs + ys == xs;
    } else {
      var n := |ys| - 1;
      assert (xs + ys)[..|xs + ys| - 1] == xs + ys[..n];
      if !Writes(ys[n], a, i) {
        LastValueAppend(xs, ys[..n], a, i);
      }
    }
  }

  /**
   * Stats are scanned in order: counter `i` of a peer comes from the last stat
   * that has a value for the peer in group `i`; earlier stats matter only when
   * no later one has.
   */
  lemma LaterStatWins(stats: seq<Stat>, st: Stat, a: string, i: nat)
    ensures SlotValue(Entries(stats + [st]), a, i) ==
      match LastValue(StatEntries(st.values), a, i) case Some(v) => v case None => SlotValue(Entries(stats), a, i)
  {
    var all := stats + [st];
    assert all[..|all| - 1] == stats;
    LastValueAppend(Entries(stats), StatEntries(st.values), a, i);
  }

  /** Within a stat only group `i` writes counter `i`; a stat without such a group writes nothing there. */
  lemma {:induction false} StatSlot(groups: seq<seq<Value>>, a: string, i: nat)
    ensures LastValue(StatEntries(groups), a, i) ==
      if i < |groups| then LastValue(GroupEntries(i, groups[i]), a, i) else None
  {
    if |groups| > 0 {
      var n := |groups| - 1;
      var prefix := groups[..n];
      StatSlot(prefix, a, i);
      LastValueAppend(StatEntries(prefix), GroupEntries(n, groups[n]), a, i);
      if n != i {
        assert LastValue(GroupEntries(n, groups[n]), a, i).None?;
      }
      if i < n {
        assert prefix[i] == groups[i];
      }
    }
  }

  /**
   * Within a group the values are scanned in order: the counter receives the
   * value of the peer's last entry in the group, or nothing if it has none.
   */
  lemma GroupSlot(slot: nat, group: seq<Value>, a: string)
    ensures LastValue(GroupEntries(slot, group), a, slot).None? <==>
      forall j | 0 <= j < |group| :: group[j].key.addr != a
    ensures LastValue(GroupEntries(slot, group), a, slot).Some? ==>
      exists j :: 0 <= j < |group| && group[j].key.addr == a &&
        LastValue(GroupEntries(slot, group), a, slot).value == group[j].value &&
        forall j' | j < j' < |group| :: group[j'].key.addr != a
  {
    var es := GroupEntries(slot, group);
    assert forall j | 0 <= j < |group| :: es[j] == ToEntry(slot, group[j]);
    assert forall j | 0 <= j < |group| :: Writes(es[j], a, slot) <==> group[j].key.addr == a;
    var r := LastValue(es, a, slot);
    if r.Some? {
      var k :| IsLastWrite(es, k, a, slot) && es[k].value == r.value;
      assert group[k].key.addr == a && r.value == group[k].value;
    }
  }

  /** Value `j` of group `i` in stat `s` belongs to peer `a`. */
  ghost predicate HasValueFor(stats: seq<Stat>, s: int, j: int, a: string, i: nat) {
    Occurs(stats, s, i, j) && stats[s].values[i][j].key.addr == a
  }

  /** `(s, j)` is the last place, scanning stats and then values, where group `i` holds a value of `a`. */
  ghost predicate IsLastOccurrence(stats: seq<Stat>, s: int, j: int, a: string, i: nat) {
    && HasValueFor(stats, s, j, a, i)
    && forall s', j' | HasValueFor(stats, s', j', a, i) :: s' < s || (s' == s && j' <= j)
  }

  /** A value of `a` in group `i` of the last stat, with none after it there, is the last place. */
  lemma LastOccurrenceInLastStat(stats: seq<Stat>, n: nat, j: int, a: string, i: nat)
    requires n + 1 == |stats| && HasValueFor(stats, n, j, a, i)
    requires forall j' | j < j' < |stats[n].values[i]| :: stats[n].values[i][j'].key.addr != a
    ensures IsLastOccurrence(stats, n, j, a, i)
  {
  }

  /**
   * When the last stat's group `i` holds no value of `a`, the places of `a` in
   * group `i` are those of the earlier stats, and so is the last one.
   */
  lemma LastOccurrenceInEarlierStats(stats: seq<Stat>, n: nat, a: string, i: nat)
    requires n + 1 == |stats| && forall j :: !HasValueFor(stats, n, j, a, i)
    ensures forall s, j :: HasValueFor(stats, s, j, a, i) <==> HasValueFor(stats[..n], s, j, a, i)
    ensures forall s, j | IsLastOccurrence(stats[..n], s, j, a, i) :: IsLastOccurrence(stats, s, j, a, i)
  {
    var pre := stats[..n];
    assert forall s | 0 <= s < |pre| :: pre[s] == stats[s];
  }

  /**
   * The scan writes counter `i` of `a` exactly when some group `i` holds a
   * value of `a`, and the last write is the value at the last such place.
   */
  lemma {:induction false} EntriesLastValue(stats: seq<Stat>, a: string, i: nat)
    ensures LastValue(Entries(stats), a, i).None? <==> forall s, j :: !HasValueFor(stats, s, j, a, i)
    ensures LastValue(Entries(stats), a, i).Some? ==>
      exists s, j :: (IsLastOccurrence(stats, s, j, a, i) &&
        LastValue(Entries(stats), a, i).value == stats[s].values[i][j].value)
  {
    if |stats| > 0 {
      var n := |stats| - 1;
      var pre, groups := stats[..n], stats[n].values;
      EntriesLastValue(pre, a, i);
      LastValueAppend(Entries(pre), StatEntries(groups), a, i);
      StatSlot(groups, a, i);
      var last := LastValue(StatEntries(groups), a, i);
      if last.Some? {
        GroupSlot(i, groups[i], a);
        var j :| 0 <= j < |groups[i]| && groups[i][j].key.addr == a && last.value == groups[i][j].value &&
          forall j' | j < j' < |groups[i]| :: groups[i][j'].key.addr != a;
        LastOccurrenceInLastStat(stats, n, j, a, i);
      } else {
        if i < |groups| {
          GroupSlot(i, groups[i], a);
        }
        assert forall j :: !HasValueFor(stats, n, j, a, i);
        LastOccurrenceInEarlierStats(stats, n, a, i);
        assert LastValue(Entries(stats), a, i) == LastValue(Entries(pre), a, i);
      }
    }
  }

  /**
   * The headline of the aggregation: counter `i` of a peer is the value at the
   * peer's last place in group `i`, scanning stats and then values, or 0 when
   * no group `i` holds a value of the peer.
   */
  lemma SlotIsLastOccurrence(stats: seq<Stat>, a: string, i: nat)
    requires i < Slots
    ensures Aggregate(stats).Success? && a in Aggregate(stats).value ==>
      forall s, j | IsLastOccurrence(stats, s, j, a, i) ::
        Aggregate(stats).value[a].metrics[i] == stats[s].values[i][j].value
    ensures Aggregate(stats).Success? && a in Aggregate(stats).value && (forall s, j :: !HasValueFor(stats, s, j, a, i)) ==>
      Aggregate(stats).value[a].metrics[i] == 0
  {
    EntriesLastValue(stats, a, i);
  }

}
