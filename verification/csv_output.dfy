/**
 * The CSV file `main` writes (device_peer_csv.go:133-136): a fixed header line
 * and one line per peer, in the iteration order of `peerList`. Reading the
 * file back (`ReadCsv`) is the partner that shows nothing is lost or repeated.
 */
module CsvOutput {
  import opened Wrappers
  import opened Strconv
  import opened PeerModel

  /** The header's column names, in the order of the fields of a peer line. */
  const HeaderFields: string := "PeerIP" + ",Packets In" + ",Packets Out" + ",Bytes In" + ",Bytes Out"

  const Header: string := HeaderFields + "\n"

  /** The comma-separated fields of a peer's line: the address, then the four counters in slot order. */
  function Fields(addr: string, m: Counters): string {
    addr + "," + Itoa(m[0]) + "," + Itoa(m[1]) + "," + Itoa(m[2]) + "," + Itoa(m[3])
  }

  /** One peer's line: its fields and a closing newline. */
  function Row(addr: string, p: PeerDetails): string {
    Fields(addr, p.metrics) + "\n"
  }

  /**
   * An order in which Go may range over `t`: every key exactly once. Go leaves
   * the order itself unspecified.
   */
  ghost predicate IsIterationOrder(t: PeerList, order: seq<string>) {
    && (forall k1, k2 | 0 <= k1 < k2 < |order| :: order[k1] != order[k2])
    && (forall a :: a in order <==> a in t)
  }

  /** The peer lines for the keys in `order`, in that order. */
  function PeerRows(t: PeerList, order: seq<string>): (rows: seq<string>)
    requires forall a | a in order :: a in t
    ensures |rows| == |order|
    ensures forall k | 0 <= k < |order| :: rows[k] == Row(order[k], t[order[k]])
  {
    if |order| == 0 then [] else [Row(order[0], t[order[0]])] + PeerRows(t, order[1..])
  }

  /** A sequence without repetitions has as many distinct elements as it is long. */
  lemma {:induction false} DistinctCardinality(order: seq<string>)
    requires forall k1, k2 | 0 <= k1 < k2 < |order| :: order[k1] != order[k2]
    ensures |set a | a in order| == |order|
  {
    if |order| > 0 {
      var rest := order[1..];
      DistinctCardinality(rest);
      assert (set a | a in order) == {order[0]} + (set a | a in rest) by {
        assert order == [order[0]] + rest;
      }
      assert order[0] !in rest;
    }
  }

  /** Go ranges over each key of `t` once, so an iteration order is as long as `t` is large. */
  lemma IterationOrderLength(t: PeerList, order: seq<string>)
    requires IsIterationOrder(t, order)
    ensures |order| == |t|
  {
    DistinctCardinality(order);
    assert (set a | a in order) == t.Keys;
  }

  /** The lines of the file: the header, then one line per peer. */
  function CsvLines(t: PeerList, order: seq<string>): (lines: seq<string>)
    requires IsIterationOrder(t, order)
    ensures |lines| == 1 + |order| == 1 + |t|
    ensures lines[0] == Header
    ensures lines[1..] == PeerRows(t, order)
  {
    IterationOrderLength(t, order);
    [Header] + PeerRows(t, order)
  }

  function Concat(lines: seq<string>): string {
    if |lines| == 0 then "" else lines[0] + Concat(lines[1..])
  }

  /** The text of the file for a given iteration order. */
  function Csv(t: PeerList, order: seq<string>): string
    requires IsIterationOrder(t, order)
  {
    Concat(CsvLines(t, order))
  }

  /** The position of the first `c` in `s`, if there is one. */
  function IndexOf(s: string, c: char): (r: Option<nat>)
    ensures r.Some? ==> r.value < |s| && s[r.value] == c && c !in s[..r.value]
    ensures r.None? ==> c !in s
  {
    if |s| == 0 then None
    else if s[0] == c then Some(0)
    else
      match IndexOf(s[1..], c)
      case None => None
      case Some(k) =>
        assert s[..k + 1] == [s[0]] + s[1..][..k];
        Some(k + 1)
  }

  /** The position of the last `c` in `s`, if there is one. */
  function LastIndexOf(s: string, c: char): (r: Option<nat>)
    ensures r.Some? ==> r.value < |s| && s[r.value] == c && c !in s[r.value + 1..]
    ensures r.None? ==> c !in s
  {
    if |s| == 0 then None
    else if s[|s| - 1] == c then Some(|s| - 1)
    else
      var r := LastIndexOf(s[..|s| - 1], c);
      assert s == s[..|s| - 1] + [s[|s| - 1]];
      if r.Some? then
        assert s[r.value + 1..] == s[..|s| - 1][r.value + 1..] + [s[|s| - 1]];
        r
      else r
  }

  /** Splits `s` at its last comma into what precedes and what follows it. */
  function SplitLastComma(s: string): Option<(string, string)> {
    match LastIndexOf(s, ',')
    case None => None
    case Some(k) => Some((s[..k], s[k + 1..]))
  }

  /** Peels the last `n` comma-separated fields off `s`, leaving what precedes them. */
  function SplitFields(s: string, n: nat): (r: Option<(string, seq<string>)>)
    ensures r.Some? ==> |r.value.1| == n
    decreases n
  {
    if n == 0 then Some((s, []))
    else
      match SplitLastComma(s)
      case None => None
      case Some((rest, last)) =>
        match SplitFields(rest, n - 1)
        case None => None
        case Some((head, fields)) => Some((head, fields + [last]))
  }

  /** Reads four decimal counter fields, as `strconv.Atoi` would. */
  function ParseCounters(fields: seq<string>): Option<Counters>
    requires |fields| == Slots
  {
    if forall i | 0 <= i < Slots :: IsDecimal(fields[i]) then
      Some([Atoi(fields[0]), Atoi(fields[1]), Atoi(fields[2]), Atoi(fields[3])])
    else None
  }

  /**
   * Reads one peer line back: the last four comma-separated fields are the
   * counters, everything before them is the address (which may itself hold
   * commas, since the program writes it unescaped).
   */
  function ParseRow(line: string): Option<(string, Counters)> {
    if |line| == 0 || line[|line| - 1] != '\n' then None
    else
      match SplitFields(line[..|line| - 1], Slots)
      case None => None
      case Some((addr, fields)) =>
        match ParseCounters(fields)
        case None => None
        case Some(m) => Some((addr, m))
  }

  /** Splitting `x + "," + y` at its last comma gives back `x` and `y` when `y` holds no comma. */
  lemma SplitJoined(x: string, y: string)
    requires ',' !in y
    ensures SplitLastComma(x + "," + y) == Some((x, y))
  {
    var s := x + "," + y;
    var r := LastIndexOf(s, ',');
    assert s[|x|] == ',';
    assert r.Some?;
    assert s[..|x|] == x;
    assert s[|x| + 1..] == y;
  }

  /** Appending a comma-free field to a line adds it to the fields split off the end. */
  lemma SplitFieldsStep(x: string, y: string, n: nat, head: string, fields: seq<string>)
    requires ',' !in y && SplitFields(x, n) == Some((head, fields))
    ensures SplitFields(x + "," + y, n + 1) == Some((head, fields + [y]))
  {
    SplitJoined(x, y);
  }

  /** Four comma-free fields joined behind a head split back into the head and the fields. */
  lemma SplitFourFields(head: string, i0: string, i1: string, i2: string, i3: string)
    requires ',' !in i0 && ',' !in i1 && ',' !in i2 && ',' !in i3
    ensures SplitFields(head + "," + i0 + "," + i1 + "," + i2 + "," + i3, 4) == Some((head, [i0, i1, i2, i3]))
  {
    var s1 := head + "," + i0;
    var s2 := s1 + "," + i1;
    var s3 := s2 + "," + i2;
    assert SplitFields(head, 0) == Some((head, []));
    SplitFieldsStep(head, i0, 0, head, []);
    assert [] + [i0] == [i0];
    SplitFieldsStep(s1, i1, 1, head, [i0]);
    assert [i0] + [i1] == [i0, i1];
    SplitFieldsStep(s2, i2, 2, head, [i0, i1]);
    assert [i0, i1] + [i2] == [i0, i1, i2];
    SplitFieldsStep(s3, i3, 3, head, [i0, i1, i2]);
    assert [i0, i1, i2] + [i3] == [i0, i1, i2, i3];
  }

  /** The fields of a peer line are the address and the four printed counters. */
  lemma FieldsSplit(addr: string, m: Counters)
    ensures SplitFields(Fields(addr, m), Slots) == Some((addr, [Itoa(m[0]), Itoa(m[1]), Itoa(m[2]), Itoa(m[3])]))
  {
    SplitFourFields(addr, Itoa(m[0]), Itoa(m[1]), Itoa(m[2]), Itoa(m[3]));
  }

  /** Four decimal fields read back as the counters they denote. */
  lemma ParseDecimalCounters(m: Counters, f0: string, f1: string, f2: string, f3: string)
    requires IsDecimal(f0) && IsDecimal(f1) && IsDecimal(f2) && IsDecimal(f3)
    requires Atoi(f0) == m[0] && Atoi(f1) == m[1] && Atoi(f2) == m[2] && Atoi(f3) == m[3]
    ensures ParseCounters([f0, f1, f2, f3]) == Some(m)
  {
    var fields := [f0, f1, f2, f3];
    assert forall i | 0 <= i < Slots :: IsDecimal(fields[i]);
    assert [m[0], m[1], m[2], m[3]] == m;
  }

  /** The printed counters read back as the counters. */
  lemma CountersRoundTrip(m: Counters)
    ensures ParseCounters([Itoa(m[0]), Itoa(m[1]), Itoa(m[2]), Itoa(m[3])]) == Some(m)
  {
    AtoiItoa(m[0]);
    AtoiItoa(m[1]);
    AtoiItoa(m[2]);
    AtoiItoa(m[3]);
    ParseDecimalCounters(m, Itoa(m[0]), Itoa(m[1]), Itoa(m[2]), Itoa(m[3]));
  }

  /** A line whose fields split into a head and four readable counters reads back as them. */
  lemma ParseFieldsLine(f: string, addr: string, nums: seq<string>, m: Counters)
    requires |nums| == Slots
    requires SplitFields(f, Slots) == Some((addr, nums)) && ParseCounters(nums) == Some(m)
    ensures ParseRow(f + "\n") == Some((addr, m))
  {
    var line := f + "\n";
    assert line[..|line| - 1] == f;
  }

  /** Every peer line reads back as the address and counters it was written from. */
  lemma RowRoundTrip(addr: string, p: PeerDetails)
    ensures ParseRow(Row(addr, p)) == Some((addr, p.metrics))
  {
    var m := p.metrics;
    var nums := [Itoa(m[0]), Itoa(m[1]), Itoa(m[2]), Itoa(m[3])];
    FieldsSplit(addr, m);
    CountersRoundTrip(m);
    ParseFieldsLine(Fields(addr, m), addr, nums, m);
  }

  /** Two peer lines are equal only if they come from the same address and counters. */
  lemma RowInjective(a: string, p: PeerDetails, b: string, q: PeerDetails)
    ensures Row(a, p) == Row(b, q) ==> a == b && p == q
  {
    RowRoundTrip(a, p);
    RowRoundTrip(b, q);
  }

  /** Reads the peer lines back into a table. */
  function ParseTable(rows: seq<string>): Option<PeerList> {
    if |rows| == 0 then Some(map[])
    else
      match ParseRow(rows[0])
      case None => None
      case Some((a, m)) =>
        match ParseTable(rows[1..])
        case None => None
        case Some(t) => Some(t[a := PeerDetails(m)])
  }

  /** A line: it ends with its only newline. */
  predicate IsLine(line: string) {
    |line| > 0 && line[|line| - 1] == '\n' && '\n' !in line[..|line| - 1]
  }

  /** Cuts a text after each newline. */
  function SplitLines(text: string): seq<string>
    decreases |text|
  {
    match IndexOf(text, '\n')
    case None => if |text| == 0 then [] else [text]
    case Some(k) => [text[..k + 1]] + SplitLines(text[k + 1..])
  }

  /** Reads a file back: the header, then the peer lines. */
  function ReadCsv(text: string): Option<PeerList> {
    var lines := SplitLines(text);
    if |lines| == 0 || lines[0] != Header then None else ParseTable(lines[1..])
  }

  /** Cutting the concatenation of lines after each newline gives the lines back. */
  lemma {:induction false} SplitLinesConcat(lines: seq<string>)
    requires forall k | 0 <= k < |lines| :: IsLine(lines[k])
    ensures SplitLines(Concat(lines)) == lines
  {
    if |lines| > 0 {
      var first, rest := lines[0], Concat(lines[1..]);
      var text := Concat(lines);
      assert text == first + rest;
      var n := |first| - 1;
      assert text[n] == '\n';
      var r := IndexOf(text, '\n');
      assert r.Some?;
      assert text[..n + 1] == first;
      assert text[n + 1..] == rest;
      SplitLinesConcat(lines[1..]);
    }
  }

  /** Reading a line in front of lines already read adds its peer. */
  lemma ParseTableCons(rows: seq<string>, a: string, m: Counters, rest: PeerList)
    requires |rows| > 0 && ParseRow(rows[0]) == Some((a, m)) && ParseTable(rows[1..]) == Some(rest)
    ensures ParseTable(rows) == Some(rest[a := PeerDetails(m)])
  {
  }

  /** Reading the line of `order[0]` in front of the lines of the rest of `order` adds that peer. */
  lemma ParsePeerRowsStep(t: PeerList, order: seq<string>, before: PeerList)
    requires |order| > 0 && forall a | a in order :: a in t
    requires ParseTable(PeerRows(t, order[1..])) == Some(before)
    ensures ParseTable(PeerRows(t, order)) == Some(before[order[0] := t[order[0]]])
  {
    var rows := PeerRows(t, order);
    assert rows[1..] == PeerRows(t, order[1..]);
    RowRoundTrip(order[0], t[order[0]]);
    ParseTableCons(rows, order[0], t[order[0]].metrics, before);
  }

  /** Restricting `t` to the keys of `order` adds `order[0]` to the restriction to `order[1..]`. */
  lemma RestrictCons(t: PeerList, order: seq<string>)
    requires |order| > 0 && forall a | a in order :: a in t
    ensures (map a | a in order[1..] :: t[a])[order[0] := t[order[0]]] == map a | a in order :: t[a]
  {
  }

  /** Reading the peer lines written for `order` gives back `t` on the keys of `order`. */
  lemma {:induction false} ParsePeerRows(t: PeerList, order: seq<string>)
    requires forall a | a in order :: a in t
    ensures ParseTable(PeerRows(t, order)) == Some(map a | a in order :: t[a])
  {
    if |order| > 0 {
      ParsePeerRows(t, order[1..]);
      ParsePeerRowsStep(t, order, map a | a in order[1..] :: t[a]);
      RestrictCons(t, order);
    }
  }

  /** The header is a line. */
  lemma HeaderIsLine()
    ensures IsLine(Header)
  {
  }

  /** A peer line is a line when the address holds no newline. */
  lemma RowIsLine(addr: string, p: PeerDetails)
    requires '\n' !in addr
    ensures IsLine(Row(addr, p))
  {
    var f := Fields(addr, p.metrics);
    var line := f + "\n";
    assert line[..|line| - 1] == f;
    assert '\n' !in f;
  }

  /** Every peer line is a line when no address holds a newline. */
  lemma PeerRowsAreLines(t: PeerList, order: seq<string>)
    requires forall a | a in order :: a in t && '\n' !in a
    ensures forall k | 0 <= k < |order| :: IsLine(PeerRows(t, order)[k])
  {
    forall k | 0 <= k < |order|
      ensures IsLine(PeerRows(t, order)[k])
    {
      RowIsLine(order[k], t[order[k]]);
    }
  }

  /** Every line of the file is a line when no address holds a newline. */
  lemma CsvLinesAreLines(t: PeerList, order: seq<string>)
    requires IsIterationOrder(t, order)
    requires forall a | a in t :: '\n' !in a
    ensures forall k | 0 <= k < |CsvLines(t, order)| :: IsLine(CsvLines(t, order)[k])
  {
    var lines := CsvLines(t, order);
    var rows := PeerRows(t, order);
    HeaderIsLine();
    PeerRowsAreLines(t, order);
    forall k | 0 <= k < |lines|
      ensures IsLine(lines[k])
    {
      if k > 0 {
        assert lines[k] == rows[k - 1];
      }
    }
  }

  /**
   * The file holds the header and exactly one line per peer, 1 + |t| lines in
   * all, and reading it back yields `t` itself, whatever order Go ranged over
   * the map in. Addresses are assumed to hold no newline.
   */
  lemma CsvRoundTrip(t: PeerList, order: seq<string>)
    requires IsIterationOrder(t, order)
    requires forall a | a in t :: '\n' !in a
    ensures |SplitLines(Csv(t, order))| == 1 + |t|
    ensures ReadCsv(Csv(t, order)) == Some(t)
  {
    var lines := CsvLines(t, order);
    CsvLinesAreLines(t, order);
    SplitLinesConcat(lines);
    ParsePeerRows(t, order);
    RestrictToOrder(t, order);
  }

  /** Restricting a table to the keys of an iteration order gives the table back. */
  lemma RestrictToOrder(t: PeerList, order: seq<string>)
    requires IsIterationOrder(t, order)
    ensures (map a | a in order :: t[a]) == t
  {
  }

  /** Every peer of the table has its line among the rows. */
  lemma EveryPeerHasRow(t: PeerList, order: seq<string>)
    requires IsIterationOrder(t, order)
    ensures forall a | a in t :: Row(a, t[a]) in PeerRows(t, order)
  {
  }

  /** Every row is the line of one of the table's peers. */
  lemma EveryRowIsPeer(t: PeerList, order: seq<string>)
    requires IsIterationOrder(t, order)
    ensures forall line | line in PeerRows(t, order) :: exists a :: a in t && line == Row(a, t[a])
  {
  }

  /** No line is repeated: distinct positions of the order give distinct rows. */
  lemma RowsDistinct(t: PeerList, order: seq<string>)
    requires IsIterationOrder(t, order)
    ensures forall k1, k2 | 0 <= k1 < k2 < |order| :: PeerRows(t, order)[k1] != PeerRows(t, order)[k2]
  {
    var rows := PeerRows(t, order);
    forall k1, k2 | 0 <= k1 < k2 < |order|
      ensures rows[k1] != rows[k2]
    {
      RowInjective(order[k1], t[order[k1]], order[k2], t[order[k2]]);
    }
  }

}
