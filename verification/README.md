# eh_device_peer_csv in Dafny

`device_peer_csv.go` asks an ExtraHop appliance for a device's per-peer
`net_detail` metrics over the last few days. It turns the decoded response
into a table of four counters per peer IP address and writes the table as a
CSV file. This project models the pure middle of that program and proves what
it computes. That middle is:

- the lookback offset sent as the request's `from`;
- the two passes over the decoded `metricRsp` that build `peerList`;
- the CSV text written for `peerList`.

Modules:

- `Wrappers`: `Option` and `Result`.
- `Strconv`: Go's 64-bit `int` (`Int64`), two's-complement wrap-around (`Wrap64`), `strconv.Atoi` and `strconv.Itoa`.
- `PeerModel`: the decoded structs (`KeyDetail`, `Value`, `Stat`, `MetricRsp`), `peerDetails` with its `[4]int` counters, `newPeerDetails` and `mapToMetric`.
- `Request`: the lookback arithmetic.
- `Aggregation`: the two passes, with an index outside `[4]int` modelled as a `Result.Failure` (Go's run-time panic).
- `CsvOutput`: the header and rows, plus a reader used as the rendering's inverse.
- `Scenarios`: what the model yields for small concrete responses, proved by lemma.

Modelling choices:

- **Scan order.** Both passes walk stats, then groups, then values. `Aggregation.Entries` flattens that walk into one sequence of `(slot, addr, value)` entries. The reference meaning of a counter is `LastValue`, the value of the last entry that writes it.
- **Map reads.** Reading a missing key of a Go map yields the zero value. `Lookup` models this.
- **Map iteration order.** Go leaves the order of `range peerList` unspecified. The rendering therefore takes the order as a parameter. Any order that lists every key exactly once (`IsIterationOrder`) is allowed. Every property is stated for all such orders.
- **Overwrite, not sum.** A later value for the same peer and slot overwrites an earlier one. Nothing is summed, and the model follows the code here.

## Model

| member | source | states |
|---|---|---|
| PeerModel.NewPeerDetails | device_peer_csv.go:21-26 | the new record has four counters, all 0, and is the zero record a missing map key reads as |
| PeerModel.MapToMetric | device_peer_csv.go:64-72 | indices 0..3 give BytesIn, BytesOut, PacketsIn and PacketsOut; any other index gives Go's zero string "" |
| PeerModel.MetricIndex | device_peer_csv.go:64-72 | the inverse lookup from a label to its index, always below 4 |
| PeerModel.MetricLabelsRoundTrip | device_peer_csv.go:64-72 | the labels are distinct: each label of 0..3 maps back to its own index, and a label maps back only to the index it comes from |
| Strconv.Wrap64 | device_peer_csv.go:78 | Go's `int` result is the exact product when that fits in 64 bits, and is congruent to it modulo 2^64 otherwise |
| Strconv.Atoi | device_peer_csv.go:77 | a non-numeral gives 0 (the ignored error); a numeral gives the number its digits denote, negated after a '-', and saturates at the 64-bit bounds when that number does not fit |
| Strconv.Itoa | device_peer_csv.go:136 | the numeral denotes n, with no leading zero: its digits denote the absolute value of n, it has no '+', a leading '-' exactly for negative numbers, is "0" for zero, and holds no comma or newline |
| Strconv.NatToDecimal | device_peer_csv.go:136 | the digits denote `n`, and a leading '0' occurs only in the numeral "0" itself |
| Strconv.AtoiItoa | device_peer_csv.go:136 | `Atoi` (the parse at line 77) reads back every number `Itoa` writes |
| Strconv.ItoaInjective | device_peer_csv.go:136 | distinct counters are written as distinct numerals |
| Strconv.AtoiForms | device_peer_csv.go:77 | answers such as "+3" and "03" read as 3, "-0" as 0, and "-", "" and "3 " as 0 |
| Request.LookbackForDays | device_peer_csv.go:78 | the offset is days × −86 400 000 for days within ±106 751 991 167, non-positive for non-negative days in that range, and congruent modulo 2^64 beyond it |
| Request.Lookback | device_peer_csv.go:76-78 | a non-numeric answer gives offset 0; for days within ±106 751 991 167 a numeric answer gives days × −86 400 000, and a non-positive offset for non-negative days |
| Request.LookbackWrapsPastBound | device_peer_csv.go:78 | one day beyond the bound wraps the offset to a positive number |
| Request.LookbackThreeDays | device_peer_csv.go:76-78 | the answer "3" gives −259 200 000 |
| Aggregation.StatEntriesMembership | device_peer_csv.go:120-121 | `StatEntries` (built from `GroupEntries`), the scan of one stat, visits exactly its values, each tagged with its group's position |
| Aggregation.StatEntriesInOrder | device_peer_csv.go:120-121 | `StatEntries` visits the groups in order: the positions never decrease and stay below the number of groups |
| Aggregation.EntriesMembership | device_peer_csv.go:111-113 | `Entries`, the scan both passes share (also lines 119-121), visits exactly the values of the response, each tagged with its group's position |
| Aggregation.AddrsOfEntries | device_peer_csv.go:111-114 | the visited addresses are exactly the `Key.Addr` of every value of every group of every stat |
| Aggregation.InsertPeers | device_peer_csv.go:111-117 | pass 1 adds exactly the visited addresses, each with a zeroed record, and keeps the other keys |
| Aggregation.Lookup | device_peer_csv.go:124 | reading a peer present in the map gives its record; reading an absent one gives the zero record of `newPeerDetails` |
| Aggregation.LastValue | device_peer_csv.go:119-129 | there is no value exactly when no entry writes the counter; otherwise the value comes from the last entry that writes it |
| Aggregation.LastWriteUnique | device_peer_csv.go:119-129 | only one entry is the last to write a counter |
| Aggregation.LastValueCons | device_peer_csv.go:119-129 | a later write takes precedence over the first entry's |
| Aggregation.LastValueAppend | device_peer_csv.go:119-129 | in a longer scan, the later part's last write wins, and the earlier part matters only where the later part writes nothing |
| Aggregation.WriteEntry | device_peer_csv.go:124-126 | one step of pass 2 adds the peer if absent, sets its counter at the value's group position, and leaves its other counters and every other peer unchanged |
| Aggregation.WriteSlots | device_peer_csv.go:119-129 | pass 2 on no values keeps the map; a panic reports an index ≥ 4 into an array of length 4 (the full behaviour is stated by `WriteSlotsPanics` and `WriteSlotsWrites`) |
| Aggregation.WriteEntryThenRest | device_peer_csv.go:124-126 | after one step and the rest of pass 2, a counter holds the rest's last write, else what the step left |
| Aggregation.WriteSlotsPanics | device_peer_csv.go:120-125 | pass 2 panics exactly when some value sits at a group position ≥ 4, and it panics at the first such value |
| Aggregation.WriteSlotsWrites | device_peer_csv.go:119-129 | when pass 2 completes, its keys are the starting keys plus the visited addresses; each counter holds the last value written, or what it held before |
| Aggregation.Aggregate | device_peer_csv.go:109-129 | it fails exactly when a value sits in a group at position ≥ 4; on success the keys are exactly the peer addresses and every counter is the last value written to it, 0 if none |
| Aggregation.PassTwoKeepsKeys | device_peer_csv.go:119-129 | every address pass 2 reads was inserted by pass 1, and pass 2 neither adds nor removes keys |
| Aggregation.SinglePassEquivalent | device_peer_csv.go:109-129 | pass 2 alone, starting from an empty map, gives the same outcome as both passes |
| Aggregation.PanicsAgree | device_peer_csv.go:119-129 | whether and where pass 2 panics does not depend on the map it starts from |
| Aggregation.TablesAgree | device_peer_csv.go:109-129 | pass 2 from pass 1's zeroed records and pass 2 from an empty map end with the same table |
| Aggregation.EntriesLastValue | device_peer_csv.go:119-129 | the scan writes counter `i` of a peer exactly when some group `i` holds a value of that peer, and the last write is the value at the peer's last place in group `i`, scanning stats and then values |
| Aggregation.SlotIsLastOccurrence | device_peer_csv.go:109-129 | after a successful aggregation, counter `i` of a peer is the value at the peer's last place in group `i`, scanning stats and then values, and 0 when no group `i` holds a value of the peer |
| Aggregation.AtMostFourGroupsSucceeds | device_peer_csv.go:18 | a response whose stats have at most four groups each never panics |
| Aggregation.LaterStatWins | device_peer_csv.go:119 | stats are scanned in order: a later stat's write to a counter replaces every earlier stat's |
| Aggregation.StatSlot | device_peer_csv.go:120-125 | within a stat, only group `i` writes counter `i` |
| Aggregation.GroupSlot | device_peer_csv.go:121-126 | within a group, the counter receives the peer's last value in the group, or nothing if the peer has no value there |
| CsvOutput.PeerRows | device_peer_csv.go:134-136 | one row per key of the order, in that order, each with that key's address and counters |
| CsvOutput.IterationOrderLength | device_peer_csv.go:134 | a range over the map visits as many keys as the map holds |
| CsvOutput.CsvLines | device_peer_csv.go:133-137 | the file has 1 + (number of peers) lines: the header first, then one row per peer |
| CsvOutput.FieldsSplit | device_peer_csv.go:136 | `Fields`, the comma-joined address and counters, splits back into the address and the four numerals |
| CsvOutput.CountersRoundTrip | device_peer_csv.go:136 | the four numerals of a row read back as the four counters |
| CsvOutput.RowRoundTrip | device_peer_csv.go:136 | reading `Row`, the line written for a peer, gives back the peer's address and its counters in slot order |
| CsvOutput.RowInjective | device_peer_csv.go:136 | two rows are equal only when they come from the same address and counters |
| CsvOutput.ParsePeerRows | device_peer_csv.go:134-137 | reading the rows gives back the table restricted to the keys listed |
| CsvOutput.HeaderIsLine | device_peer_csv.go:133 | `Header`, the fixed first line, is a single newline-terminated line |
| CsvOutput.RowIsLine | device_peer_csv.go:136 | a row is a single newline-terminated line when the address has no newline |
| CsvOutput.PeerRowsAreLines | device_peer_csv.go:134-136 | every peer line is a single line when no address holds a newline |
| CsvOutput.CsvLinesAreLines | device_peer_csv.go:133-137 | every line of the file is a single newline-terminated line when no address holds a newline |
| CsvOutput.SplitLinesConcat | device_peer_csv.go:133-137 | splitting the written text at newlines recovers its lines, when every line is a single newline-terminated line, as when no address holds a newline |
| CsvOutput.RestrictToOrder | device_peer_csv.go:134 | an iteration order covers the whole table |
| CsvOutput.CsvRoundTrip | device_peer_csv.go:133-137 | for every iteration order, `Csv`, the text written to the file, splits into 1 + (number of peers) lines and reads back as exactly the table |
| CsvOutput.EveryPeerHasRow | device_peer_csv.go:134-136 | every peer of the table has its row in the file |
| CsvOutput.EveryRowIsPeer | device_peer_csv.go:134-136 | every row of the file is the row of one of the table's peers |
| CsvOutput.RowsDistinct | device_peer_csv.go:134-136 | no row is written twice |
| Scenarios.SingleValueSlot | device_peer_csv.go:119-129 | a last stat with a single value of the peer in group `i` decides counter `i` |
| Scenarios.LastStatDecides | device_peer_csv.go:119-129 | a last stat with one value of the peer in each of its four groups decides all four counters, whatever came before |
| Scenarios.TwoStatsKeys | device_peer_csv.go:109-117 | two stats for one peer yield a table with that peer alone |
| Scenarios.TwoStatsCounters | device_peer_csv.go:119-129 | with two stats for one peer, the counters are the later stat's values |
| Scenarios.LaterStatReplaces | device_peer_csv.go:109-129 | two four-metric stats for one peer give exactly one record, holding the later stat's counters |
| Scenarios.OverwriteNotSum | device_peer_csv.go:124-126 | counters 1,2,3,4 followed by 5,6,7,8 leave 5,6,7,8 and not the sums |
| Scenarios.ItoaDigit | device_peer_csv.go:136 | a single-digit counter is written as that one digit |
| Scenarios.OnePeerCsv | device_peer_csv.go:133-137 | a one-peer table is written as the header followed by that peer's row |
| Scenarios.OverwriteNotSumCsv | device_peer_csv.go:133-136 | the table from the two stats is written as the header followed by `10.0.0.1,5,6,7,8` |
| Scenarios.FifthGroup | device_peer_csv.go:18 | a fifth group in a stat panics exactly when it holds a value |

## Left out

- Terminal prompting (`askForInput`, lines 28-34): this is stdin I/O. The typed answer is a parameter of `Request.Lookback`. `strings.TrimSpace` is not modelled: the answer is taken as already trimmed.
- The key file, `ehop.NewEDAfromKey` and the authenticated POST with its error and status-code exits (lines 81-97): these are foreign calls and network I/O.
- JSON decoding of the response (lines 99-107): the model takes the decoded `Stats` of `metricRsp` as its input. Decoding is also what keeps every number within Go's 64-bit `int`.
- The request body (line 85): this is string concatenation with the unescaped device id, and the only part with a contract is the lookback number.
- Creating, writing and closing the file, and the success message (lines 131-140): this is filesystem I/O. The model produces the text the file receives.
- Go map iteration order: it is a parameter, as described above. No particular order is assumed.
- The metadata fields `Cycle`, `NodeID`, `From`, `Until`, `Clock`, `OID`, `Time`, `Duration`, `Vtype`, `KeyType` and `DeviceOID`: they are carried in the datatypes but take no part in any computation.
- Go's `int` is taken to be 64 bits wide (`Strconv.Int64`), as on amd64 and arm64; on 32-bit targets such as 386 and arm it has 32 bits, and the lookback would wrap much sooner.
- Strconv.Atoi: models `strconv.Atoi` for an optional sign followed by at least one decimal digit, saturating at the 64-bit bounds, and returns 0 for every other string. Go also returns a saturated value for some overlong strings that carry a non-digit after the overflow point. The model returns 0 for those, because it treats every malformed string alike.
- CsvOutput.CsvRoundTrip: holds only for addresses without a newline. An address containing one would make the written file ambiguous, and the `addr` field the API returns carries an IP address literal, which holds no newline.
- PeerModel.MapToMetric: its only call site is commented out (line 122). Its labels put BytesIn at index 0, while the request and the header put packets-in at index 0. The model states the function as written and nothing depends on it.

