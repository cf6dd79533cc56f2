# node_exporter netdev collector: a Dafny model

node_exporter's `netdev` collector exports per-interface network counters.
It builds a table from each device name to that device's counters.
Each counter has a name such as `receive_bytes` and holds the counter's value
as text. This project models the two platform back ends that build the table
and proves properties of both.

- Linux (`parseNetDevStats`) reads `/proc/net/dev`:
  - the first line is skipped;
  - the second line is split on `|` and must have exactly three segments;
  - the whitespace-separated words of the middle segment are the field names;
  - every later line is left-trimmed of spaces and split by the regular
    expression `[ :] *`;
  - a line must have one part per receive column, one per transmit column, and
    the device name;
  - a device the ignore pattern matches is skipped; any other device gets
    `receive_<field>` and `transmit_<field>` entries;
  - the first bad header or bad line fails the whole call.
- FreeBSD (`getNetDevStats`) walks the `getifaddrs` list:
  - only link-layer (`AF_LINK`) records count;
  - each one gives its interface ten counters (`packets`, `errs`, `bytes`,
    `multicast` and `drop`, each for receive and transmit);
  - each value is `strconv.Itoa(int(x))` of an `if_data` field;
  - a later record for the same name replaces an earlier one.

The Go string functions the Linux parser uses are modelled in `GoStrings`:
`strings.Split` and `strings.TrimLeft` with a one-character argument,
`strings.Fields` with exactly the characters `unicode.IsSpace` accepts, and
`Split(s, -1)` of `[ :] *`. `Decimal` models `strconv.Itoa` and a parser that
inverts it. `Counters` holds the counter-name vocabulary shared by both back
ends.

Both back ends are loops that update a map. Each is a `method`
(`ParseNetDevStats`, `GetNetDevStats`) whose loop invariant ties the map built
so far to a recursive specification function applied to the processed prefix
(`Rows`, `LinkStats`). Each method's `ensures` says it returns that function's
value on the whole input. The properties are lemmas about the specification
functions. Termination of the FreeBSD walk is Dafny's termination proof of
`GetNetDevStats`'s loop over the finite record list.

Inputs that come from the outside world are parameters:
- the lines the scanner yields, as `seq<string>`; a line the scanner cannot
  produce reads as the empty string, as `Scanner.Text` does after a failed
  `Scan`;
- the ignore regular expression, as a predicate on device names
  (`Scenarios.IgnoreEmpty` is the default `^$`);
- the `getifaddrs` result, as `None` on failure or as the list of records in
  list order.

## Model

| member | source | states |
|---|---|---|
| NetDevLinux.ParseNetDevStats | collector/netdev_linux.go:92-124 | The scanner loop returns exactly `NetDevStats(lines, ignore)`: the header check, then the data lines in order, stopping at the first error. |
| NetDevLinux.ParseLine | collector/netdev_linux.go:104-121 | One pass of the loop equals `AddRow`: a wrong part count fails with the raw line, an ignored device leaves the table as it was, and otherwise the device's entry is replaced by the counters of this line. |
| NetDevLinux.NetDevStatsRows | collector/netdev_linux.go:93-103 | With a three-segment header there are at least two lines, and the result is the loop over the lines after the header, with the words of the middle segment as the field names. |
| NetDevLinux.InvalidHeaderExactly | collector/netdev_linux.go:96-101 | The call fails with `InvalidHeader(second line)` if and only if the second line does not contain exactly two pipe characters. A missing line counts as the empty line. |
| NetDevLinux.HeaderSegments | collector/netdev_linux.go:96 | A header assembled from three pipe-free segments splits into exactly those segments. |
| NetDevLinux.FirstLineIgnored | collector/netdev_linux.go:94 | The content of the first line never changes the result. |
| NetDevLinux.OuterHeaderSegmentsIgnored | collector/netdev_linux.go:96-102 | Only the middle header segment is read: replacing the first and third segments with any other pipe-free text gives the same result. |
| NetDevLinux.InvalidLineFirst | collector/netdev_linux.go:104-110 | With a valid header, the first data line with the wrong part count fails the call with `InvalidLine` carrying that raw, untrimmed line, and no table is returned. |
| NetDevLinux.SucceedsExactly | collector/netdev_linux.go:96-124 | The call succeeds if and only if the header has three segments and every data line has `2 * len(header) + 1` parts. |
| NetDevLinux.ErrorsIgnoreIndependent | collector/netdev_linux.go:107-116 | Whether and how the call fails does not depend on the ignore pattern, because the part count is checked before the device is matched. |
| NetDevLinux.ParsedTable | collector/netdev_linux.go:103-123 | On success, the devices are exactly those of the data lines the pattern does not ignore. A device's entry is built from its last data line. Every entry's counter names are those of the header fields. |
| NetDevLinux.RowsKeys | collector/netdev_linux.go:112-117 | The loop's table holds exactly the device names of the lines the pattern does not ignore. |
| NetDevLinux.RowsLastLineWins | collector/netdev_linux.go:117-121 | A device's entry is the counter set of its last data line, replacing earlier entries entirely, and that line was well formed. |
| NetDevLinux.RowsEntryKeys | collector/netdev_linux.go:117-121 | Every entry's counter names are exactly `receive_<h>` and `transmit_<h>` for the header fields `h`. |
| NetDevLinux.RowCountersKeys | collector/netdev_linux.go:118-121 | After the first `k` header fields, a device's counter names are those of these `k` fields. |
| NetDevLinux.RowCountersValues | collector/netdev_linux.go:118-121 | Field `i` writes column `i+1` as its receive value and column `i+1+N` as its transmit value, unless a later field of the same name overwrote them. |
| NetDevLinux.RowCountersLastColumn | collector/netdev_linux.go:118-121 | After the whole header, a counter holds the columns of the last header field with that name. |
| NetDevLinux.RowsFailureSticks | collector/netdev_linux.go:107-110 | Once the loop has failed, later lines change nothing. |
| NetDevLinux.RowsFailureIsInvalidLine | collector/netdev_linux.go:104-110 | Every failure of the data loop is an `InvalidLine`. |
| NetDevLinux.RowsSuccess | collector/netdev_linux.go:104-122 | If every data line has the right part count, the loop succeeds. |
| NetDevLinux.RowsSuccessWellFormed | collector/netdev_linux.go:104-122 | If the loop succeeds, every data line had the right part count. |
| NetDevLinux.RowsFirstInvalidLine | collector/netdev_linux.go:107-116 | The first malformed data line decides the error, whether or not its device would have been ignored. |
| GoStrings.SplitJoinsBack | collector/netdev_linux.go:96 | `strings.Split` by one character: joining the pieces with that character gives the input back. |
| GoStrings.SplitJoin | collector/netdev_linux.go:96 | Splitting a join of separator-free pieces gives those pieces back. |
| GoStrings.SplitPiecesFree | collector/netdev_linux.go:96 | No piece contains the separator. |
| GoStrings.SplitCount | collector/netdev_linux.go:96-97 | The number of pieces is one more than the number of separators. |
| GoStrings.FieldsAreWords | collector/netdev_linux.go:102 | `strings.Fields`: every field is non-empty and contains no white space. |
| GoStrings.FieldsJoin | collector/netdev_linux.go:102 | Non-empty, white-space-free words joined by single spaces split back into the same words. |
| GoStrings.FieldsSkipsWhiteSpace | collector/netdev_linux.go:102 | Leading white space does not change the fields. |
| GoStrings.FieldsCons | collector/netdev_linux.go:102 | A word followed by white space or by the end of the string is the first field. |
| GoStrings.TrimLeftSuffix | collector/netdev_linux.go:105 | `strings.TrimLeft` removes a leading run of the cut character and keeps the rest of the string. |
| GoStrings.TrimLeftOf | collector/netdev_linux.go:105 | Trimming a run of the character from a string whose remainder starts with something else leaves exactly that remainder. |
| GoStrings.SplitFieldSepPieces | collector/netdev_linux.go:106 | No piece of a split by `[ :] *` contains a space or a colon. |
| GoStrings.SplitFieldSepStep | collector/netdev_linux.go:25 | One match of `[ :] *` is one space or colon followed by the longest run of spaces; it ends the current piece. |
| GoStrings.SplitFieldSepJoinColons | collector/netdev_linux.go:106 | Pieces joined by single colons split back into the same pieces, empty pieces included. |
| GoStrings.SplitFieldSepJoinSpaces | collector/netdev_linux.go:106 | Non-empty pieces joined by single spaces split back into the same pieces. |
| Counters.KeysDistinct | collector/netdev_linux.go:119-120 | A `receive_` name never equals a `transmit_` name, and each name determines its field. |
| Counters.CounterNamesSnoc | collector/netdev_linux.go:118-121 | Writing one more field adds its two counter names. |
| Counters.CounterNamesCount | collector/netdev_linux.go:118-121 | Distinct field names give exactly twice as many counter names. |
| Decimal.NatToDecimal | collector/netdev_freebsd.go:89 | `strconv.Itoa` of a non-negative value is a canonical numeral (no leading zero) that denotes the value. |
| Decimal.IntToDecimal | collector/netdev_freebsd.go:89 | `strconv.Itoa` output is non-empty and starts with `-` exactly for negative values. |
| Decimal.ParseIntToDecimal | collector/netdev_freebsd.go:89-98 | Parsing the decimal rendering of any integer gives the integer back. |
| Decimal.IntToDecimalParse | collector/netdev_freebsd.go:89-98 | Every string the parser accepts is the rendering of the integer it reads. |
| Decimal.NatToDecimalOfValue | collector/netdev_freebsd.go:89-98 | A canonical numeral is the rendering of its own value. |
| NetDevFreeBSD.GetNetDevStats | collector/netdev_freebsd.go:75-104 | A failed `getifaddrs` gives the error and no table. Otherwise the walk returns `LinkStats` of the records in list order. |
| NetDevFreeBSD.GoIntWraps | collector/netdev_freebsd.go:89-98 | Go's `int` cast of a 64-bit counter is the identity below 2^63 and negative at or above it. It loses no bits: the result modulo 2^64 is the counter. |
| NetDevFreeBSD.CounterTextShape | collector/netdev_freebsd.go:89-98 | A counter below 2^63 renders as its own canonical decimal. One at or above 2^63 renders with a minus sign. |
| NetDevFreeBSD.ParseCounterText | collector/netdev_freebsd.go:89-98 | Each rendered counter reads back as exactly the 64-bit counter it came from. |
| NetDevFreeBSD.CounterFieldsNames | collector/netdev_freebsd.go:89-98 | The ten names are `receive_<f>` and `transmit_<f>` for `f` in packets, errs, bytes, multicast and drop, the same vocabulary as the Linux names. |
| NetDevFreeBSD.IfDataCountersKeys | collector/netdev_freebsd.go:86-98 | A link-layer record yields exactly those ten counter names, no more and no fewer. |
| NetDevFreeBSD.ReceiveCountersValues | collector/netdev_freebsd.go:89-97 | Each `receive_*` value reads back as its own `ifi_i*` field: packets, errors, bytes, multicasts and queue drops. |
| NetDevFreeBSD.TransmitCountersValues | collector/netdev_freebsd.go:90-98 | Each `transmit_*` value reads back as its own `ifi_o*` field. |
| NetDevFreeBSD.IfDataCountersDecode | collector/netdev_freebsd.go:89-98 | Decoding a device's ten counters gives back the whole `if_data` record. |
| NetDevFreeBSD.LinkStatsKeys | collector/netdev_freebsd.go:84-99 | The table's devices are exactly the names of the `AF_LINK` records. |
| NetDevFreeBSD.LinkStatsLastWins | collector/netdev_freebsd.go:84-99 | A device's counters come from its last `AF_LINK` record in list order. |
| NetDevFreeBSD.LinkStatsShape | collector/netdev_freebsd.go:86-99 | Every device has exactly the ten counter names. |
| NetDevFreeBSD.NonLinkRecordIgnored | collector/netdev_freebsd.go:85 | A record of any other family, wherever it is in the list, changes nothing. |
| NetDevFreeBSD.LinkStatsSnoc | collector/netdev_freebsd.go:84-100 | One more record at the end: an `AF_LINK` one sets its name's entry, and any other leaves the table unchanged. |
| Scenarios.ColumnFields | collector/netdev_linux.go:102 | The words of `bytes packets errs drop` are those four field names. |
| Scenarios.HeaderSplit | collector/netdev_linux.go:96 | A typical header, ` face ` then the receive and transmit column names, splits on the pipe characters into those three segments. |
| Scenarios.Eth0Parts | collector/netdev_linux.go:105-106 | `eth0: 1000 10 0 0 2000 20 0 0` splits into the device name `eth0` and its eight columns. |
| Scenarios.Eth0Counters | collector/netdev_linux.go:118-121 | Those columns give the eight named counters, holding the columns' raw text. |
| Scenarios.Eth0Table | collector/netdev_linux.go:92-124 | A three-line file with a banner, a header and an `eth0` line parses to exactly the one-device table. |
| Scenarios.LoopbackAndEthernet | collector/netdev_freebsd.go:84-99 | The table for a list of `lo0` (link), `en0` (inet) and `en0` (link) has exactly `lo0` and `en0`, with the link-layer counters of each. The address record contributes nothing. |

## Left out

- The collectors' `Update` methods, `init`, `NewNetDevCollector` and the metric descriptors are left out. They only register the collector and turn the table into Prometheus metrics (`strconv.ParseFloat` of each value). They are not part of the table's construction.
- Linux `getNetDevStats` (`os.Open` of `/proc/net/dev` and the deferred `Close`) is I/O. The model starts from the lines of the file.
- `bufio.Scanner` is modelled by its lines. The scanner's line-length limit and the read error that the source never checks (`scanner.Err`) are not modelled.
- The ignore flag, its regular expression compilation and `MatchString` are not modelled. The pattern is an arbitrary predicate on device names, and `log.Debugf` for skipped devices is output only.
- The cgo calls (`getifaddrs`, `freeifaddrs`, `C.GoString`) and the cast of `ifa_data` to `struct if_data` are foreign calls. The list arrives as a sequence of records.
- A record whose `ifa_addr` is NULL would crash the Go walker. Every record here has a family.
- The FreeBSD linked list becomes a finite sequence, so a cyclic `ifa_next` chain cannot be expressed.
- The `if_data` counters are taken to be 64 bits wide, with a 64-bit Go `int`. 32-bit platforms are not modelled.
- Strings are sequences of characters: invalid UTF-8 bytes and `[]byte` conversions are not modelled.
- NetDevLinux.ParseLine fills a device's counter map before storing it in the table, where the source stores the empty map first and then fills it. The map is fresh and unshared, so no caller can tell the difference.
- Decimal.ParseInt and NetDevFreeBSD.ReadCounter are not in the source. They exist only as the inverse against which the rendering is proved lossless.
