/**
  The Linux collector's parser of `/proc/net/dev` (`parseNetDevStats`).

  The input is the file as a sequence of lines, as `bufio.Scanner` would produce
  them; a line the scanner cannot produce reads as the empty string, as
  `Scanner.Text` does after a failed `Scan`. The regular expression of ignored
  devices is an arbitrary predicate on device names.

  Line 1 is discarded. Line 2 is the column header: split on `|` it must have
  exactly three segments, and the whitespace-separated words of the middle one
  are the field names. Every later line, left-trimmed of spaces and split by
  `[ :] *`, must have one part per receive column, one per transmit column and
  the device name in front; a device the predicate rejects is skipped, any other
  gets a fresh counter set. Any error yields no table at all.
*/
module NetDevLinux {
  import opened Wrappers
  import opened GoStrings
  import opened Counters

  /** The two failures of the parser; each carries the raw line at fault. */
  datatype ParseError = InvalidHeader(line: string) | InvalidLine(line: string)

  /** The second line, as the second `scanner.Scan()` leaves it in `scanner.Text()`. */
  function HeaderLine(lines: seq<string>): string
  {
    if |lines| >= 2 then lines[1] else ""
  }

  /** The lines the scanner loop visits. */
  function DataLines(lines: seq<string>): seq<string>
  {
    if |lines| >= 2 then lines[2..] else []
  }

  /** A data line cut into its device name and its columns. */
  function RowParts(line: string): (parts: seq<string>)
    ensures |parts| >= 1
  {
    SplitFieldSep(TrimLeft(line, ' '))
  }

  /** The device a data line is about. */
  function Device(line: string): string
  {
    RowParts(line)[0]
  }

  /** A data line has exactly one part per column plus the device name. */
  predicate WellFormed(header: seq<string>, line: string)
  {
    |RowParts(line)| == 2 * |header| + 1
  }

  /** The counters of one device after the first `k` header fields were written. */
  function RowCounters(header: seq<string>, parts: seq<string>, k: nat): CounterSet
    requires k <= |header| && |parts| == 2 * |header| + 1
  {
    if k == 0 then map[]
    else
      RowCounters(header, parts, k - 1)
        [ReceiveKey(header[k - 1]) := parts[k]]
        [TransmitKey(header[k - 1]) := parts[k + |header|]]
  }

  /** One data line applied to the table built so far. */
  function AddRow(header: seq<string>, ignore: string -> bool, netDev: DeviceStats, line: string)
    : Result<DeviceStats, ParseError>
  {
    var parts := RowParts(line);
    if |parts| != 2 * |header| + 1 then Failure(InvalidLine(line))
    else if ignore(parts[0]) then Success(netDev)
    else Success(netDev[parts[0] := RowCounters(header, parts, |header|)])
  }

  /** The table after the data lines `rows`, or the first error among them. */
  function Rows(header: seq<string>, ignore: string -> bool, rows: seq<string>)
    : Result<DeviceStats, ParseError>
  {
    if rows == [] then Success(map[])
    else
      match Rows(header, ignore, rows[..|rows| - 1])
      case Failure(e) => Failure(e)
      case Success(netDev) => AddRow(header, ignore, netDev, rows[|rows| - 1])
  }

  /** What `parseNetDevStats` returns for the given lines. */
  function NetDevStats(lines: seq<string>, ignore: string -> bool): Result<DeviceStats, ParseError>
  {
    var segments := Split(HeaderLine(lines), '|');
    if |segments| != 3 then Failure(InvalidHeader(HeaderLine(lines)))
    else Rows(Fields(segments[1]), ignore, DataLines(lines))
  }

  /** The field names of a header line that has three segments. */
  function HeaderFields(lines: seq<string>): seq<string>
    requires |Split(HeaderLine(lines), '|')| == 3
  {
    Fields(Split(HeaderLine(lines), '|')[1])
  }

  /** `parseNetDevStats`: the scanner loop over the lines. */
  method ParseNetDevStats(lines: seq<string>, ignore: string -> bool)
    returns (r: Result<DeviceStats, ParseError>)
    ensures r == NetDevStats(lines, ignore)
  {
    var next := 0;
    // skip first header
    if next < |lines| {
      next := next + 1;
    }
    var headerLine := "";
    if next < |lines| {
      headerLine := lines[next];
      next := next + 1;
    }
    assert headerLine == HeaderLine(lines);
    var segments := Split(headerLine, '|');
    if |lines| < 2 {
      assert segments == [""];
    }
    if |segments| != 3 {
      return Failure(InvalidHeader(headerLine));
    }
    var header := Fields(segments[1]);
    NetDevStatsRows(lines, ignore);
    var netDev: DeviceStats := map[];
    assert lines[2..next] == [];
    while next < |lines|
      invariant 2 <= next <= |lines|
      invariant Rows(header, ignore, lines[2..next]) == Success(netDev)
    {
      var text := lines[next];
      RowsStep(header, ignore, lines, next, netDev);
      next := next + 1;
      var row := ParseLine(header, ignore, netDev, text);
      if row.Failure? {
        RowsStopAt(header, ignore, lines, next);
        return row;
      }
      netDev := row.value;
    }
    assert lines[2..next] == lines[2..];
    return Success(netDev);
  }

  /** One pass of the scanner loop: the line is split into its device and its
      columns, rejected when the column count is wrong, skipped when the device is
      ignored, and otherwise its counters replace the device's entry. */
  method ParseLine(header: seq<string>, ignore: string -> bool, netDev: DeviceStats, text: string)
    returns (r: Result<DeviceStats, ParseError>)
    ensures r == AddRow(header, ignore, netDev, text)
  {
    var parts := SplitFieldSep(TrimLeft(text, ' '));
    assert parts == RowParts(text);
    if |parts| != 2 * |header| + 1 {
      return Failure(InvalidLine(text));
    }
    var dev := parts[0];
    if ignore(dev) {
      return Success(netDev);
    }
    var devStats: CounterSet := map[];
    for i := 0 to |header|
      invariant devStats == RowCounters(header, parts, i)
    {
      devStats := devStats[ReceiveKey(header[i]) := parts[i + 1]];
      devStats := devStats[TransmitKey(header[i]) := parts[i + 1 + |header|]];
    }
    return Success(netDev[dev := devStats]);
  }

  /** With a valid header the result is that of the loop over the lines after it. */
  lemma NetDevStatsRows(lines: seq<string>, ignore: string -> bool)
    requires |Split(HeaderLine(lines), '|')| == 3
    ensures |lines| >= 2
    ensures NetDevStats(lines, ignore) == Rows(HeaderFields(lines), ignore, lines[2..])
  {
    SplitEmpty('|');
  }

  /** The loop body's step: the next data line applied to the table so far. */
  lemma RowsStep(header: seq<string>, ignore: string -> bool, lines: seq<string>, next: nat, netDev: DeviceStats)
    requires 2 <= next < |lines| && Rows(header, ignore, lines[2..next]) == Success(netDev)
    ensures Rows(header, ignore, lines[2..next + 1]) == AddRow(header, ignore, netDev, lines[next])
  {
    var done := lines[2..next + 1];
    assert done[..|done| - 1] == lines[2..next] && done[|done| - 1] == lines[next];
  }

  /** The loop's early return: a failed prefix is the result of all the data lines. */
  lemma RowsStopAt(header: seq<string>, ignore: string -> bool, lines: seq<string>, next: nat)
    requires 2 <= next <= |lines| && Rows(header, ignore, lines[2..next]).Failure?
    ensures Rows(header, ignore, lines[2..]) == Rows(header, ignore, lines[2..next])
  {
    RowsFailureSticks(header, ignore, lines[2..next], lines[next..]);
    assert lines[2..next] + lines[next..] == lines[2..];
  }

  // ---------------------------------------------------------------------------
  // The counters of one device

  /** A device's counter names are exactly `receive_<h>` and `transmit_<h>` for the
      header fields `h` written so far. */
  lemma {:induction false} RowCountersKeys(header: seq<string>, parts: seq<string>, k: nat)
    requires k <= |header| && |parts| == 2 * |header| + 1
    ensures RowCounters(header, parts, k).Keys == CounterNames(header[..k])
  {
    if k > 0 {
      RowCountersKeys(header, parts, k - 1);
      assert header[..k] == header[..k - 1] + [header[k - 1]];
      CounterNamesSnoc(header[..k - 1], header[k - 1]);
    }
  }

  /** Column `i + 1` is the receive value and column `i + 1 + N` the transmit value
      of header field `i`, unless a later field of the same name overwrote them. */
  lemma {:induction false} RowCountersValues(header: seq<string>, parts: seq<string>, k: nat, i: nat)
    requires k <= |header| && |parts| == 2 * |header| + 1
    requires i < k && header[i] !in header[i + 1..k]
    ensures ReceiveKey(header[i]) in RowCounters(header, parts, k)
    ensures RowCounters(header, parts, k)[ReceiveKey(header[i])] == parts[i + 1]
    ensures TransmitKey(header[i]) in RowCounters(header, parts, k)
    ensures RowCounters(header, parts, k)[TransmitKey(header[i])] == parts[i + 1 + |header|]
  {
    KeysDistinct(header[i], header[k - 1]);
    KeysDistinct(header[k - 1], header[i]);
    if i < k - 1 {
      assert header[k - 1] in header[i + 1..k];
      assert header[i + 1..k - 1] <= header[i + 1..k];
      RowCountersValues(header, parts, k - 1, i);
    }
  }

  /** The value of a counter is the column of the LAST header field of its name. */
  lemma RowCountersLastColumn(header: seq<string>, parts: seq<string>, i: nat)
    requires |parts| == 2 * |header| + 1
    requires i < |header| && header[i] !in header[i + 1..]
    ensures ReceiveKey(header[i]) in RowCounters(header, parts, |header|)
    ensures RowCounters(header, parts, |header|)[ReceiveKey(header[i])] == parts[i + 1]
    ensures TransmitKey(header[i]) in RowCounters(header, parts, |header|)
    ensures RowCounters(header, parts, |header|)[TransmitKey(header[i])] == parts[i + 1 + |header|]
  {
    assert header[i + 1..|header|] == header[i + 1..];
    RowCountersValues(header, parts, |header|, i);
  }

  // ---------------------------------------------------------------------------
  // The loop over the data lines

  /** Once a prefix of the data lines fails, later lines change nothing. */
  lemma {:induction false} RowsFailureSticks(header: seq<string>, ignore: string -> bool, rows: seq<string>, more: seq<string>)
    requires Rows(header, ignore, rows).Failure?
    ensures Rows(header, ignore, rows + more) == Rows(header, ignore, rows)
    decreases |more|
  {
    if more == [] {
      assert rows + more == rows;
    } else {
      var init := more[..|more| - 1];
      RowsFailureSticks(header, ignore, rows, init);
      assert (rows + more)[..|rows + more| - 1] == rows + init;
    }
  }

  /** Every failure of the loop names one of its lines as an invalid line. */
  lemma {:induction false} RowsFailureIsInvalidLine(header: seq<string>, ignore: string -> bool, rows: seq<string>)
    requires Rows(header, ignore, rows).Failure?
    ensures Rows(header, ignore, rows).error.InvalidLine?
  {
    if Rows(header, ignore, rows[..|rows| - 1]).Failure? {
      RowsFailureIsInvalidLine(header, ignore, rows[..|rows| - 1]);
    }
  }

  /** When every data line is well formed the loop succeeds. */
  lemma {:induction false} RowsSuccess(header: seq<string>, ignore: string -> bool, rows: seq<string>)
    requires forall k :: 0 <= k < |rows| ==> WellFormed(header, rows[k])
    ensures Rows(header, ignore, rows).Success?
  {
    if rows != [] {
      RowsSuccess(header, ignore, rows[..|rows| - 1]);
    }
  }

  /** When the loop succeeds every data line was well formed. */
  lemma {:induction false} RowsSuccessWellFormed(header: seq<string>, ignore: string -> bool, rows: seq<string>)
    requires Rows(header, ignore, rows).Success?
    ensures forall k :: 0 <= k < |rows| ==> WellFormed(header, rows[k])
  {
    if rows != [] {
      var init := rows[..|rows| - 1];
      RowsSuccessWellFormed(header, ignore, init);
      forall k | 0 <= k < |rows| - 1 ensures WellFormed(header, rows[k]) {
        assert rows[k] == init[k];
      }
    }
  }

  /** The first malformed data line fails the whole loop, whether or not its
      device would have been ignored. */
  lemma {:induction false} RowsFirstInvalidLine(header: seq<string>, ignore: string -> bool, rows: seq<string>, k: nat)
    requires k < |rows| && !WellFormed(header, rows[k])
    requires forall j :: 0 <= j < k ==> WellFormed(header, rows[j])
    ensures Rows(header, ignore, rows) == Failure(InvalidLine(rows[k]))
  {
    var init := rows[..|rows| - 1];
    if k == |rows| - 1 {
      forall j | 0 <= j < |init| ensures WellFormed(header, init[j]) {
        assert init[j] == rows[j];
      }
      RowsSuccess(header, ignore, init);
    } else {
      assert rows[k] == init[k];
      forall j | 0 <= j < k ensures WellFormed(header, init[j]) {
        assert init[j] == rows[j];
      }
      RowsFirstInvalidLine(header, ignore, init, k);
    }
  }

  /** The devices in the table are exactly those of the data lines that the
      ignore predicate does not reject. */
  lemma RowsKeys(header: seq<string>, ignore: string -> bool, rows: seq<string>, netDev: DeviceStats)
    requires Rows(header, ignore, rows) == Success(netDev)
    ensures netDev.Keys == set k | 0 <= k < |rows| && !ignore(Device(rows[k])) :: Device(rows[k])
  {
    RowsKeptNames(header, ignore, rows, netDev);
    KeptNamesAll(rows, Device, ignore);
  }

  lemma {:induction false} RowsKeptNames(header: seq<string>, ignore: string -> bool, rows: seq<string>, netDev: DeviceStats)
    requires Rows(header, ignore, rows) == Success(netDev)
    ensures netDev.Keys == KeptNames(rows, Device, ignore)
  {
    if rows != [] {
      var init := rows[..|rows| - 1];
      var before :| Rows(header, ignore, init) == Success(before);
      RowsKeptNames(header, ignore, init, before);
    }
  }

  /** The names `name` gives the elements of `xs` that `drop` does not reject. */
  function KeptNames(xs: seq<string>, name: string -> string, drop: string -> bool): set<string>
  {
    if xs == [] then {}
    else
      var last := name(xs[|xs| - 1]);
      KeptNames(xs[..|xs| - 1], name, drop) + if drop(last) then {} else {last}
  }

  lemma {:induction false} KeptNamesAll(xs: seq<string>, name: string -> string, drop: string -> bool)
    ensures KeptNames(xs, name, drop) == set k | 0 <= k < |xs| && !drop(name(xs[k])) :: name(xs[k])
  {
    if xs != [] {
      KeptNamesAll(xs[..|xs| - 1], name, drop);
      KeptSnoc(xs, name, drop);
    }
  }

  /** The names `name` gives the elements of `xs` that `drop` does not reject,
      taken one element at a time from the back. */
  lemma KeptSnoc(xs: seq<string>, name: string -> string, drop: string -> bool)
    requires xs != []
    ensures var init, last := xs[..|xs| - 1], xs[|xs| - 1];
      (set k | 0 <= k < |xs| && !drop(name(xs[k])) :: name(xs[k]))
        == (set k | 0 <= k < |init| && !drop(name(init[k])) :: name(init[k]))
           + if drop(name(last)) then {} else {name(last)}
  {
    var init, last := xs[..|xs| - 1], xs[|xs| - 1];
    var kept := set k | 0 <= k < |xs| && !drop(name(xs[k])) :: name(xs[k]);
    var keptBefore := set k | 0 <= k < |init| && !drop(name(init[k])) :: name(init[k]);
    var added: set<string> := if drop(name(last)) then {} else {name(last)};
    forall x | x in kept ensures x in keptBefore + added {
      var k :| 0 <= k < |xs| && !drop(name(xs[k])) && name(xs[k]) == x;
      if k < |init| {
        assert init[k] == xs[k];
      }
    }
    forall x | x in keptBefore + added ensures x in kept {
      if x in keptBefore {
        var k :| 0 <= k < |init| && !drop(name(init[k])) && name(init[k]) == x;
        assert init[k] == xs[k];
      } else {
        assert xs[|xs| - 1] == last;
      }
    }
  }

  /** A device's entry is the counter set of its LAST data line, replacing any
      earlier entry entirely. */
  lemma {:induction false} RowsLastLineWins(header: seq<string>, ignore: string -> bool, rows: seq<string>, netDev: DeviceStats, k: nat)
    requires Rows(header, ignore, rows) == Success(netDev)
    requires k < |rows| && !ignore(Device(rows[k]))
    requires forall j :: k < j < |rows| ==> Device(rows[j]) != Device(rows[k])
    ensures WellFormed(header, rows[k])
    ensures Device(rows[k]) in netDev
    ensures netDev[Device(rows[k])] == RowCounters(header, RowParts(rows[k]), |header|)
  {
    RowsSuccessWellFormed(header, ignore, rows);
    var init, last := rows[..|rows| - 1], rows[|rows| - 1];
    var before :| Rows(header, ignore, init) == Success(before);
    if k < |rows| - 1 {
      assert init[k] == rows[k];
      forall j | k < j < |init| ensures Device(init[j]) != Device(init[k]) {
        assert init[j] == rows[j];
      }
      RowsLastLineWins(header, ignore, init, before, k);
    }
  }

  /** Every device entry has exactly the counter names of the header. */
  lemma {:induction false} RowsEntryKeys(header: seq<string>, ignore: string -> bool, rows: seq<string>, netDev: DeviceStats)
    requires Rows(header, ignore, rows) == Success(netDev)
    ensures forall d :: d in netDev ==> netDev[d].Keys == CounterNames(header)
  {
    if rows != [] {
      var init, last := rows[..|rows| - 1], rows[|rows| - 1];
      var before :| Rows(header, ignore, init) == Success(before);
      RowsEntryKeys(header, ignore, init, before);
      if WellFormed(header, last) {
        assert header[..|header|] == header;
        RowCountersKeys(header, RowParts(last), |header|);
      }
    }
  }

  // ---------------------------------------------------------------------------
  // The whole parser

  /** The header is rejected exactly when its second line does not hold exactly two
      `|` characters, i.e. does not split into three segments. */
  lemma InvalidHeaderExactly(lines: seq<string>, ignore: string -> bool)
    ensures NetDevStats(lines, ignore) == Failure(InvalidHeader(HeaderLine(lines)))
        <==> multiset(HeaderLine(lines))['|'] != 2
  {
    SplitCount(HeaderLine(lines), '|');
    var segments := Split(HeaderLine(lines), '|');
    if |segments| == 3 && Rows(Fields(segments[1]), ignore, DataLines(lines)).Failure? {
      RowsFailureIsInvalidLine(Fields(segments[1]), ignore, DataLines(lines));
    }
  }

  /** The content of the first line never matters. */
  lemma FirstLineIgnored(lines: seq<string>, other: seq<string>, ignore: string -> bool)
    requires |lines| >= 1 && |other| >= 1 && lines[1..] == other[1..]
    ensures NetDevStats(lines, ignore) == NetDevStats(other, ignore)
  {
    if |lines| >= 2 {
      assert lines[1] == lines[1..][0] == other[1];
      assert lines[2..] == lines[1..][1..] == other[2..];
    }
  }

  /** A header line assembled from three `|`-free segments splits into them. */
  lemma HeaderSegments(first: string, receive: string, third: string)
    requires '|' !in first && '|' !in receive && '|' !in third
    ensures Split(first + "|" + receive + "|" + third, '|') == [first, receive, third]
  {
    var segments := [first, receive, third];
    assert segments[1..] == [receive, third] && segments[1..][1..] == [third];
    assert Join([third], '|') == third;
    assert Join([receive, third], '|') == receive + "|" + third;
    assert Join(segments, '|') == first + "|" + (receive + "|" + third);
    assert first + "|" + (receive + "|" + third) == first + "|" + receive + "|" + third;
    SplitJoin(segments, '|');
  }

  /** Only the middle header segment is read: the first and the third (the
      transmit field names) may be anything without a `|`. */
  lemma OuterHeaderSegmentsIgnored(lines: seq<string>, first: string, third: string, first': string, third': string, ignore: string -> bool)
    requires |lines| >= 2
    requires '|' !in first && '|' !in third && '|' !in first' && '|' !in third'
    requires |Split(lines[1], '|')| == 3
    ensures var receive := Split(lines[1], '|')[1];
      NetDevStats(lines[1 := first + "|" + receive + "|" + third], ignore)
        == NetDevStats(lines[1 := first' + "|" + receive + "|" + third'], ignore)
  {
    var receive := Split(lines[1], '|')[1];
    SplitPiecesFree(lines[1], '|');
    HeaderSegments(first, receive, third);
    HeaderSegments(first', receive, third');
    var a := lines[1 := first + "|" + receive + "|" + third];
    var b := lines[1 := first' + "|" + receive + "|" + third'];
    assert HeaderLine(a) == first + "|" + receive + "|" + third;
    assert HeaderLine(b) == first' + "|" + receive + "|" + third';
    assert DataLines(a) == lines[2..] == DataLines(b);
  }

  /** Whether the call fails, and how, does not depend on the ignore predicate:
      a malformed line of an ignored device fails the call too. */
  lemma ErrorsIgnoreIndependent(lines: seq<string>, ignore: string -> bool, ignore': string -> bool)
    requires NetDevStats(lines, ignore).Failure?
    ensures NetDevStats(lines, ignore') == NetDevStats(lines, ignore)
  {
    var segments := Split(HeaderLine(lines), '|');
    if |segments| == 3 {
      var header, rows := Fields(segments[1]), DataLines(lines);
      if forall k :: 0 <= k < |rows| ==> WellFormed(header, rows[k]) {
        RowsSuccess(header, ignore, rows);
      } else {
        var k := FirstMalformed(header, rows);
        RowsFirstInvalidLine(header, ignore, rows, k);
        RowsFirstInvalidLine(header, ignore', rows, k);
      }
    }
  }

  /** The index of the first malformed line. */
  lemma FirstMalformed(header: seq<string>, rows: seq<string>) returns (k: nat)
    requires exists k :: 0 <= k < |rows| && !WellFormed(header, rows[k])
    ensures k < |rows| && !WellFormed(header, rows[k])
    ensures forall j :: 0 <= j < k ==> WellFormed(header, rows[j])
  {
    k := 0;
    while WellFormed(header, rows[k])
      invariant k < |rows|
      invariant forall j :: 0 <= j < k ==> WellFormed(header, rows[j])
      invariant exists m :: k <= m < |rows| && !WellFormed(header, rows[m])
      decreases |rows| - k
    {
      k := k + 1;
    }
  }

  /** A valid header and a malformed data line: the call fails with the first such
      line, raw and untrimmed, and returns no table. */
  lemma InvalidLineFirst(lines: seq<string>, ignore: string -> bool, k: nat)
    requires |Split(HeaderLine(lines), '|')| == 3
    requires 2 <= k < |lines| && !WellFormed(HeaderFields(lines), lines[k])
    requires forall j :: 2 <= j < k ==> WellFormed(HeaderFields(lines), lines[j])
    ensures NetDevStats(lines, ignore) == Failure(InvalidLine(lines[k]))
  {
    var rows := DataLines(lines);
    assert rows[k - 2] == lines[k];
    forall j | 0 <= j < k - 2 ensures WellFormed(HeaderFields(lines), rows[j]) {
      assert rows[j] == lines[j + 2];
    }
    RowsFirstInvalidLine(HeaderFields(lines), ignore, rows, k - 2);
  }

  /** The call succeeds exactly when the header has three segments and every data
      line is well formed. */
  lemma SucceedsExactly(lines: seq<string>, ignore: string -> bool)
    ensures NetDevStats(lines, ignore).Success?
        <==> |Split(HeaderLine(lines), '|')| == 3
             && forall k :: 2 <= k < |lines| ==> WellFormed(HeaderFields(lines), lines[k])
  {
    var segments := Split(HeaderLine(lines), '|');
    if |segments| == 3 {
      var header, rows := HeaderFields(lines), DataLines(lines);
      assert forall k :: 2 <= k < |lines| ==> lines[k] == rows[k - 2];
      if forall k :: 2 <= k < |lines| ==> WellFormed(header, lines[k]) {
        assert forall k :: 0 <= k < |rows| ==> rows[k] == lines[k + 2];
        RowsSuccess(header, ignore, rows);
      } else if NetDevStats(lines, ignore).Success? {
        RowsSuccessWellFormed(header, ignore, rows);
        assert false;
      }
    }
  }

  /** On success: the table's devices are exactly the devices of the data lines the
      ignore predicate does not reject, and each device's counters are those of
      its last data line, named after the header fields. */
  lemma ParsedTable(lines: seq<string>, ignore: string -> bool, netDev: DeviceStats)
    requires NetDevStats(lines, ignore) == Success(netDev)
    ensures |Split(HeaderLine(lines), '|')| == 3
    ensures var rows := DataLines(lines);
      netDev.Keys == set k | 0 <= k < |rows| && !ignore(Device(rows[k])) :: Device(rows[k])
    ensures var rows, header := DataLines(lines), HeaderFields(lines);
      forall k :: 0 <= k < |rows| && !ignore(Device(rows[k]))
                  && (forall j :: k < j < |rows| ==> Device(rows[j]) != Device(rows[k]))
                  ==> && WellFormed(header, rows[k])
                      && Device(rows[k]) in netDev
                      && netDev[Device(rows[k])] == RowCounters(header, RowParts(rows[k]), |header|)
    ensures forall d :: d in netDev ==> netDev[d].Keys == CounterNames(HeaderFields(lines))
  {
    SplitEmpty('|');
    var header, rows := HeaderFields(lines), DataLines(lines);
    assert Rows(header, ignore, rows) == Success(netDev);
    RowsKeys(header, ignore, rows, netDev);
    forall k | 0 <= k < |rows| && !ignore(Device(rows[k]))
               && (forall j :: k < j < |rows| ==> Device(rows[j]) != Device(rows[k]))
      ensures && WellFormed(header, rows[k])
              && Device(rows[k]) in netDev
              && netDev[Device(rows[k])] == RowCounters(header, RowParts(rows[k]), |header|)
    {
      RowsLastLineWins(header, ignore, rows, netDev, k);
    }
    RowsEntryKeys(header, ignore, rows, netDev);
  }
}
