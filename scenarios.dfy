/**
  Worked instances of both collectors on small concrete inputs: a
  `/proc/net/dev` text with one interface, and a `getifaddrs` list in which one
  interface also has an address record.
*/
module Scenarios {
  import opened Wrappers
  import opened GoStrings
  import opened Counters
  import opened NetDevLinux
  import opened NetDevFreeBSD

  // ---------------------------------------------------------------------------
  // Linux: one interface under the two-line header

  const Banner: string := "Inter-|   Receive                                                |  Transmit"
  const ColumnNames: seq<string> := ["bytes", "packets", "errs", "drop"]
  /** "bytes packets errs drop" */
  const Columns: string := Join(ColumnNames, ' ')
  /** " face |bytes packets errs drop|bytes packets errs drop" */
  const Header: string := " face " + "|" + Columns + "|" + Columns
  const Eth0Values: seq<string> := ["1000", "10", "0", "0", "2000", "20", "0", "0"]
  /** "eth0: 1000 10 0 0 2000 20 0 0" */
  const Eth0Row: string := "eth0" + ":" + " " + Join(Eth0Values, ' ')

  lemma ColumnFields()
    ensures Fields(Columns) == ColumnNames
  {
    assert NoneOf("bytes", WhiteSpace) && NoneOf("packets", WhiteSpace);
    assert NoneOf("errs", WhiteSpace) && NoneOf("drop", WhiteSpace);
    FieldsJoin(ColumnNames);
  }

  lemma HeaderSplit()
    ensures Split(Header, '|') == [" face ", Columns, Columns]
  {
    JoinNoneOf(ColumnNames, ' ', {'|'});
    HeaderSegments(" face ", Columns, Columns);
  }

  lemma Eth0Parts()
    ensures RowParts(Eth0Row) == ["eth0"] + Eth0Values
  {
    var rest := Join(Eth0Values, ' ');
    Eth0RowShape();
    Eth0ValuesPlain();
    TrimLeftOf([], Eth0Row, ' ');
    SplitFieldSepStep("eth0", ':', 1, rest);
    SplitFieldSepJoinSpaces(Eth0Values);
  }

  lemma Eth0RowShape()
    ensures Eth0Row == [] + Eth0Row
    ensures Eth0Row == "eth0" + [':'] + Spaces(1) + Join(Eth0Values, ' ')
    ensures Eth0Row[0] == 'e' && Join(Eth0Values, ' ')[0] == '1'
  {
    assert Spaces(1) == " ";
  }

  lemma Eth0ValuesPlain()
    ensures forall i :: 0 <= i < |Eth0Values| ==> Eth0Values[i] != [] && NoneOf(Eth0Values[i], FieldSeparators)
  {
    assert NoneOf("0", FieldSeparators) && NoneOf("10", FieldSeparators) && NoneOf("20", FieldSeparators);
    assert NoneOf("1000", FieldSeparators) && NoneOf("2000", FieldSeparators);
  }

  /** The default ignore pattern `^$` matches only the empty name. */
  function IgnoreEmpty(dev: string): bool
  {
    dev == ""
  }

  /** The eight counters of `eth0`: the raw column text, receive side first. */
  lemma Eth0Table()
    ensures NetDevStats([Banner, Header, Eth0Row], IgnoreEmpty) == Success(map["eth0" := map[
      "receive_bytes" := "1000", "transmit_bytes" := "2000",
      "receive_packets" := "10", "transmit_packets" := "20",
      "receive_errs" := "0", "transmit_errs" := "0",
      "receive_drop" := "0", "transmit_drop" := "0"]])
  {
    var lines := [Banner, Header, Eth0Row];
    HeaderSplit();
    ColumnFields();
    Eth0Parts();
    assert HeaderLine(lines) == Header;
    assert DataLines(lines) == [] + [Eth0Row];
    var parts := ["eth0"] + Eth0Values;
    assert Rows(ColumnNames, IgnoreEmpty, []) == Success(map[]);
    assert Rows(ColumnNames, IgnoreEmpty, [Eth0Row])
        == Success(map["eth0" := RowCounters(ColumnNames, parts, 4)]);
    Eth0Counters();
  }

  lemma Eth0Counters()
    ensures RowCounters(ColumnNames, ["eth0"] + Eth0Values, 4) == map[
      "receive_bytes" := "1000", "transmit_bytes" := "2000",
      "receive_packets" := "10", "transmit_packets" := "20",
      "receive_errs" := "0", "transmit_errs" := "0",
      "receive_drop" := "0", "transmit_drop" := "0"]
  {
    var parts := ["eth0"] + Eth0Values;
    var h := ColumnNames;
    assert parts == ["eth0", "1000", "10", "0", "0", "2000", "20", "0", "0"];
    assert RowCounters(h, parts, 1) == map[ReceiveKey("bytes") := "1000", TransmitKey("bytes") := "2000"];
    assert RowCounters(h, parts, 2) == RowCounters(h, parts, 1)[ReceiveKey("packets") := "10"][TransmitKey("packets") := "20"];
    assert RowCounters(h, parts, 3) == RowCounters(h, parts, 2)[ReceiveKey("errs") := "0"][TransmitKey("errs") := "0"];
    assert RowCounters(h, parts, 4) == RowCounters(h, parts, 3)[ReceiveKey("drop") := "0"][TransmitKey("drop") := "0"];
    assert RowCounters(ColumnNames, parts, 4) == map[
      ReceiveKey("bytes") := "1000", TransmitKey("bytes") := "2000",
      ReceiveKey("packets") := "10", TransmitKey("packets") := "20",
      ReceiveKey("errs") := "0", TransmitKey("errs") := "0",
      ReceiveKey("drop") := "0", TransmitKey("drop") := "0"];
    assert ReceiveKey("bytes") == "receive_bytes" && TransmitKey("bytes") == "transmit_bytes";
    assert ReceiveKey("packets") == "receive_packets" && TransmitKey("packets") == "transmit_packets";
    assert ReceiveKey("errs") == "receive_errs" && TransmitKey("errs") == "transmit_errs";
    assert ReceiveKey("drop") == "receive_drop" && TransmitKey("drop") == "transmit_drop";
  }

  // ---------------------------------------------------------------------------
  // FreeBSD: two interfaces, one of which also has an address record

  /** `AF_INET` in FreeBSD's `sys/socket.h`. */
  const AF_INET: nat := 2

  /** Whatever the counters, the address record of `en0` contributes nothing, and
      each interface gets the ten counters of its own link-layer record. */
  lemma LoopbackAndEthernet(lo: IfData, en: IfData, addr: IfData)
    ensures LinkStats([IfAddr(AF_LINK, "lo0", lo), IfAddr(AF_INET, "en0", addr), IfAddr(AF_LINK, "en0", en)])
      == map["lo0" := IfDataCounters(lo), "en0" := IfDataCounters(en)]
  {
    var a, b, c := IfAddr(AF_LINK, "lo0", lo), IfAddr(AF_INET, "en0", addr), IfAddr(AF_LINK, "en0", en);
    var ifas := [a, b, c];
    assert ifas[..2] == [a, b] && [a, b][..1] == [a] && [a][..0] == [];
    assert LinkStats([a]) == map["lo0" := IfDataCounters(lo)];
    assert LinkStats([a, b]) == LinkStats([a]);
    assert LinkStats(ifas) == LinkStats([a, b])["en0" := IfDataCounters(en)];
  }
}
