/**
  The FreeBSD collector's walk over the `getifaddrs` list (`getNetDevStats`).

  The list the system call hands back is a sequence of records, in list order;
  a failed call (`getifaddrs` returning -1) is `None`. Each record carries its
  address family, its interface name and the ten `if_data` counters the
  collector reads. Only link-layer (`AF_LINK`) records count: each one gives its
  interface a fresh set of ten counters, and a later record for the same name
  replaces an earlier one. A counter is an unsigned 64-bit `u_long` that the
  collector converts with Go's `int` before rendering it in decimal, so a value
  at or above 2^63 comes out negative; the conversion loses no bits.
*/
module NetDevFreeBSD {
  import opened Wrappers
  import opened Decimal
  import opened Counters

  /** `AF_LINK` in FreeBSD's `sys/socket.h`. */
  const AF_LINK: nat := 18

  const TWO_TO_THE_63: int := 0x8000_0000_0000_0000
  const TWO_TO_THE_64: int := 0x1_0000_0000_0000_0000

  /** An `if_data` counter: a `u_long`, 64 bits wide on amd64. */
  type U64 = x: int | 0 <= x < TWO_TO_THE_64

  /** The fields of `struct if_data` the collector reads. */
  datatype IfData = IfData(
    ipackets: U64, opackets: U64,
    ierrors: U64, oerrors: U64,
    ibytes: U64, obytes: U64,
    imcasts: U64, omcasts: U64,
    iqdrops: U64, oqdrops: U64)

  /** One `struct ifaddrs` record: `ifa_addr->sa_family`, `ifa_name` and the
      statistics `ifa_data` points to. */
  datatype IfAddr = IfAddr(family: nat, name: string, data: IfData)

  /** The one failure of the walker. */
  datatype WalkError = GetifaddrsFailed

  /** The counter vocabulary: its field names, in the order the collector writes them. */
  const CounterFields: seq<string> := ["packets", "errs", "bytes", "multicast", "drop"]

  /** Go's `int(x)` on a 64-bit platform: the same 64 bits read as two's complement. */
  function GoInt(x: U64): int
  {
    if x < TWO_TO_THE_63 then x else x - TWO_TO_THE_64
  }

  /** How the walker renders one counter: `strconv.Itoa(int(x))`. */
  function CounterText(x: U64): string
  {
    IntToDecimal(GoInt(x))
  }

  /** Reads a rendered counter back into the 64 bits it came from. */
  function ReadCounter(s: string): Option<U64>
  {
    var i := ParseInt(s);
    if i.Some? && -TWO_TO_THE_63 <= i.value < TWO_TO_THE_63 then Some(i.value % TWO_TO_THE_64) else None
  }

  /** The cast keeps the bits: it is the identity below 2^63 and turns the upper
      half negative, and reducing modulo 2^64 undoes it. */
  lemma GoIntWraps(x: U64)
    ensures -TWO_TO_THE_63 <= GoInt(x) < TWO_TO_THE_63
    ensures GoInt(x) % TWO_TO_THE_64 == x
    ensures x < TWO_TO_THE_63 ==> GoInt(x) == x
    ensures x >= TWO_TO_THE_63 ==> GoInt(x) < 0
  {
  }

  /** A counter below 2^63 is its own canonical decimal numeral; one at or above
      2^63 comes out with a minus sign. */
  lemma CounterTextShape(x: U64)
    ensures x < TWO_TO_THE_63 ==> IsDecimal(CounterText(x)) && DigitsValue(CounterText(x)) == x
    ensures x >= TWO_TO_THE_63 ==> CounterText(x)[0] == '-'
  {
  }

  /** No bit of a counter is lost in rendering. */
  lemma ParseCounterText(x: U64)
    ensures ReadCounter(CounterText(x)) == Some(x)
  {
    GoIntWraps(x);
    ParseIntToDecimal(GoInt(x));
  }

  /** The ten counters of one link-layer record. */
  function IfDataCounters(d: IfData): CounterSet
  {
    map[
      "receive_packets" := CounterText(d.ipackets),
      "transmit_packets" := CounterText(d.opackets),
      "receive_errs" := CounterText(d.ierrors),
      "transmit_errs" := CounterText(d.oerrors),
      "receive_bytes" := CounterText(d.ibytes),
      "transmit_bytes" := CounterText(d.obytes),
      "receive_multicast" := CounterText(d.imcasts),
      "transmit_multicast" := CounterText(d.omcasts),
      "receive_drop" := CounterText(d.iqdrops),
      "transmit_drop" := CounterText(d.oqdrops)]
  }

  /** The table after walking the records `ifas` in order. */
  function LinkStats(ifas: seq<IfAddr>): DeviceStats
  {
    if ifas == [] then map[]
    else
      var ifa := ifas[|ifas| - 1];
      var netDev := LinkStats(ifas[..|ifas| - 1]);
      if ifa.family == AF_LINK then netDev[ifa.name := IfDataCounters(ifa.data)] else netDev
  }

  /** `getNetDevStats`: the walk from the head of the list to its end. */
  method GetNetDevStats(ifap: Option<seq<IfAddr>>) returns (r: Result<DeviceStats, WalkError>)
    ensures ifap.None? ==> r == Failure(GetifaddrsFailed)
    ensures ifap.Some? ==> r == Success(LinkStats(ifap.value))
  {
    var netDev: DeviceStats := map[];
    if ifap.None? {
      return Failure(GetifaddrsFailed);
    }
    var ifas := ifap.value;
    var i := 0;
    while i < |ifas|
      invariant 0 <= i <= |ifas|
      invariant netDev == LinkStats(ifas[..i])
    {
      var ifa := ifas[i];
      assert ifas[..i + 1][..i] == ifas[..i];
      if ifa.family == AF_LINK {
        var devStats: CounterSet := map[];
        var data := ifa.data;
        devStats := devStats["receive_packets" := CounterText(data.ipackets)];
        devStats := devStats["transmit_packets" := CounterText(data.opackets)];
        devStats := devStats["receive_errs" := CounterText(data.ierrors)];
        devStats := devStats["transmit_errs" := CounterText(data.oerrors)];
        devStats := devStats["receive_bytes" := CounterText(data.ibytes)];
        devStats := devStats["transmit_bytes" := CounterText(data.obytes)];
        devStats := devStats["receive_multicast" := CounterText(data.imcasts)];
        devStats := devStats["transmit_multicast" := CounterText(data.omcasts)];
        devStats := devStats["receive_drop" := CounterText(data.iqdrops)];
        devStats := devStats["transmit_drop" := CounterText(data.oqdrops)];
        assert devStats == IfDataCounters(data);
        netDev := netDev[ifa.name := devStats];
      }
      i := i + 1;
    }
    assert ifas[..i] == ifas;
    return Success(netDev);
  }

  // ---------------------------------------------------------------------------
  // The counters of one record

  /** The names `IfDataCounters` writes. */
  const LinkCounterNames: set<string> := {
    "receive_packets", "transmit_packets", "receive_errs", "transmit_errs",
    "receive_bytes", "transmit_bytes", "receive_multicast", "transmit_multicast",
    "receive_drop", "transmit_drop"}

  lemma CounterFieldsNames()
    ensures CounterNames(CounterFields) == LinkCounterNames
  {
    assert ReceiveKey("packets") == "receive_packets" && TransmitKey("packets") == "transmit_packets";
    assert ReceiveKey("errs") == "receive_errs" && TransmitKey("errs") == "transmit_errs";
    assert ReceiveKey("bytes") == "receive_bytes" && TransmitKey("bytes") == "transmit_bytes";
    assert ReceiveKey("multicast") == "receive_multicast" && TransmitKey("multicast") == "transmit_multicast";
    assert ReceiveKey("drop") == "receive_drop" && TransmitKey("drop") == "transmit_drop";
    forall x ensures x in CounterNames(CounterFields) <==> x in LinkCounterNames {
      if x in CounterNames(CounterFields) {
        var f :| f in CounterFields && (x == ReceiveKey(f) || x == TransmitKey(f));
      }
      if x in LinkCounterNames {
      }
    }
  }

  lemma CounterFieldsDistinct()
    ensures forall i, j :: 0 <= i < j < |CounterFields| ==> CounterFields[i] != CounterFields[j]
  {
    assert CounterFields[0][0] == 'p' && CounterFields[1][0] == 'e' && CounterFields[2][0] == 'b';
    assert CounterFields[3][0] == 'm' && CounterFields[4][0] == 'd';
  }

  /** The ten counter names are `receive_` and `transmit_` with each of the five
      fields, the same names the Linux parser derives from such a header, and
      they are ten distinct names. */
  lemma IfDataCountersKeys(d: IfData)
    ensures IfDataCounters(d).Keys == CounterNames(CounterFields)
    ensures |IfDataCounters(d)| == 10
  {
    assert IfDataCounters(d).Keys == LinkCounterNames;
    CounterFieldsNames();
    CounterFieldsDistinct();
    CounterNamesCount(CounterFields);
  }

  /** One counter read back as a number, if present and decimal. */
  function CounterValue(m: CounterSet, name: string): Option<U64>
  {
    if name in m then ReadCounter(m[name]) else None
  }

  /** Reads the ten counters back into the record they were rendered from. */
  function DecodeIfData(m: CounterSet): Option<IfData>
  {
    var ip, op := CounterValue(m, "receive_packets"), CounterValue(m, "transmit_packets");
    var ie, oe := CounterValue(m, "receive_errs"), CounterValue(m, "transmit_errs");
    var ib, ob := CounterValue(m, "receive_bytes"), CounterValue(m, "transmit_bytes");
    var im, om := CounterValue(m, "receive_multicast"), CounterValue(m, "transmit_multicast");
    var iq, oq := CounterValue(m, "receive_drop"), CounterValue(m, "transmit_drop");
    if ip.Some? && op.Some? && ie.Some? && oe.Some? && ib.Some? && ob.Some?
      && im.Some? && om.Some? && iq.Some? && oq.Some?
    then Some(IfData(ip.value, op.value, ie.value, oe.value, ib.value, ob.value,
                     im.value, om.value, iq.value, oq.value))
    else None
  }

  /** Each receive counter reads back as its own `ifi_i*` field. */
  lemma ReceiveCountersValues(d: IfData)
    ensures CounterValue(IfDataCounters(d), "receive_packets") == Some(d.ipackets)
    ensures CounterValue(IfDataCounters(d), "receive_errs") == Some(d.ierrors)
    ensures CounterValue(IfDataCounters(d), "receive_bytes") == Some(d.ibytes)
    ensures CounterValue(IfDataCounters(d), "receive_multicast") == Some(d.imcasts)
    ensures CounterValue(IfDataCounters(d), "receive_drop") == Some(d.iqdrops)
  {
    CounterValueOf(IfDataCounters(d), "receive_packets", d.ipackets);
    CounterValueOf(IfDataCounters(d), "receive_errs", d.ierrors);
    CounterValueOf(IfDataCounters(d), "receive_bytes", d.ibytes);
    CounterValueOf(IfDataCounters(d), "receive_multicast", d.imcasts);
    CounterValueOf(IfDataCounters(d), "receive_drop", d.iqdrops);
  }

  /** Each transmit counter reads back as its own `ifi_o*` field. */
  lemma TransmitCountersValues(d: IfData)
    ensures CounterValue(IfDataCounters(d), "transmit_packets") == Some(d.opackets)
    ensures CounterValue(IfDataCounters(d), "transmit_errs") == Some(d.oerrors)
    ensures CounterValue(IfDataCounters(d), "transmit_bytes") == Some(d.obytes)
    ensures CounterValue(IfDataCounters(d), "transmit_multicast") == Some(d.omcasts)
    ensures CounterValue(IfDataCounters(d), "transmit_drop") == Some(d.oqdrops)
  {
    CounterValueOf(IfDataCounters(d), "transmit_packets", d.opackets);
    CounterValueOf(IfDataCounters(d), "transmit_errs", d.oerrors);
    CounterValueOf(IfDataCounters(d), "transmit_bytes", d.obytes);
    CounterValueOf(IfDataCounters(d), "transmit_multicast", d.omcasts);
    CounterValueOf(IfDataCounters(d), "transmit_drop", d.oqdrops);
  }

  lemma CounterValueOf(m: CounterSet, name: string, x: U64)
    requires name in m && m[name] == CounterText(x)
    ensures CounterValue(m, name) == Some(x)
  {
    ParseCounterText(x);
  }

  /** The ten values decode back to the record, so no field is lost or swapped. */
  lemma IfDataCountersDecode(d: IfData)
    ensures DecodeIfData(IfDataCounters(d)) == Some(d)
  {
    ReceiveCountersValues(d);
    TransmitCountersValues(d);
  }

  // ---------------------------------------------------------------------------
  // The walk

  /** The devices in the table are exactly the names of the link-layer records. */
  lemma {:induction false} LinkStatsKeys(ifas: seq<IfAddr>)
    ensures LinkStats(ifas).Keys == set i | 0 <= i < |ifas| && ifas[i].family == AF_LINK :: ifas[i].name
  {
    if ifas != [] {
      var init, last := ifas[..|ifas| - 1], ifas[|ifas| - 1];
      LinkStatsKeys(init);
      var names := set i | 0 <= i < |ifas| && ifas[i].family == AF_LINK :: ifas[i].name;
      var before := set i | 0 <= i < |init| && init[i].family == AF_LINK :: init[i].name;
      var added: set<string> := if last.family == AF_LINK then {last.name} else {};
      forall x | x in names ensures x in before + added {
        var i :| 0 <= i < |ifas| && ifas[i].family == AF_LINK && ifas[i].name == x;
        if i < |init| {
          assert init[i] == ifas[i];
        }
      }
      forall x | x in before + added ensures x in names {
        if x in before {
          var i :| 0 <= i < |init| && init[i].family == AF_LINK && init[i].name == x;
          assert init[i] == ifas[i];
        } else {
          assert ifas[|ifas| - 1] == last;
        }
      }
    }
  }

  /** A device's counters come from its LAST link-layer record in list order. */
  lemma {:induction false} LinkStatsLastWins(ifas: seq<IfAddr>, i: nat)
    requires i < |ifas| && ifas[i].family == AF_LINK
    requires forall j :: i < j < |ifas| && ifas[j].family == AF_LINK ==> ifas[j].name != ifas[i].name
    ensures ifas[i].name in LinkStats(ifas)
    ensures LinkStats(ifas)[ifas[i].name] == IfDataCounters(ifas[i].data)
  {
    var init := ifas[..|ifas| - 1];
    if i < |ifas| - 1 {
      assert init[i] == ifas[i];
      forall j | i < j < |init| && init[j].family == AF_LINK ensures init[j].name != init[i].name {
        assert init[j] == ifas[j];
      }
      LinkStatsLastWins(init, i);
    }
  }

  /** Every device gets exactly the ten counters. */
  lemma {:induction false} LinkStatsShape(ifas: seq<IfAddr>)
    ensures forall name :: name in LinkStats(ifas) ==> LinkStats(ifas)[name].Keys == CounterNames(CounterFields)
  {
    if ifas != [] {
      LinkStatsShape(ifas[..|ifas| - 1]);
      IfDataCountersKeys(ifas[|ifas| - 1].data);
    }
  }

  /** A record of another family, wherever it stands in the list, changes nothing. */
  lemma {:induction false} NonLinkRecordIgnored(before: seq<IfAddr>, other: IfAddr, after: seq<IfAddr>)
    requires other.family != AF_LINK
    ensures LinkStats(before + [other] + after) == LinkStats(before + after)
    decreases |after|
  {
    if after == [] {
      assert before + [other] + after == before + [other];
      assert before + after == before;
      LinkStatsSnoc(before, other);
    } else {
      var init, last := after[..|after| - 1], after[|after| - 1];
      NonLinkRecordIgnored(before, other, init);
      assert before + [other] + after == (before + [other] + init) + [last];
      assert before + after == (before + init) + [last];
      LinkStatsSnoc(before + [other] + init, last);
      LinkStatsSnoc(before + init, last);
    }
  }

  /** One more record at the end of the list. */
  lemma LinkStatsSnoc(ifas: seq<IfAddr>, ifa: IfAddr)
    ensures LinkStats(ifas + [ifa])
         == if ifa.family == AF_LINK then LinkStats(ifas)[ifa.name := IfDataCounters(ifa.data)] else LinkStats(ifas)
  {
    assert (ifas + [ifa])[..|ifas|] == ifas;
  }
}
