/**
  The shape both collectors produce: device name -> counter name -> counter text,
  and the `receive_<field>` / `transmit_<field>` naming both use.
*/
module Counters {

  /** Counter name -> the counter's value as text. */
  type CounterSet = map<string, string>

  /** Device name -> that device's counters. */
  type DeviceStats = map<string, CounterSet>

  function ReceiveKey(field: string): string
  {
    "receive_" + field
  }

  function TransmitKey(field: string): string
  {
    "transmit_" + field
  }

  /** The counter names derived from a list of field names. */
  function CounterNames(fields: seq<string>): set<string>
  {
    (set f | f in fields :: ReceiveKey(f)) + (set f | f in fields :: TransmitKey(f))
  }

  /** Receive and transmit names never collide, and each is determined by its field. */
  lemma KeysDistinct(a: string, b: string)
    ensures ReceiveKey(a) != TransmitKey(b)
    ensures ReceiveKey(a) == ReceiveKey(b) ==> a == b
    ensures TransmitKey(a) == TransmitKey(b) ==> a == b
  {
    assert ReceiveKey(a)[0] == 'r' && TransmitKey(b)[0] == 't';
    assert ReceiveKey(a)[8..] == a && ReceiveKey(b)[8..] == b;
    assert TransmitKey(a)[9..] == a && TransmitKey(b)[9..] == b;
  }

  /** Appending a field adds its two names. */
  lemma CounterNamesSnoc(fields: seq<string>, f: string)
    ensures CounterNames(fields + [f]) == CounterNames(fields) + {ReceiveKey(f), TransmitKey(f)}
  {
    var all := fields + [f];
    assert forall g :: g in all <==> g in fields || g == f;
    assert (set g | g in all :: ReceiveKey(g)) == (set g | g in fields :: ReceiveKey(g)) + {ReceiveKey(f)};
    assert (set g | g in all :: TransmitKey(g)) == (set g | g in fields :: TransmitKey(g)) + {TransmitKey(f)};
  }

  /** Distinct field names give twice as many counter names. */
  lemma {:induction false} CounterNamesCount(fields: seq<string>)
    requires forall i, j :: 0 <= i < j < |fields| ==> fields[i] != fields[j]
    ensures |CounterNames(fields)| == 2 * |fields|
  {
    if fields != [] {
      var init, last := fields[..|fields| - 1], fields[|fields| - 1];
      assert fields == init + [last];
      CounterNamesCount(init);
      CounterNamesSnoc(init, last);
      FreshNames(init, last);
      AddTwo(CounterNames(init), ReceiveKey(last), TransmitKey(last));
    }
  }

  lemma FreshNames(fields: seq<string>, f: string)
    requires f !in fields
    ensures ReceiveKey(f) !in CounterNames(fields) && TransmitKey(f) !in CounterNames(fields)
    ensures ReceiveKey(f) != TransmitKey(f)
  {
    forall g | g in fields
      ensures ReceiveKey(g) != ReceiveKey(f) && TransmitKey(g) != TransmitKey(f)
      ensures ReceiveKey(g) != TransmitKey(f) && TransmitKey(g) != ReceiveKey(f)
    {
      KeysDistinct(g, f);
      KeysDistinct(f, g);
    }
    KeysDistinct(f, f);
  }

  lemma AddTwo(names: set<string>, r: string, t: string)
    requires r !in names && t !in names && r != t
    ensures |names + {r, t}| == |names| + 2
  {
    assert names + {r, t} == (names + {r}) + {t};
  }
}
