/** `MetricBuffer`: the metrics the writer has been handed since the last flush,
    grouped by name into timestamp-to-value series, with a count of every `add`
    and the value type first seen for each name. */
module Buffer {
  import opened Wrappers
  import opened JavaLang
  import opened Domain

  /** A Spring Boot `Metric`: a name, a numeric value and a timestamp in epoch millis. */
  datatype Metric = Metric(name: string, value: Number, timestamp: int)

  datatype MetricBuffer = MetricBuffer(
    series: map<string, Series>,   // metric name to its samples since the last flush
    count: nat,                    // every add since the last flush, duplicates included
    types: map<string, string>)    // metric name to the short class name of its first value

  /** A new buffer: nothing buffered and no type known. */
  function NewMetricBuffer(): (b: MetricBuffer)
    ensures Size(b) == 0 && Entries(b) == {} && b.types == map[]
    ensures Drained(b) && Valid(b)
  {
    MetricBuffer(map[], 0, map[])
  }

  /** `ClassUtils.getShortCanonicalName` of a non-null value. */
  function TypeTag(v: Number): string {
    v.className
  }

  /** The (name, timestamp) samples held. */
  ghost function Entries(b: MetricBuffer): set<(string, int)> {
    set n, t | n in b.series && t in b.series[n] :: (n, t)
  }

  /** Every name's series is empty, as a flush leaves them. */
  predicate Drained(b: MetricBuffer) {
    forall n :: n in b.series ==> b.series[n] == map[]
  }

  /** The count of adds bounds the samples held, and a positive count means
      something is held. */
  ghost predicate Valid(b: MetricBuffer) {
    |Entries(b)| <= b.count && (b.count > 0 ==> Entries(b) != {})
  }

  /** `add`: the value is put under its name and timestamp (a sample already there
      is overwritten), the count goes up by one whatever happened, and the value's
      type is recorded unless the name already has one. */
  function Add(b: MetricBuffer, m: Metric): (r: MetricBuffer)
    ensures Size(r) == Size(b) + 1
    ensures r.series.Keys == b.series.Keys + {m.name}
    ensures m.timestamp in r.series[m.name] && r.series[m.name][m.timestamp] == m.value.doubleValue
    ensures forall t :: t in r.series[m.name] && t != m.timestamp ==> m.name in b.series && t in b.series[m.name]
    ensures forall t :: m.name in b.series && t in b.series[m.name] && t != m.timestamp ==>
      t in r.series[m.name] && r.series[m.name][t] == b.series[m.name][t]
    ensures forall n :: n in b.series && n != m.name ==> r.series[n] == b.series[n]
    ensures GetMetricType(r, m.name).Some?
    ensures forall n :: n in b.types ==> n in r.types && r.types[n] == b.types[n]
    ensures r.types.Keys == b.types.Keys + {m.name}
  {
    var old_series := if m.name in b.series then b.series[m.name] else map[];
    MetricBuffer(
      b.series[m.name := old_series[m.timestamp := m.value.doubleValue]],
      b.count + 1,
      PutMetricType(b.types, m))
  }

  /** `putMetricType`: the first type recorded for a name stays. */
  function PutMetricType(types: map<string, string>, m: Metric): (r: map<string, string>)
    ensures m.name in r
    ensures m.name !in types ==> r[m.name] == TypeTag(m.value)
    ensures forall n :: n in types ==> n in r && r[n] == types[n]
    ensures r.Keys == types.Keys + {m.name}
  {
    if m.name in types then types else types[m.name := TypeTag(m.value)]
  }

  /** `getMetricType`: null for a name never added. */
  function GetMetricType(b: MetricBuffer, name: string): (r: Option<string>)
    ensures r.Some? <==> name in b.types
    ensures r.Some? ==> r.value == b.types[name]
  {
    if name in b.types then Some(b.types[name]) else None
  }

  /** `size`: the number of adds since the last flush. */
  function Size(b: MetricBuffer): nat {
    b.count
  }

  /** The result of `flush`: the emptied buffer and the snapshot it returned. */
  datatype Flushed = Flushed(buffer: MetricBuffer, snapshot: map<string, Series>)

  /** `flush`: every non-empty series is copied into the snapshot and emptied in the
      buffer (names stay, with empty series), the count is reset, types are kept. */
  function Flush(b: MetricBuffer): (r: Flushed)
    ensures Size(r.buffer) == 0 && Entries(r.buffer) == {} && Drained(r.buffer)
    ensures r.buffer.series.Keys == b.series.Keys && r.buffer.types == b.types
    ensures forall n :: n in r.snapshot <==> n in b.series && |b.series[n]| > 0
    ensures forall n :: n in r.snapshot ==> r.snapshot[n] == b.series[n]
    ensures Valid(r.buffer)
  {
    var snapshot := map n | n in b.series && |b.series[n]| > 0 :: b.series[n];
    var emptied := map n | n in b.series :: map[];
    var r := MetricBuffer(emptied, 0, b.types);
    assert Entries(r) == {};
    Flushed(r, snapshot)
  }

  /** `close`: a flush whose snapshot is dropped. */
  function Close(b: MetricBuffer): (r: MetricBuffer)
    ensures Size(r) == 0 && Entries(r) == {}
    ensures r.types == b.types && r.series.Keys == b.series.Keys
  {
    Flush(b).buffer
  }

  /** An add puts exactly one sample in place, under its own name and
      timestamp; every other sample stays. */
  lemma AddEntries(b: MetricBuffer, m: Metric)
    ensures Entries(Add(b, m)) == Entries(b) + {(m.name, m.timestamp)}
  {
    var r := Add(b, m);
    forall e | e in Entries(r) ensures e in Entries(b) + {(m.name, m.timestamp)} {
      var n, t := e.0, e.1;
      if n != m.name {
        assert n in b.series && t in b.series[n];
      } else if t != m.timestamp {
        assert t in b.series[n];
      }
    }
    forall e | e in Entries(b) ensures e in Entries(r) {
      var n, t := e.0, e.1;
      assert n in r.series && t in r.series[n];
    }
  }

  /** Adding keeps the buffer valid: an add contributes at most one new sample,
      and exactly one when nothing was held under its name and timestamp. */
  lemma AddValid(b: MetricBuffer, m: Metric)
    requires Valid(b)
    ensures Valid(Add(b, m))
    ensures (m.name, m.timestamp) !in Entries(b) ==> |Entries(Add(b, m))| == |Entries(b)| + 1
    ensures (m.name, m.timestamp) in Entries(b) ==> Entries(Add(b, m)) == Entries(b)
  {
    AddEntries(b, m);
  }

  /** A valid buffer with a positive size has something to flush. */
  lemma PositiveSizeHasSnapshot(b: MetricBuffer)
    requires Valid(b) && Size(b) > 0
    ensures Flush(b).snapshot != map[]
  {
    var e :| e in Entries(b);
    assert e.0 in b.series && e.1 in b.series[e.0];
    assert e.0 in Flush(b).snapshot;
  }

  /** Nothing is flushed twice: a second flush returns an empty snapshot. */
  lemma FlushTwice(b: MetricBuffer)
    ensures Flush(Flush(b).buffer).snapshot == map[]
    ensures Flush(Flush(b).buffer).buffer == Flush(b).buffer
  {
  }

  /** Closing is flushing: the buffer is left as a flush leaves it. */
  lemma CloseIsFlush(b: MetricBuffer)
    ensures Close(b) == Flush(b).buffer
    ensures Flush(Close(b)).snapshot == map[]
  {
  }
}
