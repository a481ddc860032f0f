/** The metric writer: `AbstractAmbariMetricWriter` with its buffer, its object
    pools and the conversion of a flushed snapshot into a batch, and the four ways
    a batch leaves it (`SyncAmbariMetricWriter`, `AsyncAmbariMetricWriter`,
    `AmbariMetricWriter`, `DummyAmbariMetricWriter`). */
module Writers {
  import opened Wrappers
  import opened JavaLang
  import opened Domain
  import Buffer
  import Pool
  import GP = GenericPool

  /** Which concrete writer: they differ only in how `sendMetricsAndCleanPool`
      and `doSendMetrics` hand a batch on and give it back. */
  datatype Kind = Sync | Async | Ambari | Dummy

  /** What happens to one batch handed on: the collector call (or, for `Dummy`,
      the serialisation for the log) completes, with the collector's success flag,
      or throws. For `Async` this is how the future completes. */
  datatype Outcome = Delivered(success: bool) | Raised(error: Exception)

  /** What the writer cannot see during one flush: the order in which the
      snapshot's `HashMap` yields its names, the order in which each series' key
      set yields its timestamps, and the outcome of handing the batch on. */
  datatype Env = Env(names: seq<string>, times: string -> seq<int>, outcome: Outcome)

  /** The writer's settings. `bufferSize` is a Java `int`. */
  datatype Config = Config(appId: Option<string>, hostName: Option<string>, instanceId: Option<string>, bufferSize: int)

  datatype Writer = Writer(
    kind: Kind,
    config: Config,
    buffer: Buffer.MetricBuffer,
    pool: Pool.MetricObjectPool,
    sent: seq<Sent>,              // what the collector client was handed, in order
    released: seq<Option<nat>>,   // batches handed to `returnObjects`, in order
    pending: seq<Option<nat>>)    // asynchronous sends whose callback has not run yet

  /** One batch handed to the collector client: its reference (null when the
      conversion failed) and the records it listed at that moment. */
  datatype Sent = Sent(batch: Option<nat>, metrics: seq<TimelineMetric>)

  /** The writer after a call, and the exception the call let escape. */
  datatype Step = Step(writer: Writer, thrown: Option<Exception>)

  /** The maximum number of batches the pool lends. */
  const BATCH_POOL_SIZE: int := 1000

  /** The constructor: an empty buffer, a pool of at most 1000 batches and at
      least 1000 records (ten per buffered metric, computed in 32-bit `int`). */
  function NewWriter(kind: Kind, appId: Option<string>, hostName: Option<string>, instanceId: Option<string>,
                     bufferSize: int): (w: Writer)
    requires IsInt(bufferSize)
    ensures w.kind == kind && w.config == Config(appId, hostName, instanceId, bufferSize)
    ensures Buffer.Size(w.buffer) == 0 && Buffer.Drained(w.buffer) && Buffer.Valid(w.buffer)
    ensures Pool.Valid(w.pool) && Pool.Quiescent(w.pool)
    ensures w.pool.batchPool.open && w.pool.recordPool.open
    ensures w.pool.batchPool.borrowedCount == 0 && w.pool.recordPool.borrowedCount == 0
    ensures w.pool.batchPool.maxTotal == BATCH_POOL_SIZE
    ensures w.pool.recordPool.maxTotal >= BATCH_POOL_SIZE
    ensures 100 <= bufferSize <= 214_748_364 ==> w.pool.recordPool.maxTotal == 10 * bufferSize
    ensures -214_748_364 <= bufferSize <= 100 ==> w.pool.recordPool.maxTotal == BATCH_POOL_SIZE
    ensures w.sent == [] && w.released == [] && w.pending == []
  {
    var records := WrapInt(bufferSize * 10);
    Writer(kind, Config(appId, hostName, instanceId, bufferSize), Buffer.NewMetricBuffer(),
           Pool.NewMetricObjectPool(BATCH_POOL_SIZE, if records > 1000 then records else 1000), [], [], [])
  }

  /** `setBufferSize`: only the flush threshold changes; the pools keep the sizes
      the constructor gave them. */
  function SetBufferSize(w: Writer, bufferSize: int): (r: Writer)
    ensures r.config.bufferSize == bufferSize
    ensures r.config.appId == w.config.appId && r.config.hostName == w.config.hostName
    ensures r.config.instanceId == w.config.instanceId
    ensures r.kind == w.kind && r.buffer == w.buffer && r.pool == w.pool
    ensures r.sent == w.sent && r.released == w.released && r.pending == w.pending
  {
    w.(config := w.config.(bufferSize := bufferSize))
  }

  /** `increment`: counters are not supported; nothing changes. */
  function Increment(w: Writer): (r: Step)
    ensures r.writer == w
    ensures r.thrown == Some(UnsupportedOperation)
  {
    Step(w, Some(UnsupportedOperation))
  }

  /** `set`: the metric goes into the buffer, and once the buffer holds more than
      `bufferSize` adds it is flushed. */
  function Set(w: Writer, m: Buffer.Metric, env: Env): (r: Step)
    ensures var added := Buffer.Add(w.buffer, m);
      Buffer.Size(added) <= w.config.bufferSize ==>
        && r.thrown.None?
        && r.writer == w.(buffer := added)
    ensures var added := Buffer.Add(w.buffer, m);
      Buffer.Size(added) > w.config.bufferSize ==>
        && Buffer.Size(r.writer.buffer) == 0
        && r.writer.buffer.types == added.types
    ensures r.writer.kind == w.kind && r.writer.config == w.config
  {
    var w1 := w.(buffer := Buffer.Add(w.buffer, m));
    if Buffer.Size(w1.buffer) > w.config.bufferSize then FlushMetricBuffer(w1, env) else Step(w1, None)
  }

  /** The `Long` zero that `reset` sets. */
  const LONG_ZERO: Number := Number("Long", Double(0))

  /** `reset(name)`: a `set` of the value 0 under `name`, stamped `now`. */
  function Reset(w: Writer, name: string, now: int, env: Env): (r: Step)
    ensures Buffer.Size(w.buffer) + 1 <= w.config.bufferSize ==>
      && r.thrown.None?
      && name in r.writer.buffer.series && now in r.writer.buffer.series[name]
      && r.writer.buffer.series[name][now] == LONG_ZERO.doubleValue
      && r.writer.pool == w.pool && r.writer.sent == w.sent
    ensures Buffer.Size(w.buffer) + 1 > w.config.bufferSize ==> Buffer.Size(r.writer.buffer) == 0
  {
    Set(w, Buffer.Metric(name, LONG_ZERO, now), env)
  }

  /** `flushMetricBuffer`: nothing to do for an empty buffer; otherwise the buffer
      is flushed and a non-empty snapshot is converted and sent. */
  function FlushMetricBuffer(w: Writer, env: Env): (r: Step)
    ensures Buffer.Size(w.buffer) == 0 ==> r == Step(w, None)
    ensures Buffer.Size(r.writer.buffer) == 0 && r.writer.buffer.types == w.buffer.types
    ensures Buffer.Drained(r.writer.buffer) || r.writer.buffer == w.buffer
    ensures Buffer.Valid(r.writer.buffer) || r.writer.buffer == w.buffer
    ensures r.writer.kind == w.kind && r.writer.config == w.config
    ensures |r.writer.sent| <= |w.sent| + 1
    ensures r.writer.pool.batchPool.maxTotal == w.pool.batchPool.maxTotal
    ensures r.writer.pool.recordPool.maxTotal == w.pool.recordPool.maxTotal
  {
    if Buffer.Size(w.buffer) <= 0 then Step(w, None)
    else
      var f := Buffer.Flush(w.buffer);
      var w1 := w.(buffer := f.buffer);
      if |f.snapshot| == 0 then Step(w1, None)
      else
        var c := ToTimelineMetrics(w1.config, w1.pool, f.snapshot, env);
        SendMetricsAndCleanPool(w1.(pool := c.pool), c.batch, env.outcome)
  }

  // ---------------------------------------------------------------------------
  // From snapshot to batch
  // ---------------------------------------------------------------------------

  /** The smallest entry of a non-empty list. */
  function MinOf(ts: seq<int>): (m: int)
    requires |ts| > 0
    ensures m in ts
    ensures forall i :: 0 <= i < |ts| ==> m <= ts[i]
  {
    if |ts| == 1 then ts[0]
    else
      var rest := MinOf(ts[1..]);
      if ts[0] <= rest then ts[0] else rest
  }

  /** `getStartTime`: 0 for no timestamps, else the earliest, taken over the
      timestamps in the order the key set yields them. */
  function StartTime(ts: seq<int>): (r: int)
    ensures |ts| == 0 ==> r == 0
    ensures |ts| > 0 ==> r in ts && forall i :: 0 <= i < |ts| ==> r <= ts[i]
  {
    if |ts| == 0 then 0 else MinOf(ts)
  }

  /** The setters the conversion applies to a borrowed record; the timestamp is
      never set. */
  function Fill(rec: TimelineMetric, cfg: Config, name: string, series: Series, ts: seq<int>): TimelineMetric {
    rec.(metricName := Some(name), appId := cfg.appId, hostName := cfg.hostName, instanceId := cfg.instanceId,
         startTime := StartTime(ts), metricValues := Some(series))
  }

  /** `rec` is what the conversion writes for `name`. */
  predicate Describes(rec: TimelineMetric, cfg: Config, name: string, snapshot: map<string, Series>, ts: seq<int>) {
    && rec.metricName == Some(name)
    && rec.appId == cfg.appId && rec.hostName == cfg.hostName && rec.instanceId == cfg.instanceId
    && name in snapshot && rec.metricValues == Some(snapshot[name])
    && rec.startTime == StartTime(ts)
  }

  /** Whether the conversion adds a record for `name`: the name has samples and
      the record pool can lend. */
  predicate Appends(mp: Pool.MetricObjectPool, snapshot: map<string, Series>, name: string) {
    name in snapshot && |snapshot[name]| > 0 && GP.CanLend(mp.recordPool)
  }

  /** One name of the snapshot: a name without samples (or without a series) is
      skipped; otherwise a record is borrowed into the batch and filled in, and a
      failed borrow is logged and skipped. */
  function AddRecord(cfg: Config, mp: Pool.MetricObjectPool, b: nat, snapshot: map<string, Series>,
                     name: string, ts: seq<int>): (r: Pool.MetricObjectPool)
    requires b in mp.batches
    ensures b in r.batches && r.batchPool == mp.batchPool
    ensures forall x :: x in mp.batches && x != b ==> x in r.batches && r.batches[x] == mp.batches[x]
    ensures r.recordPool.maxTotal == mp.recordPool.maxTotal && r.recordPool.open == mp.recordPool.open
    ensures var L := mp.batches[b].allMetrics; var L' := r.batches[b].allMetrics;
      && |L'| == |L| + (if Appends(mp, snapshot, name) then 1 else 0)
      && L'[..|L|] == L
      && r.recordPool.borrowedCount == mp.recordPool.borrowedCount + (|L'| - |L|)
    ensures !Appends(mp, snapshot, name) ==> r == mp
  {
    if name !in snapshot || |snapshot[name]| == 0 then mp
    else
      match Pool.GetMetricFor(mp, b)
      case Err(_) => mp
      case Ok(l) =>
        var x := l.ref;
        assert l.pool.batches[b].allMetrics == mp.batches[b].allMetrics + [x];
        l.pool.(records := l.pool.records[x := Fill(l.pool.records[x], cfg, name, snapshot[name], ts)])
  }

  /** The record `AddRecord` appends: borrowed, written for `name`, and no other
      record touched. */
  lemma AddRecordAppended(cfg: Config, mp: Pool.MetricObjectPool, b: nat, snapshot: map<string, Series>,
                          name: string, ts: seq<int>)
    requires b in mp.batches && Appends(mp, snapshot, name)
    ensures var r := AddRecord(cfg, mp, b, snapshot, name, ts);
      var x := r.batches[b].allMetrics[|mp.batches[b].allMetrics|];
      && r.recordPool.active == mp.recordPool.active + {x}
      && x in r.records && Describes(r.records[x], cfg, name, snapshot, ts)
      && (forall y :: y in mp.records && y != x ==> y in r.records && r.records[y] == mp.records[y])
      && (GP.Valid(mp.recordPool) ==> GP.Valid(r.recordPool) && x !in mp.recordPool.active)
  {
    var l := Pool.GetMetricFor(mp, b).value;
    assert l.pool.batches[b].allMetrics == mp.batches[b].allMetrics + [l.ref];
  }

  /** The names, in iteration order, whose series has samples. */
  function Sendable(names: seq<string>, snapshot: map<string, Series>): seq<string> {
    if names == [] then []
    else
      (if names[0] in snapshot && |snapshot[names[0]]| > 0 then [names[0]] else [])
      + Sendable(names[1..], snapshot)
  }

  /** The loop of `toTimelineMetrics` over the snapshot's names. */
  function AddRecords(cfg: Config, mp: Pool.MetricObjectPool, b: nat, snapshot: map<string, Series>,
                      names: seq<string>, times: string -> seq<int>): (r: Pool.MetricObjectPool)
    requires b in mp.batches
    ensures b in r.batches && r.batchPool == mp.batchPool
    ensures forall x :: x in mp.batches && x != b ==> x in r.batches && r.batches[x] == mp.batches[x]
    ensures r.recordPool.maxTotal == mp.recordPool.maxTotal && r.recordPool.open == mp.recordPool.open
    ensures var L := mp.batches[b].allMetrics; var L' := r.batches[b].allMetrics;
      && |L| <= |L'| <= |L| + |Sendable(names, snapshot)|
      && L'[..|L|] == L
      && r.recordPool.borrowedCount == mp.recordPool.borrowedCount + (|L'| - |L|)
    decreases |names|
  {
    if names == [] then mp
    else
      var mp1 := AddRecord(cfg, mp, b, snapshot, names[0], times(names[0]));
      var r := AddRecords(cfg, mp1, b, snapshot, names[1..], times);
      assert mp1.batches[b].allMetrics[..|mp.batches[b].allMetrics|] == mp.batches[b].allMetrics;
      r
  }

  /** The pool after converting a snapshot, and the batch (null when none could be
      borrowed). */
  datatype Converted = Converted(pool: Pool.MetricObjectPool, batch: Option<nat>)

  /** `toTimelineMetrics`: borrow a batch and add a record per name with samples;
      when no batch can be borrowed the failure is logged and the result is null. */
  function ToTimelineMetrics(cfg: Config, mp: Pool.MetricObjectPool, snapshot: map<string, Series>, env: Env): (r: Converted)
    ensures r.batch.Some? <==> GP.CanLend(mp.batchPool)
    ensures r.batch.None? ==> r.pool == mp
    ensures r.batch.Some? ==>
      var b := r.batch.value;
      && b in r.pool.batches && b in r.pool.batchPool.active
      && r.pool.batchPool.active == mp.batchPool.active + {b}
      && r.pool.batchPool.borrowedCount == mp.batchPool.borrowedCount + 1
      && (Pool.Valid(mp) ==> b !in mp.batchPool.active)
      && (Pool.Valid(mp) ==>
            r.pool.recordPool.borrowedCount == mp.recordPool.borrowedCount + |r.pool.batches[b].allMetrics|)
    ensures r.pool.batchPool.maxTotal == mp.batchPool.maxTotal && r.pool.batchPool.open == mp.batchPool.open
    ensures r.pool.recordPool.maxTotal == mp.recordPool.maxTotal && r.pool.recordPool.open == mp.recordPool.open
  {
    match Pool.GetMetrics(mp)
    case Err(_) => Converted(mp, None)
    case Ok(l) =>
      var q := AddRecords(cfg, l.pool, l.ref, snapshot, env.names, env.times);
      assert Pool.Valid(mp) ==> l.pool.batches[l.ref].allMetrics == [];
      Converted(q, Some(l.ref))
  }

  // ---------------------------------------------------------------------------
  // Handing a batch on and giving it back
  // ---------------------------------------------------------------------------

  /** A batch reference the pool knows (or null). */
  predicate Known(mp: Pool.MetricObjectPool, b: Option<nat>) {
    b.Some? ==> b.value in mp.batches
  }

  /** The records a list refers to, in order. */
  function Contents(records: map<nat, TimelineMetric>, L: seq<nat>): (r: seq<TimelineMetric>)
    ensures (forall k :: 0 <= k < |L| ==> L[k] in records) ==>
      |r| == |L| && forall k :: 0 <= k < |L| ==> r[k] == records[L[k]]
  {
    if L == [] then []
    else (if L[0] in records then [records[L[0]]] else []) + Contents(records, L[1..])
  }

  /** What the collector client is handed for batch `b`. */
  function Handed(mp: Pool.MetricObjectPool, b: Option<nat>): Sent
    requires Known(mp, b)
  {
    Sent(b, if b.Some? then Contents(mp.records, mp.batches[b.value].allMetrics) else [])
  }

  /** `cleanMetricPool` (which `freePoolObjects` and `returnMetricPoolObjects`
      stand for): `returnObjects` of the batch, whose refusal escapes. */
  function Release(w: Writer, b: Option<nat>): (r: Step)
    requires Known(w.pool, b)
    ensures r.writer.released == w.released + [b]
    ensures r.writer == w.(pool := r.writer.pool, released := r.writer.released)
    ensures Known(r.writer.pool, b)
    ensures r.thrown.Some? ==> r.thrown == Some(IllegalState)
    ensures b.Some? ==>
      && (r.thrown.None? <==> b.value in w.pool.batchPool.active)
      && r.writer.pool.batchPool.active == w.pool.batchPool.active - {b.value}
  {
    var rel := Pool.ReturnObjects(w.pool, b);
    Step(w.(pool := rel.pool, released := w.released + [b]), rel.thrown)
  }

  /** `doSendMetrics` of each writer.
      - `Sync`: one collector call; the batch is left to the caller's `finally`.
      - `Ambari`: one collector call, then the batch is given back; a throwing call skips that.
      - `Dummy`: no collector call; the batch is serialised for the log and given back;
        an `IOException` is logged and swallowed, skipping the give-back.
      - `Async`: one submission whose callback is bound to this batch. */
  function DoSendMetrics(w: Writer, b: Option<nat>, outcome: Outcome): (r: Step)
    requires Known(w.pool, b)
    ensures w.kind == Dummy ==> r.writer.sent == w.sent
    ensures w.kind != Dummy ==> r.writer.sent == w.sent + [Handed(w.pool, b)]
    ensures w.kind == Async ==> r == Step(w.(sent := w.sent + [Handed(w.pool, b)], pending := w.pending + [b]), None)
    ensures w.kind == Sync ==> r.writer == w.(sent := w.sent + [Handed(w.pool, b)])
    ensures w.kind != Async ==> r.writer.pending == w.pending
    ensures Known(r.writer.pool, b)
    ensures r.writer.kind == w.kind && r.writer.config == w.config && r.writer.buffer == w.buffer
  {
    match w.kind
    case Sync =>
      Step(w.(sent := w.sent + [Handed(w.pool, b)]), if outcome.Raised? then Some(outcome.error) else None)
    case Async =>
      Step(w.(sent := w.sent + [Handed(w.pool, b)], pending := w.pending + [b]), None)
    case Ambari =>
      var w1 := w.(sent := w.sent + [Handed(w.pool, b)]);
      if outcome.Raised? then Step(w1, Some(outcome.error)) else Release(w1, b)
    case Dummy =>
      if outcome.Raised? then Step(w, if outcome.error == IO then None else Some(outcome.error))
      else Release(w, b)
  }

  /** `sendMetricsAndCleanPool`: `doSendMetrics`, then in `finally` the batch is
      given back; an exception from the `finally` replaces the one from the send.
      `Async` overrides it to only dispatch. */
  function SendMetricsAndCleanPool(w: Writer, b: Option<nat>, outcome: Outcome): (r: Step)
    requires Known(w.pool, b)
    ensures w.kind == Dummy ==> r.writer.sent == w.sent
    ensures w.kind != Dummy ==> r.writer.sent == w.sent + [Handed(w.pool, b)]
    ensures w.kind == Async ==> r.writer.pool == w.pool && r.writer.released == w.released && r.thrown.None?
    ensures w.kind != Async ==> r.writer.pending == w.pending
    ensures r.writer.kind == w.kind && r.writer.config == w.config && r.writer.buffer == w.buffer
    ensures r.writer.pool.batchPool.maxTotal == w.pool.batchPool.maxTotal
    ensures r.writer.pool.recordPool.maxTotal == w.pool.recordPool.maxTotal
  {
    if w.kind == Async then DoSendMetrics(w, b, outcome)
    else
      var s := DoSendMetrics(w, b, outcome);
      var f := Release(s.writer, b);
      Step(f.writer, if f.thrown.Some? then f.thrown else s.thrown)
  }

  /** `ResponseListener.onSuccess` and `onFailure` of the `i`-th pending send: both
      give the bound batch back (a failure is only logged first). */
  function Callback(w: Writer, i: nat): (r: Step)
    requires i < |w.pending| && Known(w.pool, w.pending[i])
    ensures r.writer.pending == w.pending[..i] + w.pending[i + 1..]
    ensures r.writer.released == w.released + [w.pending[i]]
    ensures r.writer.sent == w.sent && r.writer.buffer == w.buffer
    ensures w.pending[i].Some? ==> (r.thrown.None? <==> w.pending[i].value in w.pool.batchPool.active)
  {
    Release(w.(pending := w.pending[..i] + w.pending[i + 1..]), w.pending[i])
  }

  // ---------------------------------------------------------------------------
  // Giving a batch back once
  // ---------------------------------------------------------------------------

  /** `doSendMetrics` of `Ambari` and `Dummy` without their own give-back, leaving
      it to the `finally` of `sendMetricsAndCleanPool` as `Sync` does; `Sync` and
      `Async` are as before. */
  function DoSendMetricsOnce(w: Writer, b: Option<nat>, outcome: Outcome): (r: Step)
    requires Known(w.pool, b)
    ensures r.writer.pool == w.pool && r.writer.released == w.released
    ensures w.kind == Dummy ==> r.writer.sent == w.sent
    ensures w.kind != Dummy ==> r.writer.sent == w.sent + [Handed(w.pool, b)]
    ensures w.kind != Async ==> r.writer.pending == w.pending
    ensures w.kind != Async && outcome.Delivered? ==> r.thrown.None?
  {
    match w.kind
    case Sync => DoSendMetrics(w, b, outcome)
    case Async => DoSendMetrics(w, b, outcome)
    case Ambari =>
      Step(w.(sent := w.sent + [Handed(w.pool, b)]), if outcome.Raised? then Some(outcome.error) else None)
    case Dummy =>
      Step(w, if outcome.Raised? && outcome.error != IO then Some(outcome.error) else None)
  }

  /** `sendMetricsAndCleanPool` over `DoSendMetricsOnce`. */
  function SendMetricsAndCleanPoolOnce(w: Writer, b: Option<nat>, outcome: Outcome): (r: Step)
    requires Known(w.pool, b)
    ensures w.kind == Dummy ==> r.writer.sent == w.sent
    ensures w.kind != Dummy ==> r.writer.sent == w.sent + [Handed(w.pool, b)]
    ensures w.kind == Async ==> r.writer.pool == w.pool && r.writer.released == w.released && r.thrown.None?
    ensures w.kind != Async ==> r.writer.released == w.released + [b]
  {
    if w.kind == Async then DoSendMetricsOnce(w, b, outcome)
    else
      var s := DoSendMetricsOnce(w, b, outcome);
      var f := Release(s.writer, b);
      Step(f.writer, if f.thrown.Some? then f.thrown else s.thrown)
  }
}
