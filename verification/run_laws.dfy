/** Laws of a run of `set` calls, as a caller's loop makes them: how many
    automatic flushes the run triggers, what the buffer holds afterwards, and
    that a synchronous writer ends with nothing borrowed. */
module RunLaws {
  import opened Wrappers
  import opened Domain
  import opened Writers
  import Buffer
  import Pool
  import WriterLaws
  import ConversionLaws
  import GP = GenericPool

  /** A loop of `set` calls, one per metric, each flush seeing its own
      environment; the first escaping exception ends the loop and escapes. */
  function SetAll(w: Writer, ms: seq<Buffer.Metric>, envs: seq<Env>): (r: Step)
    requires |envs| == |ms|
    ensures r.writer.kind == w.kind && r.writer.config == w.config
    decreases |ms|
  {
    if ms == [] then Step(w, None)
    else
      var s := SetAll(w, ms[..|ms| - 1], envs[..|ms| - 1]);
      if s.thrown.Some? then s else Set(s.writer, ms[|ms| - 1], envs[|ms| - 1])
  }

  /** Every flush of the run completes its collector call. */
  predicate AllDelivered(envs: seq<Env>) {
    forall i :: 0 <= i < |envs| ==> envs[i].outcome.Delivered?
  }

  /** A `Sync` flush whose collector call completes lets nothing escape: the
      batch it gives back is the one it borrowed. */
  lemma SyncDeliveredFlushThrowsNothing(w: Writer, env: Env)
    requires w.kind == Sync && env.outcome.Delivered?
    ensures FlushMetricBuffer(w, env).thrown.None?
  {
    if Buffer.Size(w.buffer) > 0 && |Buffer.Flush(w.buffer).snapshot| != 0 {
      var f := Buffer.Flush(w.buffer);
      var c := ToTimelineMetrics(w.config, w.pool, f.snapshot, env);
      var w1 := w.(buffer := f.buffer, pool := c.pool);
      var s := DoSendMetrics(w1, c.batch, env.outcome);
      assert s.thrown.None? && s.writer.pool == c.pool;
    }
  }

  /** The number of complete rounds of `d` adds in `n` adds, counted one round
      at a time. */
  function Rounds(n: nat, d: nat): nat
    requires d > 0
    decreases n
  {
    if n < d then 0 else 1 + Rounds(n - d, d)
  }

  /** The adds of the incomplete round left over from `n` adds. */
  function Rest(n: nat, d: nat): (r: nat)
    requires d > 0
    ensures r < d
    decreases n
  {
    if n < d then n else Rest(n - d, d)
  }

  /** Counting rounds is Euclidean division. */
  lemma {:induction false} RoundsAreDivision(n: nat, d: nat)
    requires d > 0
    ensures Rounds(n, d) == n / d && Rest(n, d) == n % d
    decreases n
  {
    if n < d {
      DivModUnique(n, d, 0, n);
    } else {
      RoundsAreDivision(n - d, d);
      DivModUnique(n - d, d, (n - d) / d, (n - d) % d);
      assert n - d == d * Rounds(n - d, d) + Rest(n - d, d);
      assert n == d * (Rounds(n - d, d) + 1) + Rest(n - d, d);
      DivModUnique(n, d, Rounds(n - d, d) + 1, Rest(n - d, d));
    }
  }

  /** One more add either stays in the incomplete round or completes it. */
  lemma {:induction false} RoundsStep(n: nat, d: nat)
    requires d > 0
    ensures Rest(n, d) + 1 < d ==> Rest(n + 1, d) == Rest(n, d) + 1 && Rounds(n + 1, d) == Rounds(n, d)
    ensures Rest(n, d) + 1 == d ==> Rest(n + 1, d) == 0 && Rounds(n + 1, d) == Rounds(n, d) + 1
    decreases n
  {
    if n + 1 >= d && n >= d {
      RoundsStep(n - d, d);
      assert n + 1 - d == n - d + 1;
    }
  }

  /** Euclidean division has one quotient and one remainder. */
  lemma DivModUnique(n: int, d: int, q: int, p: int)
    requires d > 0 && 0 <= p < d && n == d * q + p
    ensures n / d == q && n % d == p
  {
    var q', p' := n / d, n % d;
    assert n == d * q' + p';
    MulDiff(d, q, q');
    if q > q' {
      MulAtLeast(d, q - q');
    } else if q < q' {
      MulAtLeast(d, q' - q);
    }
  }

  /** Multiplication distributes over a difference. */
  lemma MulDiff(d: int, a: int, b: int)
    ensures d * a - d * b == d * (a - b)
  {
  }

  /** A positive multiple of `d` is at least `d`. */
  lemma {:induction false} MulAtLeast(d: int, k: int)
    requires d > 0 && k >= 1
    ensures d * k >= d
    decreases k
  {
    if k > 1 {
      MulAtLeast(d, k - 1);
      assert d * k == d * (k - 1) + d;
    }
  }

  /** One `set` into a `Sync` writer whose buffer is under its threshold: below
      the threshold the add is only buffered; reaching past it the buffer is
      flushed and one batch is handed on; a completed collector call lets
      nothing escape. */
  lemma SyncSetStep(w: Writer, m: Buffer.Metric, env: Env)
    requires w.kind == Sync && env.outcome.Delivered?
    requires Buffer.Valid(w.buffer)
    ensures var r := Set(w, m, env);
      && r.thrown.None?
      && Buffer.Valid(r.writer.buffer)
      && (Buffer.Size(w.buffer) + 1 <= w.config.bufferSize ==>
            Buffer.Size(r.writer.buffer) == Buffer.Size(w.buffer) + 1 && r.writer.sent == w.sent)
      && (Buffer.Size(w.buffer) + 1 > w.config.bufferSize ==>
            Buffer.Size(r.writer.buffer) == 0 && |r.writer.sent| == |w.sent| + 1)
  {
    var added := Buffer.Add(w.buffer, m);
    Buffer.AddValid(w.buffer, m);
    if Buffer.Size(added) > w.config.bufferSize {
      var w1 := w.(buffer := added);
      WriterLaws.FlushSendsOnce(w1, env);
      SyncDeliveredFlushThrowsNothing(w1, env);
    }
  }

  /** `r` ends a run of `n` sets from `w0` in which nothing escaped: its
      buffer is valid and holds the adds of the incomplete round of `t + 1`
      adds, and one batch was handed to the collector per complete round. */
  ghost predicate Tally(w0: Writer, r: Step, n: nat)
    requires 0 <= w0.config.bufferSize
  {
    && r.thrown.None?
    && Buffer.Valid(r.writer.buffer)
    && Counted(Buffer.Size(r.writer.buffer), |r.writer.sent|, |w0.sent|, Buffer.Size(w0.buffer) + n, w0.config.bufferSize + 1)
  }

  /** `r` follows `s` by one `set` with threshold `t` that let nothing escape:
      below the threshold the add is only buffered, past it one batch is
      handed on and the buffer is emptied. */
  ghost predicate SyncStepped(s: Step, r: Step, t: int) {
    && r.thrown.None?
    && Buffer.Valid(r.writer.buffer)
    && (Buffer.Size(s.writer.buffer) + 1 <= t ==>
          Buffer.Size(r.writer.buffer) == Buffer.Size(s.writer.buffer) + 1 && |r.writer.sent| == |s.writer.sent|)
    && (Buffer.Size(s.writer.buffer) + 1 > t ==>
          Buffer.Size(r.writer.buffer) == 0 && |r.writer.sent| == |s.writer.sent| + 1)
  }

  /** A run of sets into a `Sync` writer whose buffer holds no more adds than
      its threshold `t`, counted in rounds of `t + 1` adds, when every
      collector call completes. */
  lemma {:induction false} SetAllRounds(w: Writer, ms: seq<Buffer.Metric>, envs: seq<Env>)
    requires |envs| == |ms| && AllDelivered(envs)
    requires w.kind == Sync && 0 <= w.config.bufferSize
    requires Buffer.Valid(w.buffer) && Buffer.Size(w.buffer) <= w.config.bufferSize
    ensures Tally(w, SetAll(w, ms, envs), |ms|)
    decreases |ms|
  {
    if ms == [] {
      CountStart(Buffer.Size(w.buffer), |w.sent|, Buffer.Size(w.buffer) + |ms|, w.config.bufferSize + 1);
      assert SetAll(w, ms, envs) == Step(w, None);
    } else {
      var init := ms[..|ms| - 1];
      var env := envs[..|ms| - 1];
      SetAllRounds(w, init, env);
      SetAllStep(w, ms, envs);
      TallyStep(w, SetAll(w, init, env), SetAll(w, ms, envs), |init|, |ms|);
    }
  }

  /** The last `set` of a `Sync` run that has let nothing escape so far. */
  lemma SetAllStep(w: Writer, ms: seq<Buffer.Metric>, envs: seq<Env>)
    requires |envs| == |ms| && ms != [] && envs[|ms| - 1].outcome.Delivered? && w.kind == Sync
    requires var s := SetAll(w, ms[..|ms| - 1], envs[..|ms| - 1]);
      s.thrown.None? && Buffer.Valid(s.writer.buffer)
    ensures var s := SetAll(w, ms[..|ms| - 1], envs[..|ms| - 1]);
      var r := SetAll(w, ms, envs);
      && r.thrown.None?
      && Buffer.Valid(r.writer.buffer)
      && (Buffer.Size(s.writer.buffer) + 1 <= w.config.bufferSize ==>
            Buffer.Size(r.writer.buffer) == Buffer.Size(s.writer.buffer) + 1 && |r.writer.sent| == |s.writer.sent|)
      && (Buffer.Size(s.writer.buffer) + 1 > w.config.bufferSize ==>
            Buffer.Size(r.writer.buffer) == 0 && |r.writer.sent| == |s.writer.sent| + 1)
  {
    var s := SetAll(w, ms[..|ms| - 1], envs[..|ms| - 1]);
    SyncSetStep(s.writer, ms[|ms| - 1], envs[|ms| - 1]);
    assert SetAll(w, ms, envs) == Set(s.writer, ms[|ms| - 1], envs[|ms| - 1]);
  }

  /** The counting step of `SetAllRounds`: one more `set` that let nothing
      escape extends a tally of `k` sets to one of `n`. */
  lemma TallyStep(w0: Writer, s: Step, r: Step, k: nat, n: nat)
    requires n == k + 1 && 0 <= w0.config.bufferSize
    requires Tally(w0, s, k) && SyncStepped(s, r, w0.config.bufferSize)
    ensures Tally(w0, r, n)
  {
    CountGlue(Buffer.Size(w0.buffer) + k, Buffer.Size(w0.buffer) + n, w0.config.bufferSize, w0.config.bufferSize + 1, |w0.sent|,
              Buffer.Size(s.writer.buffer), |s.writer.sent|, Buffer.Size(r.writer.buffer), |r.writer.sent|);
  }

  /** After `n` adds with rounds of `d`, a buffer of `size` adds and `sent`
      batches handed on since `base`: the incomplete round is buffered and one
      batch was handed on per complete round. */
  predicate Counted(size: int, sent: int, base: int, n: nat, d: nat)
    requires d > 0
  {
    size == Rest(n, d) && sent == base + Rounds(n, d)
  }

  /** Fewer adds than a round: all buffered, nothing handed on. */
  lemma CountStart(size: nat, base: int, n: nat, d: nat)
    requires n == size < d
    ensures Counted(size, base, base, n, d)
  {
  }

  /** The counting step of `SetAllRounds` over plain numbers: `k` adds before
      the last `set` and `n` after it, threshold `t` and rounds of `d`, `base`
      batches sent before the run. */
  lemma CountGlue(k: nat, n: nat, t: int, d: nat, base: int, size0: int, sent0: int, size1: int, sent1: int)
    requires n == k + 1 && d == t + 1 && 0 <= t
    requires Counted(size0, sent0, base, k, d)
    requires size0 + 1 <= t ==> size1 == size0 + 1 && sent1 == sent0
    requires size0 + 1 > t ==> size1 == 0 && sent1 == sent0 + 1
    ensures Counted(size1, sent1, base, n, d)
  {
    RoundsStep(k, d);
  }

  /** A tally in division terms: after `n` sets from `w0` with threshold `t`,
      `(size + n) / (t + 1)` batches were handed on and `(size + n) % (t + 1)`
      adds are buffered, `size` being the adds `w0` held. */
  lemma TallyDivision(w0: Writer, r: Step, n: nat)
    requires 0 <= w0.config.bufferSize && Tally(w0, r, n)
    ensures r.thrown.None?
    ensures Buffer.Size(r.writer.buffer) == (Buffer.Size(w0.buffer) + n) % (w0.config.bufferSize + 1)
    ensures |r.writer.sent| == |w0.sent| + (Buffer.Size(w0.buffer) + n) / (w0.config.bufferSize + 1)
  {
    RoundsAreDivision(Buffer.Size(w0.buffer) + n, w0.config.bufferSize + 1);
  }

  /** One `set` by a synchronous writer whose pool has nothing borrowed leaves the
      pool valid with nothing borrowed. */
  lemma SetLeavesPoolQuiescent(w: Writer, m: Buffer.Metric, env: Env)
    requires w.kind != Async && Pool.Valid(w.pool) && Pool.Quiescent(w.pool)
    ensures var r := Set(w, m, env).writer;
      Pool.Valid(r.pool) && Pool.Quiescent(r.pool)
  {
    var w1 := w.(buffer := Buffer.Add(w.buffer, m));
    if Buffer.Size(w1.buffer) > w.config.bufferSize {
      WriterLaws.FlushLeavesPoolQuiescent(w1, env);
      assert Set(w, m, env) == FlushMetricBuffer(w1, env);
    }
  }

  /** A run of sets by a synchronous writer whose pool has nothing borrowed leaves
      the pool valid with nothing borrowed, however the run ends. */
  lemma {:induction false} SetAllLeavesPoolQuiescent(w: Writer, ms: seq<Buffer.Metric>, envs: seq<Env>)
    requires |envs| == |ms|
    requires w.kind != Async && Pool.Valid(w.pool) && Pool.Quiescent(w.pool)
    ensures var r := SetAll(w, ms, envs).writer;
      Pool.Valid(r.pool) && Pool.Quiescent(r.pool)
    decreases |ms|
  {
    if ms != [] {
      var s := SetAll(w, ms[..|ms| - 1], envs[..|ms| - 1]);
      SetAllLeavesPoolQuiescent(w, ms[..|ms| - 1], envs[..|ms| - 1]);
      if s.thrown.None? {
        SetLeavesPoolQuiescent(s.writer, ms[|ms| - 1], envs[|ms| - 1]);
        assert SetAll(w, ms, envs) == Set(s.writer, ms[|ms| - 1], envs[|ms| - 1]);
      } else {
        assert SetAll(w, ms, envs) == s;
      }
    }
  }

  // ---------------------------------------------------------------------------
  // The writer tests' scenarios
  // ---------------------------------------------------------------------------

  /** A `set` that reaches past the threshold of a synchronous writer whose pools
      have nothing borrowed and room to lend, with only the new name iterated:
      one batch and one record are borrowed, the batch is handed on (`Dummy` only
      logs it), both are given back, and what escapes is what the send lets
      escape. */
  lemma SetFlushesOneSeries(w: Writer, m: Buffer.Metric, env: Env)
    requires w.kind != Async && Pool.Valid(w.pool) && Pool.Quiescent(w.pool)
    requires GP.CanLend(w.pool.batchPool) && w.pool.recordPool.open
    requires w.pool.recordPool.maxTotal < 0 || 1 <= w.pool.recordPool.maxTotal
    requires Buffer.Valid(w.buffer) && Buffer.Size(w.buffer) + 1 > w.config.bufferSize && env.names == [m.name]
    ensures var r := Set(w, m, env);
      && |r.writer.sent| == |w.sent| + (if w.kind == Dummy then 0 else 1)
      && r.writer.pool.batchPool.borrowedCount == w.pool.batchPool.borrowedCount + 1
      && r.writer.pool.recordPool.borrowedCount == w.pool.recordPool.borrowedCount + 1
      && GP.NumActive(r.writer.pool.batchPool) == 0 && GP.NumActive(r.writer.pool.recordPool) == 0
      && r.thrown == (if w.kind != Sync && env.outcome.Delivered? then Some(IllegalState) else WriterLaws.SendError(w.kind, env.outcome))
  {
    var w1 := w.(buffer := Buffer.Add(w.buffer, m));
    Buffer.AddValid(w.buffer, m);
    AddedIsSendable(w.buffer, m);
    WriterLaws.FlushBorrowsOnePerSeries(w1, env);
    WriterLaws.FlushLeavesPoolQuiescent(w1, env);
    WriterLaws.FlushSendsOnce(w1, env);
    assert Set(w, m, env) == FlushMetricBuffer(w1, env);
  }

  /** The name just added is sent by the next flush. */
  lemma AddedIsSendable(b: Buffer.MetricBuffer, m: Buffer.Metric)
    ensures Sendable([m.name], Buffer.Flush(Buffer.Add(b, m)).snapshot) == [m.name]
  {
    assert m.timestamp in Buffer.Add(b, m).series[m.name];
    ConversionLaws.FlushedSnapshotAllSendable(Buffer.Add(b, m), [m.name]);
  }

  /** A writer as constructed, its threshold then set to `t`: nothing buffered,
      sent or borrowed, and both pools open with room to lend. */
  ghost predicate Fresh(w: Writer, t: int) {
    && w.config.bufferSize == t && w.sent == []
    && Buffer.Valid(w.buffer) && Buffer.Size(w.buffer) == 0 && Buffer.Drained(w.buffer)
    && Pool.Valid(w.pool) && Pool.Quiescent(w.pool)
    && GP.CanLend(w.pool.batchPool) && w.pool.recordPool.open && 1 <= w.pool.recordPool.maxTotal
    && w.pool.batchPool.borrowedCount == 0 && w.pool.recordPool.borrowedCount == 0
  }

  /** A new writer whose threshold is then set to `t` is `Fresh`. */
  lemma FreshWriter(kind: Kind, appId: Option<string>, hostName: Option<string>, instanceId: Option<string>, t: int)
    ensures var w := SetBufferSize(NewWriter(kind, appId, hostName, instanceId, 10), t);
      w.kind == kind && Fresh(w, t)
  {
  }

  /** The first `set` into a fresh synchronous writer with threshold 0 flushes:
      one batch and one record borrowed, none still borrowed, and the batch
      handed on once (`Dummy` only logs it). */
  lemma FreshSetFlushes(w: Writer, m: Buffer.Metric, env: Env)
    requires w.kind != Async && Fresh(w, 0) && env.names == [m.name]
    ensures var r := Set(w, m, env);
      && r.writer.pool.batchPool.borrowedCount == 1 && r.writer.pool.recordPool.borrowedCount == 1
      && GP.NumActive(r.writer.pool.batchPool) == 0 && GP.NumActive(r.writer.pool.recordPool) == 0
      && |r.writer.sent| == (if w.kind == Dummy then 0 else 1)
      && r.thrown == (if w.kind != Sync && env.outcome.Delivered? then Some(IllegalState) else WriterLaws.SendError(w.kind, env.outcome))
      && (w.kind != Dummy ==> OnlyRecord(r.writer.sent[0], w.config, m, env))
  {
    SetFlushesOneSeries(w, m, env);
    if w.kind != Dummy {
      FreshSetHandsRecord(w, m, env);
    }
  }

  /** The batch `s` holds one record: that of the sample `m`, with the writer's
      ids and, as start time, the least of the timestamps iterated for its name. */
  ghost predicate OnlyRecord(s: Sent, cfg: Config, m: Buffer.Metric, env: Env) {
    && |s.metrics| == 1
    && s.metrics[0].metricName == Some(m.name)
    && s.metrics[0].metricValues == Some(map[m.timestamp := m.value.doubleValue])
    && s.metrics[0].appId == cfg.appId && s.metrics[0].hostName == cfg.hostName
    && s.metrics[0].instanceId == cfg.instanceId
    && s.metrics[0].startTime == StartTime(env.times(m.name))
  }

  /** The first `set` into a fresh `Sync` or `Ambari` writer with threshold 0,
      iterating the snapshot's key sets (the one name, then its one timestamp):
      the batch handed on holds one record, that of the sample, whose start time
      is the sample's timestamp. */
  lemma FreshSetStartsAtSample(w: Writer, m: Buffer.Metric, env: Env)
    requires w.kind != Async && w.kind != Dummy && Fresh(w, 0)
    requires env.names == [m.name] && env.times(m.name) == [m.timestamp]
    ensures var r := Set(w, m, env);
      && |r.writer.sent| == 1 && OnlyRecord(r.writer.sent[0], w.config, m, env)
      && r.writer.sent[0].metrics[0].startTime == m.timestamp
  {
    FreshSetHandsRecord(w, m, env);
  }

  /** The contents half of `FreshSetFlushes`. */
  lemma FreshSetHandsRecord(w: Writer, m: Buffer.Metric, env: Env)
    requires w.kind != Async && w.kind != Dummy && Fresh(w, 0) && env.names == [m.name]
    ensures var r := Set(w, m, env);
      |r.writer.sent| == 1 && OnlyRecord(r.writer.sent[0], w.config, m, env)
  {
    var w1 := w.(buffer := Buffer.Add(w.buffer, m));
    Buffer.AddValid(w.buffer, m);
    AddedIsSendable(w.buffer, m);
    DrainedAddSnapshot(w.buffer, m);
    WriterLaws.FlushHandsListed(w1, env);
    assert Set(w, m, env) == FlushMetricBuffer(w1, env);
  }

  /** Adding to a buffer holding no sample: the next flush finds that one sample. */
  lemma DrainedAddSnapshot(b: Buffer.MetricBuffer, m: Buffer.Metric)
    requires Buffer.Drained(b)
    ensures Buffer.Flush(Buffer.Add(b, m)).snapshot == map[m.name := map[m.timestamp := m.value.doubleValue]]
  {
    var one := map[m.timestamp := m.value.doubleValue];
    var a := Buffer.Add(b, m);
    assert a.series == b.series[m.name := one];
    var snapshot := Buffer.Flush(a).snapshot;
    assert snapshot.Keys == {m.name};
    assert snapshot[m.name] == one;
  }

  /** `flushAutomaticlly`, the pools: a fresh writer with threshold 0 flushes on
      its first `set`; one batch and one record were borrowed and none is still
      borrowed, whatever the collector call does. */
  lemma FlushAutomaticallyBorrows(kind: Kind, appId: Option<string>, hostName: Option<string>, instanceId: Option<string>,
                                  m: Buffer.Metric, env: Env)
    requires kind != Async && env.names == [m.name]
    ensures var r := Set(SetBufferSize(NewWriter(kind, appId, hostName, instanceId, 10), 0), m, env);
      && r.writer.pool.batchPool.borrowedCount == 1 && r.writer.pool.recordPool.borrowedCount == 1
      && GP.NumActive(r.writer.pool.batchPool) == 0 && GP.NumActive(r.writer.pool.recordPool) == 0
  {
    var w := SetBufferSize(NewWriter(kind, appId, hostName, instanceId, 10), 0);
    FreshWriter(kind, appId, hostName, instanceId, 0);
    FreshSetFlushes(w, m, env);
  }

  /** `flushAutomaticlly`, the collector: the batch is handed on once (`Dummy`
      only logs it); when the call completes `Sync` lets nothing escape, while
      `Ambari` and `Dummy` end in the refused second return of the batch. */
  lemma FlushAutomaticallyEscapes(kind: Kind, appId: Option<string>, hostName: Option<string>, instanceId: Option<string>,
                                  m: Buffer.Metric, env: Env)
    requires kind != Async && env.names == [m.name] && env.outcome.Delivered?
    ensures var r := Set(SetBufferSize(NewWriter(kind, appId, hostName, instanceId, 10), 0), m, env);
      && |r.writer.sent| == (if kind == Dummy then 0 else 1)
      && (kind != Dummy ==> |r.writer.sent[0].metrics| == 1 && r.writer.sent[0].metrics[0].metricName == Some(m.name))
      && r.thrown == (if kind == Sync then None else Some(IllegalState))
  {
    var w := SetBufferSize(NewWriter(kind, appId, hostName, instanceId, 10), 0);
    FreshWriter(kind, appId, hostName, instanceId, 0);
    FreshSetFlushes(w, m, env);
  }

  /** 220 completed sets into a fresh `Sync` writer with threshold 20 flush
      220 / 21 = 10 times, leave the last 10 adds buffered and nothing borrowed. */
  lemma FreshRunFlushes(w: Writer, ms: seq<Buffer.Metric>, envs: seq<Env>)
    requires w.kind == Sync && Fresh(w, 20)
    requires |ms| == 220 && |envs| == 220 && AllDelivered(envs)
    ensures var r := SetAll(w, ms, envs);
      && r.thrown.None?
      && |r.writer.sent| == 10 && Buffer.Size(r.writer.buffer) == 10
      && GP.NumActive(r.writer.pool.batchPool) == 0 && GP.NumActive(r.writer.pool.recordPool) == 0
  {
    SetAllRounds(w, ms, envs);
    TallyDivision(w, SetAll(w, ms, envs), |ms|);
    SetAllLeavesPoolQuiescent(w, ms, envs);
  }

  /** `consecutiveAutomaticFlushes`: 220 sets into a fresh `Sync` writer with
      threshold 20, every collector call completing, flush 220 / 21 = 10 times,
      leave the last 10 adds buffered and no pooled object borrowed. */
  lemma ConsecutiveAutomaticFlushes(appId: Option<string>, hostName: Option<string>, instanceId: Option<string>,
                                    ms: seq<Buffer.Metric>, envs: seq<Env>)
    requires |ms| == 220 && |envs| == 220 && AllDelivered(envs)
    ensures var w := SetBufferSize(NewWriter(Sync, appId, hostName, instanceId, 10), 20);
      var r := SetAll(w, ms, envs);
      && r.thrown.None?
      && |r.writer.sent| == 10 && Buffer.Size(r.writer.buffer) == 10
      && GP.NumActive(r.writer.pool.batchPool) == 0 && GP.NumActive(r.writer.pool.recordPool) == 0
  {
    var w := SetBufferSize(NewWriter(Sync, appId, hostName, instanceId, 10), 20);
    FreshWriter(Sync, appId, hostName, instanceId, 20);
    FreshRunFlushes(w, ms, envs);
  }
}
