/** Laws of the writers: how often each kind gives a batch back, what a flush
    sends, how many flushes a run of `set` calls makes, and that the synchronous
    writers leave no pooled object borrowed. */
module WriterLaws {
  import opened Wrappers
  import opened Domain
  import opened Writers
  import Buffer
  import Pool
  import GP = GenericPool
  import ConversionLaws

  /** The writer holds batch `b`: borrowed from its valid pool. */
  ghost predicate Holds(w: Writer, b: nat) {
    Pool.Valid(w.pool) && b in w.pool.batches && b in w.pool.batchPool.active
  }

  /** The exception a send lets escape when the batch is given back exactly once:
      the transport's, except that `Dummy` swallows an `IOException`. */
  function SendError(kind: Kind, outcome: Outcome): Option<Exception> {
    if outcome.Delivered? || (kind == Dummy && outcome.error == IO) then None else Some(outcome.error)
  }

  // ---------------------------------------------------------------------------
  // Giving the batch back
  // ---------------------------------------------------------------------------

  /** `SyncAmbariMetricWriter`: the batch is handed on once and given back once,
      in `finally`, whatever the transport did; the batch and all its records
      leave the borrowed sets and the transport's exception escapes. */
  lemma SyncSendReleasesOnce(w: Writer, b: nat, outcome: Outcome)
    requires w.kind == Sync && Holds(w, b)
    ensures var r := SendMetricsAndCleanPool(w, Some(b), outcome);
      && r.writer.sent == w.sent + [Handed(w.pool, Some(b))]
      && r.writer.released == w.released + [Some(b)]
      && r.thrown == SendError(Sync, outcome)
      && r.writer.pool == Pool.ReturnObjects(w.pool, Some(b)).pool
      && r.writer.pool.batchPool.active == w.pool.batchPool.active - {b}
      && GP.NumActive(r.writer.pool.recordPool) == GP.NumActive(w.pool.recordPool) - |w.pool.batches[b].allMetrics|
      && Pool.Valid(r.writer.pool)
  {
    Pool.ReturnObjectsReleases(w.pool, b);
    Pool.ReturnObjectsValid(w.pool, Some(b));
  }

  /** `AmbariMetricWriter` and `DummyAmbariMetricWriter` after a completed send:
      `doSendMetrics` gives the batch back, then the `finally` of
      `sendMetricsAndCleanPool` gives it back again; the pool refuses the second
      return and its `IllegalStateException` escapes. The pool is left as after
      the first return. */
  lemma DeliveredReleasesTwice(w: Writer, b: nat, success: bool)
    requires (w.kind == Ambari || w.kind == Dummy) && Holds(w, b)
    ensures var r := SendMetricsAndCleanPool(w, Some(b), Delivered(success));
      && r.writer.released == w.released + [Some(b)] + [Some(b)]
      && r.thrown == Some(IllegalState)
      && r.writer.pool == Pool.ReturnObjects(w.pool, Some(b)).pool
      && r.writer.pool.batchPool.active == w.pool.batchPool.active - {b}
      && Pool.Valid(r.writer.pool)
  {
    Pool.ReturnObjectsValid(w.pool, Some(b));
    DeliveredSendGivesBack(w, b, success);
    var s := DoSendMetrics(w, Some(b), Delivered(success));
    SecondReleaseRefused(s.writer, b);
    SendThenFinally(w, Some(b), Delivered(success));
  }

  /** A synchronous `sendMetricsAndCleanPool` is `doSendMetrics` followed by the
      give-back in `finally`, whose exception replaces the one of the send. */
  lemma SendThenFinally(w: Writer, b: Option<nat>, outcome: Outcome)
    requires w.kind != Async && Known(w.pool, b)
    ensures var s := DoSendMetrics(w, b, outcome);
      var f := Release(s.writer, b);
      SendMetricsAndCleanPool(w, b, outcome) == Step(f.writer, if f.thrown.Some? then f.thrown else s.thrown)
  {
  }

  /** The second give-back of `DeliveredReleasesTwice`: handing back a batch the
      pool no longer lends out changes nothing but the log and throws. */
  lemma SecondReleaseRefused(w: Writer, b: nat)
    requires Pool.Valid(w.pool) && b in w.pool.batches && b !in w.pool.batchPool.active
    ensures var f := Release(w, Some(b));
      && f.thrown == Some(IllegalState)
      && f.writer == w.(released := w.released + [Some(b)])
  {
    Pool.ReturnObjectsValid(w.pool, Some(b));
  }

  /** The first give-back of `DeliveredReleasesTwice`: after a completed send,
      `doSendMetrics` of `Ambari` and `Dummy` returns the batch to the pool. */
  lemma DeliveredSendGivesBack(w: Writer, b: nat, success: bool)
    requires (w.kind == Ambari || w.kind == Dummy) && Known(w.pool, Some(b))
    ensures var s := DoSendMetrics(w, Some(b), Delivered(success));
      && s.writer.pool == Pool.ReturnObjects(w.pool, Some(b)).pool
      && s.writer.pool.batchPool.active == w.pool.batchPool.active - {b}
      && s.writer.released == w.released + [Some(b)]
      && (s.thrown.None? <==> b in w.pool.batchPool.active)
  {
  }

  /** A send whose transport throws gives the batch back exactly once, in the
      `finally`, for every synchronous kind; the transport's exception escapes
      (`Dummy` swallows an `IOException`). */
  lemma RaisedReleasesOnce(w: Writer, b: nat, e: Exception)
    requires w.kind != Async && Holds(w, b)
    ensures var r := SendMetricsAndCleanPool(w, Some(b), Raised(e));
      && r.writer.released == w.released + [Some(b)]
      && r.thrown == SendError(w.kind, Raised(e))
      && r.writer.pool == Pool.ReturnObjects(w.pool, Some(b)).pool
      && r.writer.pool.batchPool.active == w.pool.batchPool.active - {b}
      && Pool.Valid(r.writer.pool)
  {
    var s := DoSendMetrics(w, Some(b), Raised(e));
    assert s.writer.pool == w.pool && s.writer.released == w.released && s.thrown == SendError(w.kind, Raised(e));
    Pool.ReturnObjectsReleases(w.pool, b);
    Pool.ReturnObjectsValid(w.pool, Some(b));
    var f := Release(s.writer, Some(b));
    assert f.thrown.None?;
    assert SendMetricsAndCleanPool(w, Some(b), Raised(e)) == Step(f.writer, s.thrown);
  }

  /** Whatever the transport does, a synchronous kind gives the batch back and
      keeps the pool valid; what escapes is the transport's exception, except
      that a completed send by `Ambari` or `Dummy` ends in the refused second
      return. */
  lemma SendGivesBatchBack(w: Writer, b: nat, outcome: Outcome)
    requires w.kind != Async && Holds(w, b)
    ensures var r := SendMetricsAndCleanPool(w, Some(b), outcome);
      && r.thrown == (if w.kind != Sync && outcome.Delivered? then Some(IllegalState) else SendError(w.kind, outcome))
      && r.writer.pool == Pool.ReturnObjects(w.pool, Some(b)).pool
      && r.writer.pool.batchPool.active == w.pool.batchPool.active - {b}
      && Pool.Valid(r.writer.pool)
  {
    if outcome.Raised? {
      RaisedReleasesOnce(w, b, outcome.error);
    } else if w.kind == Sync {
      SyncSendReleasesOnce(w, b, outcome);
    } else {
      DeliveredReleasesTwice(w, b, outcome.success);
    }
  }

  /** `AsyncAmbariMetricWriter`: the send only dispatches, leaving the batch
      borrowed and bound to a pending callback; that callback, on success or
      failure alike, gives it back exactly once. */
  lemma AsyncDispatchThenCallback(w: Writer, b: nat, outcome: Outcome)
    requires w.kind == Async && Holds(w, b)
    ensures var s := SendMetricsAndCleanPool(w, Some(b), outcome);
      && s.thrown.None?
      && s.writer.sent == w.sent + [Handed(w.pool, Some(b))]
      && s.writer.pool == w.pool && s.writer.released == w.released
      && s.writer.pending == w.pending + [Some(b)]
      && var c := Callback(s.writer, |w.pending|);
      && c.thrown.None?
      && c.writer.pending == w.pending
      && c.writer.released == w.released + [Some(b)]
      && c.writer.pool == Pool.ReturnObjects(w.pool, Some(b)).pool
      && c.writer.pool.batchPool.active == w.pool.batchPool.active - {b}
      && Pool.Valid(c.writer.pool)
  {
    var s := SendMetricsAndCleanPool(w, Some(b), outcome);
    assert s.writer.pending[..|w.pending|] == w.pending;
    Pool.ReturnObjectsValid(w.pool, Some(b));
  }

  /** Giving back once (the evident intent): with the give-back left to the
      `finally` alone, every synchronous kind gives the batch back exactly once
      and lets only the transport's exception escape; `Sync` already behaves so. */
  lemma SendOnceReleasesOnce(w: Writer, b: nat, outcome: Outcome)
    requires w.kind != Async && Holds(w, b)
    ensures var r := SendMetricsAndCleanPoolOnce(w, Some(b), outcome);
      && r.writer.released == w.released + [Some(b)]
      && r.thrown == SendError(w.kind, outcome)
      && r.writer.pool == Pool.ReturnObjects(w.pool, Some(b)).pool
      && r.writer.pool.batchPool.active == w.pool.batchPool.active - {b}
      && Pool.Valid(r.writer.pool)
      && (w.kind == Sync ==> r == SendMetricsAndCleanPool(w, Some(b), outcome))
  {
    Pool.ReturnObjectsReleases(w.pool, b);
    Pool.ReturnObjectsValid(w.pool, Some(b));
  }

  // ---------------------------------------------------------------------------
  // Flushing
  // ---------------------------------------------------------------------------

  /** A flush of a buffer holding something empties it and hands exactly one
      batch to the collector client (none for `Dummy`, which only logs). */
  lemma FlushSendsOnce(w: Writer, env: Env)
    requires Buffer.Valid(w.buffer) && Buffer.Size(w.buffer) > 0
    ensures var r := FlushMetricBuffer(w, env);
      && |r.writer.sent| == |w.sent| + (if w.kind == Dummy then 0 else 1)
      && Buffer.Size(r.writer.buffer) == 0 && Buffer.Drained(r.writer.buffer) && Buffer.Valid(r.writer.buffer)
  {
    Buffer.PositiveSizeHasSnapshot(w.buffer);
    assert |Buffer.Flush(w.buffer).snapshot| != 0;
  }

  /** A flush of a non-empty buffer by a synchronous writer whose pools have
      nothing borrowed and room to lend: one batch and one record per name with
      samples are borrowed (and counted as such), and the exception that escapes
      is the one the send lets escape. */
  lemma FlushBorrowsOnePerSeries(w: Writer, env: Env)
    requires w.kind != Async && Pool.Valid(w.pool) && Pool.Quiescent(w.pool)
    requires GP.CanLend(w.pool.batchPool) && w.pool.recordPool.open
    requires w.pool.recordPool.maxTotal < 0 || |env.names| <= w.pool.recordPool.maxTotal
    requires Buffer.Valid(w.buffer) && Buffer.Size(w.buffer) > 0
    ensures var r := FlushMetricBuffer(w, env);
      && r.writer.pool.batchPool.borrowedCount == w.pool.batchPool.borrowedCount + 1
      && r.writer.pool.recordPool.borrowedCount
           == w.pool.recordPool.borrowedCount + |Sendable(env.names, Buffer.Flush(w.buffer).snapshot)|
      && r.thrown == (if w.kind != Sync && env.outcome.Delivered? then Some(IllegalState) else SendError(w.kind, env.outcome))
  {
    Buffer.PositiveSizeHasSnapshot(w.buffer);
    FlushConverts(w, env);
    ConvertBorrowsOnePerSeries(w, env);
    var f := Buffer.Flush(w.buffer);
    var c := ToTimelineMetrics(w.config, w.pool, f.snapshot, env);
    SendGivesBatchBack(w.(buffer := f.buffer, pool := c.pool), c.batch.value, env.outcome);
  }

  /** A flush as in `FlushBorrowsOnePerSeries` whose iterations walk the key sets
      of the snapshot: one record per series is borrowed, and the batch handed
      on (by all but `Dummy`) holds exactly the records of the snapshot's series,
      each with the writer's ids, its series and its earliest timestamp. */
  lemma FlushSendsOnePerSeries(w: Writer, env: Env)
    requires w.kind != Async && Pool.Valid(w.pool) && Pool.Quiescent(w.pool)
    requires GP.CanLend(w.pool.batchPool) && w.pool.recordPool.open
    requires w.pool.recordPool.maxTotal < 0 || |env.names| <= w.pool.recordPool.maxTotal
    requires Buffer.Valid(w.buffer) && Buffer.Size(w.buffer) > 0
    requires ConversionLaws.Iterates(env, Buffer.Flush(w.buffer).snapshot)
    ensures var snapshot := Buffer.Flush(w.buffer).snapshot;
      var r := FlushMetricBuffer(w, env);
      && r.writer.pool.recordPool.borrowedCount == w.pool.recordPool.borrowedCount + |snapshot|
      && (w.kind != Dummy ==>
            && |r.writer.sent| == |w.sent| + 1
            && |r.writer.sent[|w.sent|].metrics| == |snapshot|
            && ConversionLaws.OnePerSeries(r.writer.sent[|w.sent|].metrics, w.config, snapshot))
  {
    FlushBorrowsOnePerSeries(w, env);
    ConversionLaws.FlushedSnapshotAllSendable(w.buffer, env.names);
    if w.kind != Dummy {
      FlushHandsOnePerSeries(w, env);
    }
  }

  /** The batch-contents half of `FlushSendsOnePerSeries`. */
  lemma FlushHandsOnePerSeries(w: Writer, env: Env)
    requires w.kind != Async && w.kind != Dummy && Pool.Valid(w.pool) && Pool.Quiescent(w.pool)
    requires GP.CanLend(w.pool.batchPool) && w.pool.recordPool.open
    requires w.pool.recordPool.maxTotal < 0 || |env.names| <= w.pool.recordPool.maxTotal
    requires Buffer.Valid(w.buffer) && Buffer.Size(w.buffer) > 0
    requires ConversionLaws.Iterates(env, Buffer.Flush(w.buffer).snapshot)
    ensures var snapshot := Buffer.Flush(w.buffer).snapshot;
      var r := FlushMetricBuffer(w, env);
      && |r.writer.sent| == |w.sent| + 1
      && |r.writer.sent[|w.sent|].metrics| == |snapshot|
      && ConversionLaws.OnePerSeries(r.writer.sent[|w.sent|].metrics, w.config, snapshot)
  {
    Buffer.PositiveSizeHasSnapshot(w.buffer);
    FlushConverts(w, env);
    var f := Buffer.Flush(w.buffer);
    HandedOnePerSeries(w.config, w.pool, f.snapshot, env);
  }

  /** The batch a conversion as in `FlushSendsOnePerSeries` hands on. */
  lemma HandedOnePerSeries(cfg: Config, mp: Pool.MetricObjectPool, snapshot: map<string, Series>, env: Env)
    requires Pool.Valid(mp) && Pool.Quiescent(mp) && GP.CanLend(mp.batchPool) && mp.recordPool.open
    requires mp.recordPool.maxTotal < 0 || |env.names| <= mp.recordPool.maxTotal
    requires ConversionLaws.Iterates(env, snapshot) && forall n :: n in snapshot ==> |snapshot[n]| > 0
    ensures var c := ToTimelineMetrics(cfg, mp, snapshot, env);
      && c.batch.Some? && Known(c.pool, c.batch)
      && |Handed(c.pool, c.batch).metrics| == |snapshot|
      && ConversionLaws.OnePerSeries(Handed(c.pool, c.batch).metrics, cfg, snapshot)
  {
    ConversionLaws.ConvertRecordPerSeries(cfg, mp, snapshot, env);
    ConversionLaws.ConvertKeepsValid(cfg, mp, snapshot, env);
  }

  /** A flush of a non-empty buffer by a writer that hands batches on, with room
      in its pools: one batch is handed on, holding in order one record per
      sendable name, each describing that name's series. */
  lemma FlushHandsListed(w: Writer, env: Env)
    requires w.kind != Async && w.kind != Dummy && Pool.Valid(w.pool)
    requires GP.CanLend(w.pool.batchPool) && w.pool.recordPool.open
    requires w.pool.recordPool.maxTotal < 0 || |w.pool.recordPool.active| + |env.names| <= w.pool.recordPool.maxTotal
    requires Buffer.Valid(w.buffer) && Buffer.Size(w.buffer) > 0
    ensures var snapshot := Buffer.Flush(w.buffer).snapshot;
      var S := Sendable(env.names, snapshot);
      var r := FlushMetricBuffer(w, env);
      && |r.writer.sent| == |w.sent| + 1
      && |r.writer.sent[|w.sent|].metrics| == |S|
      && forall k :: 0 <= k < |S| ==> Describes(r.writer.sent[|w.sent|].metrics[k], w.config, S[k], snapshot, env.times(S[k]))
  {
    Buffer.PositiveSizeHasSnapshot(w.buffer);
    FlushConverts(w, env);
    var f := Buffer.Flush(w.buffer);
    HandedListed(w.config, w.pool, f.snapshot, env);
  }

  /** The batch a conversion as in `FlushHandsListed` hands on. */
  lemma HandedListed(cfg: Config, mp: Pool.MetricObjectPool, snapshot: map<string, Series>, env: Env)
    requires Pool.Valid(mp) && GP.CanLend(mp.batchPool) && mp.recordPool.open
    requires mp.recordPool.maxTotal < 0 || |mp.recordPool.active| + |env.names| <= mp.recordPool.maxTotal
    ensures var c := ToTimelineMetrics(cfg, mp, snapshot, env);
      var S := Sendable(env.names, snapshot);
      && c.batch.Some? && Known(c.pool, c.batch)
      && |Handed(c.pool, c.batch).metrics| == |S|
      && forall k :: 0 <= k < |S| ==> Describes(Handed(c.pool, c.batch).metrics[k], cfg, S[k], snapshot, env.times(S[k]))
  {
    ConversionLaws.ConvertOnePerSeries(cfg, mp, snapshot, env);
    ConversionLaws.ConvertKeepsValid(cfg, mp, snapshot, env);
    var c := ToTimelineMetrics(cfg, mp, snapshot, env);
    var ms := ConversionLaws.ListedContents(c.pool.batches[c.batch.value].allMetrics, c.pool.records, cfg, snapshot,
                                            Sendable(env.names, snapshot), env.times);
  }

  /** A flush that finds samples converts the snapshot with the writer's pool and
      sends the batch it got, from the writer with the emptied buffer. */
  lemma FlushConverts(w: Writer, env: Env)
    requires Buffer.Size(w.buffer) > 0 && |Buffer.Flush(w.buffer).snapshot| != 0
    ensures var f := Buffer.Flush(w.buffer);
      var c := ToTimelineMetrics(w.config, w.pool, f.snapshot, env);
      && Known(c.pool, c.batch)
      && FlushMetricBuffer(w, env) == SendMetricsAndCleanPool(w.(buffer := f.buffer, pool := c.pool), c.batch, env.outcome)
  {
  }

  /** The conversion step of `FlushBorrowsOnePerSeries`: the batch is borrowed
      from a pool that stays valid, with one record per name with samples. */
  lemma ConvertBorrowsOnePerSeries(w: Writer, env: Env)
    requires Pool.Valid(w.pool) && Pool.Quiescent(w.pool)
    requires GP.CanLend(w.pool.batchPool) && w.pool.recordPool.open
    requires w.pool.recordPool.maxTotal < 0 || |env.names| <= w.pool.recordPool.maxTotal
    ensures var snapshot := Buffer.Flush(w.buffer).snapshot;
      var c := ToTimelineMetrics(w.config, w.pool, snapshot, env);
      && c.batch.Some? && Pool.Valid(c.pool)
      && c.batch.value in c.pool.batches && c.batch.value in c.pool.batchPool.active
      && c.pool.batchPool.borrowedCount == w.pool.batchPool.borrowedCount + 1
      && c.pool.recordPool.borrowedCount == w.pool.recordPool.borrowedCount + |Sendable(env.names, snapshot)|
  {
    var snapshot := Buffer.Flush(w.buffer).snapshot;
    ConversionLaws.ConvertOnePerSeries(w.config, w.pool, snapshot, env);
    ConversionLaws.ConvertKeepsValid(w.config, w.pool, snapshot, env);
  }

  /** A flush by a synchronous writer whose pool has nothing borrowed leaves the
      pool valid with nothing borrowed, whatever the transport and the pools do. */
  lemma FlushLeavesPoolQuiescent(w: Writer, env: Env)
    requires w.kind != Async && Pool.Valid(w.pool) && Pool.Quiescent(w.pool)
    ensures var r := FlushMetricBuffer(w, env);
      Pool.Valid(r.writer.pool) && Pool.Quiescent(r.writer.pool)
  {
    if Buffer.Size(w.buffer) > 0 && |Buffer.Flush(w.buffer).snapshot| != 0 {
      ConvertThenSendQuiescent(w, env);
    }
  }

  /** The converting branch of `FlushLeavesPoolQuiescent`. */
  lemma ConvertThenSendQuiescent(w: Writer, env: Env)
    requires w.kind != Async && Pool.Valid(w.pool) && Pool.Quiescent(w.pool)
    requires Buffer.Size(w.buffer) > 0 && |Buffer.Flush(w.buffer).snapshot| != 0
    ensures var r := FlushMetricBuffer(w, env);
      Pool.Valid(r.writer.pool) && Pool.Quiescent(r.writer.pool)
  {
    FlushConverts(w, env);
    ConvertLeavesOneBorrowed(w.config, w.pool, Buffer.Flush(w.buffer).snapshot, env);
    var f := Buffer.Flush(w.buffer);
    var c := ToTimelineMetrics(w.config, w.pool, f.snapshot, env);
    SendLeavesPoolQuiescent(w.(buffer := f.buffer, pool := c.pool), c.batch, env.outcome);
  }

  /** The conversion step of `ConvertThenSendQuiescent`: from a pool with nothing
      borrowed, the conversion leaves a valid pool lending at most its batch. */
  lemma ConvertLeavesOneBorrowed(cfg: Config, mp: Pool.MetricObjectPool, snapshot: map<string, Series>, env: Env)
    requires Pool.Valid(mp) && Pool.Quiescent(mp)
    ensures var c := ToTimelineMetrics(cfg, mp, snapshot, env);
      && Pool.Valid(c.pool) && Known(c.pool, c.batch)
      && (c.batch.Some? ==> c.pool.batchPool.active == {c.batch.value})
      && (c.batch.None? ==> c.pool.batchPool.active == {})
  {
    ConversionLaws.ConvertKeepsValid(cfg, mp, snapshot, env);
    assert mp.batchPool.active == {};
  }

  /** The send step of `FlushLeavesPoolQuiescent`: a synchronous send of the only
      borrowed batch (or of null from a pool with nothing borrowed) leaves nothing
      borrowed. */
  lemma SendLeavesPoolQuiescent(w: Writer, b: Option<nat>, outcome: Outcome)
    requires w.kind != Async && Pool.Valid(w.pool) && Known(w.pool, b)
    requires b.Some? ==> w.pool.batchPool.active == {b.value}
    requires b.None? ==> w.pool.batchPool.active == {}
    ensures var r := SendMetricsAndCleanPool(w, b, outcome);
      Pool.Valid(r.writer.pool) && Pool.Quiescent(r.writer.pool)
  {
    var q := SendMetricsAndCleanPool(w, b, outcome).writer.pool;
    if b.Some? {
      SendGivesBatchBack(w, b.value, outcome);
      assert q.batchPool.active == {};
    } else {
      assert q == w.pool;
    }
    Pool.NoBatchNoRecord(q);
  }
}
