/** Laws of `toTimelineMetrics`: which records a converted batch lists and what
    each of them holds. */
module ConversionLaws {
  import opened Wrappers
  import opened Domain
  import opened Writers
  import Buffer
  import Pool
  import GP = GenericPool

  /** `ts` lists the keys of `series`, each once, as a key-set iterator yields them. */
  predicate ListsKeys(ts: seq<int>, series: Series) {
    && |ts| == |series|
    && (forall i :: 0 <= i < |ts| ==> ts[i] in series)
    && (forall t :: t in series ==> t in ts)
  }

  /** The start time is 0 for an empty series and otherwise its earliest timestamp,
      whatever order the key set yields the timestamps in. */
  lemma StartTimeIsMinimum(series: Series, ts: seq<int>)
    requires ListsKeys(ts, series)
    ensures |series| == 0 ==> StartTime(ts) == 0
    ensures |series| > 0 ==> StartTime(ts) in series && forall t :: t in series ==> StartTime(ts) <= t
  {
    forall t | t in series ensures StartTime(ts) <= t {
      var i :| 0 <= i < |ts| && ts[i] == t;
    }
  }

  /** No name occurs twice. */
  ghost predicate DistinctNames(names: seq<string>) {
    forall i, j :: 0 <= i < j < |names| ==> names[i] != names[j]
  }

  /** `env` yields the snapshot as its `keySet()` iterators do: every name of the
      snapshot once, and for each name every timestamp of its series once. */
  ghost predicate Iterates(env: Env, snapshot: map<string, Series>) {
    && |env.names| == |snapshot|
    && (forall i :: 0 <= i < |env.names| ==> env.names[i] in snapshot)
    && (forall n :: n in snapshot ==> n in env.names)
    && DistinctNames(env.names)
    && (forall n :: n in snapshot ==> ListsKeys(env.times(n), snapshot[n]))
  }

  /** `rec` is the record of series `name`, which has samples: the writer's ids,
      the series as values, and the series' earliest timestamp as start time. */
  ghost predicate SeriesRecord(rec: TimelineMetric, cfg: Config, snapshot: map<string, Series>, name: string) {
    && rec.metricName == Some(name)
    && rec.appId == cfg.appId && rec.hostName == cfg.hostName && rec.instanceId == cfg.instanceId
    && name in snapshot && |snapshot[name]| > 0 && rec.metricValues == Some(snapshot[name])
    && rec.startTime in snapshot[name]
    && (forall t :: t in snapshot[name] ==> rec.startTime <= t)
  }

  /** `ms` holds one record per series of `snapshot` with samples and nothing
      else: every record is the record of its series, every such series has one,
      and no two records carry the same name. */
  ghost predicate OnePerSeries(ms: seq<TimelineMetric>, cfg: Config, snapshot: map<string, Series>) {
    && (forall i :: 0 <= i < |ms| ==> ms[i].metricName.Some? && SeriesRecord(ms[i], cfg, snapshot, ms[i].metricName.value))
    && (forall n :: n in snapshot && |snapshot[n]| > 0 ==> exists i :: 0 <= i < |ms| && ms[i].metricName == Some(n))
    && (forall i, j :: 0 <= i < j < |ms| ==> ms[i].metricName != ms[j].metricName)
  }

  /** What the conversion writes for a name with samples, when the timestamps are
      iterated as the key set yields them, is the record of its series. */
  lemma DescribesSeries(rec: TimelineMetric, cfg: Config, snapshot: map<string, Series>, name: string, env: Env)
    requires Iterates(env, snapshot) && name in snapshot && |snapshot[name]| > 0
    requires Describes(rec, cfg, name, snapshot, env.times(name))
    ensures SeriesRecord(rec, cfg, snapshot, name)
  {
    StartTimeIsMinimum(snapshot[name], env.times(name));
  }

  /** A name is sent exactly when it is listed and has samples, and distinct
      names stay distinct. */
  lemma {:induction false} SendableMembers(names: seq<string>, snapshot: map<string, Series>)
    ensures forall n :: n in Sendable(names, snapshot) <==> n in names && n in snapshot && |snapshot[n]| > 0
    ensures DistinctNames(names) ==> DistinctNames(Sendable(names, snapshot))
    decreases |names|
  {
    if names != [] {
      SendableMembers(names[1..], snapshot);
      var head := if names[0] in snapshot && |snapshot[names[0]]| > 0 then [names[0]] else [];
      var rest := Sendable(names[1..], snapshot);
      assert Sendable(names, snapshot) == head + rest;
      assert forall n :: n in names <==> n == names[0] || n in names[1..];
      if DistinctNames(names) {
        assert DistinctNames(names[1..]) by {
          forall i, j | 0 <= i < j < |names[1..]| ensures names[1..][i] != names[1..][j] {
            assert names[1..][i] == names[i + 1] && names[1..][j] == names[j + 1];
          }
        }
        assert names[0] !in rest by {
          forall k | 0 <= k < |names[1..]| ensures names[1..][k] != names[0] {
            assert names[1..][k] == names[k + 1];
          }
        }
        forall i, j | 0 <= i < j < |head + rest| ensures (head + rest)[i] != (head + rest)[j] {
          if i < |head| {
            assert (head + rest)[j] == rest[j - |head|];
          } else {
            assert (head + rest)[i] == rest[i - |head|] && (head + rest)[j] == rest[j - |head|];
          }
        }
      }
    }
  }

  /** A batch listing one record per sendable name, in the order of an iteration
      of the snapshot's key sets, holds one record per series with samples; when
      every series has samples, as in a flushed snapshot, there are as many
      records as series. */
  lemma ListedOnePerSeries(L: seq<nat>, recs: map<nat, TimelineMetric>, cfg: Config,
                           snapshot: map<string, Series>, env: Env)
    requires Iterates(env, snapshot)
    requires ListedInOrder([], L, recs, cfg, snapshot, Sendable(env.names, snapshot), env.times)
    ensures forall k :: 0 <= k < |L| ==> L[k] in recs
    ensures OnePerSeries(Contents(recs, L), cfg, snapshot)
    ensures (forall n :: n in snapshot ==> |snapshot[n]| > 0) ==> |L| == |snapshot|
  {
    var S := Sendable(env.names, snapshot);
    SendableMembers(env.names, snapshot);
    var ms := ListedContents(L, recs, cfg, snapshot, S, env.times);
    NamedOnePerSeries(ms, cfg, snapshot, S, env);
    if forall n :: n in snapshot ==> |snapshot[n]| > 0 {
      SendableAll(env.names, snapshot);
    }
  }

  /** The records a listing in order names, one per name of `S`. */
  lemma ListedContents(L: seq<nat>, recs: map<nat, TimelineMetric>, cfg: Config,
                       snapshot: map<string, Series>, S: seq<string>, times: string -> seq<int>)
    returns (ms: seq<TimelineMetric>)
    requires ListedInOrder([], L, recs, cfg, snapshot, S, times)
    ensures forall k :: 0 <= k < |L| ==> L[k] in recs
    ensures ms == Contents(recs, L) && |ms| == |S|
    ensures forall k :: 0 <= k < |S| ==> Describes(ms[k], cfg, S[k], snapshot, times(S[k]))
  {
    forall k | 0 <= k < |L| ensures L[k] in recs && Describes(recs[L[k]], cfg, S[k], snapshot, times(S[k])) {
      assert ListedAt([], L, recs, cfg, snapshot, S, times, k);
    }
    ms := Contents(recs, L);
  }

  /** Records describing, in order, the distinct sendable names of an iteration
      are one per series with samples. */
  lemma NamedOnePerSeries(ms: seq<TimelineMetric>, cfg: Config, snapshot: map<string, Series>,
                          S: seq<string>, env: Env)
    requires Iterates(env, snapshot) && |ms| == |S| && DistinctNames(S)
    requires forall n :: n in S <==> n in env.names && n in snapshot && |snapshot[n]| > 0
    requires forall k :: 0 <= k < |S| ==> Describes(ms[k], cfg, S[k], snapshot, env.times(S[k]))
    ensures OnePerSeries(ms, cfg, snapshot)
  {
    forall i | 0 <= i < |ms| ensures ms[i].metricName.Some? && SeriesRecord(ms[i], cfg, snapshot, ms[i].metricName.value) {
      assert S[i] in S;
      DescribesSeries(ms[i], cfg, snapshot, S[i], env);
    }
    forall n | n in snapshot && |snapshot[n]| > 0 ensures exists i :: 0 <= i < |ms| && ms[i].metricName == Some(n) {
      assert n in S;
      var i :| 0 <= i < |S| && S[i] == n;
      assert ms[i].metricName == Some(n);
    }
    forall i, j | 0 <= i < j < |ms| ensures ms[i].metricName != ms[j].metricName {
      assert ms[i].metricName == Some(S[i]) && ms[j].metricName == Some(S[j]);
    }
  }

  /** The records listed by batch `b` are borrowed and exist, and the record pool's
      bookkeeping is sound. */
  predicate Fresh(mp: Pool.MetricObjectPool, b: nat) {
    && b in mp.batches
    && GP.Valid(mp.recordPool)
    && forall k :: 0 <= k < |mp.batches[b].allMetrics| ==>
         mp.batches[b].allMetrics[k] in mp.recordPool.active && mp.batches[b].allMetrics[k] in mp.records
  }

  /** `rec` was written by the conversion for one of `names` with samples. */
  predicate FromSnapshot(rec: TimelineMetric, cfg: Config, snapshot: map<string, Series>,
                         names: seq<string>, times: string -> seq<int>) {
    && rec.metricName.Some?
    && rec.metricName.value in names
    && rec.metricName.value in snapshot && |snapshot[rec.metricName.value]| > 0
    && Describes(rec, cfg, rec.metricName.value, snapshot, times(rec.metricName.value))
  }

  /** Every record `L'` lists past the prefix `L` was written for one of `names`
      with samples. */
  predicate AddedFromSnapshot(L: seq<nat>, L': seq<nat>, recs: map<nat, TimelineMetric>, cfg: Config,
                              snapshot: map<string, Series>, names: seq<string>, times: string -> seq<int>) {
    forall k :: |L| <= k < |L'| ==> L'[k] in recs && FromSnapshot(recs[L'[k]], cfg, snapshot, names, times)
  }

  /** Converting names into records keeps `Fresh` and leaves the records already
      listed alone. */
  lemma {:induction false} AddRecordsFresh(cfg: Config, mp: Pool.MetricObjectPool, b: nat,
                                           snapshot: map<string, Series>, names: seq<string>,
                                           times: string -> seq<int>)
    requires Fresh(mp, b)
    ensures var r := AddRecords(cfg, mp, b, snapshot, names, times);
      var L := mp.batches[b].allMetrics;
      && Fresh(r, b)
      && (forall k :: 0 <= k < |L| ==> L[k] in r.records && L[k] in mp.records && r.records[L[k]] == mp.records[L[k]])
    decreases |names|
  {
    if names != [] {
      var L := mp.batches[b].allMetrics;
      var mp1 := AddRecord(cfg, mp, b, snapshot, names[0], times(names[0]));
      var L1 := mp1.batches[b].allMetrics;
      AddRecordFresh(cfg, mp, b, snapshot, names[0], times(names[0]));
      AddRecordsFresh(cfg, mp1, b, snapshot, names[1..], times);
      var r := AddRecords(cfg, mp1, b, snapshot, names[1..], times);
      forall k | 0 <= k < |L| ensures L[k] in r.records && L[k] in mp.records && r.records[L[k]] == mp.records[L[k]] {
        assert L1[k] == L[k];
      }
    }
  }

  /** Converting names into records, failed borrows included: every record added
      describes a name with samples. */
  lemma {:induction false} AddRecordsDescribe(cfg: Config, mp: Pool.MetricObjectPool, b: nat,
                                              snapshot: map<string, Series>, names: seq<string>,
                                              times: string -> seq<int>)
    requires Fresh(mp, b)
    ensures var r := AddRecords(cfg, mp, b, snapshot, names, times);
      AddedFromSnapshot(mp.batches[b].allMetrics, r.batches[b].allMetrics, r.records, cfg, snapshot, names, times)
    decreases |names|
  {
    if names != [] {
      var L := mp.batches[b].allMetrics;
      var mp1 := AddRecord(cfg, mp, b, snapshot, names[0], times(names[0]));
      var L1 := mp1.batches[b].allMetrics;
      AddRecordFresh(cfg, mp, b, snapshot, names[0], times(names[0]));
      AddRecordsFresh(cfg, mp1, b, snapshot, names[1..], times);
      AddRecordsDescribe(cfg, mp1, b, snapshot, names[1..], times);
      var r := AddRecords(cfg, mp1, b, snapshot, names[1..], times);
      DescribeStep(L, L1, r.batches[b].allMetrics, mp1.records, r.records, cfg, snapshot, names, times);
    }
  }

  /** The step of `AddRecordsDescribe`, stated on the lists and record maps alone:
      the first name's record (if any) and the records the other names added. */
  lemma DescribeStep(L: seq<nat>, L1: seq<nat>, L': seq<nat>, recs1: map<nat, TimelineMetric>,
                     recs: map<nat, TimelineMetric>, cfg: Config, snapshot: map<string, Series>,
                     names: seq<string>, times: string -> seq<int>)
    requires names != []
    requires |L| <= |L1| <= |L| + 1 && |L1| <= |L'| && L'[..|L1|] == L1
    requires forall k :: 0 <= k < |L'| ==> L'[k] in recs
    requires |L1| > |L| ==> && names[0] in snapshot && |snapshot[names[0]]| > 0 && L1[|L|] in recs1
                            && Describes(recs1[L1[|L|]], cfg, names[0], snapshot, times(names[0]))
    requires forall k :: 0 <= k < |L1| ==> L1[k] in recs && L1[k] in recs1 && recs[L1[k]] == recs1[L1[k]]
    requires AddedFromSnapshot(L1, L', recs, cfg, snapshot, names[1..], times)
    ensures AddedFromSnapshot(L, L', recs, cfg, snapshot, names, times)
  {
    forall k | |L| <= k < |L'| ensures L'[k] in recs && FromSnapshot(recs[L'[k]], cfg, snapshot, names, times) {
      if k < |L1| {
        assert L'[k] == L1[|L|];
      }
      FromSnapshotCons(recs[L'[k]], cfg, snapshot, names, times);
    }
  }

  /** A record written for the first name, or for one of the others, was written
      for one of the names. */
  lemma FromSnapshotCons(rec: TimelineMetric, cfg: Config, snapshot: map<string, Series>,
                         names: seq<string>, times: string -> seq<int>)
    requires names != []
    ensures FromSnapshot(rec, cfg, snapshot, names[1..], times) ==> FromSnapshot(rec, cfg, snapshot, names, times)
    ensures names[0] in snapshot && |snapshot[names[0]]| > 0 && Describes(rec, cfg, names[0], snapshot, times(names[0])) ==>
      FromSnapshot(rec, cfg, snapshot, names, times)
  {
    if FromSnapshot(rec, cfg, snapshot, names[1..], times) {
      assert rec.metricName.value in names;
    }
  }

  /** One name keeps `Fresh`, leaves listed records alone, and a record it adds
      describes that name. */
  lemma AddRecordFresh(cfg: Config, mp: Pool.MetricObjectPool, b: nat, snapshot: map<string, Series>,
                       name: string, ts: seq<int>)
    requires Fresh(mp, b)
    ensures var r := AddRecord(cfg, mp, b, snapshot, name, ts);
      var L := mp.batches[b].allMetrics; var L' := r.batches[b].allMetrics;
      && Fresh(r, b)
      && (forall k :: 0 <= k < |L| ==> r.records[L[k]] == mp.records[L[k]])
      && (|L'| > |L| ==> name in snapshot && |snapshot[name]| > 0 && L'[|L|] in r.records
                         && Describes(r.records[L'[|L|]], cfg, name, snapshot, ts))
  {
    var r := AddRecord(cfg, mp, b, snapshot, name, ts);
    var L, L' := mp.batches[b].allMetrics, r.batches[b].allMetrics;
    if Appends(mp, snapshot, name) {
      AddRecordAppended(cfg, mp, b, snapshot, name, ts);
      forall k | 0 <= k < |L'| ensures L'[k] in r.recordPool.active && L'[k] in r.records {
        if k < |L| {
          assert L'[k] == L[k];
        }
      }
      forall k | 0 <= k < |L| ensures r.records[L[k]] == mp.records[L[k]] {
        assert L[k] in mp.recordPool.active;
      }
    }
  }

  /** `L'` extends `L` by exactly one record per name of `S`, in order, each
      describing its name. */
  predicate ListedInOrder(L: seq<nat>, L': seq<nat>, recs: map<nat, TimelineMetric>, cfg: Config,
                          snapshot: map<string, Series>, S: seq<string>, times: string -> seq<int>) {
    && |L'| == |L| + |S|
    && forall k :: 0 <= k < |S| ==> ListedAt(L, L', recs, cfg, snapshot, S, times, k)
  }

  /** The `k`-th name of `S` has its record at position `|L| + k` of `L'`. */
  predicate ListedAt(L: seq<nat>, L': seq<nat>, recs: map<nat, TimelineMetric>, cfg: Config,
                     snapshot: map<string, Series>, S: seq<string>, times: string -> seq<int>, k: nat)
    requires |L'| == |L| + |S| && k < |S|
  {
    L'[|L| + k] in recs && Describes(recs[L'[|L| + k]], cfg, S[k], snapshot, times(S[k]))
  }

  /** With room in an open record pool every name with samples gets exactly one
      record, in iteration order, describing it. */
  lemma {:induction false} AddRecordsOnePerSeries(cfg: Config, mp: Pool.MetricObjectPool, b: nat,
                                                  snapshot: map<string, Series>, names: seq<string>,
                                                  times: string -> seq<int>)
    requires Fresh(mp, b) && mp.recordPool.open
    requires mp.recordPool.maxTotal < 0 || |mp.recordPool.active| + |names| <= mp.recordPool.maxTotal
    ensures var r := AddRecords(cfg, mp, b, snapshot, names, times);
      ListedInOrder(mp.batches[b].allMetrics, r.batches[b].allMetrics, r.records, cfg, snapshot,
                    Sendable(names, snapshot), times)
    decreases |names|
  {
    if names != [] {
      var L := mp.batches[b].allMetrics;
      var mp1 := AddRecord(cfg, mp, b, snapshot, names[0], times(names[0]));
      var L1 := mp1.batches[b].allMetrics;
      var head := if names[0] in snapshot && |snapshot[names[0]]| > 0 then [names[0]] else [];
      FirstRecord(cfg, mp, b, snapshot, names[0], times(names[0]), |names| - 1);
      AddRecordsOnePerSeries(cfg, mp1, b, snapshot, names[1..], times);
      AddRecordsFresh(cfg, mp1, b, snapshot, names[1..], times);
      var r := AddRecords(cfg, mp1, b, snapshot, names[1..], times);
      assert Sendable(names, snapshot) == head + Sendable(names[1..], snapshot);
      assert AddRecords(cfg, mp, b, snapshot, names, times) == r;
      OnePerSeriesStep(L, L1, r.batches[b].allMetrics, mp1.records, r.records, cfg, snapshot,
                       Sendable(names, snapshot), head, Sendable(names[1..], snapshot), times);
    } else {
      assert AddRecords(cfg, mp, b, snapshot, names, times) == mp;
      assert Sendable(names, snapshot) == [];
    }
  }

  /** The first name of `AddRecordsOnePerSeries`: with room for it and `rest`
      more, a name with samples gets a record describing it, and room for `rest`
      is left. */
  lemma FirstRecord(cfg: Config, mp: Pool.MetricObjectPool, b: nat, snapshot: map<string, Series>,
                    name: string, ts: seq<int>, rest: nat)
    requires Fresh(mp, b) && mp.recordPool.open
    requires mp.recordPool.maxTotal < 0 || |mp.recordPool.active| + rest + 1 <= mp.recordPool.maxTotal
    ensures var r := AddRecord(cfg, mp, b, snapshot, name, ts);
      var L := mp.batches[b].allMetrics; var L' := r.batches[b].allMetrics;
      && Fresh(r, b) && r.recordPool.open
      && (r.recordPool.maxTotal < 0 || |r.recordPool.active| + rest <= r.recordPool.maxTotal)
      && |L'| == |L| + (if name in snapshot && |snapshot[name]| > 0 then 1 else 0)
      && (|L'| > |L| ==> L'[|L|] in r.records && Describes(r.records[L'[|L|]], cfg, name, snapshot, ts))
  {
    AddRecordFresh(cfg, mp, b, snapshot, name, ts);
    if Appends(mp, snapshot, name) {
      AddRecordAppended(cfg, mp, b, snapshot, name, ts);
    }
  }

  /** The step of `AddRecordsOnePerSeries`, stated on the lists and record maps
      alone: `head` is the first name when it has samples. */
  lemma OnePerSeriesStep(L: seq<nat>, L1: seq<nat>, L': seq<nat>, recs1: map<nat, TimelineMetric>,
                         recs: map<nat, TimelineMetric>, cfg: Config, snapshot: map<string, Series>,
                         S: seq<string>, head: seq<string>, S1: seq<string>, times: string -> seq<int>)
    requires S == head + S1
    requires |head| <= 1 && |L1| == |L| + |head| && |L1| <= |L'| && L'[..|L1|] == L1
    requires head != [] ==> L1[|L|] in recs1 && Describes(recs1[L1[|L|]], cfg, head[0], snapshot, times(head[0]))
    requires forall k :: 0 <= k < |L1| ==> L1[k] in recs && L1[k] in recs1 && recs[L1[k]] == recs1[L1[k]]
    requires ListedInOrder(L1, L', recs, cfg, snapshot, S1, times)
    ensures ListedInOrder(L, L', recs, cfg, snapshot, S, times)
  {
    forall k | 0 <= k < |S| ensures ListedAt(L, L', recs, cfg, snapshot, S, times, k) {
      if k < |head| {
        HeadListed(L, L1, L', recs1, recs, cfg, snapshot, S, head, S1, times, k);
      } else {
        var j := k - |head|;
        assert S[k] == S1[j] && |L| + k == |L1| + j;
        assert ListedAt(L1, L', recs, cfg, snapshot, S1, times, j);
      }
    }
  }

  /** The head case of `OnePerSeriesStep`. */
  lemma HeadListed(L: seq<nat>, L1: seq<nat>, L': seq<nat>, recs1: map<nat, TimelineMetric>,
                   recs: map<nat, TimelineMetric>, cfg: Config, snapshot: map<string, Series>,
                   S: seq<string>, head: seq<string>, S1: seq<string>, times: string -> seq<int>, k: nat)
    requires S == head + S1 && k < |head| <= 1
    requires |L1| == |L| + |head| && |L1| <= |L'| && L'[..|L1|] == L1
    requires L1[|L|] in recs1 && Describes(recs1[L1[|L|]], cfg, head[0], snapshot, times(head[0]))
    requires L1[|L|] in recs && recs[L1[|L|]] == recs1[L1[|L|]]
    ensures L'[|L| + k] in recs && Describes(recs[L'[|L| + k]], cfg, S[k], snapshot, times(S[k]))
  {
    assert L'[|L| + k] == L1[|L|];
  }

  /** When every listed name has samples, every name is sent. */
  lemma {:induction false} SendableAll(names: seq<string>, snapshot: map<string, Series>)
    requires forall i :: 0 <= i < |names| ==> names[i] in snapshot && |snapshot[names[i]]| > 0
    ensures Sendable(names, snapshot) == names
    decreases |names|
  {
    if names != [] {
      SendableAll(names[1..], snapshot);
    }
  }

  /** `toTimelineMetrics` on a valid pool with room: the batch holds exactly one
      record per name with samples, in iteration order, each carrying its name, the
      writer's application, host and instance, its series and its start time. */
  lemma ConvertOnePerSeries(cfg: Config, mp: Pool.MetricObjectPool, snapshot: map<string, Series>, env: Env)
    requires Pool.Valid(mp) && GP.CanLend(mp.batchPool) && mp.recordPool.open
    requires mp.recordPool.maxTotal < 0 || |mp.recordPool.active| + |env.names| <= mp.recordPool.maxTotal
    ensures var c := ToTimelineMetrics(cfg, mp, snapshot, env);
      && c.batch.Some?
      && ListedInOrder([], c.pool.batches[c.batch.value].allMetrics, c.pool.records, cfg, snapshot,
                       Sendable(env.names, snapshot), env.times)
  {
    var l := Pool.GetMetrics(mp).value;
    assert l.pool.batches[l.ref].allMetrics == [];
    assert l.pool.recordPool == mp.recordPool;
    AddRecordsOnePerSeries(cfg, l.pool, l.ref, snapshot, env.names, env.times);
    assert ToTimelineMetrics(cfg, mp, snapshot, env)
        == Converted(AddRecords(cfg, l.pool, l.ref, snapshot, env.names, env.times), Some(l.ref));
  }

  /** `toTimelineMetrics` on a valid pool with room, iterating the snapshot as its
      key sets do: the batch holds one record per series with samples, each with
      the writer's ids, its series and the series' earliest timestamp, no name
      twice; a flushed snapshot gets as many records as it has series. */
  lemma ConvertRecordPerSeries(cfg: Config, mp: Pool.MetricObjectPool, snapshot: map<string, Series>, env: Env)
    requires Pool.Valid(mp) && GP.CanLend(mp.batchPool) && mp.recordPool.open
    requires mp.recordPool.maxTotal < 0 || |mp.recordPool.active| + |snapshot| <= mp.recordPool.maxTotal
    requires Iterates(env, snapshot)
    ensures var c := ToTimelineMetrics(cfg, mp, snapshot, env);
      var L := c.pool.batches[c.batch.value].allMetrics;
      && c.batch.Some?
      && (forall k :: 0 <= k < |L| ==> L[k] in c.pool.records)
      && OnePerSeries(Contents(c.pool.records, L), cfg, snapshot)
      && ((forall n :: n in snapshot ==> |snapshot[n]| > 0) ==> |L| == |snapshot|)
  {
    ConvertOnePerSeries(cfg, mp, snapshot, env);
    var c := ToTimelineMetrics(cfg, mp, snapshot, env);
    ListedOnePerSeries(c.pool.batches[c.batch.value].allMetrics, c.pool.records, cfg, snapshot, env);
  }

  /** `toTimelineMetrics` whatever the pools do: without a batch nothing changes
      and the result is null; otherwise each record of the batch describes a name
      with samples, no more records than such names. */
  lemma ConvertDescribes(cfg: Config, mp: Pool.MetricObjectPool, snapshot: map<string, Series>, env: Env)
    requires Pool.Valid(mp)
    ensures var c := ToTimelineMetrics(cfg, mp, snapshot, env);
      && (c.batch.None? <==> !GP.CanLend(mp.batchPool))
      && (c.batch.None? ==> c.pool == mp)
      && (c.batch.Some? ==>
            var L := c.pool.batches[c.batch.value].allMetrics;
            && |L| <= |Sendable(env.names, snapshot)|
            && AddedFromSnapshot([], L, c.pool.records, cfg, snapshot, env.names, env.times))
  {
    if GP.CanLend(mp.batchPool) {
      var l := Pool.GetMetrics(mp).value;
      assert l.pool.batches[l.ref].allMetrics == [];
      assert l.pool.recordPool == mp.recordPool;
      AddRecordsDescribe(cfg, l.pool, l.ref, snapshot, env.names, env.times);
      assert ToTimelineMetrics(cfg, mp, snapshot, env)
          == Converted(AddRecords(cfg, l.pool, l.ref, snapshot, env.names, env.times), Some(l.ref));
    }
  }

  /** `toTimelineMetrics` whatever the pools do, iterating the snapshot as its key
      sets do: every record of the batch is the record of a series with samples,
      start time included, and there are at most as many records as series. */
  lemma ConvertDescribesSeries(cfg: Config, mp: Pool.MetricObjectPool, snapshot: map<string, Series>, env: Env)
    requires Pool.Valid(mp) && Iterates(env, snapshot)
    ensures var c := ToTimelineMetrics(cfg, mp, snapshot, env);
      c.batch.Some? ==>
        var L := c.pool.batches[c.batch.value].allMetrics;
        && |L| <= |snapshot|
        && forall k :: 0 <= k < |L| ==>
             L[k] in c.pool.records && c.pool.records[L[k]].metricName.Some?
             && SeriesRecord(c.pool.records[L[k]], cfg, snapshot, c.pool.records[L[k]].metricName.value)
  {
    ConvertDescribes(cfg, mp, snapshot, env);
    var c := ToTimelineMetrics(cfg, mp, snapshot, env);
    if c.batch.Some? {
      AddedSeriesRecords(c.pool.batches[c.batch.value].allMetrics, c.pool.records, cfg, snapshot, env);
    }
  }

  /** The list step of `ConvertDescribesSeries`. */
  lemma AddedSeriesRecords(L: seq<nat>, recs: map<nat, TimelineMetric>, cfg: Config,
                           snapshot: map<string, Series>, env: Env)
    requires Iterates(env, snapshot) && |L| <= |Sendable(env.names, snapshot)|
    requires AddedFromSnapshot([], L, recs, cfg, snapshot, env.names, env.times)
    ensures |L| <= |snapshot|
    ensures forall k :: 0 <= k < |L| ==>
      L[k] in recs && recs[L[k]].metricName.Some? && SeriesRecord(recs[L[k]], cfg, snapshot, recs[L[k]].metricName.value)
  {
    SendableLength(env.names, snapshot);
    forall k | 0 <= k < |L|
      ensures L[k] in recs && recs[L[k]].metricName.Some? && SeriesRecord(recs[L[k]], cfg, snapshot, recs[L[k]].metricName.value)
    {
      assert FromSnapshot(recs[L[k]], cfg, snapshot, env.names, env.times);
      DescribesSeries(recs[L[k]], cfg, snapshot, recs[L[k]].metricName.value, env);
    }
  }

  /** No more names are sent than are listed. */
  lemma {:induction false} SendableLength(names: seq<string>, snapshot: map<string, Series>)
    ensures |Sendable(names, snapshot)| <= |names|
    decreases |names|
  {
    if names != [] {
      SendableLength(names[1..], snapshot);
    }
  }

  /** One name of the conversion keeps the pool valid and the batch borrowed. */
  lemma AddRecordKeepsValid(cfg: Config, mp: Pool.MetricObjectPool, b: nat, snapshot: map<string, Series>,
                            name: string, ts: seq<int>)
    requires Pool.Valid(mp) && b in mp.batches && b in mp.batchPool.active
    ensures Pool.Valid(AddRecord(cfg, mp, b, snapshot, name, ts))
  {
    if Appends(mp, snapshot, name) {
      var l := Pool.GetMetricFor(mp, b).value;
      Pool.GetMetricForValid(mp, b);
      Pool.SetRecordKeepsValid(l.pool, l.ref, Fill(l.pool.records[l.ref], cfg, name, snapshot[name], ts));
    }
  }

  /** The conversion loop keeps the pool valid. */
  lemma {:induction false} AddRecordsKeepsValid(cfg: Config, mp: Pool.MetricObjectPool, b: nat,
                                                snapshot: map<string, Series>, names: seq<string>,
                                                times: string -> seq<int>)
    requires Pool.Valid(mp) && b in mp.batches && b in mp.batchPool.active
    ensures Pool.Valid(AddRecords(cfg, mp, b, snapshot, names, times))
    decreases |names|
  {
    if names != [] {
      AddRecordKeepsValid(cfg, mp, b, snapshot, names[0], times(names[0]));
      var mp1 := AddRecord(cfg, mp, b, snapshot, names[0], times(names[0]));
      AddRecordsKeepsValid(cfg, mp1, b, snapshot, names[1..], times);
    }
  }

  /** `toTimelineMetrics` keeps the pool valid, and the batch it returns is the one
      batch it borrowed. */
  lemma ConvertKeepsValid(cfg: Config, mp: Pool.MetricObjectPool, snapshot: map<string, Series>, env: Env)
    requires Pool.Valid(mp)
    ensures var c := ToTimelineMetrics(cfg, mp, snapshot, env);
      && Pool.Valid(c.pool)
      && (c.batch.Some? ==> c.batch.value !in mp.batchPool.active && c.batch.value in c.pool.batches)
  {
    if GP.CanLend(mp.batchPool) {
      var l := Pool.GetMetrics(mp).value;
      AddRecordsKeepsValid(cfg, l.pool, l.ref, snapshot, env.names, env.times);
    }
  }

  /** A flushed snapshot has samples under every name, so a name order that lists
      its names sends them all. */
  lemma FlushedSnapshotAllSendable(b: Buffer.MetricBuffer, names: seq<string>)
    requires forall i :: 0 <= i < |names| ==> names[i] in Buffer.Flush(b).snapshot
    ensures Sendable(names, Buffer.Flush(b).snapshot) == names
  {
    SendableAll(names, Buffer.Flush(b).snapshot);
  }
}
