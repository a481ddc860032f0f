/** `MetricObjectPool` with its two factories: one pool of `TimelineMetrics`
    batches and one of `TimelineMetric` records. The objects themselves live in two
    arenas indexed by identity; a batch's list holds the identities of its records. */
module Pool {
  import opened Wrappers
  import opened Domain
  import GP = GenericPool

  // ---------------------------------------------------------------------------
  // TimelineMetricFactory
  // ---------------------------------------------------------------------------

  /** `create`: a fresh record, with null identity fields and a zero start time. */
  function CreateRecord(): (m: TimelineMetric)
    ensures m.metricName.None? && m.appId.None? && m.hostName.None? && m.instanceId.None?
    ensures m.startTime == 0
  {
    NewTimelineMetric()
  }

  /** `passivateObject`: on return to the pool the identity fields and the values
      become null and the start time becomes -1. The timestamp is not reset. */
  function PassivateRecord(m: TimelineMetric): (r: TimelineMetric)
    ensures r.metricName.None? && r.appId.None? && r.hostName.None? && r.instanceId.None?
    ensures r.metricValues.None?
    ensures r.startTime == -1
    ensures r.timestamp == m.timestamp
  {
    m.(instanceId := None, appId := None, hostName := None, metricName := None,
       metricValues := None, startTime := -1)
  }

  /** Passivating twice is passivating once. */
  lemma PassivateRecordIdempotent(m: TimelineMetric)
    ensures PassivateRecord(PassivateRecord(m)) == PassivateRecord(m)
  {
  }

  /** A passivated record keeps nothing of its previous use but the timestamp:
      two records with the same timestamp become indistinguishable. */
  lemma PassivateRecordForgets(m1: TimelineMetric, m2: TimelineMetric)
    requires m1.timestamp == m2.timestamp
    ensures PassivateRecord(m1) == PassivateRecord(m2)
  {
  }

  // ---------------------------------------------------------------------------
  // TimelineMetricsFactory
  // ---------------------------------------------------------------------------

  /** `create`: a batch with an empty, non-null record list. */
  function CreateBatch(): (b: TimelineMetrics)
    ensures Domain.GetMetrics(b) == []
  {
    NewTimelineMetrics()
  }

  /** `passivateObject`: the record list is cleared, whatever its length. */
  function PassivateBatch(b: TimelineMetrics): (r: TimelineMetrics)
    ensures Domain.GetMetrics(r) == []
  {
    b.(allMetrics := [])
  }

  /** Passivating a batch twice is passivating it once, and every passivated
      batch is the same empty batch. */
  lemma PassivateBatchIdempotent(b: TimelineMetrics, b': TimelineMetrics)
    ensures PassivateBatch(PassivateBatch(b)) == PassivateBatch(b)
    ensures PassivateBatch(b) == PassivateBatch(b')
  {
  }

  // ---------------------------------------------------------------------------
  // MetricObjectPool
  // ---------------------------------------------------------------------------

  datatype MetricObjectPool = MetricObjectPool(
    batchPool: GP.ObjectPool,
    recordPool: GP.ObjectPool,
    batches: map<nat, TimelineMetrics>,
    records: map<nat, TimelineMetric>)

  /** The constructor: two open, empty pools with the given maximum totals. */
  function NewMetricObjectPool(batchPoolSize: int, recordPoolSize: int): (mp: MetricObjectPool)
    ensures Valid(mp)
    ensures mp.batchPool.maxTotal == batchPoolSize && mp.recordPool.maxTotal == recordPoolSize
    ensures mp.batchPool.open && mp.recordPool.open
    ensures GP.NumActive(mp.batchPool) == 0 && GP.NumActive(mp.recordPool) == 0
    ensures GP.NumIdle(mp.batchPool) == 0 && GP.NumIdle(mp.recordPool) == 0
    ensures mp.batchPool.borrowedCount == 0 && mp.recordPool.borrowedCount == 0
  {
    var mp := MetricObjectPool(GP.NewObjectPool(batchPoolSize), GP.NewObjectPool(recordPoolSize), map[], map[]);
    assert Owned(mp) == {};
    mp
  }

  /** The record identities held by some borrowed batch. */
  ghost function Owned(mp: MetricObjectPool): set<nat> {
    set b, i | b in mp.batchPool.active && b in mp.batches && 0 <= i < |mp.batches[b].allMetrics|
      :: mp.batches[b].allMetrics[i]
  }

  /** No record is listed twice, neither in one borrowed batch nor in two. */
  ghost predicate NoSharing(mp: MetricObjectPool) {
    forall b1, b2, i, j ::
      && b1 in mp.batchPool.active && b2 in mp.batchPool.active
      && b1 in mp.batches && b2 in mp.batches
      && 0 <= i < |mp.batches[b1].allMetrics| && 0 <= j < |mp.batches[b2].allMetrics|
      && mp.batches[b1].allMetrics[i] == mp.batches[b2].allMetrics[j]
      ==> b1 == b2 && i == j
  }

  /** Ownership discipline of the two pools: every pooled object exists, a batch that
      is not borrowed has an empty list, and the borrowed records are exactly the
      records listed by borrowed batches, each listed once. */
  ghost predicate Valid(mp: MetricObjectPool) {
    && GP.Valid(mp.batchPool) && GP.Valid(mp.recordPool)
    && (forall b :: b in mp.batchPool.active ==> b in mp.batches)
    && (forall i :: 0 <= i < |mp.batchPool.idle| ==> mp.batchPool.idle[i] in mp.batches)
    && (forall r :: r in mp.recordPool.active ==> r in mp.records)
    && (forall i :: 0 <= i < |mp.recordPool.idle| ==> mp.recordPool.idle[i] in mp.records)
    && (forall b :: b in mp.batches && b !in mp.batchPool.active ==> mp.batches[b].allMetrics == [])
    && NoSharing(mp)
    && mp.recordPool.active == Owned(mp)
  }

  /** No object of either pool is borrowed. */
  predicate Quiescent(mp: MetricObjectPool) {
    GP.NumActive(mp.batchPool) == 0 && GP.NumActive(mp.recordPool) == 0
  }

  /** In a valid pool, once no batch is borrowed no record is borrowed either. */
  lemma NoBatchNoRecord(mp: MetricObjectPool)
    requires Valid(mp) && mp.batchPool.active == {}
    ensures Quiescent(mp)
  {
    assert Owned(mp) == {};
  }

  /** A borrowed object and the pool it leaves behind. */
  datatype Lent = Lent(pool: MetricObjectPool, ref: nat)

  /** `getMetrics`: borrow a batch. */
  function GetMetrics(mp: MetricObjectPool): (r: Result<Lent>)
    ensures r.Ok? <==> GP.CanLend(mp.batchPool)
    ensures r.Err? ==> r.error == (if mp.batchPool.open then NoSuchElement else IllegalState)
    ensures r.Ok? ==>
      var q := r.value.pool;
      && q.batchPool.active == mp.batchPool.active + {r.value.ref}
      && q.batchPool.borrowedCount == mp.batchPool.borrowedCount + 1
      && q.batchPool.maxTotal == mp.batchPool.maxTotal && q.batchPool.open == mp.batchPool.open
      && GP.NumIdle(q.batchPool) == (if GP.NumIdle(mp.batchPool) == 0 then 0 else GP.NumIdle(mp.batchPool) - 1)
      && q.recordPool == mp.recordPool && q.records == mp.records
      && r.value.ref in q.batches
      && (forall x :: x in mp.batches && x != r.value.ref ==> x in q.batches && q.batches[x] == mp.batches[x])
    ensures Valid(mp) && r.Ok? ==>
      && Valid(r.value.pool)
      && r.value.ref !in mp.batchPool.active
      && r.value.pool.batches[r.value.ref].allMetrics == []
  {
    match GP.Borrow(mp.batchPool)
    case Err(e) => Err(e)
    case Ok(loan) =>
      var q := mp.(batchPool := loan.pool, batches := LentBatches(mp, loan));
      assert Valid(mp) ==> Valid(q) by {
        if Valid(mp) {
          LendBatchKeepsValid(mp, loan);
        }
      }
      Ok(Lent(q, loan.id))
  }

  /** The batches after lending `loan`: a batch created for it starts empty. */
  function LentBatches(mp: MetricObjectPool, loan: GP.Loan): map<nat, TimelineMetrics> {
    if loan.created || loan.id !in mp.batches then mp.batches[loan.id := CreateBatch()] else mp.batches
  }

  /** Lending a batch out of a valid pool keeps it valid: the batch lent was idle
      or new, so its list is empty. */
  lemma LendBatchKeepsValid(mp: MetricObjectPool, loan: GP.Loan)
    requires Valid(mp) && GP.Borrow(mp.batchPool) == Ok(loan)
    ensures Valid(mp.(batchPool := loan.pool, batches := LentBatches(mp, loan)))
  {
    var q := mp.(batchPool := loan.pool, batches := LentBatches(mp, loan));
    assert loan.id in q.batches;
    assert q.batches[loan.id].allMetrics == [];
    OwnedAddEmptyBatch(mp, q, loan.id);
  }

  /** Lending an empty batch adds nothing to the owned records. */
  lemma OwnedAddEmptyBatch(mp: MetricObjectPool, q: MetricObjectPool, b: nat)
    requires q.batchPool.active == mp.batchPool.active + {b}
    requires b in q.batches && q.batches[b].allMetrics == []
    requires forall x :: x in mp.batches && x != b ==> x in q.batches && q.batches[x] == mp.batches[x]
    requires forall x :: x in mp.batchPool.active ==> x in mp.batches
    requires b !in mp.batchPool.active
    ensures Owned(q) == Owned(mp)
    ensures NoSharing(mp) ==> NoSharing(q)
  {
  }

  /** `getMetricFor(b)`: borrow a record and append it to `b`'s list. */
  function GetMetricFor(mp: MetricObjectPool, b: nat): (r: Result<Lent>)
    requires b in mp.batches
    ensures r.Ok? <==> GP.CanLend(mp.recordPool)
    ensures r.Err? ==> r.error == (if mp.recordPool.open then NoSuchElement else IllegalState)
    ensures r.Ok? ==>
      var q := r.value.pool; var x := r.value.ref;
      && q.batches == mp.batches[b := AddMetrics(mp.batches[b], [x])]
      && q.batchPool == mp.batchPool
      && q.recordPool.active == mp.recordPool.active + {x}
      && q.recordPool.borrowedCount == mp.recordPool.borrowedCount + 1
      && q.recordPool.maxTotal == mp.recordPool.maxTotal && q.recordPool.open == mp.recordPool.open
      && GP.NumIdle(q.recordPool) == (if GP.NumIdle(mp.recordPool) == 0 then 0 else GP.NumIdle(mp.recordPool) - 1)
      && x in q.records
      && (forall y :: y in mp.records && y != x ==> y in q.records && q.records[y] == mp.records[y])
    ensures r.Ok? && GP.Valid(mp.recordPool) ==> GP.Valid(r.value.pool.recordPool) && r.value.ref !in mp.recordPool.active
  {
    match GP.Borrow(mp.recordPool)
    case Err(e) => Err(e)
    case Ok(loan) =>
      var records := if loan.created || loan.id !in mp.records then mp.records[loan.id := CreateRecord()] else mp.records;
      var q := mp.(recordPool := loan.pool, records := records,
                   batches := mp.batches[b := AddMetrics(mp.batches[b], [loan.id])]);
      Ok(Lent(q, loan.id))
  }

  /** `getMetricFor` on a borrowed batch keeps the pool valid and lends a record
      nobody held. */
  lemma GetMetricForValid(mp: MetricObjectPool, b: nat)
    requires Valid(mp) && b in mp.batchPool.active
    ensures var r := GetMetricFor(mp, b);
      r.Ok? ==> Valid(r.value.pool) && r.value.ref !in mp.recordPool.active
  {
    var r := GetMetricFor(mp, b);
    if r.Ok? {
      var loan := GP.Borrow(mp.recordPool).value;
      assert r.value.pool.recordPool == loan.pool && r.value.ref == loan.id;
      AppendKeepsValid(mp, r.value.pool, b, loan.id);
    }
  }

  /** A pool that differs from a valid one only by a record lent out and appended
      to a borrowed batch is valid. */
  lemma AppendKeepsValid(mp: MetricObjectPool, q: MetricObjectPool, b: nat, x: nat)
    requires Valid(mp) && b in mp.batchPool.active
    requires x !in mp.recordPool.active
    requires q.batchPool == mp.batchPool
    requires q.batches == mp.batches[b := AddMetrics(mp.batches[b], [x])]
    requires GP.Valid(q.recordPool) && q.recordPool.active == mp.recordPool.active + {x}
    requires mp.records.Keys <= q.records.Keys && x in q.records
    requires forall i :: 0 <= i < |q.recordPool.idle| ==> q.recordPool.idle[i] in mp.recordPool.idle
    ensures Valid(q)
  {
    OwnedAppend(mp, q, b, x);
  }

  /** Appending a record that nobody holds to a borrowed batch adds exactly that
      record to the owned ones and keeps the lists unshared. */
  lemma OwnedAppend(mp: MetricObjectPool, q: MetricObjectPool, b: nat, x: nat)
    requires Valid(mp) && b in mp.batchPool.active
    requires x !in mp.recordPool.active
    requires q.batchPool == mp.batchPool
    requires q.batches == mp.batches[b := AddMetrics(mp.batches[b], [x])]
    ensures Owned(q) == Owned(mp) + {x}
    ensures NoSharing(q)
  {
    var L := mp.batches[b].allMetrics;
    assert q.batches[b].allMetrics == L + [x];
    assert x in Owned(q) by {
      assert q.batches[b].allMetrics[|L|] == x;
    }
    forall y | y in Owned(q) ensures y in Owned(mp) + {x} {
      var b', i :| b' in q.batchPool.active && b' in q.batches && 0 <= i < |q.batches[b'].allMetrics|
                   && q.batches[b'].allMetrics[i] == y;
      if b' == b && i < |L| {
        assert mp.batches[b].allMetrics[i] == y;
      }
    }
    forall y | y in Owned(mp) ensures y in Owned(q) {
      var b', i :| b' in mp.batchPool.active && b' in mp.batches && 0 <= i < |mp.batches[b'].allMetrics|
                   && mp.batches[b'].allMetrics[i] == y;
      assert q.batches[b'].allMetrics[i] == y;
    }
    forall b1, b2, i, j |
      && b1 in q.batchPool.active && b2 in q.batchPool.active
      && b1 in q.batches && b2 in q.batches
      && 0 <= i < |q.batches[b1].allMetrics| && 0 <= j < |q.batches[b2].allMetrics|
      && q.batches[b1].allMetrics[i] == q.batches[b2].allMetrics[j]
      ensures b1 == b2 && i == j
    {
      var in1 := b1 != b || i < |L|;
      var in2 := b2 != b || j < |L|;
      if in1 {
        assert q.batches[b1].allMetrics[i] == mp.batches[b1].allMetrics[i];
        assert mp.batches[b1].allMetrics[i] in Owned(mp);
      }
      if in2 {
        assert q.batches[b2].allMetrics[j] == mp.batches[b2].allMetrics[j];
        assert mp.batches[b2].allMetrics[j] in Owned(mp);
      }
    }
  }

  /** Writing into a record that exists (the conversion's setters) keeps the pool
      valid: validity speaks of which records exist, not of what they hold. */
  lemma SetRecordKeepsValid(mp: MetricObjectPool, x: nat, rec: TimelineMetric)
    requires Valid(mp) && x in mp.records
    ensures Valid(mp.(records := mp.records[x := rec]))
  {
    var q := mp.(records := mp.records[x := rec]);
    assert Owned(q) == Owned(mp);
  }

  /** True iff `s` lists no identity twice. */
  predicate Distinct(s: seq<nat>) {
    forall i, j :: 0 <= i < j < |s| ==> s[i] != s[j]
  }

  /** The pool after returning some records, and how many returns were refused
      (each refusal is logged and swallowed). */
  datatype Returned = Returned(pool: MetricObjectPool, failures: nat)

  /** One record back to its pool, passivated; a refused return is swallowed. */
  function ReturnRecord(mp: MetricObjectPool, x: nat): (r: Returned)
    ensures r.pool.batchPool == mp.batchPool && r.pool.batches == mp.batches
    ensures r.failures == (if x in mp.recordPool.active then 0 else 1)
    ensures r.pool.recordPool.active == mp.recordPool.active - {x}
    ensures r.pool.recordPool.idle ==
      (if x in mp.recordPool.active && mp.recordPool.open then [x] + mp.recordPool.idle else mp.recordPool.idle)
    ensures r.pool.recordPool.borrowedCount == mp.recordPool.borrowedCount
    ensures r.pool.recordPool.maxTotal == mp.recordPool.maxTotal
    ensures r.pool.recordPool.open == mp.recordPool.open
    ensures r.pool.recordPool.nextId == mp.recordPool.nextId
    ensures GP.Valid(mp.recordPool) ==> GP.Valid(r.pool.recordPool)
    ensures r.pool.records.Keys == mp.records.Keys
    ensures forall y :: y in mp.records ==>
      r.pool.records[y] ==
        (if y == x && x in mp.recordPool.active then PassivateRecord(mp.records[y]) else mp.records[y])
  {
    match GP.Return(mp.recordPool, x)
    case Err(_) => Returned(mp, 1)
    case Ok(p) =>
      var records := if x in mp.records then mp.records[x := PassivateRecord(mp.records[x])] else mp.records;
      Returned(mp.(recordPool := p, records := records), 0)
  }

  /** The record loop of `returnObjects`: every listed record goes back in order;
      a refused one does not stop the others. */
  function ReturnRecords(mp: MetricObjectPool, xs: seq<nat>): (r: Returned)
    ensures r.pool.batchPool == mp.batchPool && r.pool.batches == mp.batches
    ensures r.pool.recordPool.active == mp.recordPool.active - Elements(xs)
    ensures r.pool.recordPool.borrowedCount == mp.recordPool.borrowedCount
    ensures r.pool.recordPool.maxTotal == mp.recordPool.maxTotal
    ensures r.pool.recordPool.open == mp.recordPool.open
    ensures r.pool.recordPool.nextId == mp.recordPool.nextId
    ensures r.pool.records.Keys == mp.records.Keys
    ensures r.failures <= |xs|
    decreases |xs|
  {
    if xs == [] then Returned(mp, 0)
    else
      var first := ReturnRecord(mp, xs[0]);
      var rest := ReturnRecords(first.pool, xs[1..]);
      assert Elements(xs) == {xs[0]} + Elements(xs[1..]);
      Returned(rest.pool, first.failures + rest.failures)
  }

  /** No return in the loop is refused exactly when the list names each borrowed
      record at most once and nothing else. */
  lemma {:induction false} ReturnRecordsFailures(mp: MetricObjectPool, xs: seq<nat>)
    ensures ReturnRecords(mp, xs).failures == 0 <==>
      Distinct(xs) && forall k :: 0 <= k < |xs| ==> xs[k] in mp.recordPool.active
    decreases |xs|
  {
    if xs != [] {
      var first := ReturnRecord(mp, xs[0]);
      ReturnRecordsFailures(first.pool, xs[1..]);
      DistinctCons(xs);
      if xs[0] in mp.recordPool.active {
        AllInCons(xs, mp.recordPool.active, first.pool.recordPool.active);
      }
    }
  }

  /** A non-empty list is distinct iff its head is not in its tail and its tail is distinct. */
  lemma DistinctCons(xs: seq<nat>)
    requires xs != []
    ensures Distinct(xs) <==> xs[0] !in xs[1..] && Distinct(xs[1..])
  {
    if xs[0] !in xs[1..] && Distinct(xs[1..]) {
      forall i, j | 0 <= i < j < |xs| ensures xs[i] != xs[j] {
        if i > 0 { assert xs[i] == xs[1..][i-1] && xs[j] == xs[1..][j-1]; }
        else { assert xs[j] == xs[1..][j-1]; }
      }
    }
    if Distinct(xs) {
      forall i, j | 0 <= i < j < |xs[1..]| ensures xs[1..][i] != xs[1..][j] {
        assert xs[1..][i] == xs[i+1] && xs[1..][j] == xs[j+1];
      }
      forall j | 0 <= j < |xs[1..]| ensures xs[1..][j] != xs[0] {
        assert xs[1..][j] == xs[j+1];
      }
    }
  }

  /** With the head in `A` and `A'` being `A` without it: all of a list is in `A`
      and its head is not repeated iff all of its tail is in `A'`. */
  lemma AllInCons(xs: seq<nat>, A: set<nat>, A': set<nat>)
    requires xs != [] && xs[0] in A && A' == A - {xs[0]}
    ensures (forall k :: 0 <= k < |xs| ==> xs[k] in A) && xs[0] !in xs[1..]
      <==> forall k :: 0 <= k < |xs[1..]| ==> xs[1..][k] in A'
  {
    if forall k :: 0 <= k < |xs[1..]| ==> xs[1..][k] in A' {
      forall k | 0 <= k < |xs| ensures xs[k] in A {
        if k > 0 { assert xs[k] == xs[1..][k-1]; }
      }
    }
    if (forall k :: 0 <= k < |xs| ==> xs[k] in A) && xs[0] !in xs[1..] {
      forall k | 0 <= k < |xs[1..]| ensures xs[1..][k] in A' {
        assert xs[1..][k] == xs[k+1];
      }
    }
  }

  /** The records the loop gives back become idle in an open pool (most recent
      first) and are destroyed by a closed one; the idle list stays well formed. */
  lemma {:induction false} ReturnRecordsIdle(mp: MetricObjectPool, xs: seq<nat>)
    ensures var r := ReturnRecords(mp, xs);
      && (mp.recordPool.open ==> |r.pool.recordPool.idle| == |mp.recordPool.idle| + |xs| - r.failures)
      && (!mp.recordPool.open ==> r.pool.recordPool.idle == mp.recordPool.idle)
      && (GP.Valid(mp.recordPool) ==> GP.Valid(r.pool.recordPool))
      && (forall i :: 0 <= i < |r.pool.recordPool.idle| ==>
            r.pool.recordPool.idle[i] in mp.recordPool.idle || r.pool.recordPool.idle[i] in mp.recordPool.active)
    decreases |xs|
  {
    if xs != [] {
      var first := ReturnRecord(mp, xs[0]);
      ReturnRecordsIdle(first.pool, xs[1..]);
      var r := ReturnRecords(mp, xs);
      forall i | 0 <= i < |r.pool.recordPool.idle|
        ensures r.pool.recordPool.idle[i] in mp.recordPool.idle || r.pool.recordPool.idle[i] in mp.recordPool.active
      {
        var y := r.pool.recordPool.idle[i];
        assert y in first.pool.recordPool.idle || y in first.pool.recordPool.active;
      }
    }
  }

  /** The loop passivates each record it gives back and touches no other. */
  lemma {:induction false} ReturnRecordsPassivates(mp: MetricObjectPool, xs: seq<nat>)
    ensures forall y :: y in mp.records ==>
      ReturnRecords(mp, xs).pool.records[y] ==
        (if y in mp.recordPool.active && y in xs then PassivateRecord(mp.records[y]) else mp.records[y])
    decreases |xs|
  {
    if xs != [] {
      var first := ReturnRecord(mp, xs[0]);
      ReturnRecordsPassivates(first.pool, xs[1..]);
    }
  }

  /** The outcome of `returnObjects`: the pool and the exception it let escape. */
  datatype Released = Released(pool: MetricObjectPool, thrown: Option<Exception>)

  /** The batch step of `returnObjects`: the batch goes back to its pool and is
      passivated; the record objects are not touched. */
  function ReturnBatch(mp: MetricObjectPool, b: nat): (r: Released)
    requires b in mp.batches
    ensures r.thrown.None? <==> b in mp.batchPool.active
    ensures r.thrown.Some? ==> r == Released(mp, Some(IllegalState))
    ensures r.thrown.None? ==>
      && r.pool.batchPool.active == mp.batchPool.active - {b}
      && r.pool.batches == mp.batches[b := PassivateBatch(mp.batches[b])]
    ensures r.thrown.None? ==>
      r.pool.batchPool.idle == (if mp.batchPool.open then [b] + mp.batchPool.idle else mp.batchPool.idle)
    ensures r.pool.records == mp.records && r.pool.recordPool == mp.recordPool
    ensures GP.Valid(mp.batchPool) ==> GP.Valid(r.pool.batchPool)
  {
    match GP.Return(mp.batchPool, b)
    case Err(e) => Released(mp, Some(e))
    case Ok(p) => Released(mp.(batchPool := p, batches := mp.batches[b := PassivateBatch(mp.batches[b])]), None)
  }

  /** `returnObjects(b)`: nothing for null; otherwise every record listed by `b`
      (failures swallowed), then `b` itself, whose refusal escapes. */
  function ReturnObjects(mp: MetricObjectPool, b: Option<nat>): (r: Released)
    requires b.Some? ==> b.value in mp.batches
    ensures b.None? ==> r == Released(mp, None)
    ensures r.thrown.Some? ==> r.thrown == Some(IllegalState)
    ensures b.Some? ==>
      && (r.thrown.None? <==> b.value in mp.batchPool.active)
      && r.pool.batchPool.active == mp.batchPool.active - {b.value}
      && r.pool.recordPool.active == mp.recordPool.active - Elements(mp.batches[b.value].allMetrics)
      && (forall x :: x in mp.batches && x != b.value ==> x in r.pool.batches && r.pool.batches[x] == mp.batches[x])
      && b.value in r.pool.batches
    ensures r.pool.batchPool.borrowedCount == mp.batchPool.borrowedCount
    ensures r.pool.recordPool.borrowedCount == mp.recordPool.borrowedCount
    ensures r.pool.batchPool.maxTotal == mp.batchPool.maxTotal && r.pool.batchPool.open == mp.batchPool.open
    ensures r.pool.recordPool.maxTotal == mp.recordPool.maxTotal && r.pool.recordPool.open == mp.recordPool.open
  {
    match b
    case None => Released(mp, None)
    case Some(id) =>
      var L := mp.batches[id].allMetrics;
      var recs := ReturnRecords(mp, L);
      var res := ReturnBatch(recs.pool, id);
      res
  }

  /** `returnObjects` keeps the pool valid; on a valid pool, handing it a batch that
      is not borrowed (one already returned, say) changes nothing and throws. */
  lemma ReturnObjectsValid(mp: MetricObjectPool, b: Option<nat>)
    requires Valid(mp) && (b.Some? ==> b.value in mp.batches)
    ensures Valid(ReturnObjects(mp, b).pool)
    ensures b.Some? && b.value !in mp.batchPool.active ==> ReturnObjects(mp, b) == Released(mp, Some(IllegalState))
  {
    if b.Some? && b.value in mp.batchPool.active {
      ReleaseKeepsValid(mp, b.value);
    } else if b.Some? {
      NotBorrowedIsRefused(mp, b.value);
    }
  }

  /** In a valid pool a batch that is not borrowed lists no record, so returning
      it gives nothing back and is refused. */
  lemma NotBorrowedIsRefused(mp: MetricObjectPool, b: nat)
    requires Valid(mp) && b in mp.batches && b !in mp.batchPool.active
    ensures ReturnBatch(ReturnRecords(mp, mp.batches[b].allMetrics).pool, b) == Released(mp, Some(IllegalState))
  {
    assert mp.batches[b].allMetrics == [];
  }

  /** Giving back a borrowed batch, whose records nobody else lists, takes exactly
      its records out of the owned ones. */
  lemma OwnedRemoveBatch(mp: MetricObjectPool, q: MetricObjectPool, b: nat)
    requires NoSharing(mp) && b in mp.batchPool.active && b in mp.batches
    requires q.batchPool.active == mp.batchPool.active - {b}
    requires q.batches == mp.batches[b := PassivateBatch(mp.batches[b])]
    ensures Owned(q) == Owned(mp) - Elements(mp.batches[b].allMetrics)
    ensures NoSharing(q)
  {
    var L := mp.batches[b].allMetrics;
    forall y | y in Owned(q) ensures y in Owned(mp) && y !in L {
      var b', i :| b' in q.batchPool.active && b' in q.batches && 0 <= i < |q.batches[b'].allMetrics|
                   && q.batches[b'].allMetrics[i] == y;
      assert mp.batches[b'].allMetrics[i] == y;
      forall k | 0 <= k < |L| ensures L[k] != y {
        assert mp.batches[b].allMetrics[k] == L[k];
      }
    }
    forall y | y in Owned(mp) && y !in L ensures y in Owned(q) {
      var b', i :| b' in mp.batchPool.active && b' in mp.batches && 0 <= i < |mp.batches[b'].allMetrics|
                   && mp.batches[b'].allMetrics[i] == y;
      assert b' != b;
      assert q.batches[b'].allMetrics[i] == y;
    }
  }

  /** Returning a borrowed batch together with its records keeps the pool valid. */
  lemma ReleaseKeepsValid(mp: MetricObjectPool, b: nat)
    requires Valid(mp) && b in mp.batchPool.active
    ensures Valid(ReturnBatch(ReturnRecords(mp, mp.batches[b].allMetrics).pool, b).pool)
  {
    var L := mp.batches[b].allMetrics;
    var mid := ReturnRecords(mp, L).pool;
    var q := ReturnBatch(mid, b).pool;
    RecordsReturnedExist(mp, L);
    assert q.batchPool.active == mp.batchPool.active - {b};
    assert q.batches == mp.batches[b := PassivateBatch(mp.batches[b])];
    OwnedRemoveBatch(mp, q, b);
    assert Owned(mp) == mp.recordPool.active;
    assert q.recordPool.active == Owned(q);
    assert q.batchPool.idle == [b] + mp.batchPool.idle || q.batchPool.idle == mp.batchPool.idle;
    IdleStillExists(mp.batchPool.idle, q.batchPool.idle, b, mp.batches.Keys, q.batches.Keys);
  }

  /** An idle stack whose entries all exist still does after one existing entry
      is pushed on it. */
  lemma IdleStillExists(idle: seq<nat>, idle': seq<nat>, b: nat, keys: set<nat>, keys': set<nat>)
    requires forall i :: 0 <= i < |idle| ==> idle[i] in keys
    requires b in keys' && keys <= keys'
    requires idle' == [b] + idle || idle' == idle
    ensures forall i :: 0 <= i < |idle'| ==> idle'[i] in keys'
  {
    if idle' == [b] + idle {
      forall i | 0 < i < |idle'| ensures idle'[i] in keys' {
        assert idle'[i] == idle[i - 1];
      }
    }
  }

  /** After the record loop on a valid pool, the record pool is consistent and
      every record it holds, borrowed or idle, still exists. */
  lemma RecordsReturnedExist(mp: MetricObjectPool, L: seq<nat>)
    requires Valid(mp)
    ensures var mid := ReturnRecords(mp, L).pool;
      && GP.Valid(mid.recordPool)
      && (forall r :: r in mid.recordPool.active ==> r in mid.records)
      && (forall i :: 0 <= i < |mid.recordPool.idle| ==> mid.recordPool.idle[i] in mid.records)
  {
    var mid := ReturnRecords(mp, L).pool;
    ReturnRecordsIdle(mp, L);
    forall i | 0 <= i < |mid.recordPool.idle| ensures mid.recordPool.idle[i] in mid.records {
      var x := mid.recordPool.idle[i];
      assert x in mp.recordPool.idle || x in mp.recordPool.active;
      if x in mp.recordPool.idle {
        var j :| 0 <= j < |mp.recordPool.idle| && mp.recordPool.idle[j] == x;
      }
    }
  }

  /** The identities a list names. */
  function Elements(s: seq<nat>): set<nat> {
    set x | x in s
  }

  /** A list without repetitions has as many elements as entries. */
  lemma {:induction false} DistinctCard(s: seq<nat>)
    requires Distinct(s)
    ensures |Elements(s)| == |s|
    decreases |s|
  {
    if s != [] {
      var T := Elements(s[1..]);
      assert Elements(s) == {s[0]} + T;
      assert s[0] !in T by {
        forall j | 0 <= j < |s[1..]| ensures s[1..][j] != s[0] {
          assert s[1..][j] == s[j+1];
        }
      }
      assert Distinct(s[1..]) by {
        forall i, j | 0 <= i < j < |s[1..]| ensures s[1..][i] != s[1..][j] {
          assert s[1..][i] == s[i+1] && s[1..][j] == s[j+1];
        }
      }
      DistinctCard(s[1..]);
    }
  }

  /** In a valid pool a borrowed batch lists borrowed records, none twice. */
  lemma BorrowedBatchRecords(mp: MetricObjectPool, b: nat)
    requires Valid(mp) && b in mp.batchPool.active
    ensures Distinct(mp.batches[b].allMetrics)
    ensures forall k :: 0 <= k < |mp.batches[b].allMetrics| ==> mp.batches[b].allMetrics[k] in mp.recordPool.active
  {
    var L := mp.batches[b].allMetrics;
    forall k | 0 <= k < |L| ensures L[k] in mp.recordPool.active {
      assert L[k] in Owned(mp);
    }
  }

  /** Returning a borrowed batch gives back the batch and every record it lists,
      each exactly once: nothing is thrown, the active counts fall by one batch and
      by the batch's length, and an open pool keeps them all idle. */
  lemma ReturnObjectsReleases(mp: MetricObjectPool, b: nat)
    requires Valid(mp) && b in mp.batchPool.active
    ensures
      var r := ReturnObjects(mp, Some(b));
      && r.thrown.None?
      && GP.NumActive(r.pool.batchPool) == GP.NumActive(mp.batchPool) - 1
      && GP.NumActive(r.pool.recordPool) == GP.NumActive(mp.recordPool) - |mp.batches[b].allMetrics|
      && (mp.batchPool.open ==> GP.NumIdle(r.pool.batchPool) == GP.NumIdle(mp.batchPool) + 1)
      && (mp.recordPool.open ==> GP.NumIdle(r.pool.recordPool) == GP.NumIdle(mp.recordPool) + |mp.batches[b].allMetrics|)
  {
    BorrowedBatchRecords(mp, b);
    ReleaseCounts(mp, b);
  }

  /** The counting behind `ReturnObjectsReleases`, for a borrowed batch listing
      distinct borrowed records. */
  lemma ReleaseCounts(mp: MetricObjectPool, b: nat)
    requires b in mp.batches && b in mp.batchPool.active
    requires Distinct(mp.batches[b].allMetrics)
    requires forall k :: 0 <= k < |mp.batches[b].allMetrics| ==> mp.batches[b].allMetrics[k] in mp.recordPool.active
    ensures
      var r := ReturnObjects(mp, Some(b));
      && r.thrown.None?
      && GP.NumActive(r.pool.batchPool) == GP.NumActive(mp.batchPool) - 1
      && GP.NumActive(r.pool.recordPool) == GP.NumActive(mp.recordPool) - |mp.batches[b].allMetrics|
      && (mp.batchPool.open ==> GP.NumIdle(r.pool.batchPool) == GP.NumIdle(mp.batchPool) + 1)
      && (mp.recordPool.open ==> GP.NumIdle(r.pool.recordPool) == GP.NumIdle(mp.recordPool) + |mp.batches[b].allMetrics|)
  {
    var recs := ReturnRecords(mp, mp.batches[b].allMetrics);
    RecordCounts(mp, mp.batches[b].allMetrics);
    assert ReturnObjects(mp, Some(b)) == ReturnBatch(recs.pool, b);
  }

  /** Returning distinct borrowed records: none fails, and each moves from the
      active set to the idle stack (when the pool is open). */
  lemma RecordCounts(mp: MetricObjectPool, L: seq<nat>)
    requires Distinct(L)
    requires forall k :: 0 <= k < |L| ==> L[k] in mp.recordPool.active
    ensures
      var r := ReturnRecords(mp, L);
      && r.failures == 0
      && GP.NumActive(r.pool.recordPool) == GP.NumActive(mp.recordPool) - |L|
      && (mp.recordPool.open ==> GP.NumIdle(r.pool.recordPool) == GP.NumIdle(mp.recordPool) + |L|)
  {
    var S := Elements(L);
    ReturnRecordsFailures(mp, L);
    ReturnRecordsIdle(mp, L);
    DistinctCard(L);
    assert S <= mp.recordPool.active;
    assert mp.recordPool.active == (mp.recordPool.active - S) + S;
  }

  /** Returning a borrowed batch passivates the batch and every record it lists. */
  lemma ReturnObjectsPassivates(mp: MetricObjectPool, b: nat)
    requires Valid(mp) && b in mp.batchPool.active
    ensures
      var r := ReturnObjects(mp, Some(b)); var L := mp.batches[b].allMetrics;
      && b in r.pool.batches && r.pool.batches[b].allMetrics == []
      && (forall k :: 0 <= k < |L| ==>
            L[k] in mp.records && L[k] in r.pool.records && r.pool.records[L[k]] == PassivateRecord(mp.records[L[k]]))
  {
    var L := mp.batches[b].allMetrics;
    BorrowedBatchRecords(mp, b);
    ReturnRecordsPassivates(mp, L);
  }

  /** Two distinct borrowed batches listing distinct borrowed records, none in both. */
  ghost predicate DisjointBatches(mp: MetricObjectPool, b1: nat, b2: nat) {
    && b1 != b2 && b1 in mp.batches && b2 in mp.batches
    && b1 in mp.batchPool.active && b2 in mp.batchPool.active
    && Distinct(mp.batches[b1].allMetrics) && Distinct(mp.batches[b2].allMetrics)
    && (forall k :: 0 <= k < |mp.batches[b1].allMetrics| ==> mp.batches[b1].allMetrics[k] in mp.recordPool.active)
    && (forall k :: 0 <= k < |mp.batches[b2].allMetrics| ==> mp.batches[b2].allMetrics[k] in mp.recordPool.active)
    && (forall i, j :: 0 <= i < |mp.batches[b1].allMetrics| && 0 <= j < |mp.batches[b2].allMetrics| ==>
          mp.batches[b1].allMetrics[i] != mp.batches[b2].allMetrics[j])
  }

  /** In a valid pool any two borrowed batches are disjoint in that sense. */
  lemma ValidBatchesDisjoint(mp: MetricObjectPool, b1: nat, b2: nat)
    requires Valid(mp) && b1 != b2 && b1 in mp.batchPool.active && b2 in mp.batchPool.active
    ensures DisjointBatches(mp, b1, b2)
  {
    BorrowedBatchRecords(mp, b1);
    BorrowedBatchRecords(mp, b2);
    var L1, L2 := mp.batches[b1].allMetrics, mp.batches[b2].allMetrics;
    forall i, j | 0 <= i < |L1| && 0 <= j < |L2| ensures L1[i] != L2[j] {
      assert NoSharing(mp);
    }
  }

  /** Two disjoint borrowed batches returned one after the other: each return
      throws nothing, takes one batch and its records out of the active counts and,
      in open pools, adds them to the idle counts; borrow counts never move. */
  lemma ReturnTwoBatches(mp: MetricObjectPool, b1: nat, b2: nat)
    requires DisjointBatches(mp, b1, b2)
    ensures
      var r1, n1, n2 := ReturnObjects(mp, Some(b1)), |mp.batches[b1].allMetrics|, |mp.batches[b2].allMetrics|;
      && r1.thrown.None?
      && GP.NumActive(r1.pool.batchPool) == GP.NumActive(mp.batchPool) - 1
      && GP.NumActive(r1.pool.recordPool) == GP.NumActive(mp.recordPool) - n1
      && (mp.batchPool.open ==> GP.NumIdle(r1.pool.batchPool) == GP.NumIdle(mp.batchPool) + 1)
      && (mp.recordPool.open ==> GP.NumIdle(r1.pool.recordPool) == GP.NumIdle(mp.recordPool) + n1)
      && b2 in r1.pool.batches
      && var r2 := ReturnObjects(r1.pool, Some(b2));
      && r2.thrown.None?
      && GP.NumActive(r2.pool.batchPool) == GP.NumActive(mp.batchPool) - 2
      && GP.NumActive(r2.pool.recordPool) == GP.NumActive(mp.recordPool) - n1 - n2
      && (mp.batchPool.open ==> GP.NumIdle(r2.pool.batchPool) == GP.NumIdle(mp.batchPool) + 2)
      && (mp.recordPool.open ==> GP.NumIdle(r2.pool.recordPool) == GP.NumIdle(mp.recordPool) + n1 + n2)
      && r2.pool.batchPool.borrowedCount == mp.batchPool.borrowedCount
      && r2.pool.recordPool.borrowedCount == mp.recordPool.borrowedCount
  {
    var L1, L2 := mp.batches[b1].allMetrics, mp.batches[b2].allMetrics;
    ReleaseCounts(mp, b1);
    var r1 := ReturnObjects(mp, Some(b1));
    assert r1.pool.batches[b2] == mp.batches[b2];
    forall k | 0 <= k < |L2| ensures L2[k] in r1.pool.recordPool.active {
      assert L2[k] !in Elements(L1);
    }
    ReleaseCounts(r1.pool, b2);
  }

  /** The idle and borrowed numbers of batches and records of `mp`. */
  predicate Counts(mp: MetricObjectPool, idleBatches: int, idleRecords: int, activeBatches: int, activeRecords: int) {
    && GP.NumIdle(mp.batchPool) == idleBatches && GP.NumIdle(mp.recordPool) == idleRecords
    && GP.NumActive(mp.batchPool) == activeBatches && GP.NumActive(mp.recordPool) == activeRecords
  }

  /** `returnTimelineMetrics`: two batches of two records each borrowed from open
      pools with nothing idle; returning the first leaves one batch and two
      records borrowed and as many idle, returning the second leaves none
      borrowed, two batches and four records idle, and two and four borrows. */
  lemma ReturnTimelineMetrics(mp: MetricObjectPool, b1: nat, b2: nat)
    requires Valid(mp) && mp.batchPool.open && mp.recordPool.open
    requires b1 != b2 && mp.batchPool.active == {b1, b2} && GP.NumActive(mp.recordPool) == 4
    requires |mp.batches[b1].allMetrics| == 2 && |mp.batches[b2].allMetrics| == 2
    requires GP.NumIdle(mp.batchPool) == 0 && GP.NumIdle(mp.recordPool) == 0
    requires mp.batchPool.borrowedCount == 2 && mp.recordPool.borrowedCount == 4
    ensures var r1 := ReturnObjects(mp, Some(b1));
      && Counts(r1.pool, 1, 2, 1, 2)
      && var r2 := ReturnObjects(r1.pool, Some(b2));
      && Counts(r2.pool, 2, 4, 0, 0)
      && r2.pool.batchPool.borrowedCount == 2 && r2.pool.recordPool.borrowedCount == 4
  {
    ValidBatchesDisjoint(mp, b1, b2);
    ReturnTwoBatches(mp, b1, b2);
    var r1 := ReturnObjects(mp, Some(b1));
    CountsAfter(mp, r1.pool, ReturnObjects(r1.pool, Some(b2)).pool);
  }

  /** The arithmetic of `ReturnTimelineMetrics`. */
  lemma CountsAfter(p0: MetricObjectPool, p1: MetricObjectPool, p2: MetricObjectPool)
    requires Counts(p0, 0, 0, 2, 4)
    requires GP.NumActive(p1.batchPool) == GP.NumActive(p0.batchPool) - 1
    requires GP.NumActive(p1.recordPool) == GP.NumActive(p0.recordPool) - 2
    requires GP.NumIdle(p1.batchPool) == GP.NumIdle(p0.batchPool) + 1
    requires GP.NumIdle(p1.recordPool) == GP.NumIdle(p0.recordPool) + 2
    requires GP.NumActive(p2.batchPool) == GP.NumActive(p0.batchPool) - 2
    requires GP.NumActive(p2.recordPool) == GP.NumActive(p0.recordPool) - 2 - 2
    requires GP.NumIdle(p2.batchPool) == GP.NumIdle(p0.batchPool) + 2
    requires GP.NumIdle(p2.recordPool) == GP.NumIdle(p0.recordPool) + 2 + 2
    ensures Counts(p1, 1, 2, 1, 2) && Counts(p2, 2, 4, 0, 0)
  {
  }

  /** `close`: both pools drop their idle objects and refuse further borrows;
      borrowed objects and borrow counts stay as they were. */
  function Close(mp: MetricObjectPool): (r: MetricObjectPool)
    ensures GP.NumIdle(r.batchPool) == 0 && GP.NumIdle(r.recordPool) == 0
    ensures !r.batchPool.open && !r.recordPool.open
    ensures r.batchPool.active == mp.batchPool.active && r.recordPool.active == mp.recordPool.active
    ensures r.batchPool.borrowedCount == mp.batchPool.borrowedCount
    ensures r.recordPool.borrowedCount == mp.recordPool.borrowedCount
    ensures Valid(mp) ==> Valid(r)
  {
    var r := mp.(batchPool := GP.Close(mp.batchPool), recordPool := GP.Close(mp.recordPool));
    assert Owned(r) == Owned(mp);
    r
  }
}
