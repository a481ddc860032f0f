/** Laws of `MetricBuffer` over a run of adds: what a flush then returns, and
    which type each name keeps. */
module BufferLaws {
  import opened Wrappers
  import opened Domain
  import opened Buffer

  /** The metrics, in order, added one at a time. */
  function AddAll(b: MetricBuffer, ms: seq<Metric>): (r: MetricBuffer)
    ensures Size(r) == Size(b) + |ms|
    decreases |ms|
  {
    if ms == [] then b else Add(AddAll(b, ms[..|ms| - 1]), ms[|ms| - 1])
  }

  /** Some metric in `ms` carries `name`. */
  ghost predicate Mentions(ms: seq<Metric>, name: string) {
    exists k :: 0 <= k < |ms| && ms[k].name == name
  }

  /** Some metric in `ms` carries `name` and timestamp `t`. */
  ghost predicate MentionsAt(ms: seq<Metric>, name: string, t: int) {
    exists k :: 0 <= k < |ms| && ms[k].name == name && ms[k].timestamp == t
  }

  /** `ms[k]` is the last metric of `ms` with its name and timestamp. */
  ghost predicate LastAt(ms: seq<Metric>, k: int) {
    && 0 <= k < |ms|
    && forall j :: k < j < |ms| ==> !(ms[j].name == ms[k].name && ms[j].timestamp == ms[k].timestamp)
  }

  /** Mentions of the last metric split off. */
  lemma MentionsSnoc(ms: seq<Metric>, n: string, t: int)
    requires ms != []
    ensures Mentions(ms, n) <==> Mentions(ms[..|ms| - 1], n) || ms[|ms| - 1].name == n
    ensures MentionsAt(ms, n, t) <==>
      MentionsAt(ms[..|ms| - 1], n, t) || (ms[|ms| - 1].name == n && ms[|ms| - 1].timestamp == t)
  {
    var init := ms[..|ms| - 1];
    if Mentions(ms, n) {
      var k :| 0 <= k < |ms| && ms[k].name == n;
      if k < |init| { assert init[k] == ms[k]; }
    }
    if Mentions(init, n) {
      var k :| 0 <= k < |init| && init[k].name == n;
      assert ms[k] == init[k];
    }
    if MentionsAt(ms, n, t) {
      var k :| 0 <= k < |ms| && ms[k].name == n && ms[k].timestamp == t;
      if k < |init| { assert init[k] == ms[k]; }
    }
    if MentionsAt(init, n, t) {
      var k :| 0 <= k < |init| && init[k].name == n && init[k].timestamp == t;
      assert ms[k] == init[k];
    }
  }

  /** After a run of adds a name has a series iff it had one or was added. */
  lemma {:induction false} AddAllNames(b: MetricBuffer, ms: seq<Metric>)
    ensures forall n :: n in AddAll(b, ms).series <==> n in b.series || Mentions(ms, n)
    decreases |ms|
  {
    if ms != [] {
      AddAllNames(b, ms[..|ms| - 1]);
      forall n ensures Mentions(ms, n) <==> Mentions(ms[..|ms| - 1], n) || ms[|ms| - 1].name == n {
        MentionsSnoc(ms, n, 0);
      }
    }
  }

  /** After a run of adds a sample is present iff it was present or was added. */
  lemma {:induction false} AddAllSamples(b: MetricBuffer, ms: seq<Metric>)
    ensures forall n, t :: n in AddAll(b, ms).series ==>
      (t in AddAll(b, ms).series[n] <==> (n in b.series && t in b.series[n]) || MentionsAt(ms, n, t))
    decreases |ms|
  {
    if ms != [] {
      var init := ms[..|ms| - 1];
      AddAllSamples(b, init);
      AddAllNames(b, init);
      forall n, t ensures MentionsAt(ms, n, t) <==>
        MentionsAt(init, n, t) || (ms[|ms| - 1].name == n && ms[|ms| - 1].timestamp == t) {
        MentionsSnoc(ms, n, t);
      }
      forall n, t | n in AddAll(b, ms).series && t in AddAll(b, ms).series[n] && !MentionsAt(ms, n, t)
        ensures n in b.series && t in b.series[n]
      {
        assert !MentionsAt(ms, n, t);
      }
    }
  }

  /** No two metrics of `ms` share a name and a timestamp: no add overwrites another. */
  ghost predicate NoOverwrite(ms: seq<Metric>) {
    forall i, j :: 0 <= i < j < |ms| ==> !(ms[i].name == ms[j].name && ms[i].timestamp == ms[j].timestamp)
  }

  /** The samples held equal the count of adds as long as no add overwrites:
      neither another add of the run nor a sample already held. */
  lemma {:induction false} AddAllExact(b: MetricBuffer, ms: seq<Metric>)
    requires |Entries(b)| == Size(b) && NoOverwrite(ms)
    requires forall k :: 0 <= k < |ms| ==> (ms[k].name, ms[k].timestamp) !in Entries(b)
    ensures |Entries(AddAll(b, ms))| == Size(AddAll(b, ms))
    decreases |ms|
  {
    if ms != [] {
      var init, m := ms[..|ms| - 1], ms[|ms| - 1];
      assert NoOverwrite(init) by {
        forall i, j | 0 <= i < j < |init| ensures !(init[i].name == init[j].name && init[i].timestamp == init[j].timestamp) {
          assert init[i] == ms[i] && init[j] == ms[j];
        }
      }
      assert forall k :: 0 <= k < |init| ==> init[k] == ms[k];
      AddAllExact(b, init);
      var mid := AddAll(b, init);
      AddAllSamples(b, init);
      assert !MentionsAt(init, m.name, m.timestamp) by {
        forall k | 0 <= k < |init| ensures !(init[k].name == m.name && init[k].timestamp == m.timestamp) {
          assert init[k] == ms[k];
        }
      }
      assert !(m.name in b.series && m.timestamp in b.series[m.name]) by {
        assert (m.name, m.timestamp) !in Entries(b);
      }
      assert (m.name, m.timestamp) !in Entries(mid);
      AddEntries(mid, m);
    }
  }

  /** From a drained, empty buffer, a run of adds that never overwrites holds
      exactly as many samples as `size()` reports. */
  lemma DrainedAddsExact(b: MetricBuffer, ms: seq<Metric>)
    requires Drained(b) && Size(b) == 0 && NoOverwrite(ms)
    ensures |Entries(AddAll(b, ms))| == Size(AddAll(b, ms)) == |ms|
  {
    assert Entries(b) == {};
    AddAllExact(b, ms);
  }

  /** After a run of adds every sample added holds the value of the last metric
      added with its name and timestamp. */
  lemma {:induction false} AddAllLastWins(b: MetricBuffer, ms: seq<Metric>)
    ensures forall k :: LastAt(ms, k) ==>
      ms[k].name in AddAll(b, ms).series && ms[k].timestamp in AddAll(b, ms).series[ms[k].name]
      && AddAll(b, ms).series[ms[k].name][ms[k].timestamp] == ms[k].value.doubleValue
    decreases |ms|
  {
    if ms != [] {
      var init, m := ms[..|ms| - 1], ms[|ms| - 1];
      AddAllLastWins(b, init);
      var r := AddAll(b, ms);
      forall k | LastAt(ms, k)
        ensures ms[k].name in r.series && ms[k].timestamp in r.series[ms[k].name]
             && r.series[ms[k].name][ms[k].timestamp] == ms[k].value.doubleValue
      {
        if k < |init| {
          assert init[k] == ms[k];
          assert LastAt(init, k) by {
            forall j | k < j < |init| ensures !(init[j].name == init[k].name && init[j].timestamp == init[k].timestamp) {
              assert init[j] == ms[j];
            }
          }
          assert !(m.name == ms[k].name && m.timestamp == ms[k].timestamp);
        }
      }
    }
  }

  /** Flushing after a run of adds into a drained buffer returns exactly what was
      added: the names added, for each the timestamps added, and for each sample the
      last value added. */
  lemma FlushReturnsAdded(b: MetricBuffer, ms: seq<Metric>)
    requires Drained(b)
    ensures var r := Flush(AddAll(b, ms));
      && (forall n :: n in r.snapshot <==> Mentions(ms, n))
      && (forall n, t :: n in r.snapshot ==> (t in r.snapshot[n] <==> MentionsAt(ms, n, t)))
      && (forall k :: LastAt(ms, k) ==>
            && ms[k].name in r.snapshot && ms[k].timestamp in r.snapshot[ms[k].name]
            && r.snapshot[ms[k].name][ms[k].timestamp] == ms[k].value.doubleValue)
  {
    FlushReturnsSamples(b, ms);
    FlushReturnsNames(b, ms);
    FlushReturnsLastValues(b, ms);
  }

  /** The samples part of `FlushReturnsAdded`. */
  lemma FlushReturnsSamples(b: MetricBuffer, ms: seq<Metric>)
    requires Drained(b)
    ensures var r := Flush(AddAll(b, ms));
      forall n, t :: n in r.snapshot ==> (t in r.snapshot[n] <==> MentionsAt(ms, n, t))
  {
    AddAllSamples(b, ms);
  }

  /** The names part of `FlushReturnsAdded`. */
  lemma FlushReturnsNames(b: MetricBuffer, ms: seq<Metric>)
    requires Drained(b)
    ensures forall n :: n in Flush(AddAll(b, ms)).snapshot <==> Mentions(ms, n)
  {
    forall n ensures n in Flush(AddAll(b, ms)).snapshot <==> Mentions(ms, n) {
      if Mentions(ms, n) { AddedNameIsFlushed(b, ms, n); }
      if n in Flush(AddAll(b, ms)).snapshot { FlushedNameWasAdded(b, ms, n); }
    }
  }

  /** A name added is in the snapshot. */
  lemma AddedNameIsFlushed(b: MetricBuffer, ms: seq<Metric>, n: string)
    requires Mentions(ms, n)
    ensures n in Flush(AddAll(b, ms)).snapshot
  {
    var a := AddAll(b, ms);
    var k :| 0 <= k < |ms| && ms[k].name == n;
    assert MentionsAt(ms, n, ms[k].timestamp);
    assert n in a.series && ms[k].timestamp in a.series[n] by {
      AddAllNames(b, ms);
      AddAllSamples(b, ms);
    }
  }

  /** A name in the snapshot of a drained buffer was added. */
  lemma FlushedNameWasAdded(b: MetricBuffer, ms: seq<Metric>, n: string)
    requires Drained(b)
    requires n in Flush(AddAll(b, ms)).snapshot
    ensures Mentions(ms, n)
  {
    var a := AddAll(b, ms);
    assert n in a.series && |a.series[n]| > 0;
    NonEmptySeriesWasAdded(b, ms, n);
  }

  /** A name holding samples after a run of adds either held samples before or was added. */
  lemma {:induction false} NonEmptySeriesWasAdded(b: MetricBuffer, ms: seq<Metric>, n: string)
    requires n in AddAll(b, ms).series && |AddAll(b, ms).series[n]| > 0
    ensures Mentions(ms, n) || (n in b.series && |b.series[n]| > 0)
    decreases |ms|
  {
    if ms != [] {
      var init, m := ms[..|ms| - 1], ms[|ms| - 1];
      MentionsSnoc(ms, n, 0);
      if m.name != n {
        NonEmptySeriesWasAdded(b, init, n);
      }
    }
  }

  /** A name mentioned at some timestamp is mentioned. */
  lemma MentionedAtIsMentioned(ms: seq<Metric>, n: string, t: int)
    requires MentionsAt(ms, n, t)
    ensures Mentions(ms, n)
  {
    var k :| 0 <= k < |ms| && ms[k].name == n && ms[k].timestamp == t;
  }

  /** A sample held after a run of adds into a drained buffer was added. */
  lemma SampleWasAdded(b: MetricBuffer, ms: seq<Metric>, n: string, t: int)
    requires Drained(b)
    requires n in AddAll(b, ms).series && t in AddAll(b, ms).series[n]
    ensures MentionsAt(ms, n, t)
  {
    AddAllSamples(b, ms);
  }

  /** The values part of `FlushReturnsAdded`. */
  lemma FlushReturnsLastValues(b: MetricBuffer, ms: seq<Metric>)
    ensures var r := Flush(AddAll(b, ms));
      forall k :: LastAt(ms, k) ==>
        && ms[k].name in r.snapshot && ms[k].timestamp in r.snapshot[ms[k].name]
        && r.snapshot[ms[k].name][ms[k].timestamp] == ms[k].value.doubleValue
  {
    AddAllLastWins(b, ms);
  }

  /** Adds keep counting, and the type recorded for a name is the type of the first
      value ever added under it. */
  lemma {:induction false} TypeOfFirstAdd(b: MetricBuffer, ms: seq<Metric>, name: string)
    requires name !in b.types
    ensures GetMetricType(AddAll(b, ms), name) == FirstTag(ms, name)
    decreases |ms|
  {
    if ms != [] {
      var init := ms[..|ms| - 1];
      TypeOfFirstAdd(b, init, name);
      FirstTagSnoc(init, ms[|ms| - 1], name);
      assert init + [ms[|ms| - 1]] == ms;
    }
  }

  /** The type tag of the first metric in `ms` named `name`, if any; independent of
      the buffer. */
  function FirstTag(ms: seq<Metric>, name: string): Option<string> {
    if ms == [] then None
    else if ms[0].name == name then Some(TypeTag(ms[0].value))
    else FirstTag(ms[1..], name)
  }

  /** Appending a metric changes the first tag only when the name was absent. */
  lemma {:induction false} FirstTagSnoc(ms: seq<Metric>, m: Metric, name: string)
    ensures FirstTag(ms + [m], name) ==
      (if FirstTag(ms, name).Some? then FirstTag(ms, name)
       else if m.name == name then Some(TypeTag(m.value)) else None)
    decreases |ms|
  {
    if ms != [] {
      assert (ms + [m])[1..] == ms[1..] + [m];
      FirstTagSnoc(ms[1..], m, name);
    }
  }

  /** Once a name has a type, later adds never change it. */
  lemma {:induction false} TypeIsStable(b: MetricBuffer, ms: seq<Metric>, name: string)
    requires name in b.types
    ensures GetMetricType(AddAll(b, ms), name) == GetMetricType(b, name)
  {
    if ms != [] {
      TypeIsStable(b, ms[..|ms| - 1], name);
    }
  }
}
