/** The transfer objects sent to the metrics collector: one `TimelineMetric`
    record per metric name, grouped in a `TimelineMetrics` batch. */
module Domain {
  import opened Wrappers
  import opened JavaLang

  /** A metric's samples: timestamp (epoch millis) to value. */
  type Series = map<int, Double>

  /** A reference to a pooled `TimelineMetric` object. */
  type RecordRef = nat

  /** `TimelineMetric`: every reference field may be null. */
  datatype TimelineMetric = TimelineMetric(
    metricName: Option<string>,
    hostName: Option<string>,
    timestamp: int,
    appId: Option<string>,
    instanceId: Option<string>,
    startTime: int,
    metricValues: Option<Series>)

  /** `new TimelineMetric()`: null strings, zero times and an empty values map. */
  function NewTimelineMetric(): (m: TimelineMetric)
    ensures m.metricName.None? && m.appId.None? && m.hostName.None? && m.instanceId.None?
    ensures m.startTime == 0 && m.timestamp == 0
    ensures m.metricValues == Some(map[])
  {
    TimelineMetric(None, None, 0, None, None, 0, Some(map[]))
  }

  /** The copy constructor: copies every field and the entries of the values map
      into a fresh map; a null values map makes it throw. */
  function Copy(m: TimelineMetric): (r: Result<TimelineMetric>)
    ensures r.Ok? <==> m.metricValues.Some?
    ensures r.Err? ==> r.error == NullPointer
    ensures r.Ok? ==> r.value == m
  {
    match m.metricValues
    case None => Err(NullPointer)
    case Some(vs) =>
      var copied := map t | t in vs :: vs[t];
      assert copied == vs;
      Ok(TimelineMetric(m.metricName, m.hostName, m.timestamp, m.appId, m.instanceId, m.startTime, Some(copied)))
  }

  /** `addMetricValues`: `putAll` of `vs` into the record's values map. */
  function AddMetricValues(m: TimelineMetric, vs: Option<Series>): (r: Result<TimelineMetric>)
    ensures r.Ok? <==> m.metricValues.Some? && vs.Some?
    ensures r.Err? ==> r.error == NullPointer
    ensures r.Ok? ==> r.value.metricValues.Some?
    ensures r.Ok? ==>
      var before, added, after := m.metricValues.value, vs.value, r.value.metricValues.value;
      && after.Keys == before.Keys + added.Keys
      && (forall t :: t in added ==> after[t] == added[t])
      && (forall t :: t in before && t !in added ==> after[t] == before[t])
    ensures r.Ok? ==> r.value.(metricValues := m.metricValues) == m
  {
    if m.metricValues.None? || vs.None? then Err(NullPointer)
    else Ok(m.(metricValues := Some(m.metricValues.value + vs.value)))
  }

  /** What `equals` may be handed besides another record. */
  datatype Other = Null | Itself | OtherClass | Instance(m: TimelineMetric)

  /** The fields `equals` compares. */
  predicate SameKey(a: TimelineMetric, b: TimelineMetric) {
    && a.startTime == b.startTime
    && a.appId == b.appId
    && a.hostName == b.hostName
    && a.instanceId == b.instanceId
    && a.metricName == b.metricName
  }

  /** `equals`. Fields are compared in the order start time, application,
      host, instance, name; a null `appId` or `metricName` on the receiver makes
      it throw only once the comparison reaches that field. */
  function Equals(a: TimelineMetric, o: Other): (r: Result<bool>)
    ensures r.Err? ==> r.error == NullPointer && o.Instance?
    ensures o == Itself ==> r == Ok(true)
    ensures o.Null? || o.OtherClass? ==> r == Ok(false)
    ensures o.Instance? ==> (r == Ok(true) <==> SameKey(a, o.m) && a.appId.Some? && a.metricName.Some?)
    ensures o.Instance? ==>
      (r.Err? <==>
         && a.startTime == o.m.startTime
         && (|| a.appId.None?
             || (&& a.appId == o.m.appId && a.hostName == o.m.hostName
                 && a.instanceId == o.m.instanceId && a.metricName.None?)))
  {
    match o
    case Itself => Ok(true)
    case Null => Ok(false)
    case OtherClass => Ok(false)
    case Instance(b) =>
      if a.startTime != b.startTime then Ok(false)
      else if a.appId.None? then Err(NullPointer)
      else if a.appId != b.appId then Ok(false)
      else if a.hostName != b.hostName then Ok(false)
      else if a.instanceId != b.instanceId then Ok(false)
      else if a.metricName.None? then Err(NullPointer)
      else Ok(a.metricName == b.metricName)
  }

  /** `equals` never looks at the timestamp or the values. */
  lemma EqualsIgnoresTimestampAndValues(a: TimelineMetric, b: TimelineMetric,
                                        t1: int, v1: Option<Series>, t2: int, v2: Option<Series>)
    ensures Equals(a.(timestamp := t1, metricValues := v1), Instance(b.(timestamp := t2, metricValues := v2)))
         == Equals(a, Instance(b))
  {
  }

  /** Between records with non-null names and application ids, `equals` is symmetric. */
  lemma EqualsSymmetric(a: TimelineMetric, b: TimelineMetric)
    requires a.appId.Some? && a.metricName.Some? && b.appId.Some? && b.metricName.Some?
    ensures Equals(a, Instance(b)).Ok? && Equals(b, Instance(a)).Ok?
    ensures Equals(a, Instance(b)) == Equals(b, Instance(a))
  {
  }

  /** `compareTo`: later start time first, then metric name ascending
      (`String.compareTo`, which throws on a null name). */
  function CompareTo(a: TimelineMetric, b: TimelineMetric): (r: Result<int>)
    ensures r.Err? <==> a.startTime == b.startTime && (a.metricName.None? || b.metricName.None?)
    ensures r.Err? ==> r.error == NullPointer
  {
    if a.startTime > b.startTime then Ok(-1)
    else if a.startTime < b.startTime then Ok(1)
    else if a.metricName.None? || b.metricName.None? then Err(NullPointer)
    else Ok(CompareStrings(a.metricName.value, b.metricName.value))
  }

  /** `compareTo` sorts by start time descending, then by name in the
      lexicographic order of its UTF-16 units. */
  lemma CompareToOrder(a: TimelineMetric, b: TimelineMetric)
    requires a.metricName.Some? && b.metricName.Some?
    ensures CompareTo(a, b).Ok?
    ensures CompareTo(a, b).value < 0 <==>
      a.startTime > b.startTime
      || (a.startTime == b.startTime && LexLess(ToUtf16(a.metricName.value), ToUtf16(b.metricName.value)))
  {
    CompareStringsNegativeIffLexLess(a.metricName.value, b.metricName.value);
  }

  /** Swapping the arguments of `compareTo` flips the sign, and it is zero
      exactly when start time and name coincide. */
  lemma CompareToAntisymmetric(a: TimelineMetric, b: TimelineMetric)
    requires a.metricName.Some? && b.metricName.Some?
    ensures CompareTo(a, b).Ok? && CompareTo(b, a).Ok?
    ensures CompareTo(b, a).value == -CompareTo(a, b).value
    ensures CompareTo(a, b).value == 0 <==> a.startTime == b.startTime && a.metricName == b.metricName
  {
    CompareStringsAntisymmetric(a.metricName.value, b.metricName.value);
    CompareStringsZeroIff(a.metricName.value, b.metricName.value);
  }

  /** The order `compareTo` defines is transitive. */
  lemma CompareToTransitive(a: TimelineMetric, b: TimelineMetric, c: TimelineMetric)
    requires a.metricName.Some? && b.metricName.Some? && c.metricName.Some?
    requires CompareTo(a, b).Ok? && CompareTo(a, b).value < 0
    requires CompareTo(b, c).Ok? && CompareTo(b, c).value < 0
    ensures CompareTo(a, c).Ok? && CompareTo(a, c).value < 0
  {
    if a.startTime == b.startTime == c.startTime {
      CompareStringsTransitive(a.metricName.value, b.metricName.value, c.metricName.value);
    }
  }

  /** `compareTo` ignores application, host, instance, timestamp and values. */
  lemma CompareToIgnoresOtherFields(a: TimelineMetric, b: TimelineMetric, a': TimelineMetric, b': TimelineMetric)
    requires a'.startTime == a.startTime && a'.metricName == a.metricName
    requires b'.startTime == b.startTime && b'.metricName == b.metricName
    ensures CompareTo(a', b') == CompareTo(a, b)
  {
  }

  /** `TimelineMetrics`: the batch's list of record references. */
  datatype TimelineMetrics = TimelineMetrics(allMetrics: seq<RecordRef>)

  /** `new TimelineMetrics()`: an empty list. */
  function NewTimelineMetrics(): (b: TimelineMetrics)
    ensures |b.allMetrics| == 0
  {
    TimelineMetrics([])
  }

  function GetMetrics(b: TimelineMetrics): seq<RecordRef> {
    b.allMetrics
  }

  function SetMetrics(b: TimelineMetrics, l: seq<RecordRef>): TimelineMetrics {
    TimelineMetrics(l)
  }

  /** `addMetrics`: `l`'s references, in order, after the existing ones. */
  function AddMetrics(b: TimelineMetrics, l: seq<RecordRef>): (r: TimelineMetrics)
    ensures |r.allMetrics| == |b.allMetrics| + |l|
    ensures r.allMetrics[..|b.allMetrics|] == b.allMetrics
    ensures r.allMetrics[|b.allMetrics|..] == l
  {
    TimelineMetrics(b.allMetrics + l)
  }

  /** `setMetrics(l)` followed by `getMetrics()` gives back `l`. */
  lemma SetThenGetMetrics(b: TimelineMetrics, l: seq<RecordRef>)
    ensures GetMetrics(SetMetrics(b, l)) == l
  {
  }

  /** Adding an empty list changes nothing; adding twice is adding the concatenation. */
  lemma AddMetricsLaws(b: TimelineMetrics, l1: seq<RecordRef>, l2: seq<RecordRef>)
    ensures AddMetrics(b, []) == b
    ensures AddMetrics(AddMetrics(b, l1), l2) == AddMetrics(b, l1 + l2)
  {
    assert b.allMetrics + [] == b.allMetrics;
    assert b.allMetrics + l1 + l2 == b.allMetrics + (l1 + l2);
  }
}
