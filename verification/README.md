# Ambari metric writer, modelled in Dafny

A model of the core of the Spring Boot metric writer for the Ambari Metrics
Collector. Metrics handed to the writer with `set` (or `reset`) go into a
`MetricBuffer`. That buffer keeps, for each metric name, a series of
timestamp → value samples, and counts every add. Once the count passes the
writer's `bufferSize`, the writer flushes:

- it takes a snapshot of the series that hold samples;
- it borrows a `TimelineMetrics` batch and one `TimelineMetric` record per
  series from two Commons Pool object pools (`MetricObjectPool`);
- it fills each record with the name, application, host and instance ids,
  the start time (the earliest timestamp) and the samples;
- it hands the batch to the collector client;
- it gives the batch and its records back to their pools.

The four writer kinds differ only in how the batch is sent and given back:

- `SyncAmbariMetricWriter` gives it back in the `finally` of
  `sendMetricsAndCleanPool`.
- `AmbariMetricWriter` and `DummyAmbariMetricWriter` give it back inside
  `doSendMetrics` and then again in that `finally`.
- `AsyncAmbariMetricWriter` dispatches and gives it back from the response
  callback.

Modules, one per package or concern:

| file | module | models |
|---|---|---|
| `wrappers.dfy` | `Wrappers` | `Option`, `Result`, and the Java exceptions that matter here |
| `javalang.dfy` | `JavaLang` | 32-bit `int` wrap-around, `String.compareTo`, opaque `Double`/`Number` |
| `domain.dfy` | `Domain` | `TimelineMetric` (construction, copy, `addMetricValues`, `equals`, `compareTo`) and `TimelineMetrics` |
| `genericpool.dfy` | `GenericPool` | the part of Commons Pool's `GenericObjectPool` the writer relies on: borrow, return, close, active/idle counts, `maxTotal`, `borrowedCount` |
| `pool.dfy` | `Pool` | the two pooled-object factories and `MetricObjectPool` |
| `buffer.dfy`, `buffer_laws.dfy` | `Buffer`, `BufferLaws` | `MetricBuffer`, and what a flush returns after a run of adds |
| `writer.dfy` | `Writers` | `AbstractAmbariMetricWriter` and the four kinds |
| `conversion_laws.dfy` | `ConversionLaws` | `toTimelineMetrics`: one record per series, in order, each describing its series |
| `writer_laws.dfy`, `run_laws.dfy` | `WriterLaws`, `RunLaws` | how often each kind gives a batch back, what a flush borrows and leaves, and runs of `set` calls |

Modelling choices:

- **Pooled objects.** Objects live in an arena inside `MetricObjectPool`:
  - batch ids map to `TimelineMetrics`;
  - record ids map to `TimelineMetric`;
  - a batch's list holds record ids, so the sharing of Java references is explicit.
- **Pool state.** A Commons pool is:
  - its active (borrowed) set;
  - its idle stack (last in, first out);
  - its lifetime borrow count;
  - its open flag;
  - its `maxTotal`, where a negative value means unlimited.

  Returning an object that is not active fails with `IllegalStateException`, as Commons Pool does.
- **Exceptions.** An operation that may throw returns a `Step`: the writer after the call, plus the exception that escapes, if any. As in Java, an exception thrown by a `finally` block replaces the one from the `try`.
- **What the writer cannot see is an `Env` parameter:**
  - the order `HashMap` key sets iterate in;
  - the collector client's outcome for the batch, which is `Delivered` or `Raised(e)`.

## Model

Paths are relative to the repository root.

| member | source | states |
|---|---|---|
| JavaLang.WrapInt | src/main/java/org/springframework/boot/actuate/metrics/ambari/AbstractAmbariMetricWriter.java:99 | a Java `int` product (`bufferSize * 10`) wraps into the 32-bit range, agrees with the exact value modulo 2^32, and is exact when it fits |
| JavaLang.CompareStringsZeroIff | src/main/java/org/springframework/boot/actuate/metrics/ambari/domain/TimelineMetric.java:214 | `String.compareTo` is zero exactly for equal strings |
| JavaLang.CompareStringsAntisymmetric | src/main/java/org/springframework/boot/actuate/metrics/ambari/domain/TimelineMetric.java:214 | swapping the operands of `String.compareTo` negates the result |
| JavaLang.CompareStringsNegativeIffLexLess | src/main/java/org/springframework/boot/actuate/metrics/ambari/domain/TimelineMetric.java:214 | `String.compareTo` is negative exactly when the first string's UTF-16 units are lexicographically smaller (first differing unit, or proper prefix) |
| JavaLang.CompareStringsSurrogateOrder | src/main/java/org/springframework/boot/actuate/metrics/ambari/domain/TimelineMetric.java:214 | the order is that of UTF-16 units, not of code points: `"\uFFFF".compareTo("\uD800\uDC00")` is `0xFFFF - 0xD800` although U+FFFF is the smaller code point |
| JavaLang.ToUtf16Injective | src/main/java/org/springframework/boot/actuate/metrics/ambari/domain/TimelineMetric.java:214 | different strings have different UTF-16 encodings, which `compareTo` relies on to be zero only for equal strings |
| JavaLang.CompareStringsTransitive | src/main/java/org/springframework/boot/actuate/metrics/ambari/domain/TimelineMetric.java:214 | `String.compareTo` orders strings transitively |
| JavaLang.CompareStrings | src/main/java/org/springframework/boot/actuate/metrics/ambari/domain/TimelineMetric.java:214 | `String.compareTo` as the name comparison uses it: the comparison of the UTF-16 encodings, whose laws are `CompareStringsZeroIff`, `CompareStringsAntisymmetric`, `CompareStringsNegativeIffLexLess` and `CompareStringsTransitive` |
| Domain.NewTimelineMetric | src/main/java/org/springframework/boot/actuate/metrics/ambari/domain/TimelineMetric.java:46-84 | a new record has null names and ids, zero times and an empty (non-null) values map |
| Domain.Copy | src/main/java/org/springframework/boot/actuate/metrics/ambari/domain/TimelineMetric.java:86-96 | the copy constructor fails with `NullPointerException` exactly when the values map is null; otherwise the copy equals the original field by field |
| Domain.AddMetricValues | src/main/java/org/springframework/boot/actuate/metrics/ambari/domain/TimelineMetric.java:170-172 | `putAll`: fails on a null map on either side; otherwise the new samples win, old samples at other timestamps stay, nothing else changes |
| Domain.Equals | src/main/java/org/springframework/boot/actuate/metrics/ambari/domain/TimelineMetric.java:174-195 | the receiver itself is equal, null and other classes are not; two records are equal exactly when start time, application, host, instance and name agree (application and name non-null); it throws `NullPointerException` exactly when the start times agree and the receiver's application is null, or when start time, application, host and instance agree and the receiver's name is null |
| Domain.EqualsIgnoresTimestampAndValues | src/main/java/org/springframework/boot/actuate/metrics/ambari/domain/TimelineMetric.java:174-195 | equality does not look at the timestamp or the samples |
| Domain.EqualsSymmetric | src/main/java/org/springframework/boot/actuate/metrics/ambari/domain/TimelineMetric.java:174-195 | for records with application and name set, equality is defined both ways and symmetric |
| Domain.CompareTo | src/main/java/org/springframework/boot/actuate/metrics/ambari/domain/TimelineMetric.java:207-216 | `compareTo` throws exactly when the start times tie and a name is null |
| Domain.CompareToOrder | src/main/java/org/springframework/boot/actuate/metrics/ambari/domain/TimelineMetric.java:207-216 | with names set, a record comes first exactly when its start time is later, or ties and its name is smaller: newest first, then by name |
| Domain.CompareToAntisymmetric | src/main/java/org/springframework/boot/actuate/metrics/ambari/domain/TimelineMetric.java:207-216 | swapping the records negates the comparison, which is zero exactly when start time and name agree |
| Domain.CompareToTransitive | src/main/java/org/springframework/boot/actuate/metrics/ambari/domain/TimelineMetric.java:207-216 | the ordering is transitive |
| Domain.CompareToIgnoresOtherFields | src/main/java/org/springframework/boot/actuate/metrics/ambari/domain/TimelineMetric.java:207-216 | the ordering depends only on start time and name |
| Domain.NewTimelineMetrics | src/main/java/org/springframework/boot/actuate/metrics/ambari/domain/TimelineMetrics.java:35-37 | a new batch lists no records |
| Domain.AddMetrics | src/main/java/org/springframework/boot/actuate/metrics/ambari/domain/TimelineMetrics.java:48-50 | `addAll` keeps the old list as prefix and appends the given list after it |
| Domain.GetMetrics | src/main/java/org/springframework/boot/actuate/metrics/ambari/domain/TimelineMetrics.java:40-42 | the batch's list of record references, as `setMetrics` left it (`Domain.SetThenGetMetrics`) and extended by `addMetrics` (`Domain.AddMetrics`) |
| Domain.SetMetrics | src/main/java/org/springframework/boot/actuate/metrics/ambari/domain/TimelineMetrics.java:44-46 | replaces the list, which `getMetrics` then returns (`Domain.SetThenGetMetrics`) |
| Domain.SetThenGetMetrics | src/main/java/org/springframework/boot/actuate/metrics/ambari/domain/TimelineMetrics.java:39-46 | the list read back after `setMetrics` is the list set |
| Domain.AddMetricsLaws | src/main/java/org/springframework/boot/actuate/metrics/ambari/domain/TimelineMetrics.java:48-50 | adding nothing changes nothing, and adding twice is adding the concatenation |
| GenericPool.NewObjectPool | src/main/java/org/springframework/boot/actuate/metrics/ambari/pool/MetricObjectPool.java:49-57 | a new pool is open and consistent, with nothing active, idle or ever borrowed |
| GenericPool.NumActive | src/test/java/org/springframework/boot/actuate/metrics/ambari/pool/MetricObjectPoolTest.java:126-132 | `getNumActive`, the objects out: in a valid pool a borrow adds a new object to them and a return removes the returned one, and it never exceeds a non-negative `maxTotal` (`GenericPool.Borrow`, `GenericPool.Return`, `GenericPool.OutstandingBounded`) |
| GenericPool.NumIdle | src/test/java/org/springframework/boot/actuate/metrics/ambari/pool/MetricObjectPoolTest.java:118-124 | `getNumIdle`, the objects kept for reuse: a return to an open pool raises it by one, a borrow that reuses lowers it, and `close` empties it (`GenericPool.Return`, `GenericPool.Borrow`, `GenericPool.Close`) (no `maxIdle` cap; see Left out) |
| GenericPool.Borrow | src/main/java/org/springframework/boot/actuate/metrics/ambari/pool/MetricObjectPool.java:65-67 | `borrowObject` succeeds exactly when the pool is open and has an idle object or room under `maxTotal`; otherwise `NoSuchElementException` (open) or `IllegalStateException` (closed); it reuses the most recently returned idle object, else creates one, marks it active and counts the borrow |
| GenericPool.Return | src/main/java/org/springframework/boot/actuate/metrics/ambari/pool/MetricObjectPool.java:100-107 | `returnObject` succeeds exactly for an active object, which leaves the active set and becomes the first idle object (or is destroyed when the pool is closed); otherwise `IllegalStateException` and the pool is unchanged (no `maxIdle` cap; see Left out) |
| GenericPool.Close | src/main/java/org/springframework/boot/actuate/metrics/ambari/pool/MetricObjectPool.java:110-116 | `clear` then `close` drops every idle object and closes the pool; borrowed objects stay active and the borrow count is kept |
| GenericPool.OutstandingBounded | src/main/java/org/springframework/boot/actuate/metrics/ambari/pool/MetricObjectPool.java:49-57 | a pool with a non-negative `maxTotal` never has more than `maxTotal` objects out, and refuses a borrow when it has exactly that many |
| Pool.CreateRecord | src/main/java/org/springframework/boot/actuate/metrics/ambari/pool/TimelineMetricFactory.java:28-31 | the record factory creates a blank record: null names and ids, start time 0 |
| Pool.PassivateRecord | src/main/java/org/springframework/boot/actuate/metrics/ambari/pool/TimelineMetricFactory.java:38-47 | a returned record has its names, ids and values nulled and start time -1; its timestamp is kept |
| Pool.PassivateRecordIdempotent | src/main/java/org/springframework/boot/actuate/metrics/ambari/pool/TimelineMetricFactory.java:38-47 | passivating twice is passivating once |
| Pool.PassivateRecordForgets | src/main/java/org/springframework/boot/actuate/metrics/ambari/pool/TimelineMetricFactory.java:38-47 | two records with the same timestamp are indistinguishable once passivated: nothing of the previous use leaks except the timestamp |
| Pool.CreateBatch | src/main/java/org/springframework/boot/actuate/metrics/ambari/pool/TimelineMetricsFactory.java:28-31 | the batch factory creates an empty batch |
| Pool.PassivateBatch | src/main/java/org/springframework/boot/actuate/metrics/ambari/pool/TimelineMetricsFactory.java:38-42 | a returned batch has its list cleared |
| Pool.PassivateBatchIdempotent | src/main/java/org/springframework/boot/actuate/metrics/ambari/pool/TimelineMetricsFactory.java:38-42 | passivating a batch is idempotent and forgets its contents entirely |
| Pool.NewMetricObjectPool | src/main/java/org/springframework/boot/actuate/metrics/ambari/pool/MetricObjectPool.java:49-57 | both pools start open with the given `maxTotal`s, empty, never borrowed, and the pair is consistent |
| Pool.NoBatchNoRecord | src/main/java/org/springframework/boot/actuate/metrics/ambari/pool/MetricObjectPool.java:77-81 | in a consistent pool every borrowed record belongs to a borrowed batch, so no batch out means no record out |
| Pool.GetMetrics | src/main/java/org/springframework/boot/actuate/metrics/ambari/pool/MetricObjectPool.java:65-67 | borrowing a batch succeeds exactly when the batch pool can lend, with the same two errors as `borrowObject`; the batch comes back empty and not previously out, the record side is untouched, and consistency is kept |
| Pool.GetMetricFor | src/main/java/org/springframework/boot/actuate/metrics/ambari/pool/MetricObjectPool.java:77-81 | borrowing a record succeeds exactly when the record pool can lend; on success the new record is appended to the given batch's list and no other batch changes |
| Pool.GetMetricForValid | src/main/java/org/springframework/boot/actuate/metrics/ambari/pool/MetricObjectPool.java:77-81 | borrowing a record for a borrowed batch keeps the pool consistent: the record belongs to exactly that batch |
| Pool.ReturnRecord | src/main/java/org/springframework/boot/actuate/metrics/ambari/pool/MetricObjectPool.java:99-103 | returning one record counts a swallowed failure exactly when it was not out; otherwise it leaves the active set, becomes idle and is passivated (no `maxIdle` cap; see Left out) |
| Pool.ReturnRecords | src/main/java/org/springframework/boot/actuate/metrics/ambari/pool/MetricObjectPool.java:97-105 | the loop over a batch's list takes every listed record out of the active set, never lets a failure escape, and keeps counts, limits and the batch side |
| Pool.ReturnRecordsFailures | src/main/java/org/springframework/boot/actuate/metrics/ambari/pool/MetricObjectPool.java:97-105 | the loop swallows no failure exactly when the list has no repeats and every listed record was out |
| Pool.ReturnRecordsIdle | src/main/java/org/springframework/boot/actuate/metrics/ambari/pool/MetricObjectPool.java:97-105 | every idle record after the loop was idle or out before |
| Pool.ReturnRecordsPassivates | src/main/java/org/springframework/boot/actuate/metrics/ambari/pool/MetricObjectPool.java:97-105 | after the loop each listed record is passivated and every other record is unchanged |
| Pool.ReturnBatch | src/main/java/org/springframework/boot/actuate/metrics/ambari/pool/MetricObjectPool.java:107 | returning a batch succeeds exactly when it is out; it then becomes idle with an empty list; otherwise `IllegalStateException` escapes and nothing changes (no `maxIdle` cap; see Left out) |
| Pool.ReturnObjects | src/main/java/org/springframework/boot/actuate/metrics/ambari/pool/MetricObjectPool.java:90-108 | `returnObjects`: null is ignored; otherwise nothing escapes exactly when the batch was out, and only `IllegalStateException` can escape; borrow counts and limits never change |
| Pool.ReturnObjectsValid | src/main/java/org/springframework/boot/actuate/metrics/ambari/pool/MetricObjectPool.java:90-108 | `returnObjects` keeps the pool consistent, and a batch that is not out is refused without any change, its records included |
| Pool.NotBorrowedIsRefused | src/main/java/org/springframework/boot/actuate/metrics/ambari/pool/MetricObjectPool.java:97-107 | for a batch not out, the record loop and the refused batch return together leave the pool exactly as it was |
| Pool.ReleaseKeepsValid | src/main/java/org/springframework/boot/actuate/metrics/ambari/pool/MetricObjectPool.java:97-107 | returning a borrowed batch and its records keeps the pool consistent |
| Pool.BorrowedBatchRecords | src/main/java/org/springframework/boot/actuate/metrics/ambari/pool/MetricObjectPool.java:77-81 | a borrowed batch lists each record at most once, and all of them are out |
| Pool.ReturnObjectsReleases | src/main/java/org/springframework/boot/actuate/metrics/ambari/pool/MetricObjectPool.java:90-108 | returning a borrowed batch takes one batch and all its records out of the active sets and makes them idle, one each, with nothing escaping (no `maxIdle` cap; see Left out) |
| Pool.ReleaseCounts | src/main/java/org/springframework/boot/actuate/metrics/ambari/pool/MetricObjectPool.java:90-108 | the counting part of `ReturnObjectsReleases`: active and idle numbers change by one batch and by the batch's record count (no `maxIdle` cap; see Left out) |
| Pool.ReturnObjectsPassivates | src/main/java/org/springframework/boot/actuate/metrics/ambari/pool/MetricObjectPool.java:90-108 | returning a borrowed batch passivates the batch and its records and leaves every other batch and record as it was |
| Pool.ValidBatchesDisjoint | src/main/java/org/springframework/boot/actuate/metrics/ambari/pool/MetricObjectPool.java:77-81 | two distinct borrowed batches never share a record |
| Pool.ReturnTwoBatches | src/test/java/org/springframework/boot/actuate/metrics/ambari/pool/MetricObjectPoolTest.java:46-84 | returning two disjoint borrowed batches one after the other gives back both and all their records, with borrow counts unchanged (no `maxIdle` cap; see Left out) |
| Pool.ReturnTimelineMetrics | src/test/java/org/springframework/boot/actuate/metrics/ambari/pool/MetricObjectPoolTest.java:46-84 | the test's numbers: with two batches of two records out of open pools and nothing idle, returning the first leaves 1 batch and 2 records idle and as many out, returning the second leaves 2 and 4 idle, none out, and borrow counts 2 and 4 |
| Pool.Close | src/main/java/org/springframework/boot/actuate/metrics/ambari/pool/MetricObjectPool.java:110-116 | closing drops all idle objects and closes both pools, while borrowed objects stay out and borrow counts stay |
| Buffer.NewMetricBuffer | src/main/java/org/springframework/boot/actuate/metrics/ambari/buffer/MetricBuffer.java:70-75 | a new buffer holds no samples, has count 0 and no types |
| Buffer.Add | src/main/java/org/springframework/boot/actuate/metrics/ambari/buffer/MetricBuffer.java:82-107 | an add counts one more metric whether or not it overwrote; the sample at the metric's timestamp takes its value; other samples of the series and other series are unchanged; the name gets a type and types already recorded keep theirs (non-null value and timestamp; see Left out) |
| Buffer.PutMetricType | src/main/java/org/springframework/boot/actuate/metrics/ambari/buffer/MetricBuffer.java:109-114 | the first type recorded for a name wins; other names keep theirs |
| Buffer.TypeTag | src/main/java/org/springframework/boot/actuate/metrics/ambari/buffer/MetricBuffer.java:111 | `ClassUtils.getShortCanonicalName` of the value, the tag `putMetricType` records on a name's first add (`BufferLaws.TypeOfFirstAdd`) |
| Buffer.GetMetricType | src/main/java/org/springframework/boot/actuate/metrics/ambari/buffer/MetricBuffer.java:121-123 | the type is present exactly for names recorded, and is the recorded one |
| Buffer.Flush | src/main/java/org/springframework/boot/actuate/metrics/ambari/buffer/MetricBuffer.java:135-159 | the snapshot holds exactly the series that had samples, with their samples; the buffer keeps its names with empty series, its count is reset to 0, and types survive |
| Buffer.Size | src/main/java/org/springframework/boot/actuate/metrics/ambari/buffer/MetricBuffer.java:128-130 | `size`, the adds since the last flush: an add raises it by one whether or not it overwrote (`Buffer.Add`), a flush resets it to 0 (`Buffer.Flush`), and under `Buffer.Valid` it bounds the samples held and is positive only with samples held (`Buffer.AddValid`) |
| Buffer.Close | src/main/java/org/springframework/boot/actuate/metrics/ambari/buffer/MetricBuffer.java:161-164 | closing empties the buffer, resets its count and keeps types and names |
| Buffer.AddEntries | src/main/java/org/springframework/boot/actuate/metrics/ambari/buffer/MetricBuffer.java:82-107 | an add stores exactly its own (name, timestamp) sample on top of those already stored |
| Buffer.AddValid | src/main/java/org/springframework/boot/actuate/metrics/ambari/buffer/MetricBuffer.java:82-107 | adds keep the count at least the number of stored samples, and stored samples exist whenever the count is positive; an add that overwrites nothing stores one more sample, one that overwrites stores none |
| Buffer.PositiveSizeHasSnapshot | src/main/java/org/springframework/boot/actuate/metrics/ambari/buffer/MetricBuffer.java:128-159 | a buffer whose size is positive flushes a non-empty snapshot |
| Buffer.FlushTwice | src/main/java/org/springframework/boot/actuate/metrics/ambari/buffer/MetricBuffer.java:135-159 | a second flush returns nothing and changes nothing |
| Buffer.CloseIsFlush | src/main/java/org/springframework/boot/actuate/metrics/ambari/buffer/MetricBuffer.java:161-164 | `close` leaves the buffer as `flush` does, and a flush after `close` returns nothing |
| BufferLaws.AddAll | src/test/java/org/springframework/boot/actuate/metrics/ambari/buffer/MetricBufferTest.java:29-38 | a run of adds raises the size by the number of adds |
| BufferLaws.AddAllExact | src/main/java/org/springframework/boot/actuate/metrics/ambari/buffer/MetricBuffer.java:82-107 | the stored samples keep equal to the count as long as no add overwrites a sample of the run or one already stored |
| BufferLaws.DrainedAddsExact | src/test/java/org/springframework/boot/actuate/metrics/ambari/buffer/MetricBufferTest.java:29-38 | from a drained buffer, adds with pairwise distinct name and timestamp store exactly as many samples as `size()` counts |
| BufferLaws.AddAllNames | src/main/java/org/springframework/boot/actuate/metrics/ambari/buffer/MetricBuffer.java:82-107 | after a run of adds a name has a series exactly when it had one or was added |
| BufferLaws.AddAllSamples | src/main/java/org/springframework/boot/actuate/metrics/ambari/buffer/MetricBuffer.java:82-107 | after a run of adds a sample is present exactly when it was present or added |
| BufferLaws.AddAllLastWins | src/main/java/org/springframework/boot/actuate/metrics/ambari/buffer/MetricBuffer.java:90-94 | each sample holds the value of the last metric added with its name and timestamp |
| BufferLaws.FlushReturnsAdded | src/test/java/org/springframework/boot/actuate/metrics/ambari/buffer/MetricBufferTest.java:40-61 | flushing a drained buffer after a run of adds returns exactly the names added, for each exactly the timestamps added, and for each sample the last value added |
| BufferLaws.FlushReturnsSamples | src/main/java/org/springframework/boot/actuate/metrics/ambari/buffer/MetricBuffer.java:135-159 | the timestamps part of `FlushReturnsAdded` |
| BufferLaws.FlushReturnsNames | src/main/java/org/springframework/boot/actuate/metrics/ambari/buffer/MetricBuffer.java:135-159 | the names part of `FlushReturnsAdded`, both directions |
| BufferLaws.AddedNameIsFlushed | src/main/java/org/springframework/boot/actuate/metrics/ambari/buffer/MetricBuffer.java:135-159 | every name added since any state reaches the next snapshot |
| BufferLaws.FlushedNameWasAdded | src/main/java/org/springframework/boot/actuate/metrics/ambari/buffer/MetricBuffer.java:135-159 | from a drained buffer, a snapshot name was added |
| BufferLaws.NonEmptySeriesWasAdded | src/main/java/org/springframework/boot/actuate/metrics/ambari/buffer/MetricBuffer.java:82-107 | a series holding samples after a run of adds held samples before or was added to |
| BufferLaws.SampleWasAdded | src/main/java/org/springframework/boot/actuate/metrics/ambari/buffer/MetricBuffer.java:82-107 | from a drained buffer, each held sample was added |
| BufferLaws.FlushReturnsLastValues | src/main/java/org/springframework/boot/actuate/metrics/ambari/buffer/MetricBuffer.java:135-159 | the snapshot holds the last value added for each name and timestamp |
| BufferLaws.TypeOfFirstAdd | src/main/java/org/springframework/boot/actuate/metrics/ambari/buffer/MetricBuffer.java:109-114 | a name without a type gets the type of the first metric added under it in the run, and none when never added |
| BufferLaws.TypeIsStable | src/main/java/org/springframework/boot/actuate/metrics/ambari/buffer/MetricBuffer.java:64-68 | once a name has a type no later add changes it |
| Writers.NewWriter | src/main/java/org/springframework/boot/actuate/metrics/ambari/AbstractAmbariMetricWriter.java:90-100 | a new writer has an empty buffer and open, empty pools of 1000 batches and `max(1000, bufferSize * 10)` records, that product wrapping as a Java `int` |
| Writers.SetBufferSize | src/main/java/org/springframework/boot/actuate/metrics/ambari/AbstractAmbariMetricWriter.java:256-258 | only the threshold changes; the pools keep the sizes chosen at construction |
| Writers.Increment | src/main/java/org/springframework/boot/actuate/metrics/ambari/AbstractAmbariMetricWriter.java:102-105 | `increment` always throws `UnsupportedOperationException` and changes nothing |
| Writers.Set | src/main/java/org/springframework/boot/actuate/metrics/ambari/AbstractAmbariMetricWriter.java:113-123 | the metric is added; the buffer is flushed exactly when its size then exceeds `bufferSize`, and otherwise only the buffer changes (non-null value and timestamp; see Left out) |
| Writers.Reset | src/main/java/org/springframework/boot/actuate/metrics/ambari/AbstractAmbariMetricWriter.java:107-111 | `reset` buffers a zero under the name, and flushes exactly when that pushes the size past the threshold |
| Writers.FlushMetricBuffer | src/main/java/org/springframework/boot/actuate/metrics/ambari/AbstractAmbariMetricWriter.java:130-142 | an empty buffer is left alone; otherwise the buffer is drained and at most one batch is handed on, with the types and pool limits kept |
| Writers.MinOf | src/main/java/org/springframework/boot/actuate/metrics/ambari/AbstractAmbariMetricWriter.java:202-204 | `Collections.min` of a non-empty list is an element no greater than any other |
| Writers.StartTime | src/main/java/org/springframework/boot/actuate/metrics/ambari/AbstractAmbariMetricWriter.java:202-204 | the start time is 0 for no timestamps, else the earliest one |
| Writers.AddRecord | src/main/java/org/springframework/boot/actuate/metrics/ambari/AbstractAmbariMetricWriter.java:175-191 | one name of the snapshot adds at most one record to the batch, and only if its series has samples and a record can be borrowed; a failed borrow is swallowed; no other batch changes |
| Writers.AddRecordAppended | src/main/java/org/springframework/boot/actuate/metrics/ambari/AbstractAmbariMetricWriter.java:180-187 | the appended record is a fresh borrow written with the name, the writer's ids, the start time and the samples |
| Writers.AddRecords | src/main/java/org/springframework/boot/actuate/metrics/ambari/AbstractAmbariMetricWriter.java:172-192 | the loop only appends to the batch, at most one record per name, and touches no other batch |
| Writers.ToTimelineMetrics | src/main/java/org/springframework/boot/actuate/metrics/ambari/AbstractAmbariMetricWriter.java:167-200 | a batch (rather than null) comes back exactly when the batch pool can lend; with null nothing changed; otherwise the batch was borrowed and the record loop filled it |
| Writers.Contents | src/main/java/org/springframework/boot/actuate/metrics/ambari/domain/TimelineMetrics.java:39-42 | the records a batch refers to, one per entry, in list order |
| Writers.Release | src/main/java/org/springframework/boot/actuate/metrics/ambari/AbstractAmbariMetricWriter.java:224-226 | `cleanMetricPool` records one give-back, changes only the pool, and can only throw `IllegalStateException`; for a batch it is `returnObjects` |
| Writers.DoSendMetrics | src/main/java/org/springframework/boot/actuate/metrics/ambari/AmbariMetricWriter.java:41-51 | every kind but `Dummy` hands the batch to the client once; `Async` only dispatches and registers a callback; `Sync` does nothing else; `Ambari` and `Dummy` also give the batch back themselves (also `SyncAmbariMetricWriter.java:48-55`, `AsyncAmbariMetricWriter.java:51-55`, `DummyAmbariMetricWriter.java:55-68`) |
| Writers.SendMetricsAndCleanPool | src/main/java/org/springframework/boot/actuate/metrics/ambari/AbstractAmbariMetricWriter.java:150-158 | the send followed by a give-back in `finally` for the synchronous kinds; `Async` overrides it to send only, so its pool is untouched and nothing escapes (`AsyncAmbariMetricWriter.java:45-49`) |
| Writers.Callback | src/main/java/org/springframework/boot/actuate/metrics/ambari/AsyncAmbariMetricWriter.java:66-77 | either callback gives its batch back once and retires it; nothing escapes exactly when the batch was still out |
| Writers.DoSendMetricsOnce | src/main/java/org/springframework/boot/actuate/metrics/ambari/AmbariMetricWriter.java:41-51 | the corrected send of `Ambari` and `Dummy`: the batch is handed on (logged for `Dummy`) but not given back, and a completed send lets nothing escape |
| Writers.SendMetricsAndCleanPoolOnce | src/main/java/org/springframework/boot/actuate/metrics/ambari/AbstractAmbariMetricWriter.java:150-158 | over the corrected send, every synchronous kind records exactly one give-back |
| ConversionLaws.StartTimeIsMinimum | src/main/java/org/springframework/boot/actuate/metrics/ambari/AbstractAmbariMetricWriter.java:186 | when the timestamps are iterated as the series' key set (each once), the start time is 0 for an empty series and otherwise its earliest timestamp |
| ConversionLaws.AddRecordsFresh | src/main/java/org/springframework/boot/actuate/metrics/ambari/AbstractAmbariMetricWriter.java:172-192 | the loop only borrows records: every record it lists is out and exists, and records already listed are untouched |
| ConversionLaws.AddRecordsDescribe | src/main/java/org/springframework/boot/actuate/metrics/ambari/AbstractAmbariMetricWriter.java:172-192 | even when borrows fail, each record the loop adds was written for one of the names with samples |
| ConversionLaws.AddRecordFresh | src/main/java/org/springframework/boot/actuate/metrics/ambari/AbstractAmbariMetricWriter.java:175-191 | one name keeps the borrowed records listed and leaves those already listed unchanged |
| ConversionLaws.AddRecordsOnePerSeries | src/main/java/org/springframework/boot/actuate/metrics/ambari/AbstractAmbariMetricWriter.java:172-192 | with an open record pool and room, the loop appends exactly one record per name with samples, in iteration order, each describing its series |
| ConversionLaws.FirstRecord | src/main/java/org/springframework/boot/actuate/metrics/ambari/AbstractAmbariMetricWriter.java:175-191 | with room, a name with samples gets its record, and room remains for the rest |
| ConversionLaws.SendableAll | src/main/java/org/springframework/boot/actuate/metrics/ambari/AbstractAmbariMetricWriter.java:178 | when every listed name has samples, none is skipped |
| ConversionLaws.ConvertOnePerSeries | src/main/java/org/springframework/boot/actuate/metrics/ambari/AbstractAmbariMetricWriter.java:167-200 | on a consistent pool with a batch to lend and room for a record per name, the batch comes back holding exactly one record per iterated name with samples, in iteration order (one per series under a key-set iteration: `ConversionLaws.ConvertRecordPerSeries`) |
| ConversionLaws.ConvertDescribes | src/main/java/org/springframework/boot/actuate/metrics/ambari/AbstractAmbariMetricWriter.java:167-200 | whatever the pools do, every record of the batch returned describes a series of the snapshot, and without a batch nothing changes |
| ConversionLaws.AddRecordKeepsValid | src/main/java/org/springframework/boot/actuate/metrics/ambari/AbstractAmbariMetricWriter.java:175-191 | one name keeps the pool consistent |
| ConversionLaws.AddRecordsKeepsValid | src/main/java/org/springframework/boot/actuate/metrics/ambari/AbstractAmbariMetricWriter.java:172-192 | the loop keeps the pool consistent |
| ConversionLaws.ConvertKeepsValid | src/main/java/org/springframework/boot/actuate/metrics/ambari/AbstractAmbariMetricWriter.java:167-200 | the conversion keeps the pool consistent, and the batch returned is a new borrow |
| ConversionLaws.FlushedSnapshotAllSendable | src/main/java/org/springframework/boot/actuate/metrics/ambari/AbstractAmbariMetricWriter.java:136-140 | a flushed snapshot has samples under every name, so the conversion skips none of its names |
| ConversionLaws.SendableMembers | src/main/java/org/springframework/boot/actuate/metrics/ambari/AbstractAmbariMetricWriter.java:172-178 | a name gets a record exactly when it is iterated and has samples, and names iterated once are converted once |
| ConversionLaws.DescribesSeries | src/main/java/org/springframework/boot/actuate/metrics/ambari/AbstractAmbariMetricWriter.java:180-187 | under a key-set iteration, the record written for a name carries the writer's ids, the name's series and that series' earliest timestamp |
| ConversionLaws.ListedOnePerSeries | src/main/java/org/springframework/boot/actuate/metrics/ambari/AbstractAmbariMetricWriter.java:172-192 | a batch listing in order one record per converted name of a key-set iteration holds one record per series with samples, no name twice, and as many records as series when every series has samples |
| ConversionLaws.NamedOnePerSeries | src/main/java/org/springframework/boot/actuate/metrics/ambari/AbstractAmbariMetricWriter.java:172-192 | records written in order for the distinct converted names are one per series with samples |
| ConversionLaws.ConvertRecordPerSeries | src/main/java/org/springframework/boot/actuate/metrics/ambari/AbstractAmbariMetricWriter.java:167-200 | with a batch to lend and room for one record per series, iterating the snapshot's key sets: the batch holds one record per series with samples (its name, the writer's ids, its samples, its earliest timestamp), no name twice, and for a flushed snapshot exactly as many records as series |
| ConversionLaws.ConvertDescribesSeries | src/main/java/org/springframework/boot/actuate/metrics/ambari/AbstractAmbariMetricWriter.java:167-200 | whatever the pools do, under a key-set iteration every record of the batch is the record of a series with samples, start time included, and there are at most as many records as series |
| ConversionLaws.AddedSeriesRecords | src/main/java/org/springframework/boot/actuate/metrics/ambari/AbstractAmbariMetricWriter.java:172-192 | the records the loop added under a key-set iteration are series records, at most one per series |
| WriterLaws.SyncSendReleasesOnce | src/main/java/org/springframework/boot/actuate/metrics/ambari/SyncAmbariMetricWriter.java:48-55 | the `Sync` writer hands the batch on once and gives it back once whatever the transport does; the batch and all its records leave the active sets, and only the transport's exception escapes |
| WriterLaws.DeliveredReleasesTwice | src/main/java/org/springframework/boot/actuate/metrics/ambari/AmbariMetricWriter.java:41-51 | for `Ambari` and `Dummy`, a completed send gives the batch back twice, and the pool's `IllegalStateException` from the second time escapes (see Findings) |
| WriterLaws.RaisedReleasesOnce | src/main/java/org/springframework/boot/actuate/metrics/ambari/AbstractAmbariMetricWriter.java:150-158 | when the transport throws, the synchronous kinds give the batch back once, in `finally`, and the transport's exception escapes (`Dummy` swallows an `IOException`) |
| WriterLaws.SendGivesBatchBack | src/main/java/org/springframework/boot/actuate/metrics/ambari/AbstractAmbariMetricWriter.java:150-158 | whatever the transport does, a synchronous kind leaves the batch and its records given back and the pool consistent; what escapes is `IllegalStateException` exactly for a completed `Ambari`/`Dummy` send, otherwise the transport's error |
| WriterLaws.AsyncDispatchThenCallback | src/main/java/org/springframework/boot/actuate/metrics/ambari/AsyncAmbariMetricWriter.java:45-77 | the `Async` send only dispatches, leaving the batch out; its callback, on success or failure, gives it back exactly once with nothing escaping |
| WriterLaws.SendOnceReleasesOnce | src/main/java/org/springframework/boot/actuate/metrics/ambari/AbstractAmbariMetricWriter.java:150-158 | with the corrected send, every synchronous kind gives the batch back exactly once, lets only the transport's error escape, and `Sync` is unchanged by the correction |
| WriterLaws.FlushSendsOnce | src/main/java/org/springframework/boot/actuate/metrics/ambari/AbstractAmbariMetricWriter.java:130-142 | flushing a non-empty buffer drains it and hands on exactly one batch (none for `Dummy`) |
| WriterLaws.FlushBorrowsOnePerSeries | src/main/java/org/springframework/boot/actuate/metrics/ambari/AbstractAmbariMetricWriter.java:130-200 | a synchronous flush with room borrows one batch and one record per iterated name with samples (one per series under a key-set iteration: `WriterLaws.FlushSendsOnePerSeries`); what escapes is as in `SendGivesBatchBack` |
| WriterLaws.FlushSendsOnePerSeries | src/main/java/org/springframework/boot/actuate/metrics/ambari/AbstractAmbariMetricWriter.java:130-200 | a synchronous flush with room that iterates the snapshot's key sets borrows exactly one record per series of the snapshot, and (all but `Dummy`) hands on one batch holding exactly one record per series: its name, the writer's ids, its samples and its earliest timestamp, no name twice |
| WriterLaws.FlushHandsOnePerSeries | src/main/java/org/springframework/boot/actuate/metrics/ambari/AbstractAmbariMetricWriter.java:130-200 | the batch-contents half of `FlushSendsOnePerSeries` |
| WriterLaws.HandedOnePerSeries | src/main/java/org/springframework/boot/actuate/metrics/ambari/AbstractAmbariMetricWriter.java:167-200 | what the client is handed after such a conversion is one record per series, as many as series |
| WriterLaws.FlushHandsListed | src/main/java/org/springframework/boot/actuate/metrics/ambari/AbstractAmbariMetricWriter.java:130-200 | whatever the iteration orders, a flush with room by a kind that hands batches on sends one batch holding, in iteration order, one record per converted name, describing that name's series |
| WriterLaws.HandedListed | src/main/java/org/springframework/boot/actuate/metrics/ambari/AbstractAmbariMetricWriter.java:167-200 | what the client is handed after a conversion with room: one record per converted name, in order |
| WriterLaws.FlushLeavesPoolQuiescent | src/main/java/org/springframework/boot/actuate/metrics/ambari/AbstractAmbariMetricWriter.java:130-158 | a synchronous flush starting with nothing out leaves nothing out and the pool consistent, whatever the transport and pools do |
| WriterLaws.ConvertThenSendQuiescent | src/main/java/org/springframework/boot/actuate/metrics/ambari/AbstractAmbariMetricWriter.java:136-140 | the converting branch of `FlushLeavesPoolQuiescent` |
| WriterLaws.SendLeavesPoolQuiescent | src/main/java/org/springframework/boot/actuate/metrics/ambari/AbstractAmbariMetricWriter.java:150-158 | a synchronous send of the only batch out leaves nothing out |
| RunLaws.SetAll | src/test/java/org/springframework/boot/actuate/metrics/ambari/AbstractAmbariMetricWriterTest.java:92-94 | a loop of `set` calls, stopped by the first exception, keeps the writer's kind and configuration |
| RunLaws.SyncDeliveredFlushThrowsNothing | src/main/java/org/springframework/boot/actuate/metrics/ambari/SyncAmbariMetricWriter.java:48-55 | a `Sync` flush whose collector call completes lets nothing escape |
| RunLaws.Rest | src/test/java/org/springframework/boot/actuate/metrics/ambari/AbstractAmbariMetricWriterTest.java:74-102 | the adds left over after complete rounds are fewer than a round |
| RunLaws.RoundsAreDivision | src/test/java/org/springframework/boot/actuate/metrics/ambari/AbstractAmbariMetricWriterTest.java:74-102 | counting flush rounds one add at a time agrees with Euclidean division |
| RunLaws.RoundsStep | src/main/java/org/springframework/boot/actuate/metrics/ambari/AbstractAmbariMetricWriter.java:118-122 | one more add either stays in the current round or completes it |
| RunLaws.SyncSetStep | src/main/java/org/springframework/boot/actuate/metrics/ambari/AbstractAmbariMetricWriter.java:113-123 | a `Sync` `set` that stays under the threshold only buffers; one that passes it flushes and hands on one batch |
| RunLaws.SetAllRounds | src/main/java/org/springframework/boot/actuate/metrics/ambari/AbstractAmbariMetricWriter.java:113-123 | after n completed `set`s into a `Sync` writer, the size and the number of batches sent are the rounds of `bufferSize + 1` adds counted so far, and nothing has escaped |
| RunLaws.TallyStep | src/main/java/org/springframework/boot/actuate/metrics/ambari/AbstractAmbariMetricWriter.java:118-122 | the tally of a run extends by one `set` |
| RunLaws.TallyDivision | src/main/java/org/springframework/boot/actuate/metrics/ambari/AbstractAmbariMetricWriter.java:118-122 | after n adds, the size is `(size0 + n) mod (bufferSize + 1)` and the batches sent are `(size0 + n) div (bufferSize + 1)` |
| RunLaws.SetLeavesPoolQuiescent | src/main/java/org/springframework/boot/actuate/metrics/ambari/AbstractAmbariMetricWriter.java:113-123 | a synchronous `set` starting with nothing out leaves nothing out |
| RunLaws.SetAllLeavesPoolQuiescent | src/test/java/org/springframework/boot/actuate/metrics/ambari/AbstractAmbariMetricWriterTest.java:96-101 | a synchronous run of `set`s starting with nothing out leaves nothing out |
| RunLaws.SetFlushesOneSeries | src/main/java/org/springframework/boot/actuate/metrics/ambari/AbstractAmbariMetricWriter.java:113-158 | a synchronous `set` that passes the threshold, with only the new name iterated, borrows one batch and one record, sends once (none for `Dummy`), and leaves nothing out |
| RunLaws.AddedIsSendable | src/main/java/org/springframework/boot/actuate/metrics/ambari/buffer/MetricBuffer.java:82-159 | the name just added is converted by the next flush |
| RunLaws.FreshWriter | src/main/java/org/springframework/boot/actuate/metrics/ambari/AbstractAmbariMetricWriter.java:90-100 | a new writer with a changed threshold has nothing buffered, sent or out, and pools able to lend |
| RunLaws.FlushAutomaticallyBorrows | src/test/java/org/springframework/boot/actuate/metrics/ambari/AbstractAmbariMetricWriterTest.java:54-72 | a fresh synchronous writer with threshold 0 flushes on its first `set`: one batch and one record borrowed, none left out |
| RunLaws.FlushAutomaticallyEscapes | src/test/java/org/springframework/boot/actuate/metrics/ambari/AbstractAmbariMetricWriterTest.java:54-72 | in that scenario, with the call completing, the batch is handed on once (not for `Dummy`) with one record, named after the metric set; nothing escapes for `Sync`, but `IllegalStateException` escapes for `Ambari` and `Dummy` |
| RunLaws.ConsecutiveAutomaticFlushes | src/test/java/org/springframework/boot/actuate/metrics/ambari/AbstractAmbariMetricWriterTest.java:74-102 | 220 completed `set`s into a fresh `Sync` writer with threshold 20 hand on 10 batches, leave 10 adds buffered and nothing out |
| RunLaws.FreshSetFlushes | src/test/java/org/springframework/boot/actuate/metrics/ambari/AbstractAmbariMetricWriterTest.java:54-72 | the first `set` into any fresh synchronous writer with threshold 0 borrows one batch and one record, leaves none out, hands on one batch (none for `Dummy`) holding the one record of the set metric (its name, the writer's ids, its sample, and as start time the least timestamp iterated for the name), and lets escape what the send lets escape |
| RunLaws.FreshSetHandsRecord | src/test/java/org/springframework/boot/actuate/metrics/ambari/AbstractAmbariMetricWriterTest.java:54-59 | the batch the first `set` into a fresh `Sync` or `Ambari` writer with threshold 0 hands on holds one record: the set metric's name, the writer's ids, the one sample, and as start time the least timestamp iterated for the name |
| RunLaws.FreshSetStartsAtSample | src/test/java/org/springframework/boot/actuate/metrics/ambari/AbstractAmbariMetricWriterTest.java:54-59 | in that scenario, iterating the snapshot's key sets (the one name, then the one timestamp), the handed record's start time is the sample's timestamp |
| RunLaws.DrainedAddSnapshot | src/main/java/org/springframework/boot/actuate/metrics/ambari/buffer/MetricBuffer.java:82-159 | adding to a buffer that holds no sample, the next flush's snapshot is that one sample under its name |
| RunLaws.FreshRunFlushes | src/test/java/org/springframework/boot/actuate/metrics/ambari/AbstractAmbariMetricWriterTest.java:74-102 | 220 completed `set`s into any fresh `Sync` writer with threshold 20 hand on 10 batches, leave 10 adds buffered, nothing out and nothing escaped |

## Left out

- **Concurrency.** The buffer's `ReentrantLock` with its 5-second `tryLock`, the atomic counter, the `ConcurrentHashMap` and the interleaving of async callbacks are not modelled. Every operation is one atomic step, and a timed-out lock (the add or flush skipped with a warning) is not modelled.
- **Commons Pool internals.** `maxIdle`, eviction, `maxWaitMillis` blocking, the factories' `wrap`, and object validation are not modelled. A borrow with no room fails at once with `NoSuchElementException`, as it does after the wait times out.
- **`GenericPool.NumIdle`:** counts every object returned to an open pool, with no cap. Neither pool sets `maxIdle`, so Commons Pool keeps its default of 8 and destroys an object returned while 8 are idle; the model keeps it idle instead. Borrow outcomes are unaffected, since a destroyed object frees room under `maxTotal` as an idle one does, but past 8 idle objects the idle count and which objects are reused differ from Commons Pool.
- **`Pool.ReturnRecord`:** a returned record always joins the idle records of an open pool; past the default `maxIdle` of 8 Commons Pool would destroy it instead.
- **`Pool.ReturnBatch`:** a returned batch always joins the idle batches of an open pool; past the default `maxIdle` of 8 Commons Pool would destroy it instead.
- **`GenericPool.Return`, `Pool.ReturnObjectsReleases`, `Pool.ReleaseCounts`, `Pool.RecordCounts`, `Pool.ReturnTwoBatches`:** their idle-count claims (one more idle object per return, `NumIdle` growing by the batch and its record count) match Commons Pool only while the idle objects stay at most 8, its default `maxIdle`; a flush of 20 series leaves 8 idle records in Commons Pool and 20 in the model. Their active-count, borrow-count and exception claims do not depend on the cap.
- **`Buffer.Add`, `Writers.Set`:** a metric's value and timestamp are assumed non-null. In Java a null value or timestamp makes `MetricBuffer.add` throw `NullPointerException` (`MetricBuffer.java:94`) after an empty series has been put under a new name (lines 90-92) and before the type is recorded and the count raised; the exception escapes `set` before the size check (`AbstractAmbariMetricWriter.java:113-123`). The model has no null metric fields and so no such path.
- **Outside the core.** The REST clients, HTTP, JSON/JAXB serialisation, logging and the Spring configuration classes are not part of this model. Instead:
  - the collector's behaviour is the `Outcome` parameter;
  - `Dummy`'s serialisation is the same parameter (`Raised(IO)` models a failed `writeValue`).
- **Values.** Metric values are opaque `Double`s, with no floating-point arithmetic. The `Float`/`Double` map types of the snapshot are identified. The type tag of a metric is its value's class name, standing for `ClassUtils.getShortCanonicalName`.
- **`TimelineMetric.hashCode`** is not modelled: it is integer hashing with no behaviour the writer depends on.
- **Test expectations.** `TimelineMetricFactoryTest` expects a new record to have null values. The code initialises an empty `TreeMap`, and the model follows the code (`Domain.NewTimelineMetric`, `Pool.CreateRecord`).
- **Method names.** The writer calls `getTimelineMetrics`, `getTimelineMetricFor`, `freePoolObjects` and `returnMetricPoolObjects`. These are read as `MetricObjectPool.getMetrics`, `getMetricFor` and `cleanMetricPool` (that is, `returnObjects`).
- **Exceptions the writer does not catch.** A transport exception from a synchronous send is not caught: `sendMetricsAndCleanPool` has `try`/`finally` and no `catch`, so it escapes the flush and the `set`. The model lets it escape (`Writers.SendMetricsAndCleanPool`).
- **Async submit failures.** If `AsyncAmbariMetricWriter`'s client throws synchronously, no callback is registered and the batch is never given back. This case is not modelled: the `Async` send always registers its callback.
- **Iteration orders.** Names and timestamps are iterated in orders given as parameters, since `HashMap` order is unspecified. Laws that depend on the iteration being a key-set iteration (every key once) require `ConversionLaws.Iterates`; the others hold for any orders.
- **`ConversionLaws.ConvertDescribes`, `ConversionLaws.ConvertDescribesSeries`:** when a record borrow fails midway, the model states that each record added is the record of some series and that there are at most as many as series, but not that no name is added twice.
- **Constructor arity.** `AmbariMetricWriter` (lines 33-37) calls the base constructor with five arguments and `DummyAmbariMetricWriter` (lines 38-41) with three, while the base constructor (`AbstractAmbariMetricWriter.java:90`) takes four; `SyncAmbariMetricWriter` (lines 33, 42) and `AsyncAmbariMetricWriter` (lines 30, 39) extend `AmbariMetricWriter` but call `super` with four arguments, against its five-argument constructor. These files come from different revisions of the repository. `Writers.NewWriter` takes the base constructor's four fields for every kind, so `Ambari` and `Dummy` writers also carry an optional instance id (`None` for a writer built without one), and `Sync` and `Async` are kinds of the base class directly: both override `doSendMetrics` (and `Async` also `sendMetricsAndCleanPool`), so nothing of `AmbariMetricWriter` runs for them.
- **Strings.** A Dafny `string` is a sequence of Unicode scalar values. `String.compareTo` is modelled by comparing their UTF-16 encodings (`JavaLang.ToUtf16`); Java strings holding unpaired surrogates cannot be represented.
- **`RunLaws.SetAll`:** stops at the first exception, as the caller's loop in the test would. Later `set`s after an escaped exception are not modelled.
- **`RunLaws.SetAllRounds`, `RunLaws.TallyDivision`, `RunLaws.ConsecutiveAutomaticFlushes`:** are proved for `Sync` only. For `Ambari` and `Dummy` the first completed flush already throws (see Findings); `Async` leaves batches out until its callbacks run.
- **`RunLaws.FlushAutomaticallyBorrows`, `RunLaws.SetFlushesOneSeries`, `WriterLaws.FlushBorrowsOnePerSeries`:** are stated for the synchronous kinds. For `Async` the batch stays out until the callback, which `WriterLaws.AsyncDispatchThenCallback` covers.
- **`Writers.NewWriter`:** the exact record-pool size is stated only where `bufferSize * 10` fits in an `int`. Elsewhere it states that the size is at least 1000, because the wrapped product is then arbitrary.

## Findings

| source | as written | input that shows it | evidently intended | confidence | as-written member | corrected member |
|---|---|---|---|---|---|---|
| src/main/java/org/springframework/boot/actuate/metrics/ambari/AmbariMetricWriter.java:41-51 | `AmbariMetricWriter.doSendMetrics` (and `DummyAmbariMetricWriter.doSendMetrics`, lines 55-68) gives the batch back with `freePoolObjects`; then the `finally` of `sendMetricsAndCleanPool` (AbstractAmbariMetricWriter.java:150-158) gives it back a second time, and the pool refuses it with `IllegalStateException` | any flush of a non-empty buffer whose collector call completes, e.g. the first `set` into a fresh writer with `bufferSize` 0 | the batch given back exactly once, only in `finally`, and nothing escaping from a completed send, as `SyncAmbariMetricWriter` does | not executed; follows from Commons Pool refusing to return an object that is not borrowed; the two `doSendMetrics` come from a different revision than the base class (see Constructor arity), so the double give-back arises from pairing these files | WriterLaws.DeliveredReleasesTwice | WriterLaws.SendOnceReleasesOnce |
