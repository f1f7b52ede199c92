# InfraSense in Dafny

A model of the stateful parts of InfraSense, the hardware-monitoring platform, with proofs about whole runs: collecting
(poll cycle, retry, log readers, protocol detection), queueing and ingest (durable events and metrics), batching towards the
time-series store, the SQL that lists and patches devices, the limiters and the cache in front of the API, and the throttle
behind the notifiers.

`dafny verify dfyconfig.toml` checks everything.

How the modules are built:

- An object whose methods change its fields is a class with those fields. Its methods are proved against a function of the
  old state (`Next`, `AllowNext`, `RedisNext`, ...), and the theorems are about runs of that function.
- Where threads or deliveries interleave (`VictoriaMetrics`, `MetricsPipeline`, `MetricsDelivery`, `EventIngest`, `PollCycle`), a step is one section that holds the mutex, one
  I/O call or one channel operation. `Reaches` says that some interleaving leads from one state to another; results hold for
  every reachable state.
- Instants and durations are integer nanoseconds on a clock that never runs backwards. The network, the database's answers
  and the scheduler are parameters: a theorem holds whatever they answer.
- SHA-256 (FIPS 180-4), ILIKE, case folding, UUID parsing and lower-casing of one character are functions given by the caller.

| file | component |
|---|---|
| `VictoriaMetrics.dfy` | batching remote-write client: writers, ticker and Stop in any interleaving |
| `MetricsIngest.dfy`, `MetricsDelivery.dfy`, `MetricsPipeline.dfy` | durable metrics: one fetched batch; any run of redeliveries; the consumer on top of the batching client |
| `EventIngest.dfy`, `StableDedupe.dfy`, `EventIdentity.dfy` | durable events, insert-if-absent table, deduplication key, and which events share a row |
| `TokenBucket.dfy` | token bucket of the notifiers |
| `RateLimit.dfy`, `RedisRateLimit.dfy`, `LimiterAgreement.dfy` | sliding-window limiters, the fallback, and exactly when they agree and keep the limit |
| `SqlText.dfy`, `DeviceList.dfy`, `DevicePages.dfy`, `DeviceUpdate.dfy` | WHERE and SET builders, parsed back and evaluated; pagination |
| `Retry.dfy`, `PollCycle.dfy` | per-device backoff with 64-bit arithmetic; semaphore-bounded poll cycle |
| `Transactions.dfy` | transactions retried on deadlock |
| `Sel.dfy`, `Strings.dfy` | the two readers of the System Event Log |
| `ProtocolDetector.dfy` | concurrent protocol probes |
| `ResponseCache.dfy` | TTL response cache |
| `DeviceLogs.dfy` | in-place filter, sort and limit of device logs |

## Where the code departs from its documentation or from what one may expect

The model follows the code; the members named here say what holds instead.

- `Stop` flushes on the context it has just cancelled, so its flush delivers nothing: `StopDeliversEverythingIff`, and for
  every batch size a run that loses a sample, `StopLosesSample`.
- A metrics message is acknowledged once its samples are buffered. Without another delivery it can reach the store exactly
  while each sample is delivered, or the client is running and the sample is buffered or in flight: `AckedDeliverableIff`.
  Three failed attempts lose an acknowledged message, with any batch size and without a Stop: `AckedCanBeLost`.
- Metrics are appended at least once, and exactly once only for messages handled once: `AckedStandsOnceIff`,
  `AckedStandsTwice`.
- The backoff is documented as capped at ten minutes. At the 35th failure in a row the 64-bit product is negative and the
  gate is open again at once: `BackoffDocumentedIff`, `SpacedOutIff`, `GateOpenAfter35Failures`.
- "non-critical" log entries are documented as warnings. They contain "critical" and count as critical:
  `NonCriticalIsCritical`.
- `Invalidate` is documented to take a URL prefix. It removes one exact URL, and meets the documentation exactly when no
  longer URL has a live response: `PrefixGoneIff`, `PrefixSurvives`.
- The token bucket drops the remainder of the elapsed time at a refill, and in one interval can grant one token more than
  the rate suggests: `GrantsInInterval`, `PlainBoundIff`, `PlainBoundFailsIff`.
- Redis counts refused attempts and merges attempts of one nanosecond, memory does neither; and with fallback the two do not
  see each other's accepts: `RedisImpliesMemoryIff`, `MemoryImpliesRedisIff`, `RedisKeepsLimitIff`, `FallbackKeepsLimitIff`.
- Device pages are ordered by `created_at` alone, so ties across a page boundary can repeat a row: `PagesPartitionIff`.
- A deduplication text with an instant can equal one without, and a given key can equal a computed one: `SameTextIff`, and
  exactly what can swallow an acknowledged event, `AckedStandsOrIsSwallowed`.
- Device logs are sorted by timestamp as text, which is time exactly when the texts order as their instants do:
  `LatestInTimeIff`.
- `Detect` is documented to return results in priority order. The probe list keeps the listing order, which is in order of
  priority exactly unless both IPMI and SNMP are available: `InPriorityOrderIff`.

## Model

| member | source | states |
|---|---|---|
| VictoriaMetrics.InvStep | backend/internal/metrics/victoriametrics.go:53-133 | every step of writers, ticker, senders and Stop keeps: samples conserved in order, each batch with a lawful fate, each batch in flight held by exactly one thread, and the buffer bound |
| VictoriaMetrics.InvRun | backend/internal/metrics/victoriametrics.go:53-133 | the same over every run |
| VictoriaMetrics.NothingLostOrReordered | backend/internal/metrics/victoriametrics.go:76-79 | in every interleaving the taken batches in take order followed by the buffer are exactly what was appended |
| VictoriaMetrics.EveryBatchHasOneFate | backend/internal/metrics/victoriametrics.go:119-133 | every batch is in flight with one holder, delivered after fewer than three failures, or dropped after exactly three |
| VictoriaMetrics.WriteDecides | backend/internal/metrics/victoriametrics.go:76-84 | a writer sets out to flush exactly when its sample brings the buffer to batchSize |
| VictoriaMetrics.SoloBatchesAreFull | backend/internal/metrics/victoriametrics.go:76-84 | with one writer, no tick and no flush by Stop, every batch ever taken holds exactly a full buffer |
| VictoriaMetrics.FullBufferHasFlusher | backend/internal/metrics/victoriametrics.go:81-84 | a buffer at or over batchSize has a writer on its way to flush it, and exceeds batchSize - 1 by at most the number of such writers |
| VictoriaMetrics.NothingDeliveredAfterStop | backend/internal/metrics/victoriametrics.go:135-154 | once the context is cancelled, nothing more is ever delivered, whatever steps follow |
| VictoriaMetrics.AllDeliveredIff | backend/internal/metrics/victoriametrics.go:119-133 | what arrived is as much as what was taken exactly when every batch was delivered, and then it is the same, in order |
| VictoriaMetrics.StopDeliversEverythingIff | backend/internal/metrics/victoriametrics.go:53-57 | a run that goes on after the cancellation delivers all that was appended if and only if, at the cancellation, the buffer was empty and every batch delivered, and nobody appended later |
| VictoriaMetrics.StopLosesSample | backend/internal/metrics/victoriametrics.go:53-57 | for every batch size a run in which one sample is written, Stop returns, and the sample has been dropped |
| VictoriaMetrics.FailThrice | backend/internal/metrics/victoriametrics.go:119-133 | from any reachable state, three failed attempts drop a fresh batch and release its thread |
| VictoriaMetrics.StopProgress | backend/internal/metrics/victoriametrics.go:53-57 | after the cancellation every step of the ticker or of a Stop brings that Stop nearer to its return, no other step takes it back, and a tick costs at most four steps |
| VictoriaMetrics.StopReturns | backend/internal/metrics/victoriametrics.go:53-57 | in every schedule after a call of Stop, it and the ticker take at most ten steps plus four per tick still preferred to the cancellation, and until it has returned one of the two can go on |
| VictoriaMetrics.StopWaitsForTicker | backend/internal/metrics/victoriametrics.go:53-57 | in every run of a started client a Stop that is past its wait finds the ticker gone |
| VictoriaMetrics.VictoriaMetricsWriter.constructor | backend/internal/metrics/victoriametrics.go:33-46 | the client starts with an empty buffer |
| VictoriaMetrics.VictoriaMetricsWriter.Append | backend/internal/metrics/victoriametrics.go:76-79 | on the real array: the buffer grows by the sample, earlier batches keep their contents, and the writer is told to flush exactly when the buffer has reached batchSize |
| VictoriaMetrics.VictoriaMetricsWriter.Take | backend/internal/metrics/victoriametrics.go:104-115 | the batch gets a fresh array; the same backing array is reused from its front, and no batch ever changes with it |
| VictoriaMetrics.VictoriaMetricsWriter.Attempt | backend/internal/metrics/victoriametrics.go:126-130 | what goes out is the batch as it was taken, whatever happened to the buffer since |
| VictoriaMetrics.SendWithRetry | backend/internal/metrics/victoriametrics.go:119-133 | at most maxRetries requests, each the whole batch, stopping at the first accepted; sleeps of 1, 2, 4, ... seconds; with three tries the batch ends delivered or dropped as the steps say |
| TokenBucket.GrantsSinceCreation | notification-service/internal/notifier/telegram.go:30-62 | since creation never more than maxTokens plus one grant per whole refill period |
| TokenBucket.GrantsFromState | notification-service/internal/notifier/telegram.go:39-62 | from any state, at most the tokens in hand plus one per whole period since the last refill |
| TokenBucket.GrantsInInterval | notification-service/internal/notifier/telegram.go:39-62 | in any interval of any run at most maxTokens plus one per whole period plus one |
| TokenBucket.IntervalBoundIsTight | notification-service/internal/notifier/telegram.go:45-52 | for every capacity from one and every period from two nanoseconds, calls in some interval reach that bound |
| TokenBucket.PlainBoundFailsIff | notification-service/internal/notifier/telegram.go:39-62 | from a bucket at the opening of an interval, some calls exceed maxTokens plus one per whole period if and only if the bucket has capacity, is full, was refilled less than a period ago, and a further period boundary counted from that refill falls into the interval |
| TokenBucket.PlainBoundIff | notification-service/internal/notifier/telegram.go:39-62 | the bound without the extra one holds in every interval of every run if and only if there is no capacity or the period is one nanosecond |
| TokenBucket.GrantsSplit | notification-service/internal/notifier/telegram.go:39-62 | a run can be cut anywhere: the grants add up |
| TokenBucket.GrantedIff | notification-service/internal/notifier/telegram.go:39-62 | on a bucket whose tokens are not negative, a call is granted exactly when a token is left, or a whole period has passed and the bucket has capacity |
| TokenBucket.CallsAtOnce | notification-service/internal/notifier/telegram.go:39-62 | any number of calls at one instant after any pause: all whole periods that have passed are added at once up to the capacity, exactly so many calls are granted, and the period restarts at this instant |
| TokenBucket.QuoTruncates | notification-service/internal/notifier/telegram.go:46 | the quotient of durations truncates toward zero |
| TokenBucket.NeverGrantsWithoutCapacity | notification-service/internal/notifier/telegram.go:30-62 | a bucket built without capacity never grants |
| TokenBucket.RateLimiter.constructor | notification-service/internal/notifier/telegram.go:30-37 | a new bucket is full |
| TokenBucket.RateLimiter.Allow | notification-service/internal/notifier/telegram.go:39-62 | the method computes the specified answer and new fields |
| TokenBucket.RateLimiter.WaitForToken | notification-service/internal/notifier/telegram.go:80-87 | a lone caller's 100 ms loop ends with a grant, having slept at most one refill period and one sleep more; it does not sleep if the first call is granted |
| RateLimit.MapAgreesWithHistory | backend/internal/api/middleware/rate_limit.go:82-117 | after any run, the pruned map answers every later window query as the full history of accepts does |
| RateLimit.CleanupIs | backend/internal/api/middleware/rate_limit.go:82-99 | a cleanup keeps exactly the timestamps inside the window and the ips that have one |
| RateLimit.AllowStores | backend/internal/api/middleware/rate_limit.go:101-117 | an accepted request leaves the timestamps inside the window and its own; a refused one, and other ips, change nothing |
| RateLimit.AllowsExactly | backend/internal/api/middleware/rate_limit.go:101-117 | a request is allowed if and only if fewer than limit requests of its ip were accepted in the last window |
| RateLimit.AnswersFollowHistory | backend/internal/api/middleware/rate_limit.go:82-117 | all answers of a run are those of the full history |
| RateLimit.CleanupIsInvisible | backend/internal/api/middleware/rate_limit.go:82-99 | removing every cleanup from a run changes no answer |
| RateLimit.NoWindowOverflows | backend/internal/api/middleware/rate_limit.go:101-117 | no span of one window length holds more than limit accepts of one ip |
| RateLimit.RateLimiter.constructor | backend/internal/api/middleware/rate_limit.go:66-71 | a new limiter remembers nothing |
| RateLimit.RateLimiter.Allow | backend/internal/api/middleware/rate_limit.go:101-117 | the loop and the map update compute the specified step; a refusal leaves the map alone |
| RateLimit.RateLimiter.Cleanup | backend/internal/api/middleware/rate_limit.go:82-99 | whatever the iteration order, every list is pruned and empty ones are removed |
| RedisRateLimit.SetAgreesWithAttempts | backend/internal/api/middleware/rate_limit.go:45-49 | trimming and key expiry never lose an attempt that a window still covers |
| RedisRateLimit.RedisAllowsExactly | backend/internal/api/middleware/rate_limit.go:36-56 | Redis allows a request if and only if fewer than limit distinct attempts, refused ones included, lie in the window |
| RedisRateLimit.RedisAcceptsImplyMemoryAccepts | backend/internal/api/middleware/rate_limit.go:36-56 | on one trace with strictly increasing instants, what Redis accepts memory accepts too |
| RedisRateLimit.NoRedisWindowOverflows | backend/internal/api/middleware/rate_limit.go:36-56 | with distinct instants, no window holds more than limit Redis accepts |
| RedisRateLimit.CombinedStateSplits | backend/internal/api/middleware/rate_limit.go:36-56 | with fallback in any pattern, the state is the pair of the two limiters' own states |
| RedisRateLimit.CombinedAcceptsSplit | backend/internal/api/middleware/rate_limit.go:36-56 | the accepts in any span are the two limiters' accepts in it |
| RedisRateLimit.FallbackKeepsTwiceTheLimit | backend/internal/api/middleware/rate_limit.go:51-53 | however Redis fails and recovers, no window holds more than twice the limit |
| LimiterAgreement.SameInstantBreaksTheImplication | backend/internal/api/middleware/rate_limit.go:48 | for every limit from two, every non-empty window and instant: as many requests of that instant as the limit, after which Redis accepts one more and memory does not |
| LimiterAgreement.RedisImpliesMemoryIff | backend/internal/api/middleware/rate_limit.go:36-56 | on all traces, equal instants included, memory accepts what Redis accepts if and only if the limit is at most one or the window empty |
| LimiterAgreement.MemoryAcceptsWhatRedisRefuses | backend/internal/api/middleware/rate_limit.go:48 | for every limit from one below the window, a trace whose refused attempt makes Redis refuse what memory accepts |
| LimiterAgreement.MemoryImpliesRedisIff | backend/internal/api/middleware/rate_limit.go:36-56 | at distinct instants Redis accepts what memory accepts if and only if the limit is not positive or the window has no more instants than the limit |
| LimiterAgreement.AlikeUntilRefusal | backend/internal/api/middleware/rate_limit.go:36-56 | on every trace of distinct instants, as long as memory has refused nothing of an ip, both limiters answer its next request alike |
| LimiterAgreement.MemoryReopens | backend/internal/api/middleware/rate_limit.go:101-117 | after a full window of requests at one instant memory accepts the next exactly from one window later on |
| LimiterAgreement.RedisReopens | backend/internal/api/middleware/rate_limit.go:45-55 | after a full window of requests at consecutive instants Redis accepts the next exactly one window after the first |
| LimiterAgreement.KeyExpires | backend/internal/api/middleware/rate_limit.go:49 | the key of an ip lives for exactly one window after its last request |
| LimiterAgreement.SameInstantOverflows | backend/internal/api/middleware/rate_limit.go:48 | from a limit of two, requests of one instant are accepted by Redis without end |
| LimiterAgreement.RedisKeepsLimitIff | backend/internal/api/middleware/rate_limit.go:36-56 | on all traces Redis keeps its limit in every window if and only if the limit is at most one or the window empty |
| LimiterAgreement.FallbackKeepsBound | backend/internal/api/middleware/rate_limit.go:51-53 | however Redis fails and recovers, no window holds more than twice the limit, nor more than its instants |
| LimiterAgreement.FallbackReachesBound | backend/internal/api/middleware/rate_limit.go:51-53 | for every limit and window some run reaches that bound: twice the limit when the window is at least as long |
| LimiterAgreement.FallbackKeepsLimitIff | backend/internal/api/middleware/rate_limit.go:51-53 | with fallback every run keeps the limit if and only if the limit is not positive or the window has no more instants than the limit |
| LimiterAgreement.OneSidedSpanKeepsLimit | backend/internal/api/middleware/rate_limit.go:51-53 | in any run, a window in which one of the two limiters accepts nothing keeps the limit |
| RedisRateLimit.RedisRateLimiter.constructor | backend/internal/api/middleware/rate_limit.go:25-32 | the limiter and its fallback start empty with the same limit and window |
| RedisRateLimit.RedisRateLimiter.Allow | backend/internal/api/middleware/rate_limit.go:36-56 | without a client or on a pipeline error the in-memory limiter decides and Redis is untouched; otherwise the other way round |
| StableDedupe.Hash | backend/internal/ingest/ingester.go:208-226 | piece by piece, the hashed text is the specified one |
| StableDedupe.FieldsInOrder | backend/internal/ingest/ingester.go:208-226 | split at the bars, the text is the device, source, component, type, severity, message and, if present, the instant, in this order |
| StableDedupe.RoundTrip | backend/internal/ingest/ingester.go:208-226 | when the first five fields hold no separator, every field can be read back from the text, whatever the message contains |
| StableDedupe.SameTextIff | backend/internal/ingest/ingester.go:208-226 | two events share a text if and only if their fields agree, or the untimed one's message spells out the other's message and instant |
| StableDedupe.DistinctEventsDistinctKeys | backend/internal/ingest/ingester.go:208-226 | under an injective hash, events that all have or all lack an instant share a key if and only if their fields agree |
| StableDedupe.MixedPresenceCollides | backend/internal/ingest/ingester.go:221-224 | mixed presence of the instant does collide |
| EventIngest.InvStep | backend/internal/ingest/ingester.go:153-206 | every deliver, handle, ack and nak keeps: unique keys, rows by first writers, and acknowledged messages in the table |
| EventIngest.InvRun | backend/internal/ingest/ingester.go:153-206 | the same over every run |
| EventIngest.RowOfIs | backend/internal/ingest/ingester.go:172-203 | what handling writes: the parsed device, the given key or else the hash of the text, and the event; undecodable messages and bad device ids are errors |
| EventIngest.SettledAsHandled | backend/internal/ingest/ingester.go:158-165 | a handled and settled delivery acknowledges its message exactly if it is well formed and the insert succeeded |
| EventIngest.AckedExactlyOnce | backend/internal/ingest/ingester.go:158-165 | under at-least-once delivery, an acknowledged event is in exactly one row of its key, with the first handled content |
| EventIngest.RedeliveryChangesNothing | backend/internal/db/hardware_event_repository.go:20-35 | handling a message again leaves the table as it is, whatever the outcome |
| EventIngest.KeysAreThoseHandled | backend/internal/db/hardware_event_repository.go:20-35 | a key is in the table if and only if a message with that key was handled |
| EventIngest.OrderAndRepeatsDoNotMatter | backend/internal/db/hardware_event_repository.go:20-35 | two runs that handled the same messages end with the same keys, and with the same rows if no key has two contents |
| EventIdentity.SameRowKeyIff | backend/internal/ingest/ingester.go:183-226 | under an injective hash two plain events share a row if and only if their fields agree or one spells out the other, when neither brings a key, and otherwise if they are of one device and the given key is the other's key |
| EventIdentity.AckedStandsOrIsSwallowed | backend/internal/ingest/ingester.go:172-226 | in every run an acknowledged event has exactly one row of its key, with its own fields, or with those of an event it is confused with in one of these ways |
| EventIdentity.AckedStandsWithItsFields | backend/internal/ingest/ingester.go:172-226 | of plain events that bring no key and all have or all lack an instant, no acknowledged one is lost: a row with its own fields is in the table |
| EventIngest.HardwareEventRepository.InsertIfNotExists | backend/internal/db/hardware_event_repository.go:21-57 | the row is appended if and only if its key is new, also when the client sees an error after the fact |
| EventIngest.Ingester.HandleEventMsg | backend/internal/ingest/ingester.go:172-206 | an undecodable message, a bad device id or a failed insert is an error; otherwise the row with the given or computed key is inserted if absent |
| EventIngest.Ingester.ConsumeFetched | backend/internal/ingest/ingester.go:158-165 | one fetched batch: each message acknowledged exactly when handled, and every acknowledged key is in the table |
| MetricsIngest.CoreLabelsEnforced | backend/internal/ingest/ingester.go:121-131 | a written sample has its own name, value and instant, both core labels, its own values where it had them, and no other labels |
| MetricsIngest.RefusedMessageLeavesPrefix | backend/internal/ingest/ingester.go:132-134 | a message refused midway has left a non-empty prefix behind, ending with the sample that failed |
| MetricsIngest.Ingester.HandleMetricsMsg | backend/internal/ingest/ingester.go:116-137 | what a handling appends: the labelled samples in order up to the first error, that one included; the message fails exactly when it cannot be decoded or a write fails |
| MetricsIngest.Ingester.WriteSample | backend/internal/ingest/ingester.go:121-134 | one sample with its labels completed |
| MetricsIngest.Ingester.ConsumeFetched | backend/internal/ingest/ingester.go:102-109 | the log grows by what each message leaves, refused ones included; a message is acknowledged exactly when all its writes succeeded, and then stands in the log whole, in order and labelled |
| MetricsDelivery.InvStep | backend/internal/ingest/ingester.go:102-137 | every delivery, handling, ack and nak keeps: the log holds of each message what its handlings left, and acknowledged messages whole |
| MetricsDelivery.InvRun | backend/internal/ingest/ingester.go:102-137 | the same over every run |
| MetricsDelivery.SettledAsHandled | backend/internal/ingest/ingester.go:102-109 | a handled and settled delivery acknowledges its message exactly if it was decoded and every write succeeded |
| MetricsDelivery.LogIsWhatHandlingsLeft | backend/internal/ingest/ingester.go:121-136 | in every run the log holds of each message, refused ones included, exactly the prefixes its handlings reached |
| MetricsDelivery.LeftOnceIff | backend/internal/ingest/ingester.go:121-136 | handlings of which one succeeds leave the batch exactly once if and only if there was just one |
| MetricsDelivery.AckedStandsOnceIff | backend/internal/ingest/ingester.go:102-109 | an acknowledged message stands in the log at least once, in one piece, and exactly once if and only if it was handled once or is empty |
| MetricsDelivery.AckedStandsTwice | backend/internal/ingest/ingester.go:102-109 | for every batch with samples a run in which the message is acknowledged, was handled twice and does not stand in the log exactly once |
| MetricsPipeline.InvRun | backend/internal/ingest/ingester.go:102-137 | consumer, ticker, senders and Stop in any interleaving keep: the client's invariant, and every sample of an acknowledged message appended |
| MetricsPipeline.AckedIsAppended | backend/internal/ingest/ingester.go:132-136 | every sample of an acknowledged message is in a taken batch or in the buffer |
| MetricsPipeline.AckedAfterReturn | backend/internal/ingest/ingester.go:102-109 | a message is acknowledged only when all its samples are written and its last WriteMetric has returned |
| MetricsPipeline.FailedWriteIsNotAcked | backend/internal/ingest/ingester.go:132-134 | when the batch the consumer itself sends is dropped, the message is given up without acknowledgement |
| MetricsPipeline.DeliveredForGood | backend/internal/metrics/victoriametrics.go:104-133 | a delivered message stays delivered |
| MetricsPipeline.HopelessForGood | backend/internal/metrics/victoriametrics.go:104-133 | a sample that is neither delivered nor on its way under a live context stays undelivered in every continuation without another delivery of its message |
| MetricsPipeline.Settle | backend/internal/metrics/victoriametrics.go:76-133 | from every state with a live context a continuation writes, flushes and sends everything outstanding, and loses no sample that was on its way |
| MetricsPipeline.DeliverableIff | backend/internal/metrics/victoriametrics.go:53-133 | at any moment of any run, without another delivery by the broker a message can still reach the store if and only if each sample is delivered, or the context is live and the sample is buffered, in flight or about to be written |
| MetricsPipeline.AckedDeliverableIff | backend/internal/ingest/ingester.go:102-109 | for an acknowledged message not being handled again: if and only if each sample is delivered, or the context is live and the sample is buffered or in flight |
| MetricsPipeline.SafeIffDelivered | backend/internal/metrics/victoriametrics.go:53-85 | at any moment of any run a message can still reach the store in every future without another delivery if and only if all its samples have been delivered |
| MetricsPipeline.AckedCanBeLost | backend/internal/ingest/ingester.go:132-136 | for every batch size a run in which a message is acknowledged, three attempts fail, the client is not stopped, and the message can no longer reach the store |
| SqlText.ReadWhereText | backend/internal/db/device_repository.go:149-152 | the WHERE text written for any list of clauses is read back as that list |
| SqlText.ReadSetText | backend/internal/db/device_repository.go:298-306 | the SET text written for any list of assignments is read back as that list |
| SqlText.ReadOwn | backend/internal/db/device_repository.go:119-147 | each clause is read back with its placeholders, whatever follows it |
| SqlText.AtoiItoa | backend/internal/db/device_repository.go:120 | placeholder numbers survive printing and reading |
| DeviceList.WhereMeansFilter | backend/internal/db/device_repository.go:113-152 | on every row the WHERE text, run with its arguments alone or with more behind them, says what the filter means |
| DeviceList.FilterMeans | backend/internal/db/device_repository.go:119-147 | each field of the filter restricts its own column: equality, a shared tag, or the search between two percent signs in either of two columns |
| DeviceList.FullFilterText | backend/internal/db/device_repository.go:119-152 | the WHERE text for any filter with every field, piece by piece |
| DeviceList.FullFilterArgs | backend/internal/db/device_repository.go:119-147 | its arguments, in order |
| DeviceList.ClampedPage | backend/internal/db/device_repository.go:163-165 | a page from 1 on is kept, a smaller one becomes 1 |
| DeviceList.PlaceholdersInRange | backend/internal/db/device_repository.go:113-147 | every placeholder has an argument and every argument a placeholder |
| DeviceList.BuildList | backend/internal/db/device_repository.go:113-186 | both queries select exactly the rows the filter means; LIMIT and OFFSET are the last two arguments, the clamped size and the start of the clamped page |
| DeviceList.Builder.AddEqual | backend/internal/db/device_repository.go:119-135 | an optional equality adds one clause and one argument under the next number, or nothing |
| DeviceList.Builder.AddTags | backend/internal/db/device_repository.go:137-141 | the same for a non-empty tag list |
| DeviceList.Builder.AddSearch | backend/internal/db/device_repository.go:143-147 | the same for a non-empty search, both columns on one argument |
| DeviceList.ClampedSize | backend/internal/db/device_repository.go:166-171 | a page size from 1 to 100 is kept, a smaller one becomes 20 and a larger one 100 |
| DevicePages.CutIsDetermined | backend/internal/db/device_repository.go:182-183 | where no tie crosses a cut, every order the database may choose puts the same rows before it |
| DevicePages.SlicesFollowOneOrder | backend/internal/db/device_repository.go:182-183 | with clean cuts, slices taken from separate orders make up the prefix of one order |
| DevicePages.PagesFollowOneOrder | backend/internal/db/device_repository.go:173-186 | pages 1 to k, each a query of its own, are together the first k pages of one order |
| DevicePages.TieRepeatsARow | backend/internal/db/device_repository.go:182-183 | any tie across a page boundary admits orders under which the pages are not the result |
| DevicePages.PagesPartitionIff | backend/internal/db/device_repository.go:173-186 | the pages show every matching row exactly once, whatever orders the queries see, if and only if no tie crosses a page boundary |
| DevicePages.ResultIsStrict | backend/internal/db/device_repository.go:182 | distinct creation instants in the table make every result's order strict |
| DevicePages.ListPagesPartition | backend/internal/db/device_repository.go:113-214 | with distinct creation instants, the pages of any filter at its clamped size partition the matching rows, as many as the count query reports |
| DevicePages.RequestedPagesPartition | backend/internal/db/device_repository.go:162-186 | pages 1 to k, each asked for with the LIMIT and OFFSET among the builder's arguments, show each row of the table that the filter means exactly as often as the table holds it |
| DevicePages.NewerPagesFirst | backend/internal/db/device_repository.go:182-183 | a row on an earlier page was created no earlier than one on a later page |
| DeviceUpdate.UpdateMeansPatch | backend/internal/db/device_repository.go:218-306 | executing the SET text with its arguments patches the rows with the id, column by column, and no other row or column |
| DeviceUpdate.BuildUpdate | backend/internal/db/device_repository.go:218-306 | for every patch and table the built statement is valid and has that effect; the id is always the last argument |
| DeviceUpdate.IdentityMeans | backend/internal/db/device_repository.go:220-258 | updated_at and the six identity columns after a patch, column by column |
| DeviceUpdate.SettingsMean | backend/internal/db/device_repository.go:260-294 | the six settings columns after a patch, column by column |
| DeviceUpdate.TableMeans | backend/internal/db/device_repository.go:296-301 | exactly the rows with the id are patched |
| DeviceUpdate.SetPiece | backend/internal/db/device_repository.go:220-294 | the i-th piece of the SET text and its argument |
| DeviceUpdate.AssignHits | backend/internal/db/device_repository.go:298-301 | with distinct columns, an assigned column gets its own argument |
| DeviceUpdate.AssignElsewhere | backend/internal/db/device_repository.go:298-301 | a column that is not assigned keeps its value |
| DeviceUpdate.NamesDiffer | backend/internal/db/device_repository.go:220-294 | no two columns of the builder share a name |
| DeviceUpdate.Builder.constructor | backend/internal/db/device_repository.go:220-222 | updated_at is always set, by placeholder 1 |
| DeviceUpdate.Builder.Add | backend/internal/db/device_repository.go:224-294 | a present field adds one assignment under the next number, an absent one nothing |
| Retry.BackoffExact | collectors/ipmi-collector/internal/collector/retry.go:64-68 | through the 34th failure the 64-bit computation yields the documented delay |
| Retry.BackoffWraps | collectors/ipmi-collector/internal/collector/retry.go:65 | at the 35th it is negative |
| Retry.BackoffDocumentedIff | collectors/ipmi-collector/internal/collector/retry.go:64-68 | the documented delays hold all through a streak if and only if it has at most 34 failures |
| Retry.CountIsTrailingFailures | collectors/ipmi-collector/internal/collector/retry.go:50-93 | the stored count is the device's number of trailing failed polls |
| Retry.HealthyIsPolled | collectors/ipmi-collector/internal/collector/retry.go:39-48 | a device that has not failed since its last success, or has never been polled, is polled at every visit |
| Retry.OthersUntouched | collectors/ipmi-collector/internal/collector/retry.go:50-85 | a visit touches no other device's state |
| Retry.DevicesAreIndependent | collectors/ipmi-collector/internal/collector/retry.go:39-93 | what is stored for a device depends on its own visits alone |
| Retry.WaitedClosedForm | collectors/ipmi-collector/internal/collector/retry.go:64-68 | the delays of a streak add up to 2^n - 1 seconds until the tenth failure, and ten minutes more for each after it |
| Retry.GateFollowsStreak | collectors/ipmi-collector/internal/collector/retry.go:270-325 | during a streak of at most 34 failures the gate stays shut until the summed delays after its first poll are over |
| Retry.StreakIsSpacedOut | collectors/ipmi-collector/internal/collector/retry.go:270-325 | from the first to the (n+1)th poll of a streak more time passes than the documented delays of the n failures |
| Retry.StreakNotSpacedOut | collectors/ipmi-collector/internal/collector/retry.go:64-70 | on every platform a run with 35 failures in a row after which the next poll comes before the documented delays are over |
| Retry.SpacedOutIff | collectors/ipmi-collector/internal/collector/retry.go:270-325 | streaks of up to n failures are spaced out by the documented delays in every run if and only if n is at most 34 |
| Retry.GateOpenAfter35Failures | collectors/ipmi-collector/internal/collector/retry.go:65-70 | after the 35th failure in a row the gate is open at once |
| Retry.RetryManager.ShouldRetry | collectors/ipmi-collector/internal/collector/retry.go:39-48 | open for an unknown device and strictly after the next attempt of a known one |
| Retry.RetryManager.RecordFailure | collectors/ipmi-collector/internal/collector/retry.go:50-80 | the device's new state, nothing else, and the delay of its new count |
| Retry.RetryManager.RecordSuccess | collectors/ipmi-collector/internal/collector/retry.go:82-85 | forgets the device and no other |
| Retry.PollDeviceWithRetry | collectors/ipmi-collector/internal/collector/retry.go:270-325 | one visit is one step of the run; a device is handed to SNMP exactly at a failure that is at least the third in a row |
| PollCycle.InvStep | collectors/ipmi-collector/internal/collector/ipmi.go:298-330 | every spawn, acquire, poll, release and reload keeps the count of tokens and the log of polls, and all but a reload bring the end one step nearer |
| PollCycle.InvRun | collectors/ipmi-collector/internal/collector/ipmi.go:298-330 | the same over every schedule; the snapshot never changes |
| PollCycle.SemaphoreHolds | collectors/ipmi-collector/internal/collector/ipmi.go:311-325 | tokens in the channel are the running polls and never more than maxConcurrent |
| PollCycle.PolledExactlyOnce | collectors/ipmi-collector/internal/collector/ipmi.go:298-330 | no device is polled twice, and a finished cycle has polled each of its snapshot, whatever was reloaded meanwhile |
| PollCycle.PolledInOrder | collectors/ipmi-collector/internal/collector/ipmi.go:315-325 | the log of polls only grows, at its end |
| PollCycle.NeverStuck | collectors/ipmi-collector/internal/collector/ipmi.go:311-328 | with a positive limit an unfinished cycle can always move |
| PollCycle.ReadyCanStart | collectors/ipmi-collector/internal/collector/ipmi.go:312-322 | in every schedule a waiting goroutine can acquire exactly while fewer than maxConcurrent are running |
| PollCycle.LimitIsReached | collectors/ipmi-collector/internal/collector/ipmi.go:312-325 | for every limit as many polls as the limit and the devices allow can be running at once |
| PollCycle.CycleEnds | collectors/ipmi-collector/internal/collector/ipmi.go:315-328 | every schedule finishes after exactly four steps per device |
| PollCycle.ZeroLimitBlocks | collectors/ipmi-collector/internal/collector/ipmi.go:312-322 | with limit zero nothing is ever polled and only an empty cycle finishes |
| PollCycle.IPMICollector.PollAllDevices | collectors/ipmi-collector/internal/collector/ipmi.go:298-330 | under any scheduler, with reloads in between, the cycle ends and each device listed at its start was polled exactly once |
| Transactions.DB.WithTransaction | backend/internal/db/postgres.go:238-275 | nil exactly when one of three attempts commits after deadlocks only, the store then being one application of the function to the state at its begin; on error nothing is left behind; the statement after the loop is unreachable |
| Transactions.LastAttemptDecides | backend/internal/db/postgres.go:243-272 | the attempt at which the loop stops is clean if and only if some attempt would be reached and clean |
| Transactions.DeadlockIff | backend/internal/db/postgres.go:226-231 | a deadlock is the driver's message or any text with 40P01 in it |
| Transactions.QuietWorld | backend/internal/db/postgres.go:243-272 | if nobody else writes, every attempt begins with the original store |
| Sel.EventDominatesCount | collectors/ipmi-collector/internal/collector/ipmitool.go:436-456 | on every line with five fields the event's severity is at least the counter's |
| Sel.NonCriticalIsCritical | collectors/ipmi-collector/internal/collector/ipmitool.go:445-456 | a text with "non-critical" is always critical; the exact condition for a warning |
| Sel.EventSeverityIff | collectors/ipmi-collector/internal/collector/retry.go:239-246 | the words that make an event critical, or a warning, anywhere in its line |
| Sel.FifthFieldDecides | collectors/ipmi-collector/internal/collector/ipmitool.go:436-456 | a line of bar-separated fields is counted exactly with five or more, by its fifth field alone, trimmed |
| Sel.ScannerLimit | collectors/ipmi-collector/internal/collector/ipmitool.go:429-430 | a line of up to 65535 characters is scanned, without its carriage return; a longer one ends the scan |
| Sel.EntryIff | collectors/ipmi-collector/internal/collector/ipmitool.go:432-434 | an entry is a line that is neither empty nor begins with "SEL has no entries" |
| Sel.TotalsAre | collectors/ipmi-collector/internal/collector/ipmitool.go:423-457 | the totals are the numbers of entries of each severity |
| Sel.ScannedEntriesAreFirst | collectors/ipmi-collector/internal/collector/ipmitool.go:429-434 | the counter's entries are a prefix of the normaliser's, all of them when every line fits the scanner |
| Sel.CountsSum | collectors/ipmi-collector/internal/collector/ipmitool.go:423-457 | the three counts sum to the entries with at least five fields |
| Sel.TotalsDominate | collectors/ipmi-collector/internal/collector/retry.go:234-265 | entry by entry, critical events and critical-or-warning events dominate the counts |
| Sel.EventsDominateCounts | collectors/ipmi-collector/internal/collector/retry.go:229-267 | so they do on every log text, long lines or not |
| Sel.ParseSELEntries | collectors/ipmi-collector/internal/collector/ipmitool.go:422-457 | the loop's counts are those of the scanned entries and sum as stated |
| Sel.CountEntry | collectors/ipmi-collector/internal/collector/ipmitool.go:436-456 | one entry adds one to the count of its class, or to none if it has fewer than five fields |
| Sel.NormalizeSEL | collectors/ipmi-collector/internal/collector/retry.go:229-267 | one event per entry, in order, each with the line's severity, text and key |
| Strings.TrimIsPart | collectors/ipmi-collector/internal/collector/ipmitool.go:443 | a trimmed text is part of the text |
| Strings.SplitIsPart | collectors/ipmi-collector/internal/collector/ipmitool.go:437 | a field is part of its line |
| Strings.TrimIs | collectors/ipmi-collector/internal/collector/ipmitool.go:431 | trimming removes all white space at both ends and nothing else |
| Strings.SplitJoined | collectors/ipmi-collector/internal/collector/ipmitool.go:437 | splitting undoes joining |
| Strings.ContainsIff | backend/internal/db/postgres.go:230 | containing is standing between two texts |
| ProtocolDetector.ReportOrderFreeIff | backend/internal/services/protocol_detector.go:94-102 | vendor, model and controller type are the same for every arrival order if and only if the probes that report one agree |
| ProtocolDetector.ArrivalCovers | backend/internal/services/protocol_detector.go:90-93 | every probe's result arrives |
| ProtocolDetector.RecommendationUnique | backend/internal/services/protocol_detector.go:109-125 | the priority list leaves no choice of recommendation |
| ProtocolDetector.RecommendedIs | backend/internal/services/protocol_detector.go:109-125 | the recommendation, protocol by protocol: redfish, snmp, ipmi, ssh, else "unknown" |
| ProtocolDetector.ProbeTable | backend/internal/services/protocol_detector.go:63-70 | the six probes with their ports, each with its own availability and error |
| ProtocolDetector.FirstReportIsSome | backend/internal/services/protocol_detector.go:94-102 | the report kept is the first non-empty one to arrive |
| ProtocolDetector.AvailableMembers | backend/internal/services/protocol_detector.go:164-168 | the fallback list holds exactly the managed protocols that some probe offers |
| ProtocolDetector.AvailableIs | backend/internal/services/protocol_detector.go:163-168 | the fallback list of a detection in order: redfish, ipmi, snmp, ssh, each if available |
| ProtocolDetector.ListedMembers | backend/internal/services/protocol_detector.go:138-161 | a recognised vendor's list holds exactly the protocols its vendor and controller support |
| ProtocolDetector.VendorTable | backend/internal/services/protocol_detector.go:138-161 | which vendors are recognised, and the list for each vendor and controller |
| ProtocolDetector.MapCapabilities | backend/internal/services/protocol_detector.go:132-172 | the whole list in order, by vendor and controller, or from the probes for an unrecognised vendor |
| ProtocolDetector.Recommend | backend/internal/services/protocol_detector.go:109-125 | the first of redfish, snmp, ipmi, ssh that some probe offers, else "unknown" |
| ProtocolDetector.InPriorityOrderIff | backend/internal/services/protocol_detector.go:49-107 | the available results are listed in order of priority if and only if IPMI and SNMP are not both available |
| ProtocolDetector.Collect | backend/internal/services/protocol_detector.go:90-107 | for every arrival order each result lands in its own place, and the first non-empty reports are kept |
| ProtocolDetector.Detect | backend/internal/services/protocol_detector.go:72-130 | probes and recommendation do not depend on the arrival order; exactly when the recommended protocol is among the supported ones |
| ResponseCache.MapAgreesWithHistory | backend/internal/api/middleware/cache.go:41-66 | the map holds the last stored response, or has lost it only after it expired |
| ResponseCache.HitIsLastStored | backend/internal/api/middleware/cache.go:52-60 | a lookup answers the most recently stored 200 response for that URL exactly while its time to live lasts |
| ResponseCache.HitReplaysResponse | backend/internal/api/middleware/cache.go:86-88 | a hit has status 200 and the content type and body of the last stored response |
| ResponseCache.LastStoredIsLast | backend/internal/api/middleware/cache.go:101-108 | a stored response that no later store or invalidation replaces is the one answered |
| ResponseCache.CleanupIsInvisible | backend/internal/api/middleware/cache.go:41-50 | removing every cleanup from a run changes no answer |
| ResponseCache.InvalidateIsExact | backend/internal/api/middleware/cache.go:68-74 | invalidation removes the one URL and leaves every other answer, longer URLs included |
| ResponseCache.PrefixGoneIff | backend/internal/api/middleware/cache.go:68-74 | no URL with the prefix is answered after the invalidation, as documented, if and only if no longer URL with it has a stored response within its time to live |
| ResponseCache.PrefixSurvives | backend/internal/api/middleware/cache.go:68-74 | "/a/b" is stored, "/a" invalidated, and "/a/b" still answered |
| ResponseCache.Cache.Get | backend/internal/api/middleware/cache.go:52-60 | the entry, unless absent or expired |
| ResponseCache.Cache.CleanUp | backend/internal/api/middleware/cache.go:41-50 | whatever the iteration order, exactly the expired entries go |
| ResponseCache.Cache.Remove | backend/internal/api/middleware/cache.go:69-74 | removes the entry of one URL |
| ResponseCache.Cache.Serve | backend/internal/api/middleware/cache.go:77-110 | a GET is answered from the cache or by the handler; a handler's 200 is what a lookup then answers, with its content type and body; other answers and other verbs leave the cache alone |
| DeviceLogs.FilterInPlace | backend/internal/api/handlers/device_handler.go:705-714 | filtering over the array being read overwrites no unread entry: the result is the matches in order |
| DeviceLogs.SortSlice | backend/internal/api/handlers/device_handler.go:716-719 | some permutation, most recent first |
| DeviceLogs.SortAndCut | backend/internal/api/handlers/device_handler.go:716-725 | after the cut, the first limit entries of a descending order of the matches |
| DeviceLogs.Select | backend/internal/api/handlers/device_handler.go:705-725 | on the one shared array: total counts all matches, and the result is a latest selection of them |
| DeviceLogs.GetDeviceLogs | backend/internal/api/handlers/device_handler.go:642-733 | both logs merged, filtered, sorted and cut at the given limit, or 50 when it is missing or below 1; empty without inventory |
| DeviceLogs.GreaterIff | backend/internal/api/handlers/device_handler.go:718 | text order: at the first difference the larger character, or the other text has ended |
| DeviceLogs.MergedEntries | backend/internal/api/handlers/device_handler.go:684-702 | every stored entry is merged once, the event log first, with its source named and its fields in place |
| DeviceLogs.MatchingIff | backend/internal/api/handlers/device_handler.go:705-714 | an entry is among the matches as often as merged, exactly for "all" or an equal severity |
| DeviceLogs.KeptAreLatest | backend/internal/api/handlers/device_handler.go:716-725 | kept and dropped entries make up the matches, and no dropped one is more recent than a kept one |
| DeviceLogs.TimestampsDetermined | backend/internal/api/handlers/device_handler.go:716-719 | however the sort breaks ties, the same timestamps are shown in the same places |
| DeviceLogs.RankOf | backend/internal/api/handlers/device_handler.go:716-719 | in a descending list an entry's position is fixed by how many entries are at least as recent |
| DeviceLogs.LatestInTimeIff | backend/internal/api/handlers/device_handler.go:716-725 | whatever the limit and the ties, the kept entries are the latest in time if and only if, of any two matches, the one earlier in time is smaller as text |

## Left out

Assumptions behind the model:

- Concurrency is modelled at the grain of locked sections, I/O calls and channel operations; memory-model effects inside them are not.
- RedisRateLimit: scores are exact integers. Redis keeps them as 64-bit floats, and the rounding of nanosecond scores is not modelled.
- RedisRateLimit: a key expires exactly one window after its last request; the client's rounding of the expiry to whole seconds is not modelled. A failed pipeline is taken to have had no effect.
- RedisRateLimit.FallbackKeepsTwiceTheLimit: assumes distinct instants, as do the LimiterAgreement results about the fallback and MemoryImpliesRedisIff; with equal instants Redis alone can exceed any bound (SameInstantOverflows).
- TokenBucket.RateLimiter.WaitForToken: models a lone caller; with several callers one of them may wait longer, and fairness is not claimed.
- TokenBucket.RateLimiter.Allow: requires a positive refill period, since the source's division panics on zero; the notifiers pass one and two seconds.
- VictoriaMetrics: a delivered batch is one whose request was answered with success; a request that the server applied although its answer was lost counts as failed. The request time-out, compression and label order within a sample are not modelled, and Start is called once.
- VictoriaMetrics.VictoriaMetricsWriter.constructor: takes a batch size that is not negative, since allocation panics otherwise. The steps and their theorems hold for every batch size.
- MetricsIngest.Ingester.HandleMetricsMsg: takes the error of each write as given; MetricsPipeline replaces it by the client's steps, with one consumer and no labels or values.
- MetricsDelivery: a handling is one step; that WriteMetric buffers without sending is in MetricsPipeline.
- Retry: one visit per device at a time. The retry map has no lock; each access is one atomic step, and two rows of the same device in one snapshot are not modelled.
- Retry.PollDeviceWithRetry: reports that a device is handed over to SNMP; what the hand-over writes to the database is not modelled.
- PollCycle.IPMICollector.LoadDevices: takes the loaded list as given; which rows the query and the decryption let through is not modelled.
- Retry: converting 2^n beyond 62 bits to an integer is left to the platform, as an arbitrary number.
- Transactions: nobody else commits between the BEGIN and the COMMIT of an attempt; what others commit is met at the next BEGIN.
- Transactions: a commit that reports an error has had no effect; a commit that took effect although its answer was lost is not modelled.
- EventIngest: identity columns (id, created_at) and the JSON columns stand in one opaque content; the unique index on (device_id, dedupe_key) is taken from the migration that creates the table. Rows deleted by other means are not modelled.
- StableDedupe: the instant is its RFC 3339 text; formatting it is not modelled, only that it holds no separator.
- DeviceList and DeviceUpdate: a table is a sequence of rows; the fixed SQL around the WHERE and SET lists, column types, constraints and the RETURNING row are not modelled. The address column is compared by its text.
- DeviceList.BuildList: page arithmetic is unbounded; overflow of (page - 1) * size in 64 bits for enormous page numbers is not modelled.
- DevicePages: the table does not change between the page queries.
- DevicePages.PagesPartitionIff: assumes that no two rows are equal in all columns, which the primary key ensures.
- Sel: text lengths are counted in characters; the scanner counts bytes, so its line limit is reached earlier for text outside ASCII.
- DeviceLogs.SortSlice: stands for the library sort with any permutation in descending order; timestamps are compared as texts, as the source does. How a text denotes an instant is a function given to LatestInTimeIff.
- DeviceLogs.GetDeviceLogs: starts after the device has been found; decoding of the stored JSON and scanning of the limit parameter are given by what they yield.
- ProtocolDetector.Detect: the brackets of an IPv6 address and the probes' own I/O are left out; probe outputs are given.
- ResponseCache: of a response only status, content type and body are kept, as in the source; the key is an injective function of the URL.

Parts of the repository that are not part of this model:

- Clients and I/O: HTTP, SMTP, Slack and Telegram, ipmitool, Redfish, SNMP, NATS, Redis.
- `sendWithRetry` of the notifiers, which repeats the loop proved in `VictoriaMetrics.SendWithRetry`.
- `RunMigrations`: its outcome rests on rules of a library whose text is not part of this model.
- The inventory repository (`UpsertInventory`, `GetInventory`), configuration loading, role checks and CORS: field copying and settled branches.
- AES-GCM, bcrypt and JWT: thin wrappers around library cryptography.
- Redfish synchronisation and its extractors, and the ipmitool parsers other than `parseSELEntries`.
- `TimeoutMiddleware` and the event-stream loop, which depend on the web framework's internals.
- Floating-point metric values: opaque to the model.
- The web frontend and the Python collectors.
