# vectorless-server: a verified model

A Dafny model of the stateful parts of the vectorless server's request path, with proofs about whole runs.

- `TokenBucket.dfy`: the token bucket, as a class that computes with reals and as a specification on integers; bounds
  over every window of every run, the ideal bucket it refines, and the pacing at which it admits or starves a client.
- `BucketStore.dfy`: one bucket a principal, made on demand and evicted by a sweep. The class carries its history; each
  decision is that of a bucket the principal has for itself.
- `StoreSteps.dfy`: the same store with its locks, as a state machine of any number of requests beside the reaper.
- `Responses.dfy`, `Idempotency.dfy`: the response recorder, the replay, and the idempotency cache with its middleware,
  against a log of recorded responses.
- `IdempotencySteps.dfy`: the cache as a state machine in which load, check, delete, handler and store interleave.
- `EventStream.dfy`, `Sse.dfy`, `QueryStream.dfy`: the standard's event-stream parser, the frames the handlers print,
  and the single-document event loop.
- `SourceStream.dfy`: upload, the hand-written reader, and the chunk loop that streams a source back.
- `Sections.dfy`: resolving and capping selected sections, in both orders the handlers use.
- `OrderStats.dfy`: the benchmark's median, percentile, minimum and maximum.
- `Decimal.dfy`, `Arithmetic.dfy`, `Bytes.dfy`, `Options.dfy`: the decimal printer and what the others share.

Time is an integer number of nanoseconds that the caller passes in. The theorems about runs assume that it never
decreases; the specifications themselves are total. `dafny verify dfyconfig.toml` checks everything.

Where the code and its comments disagree, the model follows the code:

- The idempotency middleware is meant to prevent duplicate ingestion (internal/handler/router.go:100-101). One request
  at a time it keeps handler runs under one key more than ttl apart (`RunsAreTtlApart`). Under interleavings it does so,
  and never runs two handlers at once, as long as no step is harmful (`HarmlessRunsAreTtlApart`,
  `HarmlessRecordsAreTtlApart`). Harmful is the start of a handler while another one of the key runs or has made an
  unexpired record that is not stored yet; a delete while an unexpired record is in the map; and a store over an
  unexpired record that lasts longer. For a ttl that is not negative the condition is exact: the first harmful step,
  and nothing else, leads to a state (`UnsafeExactlyByHarm`, `ExposedExactlyByHarm`) from which at most five steps lead
  to a handler running beside an unexpired record (`ExposedIsReached`). It is enough that whoever is about to change the
  map is alone on the key (`AloneIsHarmless`). Each harm happens: `ConcurrentRequestsBothRun`,
  `StaleDeleteLosesFreshRecord`, `OverwriteLosesFreshRecord`.
- A limit of rpm requests a minute admits up to twice as many in a minute (`TwicePerMinuteIsReached`) and, to a client
  that retries too fast, none at all (`StarvedExactlyByShortGaps`). The fixed `Retry-After: 1` is right exactly for
  limits of sixty a minute and more (`RetryAfterHonouredIff`).
- A bucket evicted while a request is on its way to it still answers that request, so at every limit a principal can
  be admitted more often than one bucket would (`OrphanAdmitsBeyondOneBucket`). As long as no sweep evicts a bucket that
  one of the principal's own requests holds, which is the only way to get there (`OrphanedExactlyByEviction`), each
  decision is the principal's own bucket's (`DecisionsAreOwn`) and one bucket bounds it (`OneBucketBound`), whatever
  becomes of other principals. From every state with such an orphan the run can go on beyond that bound
  (`OrphanExceeds`); what then holds is the bound of as many buckets as answered (`AdmissionsBound`).
- A replay can differ from the original response when the handler sets the status late
  (`LateErrorIsReplayedDifferently`); `ReplayIsFaithfulIff` says when.

## Model

| member | source | states |
|---|---|---|
| TokenBuckets.TokenBucket.constructor | internal/middleware/ratelimit.go:20-25 | a new bucket is full and its clock starts now |
| TokenBuckets.TokenBucket.Allow | internal/middleware/ratelimit.go:51-70 | the call is decided, and the bucket left, as the integer specification says, for any clock reading |
| TokenBuckets.RefillIsTruncatedProduct | internal/middleware/ratelimit.go:56-60 | elapsed seconds times tokens per second, truncated toward zero, is the integer quotient, for negative spans too |
| TokenBuckets.Conservation | internal/middleware/ratelimit.go:51-70 | in every window of every run, admissions plus tokens left are at most tokens found plus what the time span earns |
| TokenBuckets.WindowBound | internal/middleware/ratelimit.go:51-70 | every window of every run admits at most the capacity plus the refill of the time between its first and last call |
| TokenBuckets.TwicePerMinute | internal/middleware/ratelimit.go:51-70 | at most 2 * rpm calls are admitted in any sixty seconds |
| TokenBuckets.TwicePerMinuteIsReached | internal/middleware/ratelimit.go:51-70 | that bound is attained by a run, for every positive rpm |
| TokenBuckets.IdealLag | internal/middleware/ratelimit.go:59-69 | in lockstep with a bucket that keeps fractions, the integer bucket never holds more and lags by less than one token a call |
| TokenBuckets.IdealAdmitsMore | internal/middleware/ratelimit.go:59-69 | every call the integer bucket admits, the ideal one admits |
| TokenBuckets.PacedCallsPass | internal/middleware/ratelimit.go:55-68 | if every gap between calls is at least 60/rpm seconds and the bucket does not start empty, every call of an unbounded run is admitted |
| TokenBuckets.StarvedExactlyByShortGaps | internal/middleware/ratelimit.go:55-68 | from an empty bucket a run is refused throughout if and only if every gap is shorter than 60/rpm seconds |
| TokenBuckets.RetryAfterHonouredIff | internal/middleware/ratelimit.go:29-36 | in every run from a new bucket a client that waits a second after a refusal is admitted next, if and only if rpm >= 60; below sixty a run shows it refused twice |
| Decimal.IntToStr | internal/middleware/ratelimit_principal.go:98-109 | the result has only digits, no needless leading zero, and reads back as n |
| Decimal.ReadTens | internal/middleware/ratelimit_principal.go:98-109 | each digit of a numeral counts ten times the next |
| Decimal.NumeralUnique | internal/middleware/ratelimit_principal.go:98-109 | two such numerals of the same value are equal, so the result is the only possible one and printing is injective |
| BucketStores.BucketStore.constructor | internal/middleware/ratelimit_principal.go:24-31 | a new store is empty and in accord with its empty history |
| BucketStores.BucketStore.Get | internal/middleware/ratelimit_principal.go:64-79 | the principal's bucket, or a new full one entered in the map, and no other bucket touched or shared |
| BucketStores.BucketStore.Decide | internal/middleware/ratelimit_principal.go:41-42 | get then allow decides as the looked-up bucket does and changes that bucket only |
| BucketStores.KeyIff | internal/middleware/ratelimit_principal.go:36-40 | two identifiers share a bucket if and only if they are equal or both are empty or "anonymous" |
| BucketStores.BucketStore.Serve | internal/middleware/ratelimit_principal.go:34-53 | a request is answered as the history says, whatever the interval and the clock, and, where eviction is invisible, as by a bucket used by its principal's calls alone; the bucket of every other identifier is untouched; a refusal carries the limit in decimal |
| BucketStores.BucketStore.Reap | internal/middleware/ratelimit_principal.go:81-96 | a sweep removes exactly the buckets last used before its time less the interval, leaves the others as they are, and the history stays in accord |
| BucketStores.PrincipalsAreIsolated | internal/middleware/ratelimit_principal.go:34-53 | in every interleaved run with reaping, each decision equals that of a bucket fed the calls made under the request's own identifier, the empty one and "anonymous" being one principal and all others distinct |
| BucketStores.OthersDoNotMatter | internal/middleware/ratelimit_principal.go:34-53 | two runs in which a principal makes the same calls answer it alike, whatever others do and whenever sweeps happen |
| BucketStores.PrincipalWindowBound | internal/middleware/ratelimit_principal.go:41-42 | in any window of a run of many principals, one is admitted at most rpm plus the refill of the window's time span |
| BucketStores.EvictionInvisible | internal/middleware/ratelimit_principal.go:81-96 | with an interval of a minute less a nanosecond or more, no run can tell the store from one that never deletes |
| BucketStores.EvictionInvisibleIff | internal/middleware/ratelimit_principal.go:29-31 | eviction is invisible if and only if the interval is at least 59999999999 nanoseconds |
| BucketStores.RetentionBounds | internal/middleware/ratelimit_principal.go:81-96 | with a sweep at least every interval from the start on, whatever the interval, buckets used within one interval are kept and those idle for two are gone |
| StoreSteps.MutualExclusion | internal/middleware/ratelimit_principal.go:85-94 | in every state of every run no lock has two holders |
| StoreSteps.NoDeadlock | internal/middleware/ratelimit_principal.go:81-96 | in every state of every run with work under way, some request or the reaper can take its next step |
| StoreSteps.WorkEnds | internal/middleware/ratelimit_principal.go:41-53 | however the steps under way are scheduled, they end within a bound counted from the state |
| StoreSteps.EveryoneFinishes | internal/middleware/ratelimit_principal.go:41-53 | from every state of every run all requests can be answered and the sweep can end |
| StoreSteps.SweepsAreComplete | internal/middleware/ratelimit_principal.go:81-96 | in every run a sweep ends only when no bucket left in the map was last used before the time it read at its beginning less the interval |
| StoreSteps.OnlyStaleAreEvicted | internal/middleware/ratelimit_principal.go:86-93 | a bucket leaves the map only at the check of a sweep that finds it last used before that time |
| StoreSteps.AnswersAreDecisions | internal/middleware/ratelimit_principal.go:42-51 | in every run as many requests of a principal are let through, and as many refused, as buckets decided so |
| StoreSteps.RequestsKeepTheirKeys | internal/middleware/ratelimit_principal.go:36-42 | a request keeps its principal through all its steps, and its answer once it has one |
| StoreSteps.AdmissionsBound | internal/middleware/ratelimit_principal.go:64-96 | in every run, with orphans or without, a principal's admissions in any window of time are at most the number of bucket objects that answered it times rpm plus the window's refill |
| StoreSteps.OrphanedExactlyByEviction | internal/middleware/ratelimit_principal.go:84-94 | a step leaves one of a principal's requests with a bucket that is not the principal's in the map if and only if it evicts a bucket that one of them holds |
| StoreSteps.DecisionsAreOwn | internal/middleware/ratelimit_principal.go:41-42 | with an interval of a minute less a nanosecond or more, and as long as none of a principal's own requests holds an evicted bucket, every decision on it in every interleaved run is that of a bucket the principal has for itself |
| StoreSteps.OneBucketBound | internal/middleware/ratelimit_principal.go:64-96 | under the same condition a principal's admissions in any window of time are at most rpm plus the window's refill, however often its bucket was evicted and made anew |
| StoreSteps.OrphanExceeds | internal/middleware/ratelimit_principal.go:41-42 | from every state of every run in which a principal's request holds a bucket that is not in the map, the run can go on to admit the principal rpm + 1 times at one instant, one more than one bucket may |
| StoreSteps.OrphanAdmitsBeyondOneBucket | internal/middleware/ratelimit_principal.go:41-42 | for every positive limit and every interval there is such a run, by an evicted bucket and its successor |
| Responses.ResponseRecorder.WriteHeader | internal/middleware/idempotency.go:79-82 | the recorder keeps the last code, and its body as it is, and passes the call on |
| Responses.ResponseRecorder.Write | internal/middleware/idempotency.go:84-87 | the recorder appends the bytes to its body, and keeps its code, and passes the call on |
| Responses.ResponseRecorder.Handle | internal/middleware/idempotency.go:141-146 | after any handler the recorder holds its recorded response and the client's writer has had exactly its calls |
| Responses.RecordedInSequence | internal/middleware/idempotency.go:79-87 | of one handler's calls after another's the recorder holds all bytes in order and the last code announced |
| Responses.ReceivedInSequence | internal/middleware/idempotency.go:71-87 | the client gets all bytes in order, under a status that allows a body, and the first status settled |
| Responses.SingleCalls | internal/middleware/idempotency.go:79-87 | what one call, and none, is recorded and received as, statuses without a body included |
| Responses.ReplayIsFaithfulIff | internal/middleware/idempotency.go:133-153 | the replay gives what the first client received if and only if the handler's last late WriteHeader, if any, repeats the status sent; the body alone agrees if and only if nothing was written or the status sent and the last code announced agree on having one |
| Responses.DisciplinedReplay | internal/middleware/idempotency.go:133-153 | with at most one WriteHeader, before any Write, replays are faithful |
| Responses.LateErrorIsReplayedDifferently | internal/middleware/idempotency.go:79-82 | a write followed by WriteHeader(500) is received as 200 and replayed as 500 |
| Idempotency.IdempotencyCache.Get | internal/middleware/idempotency.go:39-50 | the entry if and only if there is one that has not expired; an expired one is gone, and nothing else changes |
| Idempotency.IdempotencyCache.Set | internal/middleware/idempotency.go:53-55 | the entry is stored under its key and nothing else changes |
| Idempotency.IdempotencyCache.Reap | internal/middleware/idempotency.go:59-67 | exactly the expired entries go |
| Idempotency.MatchesAnyPrefix | internal/middleware/idempotency.go:160-167 | true exactly when some prefix is one of the path |
| Idempotency.Middleware.constructor | internal/middleware/idempotency.go:99-107 | a zero ttl is 24 hours, no prefixes are "/v1/documents", other values are kept, and the cache is empty |
| Idempotency.Middleware.Serve | internal/middleware/idempotency.go:119-154 | exactly the requests that are no POST, have no key or match no prefix pass through, the cache untouched; for the others the log of earlier requests, which knows nothing of the cache, decides between replay and handler run; the client gets the handler's calls or the replay |
| Idempotency.Middleware.Tick | internal/middleware/idempotency.go:109-116 | a sweep keeps the cache in accord with its history |
| Idempotency.AnswersFromLog | internal/middleware/idempotency.go:39-67 | in every run, a request is answered from the cache exactly by the response recorded last under its key, while unexpired; lazy deletes and sweeps change no answer |
| Idempotency.ReplaysTheLatestRun | internal/middleware/idempotency.go:133-153 | every replay is the response of the most recent handler run under the key, ended at most ttl ago |
| Idempotency.RunsAreTtlApart | internal/middleware/idempotency.go:133-153 | of two handler runs under one key the second starts more than ttl after the first was recorded |
| Idempotency.RepeatedPostIsReplayed | internal/middleware/idempotency.go:119-153 | of two POSTs to guarded paths with the same key, the second, arriving no later than ttl after the run of the first was recorded, does not run the handler |
| Idempotency.RunsPerWindow | internal/middleware/idempotency.go:133-153 | n handler runs under one key in a window of a run take up at least (n - 1) * (ttl + 1) nanoseconds, for any ttl, negative ones included |
| Idempotency.RetentionBound | internal/middleware/idempotency.go:109-116 | with a sweep at least every period from the start on, every entry present was recorded within the last ttl plus period, a negative ttl counting as none |
| IdempotencySteps.ReplaysCompletedRuns | internal/middleware/idempotency.go:134-153 | under every interleaving a replayed response is that of a finished handler run under the same key, unexpired when checked |
| IdempotencySteps.SweepsDeleteTheExpired | internal/middleware/idempotency.go:59-67 | under every interleaving a sweep that is through with a key has deleted it if it found its record expired, and every delete is for an expired record of its key |
| IdempotencySteps.ExpiredCanBeSwept | internal/middleware/idempotency.go:59-67 | from every state of a run a visit of a sweep can take an expired entry out of the map |
| IdempotencySteps.NobodyWaits | internal/middleware/idempotency.go:133-153 | in every state of a run every request and sweep visit can take its next step at once, and has at most five left |
| IdempotencySteps.ThreadsKeepTheirKeys | internal/middleware/idempotency.go:127-153 | a request or sweep visit keeps its key, and its outcome once it is done |
| IdempotencySteps.MapHoldsLatest | internal/middleware/idempotency.go:39-67 | under every interleaving the map holds the record stored last under a key until someone deletes the key, and nothing else |
| IdempotencySteps.EarlyLossByStaleDeleteOrOverwrite | internal/middleware/idempotency.go:39-67 | any stored, unexpired record is in the map, or was deleted by one that had loaded an older, expired record of the key, or another record was stored over it |
| IdempotencySteps.FreshRecordMissed | internal/middleware/idempotency.go:133-153 | a handler runs beside a stored, unexpired record only if its request loaded before that was stored, or a stale delete had removed the latest record, or the latest record was a later-stored one that expires earlier |
| IdempotencySteps.UnsafeExactlyByHarm | internal/middleware/idempotency.go:39-55 | from a safe state, where the map outlasts every stored, unexpired record of the key, and at most one handler runs and only when every record made has expired, a step leads to an unsafe one if and only if it is a harmful start, delete or store |
| IdempotencySteps.ExposedExactlyByHarm | internal/middleware/idempotency.go:133-153 | a run has a state in which a handler runs beside an unexpired record, stored or not, or will after one completion or one more request, if and only if the ttl is not negative and the run has a harmful step |
| IdempotencySteps.ExposedIsReached | internal/middleware/idempotency.go:133-153 | from such a state the run goes on, within five steps, to a handler beside an unexpired record made under its key |
| IdempotencySteps.HarmlessRunsAreTtlApart | internal/middleware/idempotency.go:133-153 | in every interleaved run without a harmful step, a handler runs under a key only when every record made under it, stored or not, has expired, and no other handler runs under it |
| IdempotencySteps.HarmlessRecordsAreTtlApart | internal/middleware/idempotency.go:145-153 | in such a run any two handlers under a key have completed more than ttl apart |
| IdempotencySteps.AloneIsHarmless | internal/middleware/idempotency.go:133-153 | no step is harmful as long as whoever is about to change the map is alone on the key, with any number of loads, checks and replays at once otherwise |
| IdempotencySteps.ConcurrentRequestsBothRun | internal/middleware/idempotency.go:133-149 | a run in which two requests with one key both run the handler at one instant, the second beside the record of the first before anything is stored |
| IdempotencySteps.StaleDeleteLosesFreshRecord | internal/middleware/idempotency.go:44-48 | for every ttl that is not negative, a run in which an unexpired record is deleted by a request that had loaded its predecessor, and a third request runs the handler |
| IdempotencySteps.OverwriteLosesFreshRecord | internal/middleware/idempotency.go:149-153 | for every ttl that is not negative, a run with no delete in which a record is stored over one made later, and a third request runs the handler beside the unexpired one |
| Sse.FrameReadIff | internal/handler/query_stream.go:165-166 | a client reads a frame as the one message meant if and only if type and data have no line breaks |
| Sse.StandardMessages | internal/handler/query_stream.go:165-166 | a client takes type and data from such lines, joins several lines of data, and reads nothing without data |
| Sse.StreamRoundTrip | internal/handler/query_stream_multi.go:129-130 | a client reads exactly the events sent, in order, an empty type as "message", if and only if no type or data has a line break |
| Sse.TruncatedStream | internal/handler/query_stream.go:120-170 | of a stream cut off anywhere a client reads exactly the events whose frames are complete |
| QueryStream.HandleQueryStream | internal/handler/query_stream.go:120-170 | one frame for each event: its kind and slice, the context on started, the section found with its content on section_selected, the elapsed time on completed, the error's message on error, and nothing of these otherwise; a client reads the frames back if and only if no event type has a line break |
| SourceStream.BytesReader.Read | internal/connecthandler/documents.go:395-402 | as many of the next bytes as fit, the rest of the buffer untouched, EOF exactly when nothing is left |
| SourceStream.Drain | internal/connecthandler/documents.go:391-402 | with buffers of any positive sizes every byte comes out once, and the reading ends |
| SourceStream.ConcatInOrder | internal/connecthandler/documents.go:288-306 | chunks add up in the order in which they are sent |
| SourceStream.StreamSource | internal/connecthandler/documents.go:288-306 | for any reader that keeps its contract, chunks of 1 to 32768 bytes add up to what was read, all of it when done; it fails only where the reader or a send fails, so with both healthy it is done |
| SourceStream.Documents.Create | internal/connecthandler/documents.go:81-140 | what each outcome leaves in storage and database, partial failures included |
| SourceStream.Documents.GetSource | internal/connecthandler/documents.go:270-306 | when there is no source, and otherwise that the chunks are the stored bytes, all of them unless the reader or a send fails |
| SourceStream.UploadThenSource | internal/connecthandler/documents.go:91-97 | a non-empty upload is created, and with a reader and sends that do not fail the bytes streamed back are all those uploaded, after any other uploads in between |
| Sections.FoundPicks | internal/handler/query.go:135-158 | every identifier found yields one response section, in their order, with the fields of its section and what the storage holds under its reference, or nothing |
| Sections.SelectSingle | internal/handler/query.go:131-158 | the sections found for the first max identifiers, in order |
| Sections.SelectMulti | internal/handler/query_multi.go:98-124 | the first max of the sections found, in order |
| Sections.SelectDocuments | internal/handler/query_multi.go:95-136 | every document exactly once, each with its capped sections |
| Sections.CapFirstIsPrefix | internal/connecthandler/query.go:97-116 | capping first yields a prefix of capping last |
| Sections.CapOrdersAgreeIff | internal/connecthandler/query.go:177-196 | both orders agree if and only if there is nothing to cap, all identifiers up to the cap are found, or none after it |
| OrderStats.Median | cmd/benchmark/main.go:264-276 | the middle of the sorted samples, which stay as they are |
| OrderStats.Percentile | cmd/benchmark/main.go:278-287 | the sorted sample at the truncated rank, or the panic of a rank outside the list; the samples unchanged |
| OrderStats.PercentileDefinedIff | cmd/benchmark/main.go:285-286 | there is no panic if and only if the samples are none or -100 < pct * (n - 1) < 100 * n, which holds from 0 to 100 percent |
| OrderStats.OrderDoesNotMatter | cmd/benchmark/main.go:264-287 | lists with the same multiset of samples have the same median and percentiles, panics included |
| OrderStats.MinD | cmd/benchmark/main.go:289-300 | a sample that is at most every sample, the first of the sorted ones |
| OrderStats.MaxD | cmd/benchmark/main.go:302-313 | a sample that is at least every sample, the last of the sorted ones |
| OrderStats.SortIsUnique | cmd/benchmark/main.go:268-270 | any ascending permutation is the one the statistics use |
| OrderStats.PercentileRank | cmd/benchmark/main.go:285-286 | at the rank i that is pct percent of n - 1, truncated, at least i + 1 samples are at most the percentile, which is a sample, and at least n - i are at least it |
| OrderStats.PercentileMonotone | cmd/benchmark/main.go:285-286 | a higher percentage never gives a lower percentile |
| OrderStats.MedianRank | cmd/benchmark/main.go:271-275 | the median is the truncated mean of the two samples in the middle by count, which are one for an odd number of samples |
| OrderStats.MedianBetween | cmd/benchmark/main.go:271-275 | the median lies between minimum and maximum |
| OrderStats.MedianBelowP95Iff | cmd/benchmark/main.go:233-235 | median <= p95 if and only if there are not two samples, or two so close that their truncated mean is the smaller |

## Left out

- TokenBuckets.TokenBucket.Allow: does not model float64 rounding of the rate and of the product; the rate is the exact rational rpm/60.
- TokenBuckets.RefillIsTruncatedProduct: for the same reason it is about exact rationals, not float64 products.
- Machine-integer overflow and the saturation of durations at about 292 years: integers are unbounded.
- BucketStores.BucketStore.Serve: one request or sweep at a time; what happens between its lock sections is in StoreSteps.
- The pass-through of both limiters for limits that are not positive: the constructors ask for a positive limit instead.
- Decimal.IntToStr: numbers below zero, which its only caller never passes.
- Responses.ReplayIsFaithfulIff: informational responses the client sees before the final one, response headers, which the cache does not keep, write errors, and panics of the handler.
- IdempotencySteps.EarlyLossByStaleDeleteOrOverwrite: the internals of sync.Map; a sweep visit is a load at any moment, followed at any later moment by its check and delete.
- QueryStream.HandleQueryStream: JSON is a function that escapes line breaks, the clock is a field of the event, and the request checks before the loop are not modelled; the loops of HandleQueryStreamMulti and of the Connect streams are left out, being the same loop with other fields.
- EventStream.Parse: the byte order mark, the id and retry fields, and UTF-8 decoding; text is a sequence of characters.
- SourceStream.Drain: the storage implementation is not part of this model; it is any loop that reads until EOF.
- SourceStream.BytesReader.Read: the reader's data is a value, so an upload changed while it is read is not captured.
- SourceStream.Documents.Create: identifiers and storage keys are parameters, and metadata, title, content type and queue payload are left out.
- SourceStream.UploadThenSource: asks for a key that is not empty, as the keys the engine makes never are; the engine is not part of this model.
- Sections.SelectSingle: usage and timing fields, and the int32 truncation of token counts in Connect responses.
- OrderStats.Percentile: float64 rounding of the rank; sort.Slice is the sorted permutation, not its algorithm.
- Retrieval strategies, databases, queues, authentication, configuration, CORS, tracing, metrics, timeouts and body limits: libraries, I/O or flat branching.
