# Concurrency and state in tai-toolbox

A Dafny model of the five places where the toolbox keeps state across awaits or loops over input it does
not control:

- **The memoizing cache.** `StoreModel` is the value store as pure functions and `CacheStoreClass` the class
  that updates it in place, each method proved equal to its function. `StoreHistory` compares whole
  histories with a ledger of latest writes. `CacheCalls` is one uninterrupted call of the wrapper and what
  sequences of calls leave behind. `CacheProtocol` is the wrapper as a step relation over any number of
  concurrent callers, one step from one await to the next, `SingleFlight` the single-flight results,
  `CallerOutcomes` what each step does and how runs end, and `RecencyInRuns` the LRU order over its runs.
- **The session guard.** `SessionGuard` is the refcounted lock registry as functions, `SessionLocksClass`
  the objects it is made of, `PinnedRequests` the concurrent requests that use it, `RequestOutcomes` what
  each of their steps does and how runs end. `BodyReader` is the body loop.
- **The batch runner.** `BatchRunner` is the sequential branch, the parallel branch as a step relation, and
  their comparison; `BatchRunClass` is the parallel branch's mutable state.
- **The CONNECT handshake.** `ByteChunks` is bytes that arrive in pieces, `ConnectHeader` the receive loop
  over a stream cut into arbitrary pieces, `StatusLine` the verdict, `ProxyConnect` the negotiation with its
  deadline and its cleanup.
- **The resolve-pin printer.** `PinEntry` prints an entry and parses it back.

`Seqs` holds facts about sequences of distinct elements. Clock readings, backing results, tool outcomes,
received bytes, failures and cancellations are inputs chosen freely. A run is a sequence of states and
steps, and the theorems about runs hold for every run. Locks exclude, semaphores count, ordered
dictionaries keep order, and a cancelled waiter or a cancelled coroutine that has not started never runs
its body; asyncio itself is not modelled further.

Where code and documentation differ, the model follows the code:

- `cache_store.py` says a key's lock is dropped once its value is cached. The `finally` in `cache.py` also
  drops it for failed and cancelled callers and for waiters, so a second lock can exist while the first
  caller still computes. `SingleFlight.CancelledWaiterDoublesFlight` is a four-step run with two backing
  calls at once. The exact condition is `SingleFlight.Spares`, which can be read off before each step:
  `OneBackingCall` says that runs which keep it have at most one backing call, and `FirstBreachDoubles` and
  `SingleFlightIff` say that the first step against it lets the next caller start a second one.
- `cache_store.py` says that locked keys can keep the store above its cap for a while. `StoreModel.WriteSize`
  gives the exact size after a write, which is above the cap exactly when more than the cap are locked. That
  takes a user of `CacheStore` who holds locks of stored keys: in no run of the wrapper is a stored key
  locked between steps, and the store never exceeds its cap (`CacheProtocol.NeverAboveCap`).
- The docstring of `_connect_via_http_proxy` says the socket is closed on failure. The local name lookup
  comes before the `try`, so when it fails (`!route.rdns && !world.resolves`) the socket stays open, and in
  no other failure (`ProxyConnect.ConnectViaHttpProxy`).
- `socket_routing.py` says the header is capped at 64 KiB. A header whose blank line ends past the cap is
  found or refused depending on how the bytes were received; `ConnectHeader.HeaderFoundIff` is the exact
  condition and `ConnectHeader.SplitDecides` shows both outcomes for one stream.
- Section 9.3.6 of RFC 9110 lets any 2xx status mean success for CONNECT. The code accepts 200 only, and it
  reads the number as Python's `int` does. `StatusLine.AcceptedIff` lists the spellings it takes for 200:
  an optional plus sign, leading zeros, and single underscores between digits.

An address in a pin entry is the IP the URL guard validated, so `PinEntry` takes it to hold no brackets; of
the host it assumes nothing.

## Model

| member | source | states |
|---|---|---|
| `StoreModel.EvictClosedForm` | src/tai42_toolbox/_internal/extensions/cache_store.py:101-111 | the eviction loop terminates having removed exactly the min(overflow, unlocked) least recent unlocked keys, the rest in order, for any lock registry |
| `StoreModel.EvictOutcome` | src/tai42_toolbox/_internal/extensions/cache_store.py:101-111 | eviction keeps the store well formed, never takes a locked key, changes nothing within the cap, and stops above the cap only when every key left is locked |
| `StoreModel.WrittenKeyLost` | src/tai42_toolbox/_internal/extensions/cache_store.py:80-111 | a key just written is gone again iff it is unlocked and at least cap other live keys are locked |
| `StoreModel.WriteEvictsLive` | src/tai42_toolbox/_internal/extensions/cache_store.py:80-99 | a write costs a live entry its place iff the live entries with the new one exceed the cap and one of them is unlocked |
| `StoreModel.WriteSize` | src/tai42_toolbox/_internal/extensions/cache_store.py:80-111 | the exact number of entries after a write, in terms of live and locked keys |
| `StoreModel.DropExpiredKeepsLookups` | src/tai42_toolbox/_internal/extensions/cache_store.py:94-99 | reclaiming expired entries changes no lookup at the present or any later time and leaves only live entries |
| `StoreModel.ReadAgrees` | src/tai42_toolbox/_internal/extensions/cache_store.py:62-74 | a read answers the live value or a miss, and whatever it moves or deletes changes no answer for any key, now or later |
| `StoreModel.WriteAgrees` | src/tai42_toolbox/_internal/extensions/cache_store.py:80-88 | after a write, a key that is still stored is answered as before, and the written key with its value while its TTL lasts |
| `StoreModel.TtlExact` | src/tai42_toolbox/_internal/extensions/cache_store.py:62-84 | a written value is answered exactly until `exp` seconds after its stamp, or for ever without a positive `exp`, and is a miss from then on |
| `CacheStoreClass.Create` | src/tai42_toolbox/_internal/extensions/cache_store.py:54-60 | the given cap, or the configured one, is refused iff it is not positive; otherwise the store is empty |
| `CacheStoreClass.CacheStore.Read` | src/tai42_toolbox/_internal/extensions/cache_store.py:62-74 | the method's new state and result are those of `StoreModel.Read` |
| `CacheStoreClass.CacheStore.LockFor` | src/tai42_toolbox/_internal/extensions/cache_store.py:76-78 | the registered lock of the key, or a fresh one that is now registered |
| `CacheStoreClass.CacheStore.Write` | src/tai42_toolbox/_internal/extensions/cache_store.py:80-88 | the method's new state is that of `StoreModel.Write` |
| `CacheStoreClass.CacheStore.DropLock` | src/tai42_toolbox/_internal/extensions/cache_store.py:90-92 | the key's entry leaves the registry and nothing else changes |
| `CacheStoreClass.CacheStore.DropExpired` | src/tai42_toolbox/_internal/extensions/cache_store.py:94-99 | listing the expired keys and deleting them one by one equals removing all expired keys |
| `CacheStoreClass.CacheStore.FindVictim` | src/tai42_toolbox/_internal/extensions/cache_store.py:108 | the search returns the first unlocked key in recency order, if there is one |
| `CacheStoreClass.CacheStore.EvictToCap` | src/tai42_toolbox/_internal/extensions/cache_store.py:101-111 | the loop's final state is that of the recursive eviction |
| `StoreHistory.StoredIsLatest` | src/tai42_toolbox/_internal/extensions/cache_store.py:62-111 | over any history of reads, writes, lock registrations and drops, a stored entry is the latest write to its key |
| `StoreHistory.HitIsLatest` | src/tai42_toolbox/_internal/extensions/cache_store.py:62-74 | a hit returns the value of the latest write to its key, and the TTL given with that write has not elapsed |
| `StoreHistory.StoreRefinesLedger` | src/tai42_toolbox/_internal/extensions/cache_store.py:62-111 | with a monotone clock and live keys within the cap, every read of the bounded store answers the latest write to the key while its TTL lasts and nothing otherwise, as an unbounded cache would, and goes on doing so after other reads |
| `CacheCalls.CallTool` | src/tai42_toolbox/extensions/cache.py:25-51 | the wrapper's body, run alone, leaves the store and returns the result of `CacheCalls.Solo`, including the raising path and the `finally` |
| `CacheCalls.SoloIgnoresLock` | src/tai42_toolbox/extensions/cache.py:36-51 | which lock object an uninterrupted call makes leaves no trace in its outcome |
| `CacheCalls.SoloMeans` | src/tai42_toolbox/extensions/cache.py:25-51 | an uninterrupted call returns the live stored value without a backing call, or runs it and returns and stores its value, or passes its failure on and stores nothing; no lock of its key is left |
| `CacheCalls.StoreIsRecent` | src/tai42_toolbox/_internal/extensions/cache_store.py:62-111 | after any uninterrupted calls that return and find no entry expired, the store holds exactly the min(cap, distinct) most recently called keys, in recency order |
| `CacheCalls.ReuseDistance` | src/tai42_toolbox/_internal/extensions/cache_store.py:62-111 | in such a sequence a call is a hit iff its key was called before and fewer than cap distinct other keys were called since |
| `CacheCalls.LargerCapKeepsMore` | src/tai42_toolbox/_internal/extensions/cache_store.py:80-111 | if that holds under two caps, the larger one keeps a superset of the keys |
| `CacheCalls.LargerCapCallsLess` | src/tai42_toolbox/_internal/extensions/cache_store.py:80-111 | ... and never makes more backing calls |
| `CacheCalls.WithoutTtlQuiet` | src/tai42_toolbox/_internal/extensions/cache_store.py:80-83 | calls without a TTL, or with one that is not positive, are such a sequence under every cap |
| `CacheProtocol.SoloIsSteps` | src/tai42_toolbox/extensions/cache.py:25-51 | the uninterrupted call and the protocol's steps taken in a row come to the same store and the same return or failure |
| `CacheProtocol.ReturnsBackingValue` | src/tai42_toolbox/extensions/cache.py:25-51 | under every interleaving, expiry, eviction, failure and cancellation, each returned and each stored value was produced earlier in the run by a backing call on the same key |
| `CacheProtocol.ReturnsFunctionValue` | src/tai42_toolbox/extensions/cache.py:25-51 | so with a backing function determined by the key every caller returns that function's value |
| `CallerOutcomes.ArrivalOutcome` | src/tai42_toolbox/extensions/cache.py:30-49 | an arriving caller returns the live value, or waits for the registered lock while that is in use, or runs the backing function |
| `CallerOutcomes.ResumptionOutcome` | src/tai42_toolbox/extensions/cache.py:38-49 | a waiter that gets the lock returns the live value, and without one runs the backing function itself |
| `CallerOutcomes.EndOutcome` | src/tai42_toolbox/extensions/cache.py:43-51 | a call that ends or is cancelled leaves no lock of its key, and only a result changes what is stored |
| `CallerOutcomes.OwnFailuresOnly` | src/tai42_toolbox/extensions/cache.py:36-51 | in every run a caller has failed iff its own backing call raised, and is cancelled iff it was cancelled |
| `CallerOutcomes.HitIsFresh` | src/tai42_toolbox/extensions/cache.py:30-41 | in every run a hit returns the value of the latest backing call on its key that ended with one, and the TTL given with that call has not elapsed |
| `CallerOutcomes.RunsEnd` | src/tai42_toolbox/extensions/cache.py:25-51 | no run takes more than three steps per caller |
| `CallerOutcomes.NeverStuck` | src/tai42_toolbox/extensions/cache.py:36-51 | a caller that has not ended can step, or waits for a caller of its key whose backing call runs |
| `CallerOutcomes.EndsAnytime` | src/tai42_toolbox/extensions/cache.py:36-51 | a caller can be cancelled at any moment, and a backing call can raise or return at any later time; either ends the caller |
| `CacheProtocol.NoLockLeak` | src/tai42_toolbox/extensions/cache.py:36-51 | a registered lock always has an unfinished caller of its key that uses it; the registry is never larger than the callers in flight, and empty when there are none |
| `CacheProtocol.NeverAboveCap` | src/tai42_toolbox/extensions/cache.py:30-51 | in every run no stored key has a registered lock and the store never exceeds its cap |
| `CacheProtocol.EvictsLeastRecent` | src/tai42_toolbox/_internal/extensions/cache_store.py:80-111 | in every run a finished call leaves the most recent of the live other keys, in order, and its own last: its write is never lost, and at most the least recent live entry makes room |
| `CacheProtocol.LossIff` | src/tai42_toolbox/_internal/extensions/cache_store.py:62-111 | a step takes a stored value iff its own caller's read finds it expired, or a write for another key finds it expired or finds the cap filled by live other entries of which it is the least recent |
| `RecencyInRuns.StoreIsRecent` | src/tai42_toolbox/_internal/extensions/cache_store.py:62-111 | in every run that finds nothing expired, with any interleaving, failures and cancellations, the store holds the cap most recently used keys in recency order |
| `RecencyInRuns.HitIff` | src/tai42_toolbox/_internal/extensions/cache_store.py:62-111 | in such a run a caller's read is a hit iff its key was used before and fewer than cap distinct other keys were used since, whoever used them |
| `SingleFlight.OneBackingCall` | src/tai42_toolbox/extensions/cache.py:30-51 | for one key: if none of its callers fails, or is cancelled midway before the value is there, and its value is not found expired, swept or evicted, at most one backing call begins and all its callers return that value, whatever other keys do |
| `SingleFlight.OneBackingCallPerKey` | src/tai42_toolbox/extensions/cache.py:30-51 | with no failure, no cancellation, no expiry and at most cap distinct keys, the same for every key |
| `SingleFlight.FirstBreachDoubles` | src/tai42_toolbox/extensions/cache.py:36-51 | the first failure, cancellation midway, read or sweep of the expired value, or eviction as the least recent of a full cap starts a second backing call, or any caller of the key that comes next does |
| `SingleFlight.SingleFlightIff` | src/tai42_toolbox/extensions/cache.py:30-51 | single flight survives a step and the next call of the key iff none of these happens at the step and the value it keeps or writes has not expired by the end of it; every part is known before the step |
| `SingleFlight.CancelledWaiterDoublesFlight` | src/tai42_toolbox/extensions/cache.py:50-51 | a run in which one cancelled waiter lets two backing calls for one key run at once |
| `SingleFlight.WaiterTakesOver` | src/tai42_toolbox/extensions/cache.py:36-51 | a run in which the first caller fails and the waiter behind it runs the backing function |
| `SessionLocksClass.SessionLocks.Enter` | src/tai42_toolbox/_internal/tools/http_client.py:190-199 | finds or makes the entry and counts the caller in, as `SessionGuard.Enter` does |
| `SessionLocksClass.SessionLocks.Leave` | src/tai42_toolbox/_internal/tools/http_client.py:203-206 | counts the caller out and pops the key at zero, as `SessionGuard.Leave` does |
| `PinnedRequests.CountsReferences` | src/tai42_toolbox/_internal/tools/http_client.py:182-206 | in every run an entry's count is the number of requests holding or waiting for it, and all of one key and loop share one entry |
| `PinnedRequests.MutualExclusion` | src/tai42_toolbox/_internal/tools/http_client.py:201-202 | at most one request per key and loop is inside the guard |
| `PinnedRequests.RegistryExact` | src/tai42_toolbox/_internal/tools/http_client.py:190-206 | the registry holds a key iff some request of that key and loop is queued or inside |
| `PinnedRequests.RegistryEmptyWhenIdle` | src/tai42_toolbox/_internal/tools/http_client.py:176-179 | with no request in the guard the registry is empty |
| `PinnedRequests.PinIsolation` | src/tai42_toolbox/_internal/tools/http_client.py:209-239 | from setting its pins until its body is read, a request's session carries exactly those pins and every read of the option sees them |
| `PinnedRequests.OtherOptionsKept` | src/tai42_toolbox/_internal/tools/http_client.py:220 | pinning changes no option other than RESOLVE on any session |
| `RequestOutcomes.EnterOutcome` | src/tai42_toolbox/_internal/tools/http_client.py:190-202 | a request begins at once, with its pins set, iff it is keyless or nobody stands in the guard of its key and loop; otherwise it queues for their entry |
| `RequestOutcomes.AdmissionOutcome` | src/tai42_toolbox/_internal/tools/http_client.py:201-220 | a request given the lock begins: it holds the entry it queued for and its session carries its pins |
| `RequestOutcomes.ReadingOutcome` | src/tai42_toolbox/_internal/tools/http_client.py:212-222 | in every run each reading curl makes for a request is exactly its own pins |
| `RequestOutcomes.LeavingOutcome` | src/tai42_toolbox/_internal/tools/http_client.py:203-206 | a request that ends or is cancelled leaves the guard, and its entry stays iff others of its key and loop need it |
| `RequestOutcomes.RunsEnd` | src/tai42_toolbox/_internal/tools/http_client.py:181-206 | apart from readings no run takes more than three steps per request |
| `RequestOutcomes.NeverStuck` | src/tai42_toolbox/_internal/tools/http_client.py:181-206 | a request that has not finished can step, or is queued behind one of its key and loop that is inside |
| `RequestOutcomes.EndsAnytime` | src/tai42_toolbox/_internal/tools/http_client.py:200-206 | a request can end at any moment, outside, queued or inside, and is then out of the guard |
| `BodyReader.ReadBody` | src/tai42_toolbox/_internal/tools/http_client.py:224-227 | the body is the concatenation of all chunks, or reading stops at the first chunk that makes it too large |
| `BatchRunner.LimitPositive` | src/tai42_toolbox/_internal/extensions/batch_executor.py:47-83 | which request is refused for what; a given limit is used as it is, and the default limit is the setting or the number of items, whichever is less, and at least one |
| `BatchRunner.InOrderMeans` | src/tai42_toolbox/_internal/extensions/batch_executor.py:81-82 | the sequential branch lists every item's value or error text in order, or raises the first error that aborts a batch |
| `BatchRunner.FailFastInOrder` | src/tai42_toolbox/_internal/extensions/batch_executor.py:55-60 | with fail-fast the sequential branch lists the values iff every call gives one, and otherwise raises the error of the first call that does not |
| `BatchRunner.ParallelRefinesSequential` | src/tai42_toolbox/_internal/extensions/batch_executor.py:51-82 | every parallel schedule under every limit returns the sequential list, and raises iff the sequential branch raises, with a failing item's error |
| `BatchRunner.FailFastRaises` | src/tai42_toolbox/_internal/extensions/batch_executor.py:55-60 | with fail-fast a finished parallel batch has returned the values iff every call gives one, and otherwise raised the error of a call that does not |
| `BatchRunner.NoFailFastReturns` | src/tai42_toolbox/_internal/extensions/batch_executor.py:57-60 | without fail-fast a finished parallel batch has returned, with each failing item's text in its slot, iff no tool call ended with an error outside `Exception` |
| `BatchRunner.FirstFailureRaised` | src/tai42_toolbox/_internal/extensions/batch_executor.py:72-80 | in every run the error raised is that of the item that failed first in time, unless the call itself was cancelled |
| `BatchRunner.CancelAgainstFailure` | src/tai42_toolbox/_internal/extensions/batch_executor.py:75-80 | of a failure and a cancellation of the call: the cancellation is raised if the gather was over when it came, and the failure if it was still on its way to the gather |
| `BatchRunner.CancellationLost` | src/tai42_toolbox/_internal/extensions/batch_executor.py:75-80 | a run of two calls in which the cancellation of the batch is lost and the failure raised |
| `BatchRunner.CancelledCallRaises` | src/tai42_toolbox/_internal/extensions/batch_executor.py:75-80 | a batch call that was cancelled never returns, whatever its tool calls make of the cancellation |
| `BatchRunner.NoCallAfterCancel` | src/tai42_toolbox/_internal/extensions/batch_executor.py:76-80 | once the cancel loop ran, or the gather passed a cancellation of the call on, no further tool call starts |
| `BatchRunner.CallBegins` | src/tai42_toolbox/_internal/extensions/batch_executor.py:53-55 | a task calls the tool on its first run iff a permit is free and nobody waits for one; each call takes one permit |
| `BatchRunner.CalledInRun` | src/tai42_toolbox/_internal/extensions/batch_executor.py:53-56 | in every run the tool was called for exactly the items in flight or ended by a call; a dropped item was never called |
| `BatchRunner.PermitsConserved` | src/tai42_toolbox/_internal/extensions/batch_executor.py:71-80 | in-flight calls and free permits make the limit; a batch ends only with every item ended and every permit back |
| `BatchRunner.RunsEnd` | src/tai42_toolbox/_internal/extensions/batch_executor.py:71-80 | no run takes more than three steps per item and four for the caller |
| `BatchRunner.NeverStuck` | src/tai42_toolbox/_internal/extensions/batch_executor.py:71-80 | while tools finish, every reachable state that has not ended can take a step of its own |
| `BatchRunClass.BatchRun.Start` | src/tai42_toolbox/_internal/extensions/batch_executor.py:53-55 | a coroutine's first run takes a permit or queues, as the step relation says |
| `BatchRunClass.BatchRun.Finish` | src/tai42_toolbox/_internal/extensions/batch_executor.py:54-60 | a finished call returns its permit, fills its slot or fails, and a first failure is on its way to the gather |
| `BatchRunClass.BatchRun.Drop` | src/tai42_toolbox/_internal/extensions/batch_executor.py:77-79 | a cancelled coroutine that has not called the tool ends without calling it |
| `BatchRunClass.BatchRun.CancelCall` | src/tai42_toolbox/_internal/extensions/batch_executor.py:75-76 | a cancellation of the call reaches all tasks, or is kept to be raised when the gather is over |
| `BatchRunClass.BatchRun.Return` | src/tai42_toolbox/_internal/extensions/batch_executor.py:75 | the loop over the tasks gives their results in input order |
| `BatchRunClass.BatchRun.CancelTasks` | src/tai42_toolbox/_internal/extensions/batch_executor.py:77-78 | the loop cancels every item and changes nothing else |
| `BatchRunClass.BatchRun.Catch` | src/tai42_toolbox/_internal/extensions/batch_executor.py:76-79 | the handler's step of the step relation |
| `ConnectHeader.CollectOutcome` | src/tai42_toolbox/_internal/extensions/socket_routing.py:129-140 | for any receives, ends of stream and errors in any order: the loop goes on while receives give bytes with no blank line within the cap, and the first that does otherwise decides between header, closed, error and too long |
| `ConnectHeader.HeadFromEvents` | src/tai42_toolbox/_internal/extensions/socket_routing.py:129-141 | a header comes out iff receives give bytes up to a blank line before the cap is passed |
| `ConnectHeader.HeaderFoundIff` | src/tai42_toolbox/_internal/extensions/socket_routing.py:129-141 | a header is found iff the stream has a blank line and no receive stopped strictly between the cap and its end; it is the stream up to the first blank line |
| `ConnectHeader.EarlyEndAlwaysFound` | src/tai42_toolbox/_internal/extensions/socket_routing.py:129-141 | a blank line ending within cap + 1 bytes is found, with the same header, in every split |
| `ConnectHeader.LateEndNeverFound` | src/tai42_toolbox/_internal/extensions/socket_routing.py:129-141 | with none ending within cap + 4096 bytes every split is refused |
| `ConnectHeader.SplitDecides` | src/tai42_toolbox/_internal/extensions/socket_routing.py:137-140 | in between, one split of the same stream is accepted and another refused |
| `ConnectHeader.LoopBounds` | src/tai42_toolbox/_internal/extensions/socket_routing.py:130-140 | the loop ends within cap + 1 receives and never buffers more than cap + 4096 bytes |
| `ConnectHeader.BlankLineBytes` | src/tai42_toolbox/_internal/extensions/socket_routing.py:136 | the four bytes that end a header |
| `StatusLine.FirstLineMeans` | src/tai42_toolbox/_internal/extensions/socket_routing.py:142 | the status line ends at the first line break, or with the header |
| `StatusLine.SplitWord` | src/tai42_toolbox/_internal/extensions/socket_routing.py:143 | a word followed by whitespace or nothing is one part |
| `StatusLine.SplitSpace` | src/tai42_toolbox/_internal/extensions/socket_routing.py:143 | whitespace before a part does not count |
| `StatusLine.JudgeMeans` | src/tai42_toolbox/_internal/extensions/socket_routing.py:142-151 | for every header: malformed iff there is no second word or it is no number; 200 is accepted, and any other number is the code reported |
| `StatusLine.StatusLineJudged` | src/tai42_toolbox/_internal/extensions/socket_routing.py:141-151 | a status line of section 4 of RFC 9112 is accepted iff its three digits are 200, whatever fields follow |
| `StatusLine.ThreeByteCode` | src/tai42_toolbox/_internal/extensions/socket_routing.py:146-151 | of all three-byte codes exactly 200 reads as 200 |
| `StatusLine.AcceptedIff` | src/tai42_toolbox/_internal/extensions/socket_routing.py:141-151 | a header is accepted iff its first line has a second word that is, after an optional plus sign, 200 with any leading zeros and at most one underscore between digits |
| `StatusLine.PaddedCodeAccepted` | src/tai42_toolbox/_internal/extensions/socket_routing.py:146-151 | a header with the four-digit code 0200 is accepted |
| `ProxyConnect.ReceiveHeader` | src/tai42_toolbox/_internal/extensions/socket_routing.py:129-140 | the loop computes `ConnectHeader.Collect`, and each receive runs under the time left at its own clock reading, up to the deadline and no longer |
| `ProxyConnect.ConnectOutcome` | src/tai42_toolbox/_internal/extensions/socket_routing.py:106-151 | every outcome, cause by cause: lookup, connection, handshake, send, the receive that stops the loop, and the second word of the status line |
| `ProxyConnect.TunneledIff` | src/tai42_toolbox/_internal/extensions/socket_routing.py:106-151 | for a header that ends early, cut in any way: the tunnel stands iff lookup, connection, handshake and send succeed and the second word spells 200 |
| `ProxyConnect.ConnectViaHttpProxy` | src/tai42_toolbox/_internal/extensions/socket_routing.py:97-177 | a failure leaves a descriptor open iff it is the local name lookup that failed; on success one socket owns it with the caller's timeout, and a TLS tunnel is reachable through the caller's socket; the connection, the handshake and every receive run under the time left |
| `ProxyConnect.SplitIrrelevant` | src/tai42_toolbox/_internal/extensions/socket_routing.py:128-151 | two splits of the same bytes come to the same outcome when the header ends within the cap and one byte |
| `PinEntry.RoundTrip` | src/tai42_toolbox/_internal/tools/http_client.py:164-169 | parsing a printed entry gives back host, port and address, for every host, every port and every bracket-free address, IPv6 or not |
| `PinEntry.EntryLayout` | src/tai42_toolbox/_internal/tools/http_client.py:164-169 | the entry is host, port and address between colons and nothing else; exactly the parts with a colon of their own are bracketed |
| `PinEntry.DecimalPlain` | src/tai42_toolbox/_internal/tools/http_client.py:169 | the port is printed in decimal digits without leading zeros |
| `PinEntry.Unambiguous` | src/tai42_toolbox/_internal/tools/http_client.py:164-169 | two triples with bracket-free addresses print alike iff they are equal, whatever the hosts |

## Left out

- compute_key and its JSON text: a key is an opaque value and results are stated per key.
- Single flight after a failure, an expiry, an eviction or a cancellation: not promised by the code, and refuted by `SingleFlight.FirstBreachDoubles`.
- LRU order and the comparison of caps for calls that find an expired entry: how long a key lives then depends on when each store last wrote it. `StoreHistory`, `CacheProtocol.EvictsLeastRecent` and `CacheProtocol.LossIff` cover expiry.
- The order in which asyncio wakes waiters: any waiter may be next, so the results hold for every order. A newcomer never overtakes a waiter.
- A second cancellation of the batch call, and errors such as `KeyboardInterrupt` that bypass the event loop's tasks.
- Sequential batches cancelled from outside: the coroutine just stops.
- The text of the CONNECT request, its Base64 credentials and its address checks: string formatting before the first await of an answer.
- The time local name lookup and `sendall` take: the code does not re-arm the deadline for them. Bytes received after the header are dropped by the code and not tracked here.
- CPython's limit on the number of digits `int` converts: a token with thousands of digits is malformed there and a number here.
- SOCKS routes, TLS itself beyond the hand-over of the descriptor, curl, DNS and the URL guard: foreign code. Whether a body is too large is an input of `BodyReader.ReadBody`.
- Requests made with the guard off, which set no pins.
- `_decode_body`, `_serialize_response`, `_validate_proxies`, `build_route`, `route`, `pad_embeddings` and the prometheus, chain, schema and signature helpers: one short branch or comprehension each.
