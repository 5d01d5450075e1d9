# Verified model of portwatch's alert layer

portwatch watches TCP ports and sends notifications about state changes. Its alert layer is a set of
small stateful components that gate, buffer, retry and fan out those notifications. This project models
them in Dafny and proves what they guarantee over whole runs: every schedule of their goroutines, every
order of arrival, every sequence of calls.

A downstream dispatcher is an oracle with an arbitrary outcome per call. Times and durations are integers,
and clock readings are arguments; where a result needs a clock that never runs backwards, its precondition
says so. A section that the code runs under one mutex is one step.

| file | components |
|---|---|
| Common.dfy | optional values, counting, the bounded-log function, labelled step machines, growing slices |
| Hedge.dfy | the hedged sender, as a machine of caller, attempts and result channel |
| Replay.dfy | the replay buffer, sequentially as a class and interleaved as a machine |
| Keys.dfy | `"%d:%s"` keys, and tables that give every key its own state |
| Sliding.dfy | the sliding-window and cooldown gates of one key over whole runs |
| Gates.dfy | window counter and dispatcher, throttler, limiter, deduplicator, with slices over arrays |
| Circuit.dfy | the circuit breaker and its dispatcher, with overlapping senders |
| Admission.dfy | bulkhead and load shedder under interleaving, and their common uncontended behaviour |
| Gather.dfy | the quorum send and the poller's gather loop |
| Backoff.dfy | the backoff limiter and the retry loop |
| Modular.dfy | remainders, as the ring uses them |
| History.dfy | the event ring with Query and Summary, and the audit log |
| Priority.dfy | the four-bucket priority queue and Drain |
| Batch.dfy | the batcher with its reused buffer |
| Digest.dfy | the digester and its one-shot timers |
| Correlate.dfy | the correlator's anchored windows |
| Escalate.dfy | the escalator and its dispatcher |
| Observe.dfy | the observer's insertion sort and percentiles |

A concurrent component is a function `Next` from a state and a scheduled event to the next state, if the
event is enabled. `Machine.Exec` runs a schedule; a claim about reachable states is a claim about every
schedule. Fields called history variables record the past and influence nothing.

`dafny verify dfyconfig.toml` checks the whole project.

## Where the code and its documentation differ

The model follows the code.

- hedge.go:25-28 promises the last error when all attempts fail. The drain waits for MaxHedges + 1 results
  even when the launch loop has consumed some, so the caller waits for ever exactly when a failure was
  consumed there and all launched attempts fail (`Hedge.FinalOutcome`, `Hedge.AllFailCanHang`).
- replay.go:65-66 promises that entries that fail to send are retained, but replay.go:83-85 assigns the
  failed entries over whatever the buffer then holds. A buffered entry is lost if and only if that call had
  not copied it (`Replay.OverwriteExact`), so only if a Record or another call's write-back put it there in
  the meantime (`Replay.LossIsInterference`). The loss can hit an entry recorded during the Replay
  (`Replay.RecordDuringReplayIsLost`) and, with two callers, an older one whose send failed
  (`Replay.FailedEntryIsLost`). Overlapping calls can also deliver an entry twice
  (`Replay.DeliveredTwice`); `Replay.DeliverableExactly` says which entries can still be delivered.
- digest_doc.go describes one batch per window. A timer that fired before a manual flush flushes the next
  bucket early (`Digest.StaleTimerFlushesEarly`). Every timer finds its own bucket if and only if no manual
  flush ran when Stop on the timer already returned false (`Digest.OneBatchPerWindowExactly`).
- correlate_doc.go speaks of a sliding window and of the MinEvents-th notification. The window is anchored
  at its first record (`Correlate.AnchoredNotSliding`). A burst of MinEvents records is reported if and only
  if none of them after the first opens a new window (`Correlate.BurstReportedExactly`), and the policies
  that notice every burst a sliding window would are exactly those of `Correlate.SlidingExactly`. MinEvents
  = 1 never forwards (`Correlate.CanForwardExactly`).
- escalation_doc.go:23-24 promises that a recovery resets the counter. The state is part of the key, so it
  never does (`Escalate.NeverReset`, `Escalate.CountIsSinceRecoveryExactly`). With Threshold 1 the first
  failure still does not escalate (`Escalate.EscalatesExactly`).
- retry.go caps every wait but the first (`Retry.TotalWait`), and its final error unwraps the last one, so
  a last status error leaves no cause (`Retry.Do`).

## Model

| member | source | states |
|---|---|---|
| `Hedge.Normalize` | internal/alert/hedge.go:39-41 | MaxHedges is at least 1, and a valid value is kept |
| `Hedge.Safety` | internal/alert/hedge.go:48-90 | over every schedule: at most MaxHedges + 1 attempts start, no goroutine with a result ever waits for room in the channel, and nil is returned only if some attempt returned nil |
| `Hedge.DrainEntry` | internal/alert/hedge.go:65-82 | on entering the drain, attempts launched plus results already consumed make MaxHedges + 1, so exactly `early` of the awaited results cannot come |
| `Hedge.CancelExactly` | internal/alert/hedge.go:65-78 | a done context ends the call at once with the context's error in the launch loop, and only there, and launches and receives nothing |
| `Hedge.TimerExactly` | internal/alert/hedge.go:65-78 | in the launch loop, and only there, the timer launches exactly one more attempt; the drain begins after MaxHedges turns |
| `Hedge.ReceiveExactly` | internal/alert/hedge.go:65-90 | in both loops, and only there, the caller takes the oldest result as soon as there is one, and returns nil at once exactly when it is a success |
| `Hedge.AttemptsFinish` | internal/alert/hedge.go:56-63 | in every reachable state, also after a return or a cancellation, an attempt can finish and then finds room in the channel |
| `Hedge.AbortedExactly` | internal/alert/hedge.go:48-78 | over every schedule the call ends with the context's error if and only if a Cancel was taken; attempts are one plus the timer events and results received are the receive events, and after a Cancel there are no more of either |
| `Hedge.RunsEnd` | internal/alert/hedge.go:48-90 | every run, however scheduled, has at most 4 * MaxHedges + 3 steps |
| `Hedge.FinalOutcome` | internal/alert/hedge.go:25-28 | a finished, uncancelled run returned nil exactly when some launched attempt succeeded; with all failed it returned the last received error exactly when the launch loop consumed no failure, and hangs in the drain exactly when it did |
| `Hedge.DrainNeverReturns` | internal/alert/hedge.go:80-89 | once the drain begins after an early failure and every launched attempt fails, no continuation returns |
| `Hedge.AllFailCanHang` | internal/alert/hedge.go:25-28 | a reachable finished state with one hedge in which all attempts failed and the caller still waits: the documented result is missed |
| `Replay.CandidatesPartition` | internal/alert/replay.go:72-81 | each candidate of a Replay expires, is delivered, or is kept as failed: exactly one of the three, with multiplicity |
| `Replay.UnsentExactly` | internal/alert/replay.go:74-80 | the kept entries are exactly the candidates with now - storedAt <= MaxAge whose send failed, in order |
| `Replay.Replayer.constructor` | internal/alert/replay.go:42-50 | an empty buffer with the policy's defaults for values that are not positive |
| `Replay.Replayer.Record` | internal/alert/replay.go:54-62 | the entry is appended, the oldest one evicted exactly when the buffer is full; entries recorded = evicted + expired + delivered + buffered as bags |
| `Replay.Replayer.Replay` | internal/alert/replay.go:66-91 | uninterrupted: the new buffer is the unexpired entries whose send failed, in order; the stale and the accepted ones are booked as expired and delivered; what stays or is delivered has now - storedAt <= MaxAge, and what expires has more |
| `Replay.Replayer.SendLoop` | internal/alert/replay.go:72-81 | the loop keeps exactly the unexpired candidates whose send failed, in order |
| `Replay.StepKeeps` | internal/alert/replay.go:54-91 | each atomic step of any number of interleaved Records and Replays keeps the ledger of entries |
| `Replay.StepsOfCall` | internal/alert/replay.go:54-91 | a Record is always possible; a call begins, takes one turn per candidate, and then writes back |
| `Replay.TurnByAge` | internal/alert/replay.go:74-80 | with any callers, a turn books its candidate as expired if and only if the call's clock reading minus storedAt exceeds MaxAge, and otherwise as delivered or failed as the send returns; nothing else changes |
| `Replay.LoopUnaffected` | internal/alert/replay.go:72-81 | whatever interleaves with a call, its failed entries are in the end the candidates at most MaxAge old whose own send failed, in order |
| `Replay.RecordAlone` | internal/alert/replay.go:54-62 | the Record step appends its entry with head eviction, as the sequential method does |
| `Replay.Conservation` | internal/alert/replay.go:54-91 | in every reachable state an entry was recorded if and only if it is buffered, last pushed out by a Record, last dropped by a write-back that had not copied it, or found expired or delivered; the first three exclude each other (an entry that a write-back returns leaves the other two), and the buffer holds no entry twice and at most MaxEvents |
| `Replay.WriteBackDiscards` | internal/alert/replay.go:83-85 | a write-back discards a buffered entry if and only if its own call found it expired or delivered, or had not copied it |
| `Replay.OverwriteExact` | internal/alert/replay.go:67-85 | with any number of callers, a buffered entry leaves at a write-back without having ended in that call if and only if the call had not copied it; these are exactly the entries newly booked as overwritten, and every copied entry that has not ended is in the buffer afterwards |
| `Replay.LossIsInterference` | internal/alert/replay.go:67-85 | every entry that a write-back loses was put into the buffer after the call copied it, by a Record or by another call's write-back; when neither happened in between nothing is lost |
| `Replay.UncontendedLoss` | internal/alert/replay.go:67-85 | with any number of callers, when no other write-back comes between a call's snapshot and its own, it loses exactly the last min(n, MaxEvents) of the n entries recorded in between; nothing if and only if n = 0 |
| `Replay.LostForGood` | internal/alert/replay.go:54-91 | an entry held by neither the buffer nor a sending caller is never buffered, delivered, expired, evicted or overwritten in any continuation |
| `Replay.RecordDuringReplayIsLost` | internal/alert/replay.go:67-85 | a reachable run in which a recorded entry is never sent, expired or evicted and yet is gone |
| `Replay.FailedEntryIsLost` | internal/alert/replay.go:65-85 | a reachable run with two callers in which an entry that failed to send and was written back is gone after the other call's write-back, although nothing was recorded since that call's snapshot |
| `Replay.DeliveredOnce` | internal/alert/replay.go:66-91 | with a single caller no entry is delivered more than once |
| `Replay.DeliverableExactly` | internal/alert/replay.go:66-91 | with any number of callers, some continuation delivers an entry, again if it was delivered before, if and only if it is pending and fresh or failed in some call, or buffered while some caller is idle |
| `Replay.DeliveredTwice` | internal/alert/replay.go:66-91 | a reachable run in which two overlapping calls deliver the same entry |
| `Replay.UninterruptedReplay` | internal/alert/replay.go:66-91 | from any reachable state a Replay that nothing interleaves with overwrites nothing and leaves what the sequential method leaves |
| `Keys.KeyRoundTrip` | internal/alert/window_dispatcher.go:35-37 | reading a printed key back at its first colon gives the port and the state, for every integer and every string |
| `Keys.KeyInjective` | internal/alert/throttle.go:49-51 | different (port, state) pairs have different keys |
| `Keyed.PerKey` | internal/alert/window.go:25-31 | in any interleaving of calls on any keys, each key gets the run that its own calls make alone |
| `Sliding.RecentRecent` | internal/alert/window.go:57-63 | pruning at an earlier cutoff does not change what a later cutoff keeps |
| `Sliding.PruningIsFaithful` | internal/alert/window.go:50-95 | under a nondecreasing clock every answer is the one the complete history of grants since the last Reset gives, and the stored list shows the same grants in every later window |
| `Sliding.FullHistory` | internal/alert/window.go:65-71 | without Reset the reference history is the list of all grants |
| `Sliding.WindowBound` | internal/alert/window.go:48-72 | without Reset no interval (a, a + Size] sees more than MaxEvents grants and none of length at most k * Size more than k * MaxEvents |
| `Sliding.AdmitsExactly` | internal/alert/window.go:48-72 | under a nondecreasing clock and with Resets anywhere, a call is admitted exactly when fewer than MaxEvents of all the grants since the last Reset lie in (now - Size, now] |
| `Sliding.StoredExactly` | internal/alert/window.go:82-95 | at any later time the stored stamps in the window are as many as those grants |
| `Sliding.AllowPrunes` | internal/alert/window.go:56-71 | under any clock, after a call the list is what was stored after now - Size, in order, and the new stamp if it was admitted |
| `Cooldown.Bisimilar` | internal/alert/alert.go:41-61 | a cooldown gate and a sliding window with one slot answer alike on every sequence of Allow and Reset, under any clock |
| `Cooldown.BisimilarTables` | internal/alert/dedup.go:43-60 | the same for interleaved calls on any keys |
| `Cooldown.GrantsAreSpaced` | internal/alert/alert.go:46-52 | consecutive grants of a key are at least the cooldown apart, whatever the clock does |
| `Cooldown.AdmitsExactly` | internal/alert/alert.go:41-61 | under any clock and with Resets anywhere, a call is admitted exactly when there is no grant since the last Reset or the last one is at least the cooldown old |
| `Cooldown.SpanBound` | internal/alert/alert.go:41-53 | without Reset the grants of a key in a span L number at most L / d + 1 |
| `Stamps.PruneInPlace` | internal/alert/window.go:57-63 | compacting over ts[:0] in the same array yields exactly the stamps after the cutoff: no unread stamp is clobbered |
| `Slices.Append` | internal/alert/window.go:70 | the slice gains the item at its end, in place while there is room and otherwise in a fresh array |
| `Slices.Copy` | internal/alert/batch.go:98-99 | a fresh array with the same first n elements |
| `Stamps.CountRecent` | internal/alert/window.go:86-94 | the loop counts the stamps after the cutoff |
| `Stamps.AllowSlice` | internal/alert/window.go:57-71 | on one slice, the in-place code decides and stores what the gate says |
| `Stamps.AllowKey` | internal/alert/window.go:54-71 | the key's own slice follows the gate and every other key's slice is untouched; backing arrays stay separate |
| `WindowCounters.WindowCounter.constructor` | internal/alert/window.go:34-46 | an empty table with the default policy for values that are not positive |
| `WindowCounters.WindowCounter.Allow` | internal/alert/window.go:50-72 | one call of the sliding gate on the key's stored stamps |
| `WindowCounters.WindowCounter.Reset` | internal/alert/window.go:75-79 | the gate's Reset for that key alone |
| `WindowCounters.WindowCounter.Count` | internal/alert/window.go:82-95 | the number of stored stamps in the window |
| `WindowCounters.WindowCounter.Keys` | internal/alert/window.go:98-115 | exactly the keys with a stamp in the window, each once |
| `WindowCounters.CountsAllGrants` | internal/alert/window.go:48-95 | over any run on any keys under a nondecreasing clock, a key is admitted exactly when fewer than MaxEvents of all its grants since its last Reset lie in the window, and Count is their number |
| `WindowDispatchers.Deliver` | internal/alert/window_dispatcher.go:27-33 | the notification goes on exactly when the counter's gate on its key admits it, and then the downstream result is returned |
| `WindowDispatchers.KeySeesOwnCalls` | internal/alert/window_dispatcher.go:28-37 | a key receives exactly the Sends of its own port and state |
| `WindowDispatchers.AtMostMaxEventsForwarded` | internal/alert/window_dispatcher.go:5-7 | for every port and state, every window-long interval of any run forwards at most MaxEvents notifications, and k windows at most k * MaxEvents |
| `Throttlers.Throttler.constructor` | internal/alert/throttle.go:37-46 | an empty table with the policy as given |
| `Throttlers.Throttler.Allow` | internal/alert/throttle.go:55-79 | one attempt of a run: a call of the same sliding gate under the key of port and state |
| `Throttlers.Throttler.Reset` | internal/alert/throttle.go:82-86 | every key starts afresh |
| `Throttlers.NonPositiveBurst` | internal/alert/throttle.go:72-75 | a burst limit of zero or less admits nothing in any run |
| `Throttlers.PerPortAndState` | internal/alert/throttle.go:48-86 | in any interleaving of attempts and all-key Resets, each port and state gets the run of the sliding gate that its own attempts and the Resets make |
| `Throttlers.CountsSinceReset` | internal/alert/throttle.go:53-86 | under a nondecreasing clock an attempt is admitted exactly when fewer than MaxBurst of all admitted attempts of its port and state since the last Reset lie in the window |
| `Throttlers.AtMostMaxBurstAdmitted` | internal/alert/throttle.go:53-86 | in a run with n Resets every window-long interval admits at most (n + 1) * MaxBurst attempts of a port and state, and k windows at most k times as many |
| `Limiters.Limiter.constructor` | internal/alert/alert.go:31-37 | no stamps, the cooldown as given |
| `Limiters.Limiter.Allow` | internal/alert/alert.go:41-53 | one call of the cooldown gate on the key |
| `Limiters.Limiter.Reset` | internal/alert/alert.go:57-61 | the gate's Reset for that key alone |
| `Deduplicators.Deduplicator.constructor` | internal/alert/dedup.go:30-39 | no stamps, the window as given |
| `Deduplicators.Deduplicator.Allow` | internal/alert/dedup.go:43-52 | one call of the cooldown gate on the key |
| `Deduplicators.Deduplicator.Reset` | internal/alert/dedup.go:56-60 | the gate's Reset for that key alone |
| `Circuit.Policy.Normalize` | internal/alert/circuit.go:48-57 | the stored policy is positive everywhere and a valid one is kept |
| `Circuit.CircuitBreaker.constructor` | internal/alert/circuit.go:48-59 | closed, with counters at zero |
| `Circuit.CircuitBreaker.Allow` | internal/alert/circuit.go:62-76 | admits unless open for less than OpenDuration; the transition to half-open |
| `Circuit.CircuitBreaker.RecordSuccess` | internal/alert/circuit.go:79-89 | the success transition |
| `Circuit.CircuitBreaker.RecordFailure` | internal/alert/circuit.go:92-102 | the failure transition |
| `Circuit.CountersMatchHistory` | internal/alert/circuit.go:62-102 | for any order of operations, late results included: 0 <= failures < FailureThreshold and failures is the trailing failure run since the last trip or success; half-open means successes since becoming half-open, fewer than SuccessThreshold, and no failure since |
| `Circuit.ClosesExactly` | internal/alert/circuit.go:79-102 | the circuit closes exactly on the success that completes SuccessThreshold while half-open, and any failure while half-open reopens it |
| `Circuit.OpenHolds` | internal/alert/circuit.go:62-76 | after the circuit opens no call is admitted before openedAt + OpenDuration, whatever late results arrive |
| `Circuit.ClosedExactly` | internal/alert/circuit.go:61-102 | a closed circuit admits every call until FailureThreshold failures come in a row, counted over the raw operations, and opens at the one that completes them, at its time |
| `Circuit.FirstAdmissionExactly` | internal/alert/circuit.go:61-102 | while late results bring fewer than FailureThreshold failures in a row, the first call admitted after an opening is the first Allow at or after openedAt + OpenDuration, under any clock |
| `Circuit.RestampExactly` | internal/alert/circuit.go:91-102 | while open, a failure restarts the open period if and only if it completes another FailureThreshold failures in a row since the opening |
| `Circuit.ProbeExactly` | internal/alert/circuit.go:65-72 | an open circuit admits a call exactly from openedAt + OpenDuration on, and then is half-open with no success counted |
| `Circuit.HalfOpenExactly` | internal/alert/circuit.go:73-102 | a half-open circuit admits every call; SuccessThreshold successes without a failure close it and the first failure opens it at its time |
| `Circuit.Send` | internal/alert/circuit_dispatcher.go:30-41 | drops when not admitted, otherwise returns the downstream outcome and records it |
| `Circuit.ProbesAreSpaced` | internal/alert/circuit_dispatcher.go:30-41 | against a failing downstream the i-th call after a trip comes at least i + 1 OpenDurations later |
| `Circuit.FirstTrip` | internal/alert/circuit.go:92-102 | the first FailureThreshold calls are all forwarded and the last of them opens the circuit |
| `Circuit.FailingDownstreamBound` | internal/alert/circuit_dispatcher.go:30-41 | with a failing downstream and sequential sends, the calls forwarded up to time T number at most FailureThreshold + floor((T - firstTrip) / OpenDuration) |
| `CircuitSenders.OverlappingBound` | internal/alert/circuit_dispatcher.go:30-41 | with a failing downstream and n overlapping senders, the calls forwarded up to any time T after the first trip number at most FailureThreshold + n - 1 + n * floor((T - firstTrip) / OpenDuration) |
| `CircuitSenders.BeforeFirstTrip` | internal/alert/circuit_dispatcher.go:30-41 | before the first trip at most FailureThreshold + n - 1 |
| `CircuitSenders.StepsOfSender` | internal/alert/circuit_dispatcher.go:30-41 | an idle sender can always ask and is forwarded exactly when the circuit is not open or has been for OpenDuration; a busy one can always report |
| `CircuitSenders.OneSenderIsSequential` | internal/alert/circuit_dispatcher.go:30-41 | one sender that asks and then reports does what a Send that overlaps no other does |
| `Circuit.ProbesClose` | internal/alert/circuit.go:79-88 | once half-open, exactly the missing number of successful sends closes the circuit |
| `Circuit.Recovers` | internal/alert/circuit.go:62-88 | from open, after OpenDuration, exactly SuccessThreshold successful sends close it |
| `Bulkhead.Normalize` | internal/alert/bulkhead.go:35-38 | the limit is positive and a valid one is kept |
| `Bulkhead.StepKeeps` | internal/alert/bulkhead.go:46-64 | each step of any thread keeps len(sem) = entering + holding <= limit and active = holding + leaving |
| `Bulkhead.HoldersBounded` | internal/alert/bulkhead.go:46-71 | in every interleaving holders <= limit, and Active exceeds the limit by at most the number leaving |
| `Bulkhead.ThreadsMove` | internal/alert/bulkhead.go:46-64 | no thread is ever stuck: each has exactly one next step, through entering to holding and through leaving to idle, that moves no other thread |
| `Bulkhead.RejectsOnlyWhenFull` | internal/alert/bulkhead.go:46-60 | Acquire is refused exactly when entering + holding = limit, and a holder's Release never blocks |
| `Bulkhead.Quiescence` | internal/alert/bulkhead.go:46-64 | with all threads idle the channel is empty and active is zero |
| `Bulkhead.Limiter.constructor` | internal/alert/bulkhead.go:35-43 | an empty bulkhead with the normalized limit |
| `Bulkhead.Limiter.Acquire` | internal/alert/bulkhead.go:46-56 | uncontended: grants and counts a slot exactly when one is free |
| `Bulkhead.Limiter.Release` | internal/alert/bulkhead.go:59-64 | uncontended: returns one slot |
| `LoadShedder.Normalize` | internal/alert/shedload.go:30-33 | the limit is positive and a valid one is kept |
| `LoadShedder.StepKeeps` | internal/alert/shedload.go:39-50 | each atomic step of any thread keeps inflight = holding + undoing and holders <= MaxInFlight |
| `LoadShedder.HoldersBounded` | internal/alert/shedload.go:39-55 | in every interleaving holders <= MaxInFlight and InFlight = holding + undoing |
| `LoadShedder.ThreadsMove` | internal/alert/shedload.go:39-50 | no thread is ever stuck: each has exactly one next step, which moves no other thread |
| `LoadShedder.RejectsExactly` | internal/alert/shedload.go:39-45 | Acquire is refused exactly when holding + undoing >= MaxInFlight |
| `LoadShedder.Quiescence` | internal/alert/shedload.go:39-50 | with all threads idle the counter is zero |
| `LoadShedder.SpuriousRefusal` | internal/alert/shedload.go:39-45 | a reachable state in which nobody holds a slot and a call is still refused |
| `LoadShedder.Shedder.constructor` | internal/alert/shedload.go:30-35 | nothing in flight, the normalized limit |
| `LoadShedder.Shedder.Acquire` | internal/alert/shedload.go:39-45 | uncontended: grants and counts a slot exactly when one is free, and undoes its own count otherwise |
| `LoadShedder.Shedder.Release` | internal/alert/shedload.go:48-50 | the counter drops by one, also without a matching Acquire |
| `AdmissionTraces.SameTraces` | internal/alert/bulkhead.go:46-64 | run without interleaving, bulkhead and shedder grant and refuse the same calls from corresponding states |
| `AdmissionTraces.SameFromStart` | internal/alert/shedload.go:39-50 | in particular from the start, for any number of clients |
| `Quorum.DefaultIsMajority` | internal/alert/quorum.go:10-32 | the default policy is valid exactly for a positive total and requires the least strict majority |
| `Quorum.Unsettled` | internal/alert/quorum.go:73-87 | below both thresholds the missing results can still decide either way |
| `Quorum.SettledBySuccesses` | internal/alert/quorum.go:75-79 | Required successes force the answer nil |
| `Quorum.SettledByFailures` | internal/alert/quorum.go:80-86 | more than Total - Required failures force the error |
| `Quorum.Collect` | internal/alert/quorum.go:73-91 | for every arrival order nil exactly when at least Required targets succeed, decided at the first prefix that settles it; the return after the loop is never reached |
| `Quorum.StepKeeps` | internal/alert/quorum.go:56-91 | each step of targets, closer and caller keeps the accounting of results |
| `Quorum.Safety` | internal/alert/quorum.go:56-91 | over every schedule a target that answers finds room in an open channel, also after an early return; the final error return is unreachable; the returned answer is right |
| `Quorum.EndExactly` | internal/alert/quorum.go:88-91 | the error return after the loop is where an empty, closed channel would lead |
| `Quorum.EveryRunReturns` | internal/alert/quorum.go:56-91 | every run is finite and, when it can go no further, has returned the right answer with every goroutine finished and the channel closed |
| `Poller.PollAll` | internal/poller/poller.go:57-72 | for every arrival order and any network answers, one per goroutine, results[i] is the poll of targets[i], also among equal targets |
| `Exponential.CappedInteger` | internal/alert/backoff.go:75-80 | with an integer multiplier the truncated, capped power is min(base * m^k, max) |
| `Exponential.TruncateExactly` | internal/alert/backoff.go:75-77 | a duration converted from a product is the nearest integer toward zero |
| `Backoff.BackoffLimiter.constructor` | internal/alert/backoff.go:43-52 | no entries, the policy as given |
| `Backoff.BackoffLimiter.Interval` | internal/alert/backoff.go:75-80 | the computed interval is the gap that follows grant number attempts + 1 |
| `Backoff.BackoffLimiter.Allow` | internal/alert/backoff.go:56-85 | one call of the backoff gate on the key |
| `Backoff.BackoffLimiter.Reset` | internal/alert/backoff.go:88-92 | the gate's Reset for that key alone |
| `Backoff.StateFollowsGrants` | internal/alert/backoff.go:60-84 | without Reset the stored attempts and nextAt are determined by the grants so far: their number, and the last one plus its gap |
| `Backoff.AdmitsExactly` | internal/alert/backoff.go:56-92 | under any clock and with Resets anywhere, a call is admitted exactly when there is no grant since the last Reset or the scheduled gap has passed since the last one |
| `Backoff.ResetForgets` | internal/alert/backoff.go:87-92 | after a Reset a key is answered as one never seen, whatever its state was |
| `Backoff.GapsGrow` | internal/alert/backoff.go:60-84 | each gap between consecutive grants is at least the scheduled one, under any clock |
| `Backoff.MinimumSpan` | internal/alert/backoff.go:54-85 | gap n is at least base (n = 1) or min(base * m^(n-1), max), and the grants i .. j of a key since its last Reset span at least the sum of the gaps between them |
| `Backoff.GeometricGaps` | internal/alert/backoff.go:75-77 | before the cap the gaps of an integer multiplier sum to base * (m^n - 1) / (m - 1) |
| `Backoff.CappedGaps` | internal/alert/backoff.go:78-80 | from the cap on the sum grows by max per grant |
| `Backoff.DoublingSpan` | internal/alert/backoff.go:18-24 | for multiplier 2, n + 1 grants span at least base * (2^n - 1) before the cap and base * (2^c - 1) + (n - c) * max when it is reached after c gaps |
| `Backoff.CapIndex` | internal/alert/backoff.go:75-80 | for every 1 <= base <= max and integer m >= 2 there is a gap from which on the cap counts |
| `Backoff.GrantsInSpan` | internal/alert/backoff.go:56-85 | for every integer m >= 2, 1 <= base <= max and any two grants of a key a span L apart, with cap index c: until the cap at most log_m((m - 1) * L / base + 1) gaps lie between them, beyond it at most c + (L - base * (m^c - 1) / (m - 1)) / max |
| `Backoff.GrantsInSpanLinear` | internal/alert/backoff.go:75-80 | for every base, max >= 1 and integer m >= 1, at most L / min(base, max) gaps lie between two grants a span L apart |
| `Backoff.TotalGrants` | internal/alert/backoff.go:56-92 | in a run with n Resets an interval of length L sees at most (n + 1) * (L / min(base, max) + 1) grants of a key |
| `Retry.Do` | internal/alert/retry.go:49-82 | stops at the least of MaxAttempts, the first response that is not transient and the first cancelled wait; waits in between follow the schedule and total at most (attempts - 1) * MaxWait when InitialWait <= MaxWait; the final error keeps only what the last error wraps |
| `Retry.Multiply` | internal/alert/retry.go:75-78 | one multiply-then-cap step of the wait |
| `Retry.TotalWait` | internal/alert/retry.go:49-79 | n waits total at most n * MaxWait when InitialWait <= MaxWait, and otherwise the first wait already exceeds MaxWait |
| `Retry.ClosedForm` | internal/alert/retry.go:75-78 | for an integer multiplier the iterated wait is min(InitialWait * m^(k-1), MaxWait), the backoff limiter's schedule |
| `Common.PushAllKeepsLast` | internal/alert/audit.go:39-46 | dropping the head of a full slice before each append keeps exactly the last cap elements of everything pushed |
| `Modular.RemIsMod` | internal/history/history.go:47 | the remainder used in the proofs is the remainder operator |
| `Modular.StartIndex` | internal/history/history.go:60 | Snapshot's start index is the slot of the oldest stored event |
| `History.HoldsNext` | internal/history/history.go:46-50 | writing at head, over the oldest event when full, keeps the last count events in the slots of their own index |
| `History.Ring.constructor` | internal/history/history.go:28-36 | an empty ring; a capacity that is not positive becomes 100 |
| `History.Ring.Record` | internal/history/history.go:39-51 | the history grows by the event, stamped when its time is zero |
| `History.Ring.Snapshot` | internal/history/history.go:55-65 | the last min(n, cap) events ever recorded, oldest first |
| `History.Ring.Len` | internal/history/history.go:68-72 | min(n, cap) |
| `History.Ring.Query` | internal/history/query.go:30-52 | the last Limit matches among the stored events, in order |
| `History.AnswerExactly` | internal/history/query.go:12-52 | the answer is the last Limit events that pass the port, state and Since filters, in order |
| `History.Ring.Summary` | internal/history/query.go:55-69 | every configured or stored port with the state of its latest stored event, else "unknown" |
| `History.LatestStateExactly` | internal/history/query.go:64-68 | the latest state of a port is the state of its last event |
| `History.QueryIsCompleteExactly` | internal/history/query.go:28-52 | Query equals the answer of the complete history if and only if Limit matches survive or no match was evicted |
| `History.SummaryIsTrueExactly` | internal/history/query.go:54-69 | Summary shows a port's true latest state exactly when its latest record is among the last cap (or its state is the word shown for unknown ports) |
| `Audit.AuditLog.constructor` | internal/alert/audit.go:31-36 | an empty log; a capacity that is not positive becomes 256 |
| `Audit.AuditLog.Record` | internal/alert/audit.go:39-46 | the log stays the last cap entries of the history, like the ring |
| `Audit.AuditLog.Snapshot` | internal/alert/audit.go:49-55 | the last cap entries, oldest first |
| `PriorityQueues.DeliveryIsStableSort` | internal/alert/priorityqueue.go:72-86 | the bucket order is a stable sort of the arrivals by descending priority |
| `PriorityQueues.StableSortUnique` | internal/alert/priorityqueue.go:72-86 | there is only one such order |
| `PriorityQueues.PriorityQueue.constructor` | internal/alert/priorityqueue.go:46-54 | an empty queue with the default capacity for a value that is not positive |
| `PriorityQueues.PriorityQueue.Enqueue` | internal/alert/priorityqueue.go:58-70 | accepted exactly when the priority is in range and the queue is not full, and then last in arrival order; size is the bucket sum and <= Capacity |
| `PriorityQueues.PriorityQueue.Dequeue` | internal/alert/priorityqueue.go:74-86 | removes the head of the delivery order, nothing exactly when the queue is empty |
| `PriorityQueues.RemoveFirst` | internal/alert/priorityqueue.go:77-82 | removing the earliest item of a priority leaves every other priority as it was |
| `PriorityQueues.Drain` | internal/alert/priorityqueue.go:96-106 | delivered ++ the one item whose send failed ++ remaining is the delivery order of what was queued; without an error everything is delivered |
| `Batching.Batcher.constructor` | internal/alert/batch.go:37-49 | an empty batcher with the default size for a value that is not positive |
| `Batching.Batcher.Flush` | internal/alert/batch.go:94-102 | the buffer's contents go into a fresh slice and the buffer is truncated; older batches keep their contents |
| `Batching.Batcher.Add` | internal/alert/batch.go:53-60 | batches so far plus buffer remain everything added, in order; a batch is cut exactly at MaxSize |
| `Batching.Batcher.Tick` | internal/alert/batch.go:63-79 | a tick or cancellation cuts whatever is buffered |
| `Batching.RunConserves` | internal/alert/batch.go:53-102 | for every interleaving of Adds and ticks the batches in creation order followed by the buffer are exactly the Adds; each batch has 1..MaxSize items |
| `Batching.CutsExactly` | internal/alert/batch.go:53-102 | an Add cuts a batch exactly when it is the MaxSize-th item since the last cut, and a tick exactly when something is buffered |
| `Batching.CancellationFlushesAll` | internal/alert/batch.go:72-76 | the flush on cancellation leaves nothing behind |
| `Digest.StepKeeps` | internal/alert/digest.go:52-80 | each step of Adds, timers and flushes keeps the counts and the timer discipline |
| `Digest.Conservation` | internal/alert/digest.go:52-90 | for every key flushed counts plus the bucket count equal the Adds, under any interleaving of timers and manual flushes |
| `Digest.DigestsCarryFirst` | internal/alert/digest.go:52-86 | over every schedule the bucket, and each bucket taken by a flush, holds for each key the first notification added since the flush before, with the number of them |
| `Digest.SameEntryExactly` | internal/alert/digest.go:56 | two notifications share an entry if and only if they agree in port and state |
| `Digest.EventsExactly` | internal/alert/digest.go:52-80 | the first Add of a bucket arms a new timer, an armed timer can fire and then flush, a manual flush is always possible; a flush takes the whole bucket and stops its timer unless that has fired |
| `Digest.NothingStranded` | internal/alert/digest.go:52-80 | whenever the bucket is non-empty its timer alone empties it, and when it is empty no timer is armed |
| `Digest.StaleExactly` | internal/alert/digest.go:73-80 | after every schedule the timers that wait for the mutex without a bucket of their own are exactly the overtaken ones: another flush took their bucket when Stop came too late, and they have not flushed since |
| `Digest.ForeignBucketExactly` | internal/alert/digest.go:73-80 | a timer that gets the mutex takes a bucket other than its own if and only if it was overtaken; one that takes a bucket whose own timer is still armed was |
| `Digest.OneBatchPerWindowExactly` | internal/alert/digest_doc.go:5-8 | every timer that flushed in a run found its own bucket and every timer about to flush will, if and only if no manual flush of the run came after the timer it should stop had fired |
| `Digest.WithoutManualFlush` | internal/alert/digest.go:63-80 | in a run without manual flushes every timer flush takes the bucket of its own window |
| `Digest.StaleTimerFlushesEarly` | internal/alert/digest.go:73-80 | a reachable state in which a timer that fired before a manual flush empties the next bucket before that bucket's window elapsed |
| `Digest.Digester.constructor` | internal/alert/digest.go:40-48 | an empty bucket and no timer |
| `Digest.Digester.Add` | internal/alert/digest.go:52-66 | the Add transition: counts the key and arms a timer when there is none |
| `Digest.Digester.TakeBucket` | internal/alert/digest.go:73-80 | the mutex-held part of flush: hands over the bucket, stops the timer |
| `Correlate.Correlator.constructor` | internal/alert/correlate.go:40-46 | no entries, the policy as given |
| `Correlate.Correlator.Record` | internal/alert/correlate.go:54-67 | one call of the correlation gate on the key of port and state |
| `Correlate.Correlator.Reset` | internal/alert/correlate.go:70-74 | no entries remain |
| `Correlate.OncePerWindow` | internal/alert/correlate.go:52-67 | for every run of a key each anchored window forwards exactly its MinEvents-th record, if it has that many and MinEvents >= 2, and nothing else |
| `Correlate.ForwardsPerRecords` | internal/alert/correlate.go:52-67 | forwards are the windows that receive MinEvents records, and forwards * MinEvents <= records |
| `Correlate.CanForwardExactly` | internal/alert/correlate.go:52-67 | some run forwards if and only if MinEvents >= 2, for any WindowDuration; under a nondecreasing clock if and only if also WindowDuration >= 0 |
| `Correlate.ForwardedExactly` | internal/alert/correlate.go:52-67 | in every run, record i is forwarded if and only if it lies exactly MinEvents - 1 records after its window's anchor and MinEvents >= 2 |
| `Correlate.ReportedExactly` | internal/alert/correlate.go:52-67 | the window of record i has forwarded if and only if its anchor lies at least MinEvents - 1 records back and MinEvents >= 2 |
| `Correlate.BurstReportedExactly` | internal/alert/correlate_doc.go:5-8 | for any clock, the last MinEvents records are reported if and only if none of them after the first opens a new window |
| `Correlate.LongBurstNoticed` | internal/alert/correlate_doc.go:5-8 | under a nondecreasing clock, 2 * MinEvents - 2 records within WindowDuration always belong to a window that has forwarded |
| `Correlate.SlidingExactly` | internal/alert/correlate_doc.go:5-8 | every burst of MinEvents records within WindowDuration is noticed if and only if MinEvents is 2, or more with a zero WindowDuration, or the policy allows no such burst |
| `Correlate.ForwardSpan` | internal/alert/correlate.go:54-67 | under a nondecreasing clock n forwards of a key span more than (n - 2) * WindowDuration |
| `Correlate.ForwardHasEvidence` | internal/alert/correlate.go:54-67 | behind every forward there are MinEvents records within WindowDuration |
| `Correlate.AnchoredNotSliding` | internal/alert/correlate_doc.go:5-8 | a run of four records in which MinEvents = 3 of them within one WindowDuration forward nothing |
| `Escalate.Escalator.constructor` | internal/alert/escalation.go:38-44 | no entries, the policy as given |
| `Escalate.Escalator.Record` | internal/alert/escalation.go:48-61 | counts the failure, keeps the first time, and reports the threshold |
| `Escalate.Escalator.Reset` | internal/alert/escalation.go:64-68 | removes that key's entry alone |
| `Escalate.Escalator.Count` | internal/alert/escalation.go:71-78 | the stored count, zero without an entry |
| `Escalate.EscalationKeyInjective` | internal/alert/escalation_dispatcher.go:48-50 | different (port, state) pairs have different escalation keys |
| `Escalate.Dispatch` | internal/alert/escalation_dispatcher.go:29-46 | nothing is recorded when the primary fails; otherwise closed is recorded and any other state resets its own key |
| `Escalate.NeverReset` | internal/alert/escalation_dispatcher.go:34-45 | over any run a port's closed entry counts all its dispatched closed notifications and keeps the time of the first |
| `Escalate.EscalatesExactly` | internal/alert/escalation_dispatcher.go:34-42 | the escalation channel is used exactly from the max(2, Threshold)-th closed notification on, once the first is MinDuration old |
| `Escalate.CountIsSinceRecoveryExactly` | internal/alert/escalation_doc.go:23-24 | the count meets the documented reset if and only if no dispatched closed notification of the port was followed by a dispatched recovery |
| `Escalate.RecoveryDoesNotReset` | internal/alert/escalation_doc.go:23-24 | a run in which a port escalates on its first failure after a recovery |
| `Observe.Sort` | internal/alert/observe.go:99-105 | the in-place insertion sort yields a sorted permutation |
| `Observe.Sink` | internal/alert/observe.go:101-103 | the inner loop extends the sorted prefix by one element and permutes |
| `Observe.RankInRange` | internal/alert/observe.go:95-96 | the percentile index is in bounds |
| `Observe.RankMonotone` | internal/alert/observe.go:95 | the index is monotone in the percentage |
| `Observe.RankExactly` | internal/alert/observe.go:95 | the index is the last one that is at most p hundredths of n - 1 |
| `Observe.PercentileOfSorted` | internal/alert/observe.go:91-97 | the reported value is a sample with more than p hundredths of n - 1 samples at or below it and no more than that below it |
| `Observe.PercentileUnique` | internal/alert/observe.go:91-97 | those ranks determine the value |
| `Observe.Observer.constructor` | internal/alert/observe.go:42-47 | no calls and no samples |
| `Observe.Observer.Record` | internal/alert/observe.go:50-62 | total = dropped + samples, errors <= samples, and the sample is appended unless the call was dropped |
| `Observe.Observer.Snap` | internal/alert/observe.go:65-81 | the counters and the true 50th and 99th percentiles, P50 <= P99, with the stored samples unchanged |
| `Observe.Observer.Reset` | internal/alert/observe.go:84-89 | all counters zero, the backing array kept |

## Left out

- HTTP requests, TCP dials, scripts, configuration, the command line and the API: replaced by oracles or omitted.
- cache.go and ratelimit_dispatcher.go: the first ends in the middle of its code and the second calls a throttler signature that does not exist.
- The wrappers fallback, pipeline, tap, dead letter, checkpoint, filter, mux, routing, timeout, shadow, label, enrich and transform: one-branch claims, or the bounded log again.
- suppress.go, monitor.go, sampling.go and jitter.go: shallow beside the rest, or random without a stated distribution.
- Two declarations in the repository disagree (`Event` is declared twice, `Send` has several signatures, retry.go:33 does not parse): the model has one event record and one notion of sending.
- Fairness and real time: a goroutine may be delayed for any time; results about finished runs suppose that every downstream call eventually returns.
- Saturation of `time.Time` subtraction and overflow of 64-bit counters and durations: integers are unbounded.
- Backoff.BackoffLimiter.Interval: the product base * multiplier^attempts is taken over the reals and then truncated; float64 rounding, and the conversion of a product beyond the int64 range, are not modelled.
- Retry.Do: the responses of the HTTP client and the cancellation during each wait are given as sequences; response bodies and the request's own context are not modelled.
- Observe.Observer.Snap: samples are whole milliseconds and the percentile index is exact integer arithmetic; the latency buckets of the policy are never read by the code.
- PriorityQueues.Drain: no Enqueue happens while it runs; DrainTimeout is never read by the code.
- Poller.PollAll: the goroutines are represented by the order in which their results arrive.
- Digest.Digester.TakeBucket: the sends that follow outside the lock, whose errors the code ignores, and the text of the digest message are not modelled.
- Circuit.FailingDownstreamBound: stated for sends that do not overlap; `CircuitSenders.OverlappingBound` is the bound for any number of overlapping senders.
- WindowCounters.WindowCounter.Keys: Go's map iteration order is arbitrary, and so is the order of the result.
- The Len, State, Active and InFlight accessors beyond what the states above show, and message and error text.
