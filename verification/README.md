# Queues, containers and wire helpers of obz

A Dafny model of the concurrent queues of obz and of the sequential code beside them, with proofs of what
they promise.

- `mpsc_ring_queue`: a sequence-numbered ring with any number of producers and one consumer. `MpscModel` takes
  one step per atomic access or element operation and lets steps interleave freely; `MpscInvariant` is the
  inductive invariant; `MpscTheorems` holds FIFO order, exclusive ownership, exact fullness, the progress bound,
  64-bit arithmetic and the exact capacity bound; `MpscDelivery` shows that no interleaving can lose a value or
  deadlock; `MpscWraparound` says exactly how far the 64-bit counters can be trusted; `MpscQueue` is the class
  itself, with other threads running between any two of its atomic accesses.
- `spsc_ring_queue`: `SpscModel` lets each side read any value of the other index between the last one it saw
  and the newest one; `SpscTheorems` proves safety under such stale views and says exactly when wrapping
  counters are harmless; `SpscQueue` is the class.
- `bounded_blocking_queue` and `blocking_queue`: one step system with an optional capacity. `ClosableFifo` is the
  specification, over a history of what each thread did; `BlockingInvariant` counts parked, woken and notifying
  threads; `BlockingTheorems` holds lost wakeups, stuck states, termination after close, refinement of the FIFO
  and the fact that each call does exactly the one event its answer tells; `BlockingQueue` is the class, whose
  contracts name the events each call adds to the history.
- `ring_buffer` and, over all three rings, `ThreeQueues`: one thread gets the same answers from each.
- `weighted_set`, `endian` and the transfer loops of `tcp_socket`: classes and methods proved against
  mathematical specifications.

A class whose calls other threads can interrupt carries a ghost `model` and a ghost `trace`; its invariant says
that the trace is a run of the protocol ending in the model, and that the fields are the model's shared part.
Between two atomic accesses the methods call `Interfere` (or one of its variants), whose contract alone says what
others may have done: any run of the other threads' steps. So each theorem about runs holds of the class. Methods take bounds on what
others do (`claims`, `spurious`, `wakeups`) where the call itself would otherwise be unbounded.

Findings about the source:

- `mpsc_ring_queue` asserts only that its capacity is positive. With capacity one the published number and the
  free number of the next lap coincide, a second push constructs over the first object and the consumer never
  matches again. `SoundExactlyFromTwo` proves that the protocol is sound exactly from capacity two.
- `mpsc_ring_queue` compares 64-bit numbers through `ptrdiff_t`. With two producers or more this is defined and
  exact if and only if the claims made and one capacity fit into 2^63 (`MachineAgreesExactly`); beyond, there is a
  run in which an overtaken producer's signed subtraction overflows, which has no defined result.
- `mpsc_ring_queue::size()` loads the write index first: if the consumer passes it before the second load, the
  unsigned difference wraps (`MpscQueue.MpscRingQueue.Size`), and a push and a pop in between do that (`SizeCanWrap`).
- `spsc_ring_queue` on wrapping counters is sound for every run exactly when the capacity divides the counter
  modulus (`WrapSafeExactlyWhenDividing`); for other capacities it is sound for exactly as many pushes as the
  modulus says (`WrapExactlyUpTo`).

## Model

| member | source | states |
|---|---|---|
| MpscInvariant.InitInv | libs/mpsc_ring_queue/include/obz/mpsc_ring_queue.hpp:20-24 | The constructor's sequence numbers establish the invariant for any number of producers. |
| MpscInvariant.StepInv | libs/mpsc_ring_queue/include/obz/mpsc_ring_queue.hpp:37-103 | For capacity two and more, every atomic step of any producer or of the consumer keeps index bounds, the sequence number and storage of every cell in the window, each thread's snapshot facts and the history. |
| MpscInvariant.SequenceReading | libs/mpsc_ring_queue/include/obz/mpsc_ring_queue.hpp:45-62 | What a producer can read from its cell: below `write` exactly when `write` is one capacity beyond the released positions, and then it is the current write index; above `write` only when the write index has moved on. |
| MpscInvariant.RunInv | libs/mpsc_ring_queue/include/obz/mpsc_ring_queue.hpp:37-152 | The invariant holds in every state of every run. |
| MpscTheorems.ExitsAreClaimPrefix | libs/mpsc_ring_queue/include/obz/mpsc_ring_queue.hpp:41-102 | FIFO over all interleavings: what has been popped or cleared is the prefix, of length given by the read index, of the values in claim order; each claim counts once; an unpublished claim is still held by its producer. |
| MpscTheorems.QuiescentQueueIsStored | libs/mpsc_ring_queue/include/obz/mpsc_ring_queue.hpp:52-66 | With no call in progress the cells hold exactly the claimed values that have not left, all published, and every other cell is free and empty. |
| MpscTheorems.ClaimAppends | libs/mpsc_ring_queue/include/obz/mpsc_ring_queue.hpp:52-56 | Winning the compare-exchange is the point where a push takes effect: it appends to the abstract queue. |
| MpscTheorems.MoveTakesFront | libs/mpsc_ring_queue/include/obz/mpsc_ring_queue.hpp:94-97 | The consumer's move hands over the front of the abstract queue. |
| MpscTheorems.ClearDropsFront | libs/mpsc_ring_queue/include/obz/mpsc_ring_queue.hpp:142-148 | Each destruction by `clear` removes the front of the abstract queue, unpopped. |
| MpscTheorems.OtherStepsKeepQueue | libs/mpsc_ring_queue/include/obz/mpsc_ring_queue.hpp:41-102 | No other step of any thread changes the abstract queue or what has left it. |
| MpscTheorems.PopMissIsExact | libs/mpsc_ring_queue/include/obz/mpsc_ring_queue.hpp:83-92 | `try_pop` reports nothing, and `clear` stops, exactly when the head position is not published, whatever is published behind it. |
| MpscTheorems.AcceptedIsLogged | libs/mpsc_ring_queue/include/obz/mpsc_ring_queue.hpp:65-68 | When `try_emplace` returns true its position carries its value and producer, and the cell is published and constructed. |
| MpscTheorems.OwnershipIsExclusive | libs/mpsc_ring_queue/include/obz/mpsc_ring_queue.hpp:52-100 | No two threads own one cell: a producer from claim to publish, the consumer from match to release. |
| MpscTheorems.WritesAreOwned | libs/mpsc_ring_queue/include/obz/mpsc_ring_queue.hpp:52-100 | Every write to storage or to a sequence number goes to a cell the writer owns. |
| MpscTheorems.WonClaimIsFree | libs/mpsc_ring_queue/include/obz/mpsc_ring_queue.hpp:47-57 | No ABA: if the compare-exchange succeeds after any interference since the sequence load, the cell still holds `write` and its storage is empty. |
| MpscTheorems.OwnedCellIsUndisturbed | libs/mpsc_ring_queue/include/obz/mpsc_ring_queue.hpp:65-100 | While a thread owns a cell, no run of other threads changes its storage or sequence number or moves the owner. |
| MpscTheorems.ElementOperationsMeetTheirSlot | libs/mpsc_ring_queue/include/obz/mpsc_ring_queue.hpp:65-97 | Construction always meets an empty slot, the move a constructed one with the claimed value, destruction a live one. |
| MpscTheorems.FullIsNeverSpurious | libs/mpsc_ring_queue/include/obz/mpsc_ring_queue.hpp:47-59 | A refusal, and `full()` answering true, happens exactly when `write` is one capacity beyond the released positions; at that load it is the current write index and exactly `Capacity` claims are not released. |
| MpscTheorems.RetryAdvances | libs/mpsc_ring_queue/include/obz/mpsc_ring_queue.hpp:52-62 | Every retry other than a spurious failure strictly increases the local `write`. |
| MpscTheorems.RetriesAreCounted | libs/mpsc_ring_queue/include/obz/mpsc_ring_queue.hpp:44-63 | The counters are true: from the start of a call, in every run, a producer still looking for a position has come to load a sequence number exactly once more than it has retried, and its spurious failures are those of the run. |
| MpscTheorems.RetriesArePaidByOthers | libs/mpsc_ring_queue/include/obz/mpsc_ring_queue.hpp:44-63 | In every run the retries of a call, so counted, spurious ones aside, are at most the claims made since its first load, and all of those belong to other producers. |
| MpscTheorems.MachineStepIsExact | libs/mpsc_ring_queue/include/obz/mpsc_ring_queue.hpp:48-49 | With write index plus capacity within 2^63, no signed subtraction of a step overflows, and the step on 64-bit counters is the step on unbounded ones. |
| MpscTheorems.MachineCellIsExact | libs/mpsc_ring_queue/include/obz/mpsc_ring_queue.hpp:48-49 | In every reachable state within 2^63 a producer's subtraction does not overflow and is the mathematical difference, in `try_emplace` and `full()`. |
| MpscTheorems.MachineHeadIsExact | libs/mpsc_ring_queue/include/obz/mpsc_ring_queue.hpp:87-100 | The same for the consumer's subtraction, and its additions do not wrap. |
| MpscTheorems.MachineArithmeticIsExact | libs/mpsc_ring_queue/include/obz/mpsc_ring_queue.hpp:87-88 | Below 2^63 each signed subtraction is free of overflow and equals the mathematical difference, and below 2^64 additions do not wrap. |
| MpscTheorems.MachineRunIsExact | libs/mpsc_ring_queue/include/obz/mpsc_ring_queue.hpp:41-102 | Every run that stays within 2^63 is the same run on the machine's integers, so no signed subtraction in it overflows. |
| MpscWraparound.Overtaken | libs/mpsc_ring_queue/include/obz/mpsc_ring_queue.hpp:44-49 | Any write index can be reached with a producer holding it that has been overtaken by a push and a pop through the same cell. |
| MpscWraparound.OvertakenGoesWrong | libs/mpsc_ring_queue/include/obz/mpsc_ring_queue.hpp:48-59 | Where position plus capacity reaches 2^63, the overtaken producer's subtraction overflows for capacities below 2^63, and for larger ones reports a full ring that is not full. |
| MpscWraparound.MachineAgreesExactly | libs/mpsc_ring_queue/include/obz/mpsc_ring_queue.hpp:48-49 | For two producers and more, all runs of up to `limit` claims are free of overflow and the same on the machine's integers if and only if `limit` plus the capacity is at most 2^63. |
| MpscTheorems.TwoPushesIntoOneCell | libs/mpsc_ring_queue/include/obz/mpsc_ring_queue.hpp:18-24 | With capacity one two pushes in a row both succeed, the second over the first object. |
| MpscTheorems.StrandedForever | libs/mpsc_ring_queue/include/obz/mpsc_ring_queue.hpp:83-92 | After that no run ever lets the consumer take anything again. |
| MpscTheorems.SoundExactlyFromTwo | libs/mpsc_ring_queue/include/obz/mpsc_ring_queue.hpp:18 | All runs are free of construction over a live object, moves from a missing one and double destruction if and only if the capacity is at least two. |
| MpscDelivery.ClaimsCanBeDelivered | libs/mpsc_ring_queue/include/obz/mpsc_ring_queue.hpp:37-103 | From every reachable state, letting claim holders finish and the consumer pop delivers exactly the values claimed so far in claim order. |
| MpscDelivery.OwnerAdvances | libs/mpsc_ring_queue/include/obz/mpsc_ring_queue.hpp:65-66 | The producer holding an unpublished claim can always take its next step, and that is progress towards publication. |
| MpscQueue.RunRely | libs/mpsc_ring_queue/include/obz/mpsc_ring_queue.hpp:37-103 | What one thread may rely on through any run of the others. |
| MpscQueue.MpscRingQueue.constructor | libs/mpsc_ring_queue/include/obz/mpsc_ring_queue.hpp:20-24 | The new queue is the initial state of the protocol. |
| MpscQueue.MpscRingQueue.TryEmplace | libs/mpsc_ring_queue/include/obz/mpsc_ring_queue.hpp:37-69 | With others running throughout: the retries reported are the loads of a sequence number after the first, at most the others' claims plus spurious failures; refusal only at an instant when the ring is full; success adds exactly one own published entry, refusal none. |
| MpscQueue.MpscRingQueue.Claim | libs/mpsc_ring_queue/include/obz/mpsc_ring_queue.hpp:41-63 | The claim loop terminates, counts its turns, and ends owning a fresh position or at an instant when the ring is full. |
| MpscQueue.MpscRingQueue.TryPop | libs/mpsc_ring_queue/include/obz/mpsc_ring_queue.hpp:79-103 | Delivers the value claimed at the read position and advances by one, or changes nothing because that position is not published. |
| MpscQueue.MpscRingQueue.Clear | libs/mpsc_ring_queue/include/obz/mpsc_ring_queue.hpp:132-152 | Destroys published elements in order, once each; with no producer inside a call nothing is left and every cell is empty. |
| MpscQueue.MpscRingQueue.IsEmpty | libs/mpsc_ring_queue/include/obz/mpsc_ring_queue.hpp:105-110 | By any thread, with everybody running: false exactly when the position first read is published and not released at the second load; while the consumer stays there, exactly when something can be popped. |
| MpscQueue.MpscRingQueue.IsFull | libs/mpsc_ring_queue/include/obz/mpsc_ring_queue.hpp:112-119 | Never true unless `Capacity` claims are unreleased; exact when the thread is alone. |
| MpscQueue.MpscRingQueue.Size | libs/mpsc_ring_queue/include/obz/mpsc_ring_queue.hpp:125-130 | By any thread: within the capacity unless the consumer has passed the write index first loaded, when the unsigned difference wraps; with no call in progress, the number of elements held. |
| MpscWraparound.SizeCanWrap | libs/mpsc_ring_queue/include/obz/mpsc_ring_queue.hpp:125-130 | The interleaving exists: from any write index a push and a pop between the two loads of `size()` leave the read index one beyond, and the difference is 2^64 - 1. |
| SpscTheorems.StepInv | libs/spsc_ring_queue/include/obz/spsc_ring_queue.hpp:33-70 | Every step keeps the invariant, however stale the index it loads. |
| SpscTheorems.StaleViewsAreSafe | libs/spsc_ring_queue/include/obz/spsc_ring_queue.hpp:33-70 | In every run with stale loads `0 <= write - read <= Capacity`, the producer's own view never exceeds the capacity, no element operation meets a wrong slot, and what left is a prefix of what was pushed, at most `Capacity` elements behind. |
| SpscTheorems.FullTestCatchesFull | libs/spsc_ring_queue/include/obz/spsc_ring_queue.hpp:34-39 | The equality test refuses exactly when the view is full and always when the ring is; with a current view only then. |
| SpscTheorems.EmptyTestIsSafe | libs/spsc_ring_queue/include/obz/spsc_ring_queue.hpp:56-63 | Passing the test means the slot holds the pushed element; with a current view a miss means empty. |
| SpscTheorems.SidesNeverMeet | libs/spsc_ring_queue/include/obz/spsc_ring_queue.hpp:41-68 | Producer and consumer never work on the same slot at once. |
| SpscTheorems.SlotIndexSurvives | libs/spsc_ring_queue/include/obz/spsc_ring_queue.hpp:106-108 | Slot indices agree for every counter value if and only if the capacity divides the modulus. |
| SpscTheorems.WrappingRunAgrees | libs/spsc_ring_queue/include/obz/spsc_ring_queue.hpp:33-70 | Runs on wrapping counters go through the same storage, answers and values as on unbounded ones when the capacity divides the modulus, and otherwise up to as many pushes as the modulus. |
| SpscTheorems.QueriesSurviveWrapping | libs/spsc_ring_queue/include/obz/spsc_ring_queue.hpp:72-89 | `empty()`, `full()` and `size()` compute the same from wrapped counters. |
| SpscTheorems.WrapCollides | libs/spsc_ring_queue/include/obz/spsc_ring_queue.hpp:106-108 | For any capacity that does not divide the modulus, a run with one push more than the modulus constructs over a live object. |
| SpscTheorems.WrapSafeExactlyWhenDividing | libs/spsc_ring_queue/include/obz/spsc_ring_queue.hpp:33-108 | Wraparound is harmless in all runs if and only if the capacity divides the counter modulus. |
| SpscTheorems.WrapExactlyUpTo | libs/spsc_ring_queue/include/obz/spsc_ring_queue.hpp:33-108 | All runs of at most `limit` pushes agree with unbounded counters, and are safe, if and only if the capacity divides the modulus or `limit` is at most the modulus. |
| SpscQueue.SpscRingQueue.TryEmplace | libs/spsc_ring_queue/include/obz/spsc_ring_queue.hpp:33-45 | Appends the value and publishes it, or refuses because the ring looked full to the producer. |
| SpscQueue.SpscRingQueue.TryPop | libs/spsc_ring_queue/include/obz/spsc_ring_queue.hpp:55-70 | With the producer running between all accesses: hands over the oldest element and advances by one, or changes nothing because its view of the write index equals the read index. |
| SpscQueue.SpscRingQueue.Clear | libs/spsc_ring_queue/include/obz/spsc_ring_queue.hpp:91-101 | Destroys what is left in order, once each, and leaves every slot empty. |
| SpscQueue.SpscRingQueue.Query | libs/spsc_ring_queue/include/obz/spsc_ring_queue.hpp:72-89 | By either side while the other is active: the producer never sees too few elements, the consumer never too many, nobody more than the capacity; alone and at rest, the abstract queue's size. |
| SpscQueue.QuiescentQueueIsStored | libs/spsc_ring_queue/include/obz/spsc_ring_queue.hpp:41-69 | With both sides at rest the ring holds exactly the abstract queue and nothing else. |
| BlockingInvariant.StepInv | libs/bounded_blocking_queue/include/obz/bounded_blocking_queue.hpp:41-127 | Every mutex section, late notification and spurious wakeup keeps the counting invariant over parked, woken and notifying threads. |
| BlockingInvariant.CensusPut | libs/bounded_blocking_queue/include/obz/bounded_blocking_queue.hpp:41-127 | Moving one thread changes the census by exactly that thread. |
| BlockingTheorems.NoWakeupIsLost | libs/bounded_blocking_queue/include/obz/bounded_blocking_queue.hpp:41-127 | In every run: with a parked consumer the size is at most pending notifies plus woken consumers; with a parked producer of an open queue so are the free places; after close a parked thread is still owed a `notify_all`. |
| BlockingTheorems.CanStepIsEnabled | libs/bounded_blocking_queue/include/obz/bounded_blocking_queue.hpp:45-56 | A thread inside a call that is not parked always has a step of its own. |
| BlockingTheorems.StuckMeansNoStep | libs/bounded_blocking_queue/include/obz/bounded_blocking_queue.hpp:45-56 | A state is stuck if and only if no step but a new call or a spurious wakeup is enabled. |
| BlockingTheorems.StuckOnlyWhenItMustBe | libs/bounded_blocking_queue/include/obz/bounded_blocking_queue.hpp:87-99 | When no thread can step, a parked consumer means an empty open queue and a parked producer a full open one. |
| BlockingTheorems.NeverBothStuck | libs/bounded_blocking_queue/include/obz/bounded_blocking_queue.hpp:45-99 | Then producers and consumers are never parked together. |
| BlockingTheorems.BudgetFalls | libs/bounded_blocking_queue/include/obz/bounded_blocking_queue.hpp:41-127 | In every reachable state, open or closed, every step but a new call or a spurious wakeup lowers a measure: no thread wakes and parks again for ever. |
| BlockingTheorems.OwnRunsAreShort | libs/bounded_blocking_queue/include/obz/bounded_blocking_queue.hpp:41-127 | So from every reachable state runs without new calls and spurious wakeups are of bounded length. |
| BlockingTheorems.StuckMeansAtRest | libs/bounded_blocking_queue/include/obz/bounded_blocking_queue.hpp:45-99 | Where such a run cannot go on, each thread is out of any call, a consumer on an empty open queue, or a producer on a full open one. |
| BlockingTheorems.EverybodySettles | libs/bounded_blocking_queue/include/obz/bounded_blocking_queue.hpp:41-127 | From every reachable state the threads' own steps lead there. |
| BlockingTheorems.ClosedStaysClosed | libs/bounded_blocking_queue/include/obz/bounded_blocking_queue.hpp:119-127 | Once closed, nothing more is accepted and nobody parks again. |
| BlockingTheorems.EffortFalls | libs/bounded_blocking_queue/include/obz/bounded_blocking_queue.hpp:119-127 | After close every step but the start of a call lowers a measure, spurious wakeups included. |
| BlockingTheorems.RunsAfterCloseAreShort | libs/bounded_blocking_queue/include/obz/bounded_blocking_queue.hpp:45-51 | So runs after close without new calls are at most that long, and accept nothing. |
| BlockingTheorems.ClosedAndStuckMeansDone | libs/bounded_blocking_queue/include/obz/bounded_blocking_queue.hpp:87-93 | A closed queue where no thread can step has no call left in progress. |
| BlockingTheorems.CloseReleasesEverybody | libs/bounded_blocking_queue/include/obz/bounded_blocking_queue.hpp:119-127 | From every reachable closed state the threads' own steps bring every call to its end. |
| BlockingTheorems.StepRefinesFifo | libs/bounded_blocking_queue/include/obz/bounded_blocking_queue.hpp:41-117 | Each step keeps the history one that the closable bounded FIFO allows and the queue where that FIFO is: pushes only when open with room, pops of the front, `wait_and_pop` false only when closed and empty, throws only when closed. |
| BlockingTheorems.RunRefinesFifo | libs/blocking_queue/include/obz/blocking_queue.hpp:36-87 | In every run of either queue the FIFO allows the whole history, event by event, and ends with the queue's contents and flag. |
| BlockingTheorems.FifoOverRuns | libs/blocking_queue/include/obz/blocking_queue.hpp:36-78 | In every run the size stays within the capacity and accepted values are the delivered ones followed by the queue. |
| BlockingTheorems.OneEventPerCall | libs/bounded_blocking_queue/include/obz/bounded_blocking_queue.hpp:41-127 | Between the start of a call and its return, whatever runs in between, the thread does exactly one event and its answer tells it: the push of its argument, the pop of the value returned, the close, or the failure. |
| ClosableFifo.FifoConserves | libs/bounded_blocking_queue/include/obz/bounded_blocking_queue.hpp:41-117 | The FIFO conserves values in order within its capacity. |
| ClosableFifo.NothingEntersAfterClose | libs/blocking_queue/include/obz/blocking_queue.hpp:80-87 | No value enters after a close, and closed stays closed. |
| ClosableFifo.AddsOne | libs/bounded_blocking_queue/include/obz/bounded_blocking_queue.hpp:56-56 | A thread that added one event has exactly one new entry in the history, and that is the event. |
| BlockingQueue.BlockingQueue.CreateBounded | libs/bounded_blocking_queue/include/obz/bounded_blocking_queue.hpp:15-20 | Fails exactly for capacity zero. |
| BlockingQueue.BlockingQueue.Emplace | libs/bounded_blocking_queue/include/obz/bounded_blocking_queue.hpp:41-57 | Adds exactly one own event, the push of the value, and returns; or throws, closed, having pushed nothing; or is still waiting, having done nothing, and then either parked or parked again by every one of the looks at the queue it was watched through. |
| BlockingQueue.BlockingQueue.TryEmplace | libs/bounded_blocking_queue/include/obz/bounded_blocking_queue.hpp:68-81 | Adds exactly one own event: true and the push of the value, or false and a refusal, only when closed or full. |
| BlockingQueue.BlockingQueue.WaitAndPop | libs/bounded_blocking_queue/include/obz/bounded_blocking_queue.hpp:83-101 | Adds exactly one own event: the pop of the value returned, or the end, only when closed and empty; or is still waiting, having done nothing, under the same condition. |
| BlockingQueue.BlockingQueue.TryPop | libs/blocking_queue/include/obz/blocking_queue.hpp:67-78 | Adds exactly one own event: the pop of the value returned, or a miss, only when the queue is empty. |
| BlockingQueue.BlockingQueue.Close | libs/blocking_queue/include/obz/blocking_queue.hpp:80-87 | Adds exactly one own event, the close, pushes and pops nothing, and sends both notifications after the unlock. |
| BlockingQueue.BlockingQueue.ValidIsReachable | libs/blocking_queue/include/obz/blocking_queue.hpp:35-87 | Any valid queue object is in a state of some run, its history is one the FIFO allows, and its contents are what that FIFO holds. |
| RingBuffer.HoldsAppend | libs/ring_buffer/include/obz/ring_buffer.hpp:42-45 | Writing at the tail meets an empty slot and appends to the contents. |
| RingBuffer.HoldsDropFirst | libs/ring_buffer/include/obz/ring_buffer.hpp:55-61 | Emptying the head slot and stepping past it removes the first element. |
| RingBuffer.RingBuffer.Create | libs/ring_buffer/include/obz/ring_buffer.hpp:13-15 | Fails exactly for capacity zero. |
| RingBuffer.RingBuffer.EmplaceBack | libs/ring_buffer/include/obz/ring_buffer.hpp:37-48 | Appends unless full. |
| RingBuffer.RingBuffer.PopFront | libs/ring_buffer/include/obz/ring_buffer.hpp:50-64 | Removes and hands over the first element unless empty. |
| RingBuffer.RingBuffer.Front | libs/ring_buffer/include/obz/ring_buffer.hpp:66-80 | The first element, or an error when empty. |
| RingBuffer.RingBuffer.Clear | libs/ring_buffer/include/obz/ring_buffer.hpp:82-91 | Destroys what is left in order, once each; every slot is empty and head and tail are zero. |
| RingBuffer.RingBuffer.Query | libs/ring_buffer/include/obz/ring_buffer.hpp:93-103 | The three queries describe the contents. |
| ThreeQueues.RunAll | libs/ring_buffer/include/obz/ring_buffer.hpp:37-103 | On every sequence of push, pop, clear and queries by one thread the three queues give the answers of a bounded sequence, hence the same ones, whatever spurious failures occur. |
| ThreeQueues.RunSpsc | libs/spsc_ring_queue/include/obz/spsc_ring_queue.hpp:33-101 | The single-threaded `spsc_ring_queue` answers as a bounded sequence. |
| ThreeQueues.RunMpsc | libs/mpsc_ring_queue/include/obz/mpsc_ring_queue.hpp:37-152 | The single-threaded `mpsc_ring_queue` of capacity two or more answers as a bounded sequence. |
| ThreeQueues.SpecConserves | libs/ring_buffer/include/obz/ring_buffer.hpp:37-91 | The bounded sequence conserves values: what was accepted has left in order by pop or clear, or is still there. |
| ThreeQueues.RepliesTell | libs/ring_buffer/include/obz/ring_buffer.hpp:37-103 | The bounded sequence's answers are true at every place: they tell how the contents before became those after, and the contents are what was accepted and has not departed, never more than the capacity. |
| ThreeQueues.RingOp | libs/ring_buffer/include/obz/ring_buffer.hpp:37-103 | Each operation accounts for every element: all ever pushed are those that left, once each, followed by the contents. |
| ThreeQueues.SpscOp | libs/spsc_ring_queue/include/obz/spsc_ring_queue.hpp:33-101 | The same accounting on the single-threaded `spsc_ring_queue`. |
| ThreeQueues.MpscOp | libs/mpsc_ring_queue/include/obz/mpsc_ring_queue.hpp:37-152 | The same accounting on the single-threaded `mpsc_ring_queue`: all claimed values are those that left followed by the contents. |
| WeightedSet.RunFits | libs/weighted_set/include/obz/weighted_set.hpp:34-79 | After any sequence of calls, rejected ones included, weights are positive and the exact sum fits in 64 bits. |
| WeightedSet.OrderDoesNotMatter | libs/weighted_set/include/obz/weighted_set.hpp:104-112 | The running sum over any iteration order ends at the exact total. |
| WeightedSet.SelectionIsExact | libs/weighted_set/include/obz/weighted_set.hpp:96-115 | For every map, iteration order and value, the number of targets below the total for which the scan returns the value is its weight. |
| WeightedSet.WeightedSet.Insert | libs/weighted_set/include/obz/weighted_set.hpp:34-47 | True exactly for a positive weight of an absent value whose exact new sum is below 2^64, and then the map gains exactly that value; zero weight, duplicate and overflow are answered each in exactly its case, and then nothing changes. |
| WeightedSet.WeightedSet.Erase | libs/weighted_set/include/obz/weighted_set.hpp:49-60 | True exactly when the value was present, and then the map loses exactly that value and the cached total its weight. |
| WeightedSet.WeightedSet.SetWeight | libs/weighted_set/include/obz/weighted_set.hpp:62-79 | True exactly for a positive weight of a present value whose exact new sum is below 2^64, and then only that weight changes; each rejection in exactly its case, changing nothing. |
| WeightedSet.WeightedSet.Clear | libs/weighted_set/include/obz/weighted_set.hpp:117-120 | Empties the set and zeroes the total. |
| WeightedSet.WeightedSet.EnsureCanAdd | libs/weighted_set/include/obz/weighted_set.hpp:149-153 | The guard decides the exact sum without wrapping. |
| WeightedSet.WeightedSet.EnsureCanReplace | libs/weighted_set/include/obz/weighted_set.hpp:155-161 | The guard decides the exact new sum without wrapping. |
| WeightedSet.WeightedSet.WeightOf | libs/weighted_set/include/obz/weighted_set.hpp:81-89 | The weight, or an error when absent. |
| WeightedSet.WeightedSet.Scan | libs/weighted_set/include/obz/weighted_set.hpp:104-114 | The cumulative sum never overflows, the statement after the loop is unreachable, and the value found is the one whose interval holds the target. |
| WeightedSet.WeightedSet.Random | libs/weighted_set/include/obz/weighted_set.hpp:96-115 | Fails exactly on the empty set. |
| WeightedSet.RunOps | libs/weighted_set/include/obz/weighted_set.hpp:34-120 | Over any sequence of calls, the answers decided on the cached total are those of the exact sums, and the cached total ends exact. |
| Endian.BeMirrorsLe | libs/endian/include/obz/endian.hpp:32-67 | The big endian bytes are the little endian bytes reversed. |
| Endian.ReadersMirror | libs/endian/include/obz/endian.hpp:46-82 | The big endian positional sum is the little endian one of the reversed bytes. |
| Endian.CastsAreInverse | libs/endian/include/obz/endian.hpp:29-30 | The cast to unsigned and back is the identity on the type's range, signed types included. |
| Endian.CastIsTwosComplement | libs/endian/include/obz/endian.hpp:29-30 | The cast to unsigned keeps a value that is not negative and adds 256 to the width to a negative one. |
| Endian.CastBackIsUnique | libs/endian/include/obz/endian.hpp:52 | The cast back gives the only value of the type that is congruent to the unsigned one. |
| Endian.TwoBytes | libs/endian/include/obz/endian.hpp:24-68 | A field of two bytes holds a value exactly when its low byte is the value modulo 256 and its high byte the floor of its 256th modulo 256, in either order. |
| Endian.OrDisjoint | libs/endian/include/obz/endian.hpp:49 | Or-ing in a byte shifted clear of the lower ones adds it. |
| Endian.RequireRange | libs/endian/include/obz/endian.hpp:18-22 | The check refuses exactly when `offset + width` exceeds the size. |
| Endian.WriteLe | libs/endian/include/obz/endian.hpp:24-36 | Stores in byte `i` of the field bits `8 * i` on of the value's two's complement form, signed or not, and nothing else; refused calls change nothing. |
| Endian.ReadLe | libs/endian/include/obz/endian.hpp:38-53 | Returns the value of the type, in range, whose two's complement bytes are those of the field, least significant first, which is the cast of their positional sum. |
| Endian.WriteBe | libs/endian/include/obz/endian.hpp:55-68 | The same with byte `i` counted from the other end. |
| Endian.ReadBe | libs/endian/include/obz/endian.hpp:70-85 | The same, most significant first; shifting loses nothing. |
| Endian.WriteThenRead | libs/endian/include/obz/endian.hpp:24-85 | Reading what was written returns the value in either order, signed included, with the bytes outside the field unchanged. |
| Endian.ReadThenWrite | libs/endian/include/obz/endian.hpp:24-85 | Writing back what was read restores every byte. |
| Endian.ValueOfWritten | libs/endian/include/obz/endian.hpp:24-85 | Decoding undoes encoding for every value of the type, in either order, signed included. |
| Endian.BytesOfRead | libs/endian/include/obz/endian.hpp:24-85 | Encoding undoes decoding for every field of bytes. |
| TcpSocket.TcpSocket.SendAll | libs/transport/src/tcp_socket.cpp:53-66 | A normal return has appended exactly the data in order under any short writes; it gives up only where the platform's last send failed or took nothing, all earlier ones having taken something, and leaves exactly the bytes they took; empty data succeeds even when closed. |
| TcpSocket.TcpSocket.ReceiveSome | libs/transport/src/tcp_socket.cpp:68-84 | At least one byte of the stream, closure exactly at its end, or an error that takes nothing. |
| TcpSocket.TcpSocket.ReceiveExactly | libs/transport/src/tcp_socket.cpp:86-104 | Exactly the next bytes of the stream, or on closure exactly the ones that remained, under any short reads; it fails only where the platform's last receive failed, all earlier ones having brought something. |
| TcpSocket.SendMessages | libs/transport/src/tcp_socket.cpp:53-66 | Several sends append the concatenation exactly when no send of the platform failed or took nothing, and otherwise a proper prefix of it. |
| TcpSocket.Transfer | libs/transport/src/tcp_socket.cpp:53-104 | Messages sent and received with the pair arrive unchanged, whatever boundaries the writes and reads had, exactly when no call of the platform failed or took nothing. |

## Left out

- MpscQueue.MpscRingQueue.constructor: requires capacity two, although the source accepts one, because `SoundExactlyFromTwo` shows that capacity one is unsound.
- MpscQueue.MpscRingQueue.Clear: no other thread runs during the call, as its documentation demands.
- SpscQueue.SpscRingQueue.Query: models the calls made by the two sides, each with its own index exact; from a third thread both loads may be stale.
- BlockingQueue.BlockingQueue.Emplace: is followed through a given number of wakeups and then reported as still waiting, because a wait need not end; `CloseReleasesEverybody` and `NoWakeupIsLost` say when it does.
- BlockingQueue.BlockingQueue.WaitAndPop: is followed through a given number of wakeups in the same way.
- TcpSocket.TcpSocket.ReceiveExactly: the incoming bytes are those the peer sends before closing; a receive that blocks for ever on an idle connection is not modelled.
- C++ weak memory beyond this: atomic steps of `mpsc_ring_queue` interleave, and `spsc_ring_queue` reads stale but monotone values.
- Cache-line alignment, `std::launder` and raw allocation: a slot is empty, constructed with a value, or moved from.
- Element operations that throw: construction and moves do not.
- Destruction of a queue while threads use it, and the trivial accessors `capacity()`, `closed()`, `size()` of the blocking queues.
- Copies and moves of `weighted_set`, its hash table and its random generator: the map is a Dafny map with an arbitrary iteration order and an arbitrary target in range.
- Integer promotion details of `endian`: values are unsigned integers of the type's width, shifts and or are defined on them.
- Sockets themselves (creation, connect, accept, UDP, multicast, both platform backends): replaced by a stream that transfers any part of what it is offered.
- `emotional_state` and `thread_affinity`: a finite table and thin operating-system wrappers.
