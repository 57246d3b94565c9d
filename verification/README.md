# Bounded job queue: a Dafny model

This project models the bounded job queue of `src/job_queue.c`. Producer threads
hand off jobs (file paths, in the repository's tools) to worker threads through a
fixed-capacity FIFO ring buffer. Its state is:

- an array `buffer` of `capacity` slots;
- the indices `front` and `rear`;
- the count `size`;
- a one-way `destroyed` flag.

There are four operations:

- `job_queue_init` rejects a non-positive capacity.
- `job_queue_push` waits while the queue is full and open. It refuses once the queue is destroyed. Otherwise it writes the job at `rear`.
- `job_queue_pop` waits while the queue is empty and open. It reports end of input (-1) when the queue is empty and destroyed. Otherwise it hands out the job at `front`.
- `job_queue_destroy` waits until the queue has drained, then sets `destroyed`.

Every state change happens under the queue's one mutex. The model therefore treats each call as one atomic step. A call whose `while (...) pthread_cond_wait` loop would sleep is modelled as an explicit `Blocked` outcome that changes nothing. The blocking conditions are exactly the loop guards. A thread that sleeps and is woken again is then the same call attempted once more, in a later state.

Files:

- `queue_spec.dfy` (module `JobQueueSpec`) is the logical view. It has the queue as a value (`Queue`: items, capacity, destroyed) and one function per call (`Push`, `Pop`, `Destroy`, `Init`). `Run` applies any sequence of calls, standing for any interleaving the mutex allows. The lemmas here state the queue's guarantees: the invariant is kept; items are neither lost nor duplicated; FIFO order holds; the drain-then-close shutdown works; `destroyed` is one-way; and blocking is bounded.
- `ring.dfy` (module `RingSlots`) gives the ring's contents as `buffer[(front + i) % capacity]` for `i < size`. It proves what a write at the rear and an advance of the front do to that sequence.
- `job_queue.dfy` (module `JobQueues`) holds the class `JobQueue<T>`. It has the same fields as the C struct, over an `array<T>`. Its methods update the fields in place, exactly as the C code does, including the `% capacity` arithmetic. `Valid()` is the ring invariant: `0 <= size <= capacity`, `front` and `rear` lie in `[0, capacity)`, `rear == (front + size) % capacity`, and a destroyed queue is empty. Each method is proved to keep `Valid()` and to act on `Abstract()` exactly as the corresponding `JobQueueSpec` function does. `PerformCalls` drives the class through any sequence of calls and is proved to end in the state `Run` gives, so every lemma about `Run` holds of the class.

A push that arrives while `job_queue_destroy` is still waiting is accepted, because `destroyed` is only set once the queue has drained (`src/job_queue.c:30-34`). `Push` models that, and `Destroy` then waits for that job to be popped too.

## Model

| member | source | states |
|---|---|---|
| `JobQueues.JobQueue.Init` | src/job_queue.c:7-17 | returns -1 and builds no queue exactly when capacity <= 0; otherwise returns 0 and a fresh queue with capacity stored, size, front and rear 0, not destroyed, satisfying the ring invariant |
| `JobQueues.JobQueue.Empty` | src/job_queue.c:13-17 | the initialised fields: capacity stored, size == front == rear == 0, destroyed cleared, no jobs held |
| `JobQueues.JobQueue.Push` | src/job_queue.c:47-66 | blocks exactly when size == capacity and not destroyed; refuses, changing nothing, once destroyed; otherwise buffer[old rear] := data, other slots unchanged, rear := (rear+1) % capacity, size + 1, and the logical contents gain data at the end; the ring invariant is kept |
| `JobQueues.JobQueue.Pop` | src/job_queue.c:68-93 | blocks exactly when size == 0 and not destroyed; reports end of input, changing nothing and writing no data, when size == 0 and destroyed; otherwise returns buffer[front], the head of the contents, sets front := (front+1) % capacity and size - 1, and the contents lose their head; the ring invariant is kept |
| `JobQueues.JobQueue.Destroy` | src/job_queue.c:26-37 | blocks exactly while size > 0; otherwise sets destroyed; the flag is never cleared; nothing else changes |
| `JobQueueSpec.Init` | src/job_queue.c:7-17 | fails exactly for capacity <= 0; otherwise yields an empty, open, well-formed queue with the given capacity |
| `JobQueueSpec.Push` | src/job_queue.c:47-66 | the call succeeds exactly when the queue is open and not full, and then appends the job at the end; otherwise the queue is unchanged; capacity and flag never change; the invariant is kept |
| `JobQueueSpec.Pop` | src/job_queue.c:68-93 | the call hands out a job exactly when one is queued: the head, leaving the rest in order; it reports end of input exactly when empty and destroyed; otherwise the queue is unchanged; the invariant is kept |
| `JobQueueSpec.Destroy` | src/job_queue.c:26-37 | the call goes through exactly when the queue is empty, and then sets the flag; the items and capacity never change; the invariant is kept |
| `JobQueueSpec.PushResult.Code` | src/job_queue.c:56-65 | once push stops waiting it returns 0 exactly when the job was enqueued and -1 exactly when it was refused |
| `JobQueueSpec.PopResult.Code` | src/job_queue.c:77-92 | once pop stops waiting it returns 0 exactly when a job was handed out and -1 exactly at end of input |
| `JobQueues.PerformCalls` | src/job_queue.c:26-93 | any sequence of push, pop and destroy calls on the class leaves it in the state, with the accepted and delivered jobs, that `JobQueueSpec.Run` gives |
| `JobQueueSpec.StepPreservesWf` | src/job_queue.c:47-93 | every push, pop or destroy keeps 0 < capacity, at most capacity items and "destroyed implies empty", and keeps the capacity |
| `JobQueueSpec.BlockingConditions` | src/job_queue.c:26-78 | push waits iff full and open and is refused iff destroyed; pop waits iff empty and open and reports end of input iff empty and destroyed; destroy waits iff items remain; a call that waits or fails changes nothing |
| `JobQueueSpec.StepConserves` | src/job_queue.c:59-82 | one call moves items without loss or duplication: items delivered, then items left, equal the items before, then the item accepted |
| `JobQueueSpec.RunPreservesWf` | src/job_queue.c:47-93 | any sequence of calls from a well-formed queue ends in a well-formed queue of the same capacity |
| `JobQueueSpec.RunConserves` | src/job_queue.c:47-93 | for any interleaving of calls: all items delivered, followed by the items still queued, are exactly the items queued at the start followed by all items accepted (no loss, no duplication, FIFO order) |
| `JobQueueSpec.DestroyedRunDeliveredAll` | src/job_queue.c:26-37 | once a run has destroyed the queue, every item queued or accepted has been delivered, in order (drain then close) |
| `JobQueueSpec.DestroyedIsFinal` | src/job_queue.c:34-78 | a destroyed queue stays destroyed and unchanged under any calls: no push is accepted and no item is delivered; a pop on it reports end of input and every push on it is refused |
| `JobQueueSpec.PushesAllAccepted` | src/job_queue.c:59-61 | pushes into an open queue with room for them are all accepted, and they are appended in order |
| `JobQueueSpec.PopsDeliverHead` | src/job_queue.c:80-82 | n pops on an open queue holding at least n items deliver its first n items and leave the rest |
| `JobQueueSpec.FifoOrder` | src/job_queue.c:47-93 | pushing xs into an empty open queue with capacity at least the length of xs and then popping that many times delivers exactly xs and leaves the queue empty |
| `JobQueueSpec.FullPushWaitsForOnePop` | src/job_queue.c:50-82 | on a full open queue a push waits; one pop delivers the head, and after it the same push goes through and appends its job |
| `RingSlots.RingHead` | src/job_queue.c:80 | the slot at front is the first job of a non-empty ring |
| `RingSlots.RingPush` | src/job_queue.c:59 | on a ring that is not full, writing at (front+size) % capacity appends the job and leaves the held jobs unchanged |
| `RingSlots.RingPop` | src/job_queue.c:81 | advancing front by (front+1) % capacity drops the first job and keeps the others in order |
| `RingSlots.RearAdvance` | src/job_queue.c:60 | rear := (rear+1) % capacity keeps rear == (front + size) % capacity after size grows by one |
| `RingSlots.RearAfterFrontAdvance` | src/job_queue.c:81-82 | front := (front+1) % capacity keeps rear == (front + size) % capacity after size shrinks by one |
| `JobQueues.BoundedBlockingScenario` | src/job_queue.c:47-93 | with capacity 2, the pushes of a and b go through and a third push waits; a pop returns a; the retried push then goes through; the next pops return b, then c |
| `JobQueues.DrainThenCloseScenario` | src/job_queue.c:26-93 | destroy waits while either of two jobs is queued and goes through once both are popped; afterwards pop returns -1 (end of input) and push returns -1 (refused) |

## Left out

- The pthread mutex and condition variables are left out: lock and unlock, `pthread_cond_wait`, `signal` and `broadcast`, and their initialisation and destruction (`src/job_queue.c:19-21`, `39-41`). The model makes each call atomic and turns each wait into a `Blocked` outcome. It says nothing about wake-up discipline, lost wake-ups or deadlock freedom.
- `JobQueues.JobQueue.Init`: the failure of `malloc` (`src/job_queue.c:10-11`) and of mutex or condition initialisation is not modelled. Allocation in Dafny cannot fail, so `Init` fails only for a non-positive capacity.
- `JobQueues.JobQueue.Destroy`: the `free` of the buffer at `src/job_queue.c:43` is not modelled, so after `Destroy` the model keeps its buffer. Once `destroyed` is set the queue is empty and every push is refused, so no later call reads the buffer. A second `job_queue_destroy`, however, frees it twice, while the model's `Destroy` simply returns `Destroyed` again.
- `JobQueues.JobQueue.Pop`, `JobQueues.JobQueue.Push`: after destroy returns, the model's -1 results rest on the `destroyed` flag alone. In the C code every such call first locks the mutex that `job_queue_destroy` has already torn down (`src/job_queue.c:39-41`), which is undefined behaviour. In both tools this is the final pop of each worker that was still in its handler when destroy returned (`src/fauxgrep-mt.c:61`, `src/fhistogram-mt.c:29`). `DrainThenCloseScenario` shows those calls returning a clean -1, which the C program does not guarantee.
- The tools built on the queue are not part of this model: `src/fauxgrep-mt.c` and `src/fhistogram-mt.c`. That covers file search, histogram counting, directory traversal, argument parsing and thread creation and join. They are I/O and thread plumbing, and the histogram helpers live in `histogram.h`, which is not part of this model.
- The job payload is a `void *` in C. It is a type parameter `T` here. Ownership of the job (its `strdup` and `free`) is not modelled.
