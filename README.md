# Shared-memory IPC queue: ring buffer and handle lifetime

This project models the two parts of `rust_shm_ipc` that hold its logic.

- **The ring buffer behind the queue** (`src/queue.rs`). It is a fixed array of
  `RING_BUFFER_SIZE` (8) `Option<T>` slots, with a wrapping read index and a
  wrapping write index. The model also gives the sequential meaning of
  `Queue::push`, `pop`, `try_pop` and `timed_pop`, which wrap the ring buffer in
  a pthread mutex and two condition variables (process-shared when the queue is
  built by `pshared`).
- **The reference-count lifecycle of `Shm<T>`** (`src/shm.rs`). A `ShmInner`
  block holds an atomic counter and the stored data. It lives at the start of
  a shared mapping. `Shm` handles point at it. `clone` raises the counter.
  `drop` lowers it, and the drop that leaves it at zero drops the data and
  unmaps the region.

Module `SharedQueue` (`queue.dfy`) has three classes:

- `RingBufferIdx` updates its index in place.
- `RingBuffer` owns the slot array and two index objects.
- `Queue` owns a ring buffer.

A ring buffer's abstract value is the ghost sequence `Contents`. The predicate
`Represents` links it to the slots. It says the occupied slots are exactly the
cyclic run of `|Contents|` slots that starts at the read index, in order, and
the write index is the slot just after that run. The lemmas `ReadAdvances` and
`WriteAppends` show that the source's `try_read` and `write` keep this
invariant.

The methods are specified by the abstract functions `QueueRead` and
`QueueWrite`. `RunIsFifo` proves FIFO order over any history of those
operations. The sequential unit tests of `src/queue.rs` (`forward`, `rw`,
`overflow`, `overflow_escape`, `try_pop`) are restated as methods whose
postconditions are the values those tests assert. They are proved from the
class contracts alone.

Module `SharedMemory` (`shm.dfy`) has the classes `ShmInner` and `Shm`. The
object invariant `ShmInner.Valid` ties the counter to the set of live handles.
It also says the block is torn down exactly when no handle is left.

Three facts about the code shape the model:

- The ring buffer's capacity is the constant 8 (`src/queue.rs:110`). It has no
  count field, and a slot is occupied exactly when it holds `Some`.
- `push` and `pop` block in wait loops on condition variables
  (`src/queue.rs:54-56`, `src/queue.rs:65-71`). They never report "full" or
  "empty".
- `Drop` never calls `shm_unlink` (`src/shm.rs:100-118`). Teardown drops the
  data and unmaps the region.

## Model

| member | source | states |
|---|---|---|
| `SharedQueue.EmptyRepresents` | src/queue.rs:124-130 | all slots `None` with both indices at 0 represent the empty queue |
| `SharedQueue.SlotAfterRead` | src/queue.rs:132-138 | after the head slot is cleared and the read index advanced, the cleared slot is outside the shorter queue's run and every other slot keeps the value it held, now one position closer to the head |
| `SharedQueue.ReadAdvances` | src/queue.rs:132-138 | the slot under the read index is `None` exactly when the queue is empty, and otherwise holds the oldest value; clearing it and advancing the read index by one (mod 8) represents the queue minus its head |
| `SharedQueue.WriteAppends` | src/queue.rs:140-149 | the slot under the write index is free exactly when fewer than 8 values are stored; filling it and advancing the write index represents the queue with the value appended |
| `SharedQueue.RunIsFifo` | src/queue.rs:132-149 | over any history of reads and writes from empty, the values successful reads returned, followed by the values still buffered, are exactly the values of successful writes, in order; at most 8 are buffered |
| `SharedQueue.RunOnRingBuffer` | src/queue.rs:132-149 | any history of `try_read`s and `write`s run on a new ring buffer accepts and delivers exactly the values `Run` gives, and the values delivered, followed by those still buffered, are the values accepted, in order |
| `SharedQueue.RingBufferIdx.constructor` | src/queue.rs:159-164 | a new index holds the given start position and buffer size |
| `SharedQueue.RingBufferIdx.Forward` | src/queue.rs:166-170 | the index becomes `(idx + 1) % bufsize`, which is below `bufsize`: one step on, or 0 after the last slot; needs `bufsize > 0` |
| `SharedQueue.RingBufferIdx.Get` | src/queue.rs:172-174 | returns the current position and changes nothing |
| `SharedQueue.RingBuffer.constructor` | src/queue.rs:124-130 | a new buffer has every slot `None`, both indices at 0 and no contents |
| `SharedQueue.RingBuffer.TryRead` | src/queue.rs:132-138 | on an empty buffer it returns `None` and changes nothing; otherwise it returns the oldest value, removes it, clears its slot and advances only the read index; the invariant is kept |
| `SharedQueue.RingBuffer.Write` | src/queue.rs:140-149 | if the slot under the write index is free, it stores the value there and advances only the write index; otherwise it returns `Overflow` with the state unchanged; it succeeds exactly when fewer than 8 values are stored |
| `SharedQueue.Queue.constructor` | src/queue.rs:30-44 | a new queue wraps a new, empty ring buffer |
| `SharedQueue.Queue.Push` | src/queue.rs:52-59 | on a queue that is not full, the value is appended |
| `SharedQueue.Queue.Pop` | src/queue.rs:61-78 | on a non-empty queue, the oldest value is returned and removed |
| `SharedQueue.Queue.TryPop` | src/queue.rs:80-82 | returns `None` on an empty queue, otherwise the oldest value, which it removes |
| `SharedQueue.Queue.TimedPop` | src/queue.rs:84-102 | returns the oldest value at once if there is one; otherwise returns `None`, whether the single wait timed out or was signalled |
| `SharedQueue.IpcQueue` | src/queue.rs:14-17 | yields two distinct live handles on one empty queue block whose counter reads 2 |
| `SharedQueue.TestForward` | src/queue.rs:183-192 | `forward` takes (0, 10) to 1, (0, 1) to 0 and (9, 10) to 0 |
| `SharedQueue.TestRw` | src/queue.rs:201-214 | interleaved writes of 1..4 and reads return `None, 1, None, 2, 3, 4, None`, and every write succeeds |
| `SharedQueue.TestOverflow` | src/queue.rs:217-223 | from empty, exactly 8 writes succeed and the 9th returns `Overflow` |
| `SharedQueue.TestOverflowEscape` | src/queue.rs:226-236 | from empty, 8 writes succeed and the 9th returns `Overflow`; then a read returns 0, and the next write succeeds and lands in slot 0 |
| `SharedQueue.TestTryPop` | src/queue.rs:291-296 | `try_pop` on a new queue returns `None`; after `push(1)` it returns `Some(1)` |
| `SharedMemory.ShmInner.New` | src/shm.rs:127-132 | the counter starts at 1, the data is stored unchanged, and the block is not torn down |
| `SharedMemory.ShmInner.IncrementRefCtr` | src/shm.rs:134-136 | the counter rises by exactly 1, wrapping at the `usize` bound |
| `SharedMemory.ShmInner.DecrementRefCtr` | src/shm.rs:138-140 | the counter falls by exactly 1, wrapping at 0 |
| `SharedMemory.ShmInner.RefCount` | src/shm.rs:142-144 | reads the counter without changing it |
| `SharedMemory.ShmInner.Teardown` | src/shm.rs:109-116 | marks the block torn down (data dropped, region unmapped); it needs a block that was not yet torn down |
| `SharedMemory.Shm.New` | src/shm.rs:24-41 | a fresh block holds the object with counter 1, and the new handle is its only live handle |
| `SharedMemory.Shm.Share` | src/shm.rs:94-96 | the new handle points at the same block |
| `SharedMemory.Shm.Deref` | src/shm.rs:71-78 | returns the data stored in the block while the handle is live; a live handle's block is still mapped (not torn down) |
| `SharedMemory.Shm.Store` | src/shm.rs:80-86 | writing through the handle replaces the shared data and keeps the handle live |
| `SharedMemory.Shm.Clone` | src/shm.rs:88-97 | returns a new live handle on the same block; the counter rises by one and the data is unchanged |
| `SharedMemory.Shm.Drop` | src/shm.rs:100-118 | the counter falls by one, the handle stops being live, and the block is torn down if and only if this was the last live handle (the counter read 1) |
| `SharedMemory.TestSimple` | src/shm.rs:170-173 | `Shm::new(1)` dereferences to 1 |
| `SharedMemory.TestIpc` | src/shm.rs:176-192 | values written through a clone stay readable through the original after the clone is dropped, and the block is not torn down |
| `SharedMemory.CloneDropHistory` | src/shm.rs:100-118 | for `new`, then k clones, then k + 1 drops: no drop but the last tears the block down, and the last one does |

## Left out

- `src/pthread.rs`, `src/process.rs` and `src/main.rs` are not part of this model. They hold the pthread mutex, condition-variable and rwlock wrappers, `fork`/`waitpid` plumbing, and the example driver.
- The threaded and forked queue tests `mpsc` (`src/queue.rs:246-267`), `mpsc_ipc` (`src/queue.rs:270-288`) and `ipc_queue` (`src/queue.rs:299-313`) are not restated. Only their sequential meaning, FIFO order of values, is captured, by `SharedQueue.RunIsFifo` and `SharedQueue.RunOnRingBuffer`.
- Locking and condition-variable signalling are not modelled. They do not change the ring buffer, and the model has one sequential caller, so the queue's mutual exclusion and multi-producer interleavings are not captured.
- Errors from pthread calls (lock, wait, signal) are not modelled: every call succeeds. So `push`, `pop`, `try_pop` and `timed_pop` never return `Err`. This also leaves out that `pop` and `timed_pop` report a failed `out_cond.signal()` after a value has already been read, which loses that value.
- SharedQueue.Queue.Push: requires a queue that is not full, instead of blocking in the wait loop until a consumer frees a slot.
- SharedQueue.Queue.Pop: requires a non-empty queue, instead of blocking in the wait loop until a producer writes.
- SharedQueue.Queue.TimedPop: the wall-clock timeout is left out. The outcome of the single timed wait is a parameter. After a signal, the second read runs on the unchanged buffer, since no other party runs here.
- SharedQueue.RingBufferIdx.Forward: requires `bufsize > 0`, where the source panics on the division by zero. Indices are unbounded naturals, so the overflow of `idx += 1` at `usize::MAX` is not modelled. The ring buffer's indices stay below 8.
- SharedMemory.Shm.Clone: requires a counter below `usize::MAX`. At that bound the source would wrap the counter to 0, but that many live handles cannot exist.
- `Shm::new` is modelled on its success path only. Name generation, `shm_open`, `ftruncate`, `mmap` and `close` are operating-system calls, so their failures are not modelled. `munmap` in `Drop`, and its `unwrap`, are represented only by the torn-down flag.
- Mapping one segment at different addresses in different processes, the raw-pointer aliasing of `Deref`/`DerefMut`, and `get_raw` are not modelled. Every handle points at one `ShmInner` object.
- The race in `Drop` between the decrement and the following load of the counter is a concurrency issue and is not modelled. Two concurrent drops could both read 0.
