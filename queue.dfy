/**
 * The fixed-size ring buffer behind the shared queue, and the sequential
 * meaning of the queue operations that wrap it.
 *
 * The ring buffer has `RING_BUFFER_SIZE` slots of `Option<T>` and two wrapping
 * indices. There is no count field: a slot is occupied exactly when it holds
 * `Some`. Its abstract value is the ghost sequence `Contents`, linked to the
 * slots by `Represents`: the occupied slots are the cyclic run that starts at
 * the read index, holding `Contents` in order, and the write index sits just
 * past its end.
 */
module SharedQueue {
  import opened Prelude
  import opened SharedMemory

  const RING_BUFFER_SIZE: nat := 8

  datatype RingBufferError = Overflow

  /*
   * The abstract queue: what one read and one write do to the sequence of
   * buffered values.
   */

  /** Reading takes the oldest value, or finds nothing. */
  function QueueRead<T>(q: seq<T>): (seq<T>, Option<T>)
  {
    if q == [] then (q, None) else (q[1..], Some(q[0]))
  }

  /** Writing appends the value, or overflows when all slots are taken. */
  function QueueWrite<T>(q: seq<T>, value: T): (seq<T>, Result<(), RingBufferError>)
  {
    if |q| < RING_BUFFER_SIZE then (q + [value], Ok(())) else (q, Err(Overflow))
  }

  /*
   * The representation invariant of the ring buffer.
   */

  /** How many slots after `readAt` slot `j` comes, going round the ring. */
  function Distance(readAt: nat, j: nat): nat
    requires readAt < RING_BUFFER_SIZE && j < RING_BUFFER_SIZE
  {
    if readAt <= j then j - readAt else j + RING_BUFFER_SIZE - readAt
  }

  /** What slot `j` holds when `q` is stored as a cyclic run starting at `readAt`. */
  function SlotOf<T>(q: seq<T>, readAt: nat, j: nat): Option<T>
    requires readAt < RING_BUFFER_SIZE && j < RING_BUFFER_SIZE
  {
    var k := Distance(readAt, j);
    if k < |q| then Some(q[k]) else None
  }

  /**
   * `slots` with indices `readAt` and `writeAt` stores `q`: occupied slots are
   * exactly the cyclic run from `readAt` of length `|q|`, in order, and
   * `writeAt` is the slot just after it.
   */
  ghost predicate Represents<T>(slots: seq<Option<T>>, readAt: nat, writeAt: nat, q: seq<T>)
  {
    && |slots| == RING_BUFFER_SIZE
    && readAt < RING_BUFFER_SIZE
    && |q| <= RING_BUFFER_SIZE
    && writeAt == (readAt + |q|) % RING_BUFFER_SIZE
    && (forall j :: 0 <= j < RING_BUFFER_SIZE ==> slots[j] == SlotOf(q, readAt, j))
  }

  /** All slots empty and both indices at 0 store the empty queue. */
  lemma EmptyRepresents<T>()
    ensures Represents<T>(seq(RING_BUFFER_SIZE, _ => None), 0, 0, [])
  {
  }

  /** Once the head slot is cleared and the read index advanced, every slot holds what the shorter queue puts there. */
  lemma SlotAfterRead<T>(q: seq<T>, readAt: nat, j: nat)
    requires q != [] && |q| <= RING_BUFFER_SIZE
    requires readAt < RING_BUFFER_SIZE && j < RING_BUFFER_SIZE
    ensures SlotOf(q[1..], (readAt + 1) % RING_BUFFER_SIZE, j) ==
      if j == readAt then None else SlotOf(q, readAt, j)
  {
    var readAt' := (readAt + 1) % RING_BUFFER_SIZE;
    if j == readAt {
      assert Distance(readAt', j) == RING_BUFFER_SIZE - 1;
    } else {
      assert Distance(readAt', j) == Distance(readAt, j) - 1;
    }
  }

  /**
   * The slot under the read index holds the oldest value, or is empty exactly
   * when the queue is; clearing it and advancing the index stores the rest.
   */
  lemma ReadAdvances<T>(slots: seq<Option<T>>, readAt: nat, writeAt: nat, q: seq<T>)
    requires Represents(slots, readAt, writeAt, q)
    ensures slots[readAt] == if q == [] then None else Some(q[0])
    ensures q != [] ==>
      Represents(slots[readAt := None], (readAt + 1) % RING_BUFFER_SIZE, writeAt, q[1..])
  {
    assert slots[readAt] == SlotOf(q, readAt, readAt);
    if q != [] {
      var slots', readAt' := slots[readAt := None], (readAt + 1) % RING_BUFFER_SIZE;
      forall j | 0 <= j < RING_BUFFER_SIZE
        ensures slots'[j] == SlotOf(q[1..], readAt', j)
      {
        SlotAfterRead(q, readAt, j);
      }
    }
  }

  /**
   * The slot under the write index is free exactly when the queue is not full;
   * filling it and advancing the index stores the queue with the value appended.
   */
  lemma WriteAppends<T>(slots: seq<Option<T>>, readAt: nat, writeAt: nat, q: seq<T>, value: T)
    requires Represents(slots, readAt, writeAt, q)
    ensures slots[writeAt].None? <==> |q| < RING_BUFFER_SIZE
    ensures |q| < RING_BUFFER_SIZE ==>
      Represents(slots[writeAt := Some(value)], readAt, (writeAt + 1) % RING_BUFFER_SIZE, q + [value])
  {
  }

  /*
   * A history of ring-buffer operations, run from the empty buffer.
   */

  datatype Op<T> = WriteOp(value: T) | ReadOp

  /** What a history leaves behind: the buffered values, the values whose write succeeded, the values reads returned. */
  datatype Trace<T> = Trace(contents: seq<T>, accepted: seq<T>, delivered: seq<T>)

  function Run<T>(ops: seq<Op<T>>): Trace<T>
  {
    if ops == [] then Trace([], [], [])
    else
      var t := Run(ops[..|ops| - 1]);
      match ops[|ops| - 1]
      case WriteOp(v) =>
        var (q, res) := QueueWrite(t.contents, v);
        Trace(q, if res.Ok? then t.accepted + [v] else t.accepted, t.delivered)
      case ReadOp =>
        var (q, r) := QueueRead(t.contents);
        Trace(q, t.accepted, if r.Some? then t.delivered + [r.value] else t.delivered)
  }

  /**
   * FIFO: over any history, the values reads returned followed by the values
   * still buffered are exactly the values written successfully, in order; and
   * never more than `RING_BUFFER_SIZE` values are buffered.
   */
  lemma {:induction false} RunIsFifo<T>(ops: seq<Op<T>>)
    ensures Run(ops).accepted == Run(ops).delivered + Run(ops).contents
    ensures |Run(ops).contents| <= RING_BUFFER_SIZE
  {
    if ops != [] {
      var prefix := ops[..|ops| - 1];
      RunIsFifo(prefix);
      var t := Run(prefix);
      match ops[|ops| - 1]
      case WriteOp(v) =>
      case ReadOp =>
        if t.contents != [] {
          assert t.delivered + t.contents == (t.delivered + [t.contents[0]]) + t.contents[1..];
        }
    }
  }

  /*
   * The ring buffer as the source lays it out.
   */

  /** A position in a buffer of `bufsize` slots that wraps around to 0. */
  class RingBufferIdx {
    const bufsize: nat
    var idx: nat

    constructor (startIdx: nat, bufsize: nat)
      ensures this.bufsize == bufsize && idx == startIdx
    {
      this.bufsize := bufsize;
      idx := startIdx;
    }

    /** Steps one position forward, wrapping from the last slot to 0. */
    method Forward()
      requires bufsize > 0
      modifies this
      ensures idx == (old(idx) + 1) % bufsize
      ensures idx < bufsize
      ensures old(idx) + 1 < bufsize ==> idx == old(idx) + 1
      ensures old(idx) + 1 == bufsize ==> idx == 0
    {
      idx := idx + 1;
      idx := idx % bufsize;
    }

    /** The current position. */
    function Get(): (i: nat)
      reads this
      ensures i == idx
    {
      idx
    }
  }

  class RingBuffer<T> {
    const writeIdx: RingBufferIdx
    const readIdx: RingBufferIdx
    const buffer: array<Option<T>>
    /** The buffered values, oldest first. */
    ghost var Contents: seq<T>
    ghost var Repr: set<object>

    ghost predicate Valid()
      reads this, Repr
    {
      && Repr == {this, writeIdx, readIdx, buffer}
      && writeIdx != readIdx
      && writeIdx.bufsize == RING_BUFFER_SIZE && readIdx.bufsize == RING_BUFFER_SIZE
      && Represents(buffer[..], readIdx.idx, writeIdx.idx, Contents)
    }

    /** A new buffer: every slot empty, both indices at 0, no values. */
    constructor ()
      ensures Valid() && fresh(Repr - {this})
      ensures Contents == []
      ensures buffer[..] == seq(RING_BUFFER_SIZE, _ => None)
      ensures readIdx.idx == 0 && writeIdx.idx == 0
    {
      writeIdx := new RingBufferIdx(0, RING_BUFFER_SIZE);
      readIdx := new RingBufferIdx(0, RING_BUFFER_SIZE);
      buffer := new Option<T>[RING_BUFFER_SIZE](_ => None);
      Contents := [];
      new;
      Repr := {this, writeIdx, readIdx, buffer};
      EmptyRepresents<T>();
      assert buffer[..] == seq(RING_BUFFER_SIZE, _ => None);
    }

    /**
     * Takes the value in the slot under the read index, leaving the slot empty,
     * and advances the read index only if there was a value. On an empty buffer
     * nothing changes; otherwise the oldest value is returned and removed.
     */
    method TryRead() returns (current: Option<T>)
      requires Valid()
      modifies this, buffer, readIdx
      ensures Valid() && Repr == old(Repr)
      ensures (Contents, current) == QueueRead(old(Contents))
      ensures buffer[..] == old(buffer[..])[old(readIdx.idx) := None]
      ensures old(Contents) == [] ==> buffer[..] == old(buffer[..])
      ensures readIdx.idx == if current.Some? then (old(readIdx.idx) + 1) % RING_BUFFER_SIZE else old(readIdx.idx)
      ensures writeIdx.idx == old(writeIdx.idx)
    {
      ReadAdvances(buffer[..], readIdx.idx, writeIdx.idx, Contents);
      var i := readIdx.Get();
      current := buffer[i];
      buffer[i] := None;
      if current.Some? {
        readIdx.Forward();
        Contents := Contents[1..];
      }
    }

    /**
     * Stores the value in the slot under the write index and advances it, if
     * that slot is empty; otherwise reports `Overflow` and changes nothing.
     * The slot is empty exactly when fewer than `RING_BUFFER_SIZE` values are
     * buffered.
     */
    method Write(value: T) returns (res: Result<(), RingBufferError>)
      requires Valid()
      modifies this, buffer, writeIdx
      ensures Valid() && Repr == old(Repr)
      ensures (Contents, res) == QueueWrite(old(Contents), value)
      ensures res.Ok? ==> buffer[..] == old(buffer[..])[old(writeIdx.idx) := Some(value)]
      ensures res.Ok? ==> writeIdx.idx == (old(writeIdx.idx) + 1) % RING_BUFFER_SIZE
      ensures res.Err? ==> buffer[..] == old(buffer[..]) && writeIdx.idx == old(writeIdx.idx)
      ensures readIdx.idx == old(readIdx.idx)
    {
      WriteAppends(buffer[..], readIdx.idx, writeIdx.idx, Contents, value);
      var i := writeIdx.Get();
      if buffer[i].None? {
        buffer[i] := Some(value);
        writeIdx.Forward();
        Contents := Contents + [value];
        res := Ok(());
      } else {
        res := Err(Overflow);
      }
    }
  }

  /**
   * Any history of reads and writes run on a new ring buffer does what `Run`
   * says of it, so the order `RunIsFifo` proves holds of the buffer itself:
   * the values its reads returned are a prefix of the values it accepted, in
   * the same order.
   */
  method RunOnRingBuffer<T>(ops: seq<Op<T>>) returns (accepted: seq<T>, delivered: seq<T>)
    ensures accepted == Run(ops).accepted && delivered == Run(ops).delivered
    ensures accepted == delivered + Run(ops).contents
  {
    var rb := new RingBuffer<T>();
    accepted, delivered := [], [];
    for i := 0 to |ops|
      invariant rb.Valid() && fresh(rb.Repr)
      invariant Run(ops[..i]) == Trace(rb.Contents, accepted, delivered)
    {
      assert ops[..i + 1][..i] == ops[..i];
      match ops[i]
      case WriteOp(v) =>
        var res := rb.Write(v);
        if res.Ok? {
          accepted := accepted + [v];
        }
      case ReadOp =>
        var r := rb.TryRead();
        if r.Some? {
          delivered := delivered + [r.value];
        }
    }
    assert ops[..|ops|] == ops;
    RunIsFifo(ops);
  }

  /*
   * The queue: the ring buffer behind a mutex, with two condition variables.
   * Locking and signalling have no effect on the buffer and are not modelled.
   */

  /** How the timed wait in `TimedPop` ended. */
  datatype WaitOutcome = Signalled | TimedOut

  class Queue<T> {
    /** The ring buffer guarded by the queue's mutex. */
    const buffer: RingBuffer<T>

    ghost predicate Valid()
      reads this, buffer, buffer.Repr
    {
      buffer.Valid()
    }

    ghost function Contents(): seq<T>
      reads this, buffer
    {
      buffer.Contents
    }

    /** A queue over a new, empty ring buffer (both `new` and `pshared`). */
    constructor ()
      ensures Valid() && fresh(buffer.Repr)
      ensures Contents() == []
    {
      buffer := new RingBuffer();
    }

    /** `push` when the buffer is not full: the write succeeds at once. */
    method Push(value: T)
      requires Valid() && |Contents()| < RING_BUFFER_SIZE
      modifies buffer.Repr
      ensures Valid() && buffer.Repr == old(buffer.Repr)
      ensures Contents() == old(Contents()) + [value]
    {
      var res := buffer.Write(value);
      assert res.Ok?;
    }

    /** `pop` when the buffer is not empty: the first read returns the oldest value. */
    method Pop() returns (v: T)
      requires Valid() && Contents() != []
      modifies buffer.Repr
      ensures Valid() && buffer.Repr == old(buffer.Repr)
      ensures v == old(Contents())[0] && Contents() == old(Contents())[1..]
    {
      var current := buffer.TryRead();
      v := current.value;
    }

    /** `try_pop`: one read, which returns the oldest value or nothing. */
    method TryPop() returns (r: Option<T>)
      requires Valid()
      modifies buffer.Repr
      ensures Valid() && buffer.Repr == old(buffer.Repr)
      ensures (Contents(), r) == QueueRead(old(Contents()))
    {
      r := buffer.TryRead();
    }

    /**
     * `timed_pop`: returns the oldest value at once if there is one; otherwise
     * waits once, and after a signal reads again (finding nothing, since no
     * other party runs in this model), or after the timeout returns nothing.
     */
    method TimedPop(wait: WaitOutcome) returns (r: Option<T>)
      requires Valid()
      modifies buffer.Repr
      ensures Valid() && buffer.Repr == old(buffer.Repr)
      ensures (Contents(), r) == QueueRead(old(Contents()))
    {
      r := buffer.TryRead();
      if r.None? {
        match wait
        case TimedOut =>
          r := None;
        case Signalled =>
          r := buffer.TryRead();
      }
    }
  }

  /**
   * `ipc_queue`: one queue in shared memory and two handles on it, so the
   * block counts two references.
   */
  method IpcQueue<T>() returns (tx: Shm<Queue<T>>, rx: Shm<Queue<T>>)
    ensures tx.Valid() && rx.Valid() && tx != rx && tx.inner == rx.inner
    ensures tx.inner.refCtr == 2
    ensures tx.Deref().Valid() && tx.Deref().Contents() == []
  {
    var q := new Queue<T>();
    var queue := new Shm.New(q);
    tx := queue.Clone();
    rx := queue;
  }

  /*
   * The unit tests of the source, as scenarios proved from the contracts.
   */

  /** `forward` from 0 in 10 slots gives 1, from 0 in 1 slot gives 0, from 9 in 10 slots gives 0. */
  method TestForward() returns (a: nat, b: nat, c: nat)
    ensures a == 1 && b == 0 && c == 0
  {
    var i := new RingBufferIdx(0, 10);
    i.Forward();
    a := i.Get();
    i := new RingBufferIdx(0, 1);
    i.Forward();
    b := i.Get();
    i := new RingBufferIdx(9, 10);
    i.Forward();
    c := i.Get();
  }

  /** Interleaved reads and writes return the values in the order written. */
  method TestRw() returns (got: seq<Option<int>>, put: seq<Result<(), RingBufferError>>)
    ensures got == [None, Some(1), None, Some(2), Some(3), Some(4), None]
    ensures put == [Ok(()), Ok(()), Ok(()), Ok(())]
  {
    var rb := new RingBuffer<int>();
    var r, w;
    r := rb.TryRead(); got := [r];
    w := rb.Write(1); put := [w];
    assert rb.Contents == [1];
    r := rb.TryRead(); got := got + [r];
    assert rb.Contents == [];
    r := rb.TryRead(); got := got + [r];
    w := rb.Write(2); put := put + [w];
    w := rb.Write(3); put := put + [w];
    w := rb.Write(4); put := put + [w];
    assert rb.Contents == [2, 3, 4];
    r := rb.TryRead(); got := got + [r];
    assert rb.Contents == [3, 4];
    r := rb.TryRead(); got := got + [r];
    assert rb.Contents == [4];
    r := rb.TryRead(); got := got + [r];
    assert rb.Contents == [];
    r := rb.TryRead(); got := got + [r];
  }

  /** `RING_BUFFER_SIZE` writes into a new buffer succeed; the next overflows. */
  method TestOverflow() returns (accepted: nat, last: Result<(), RingBufferError>)
    ensures accepted == RING_BUFFER_SIZE
    ensures last == Err(Overflow)
  {
    var rb := new RingBuffer<nat>();
    accepted := 0;
    for i := 0 to RING_BUFFER_SIZE
      invariant rb.Valid() && fresh(rb.Repr)
      invariant rb.Contents == seq(i, k => k)
      invariant accepted == i
    {
      var w := rb.Write(i);
      if w.Ok? {
        accepted := accepted + 1;
      }
    }
    last := rb.Write(RING_BUFFER_SIZE);
  }

  /**
   * `RING_BUFFER_SIZE` writes succeed and the next overflows; then one read
   * frees a slot, and the next write succeeds and lands in slot 0.
   */
  method TestOverflowEscape() returns (accepted: nat, overflow: Result<(), RingBufferError>,
                                     first: Option<nat>, again: Result<(), RingBufferError>, slot0: Option<nat>)
    ensures accepted == RING_BUFFER_SIZE
    ensures overflow == Err(Overflow)
    ensures first == Some(0)
    ensures again == Ok(())
    ensures slot0 == Some(RING_BUFFER_SIZE)
  {
    var rb := new RingBuffer<nat>();
    accepted := 0;
    for i := 0 to RING_BUFFER_SIZE
      invariant rb.Valid() && fresh(rb.Repr)
      invariant rb.Contents == seq(i, k => k)
      invariant rb.readIdx.idx == 0
      invariant accepted == i
    {
      var w := rb.Write(i);
      if w.Ok? {
        accepted := accepted + 1;
      }
    }
    overflow := rb.Write(RING_BUFFER_SIZE);
    first := rb.TryRead();
    again := rb.Write(RING_BUFFER_SIZE);
    slot0 := rb.buffer[0];
  }

  /** `try_pop` on a new queue finds nothing; after `push(1)` it returns 1. */
  method TestTryPop() returns (before: Option<int>, after: Option<int>)
    ensures before == None && after == Some(1)
  {
    var queue := new Queue<int>();
    before := queue.TryPop();
    queue.Push(1);
    after := queue.TryPop();
  }
}
