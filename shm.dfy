/**
 * The reference-counted handle to an object placed in a shared-memory mapping.
 *
 * `ShmInner` is the block at the start of the mapping: an atomic counter and the
 * stored data. `Shm` is one handle to it. Cloning a handle raises the counter;
 * dropping one lowers it, and the drop that brings it to zero tears the block
 * down (drops the data and unmaps the region). Creating, mapping and unmapping
 * the segment are operating-system calls and appear here only as the
 * `tornDown` flag; the accesses are taken one at a time (no two threads race).
 */
module SharedMemory {

  /** `usize` on a 64-bit target: atomic counters wrap modulo 2^64. */
  const USIZE_MODULUS: nat := 0x1_0000_0000_0000_0000
  const USIZE_MAX: nat := USIZE_MODULUS - 1
  type Usize = n: nat | n < USIZE_MODULUS

  class ShmInner<T> {
    /** The atomic reference counter. */
    var refCtr: Usize
    /** The object stored in shared memory. */
    var data: T
    /** Set once the data has been dropped and the region unmapped. */
    var tornDown: bool
    /** The handles that are alive and point at this block. */
    ghost var Handles: set<Shm<T>>

    /** The counter counts exactly the live handles, and the block is torn down exactly when none is left. */
    ghost predicate Valid()
      reads this
    {
      && refCtr == |Handles|
      && (tornDown <==> Handles == {})
      && (forall h :: h in Handles ==> h.inner == this)
    }

    /** The block is created with one reference and the data unchanged. */
    constructor New(data: T)
      ensures refCtr == 1 && this.data == data
      ensures !tornDown && Handles == {}
    {
      refCtr := 1;
      this.data := data;
      tornDown := false;
      Handles := {};
    }

    /** `fetch_add(1)`: one more reference, wrapping at the `usize` bound. */
    method IncrementRefCtr()
      modifies this`refCtr
      ensures refCtr == if old(refCtr) == USIZE_MAX then 0 else old(refCtr) + 1
    {
      refCtr := (refCtr + 1) % USIZE_MODULUS;
    }

    /** `fetch_sub(1)`: one reference fewer, wrapping at zero. */
    method DecrementRefCtr()
      modifies this`refCtr
      ensures refCtr == if old(refCtr) == 0 then USIZE_MAX else old(refCtr) - 1
    {
      refCtr := if refCtr == 0 then USIZE_MAX else refCtr - 1;
    }

    /** `load`: the number of references the counter reads. */
    function RefCount(): (n: Usize)
      reads this
      ensures n == refCtr
    {
      refCtr
    }

    /** Dropping the data (`ptr::read`) and unmapping the region (`munmap`). */
    method Teardown()
      requires !tornDown
      modifies this`tornDown
      ensures tornDown
    {
      tornDown := true;
    }
  }

  class Shm<T> {
    /** The shared block this handle points at (`inner_ptr`). */
    const inner: ShmInner<T>

    /** The handle is alive: it is one of the handles its block counts. */
    ghost predicate Valid()
      reads this, inner
    {
      this in inner.Handles && inner.Valid()
    }

    /** `Shm::new`: a fresh block holding `obj`, with this handle its only reference. */
    constructor New(obj: T)
      ensures Valid() && fresh(inner)
      ensures inner.data == obj && inner.refCtr == 1 && inner.Handles == {this}
    {
      inner := new ShmInner.New(obj);
      new;
      inner.Handles := {this};
    }

    /** A second handle on an existing block (the struct literal in `clone`). */
    constructor Share(inner: ShmInner<T>)
      ensures this.inner == inner
    {
      this.inner := inner;
    }

    /** `Deref`: the data stored in the block; a live handle reads a block that is still mapped. */
    function Deref(): (d: T)
      reads this, inner
      requires Valid()
      ensures d == inner.data
      ensures !inner.tornDown
    {
      inner.data
    }

    /** Assignment through `DerefMut`: replaces the stored data, shared by every handle. */
    method Store(value: T)
      requires Valid()
      modifies inner`data
      ensures Valid() && inner.data == value
    {
      inner.data := value;
    }

    /**
     * `Clone`: a new handle on the same block; the counter goes up by one and
     * the data is untouched. The counter cannot reach the `usize` bound, since
     * every live handle occupies memory.
     */
    method Clone() returns (c: Shm<T>)
      requires Valid() && inner.refCtr < USIZE_MAX
      modifies inner
      ensures fresh(c) && c.inner == inner
      ensures Valid() && c.Valid()
      ensures inner.refCtr == old(inner.refCtr) + 1
      ensures inner.Handles == old(inner.Handles) + {c}
      ensures inner.data == old(inner.data) && !inner.tornDown
    {
      inner.IncrementRefCtr();
      c := new Shm.Share(inner);
      inner.Handles := inner.Handles + {c};
    }

    /**
     * `Drop`: the counter goes down by one, and the block is torn down exactly
     * when this was the last live handle. Once it has run, this handle is no
     * longer valid, so no handle can drop the block a second time.
     */
    method Drop()
      requires Valid()
      modifies inner
      ensures inner.Valid() && !Valid()
      ensures inner.Handles == old(inner.Handles) - {this}
      ensures inner.refCtr == old(inner.refCtr) - 1
      ensures inner.data == old(inner.data)
      ensures inner.tornDown <==> old(inner.refCtr) == 1
      ensures inner.tornDown <==> old(inner.Handles) == {this}
    {
      inner.DecrementRefCtr();
      if inner.RefCount() == 0 {
        inner.Teardown();
      }
      inner.Handles := inner.Handles - {this};
      assert inner.Handles == {} <==> old(inner.Handles) == {this};
    }
  }

  /** `Shm::new(1)` dereferences to 1. */
  method TestSimple() returns (v: int)
    ensures v == 1
  {
    var one := new Shm<int>.New(1);
    v := one.Deref();
    one.Drop();
  }

  /**
   * A clone writes 0..9 into a shared ten-element buffer and is dropped; the
   * original still sees the data and the block is not torn down.
   */
  method TestIpc() returns (seen: seq<int>, tornDown: bool)
    ensures seen == seq(10, i => i)
    ensures !tornDown
  {
    var buffer := new Shm<seq<int>>.New(seq(10, _ => 0));
    var child := buffer.Clone();
    for i := 0 to 10
      invariant buffer.Valid() && child.Valid() && child.inner == buffer.inner
      invariant child.inner.data == seq(10, k => if k < i then k else 0)
    {
      child.Store(child.Deref()[i := i]);
    }
    child.Drop();
    tornDown := buffer.inner.tornDown;
    seen := buffer.Deref();
    buffer.Drop();
  }

  /**
   * The sequential history `new`, k clones, then k + 1 drops: no drop but the
   * last tears the block down, and the last one does. `tore[j]` records
   * whether the j-th drop tore it down.
   */
  method CloneDropHistory(k: nat) returns (tore: seq<bool>)
    requires k + 1 < USIZE_MAX
    ensures |tore| == k + 1
    ensures forall j :: 0 <= j < k ==> !tore[j]
    ensures tore[k]
  {
    var original := new Shm<int>.New(0);
    var block := original.inner;
    var handles := [original];
    for i := 0 to k
      invariant |handles| == i + 1 && handles[0] == original
      invariant block.Valid() && block.refCtr == i + 1
      invariant forall m :: 0 <= m < |handles| ==> handles[m] in block.Handles
      invariant forall a, b :: 0 <= a < b < |handles| ==> handles[a] != handles[b]
    {
      var c := original.Clone();
      handles := handles + [c];
    }
    tore := [];
    for j := 0 to k + 1
      invariant |tore| == j
      invariant forall m :: 0 <= m < j ==> tore[m] == (m == k)
      invariant block.Valid() && block.refCtr == k + 1 - j
      invariant forall m :: j <= m < |handles| ==> handles[m] in block.Handles
      invariant forall a, b :: 0 <= a < b < |handles| ==> handles[a] != handles[b]
    {
      handles[j].Drop();
      tore := tore + [block.tornDown];
    }
  }
}
