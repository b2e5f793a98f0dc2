/**
 * `ObjectPool<T, Size>`: `Size` slots of storage and a free list of the slots
 * not handed out. Slots are identified by their index in the storage; the
 * placement-new objects and `shared_ptr` handles are not modelled, only which
 * slot travels where.
 */
module ObjectPool {

  /** The free list the constructor builds: every slot once, in index order. */
  function AllSlots(size: nat): (s: seq<nat>)
    ensures |s| == size
    ensures forall i | 0 <= i < size :: s[i] == i
  {
    seq(size, i => i)
  }

  /** The constructor's free list holds exactly the `size` slots, each once. */
  lemma AllSlotsDistinct(size: nat)
    ensures forall i, j | 0 <= i < j < size :: AllSlots(size)[i] != AllSlots(size)[j]
    ensures forall slot: nat :: slot in AllSlots(size) <==> slot < size
  {
    var s := AllSlots(size);
    forall slot: nat | slot < size ensures slot in s {
      assert s[slot] == slot;
    }
  }

  /** What `GetObject` does to a non-empty free list: the slot it hands out and the
      list left behind, which together give back the old list. */
  function Take(free: seq<nat>): (r: (nat, seq<nat>))
    requires |free| > 0
    ensures r.1 + [r.0] == free
    ensures |r.1| == |free| - 1
  {
    (free[|free| - 1], free[..|free| - 1])
  }

  /** LIFO: the slot recycled last is the next one handed out, and the slots below it
      are untouched. */
  lemma RecycleThenTake(free: seq<nat>, slot: nat)
    ensures Take(free + [slot]) == (slot, free)
  {
    assert (free + [slot])[..|free|] == free;
  }

  /** `ObjectDeleter`: the deleter of the `shared_ptr` handed out with each object. */
  datatype Deleter = Deleter(pool: Pool?)

  /** What `GetObject` returns: the slot and its deleter. */
  datatype Shared = Shared(slot: nat, deleter: Deleter)

  class Pool {
    /** `Size`. */
    const size: nat
    /** `myFreeObjects`. */
    var freeObjects: seq<nat>

    /** The constructor: every slot is placed on the free list, in index order. */
    constructor (size: nat)
      ensures this.size == size && freeObjects == AllSlots(size)
    {
      this.size := size;
      freeObjects := [];
      new;
      var i := 0;
      while i < size
        invariant 0 <= i <= size
        invariant freeObjects == AllSlots(i)
      {
        freeObjects := freeObjects + [i];
        i := i + 1;
      }
    }

    /** `GetObject`: the last free slot, removed from the list, with a deleter that
        returns it here. The assert makes an empty list the caller's fault. */
    method GetObject() returns (obj: Shared)
      requires |freeObjects| > 0
      modifies this`freeObjects
      ensures (obj.slot, freeObjects) == Take(old(freeObjects))
      ensures obj.deleter == Deleter(this)
    {
      var slot := freeObjects[|freeObjects| - 1];
      freeObjects := freeObjects[..|freeObjects| - 1];
      obj := Shared(slot, Deleter(this));
    }

    /** `GetFreeObjects`: the free list itself. */
    function GetFreeObjects(): seq<nat>
      reads this
    {
      freeObjects
    }

    /** `Recycle`: the slot goes on the back of the list, with no check that it came
        from this pool or is not already free. */
    method Recycle(slot: nat)
      modifies this`freeObjects
      ensures freeObjects == old(freeObjects) + [slot]
      ensures |GetFreeObjects()| == |old(GetFreeObjects())| + 1
    {
      freeObjects := freeObjects + [slot];
    }
  }

  /** `ObjectDeleter::operator()`: recycles the slot into its pool, if it has one. */
  method Delete(d: Deleter, slot: nat)
    modifies if d.pool == null then {} else {d.pool}
    ensures d.pool != null ==> d.pool.freeObjects == old(d.pool.freeObjects) + [slot]
  {
    if d.pool != null {
      d.pool.Recycle(slot);
    }
  }

  /** Handing out a slot and letting its handle go puts the pool back as it was. */
  method GetThenRelease(pool: Pool)
    requires |pool.freeObjects| > 0
    modifies pool
    ensures pool.freeObjects == old(pool.freeObjects)
  {
    var obj := pool.GetObject();
    Delete(obj.deleter, obj.slot);
  }
}
