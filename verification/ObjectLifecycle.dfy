/**
 `object_pool`: constructs an object in every slot it allocates and destructs the one
 in every slot it releases. Its design invariant, that the objects alive are those of
 the allocated slots, fails exactly while a slot is left over from a constructor that
 has thrown.
 */
module ObjectLifecycle {
  import opened Wrappers
  import opened FreeLists
  import opened ObjectPool

  datatype LifecycleError = Refused(error: PoolError) | ConstructorThrew

  class Pool {
    const slots: Allocator
    ghost var alive: set<nat>   // slots whose object was constructed and not destructed since
    ghost var failed: set<nat>  // slots that a throwing constructor left allocated

    /** An allocated slot is one or the other. */
    ghost predicate Valid()
      reads this, slots, slots.chunks
    {
      && slots.Valid() && alive !! failed
      && forall ref: nat {:trigger slots.Outstanding(ref)} ::
           slots.Outstanding(ref) <==> ref in alive || ref in failed
    }

    /** All objects in the allocated slots have been constructed, all others destructed. */
    ghost predicate DesignInvariant()
      reads this, slots, slots.chunks
    {
      forall ref: nat {:trigger slots.Outstanding(ref)} :: slots.Outstanding(ref) <==> ref in alive
    }

    /** The exact condition of the design invariant. */
    lemma DesignInvariantIff()
      requires Valid()
      ensures DesignInvariant() <==> failed == {}
    {
      if ref :| ref in failed {
        assert slots.Outstanding(ref);
      }
    }

    constructor (slots: Allocator)
      requires slots.Valid() && forall ref :: !slots.Outstanding(ref)
      ensures Valid() && this.slots == slots && alive == {} && failed == {}
    {
      this.slots, alive, failed := slots, {}, {};
    }

    /** Allocates a slot, then constructs an object in it; nothing gives the slot back if that throws. */
    method Allocate(throws: bool) returns (r: Result<nat, LifecycleError>, ghost slot: nat)
      requires Valid()
      modifies this, slots
      ensures Valid() && old(slots.chunks) <= slots.chunks
      ensures forall c {:trigger slots.chunks[c]} | |old(slots.chunks)| <= c < |slots.chunks| ::
        fresh(slots.chunks[c])
      ensures r.Err? && r.error.Refused? <==>
        old(slots.free) == [] && |old(slots.Words())| + slots.chunkCapacity > slots.nullRef
      ensures r.Err? && r.error.Refused? ==> alive == old(alive) && failed == old(failed)
      ensures r.Ok? || r.error == ConstructorThrew ==> slot !in old(alive) && slot !in old(failed)
      ensures r == Err(ConstructorThrew) ==> throws && alive == old(alive) && failed == old(failed) + {slot}
      ensures r.Ok? ==> !throws && r.value == slot && alive == old(alive) + {slot} && failed == old(failed)
    {
      hide Allocator.Words, Allocator.ChunksOk, IsList;
      var taken := slots.Allocate();
      if taken.Err? {
        slot := 0;
        assert forall ref: nat :: slots.Outstanding(ref) <==> old(slots.Outstanding(ref));
        return Err(Refused(taken.error)), slot;
      }
      slot := taken.value;
      assert !old(slots.Outstanding(slot));
      if throws {
        failed := failed + {slot};
        return Err(ConstructorThrew), slot;
      }
      alive := alive + {slot};
      return Ok(taken.value), slot;
    }

    /** Destructs what is in a slot and releases the slot, whatever its state: all is well
        afterwards exactly when it was allocated. */
    method Release(ref: nat) returns (r: Result<(), LifecycleError>)
      requires Valid()
      modifies this, slots, slots.chunks
      ensures r.Err? ==> Valid() && alive == old(alive) && failed == old(failed)
      ensures ref in old(alive) ==> r.Ok?
      ensures r.Ok? ==> (Valid() <==> ref in old(alive) || ref in old(failed))
      ensures r.Ok? ==> alive == old(alive) - {ref} && failed == old(failed) - {ref}
      ensures slots.chunks == old(slots.chunks)
    {
      hide Allocator.Words, Allocator.ChunksOk, Sound, IsList;
      assert old(slots.Outstanding(ref)) <==> ref in alive || ref in failed;
      var released := slots.Release(ref);
      if released.Err? {
        assert forall other: nat :: slots.Outstanding(other) <==> old(slots.Outstanding(other));
        return Err(Refused(released.error));
      }
      assert forall other: nat | other != ref :: slots.Outstanding(other) <==> old(slots.Outstanding(other));
      alive, failed := alive - {ref}, failed - {ref};
      return Ok(());
    }

    /** The destructor destructs what the allocation bitmap shows, once each: at least the objects alive,
        and nothing else exactly if no constructor has left a slot behind. */
    method Destroy() returns (destructed: seq<nat>)
      requires Valid()
      ensures forall j, k | 0 <= j < k < |destructed| :: destructed[j] < destructed[k]
      ensures forall ref: nat :: ref in destructed <==> ref in alive || ref in failed
      ensures (forall ref: nat :: ref in destructed <==> ref in alive) <==> failed == {}
    {
      destructed := slots.LeftOver();
      forall ref: nat ensures ref in destructed <==> ref in alive || ref in failed {
        assert ref in destructed <==> slots.Outstanding(ref);
      }
    }
  }

  /** The failing case is reachable: a throwing constructor, then the destructor of the pool. */
  method ThrowThenDestroy(initialCapacity: int, chunkCapacity: nat, nullRef: nat)
      returns (destructed: Result<seq<nat>, PoolError>, ghost pool: Pool?)
    requires 1 < chunkCapacity
    ensures destructed.Ok? <==>
      0 < initialCapacity && ChunkCount(initialCapacity, chunkCapacity) * chunkCapacity <= nullRef
    ensures destructed.Ok? ==> destructed.value != [] && pool != null && pool.alive == {}
  {
    var created := Create(initialCapacity, chunkCapacity, nullRef);
    if created.Err? {
      return Err(created.error), null;
    }
    assert !created.value.Outstanding(0);
    var p := new Pool(created.value);
    hide *;
    var r, slot := p.Allocate(true);
    var refs := p.Destroy();
    assert slot in refs;
    return Ok(refs), p;
  }
}
