/**
 `chained_scatter_table`: a hash table kept inside one slot array, refined to a
 mathematical map for any hash function. Slots are named by their index ("short
 pointers"); a returned index stands for the reference to the value that the
 source returns.
 */
module ScatterTable {
  import opened Wrappers
  import opened Bits
  import opened Collections
  import opened CollisionChains
  import opened ScatterSlots
  import opened ScatterStructure

  datatype TableError = CapacityLimit | InvalidInput

  /** Hash address: one past the hash value masked by a power-of-2 capacity. */
  function Address<K>(hash: K -> nat, capacity: int): (addr: K -> int)
    requires 0 < capacity
  {
    key => hash(key) % capacity + 1
  }

  class Table<K(==, !new), V> {
    const hash: K -> nat
    const fixedCapacity: bool
    const maxCapacity: nat  // largest power of 2 the link type can index
    var size: int
    var capacityMask: int
    var buckets: array<Slot<K, V>>
    ghost var shape: Shape<K>

    /** Everything but slot `hole` is in order; -1 stands for no exception. */
    ghost predicate ValidExcept(hole: int)
      reads this, buckets
    {
      && 0 <= capacityMask && buckets.Length == capacityMask + 2
      && IsPow2(capacityMask + 1) && capacityMask + 1 <= maxCapacity
      && Shows(buckets[..], Address(hash, capacityMask + 1), shape, hole)
    }

    ghost predicate Valid()
      reads this, buckets
    {
      ValidExcept(-1) && size == |shape.index|
    }

    ghost function Contents(): map<K, V>
      reads this, buckets
    {
      MapOf(buckets[..], shape)
    }

    ghost predicate Full()
      reads this
    {
      size == capacityMask + 1
    }

    /** `size()` is the cardinality of the map. */
    lemma SizeIsCardinality()
      requires Valid()
      ensures size == |Contents()| <= capacityMask + 1
    {
      MapOfKeys(buckets[..], Address(hash, capacityMask + 1), shape);
      IndexSize(buckets[..], Address(hash, capacityMask + 1), shape);
    }

    /** All slots start on the circular free list. */
    static method AllocateCapacity(capacity: int, maxCapacity: nat)
        returns (r: Result<array<Slot<K, V>>, TableError>, ghost sh: Shape<K>)
      requires 0 < capacity
      ensures r.Err? <==> capacity > maxCapacity
      ensures r.Err? ==> r.error == InvalidInput
      ensures r.Ok? ==> fresh(r.value) && r.value.Length == capacity + 1
      ensures r.Ok? ==> forall addr: K -> int :: Shows(r.value[..], addr, sh, -1)
      ensures sh.index == map[]
    {
      sh := EmptyShape(capacity);
      if capacity > maxCapacity {
        return Err(InvalidInput), sh;
      }
      var a := new Slot<K, V>[capacity + 1](_ => Free(0, 0));
      for index := 0 to capacity + 1
        invariant forall i | 0 <= i < index :: a[i] == Free(-i - 2, i - 1)
      {
        a[index] := Free(-index - 2, index - 1);
      }
      a[capacity] := Free(-1, a[capacity].prev);
      a[0] := Free(a[0].next, capacity);
      r := Ok(a);
      forall addr: K -> int ensures Shows(a[..], addr, sh, -1) {
        EmptyShows(a[..], addr, capacity);
      }
    }

    constructor (hash: K -> nat, fixedCapacity: bool, maxCapacity: nat, buckets: array<Slot<K, V>>,
                 ghost shape: Shape<K>)
      requires 0 < buckets.Length - 1 <= maxCapacity && IsPow2(buckets.Length - 1)
      requires Shows(buckets[..], Address(hash, buckets.Length - 1), shape, -1)
      requires shape.index == map[]
      ensures this.hash == hash && this.fixedCapacity == fixedCapacity && this.maxCapacity == maxCapacity
      ensures this.buckets == buckets && Valid() && size == 0 && Contents() == map[]
    {
      this.hash, this.fixedCapacity, this.maxCapacity := hash, fixedCapacity, maxCapacity;
      this.size, this.capacityMask, this.buckets, this.shape := 0, buckets.Length - 2, buckets, shape;
    }

    /** The source's constructor: the capacity is rounded up to a power of 2. */
    static method Create(hash: K -> nat, fixedCapacity: bool, maxCapacity: nat, initialCapacity: int)
        returns (r: Result<Table<K, V>, TableError>)
      ensures r.Ok? <==> 0 < initialCapacity && CeilPow2(initialCapacity) <= maxCapacity
      ensures r.Err? ==> r.error == InvalidInput
      ensures r.Ok? ==>
        && fresh(r.value) && fresh(r.value.buckets) && r.value.Valid() && r.value.Contents() == map[]
        && r.value.capacityMask + 1 == CeilPow2(initialCapacity)
        && r.value.hash == hash && r.value.fixedCapacity == fixedCapacity && r.value.maxCapacity == maxCapacity
    {
      if initialCapacity <= 0 {
        return Err(InvalidInput);
      }
      var a, sh := AllocateCapacity(CeilPow2(initialCapacity), maxCapacity);
      match a
      case Err(e) => r := Err(e);
      case Ok(slots) =>
        var t := new Table(hash, fixedCapacity, maxCapacity, slots, sh);
        r := Ok(t);
    }

    /** The lookup probes from the hash address, even along a foreign chain. */
    method Get(key: K) returns (r: Option<nat>)
      requires Valid()
      ensures r.None? <==> key !in Contents()
      ensures r.Some? ==>
        && 0 < r.value < buckets.Length && buckets[r.value].Used?
        && buckets[r.value].key == key && buckets[r.value].value == Contents()[key]
    {
      ghost var s, addr := buckets[..], Address(hash, capacityMask + 1);
      MapOfKeys(s, addr, shape);
      var e := hash(key) % (capacityMask + 1) + 1;
      assert addr(key) == e;
      WalkStart(s, addr, shape, key);
      var eNext := buckets[e].next;
      if eNext < 0 {
        return None;
      }
      while true
        invariant 0 < e < buckets.Length && Ahead(shape, e, key)
        invariant buckets[e].Used? && eNext == buckets[e].next
        decreases |shape.chains.Nodes(e)|
      {
        WalkStep(s, addr, shape, e, key);
        if buckets[e].key == key {
          assert Located(s, shape, key);
          return Some(e);
        }
        if eNext == 0 {
          return None;
        }
        e := eNext;
        eNext := buckets[e].next;
      }
    }

    /** Unlinks the slot after the sentinel; throws if there is none. */
    method AcquireFreeSlot() returns (r: Result<nat, TableError>)
      requires Valid()
      requires !fixedCapacity ==> !Full()
      modifies buckets, `shape
      ensures r.Err? <==> Full()
      ensures r.Err? ==> r.error == CapacityLimit && shape == old(shape) && buckets[..] == old(buckets[..])
      ensures r.Ok? ==> 0 < r.value < buckets.Length && ValidExcept(r.value) && buckets[r.value].Free?
      ensures r.Ok? ==> r.value == -old(buckets[0].next) - 1
      ensures Contents() == old(Contents()) && shape.index == old(shape.index) && shape.chains == old(shape.chains)
      ensures forall i | 0 <= i < buckets.Length && old(buckets[i]).Used? :: buckets[i] == old(buckets[i])
    {
      ghost var s, addr := buckets[..], Address(hash, capacityMask + 1);
      hide Shows, MapOf, Shown, Located;
      FullIffListEmpty(s, addr, shape);
      var firstFree := -buckets[0].next - 1;
      if firstFree == 0 {
        return Err(CapacityLimit);
      }
      FreeLinks(s, addr, shape, -1, 0);
      UnlinkFirst(firstFree);
      return Ok(firstFree);
    }

    /** Takes the slot after the sentinel off the free list. */
    method UnlinkFirst(firstFree: nat)
      requires ValidExcept(-1) && 0 < firstFree < buckets.Length && buckets[0].Free? && buckets[firstFree].Free?
      requires firstFree == -buckets[0].next - 1
      modifies buckets, `shape
      ensures ValidExcept(firstFree) && buckets[firstFree].Free?
      ensures Contents() == old(Contents()) && shape.index == old(shape.index) && shape.chains == old(shape.chains)
      ensures forall i | 0 <= i < buckets.Length && old(buckets[i]).Used? :: buckets[i] == old(buckets[i])
    {
      hide Shows, MapOf, Shown, Located;
      ghost var s, addr := buckets[..], Address(hash, capacityMask + 1);
      FirstFreePrev(s, addr, shape);
      shape := UnlinkShows(s, addr, shape, firstFree);
      var ffNext := buckets[firstFree].next;
      buckets[-ffNext - 1] := Free(buckets[-ffNext - 1].next, 0);
      buckets[0] := Free(ffNext, buckets[0].prev);
      assert buckets[..] == Unlinked(s, firstFree);
    }

    /** Puts slot `e` at the front of the free list. */
    method FreeSlot(e: int)
      requires ValidExcept(e) && 0 < e < buckets.Length
      modifies buckets, `shape
      ensures ValidExcept(-1) && shape.index == old(shape.index) && Contents() == old(Contents())
      ensures buckets[e].Free? && buckets[0].next == -e - 1
    {
      ghost var s, addr := buckets[..], Address(hash, capacityMask + 1);
      ghost var sh := FreeShows(s, addr, shape, e);
      var firstFree := -buckets[0].next - 1;
      buckets[firstFree] := Free(buckets[firstFree].next, e);
      buckets[e] := Free(-firstFree - 1, 0);
      buckets[0] := Free(-e - 1, buckets[0].prev);
      shape := sh;
      assert buckets[..] == Freed(s, e);
    }

    /** Case 1 of `put`: the slot at the hash address is empty. */
    method PutEmpty(e: nat, key: K, value: V)
      requires Valid() && 0 < e < buckets.Length
      requires e == Address(hash, capacityMask + 1)(key) && buckets[e].Free?
      modifies buckets, `shape, `size
      ensures Valid() && Contents() == old(Contents())[key := value]
      ensures buckets[e].Used? && buckets[e].key == key && buckets[e].value == value
      ensures size == old(size) + 1
    {
      ghost var s, addr := buckets[..], Address(hash, capacityMask + 1);
      WalkStart(s, addr, shape, key);
      assert Shown(s, addr, shape, e);
      ghost var sh := UnlinkShows(s, addr, shape, e);
      var eNext, ePrev := buckets[e].next, buckets[e].prev;
      buckets[ePrev] := Free(eNext, buckets[ePrev].prev);
      buckets[-eNext - 1] := Free(buckets[-eNext - 1].next, ePrev);
      ghost var t := buckets[..];
      assert t == Unlinked(s, e);
      shape := sh;
      FillHome(e, key, value);
    }

    /** `key` becomes the only node of its home chain. */
    method FillHome(e: nat, key: K, value: V)
      requires ValidExcept(e) && size == |shape.index| && 0 < e < buckets.Length
      requires e == Address(hash, capacityMask + 1)(key) && key !in shape.index
      modifies buckets, `shape, `size
      ensures Valid() && Contents() == old(Contents())[key := value]
      ensures buckets[e].Used? && buckets[e].key == key && buckets[e].value == value
      ensures size == old(size) + 1
    {
      ghost var t := buckets[..];
      shape := FillHomeShows(t, Address(hash, capacityMask + 1), shape, e, key, value);
      buckets[e] := Used(0, key, value);
      assert buckets[..] == t[e := Used(0, key, value)];
      size := size + 1;
    }

    /** Case 2 of `put`: `e` heads the home chain of the key. Asks for a retry
        when a resizable table has no room for a new key. */
    method PutInChain(e: nat, key: K, value: V) returns (r: Result<nat, TableError>, retry: bool)
      requires Valid() && 0 < e < buckets.Length && e == Address(hash, capacityMask + 1)(key)
      requires buckets[e].Used? && Address(hash, capacityMask + 1)(buckets[e].key) == e
      modifies buckets, `shape, `size
      ensures Valid()
      ensures retry <==> key !in old(Contents()) && old(Full()) && !fixedCapacity
      ensures r.Err? <==> key !in old(Contents()) && old(Full())
      ensures r.Err? ==>
        r.error == CapacityLimit && size == old(size) && buckets[..] == old(buckets[..]) && shape == old(shape)
      ensures r.Ok? ==>
        && Contents() == old(Contents())[key := value]
        && 0 < r.value < buckets.Length
        && buckets[r.value].Used? && buckets[r.value].key == key && buckets[r.value].value == value
    {
      hide MapOf, Shown, Located;
      retry := false;
      ghost var s, addr := buckets[..], Address(hash, capacityMask + 1);
      MapOfKeys(s, addr, shape);
      WalkStart(s, addr, shape, key);
      var ep, epNext := e, buckets[e].next;
      while true
        invariant buckets[..] == s && shape == old(shape) && size == old(size)
        invariant 0 < ep < buckets.Length && Ahead(shape, ep, key)
        invariant buckets[ep].Used? && epNext == buckets[ep].next && addr(buckets[ep].key) == e
        decreases |shape.chains.Nodes(ep)|
      {
        WalkStep(s, addr, shape, ep, key);
        if buckets[ep].key == key {
          UpdateShows(s, addr, shape, ep, value);
          buckets[ep] := Used(buckets[ep].next, buckets[ep].key, value);
          assert buckets[..] == s[ep := Used(s[ep].next, s[ep].key, value)];
          return Ok(ep), false;
        } else if epNext == 0 {
          if !fixedCapacity && size == capacityMask + 1 {
            return Err(CapacityLimit), true;
          }
          r := AppendAfter(ep, key, value);
          return;
        }
        ep := epNext;
        epNext := buckets[ep].next;
      }
    }

    /** The new key goes to a free slot behind the last node of its home chain. */
    method AppendAfter(last: nat, key: K, value: V) returns (r: Result<nat, TableError>)
      requires Valid() && 0 < last < buckets.Length && buckets[last].Used? && buckets[last].next == 0
      requires Address(hash, capacityMask + 1)(key) == Address(hash, capacityMask + 1)(buckets[last].key)
      requires key !in shape.index
      requires !fixedCapacity ==> !Full()
      modifies buckets, `shape, `size
      ensures Valid()
      ensures r.Err? <==> old(Full())
      ensures r.Err? ==>
        r.error == CapacityLimit && size == old(size) && buckets[..] == old(buckets[..]) && shape == old(shape)
      ensures r.Ok? ==>
        && Contents() == old(Contents())[key := value]
        && 0 < r.value < buckets.Length
        && buckets[r.value].Used? && buckets[r.value].key == key && buckets[r.value].value == value
      ensures r.Ok? ==> buckets[last].Used? && buckets[last].next == r.value && buckets[r.value].next == 0
    {
      hide Shows, MapOf, Shown, Located;
      var slot := AcquireFreeSlot();
      if slot.Err? {
        return Err(slot.error);
      }
      LinkLast(last, slot.value, key, value);
      return Ok(slot.value);
    }

    /** Links slot `e` behind `last` and fills it. */
    method LinkLast(last: nat, e: nat, key: K, value: V)
      requires ValidExcept(e) && size == |shape.index| && 0 < e < buckets.Length
      requires 0 < last < buckets.Length && last != e && buckets[last].Used? && buckets[last].next == 0
      requires Address(hash, capacityMask + 1)(key) == Address(hash, capacityMask + 1)(buckets[last].key)
      requires key !in shape.index
      modifies buckets, `shape, `size
      ensures Valid() && Contents() == old(Contents())[key := value] && size == old(size) + 1
      ensures buckets[e] == Used(0, key, value) && buckets[last].Used? && buckets[last].next == e
    {
      hide Shows, MapOf, Shown, Located;
      ghost var t, addr := buckets[..], Address(hash, capacityMask + 1);
      shape := FillLastShows(t, addr, shape, last, e, key, value);
      buckets[last] := Used(e, buckets[last].key, buckets[last].value);
      buckets[e] := Used(0, key, value);
      assert buckets[..] == t[last := Used(e, t[last].key, t[last].value)][e := Used(0, key, value)];
      size := size + 1;
    }

    /** Case 3 of `put`: the foreign entry at the hash address moves to a free slot. */
    method PutDisplacing(e: nat, key: K, value: V) returns (r: Result<nat, TableError>)
      requires Valid() && 0 < e < buckets.Length && e == Address(hash, capacityMask + 1)(key)
      requires buckets[e].Used? && Address(hash, capacityMask + 1)(buckets[e].key) != e
      requires !fixedCapacity ==> !Full()
      modifies buckets, `shape, `size
      ensures Valid()
      ensures r.Err? <==> old(Full())
      ensures r.Err? ==>
        r.error == CapacityLimit && size == old(size) && buckets[..] == old(buckets[..]) && shape == old(shape)
      ensures r.Ok? ==>
        && Contents() == old(Contents())[key := value]
        && r.value == e && buckets[e].Used? && buckets[e].key == key && buckets[e].value == value
    {
      ghost var addr := Address(hash, capacityMask + 1);
      WalkStart(buckets[..], addr, shape, key);
      var slot := AcquireFreeSlot();
      if slot.Err? {
        return Err(slot.error);
      }
      var d := slot.value;
      Displace(e, d);
      FillHome(e, key, value);
      return Ok(e);
    }

    /** Moves the foreign entry of `e` to `d` and redirects its predecessor. */
    method Displace(e: nat, d: nat)
      requires ValidExcept(d) && 0 < d < buckets.Length
      requires 0 < e < buckets.Length && e != d && buckets[e].Used?
      requires Address(hash, capacityMask + 1)(buckets[e].key) != e
      modifies buckets, `shape
      ensures ValidExcept(e) && Contents() == old(Contents())
      ensures shape.index == old(shape.index[buckets[e].key := d]) && shape.index.Keys == old(shape.index.Keys)
    {
      ghost var s, addr := buckets[..], Address(hash, capacityMask + 1);
      assert Shown(s, addr, shape, e);
      var p := FindPredecessor(e, d);
      shape := DisplaceShows(s, addr, shape, p, e, d);
      buckets[d] := buckets[e];
      buckets[p] := Used(d, buckets[p].key, buckets[p].value);
      assert buckets[..] == s[d := s[e]][p := Used(d, s[p].key, s[p].value)];
    }

    /** The slot whose `next` is `e`: found from the head of the chain `e` is on. */
    method FindPredecessor(e: nat, ghost d: nat) returns (p: nat)
      requires ValidExcept(d) && 0 < d < buckets.Length
      requires 0 < e < buckets.Length && e != d && buckets[e].Used?
      requires Address(hash, capacityMask + 1)(buckets[e].key) != e
      ensures 0 < p < buckets.Length && p != d && buckets[p].Used? && buckets[p].next == e
    {
      ghost var s, addr := buckets[..], Address(hash, capacityMask + 1);
      UsedLinks(s, addr, shape, d, e);
      assert Shown(s, addr, shape, e);
      HeadReaches(shape.chains, e);
      p := hash(buckets[e].key) % (capacityMask + 1) + 1;
      assert p == addr(s[e].key);
      SeekStep(s, addr, shape, d, p, e);
      while buckets[p].next != e
        invariant 0 < p < buckets.Length && p != d && p != e && buckets[p].Used?
        invariant shape.chains.On(p) && e in shape.chains.Nodes(p)
        decreases |shape.chains.Nodes(p)|
      {
        SeekStep(s, addr, shape, d, p, e);
        p := buckets[p].next;
      }
    }

    /** Inserts or updates; a resizable table that is full doubles and retries. */
    method Put(key: K, value: V) returns (r: Result<nat, TableError>)
      requires Valid()
      modifies this, buckets
      decreases if Full() then 2 else 0
      ensures Valid() && size == |Contents()|
      ensures r.Err? <==>
        && key !in old(Contents()) && old(Full())
        && (fixedCapacity || 2 * (old(capacityMask) + 1) > maxCapacity)
      ensures r.Err? ==>
        && buckets == old(buckets) && buckets[..] == old(buckets[..]) && shape == old(shape)
        && size == old(size) && capacityMask == old(capacityMask)
      ensures r.Ok? ==>
        && Contents() == old(Contents())[key := value]
        && 0 < r.value < buckets.Length
        && buckets[r.value].Used? && buckets[r.value].key == key && buckets[r.value].value == value
      ensures r.Ok? && key !in old(Contents()) && old(Full()) ==>
        capacityMask + 1 == 2 * (old(capacityMask) + 1) && fresh(buckets)
      ensures key in old(Contents()) || !old(Full()) ==> buckets == old(buckets) && capacityMask == old(capacityMask)
    {
      ghost var pre := Contents();
      MapOfKeys(buckets[..], Address(hash, capacityMask + 1), shape);
      ghost var retried := false;
      while true
        invariant Valid() && Contents() == pre && size == old(size)
        invariant !retried ==>
          && buckets == old(buckets) && buckets[..] == old(buckets[..]) && shape == old(shape)
          && capacityMask == old(capacityMask)
        invariant retried ==>
          && !Full() && fresh(buckets) && key !in pre && old(Full()) && !fixedCapacity
          && capacityMask + 1 == 2 * (old(capacityMask) + 1) <= maxCapacity
        decreases !retried
      {
        var retry;
        r, retry := PutOnce(key, value);
        SizeIsCardinality();
        if !retry {
          return;
        }
        r := Grow();
        if r.Err? {
          SizeIsCardinality();
          return;
        }
        retried := true;
      }
    }

    /** One pass of `put`: picks the case from what the slot at the hash address holds. */
    method PutOnce(key: K, value: V) returns (r: Result<nat, TableError>, retry: bool)
      requires Valid()
      modifies buckets, `shape, `size
      ensures Valid()
      ensures retry <==> key !in old(Contents()) && old(Full()) && !fixedCapacity
      ensures r.Err? <==> key !in old(Contents()) && old(Full())
      ensures r.Err? ==> size == old(size) && buckets[..] == old(buckets[..]) && shape == old(shape)
      ensures r.Ok? ==>
        && Contents() == old(Contents())[key := value]
        && 0 < r.value < buckets.Length
        && buckets[r.value].Used? && buckets[r.value].key == key && buckets[r.value].value == value
    {
      ghost var addr := Address(hash, capacityMask + 1);
      MapOfKeys(buckets[..], addr, shape);
      WalkStart(buckets[..], addr, shape, key);
      retry := false;
      var e := hash(key) % (capacityMask + 1) + 1;
      assert e == addr(key);
      if buckets[e].next < 0 {
        NotFullIfEmptySlot(buckets[..], addr, shape, e);
        PutEmpty(e, key, value);
        return Ok(e), false;
      }
      var eHome := hash(buckets[e].key) % (capacityMask + 1) + 1;
      assert eHome == addr(buckets[e].key);
      if eHome == e {
        r, retry := PutInChain(e, key, value);
      } else if !fixedCapacity && size == capacityMask + 1 {
        r, retry := Err(CapacityLimit), true;
      } else {
        r := PutDisplacing(e, key, value);
      }
    }

    /** The `rehash_and_retry` step: twice the capacity, or an error with nothing changed. */
    method Grow() returns (r: Result<nat, TableError>)
      requires Valid() && Full()
      modifies this
      decreases 1
      ensures Valid() && Contents() == old(Contents()) && size == old(size)
      ensures r.Err? <==> 2 * (old(capacityMask) + 1) > maxCapacity
      ensures r.Err? ==>
        && buckets == old(buckets) && buckets[..] == old(buckets[..])
        && shape == old(shape) && capacityMask == old(capacityMask)
      ensures r.Ok? ==> fresh(buckets) && capacityMask + 1 == 2 * (old(capacityMask) + 1)
    {
      DoublePow2(capacityMask + 1);
      r := RehashImpl((capacityMask + 1) * 2);
    }

    /** Moves every entry into a new slot array; nested puts never need another rehash. */
    method RehashImpl(newCapacity: int) returns (r: Result<nat, TableError>)
      requires Valid() && size <= newCapacity && IsPow2(newCapacity)
      modifies this
      decreases 1, 1
      ensures Valid() && Contents() == old(Contents()) && size == old(size)
      ensures r.Err? <==> newCapacity > maxCapacity
      ensures r.Err? ==>
        r.error == InvalidInput && buckets == old(buckets) && shape == old(shape) && capacityMask == old(capacityMask)
      ensures r.Ok? ==> fresh(buckets) && capacityMask + 1 == newCapacity
    {
      Pow2Positive(newCapacity);
      var a, sh := AllocateCapacity(newCapacity, maxCapacity);
      if a.Err? {
        return Err(a.error);
      }
      MoveInto(a.value, newCapacity, sh);
      return Ok(newCapacity);
    }

    /** Takes on an empty slot array and puts the entries of the previous one into it. */
    method MoveInto(slots: array<Slot<K, V>>, newCapacity: int, ghost sh: Shape<K>)
      requires Valid() && size <= newCapacity <= maxCapacity && 0 < newCapacity && IsPow2(newCapacity)
      requires slots != buckets && slots.Length == newCapacity + 1
      requires Shows(slots[..], Address(hash, newCapacity), sh, -1) && sh.index == map[]
      modifies this, slots
      decreases 1, 0, 2
      ensures Valid() && Contents() == old(Contents()) && size == old(size)
      ensures buckets == slots && capacityMask + 1 == newCapacity
    {
      hide Shows, Located;
      var curBuckets := buckets;
      ghost var cur, curAddr := shape, Address(hash, capacityMask + 1);
      buckets, shape := slots, sh;
      var iLimit := size;
      size := 0;
      capacityMask := newCapacity - 1;
      Reinsert(curBuckets, iLimit, curAddr, cur);
    }

    /** Visits one slot of the previous slot array: its entry, if any, is put into
        this table, which has room, so the nested `put` cannot rehash again. */
    method ReinsertSlot(curBuckets: array<Slot<K, V>>, eAddr: int, ghost curAddr: K -> int, ghost cur: Shape<K>)
        returns (occupied: bool)
      requires Valid() && !Full() && size == |Contents()|
      requires curBuckets != buckets && Shows(curBuckets[..], curAddr, cur, -1)
      requires 1 <= eAddr <= curBuckets.Length && Contents() == Moved(curBuckets[..], cur, eAddr)
      requires size < |cur.index|
      modifies this, buckets
      decreases 1, 0, 0
      ensures Valid() && eAddr < curBuckets.Length
      ensures Contents() == Moved(curBuckets[..], cur, eAddr + 1)
      ensures size == |Contents()| == if occupied then old(size) + 1 else old(size)
      ensures buckets == old(buckets) && capacityMask == old(capacityMask)
    {
      MovedStep(curBuckets[..], curAddr, cur, eAddr);
      occupied := curBuckets[eAddr].next >= 0;
      if occupied {
        var r := Put(curBuckets[eAddr].key, curBuckets[eAddr].value);
      }
    }

    /** Puts the entries of the previous slot array, in slot order, into an empty table. */
    method Reinsert(curBuckets: array<Slot<K, V>>, iLimit: int, ghost curAddr: K -> int, ghost cur: Shape<K>)
      requires Valid() && size == 0 && Contents() == map[]
      requires curBuckets != buckets && Shows(curBuckets[..], curAddr, cur, -1)
      requires iLimit == |cur.index| <= capacityMask + 1
      modifies this, buckets
      decreases 1, 0, 1
      ensures Valid() && Contents() == MapOf(curBuckets[..], cur) && size == iLimit
      ensures buckets == old(buckets) && capacityMask == old(capacityMask)
    {
      ghost var s := curBuckets[..];
      var eAddr, i := 1, 0;
      MovedNone(s, cur);
      while i < iLimit
        invariant size == i == |Contents()| <= iLimit && 1 <= eAddr <= |s|
        invariant Valid()
        invariant Contents() == Moved(s, cur, eAddr)
        invariant curBuckets[..] == s && buckets == old(buckets) && capacityMask == old(capacityMask)
        decreases |s| - eAddr
      {
        var occupied := ReinsertSlot(curBuckets, eAddr, curAddr, cur);
        i := if occupied then i + 1 else i;
        eAddr := eAddr + 1;
      }
      MovedAll(s, curAddr, cur, eAddr);
    }

    /** The public `rehash`: rounds the target up and refuses one below `size()`. */
    method Rehash(count: int) returns (r: Result<nat, TableError>)
      requires Valid()
      modifies this
      ensures Valid() && Contents() == old(Contents()) && size == old(size)
      ensures r.Ok? <==>
        && 0 < count
        && (CeilPow2(count) == old(capacityMask) + 1 || size <= CeilPow2(count) <= maxCapacity)
      ensures r.Ok? ==> r.value == capacityMask + 1 == CeilPow2(count)
      ensures r.Err? ==> buckets == old(buckets) && shape == old(shape) && capacityMask == old(capacityMask)
      ensures buckets == old(buckets) || fresh(buckets)
    {
      if count <= 0 {
        return Err(InvalidInput);
      }
      var target := CeilPow2(count);
      SizeIsCardinality();
      if target != capacityMask + 1 {
        if target < size {
          return Err(InvalidInput);
        }
        r := RehashImpl(target);
        if r.Err? {
          return;
        }
      }
      return Ok(capacityMask + 1);
    }

    /** `remove_impl`: displaces the successor, or cuts the last node off. */
    method RemoveImpl(key: K) returns (r: Option<V>)
      requires Valid()
      modifies buckets, `shape, `size
      ensures Valid() && Contents() == old(Contents()) - {key}
      ensures r.None? <==> key !in old(Contents())
      ensures r.Some? ==> r.value == old(Contents())[key] && size == old(size) - 1
      ensures r.None? ==> buckets[..] == old(buckets[..]) && shape == old(shape) && size == old(size)
    {
      var found, ep, e := FindWithPredecessor(key);
      if !found {
        return None;
      }
      var value := RemoveAt(ep, e);
      return Some(value);
    }

    /** The probe of `remove_impl`, which remembers the slot before the current one. */
    method FindWithPredecessor(key: K) returns (found: bool, ep: nat, e: nat)
      requires Valid()
      ensures found <==> key in Contents()
      ensures found ==>
        && 0 < e < buckets.Length && buckets[e].Used? && buckets[e].key == key
        && buckets[e].value == Contents()[key]
        && 0 < ep < buckets.Length && buckets[ep].Used?
        && if ep == e then Address(hash, capacityMask + 1)(key) == e else buckets[ep].next == e
    {
      ghost var s, addr := buckets[..], Address(hash, capacityMask + 1);
      MapOfKeys(s, addr, shape);
      WalkStart(s, addr, shape, key);
      e := hash(key) % (capacityMask + 1) + 1;
      ep := e;
      assert e == addr(key);
      var eNext := buckets[e].next;
      if eNext < 0 {
        return false, ep, e;
      }
      while true
        invariant 0 < e < buckets.Length && Ahead(shape, e, key)
        invariant buckets[e].Used? && eNext == buckets[e].next
        invariant 0 < ep < buckets.Length && buckets[ep].Used?
        invariant if ep == e then e == addr(key) else buckets[ep].next == e
        decreases |shape.chains.Nodes(e)|
      {
        WalkStep(s, addr, shape, e, key);
        if buckets[e].key == key {
          assert Located(s, shape, key);
          return true, ep, e;
        } else if eNext == 0 {
          return false, ep, e;
        }
        ep := e;
        SeekDistinct(s, addr, shape, e);
        e := eNext;
        eNext := buckets[e].next;
      }
    }

    /** Takes the entry of slot `e` out; `ep` is its predecessor, or `e` itself at the head. */
    method RemoveAt(ep: nat, e: nat) returns (value: V)
      requires Valid()
      requires 0 < e < buckets.Length && buckets[e].Used?
      requires 0 < ep < buckets.Length && buckets[ep].Used?
      requires if ep == e then Address(hash, capacityMask + 1)(buckets[e].key) == e else buckets[ep].next == e
      modifies buckets, `shape, `size
      ensures Valid() && Contents() == old(Contents()) - {old(buckets[e].key)}
      ensures value == old(buckets[e].value) && size == old(size) - 1
    {
      hide Shows, MapOf;
      value := buckets[e].value;
      var freed := DetachEntry(ep, e);
      FreeSlot(freed);
      size := size - 1;
    }

    /** Either the successor moves into `e`, or `e` is cut off; says which slot that leaves unused. */
    method DetachEntry(ep: nat, e: nat) returns (freed: nat)
      requires ValidExcept(-1)
      requires 0 < e < buckets.Length && buckets[e].Used?
      requires 0 < ep < buckets.Length && buckets[ep].Used?
      requires if ep == e then Address(hash, capacityMask + 1)(buckets[e].key) == e else buckets[ep].next == e
      modifies buckets, `shape
      ensures 0 < freed < buckets.Length && ValidExcept(freed)
      ensures Contents() == old(Contents()) - {old(buckets[e].key)}
      ensures old(buckets[e].key) in old(shape.index) && |shape.index| == |old(shape.index)| - 1
      ensures freed == if old(buckets[e].next) != 0 then old(buckets[e].next) else e
    {
      hide Shows, MapOf;
      ghost var s, addr := buckets[..], Address(hash, capacityMask + 1);
      UsedLinks(s, addr, shape, -1, e);
      if buckets[e].next != 0 {
        freed := buckets[e].next;
        shape := AbsorbShows(s, addr, shape, e);
        buckets[e] := buckets[freed];
        assert buckets[..] == s[e := s[s[e].next]];
      } else {
        freed := e;
        shape := CutShows(s, addr, shape, ep, e);
        if e != ep {
          buckets[ep] := Used(0, buckets[ep].key, buckets[ep].value);
        }
        assert buckets[..] == CutOff(s, ep, e);
      }
    }

    method Remove(key: K) returns (removed: bool)
      requires Valid()
      modifies buckets, `shape, `size
      ensures Valid() && Contents() == old(Contents()) - {key}
      ensures removed <==> key in old(Contents())
      ensures size == if removed then old(size) - 1 else old(size)
    {
      var r := RemoveImpl(key);
      removed := r.Some?;
    }

    /** Forward iteration: scans the slots, skipping empty ones, until `size()` entries were met. */
    method Traverse() returns (visited: seq<nat>)
      requires Valid()
      ensures |visited| == size
      ensures forall i :: i in visited <==> i in UsedSlots(buckets[..])
      ensures forall j, k | 0 <= j < k < |visited| :: visited[j] < visited[k]
      ensures AreEntries(buckets[..], visited, Contents())
    {
      ghost var s, addr := buckets[..], Address(hash, capacityMask + 1);
      visited := [];
      var slot, count := 0, 1;
      while count <= size
        invariant 0 <= slot < |s| && count == |visited| + 1
        invariant forall i :: i in visited <==> i in UsedSlots(s) && i <= slot
        invariant forall j, k | 0 <= j < k < |visited| :: visited[j] < visited[k]
        decreases |s| - slot
      {
        VisitedSize(s, addr, shape, slot, visited);
        assert forall j | 0 <= j < |visited| :: visited[j] in visited;
        slot := slot + 1;
        assert Shown(s, addr, shape, slot);
        if buckets[slot].next >= 0 {
          visited := visited + [slot];
          count := count + 1;
        }
      }
      VisitedAll(s, addr, shape, slot, visited);
      UsedSlotsAreEntries(s, addr, shape, visited);
    }
  }

  /** The slots hold exactly the entries of the map. */
  ghost predicate AreEntries<K, V>(s: seq<Slot<K, V>>, visited: seq<nat>, m: map<K, V>) {
    && (forall i | i in visited :: i < |s| && s[i].Used? && s[i].key in m && m[s[i].key] == s[i].value)
    && (forall key | key in m :: exists i :: i in visited && i < |s| && s[i].Used? && s[i].key == key)
  }

  lemma UsedSlotsAreEntries<K(!new), V>(s: seq<Slot<K, V>>, addr: K -> int, sh: Shape<K>, visited: seq<nat>)
    requires Shows(s, addr, sh, -1) && forall i :: i in visited <==> i in UsedSlots(s)
    ensures AreEntries(s, visited, MapOf(s, sh))
  {
    var m := MapOf(s, sh);
    forall i | i in visited
      ensures i < |s| && s[i].Used? && s[i].key in m && m[s[i].key] == s[i].value
    {
      assert i in UsedSlots(s) && Shown(s, addr, sh, i);
      assert Located(s, sh, s[i].key);
    }
    forall key | key in m ensures exists i :: i in visited && i < |s| && s[i].Used? && s[i].key == key {
      assert Located(s, sh, key);
      assert sh.index[key] in UsedSlots(s);
    }
  }

  lemma SeekDistinct<K(!new), V>(s: seq<Slot<K, V>>, addr: K -> int, sh: Shape<K>, e: int)
    requires Shows(s, addr, sh, -1) && 0 < e < |s| && s[e].Used? && s[e].next > 0
    ensures s[e].next != e
  {
    UsedLinks(s, addr, sh, -1, e);
    assert Shown(s, addr, sh, e);
  }

  /** While fewer than `size` entries were met, there is a slot left to look at. */
  lemma VisitedSize<K(!new), V>(s: seq<Slot<K, V>>, addr: K -> int, sh: Shape<K>, slot: int, visited: seq<nat>)
    requires Shows(s, addr, sh, -1) && 0 <= slot < |s|
    requires forall i :: i in visited <==> i in UsedSlots(s) && i <= slot
    requires forall j, k | 0 <= j < k < |visited| :: visited[j] < visited[k]
    ensures |visited| < |sh.index| ==> slot + 1 < |s|
    ensures |visited| <= |sh.index|
  {
    IndexSize(s, addr, sh);
    var met := set i | i in visited;
    DistinctSize(visited, met);
    assert met <= UsedSlots(s);
    assert |UsedSlots(s)| == |met| + |UsedSlots(s) - met|;
    if slot + 1 == |s| {
      assert UsedSlots(s) - met == {};
    }
  }

  lemma VisitedAll<K(!new), V>(s: seq<Slot<K, V>>, addr: K -> int, sh: Shape<K>, slot: int, visited: seq<nat>)
    requires Shows(s, addr, sh, -1) && 0 <= slot < |s|
    requires forall i :: i in visited <==> i in UsedSlots(s) && i <= slot
    requires forall j, k | 0 <= j < k < |visited| :: visited[j] < visited[k]
    requires |visited| >= |sh.index|
    ensures |visited| == |sh.index|
    ensures forall i :: i in visited <==> i in UsedSlots(s)
  {
    IndexSize(s, addr, sh);
    var met := set i | i in visited;
    DistinctSize(visited, met);
    assert met <= UsedSlots(s);
    assert |UsedSlots(s)| == |met| + |UsedSlots(s) - met|;
    assert met == UsedSlots(s);
  }

  /** The entries of the slots before `limit`. */
  ghost function Moved<K(!new), V>(s: seq<Slot<K, V>>, sh: Shape<K>, limit: int): map<K, V> {
    map key | key in sh.index && Located(s, sh, key) && sh.index[key] < limit :: s[sh.index[key]].value
  }

  lemma MovedNone<K(!new), V>(s: seq<Slot<K, V>>, sh: Shape<K>)
    ensures Moved(s, sh, 1) == map[]
  {
  }

  lemma MovedStep<K(!new), V>(s: seq<Slot<K, V>>, addr: K -> int, sh: Shape<K>, limit: int)
    requires Shows(s, addr, sh, -1) && 1 <= limit <= |s|
    requires |Moved(s, sh, limit)| < |sh.index|
    ensures limit < |s|
    ensures if s[limit].next >= 0 then
              && s[limit].Used? && s[limit].key !in Moved(s, sh, limit)
              && Moved(s, sh, limit + 1) == Moved(s, sh, limit)[s[limit].key := s[limit].value]
            else Moved(s, sh, limit + 1) == Moved(s, sh, limit)
  {
    MapOfKeys(s, addr, sh);
    assert limit == |s| ==> Moved(s, sh, limit) == MapOf(s, sh);
    if limit < |s| {
      assert Shown(s, addr, sh, limit);
      assert forall key | key in sh.index :: Located(s, sh, key);
    }
  }

  lemma MovedAll<K(!new), V>(s: seq<Slot<K, V>>, addr: K -> int, sh: Shape<K>, limit: int)
    requires Shows(s, addr, sh, -1)
    requires |Moved(s, sh, limit)| == |sh.index|
    ensures Moved(s, sh, limit) == MapOf(s, sh)
  {
    MapOfKeys(s, addr, sh);
    var a, b := Moved(s, sh, limit).Keys, MapOf(s, sh).Keys;
    assert a <= b;
    assert |b - a| == |b| - |a|;
    assert a == b;
  }

  lemma NotFullIfEmptySlot<K(!new), V>(s: seq<Slot<K, V>>, addr: K -> int, sh: Shape<K>, e: int)
    requires Shows(s, addr, sh, -1) && 0 < e < |s| && s[e].Free?
    ensures |sh.index| < |s| - 1
  {
    IndexSize(s, addr, sh);
    assert e in EmptySlots(s);
  }

  ghost function EmptyRing(capacity: int): Ring
    requires 0 < capacity
  {
    Ring(seq(capacity + 1, i => if i == capacity then 0 else i + 1),
         seq(capacity + 1, i => if i == 0 then capacity else i - 1),
         seq(capacity + 1, i => -i))
  }

  lemma EmptyRingValid(capacity: int)
    requires 0 < capacity
    ensures EmptyRing(capacity).Valid()
  {
    var r := EmptyRing(capacity);
    forall i | 0 <= i <= capacity ensures r.On(i) && r.Linked(i) {
      var j, p := r.next[i], r.prev[i];
      assert 0 <= j <= capacity && 0 <= p <= capacity;
      assert r.On(j) && r.prev[j] == i;
      assert r.On(p) && r.next[p] == i;
    }
  }

  ghost function EmptyShape<K>(capacity: int): (sh: Shape<K>)
    requires 0 < capacity
    ensures sh.Valid(capacity + 1)
  {
    EmptyRingValid(capacity);
    var zeros := seq(capacity + 1, _ => 0);
    Shape(Chains(zeros, zeros, zeros, zeros), EmptyRing(capacity), map[])
  }

  lemma EmptyShows<K(!new), V>(s: seq<Slot<K, V>>, addr: K -> int, capacity: int)
    requires 0 < capacity && |s| == capacity + 1
    requires forall i | 0 <= i < |s| ::
      s[i] == Free(if i == capacity then -1 else -i - 2, if i == 0 then capacity else i - 1)
    ensures Shows(s, addr, EmptyShape(capacity), -1)
  {
    forall i | 0 <= i < |s| ensures Shown(s, addr, EmptyShape(capacity), i) {
    }
  }
}
