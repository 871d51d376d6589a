/**
 `fixed_size_allocator` and the slot life cycle of `object_pool`: power-of-2
 chunks of slots, short references, and a free list threaded through the slots.
 What is modelled of a slot is the word a free slot keeps its link in; an
 allocated slot's word belongs to the client, who may store anything there.
 */
module ObjectPool {
  import opened Wrappers
  import opened Arith
  import opened FreeLists
  import opened ChunkedSlots

  datatype PoolError = InvalidInput | PointerOverflow | OutOfBounds

  /** The contents of the chunks of a directory. */
  ghost function Contents(dir: seq<array<int>>): (cs: seq<seq<int>>)
    reads dir
    ensures |cs| == |dir| && forall c {:trigger cs[c]} | 0 <= c < |dir| :: cs[c] == dir[c][..]
  {
    seq(|dir|, c requires 0 <= c < |dir| reads dir => dir[c][..])
  }

  class Allocator {
    const chunkCapacity: nat
    const nullRef: nat             // the largest value of the pointer type
    var chunks: seq<array<int>>    // m_chunks
    var chunkCount: nat
    var freeList: int
    ghost var free: seq<int>       // the references on the free list

    /** The chunks are distinct, full-sized blocks and references fit the pointer type. */
    ghost predicate ChunksOk()
      reads `chunks, `chunkCount, chunks
    {
      && 1 < chunkCapacity && 0 < chunkCount == |chunks|
      && (forall c {:trigger chunks[c]} | 0 <= c < |chunks| :: chunks[c].Length == chunkCapacity)
      && (forall c, d {:trigger chunks[c], chunks[d]} | 0 <= c < d < |chunks| :: chunks[c] != chunks[d])
      && Uniform(Contents(chunks), chunkCapacity)
      && |Words()| <= nullRef
    }

    /** The first words of all slots, by reference. */
    ghost function Words(): seq<int>
      reads `chunks, chunks
    {
      Flat(Contents(chunks))
    }

    ghost predicate Valid()
      reads this, chunks
    {
      ChunksOk() && IsList(Words(), freeList, free, nullRef)
    }

    /** The references handed out and not yet released. */
    ghost predicate Outstanding(ref: int)
      reads this, chunks
    {
      0 <= ref < |Words()| && ref !in free
    }

    /** `capacity()`, in slots. */
    method Capacity() returns (n: nat)
      requires ChunksOk()
      ensures n == |Words()|
    {
      FlatSize(Contents(chunks), chunkCapacity);
      n := chunkCount * chunkCapacity;
    }

    /** The chunk and slot a reference denotes; throws if it is out of bounds. */
    method Dereference(ref: nat) returns (r: Result<(array<int>, nat), PoolError>)
      requires ChunksOk()
      ensures r.Ok? <==> ref < |Words()|
      ensures r.Ok? ==>
        && ref / chunkCapacity < |chunks| && r.value == (chunks[ref / chunkCapacity], ref % chunkCapacity)
        && r.value.1 < chunkCapacity && r.value.0[r.value.1] == Words()[ref]
    {
      RefLocates(Contents(chunks), chunkCapacity, ref);
      var chunkIndex := ref / chunkCapacity;
      if chunkIndex >= chunkCount {
        return Err(OutOfBounds);
      }
      return Ok((chunks[chunkIndex], ref % chunkCapacity));
    }

    /** Writes the first word of a slot. */
    method Write(ref: nat, word: int)
      requires ChunksOk() && ref < |Words()|
      modifies chunks
      ensures ChunksOk() && Words() == old(Words())[ref := word]
    {
      ghost var cs := Contents(chunks);
      RefLocates(cs, chunkCapacity, ref);
      var at := Dereference(ref);
      ghost var c, i := ref / chunkCapacity, ref % chunkCapacity;
      at.value.0[at.value.1] := word;
      FlatWrite(cs, chunkCapacity, c, i, word);
      assert Contents(chunks) == cs[c := cs[c][i := word]];
    }

    /** Takes the head of the free list, or extends the chunk directory. */
    method Allocate() returns (r: Result<nat, PoolError>)
      requires Valid()
      modifies this
      ensures Valid()
      ensures r.Err? <==> old(free) == [] && |old(Words())| + chunkCapacity > nullRef
      ensures r.Err? ==> free == old(free) && chunks == old(chunks) && Words() == old(Words())
      ensures r.Ok? ==> !old(Outstanding(r.value))
      ensures r.Ok? ==> forall ref :: Outstanding(ref) <==> old(Outstanding(ref)) || ref == r.value
      ensures r.Ok? && old(free) != [] ==> [r.value] + free == old(free) && chunks == old(chunks)
      ensures old(chunks) <= chunks && old(Words()) <= Words()
      ensures forall c {:trigger chunks[c]} | |old(chunks)| <= c < |chunks| :: fresh(chunks[c])
    {
      if freeList == nullRef {
        NullHeadIsEmpty(Words(), freeList, free, nullRef);
        r := AllocateFirstSlotOfNewChunk();
      } else {
        var firstRef := AllocateFirstFree();
        r := Ok(firstRef);
      }
    }

    method AllocateFirstFree() returns (firstRef: nat)
      requires Valid() && freeList != nullRef
      modifies `freeList, `free
      ensures Valid() && old(free) == [firstRef] + free && firstRef !in free && firstRef < |Words()|
    {
      PopKeeps(Words(), freeList, free, nullRef);
      firstRef := freeList;
      freeList := ReadLink(firstRef);
      free := free[1..];
    }

    method ReadLink(ref: nat) returns (link: int)
      requires ChunksOk() && ref < |Words()|
      ensures link == Words()[ref]
    {
      var at := Dereference(ref);
      link := at.value.0[at.value.1];
    }

    /** A new chunk goes to the end of the directory, so outstanding references stay good. */
    method AllocateFirstSlotOfNewChunk() returns (r: Result<nat, PoolError>)
      requires Valid() && free == []
      modifies this
      ensures Valid()
      ensures r.Err? <==> |old(Words())| + chunkCapacity > nullRef
      ensures r.Err? ==> free == old(free) && chunks == old(chunks) && Words() == old(Words())
      ensures r.Ok? ==> r.value == |old(Words())| && |Words()| == |old(Words())| + chunkCapacity
      ensures r.Ok? ==> forall ref :: ref in free <==> r.value < ref < |Words()|
      ensures old(chunks) <= chunks && old(Words()) <= Words()
      ensures forall c {:trigger chunks[c]} | |old(chunks)| <= c < |chunks| :: fresh(chunks[c])
    {
      var capacity := Capacity();
      if capacity + chunkCapacity > nullRef {
        return Err(PointerOverflow);
      }
      var chunk := NewChunk(capacity);
      AddChunk(chunk, capacity);
      return Ok(capacity);
    }

    /** The new chunk's slots but the first become the free list. */
    method AddChunk(chunk: array<int>, firstRef: nat)
      requires Valid() && free == [] && firstRef == |Words()| && chunk !in chunks && chunk.Length == chunkCapacity
      requires |Words()| + chunkCapacity <= nullRef
      requires forall k | 1 <= k < chunkCapacity ::
        chunk[k] == if k + 1 < chunkCapacity then |Words()| + k + 1 else nullRef
      modifies this
      ensures Valid() && chunks == old(chunks) + [chunk] && Words() == old(Words()) + chunk[..]
      ensures forall ref {:trigger ref in free} :: ref in free <==> |old(Words())| < ref < |Words()|
    {
      ghost var words := Words();
      NewChunkIsList(words, chunk[..], nullRef);
      AllocateChunk(chunk);
      freeList := firstRef + 1;
      free := seq(chunkCapacity - 1, k => |words| + 1 + k);
    }

    /** A chunk whose slots but the first are on a list of their own. */
    method NewChunk(firstRef: nat) returns (chunk: array<int>)
      requires 1 < chunkCapacity
      ensures fresh(chunk) && chunk.Length == chunkCapacity
      ensures forall k | 1 <= k < chunkCapacity ::
        chunk[k] == if k + 1 < chunkCapacity then firstRef + k + 1 else nullRef
    {
      chunk := new int[chunkCapacity];
      LinkNewChunk(chunk, firstRef);
    }

    /** `allocate_chunk`: the directory grows at its end, or all outstanding references would go bad. */
    method AllocateChunk(chunk: array<int>)
      requires ChunksOk() && chunk !in chunks && chunk.Length == chunkCapacity
      requires |Words()| + chunkCapacity <= nullRef
      modifies `chunks, `chunkCount
      ensures ChunksOk() && chunks == old(chunks) + [chunk] && Words() == old(Words()) + chunk[..]
    {
      FlatPush(Contents(chunks), chunk[..]);
      chunks := chunks + [chunk];
      chunkCount := chunkCount + 1;
      assert Contents(chunks) == old(Contents(chunks)) + [chunk[..]];
    }

    /** Threads slots 1 .. of a new chunk on a list of their own. */
    method LinkNewChunk(chunk: array<int>, firstRef: nat)
      requires 1 < chunkCapacity == chunk.Length
      modifies chunk
      ensures forall k | 1 <= k < chunkCapacity ::
        chunk[k] == if k + 1 < chunkCapacity then firstRef + k + 1 else nullRef
    {
      var ref := firstRef + 1;
      for i := 1 to chunkCapacity - 1
        invariant ref == firstRef + i
        invariant forall k | 1 <= k < i :: chunk[k] == firstRef + k + 1
      {
        ref := ref + 1;
        chunk[i] := ref;
      }
      chunk[chunkCapacity - 1] := nullRef;
    }

    /** Puts a slot at the front of the free list, without a look at whether it is on it already:
        the list stays sound exactly when it is not. */
    method Release(ref: nat) returns (r: Result<(), PoolError>)
      requires ChunksOk()
      modifies this, chunks
      ensures ChunksOk() && chunks == old(chunks)
      ensures r.Ok? <==> ref < |old(Words())|
      ensures r.Ok? ==>
        ref < |old(Words())| && freeList == ref && free == [ref] + old(free)
        && Words() == old(Words())[ref := old(freeList)]
      ensures r.Ok? && old(Valid()) ==>
        && (Sound(Words(), freeList, nullRef) <==> ref !in old(free))
        && (Valid() <==> ref !in old(free))
      ensures r.Err? ==> freeList == old(freeList) && free == old(free) && Words() == old(Words())
      ensures r.Err? && old(Valid()) ==> Valid()
    {
      hide Words, IsList, Sound;
      var at := Dereference(ref);
      if at.Err? {
        return Err(at.error);
      }
      if Valid() {
        ReleaseSoundIff(Words(), freeList, free, nullRef, ref);
        ReleaseListIff(Words(), freeList, free, nullRef, ref);
      }
      var firstRef := freeList;
      freeList := ref;
      Write(ref, firstRef);
      free := [ref] + free;
      return Ok(());
    }

    /** The client writes to a slot it holds. */
    method Store(ref: nat, word: int)
      requires Valid() && Outstanding(ref)
      modifies chunks
      ensures Valid() && Words() == old(Words())[ref := word]
    {
      Write(ref, word);
      OthersMatterNot(old(Words()), Words(), freeList, free, nullRef);
    }

    /** A released slot is the next one allocated, and the free list is as before. */
    method ReleaseThenAllocate(ref: nat) returns (again: nat)
      requires Valid() && Outstanding(ref)
      modifies this, chunks
      ensures Valid() && again == ref && ref < |old(Words())|
      ensures free == old(free) && chunks == old(chunks)
      ensures Words() == old(Words())[ref := old(freeList)]
    {
      var released := Release(ref);
      var r := Allocate();
      again := r.value;
      SameTail(again, free, ref, old(free));
    }

    /** The debug walk over the free list: true exactly when the list is sound,
        whatever the state of the links. */
    method Check() returns (ok: bool)
      requires ChunksOk()
      ensures ok <==> Sound(Words(), freeList, nullRef)
    {
      var bound := Capacity();
      var ref, uniqRefs, count := freeList, {}, 0;
      ghost var seen := [];
      while count <= bound
        invariant count == |seen| <= bound && forall x :: x in uniqRefs <==> x in seen
        invariant Walked(Words(), freeList, seen, ref, nullRef)
      {
        if ref == nullRef {
          assert IsList(Words(), freeList, seen, nullRef);
          return true;
        }
        if ref < 0 || ref >= bound || ref in uniqRefs {
          NotSound(Words(), freeList, seen, ref, nullRef);
          return false;
        }
        WalkStep(Words(), freeList, seen, ref, nullRef);
        uniqRefs := uniqRefs + {ref};
        seen := seen + [ref];
        ref := ReadLink(ref);
        count := count + 1;
      }
      return false;
    }

    /** All bits start set; those of the slots on the free list are reset. */
    method AllocationBitmap() returns (bits: seq<bool>)
      requires Valid()
      ensures |bits| == |Words()| && forall r | 0 <= r < |bits| :: bits[r] <==> Outstanding(r)
    {
      hide Words, IsList;
      var capacity := Capacity();
      HeadOf(Words(), freeList, free, nullRef);
      bits := seq(capacity, _ => true);
      var ref := freeList;
      ghost var k := 0;
      while ref != nullRef
        invariant 0 <= k <= |free| && ref == if k < |free| then free[k] else nullRef
        invariant |bits| == |Words()| && forall r | 0 <= r < |bits| :: bits[r] <==> r !in free[..k]
        decreases |free| - k
      {
        LinkOf(Words(), freeList, free, nullRef, k);
        bits := bits[ref := false];
        ref := ReadLink(ref);
        k := k + 1;
      }
      if k < |free| {
        LinkOf(Words(), freeList, free, nullRef, k);
      }
      assert free[..k] == free;
    }

    /** What the pool's destructor destructs: every allocated slot, in order, once. */
    method LeftOver() returns (refs: seq<nat>)
      requires Valid()
      ensures forall r: nat :: r in refs <==> Outstanding(r)
      ensures forall j, k | 0 <= j < k < |refs| :: refs[j] < refs[k]
    {
      hide Words, IsList;
      var bits := AllocationBitmap();
      refs := [];
      for r := 0 to |bits|
        invariant forall x: nat :: x in refs <==> x < r && Outstanding(x)
        invariant forall j {:trigger refs[j]} | 0 <= j < |refs| :: refs[j] < r
        invariant forall j, k | 0 <= j < k < |refs| :: refs[j] < refs[k]
      {
        if bits[r] {
          refs := refs + [r];
        }
      }
    }

    constructor (chunkCapacity: nat, nullRef: nat, chunks: seq<array<int>>)
      requires 1 < chunkCapacity && 0 < |chunks|
      requires forall c {:trigger chunks[c]} | 0 <= c < |chunks| :: chunks[c].Length == chunkCapacity
      requires forall c, d {:trigger chunks[c], chunks[d]} | 0 <= c < d < |chunks| :: chunks[c] != chunks[d]
      requires Uniform(Contents(chunks), chunkCapacity) && 0 < |Flat(Contents(chunks))| <= nullRef
      requires var w := Flat(Contents(chunks));
        forall k | 0 <= k < |w| :: w[k] == if k + 1 < |w| then k + 1 else nullRef
      ensures Valid() && this.chunks == chunks && this.chunkCapacity == chunkCapacity && this.nullRef == nullRef
      ensures forall r :: r in free <==> 0 <= r < |Words()|
    {
      this.chunkCapacity, this.nullRef, this.chunks, this.chunkCount := chunkCapacity, nullRef, chunks, |chunks|;
      freeList := 0;
      free := seq(|Flat(Contents(chunks))|, k => k);
      new;
      CountingWordsAreList(Words(), nullRef);
    }
  }

  lemma SameTail(a: int, s: seq<int>, b: int, t: seq<int>)
    requires [a] + s == [b] + t
    ensures a == b && s == t
  {
    assert ([a] + s)[0] == a && ([a] + s)[1..] == s;
    assert ([b] + t)[0] == b && ([b] + t)[1..] == t;
  }

  lemma NotSound(words: seq<int>, head: int, seen: seq<int>, ref: int, nullRef: int)
    requires Walked(words, head, seen, ref, nullRef) && ref != nullRef && |words| <= nullRef
    requires ref in seen || !(0 <= ref < |words|)
    ensures !Sound(words, head, nullRef)
  {
    forall list ensures !IsList(words, head, list, nullRef) {
      BadRefNoList(words, head, seen, ref, nullRef, list);
    }
  }

  /** How many chunks hold at least `initialCapacity` slots. */
  function ChunkCount(initialCapacity: nat, chunkCapacity: nat): nat
    requires 0 < chunkCapacity
  {
    (initialCapacity + chunkCapacity - 1) / chunkCapacity
  }

  lemma CoversCapacity(initialCapacity: nat, chunkCapacity: nat)
    requires 0 < initialCapacity && 0 < chunkCapacity
    ensures 0 < ChunkCount(initialCapacity, chunkCapacity)
    ensures var capacity := ChunkCount(initialCapacity, chunkCapacity) * chunkCapacity;
      initialCapacity <= capacity < initialCapacity + chunkCapacity
  {
    QuotientBelow(initialCapacity + chunkCapacity - 1, 1, chunkCapacity);
  }

  ghost predicate Distinct(dir: seq<array<int>>) {
    forall c, d {:trigger dir[c], dir[d]} | 0 <= c < d < |dir| :: dir[c] != dir[d]
  }

  /** Linked chunk by chunk, every slot of the directory refers to the next one. */
  ghost predicate CountsUp(words: seq<int>) {
    forall k {:trigger words[k]} | 0 <= k < |words| :: words[k] == k + 1
  }

  method LinkChunk(chunk: array<int>, firstRef: nat)
    modifies chunk
    ensures forall i | 0 <= i < chunk.Length :: chunk[i] == firstRef + i + 1
  {
    var ref := firstRef;
    for i := 0 to chunk.Length
      invariant ref == firstRef + i && forall k | 0 <= k < i :: chunk[k] == firstRef + k + 1
    {
      ref := ref + 1;
      chunk[i] := ref;
    }
  }

  /** Chunks of the right size that count up as one. */
  ghost predicate LinkedChunks(cs: seq<seq<int>>, chunkCapacity: nat) {
    Uniform(cs, chunkCapacity) && CountsUp(Flat(cs))
  }

  lemma LinkedChunksPush(cs: seq<seq<int>>, chunk: seq<int>, chunkCapacity: nat)
    requires LinkedChunks(cs, chunkCapacity) && |chunk| == chunkCapacity
    requires forall i | 0 <= i < |chunk| :: chunk[i] == |cs| * chunkCapacity + i + 1
    ensures LinkedChunks(cs + [chunk], chunkCapacity)
  {
    FlatSize(cs, chunkCapacity);
    FlatPush(cs, chunk);
  }

  method CreateChunks(count: nat, chunkCapacity: nat) returns (dir: seq<array<int>>)
    requires 0 < chunkCapacity
    ensures |dir| == count && Distinct(dir)
    ensures forall c {:trigger dir[c]} | 0 <= c < count :: fresh(dir[c]) && dir[c].Length == chunkCapacity
    ensures LinkedChunks(Contents(dir), chunkCapacity)
  {
    dir := [];
    for c := 0 to count
      invariant |dir| == c && Distinct(dir)
      invariant forall d {:trigger dir[d]} | 0 <= d < c :: fresh(dir[d]) && dir[d].Length == chunkCapacity
      invariant LinkedChunks(Contents(dir), chunkCapacity)
    {
      ghost var cs := Contents(dir);
      var chunk := new int[chunkCapacity];
      LinkChunk(chunk, c * chunkCapacity);
      assert Contents(dir) == cs;
      LinkedChunksPush(cs, chunk[..], chunkCapacity);
      dir := dir + [chunk];
      assert Contents(dir) == cs + [chunk[..]];
    }
  }

  lemma EndList(before: seq<seq<int>>, after: seq<seq<int>>, chunkCapacity: nat, nullRef: nat)
    requires before != [] && Uniform(before, chunkCapacity) && CountsUp(Flat(before))
    requires after == before[|before| - 1 := before[|before| - 1][chunkCapacity - 1 := nullRef]]
    ensures Uniform(after, chunkCapacity) && |Flat(after)| == |before| * chunkCapacity
    ensures forall k | 0 <= k < |Flat(after)| :: Flat(after)[k] == if k + 1 < |Flat(after)| then k + 1 else nullRef
  {
    hide Flat;
    var last := |before| - 1;
    FlatSize(before, chunkCapacity);
    FlatWrite(before, chunkCapacity, last, chunkCapacity - 1, nullRef);
    TimesNext(last, chunkCapacity);
  }

  /** The source's constructor: chunks for at least the initial capacity, all slots free. */
  method Create(initialCapacity: int, chunkCapacity: nat, nullRef: nat) returns (r: Result<Allocator, PoolError>)
    requires 1 < chunkCapacity
    ensures r.Ok? <==> 0 < initialCapacity && ChunkCount(initialCapacity, chunkCapacity) * chunkCapacity <= nullRef
    ensures r.Ok? ==>
      && r.value.Valid() && fresh(r.value)
      && r.value.chunkCapacity == chunkCapacity && r.value.nullRef == nullRef
      && (forall c {:trigger r.value.chunks[c]} | 0 <= c < |r.value.chunks| :: fresh(r.value.chunks[c]))
      && initialCapacity <= |r.value.Words()| < initialCapacity + chunkCapacity
      && |r.value.Words()| == ChunkCount(initialCapacity, chunkCapacity) * chunkCapacity
      && (forall ref :: !r.value.Outstanding(ref))
  {
    if initialCapacity <= 0 {
      return Err(InvalidInput);
    }
    var count := ChunkCount(initialCapacity, chunkCapacity);
    if count * chunkCapacity > nullRef {
      return Err(PointerOverflow);
    }
    CoversCapacity(initialCapacity, chunkCapacity);
    var dir := CreateChunks(count, chunkCapacity);
    ghost var before := Contents(dir);
    dir[count - 1][chunkCapacity - 1] := nullRef;
    EndList(before, Contents(dir), chunkCapacity, nullRef);
    var a := new Allocator(chunkCapacity, nullRef, dir);
    return Ok(a);
  }

  /** The failing case is reachable: a slot of a new pool is free, and after its release the debug walk fails. */
  method ReleaseFromNewPool(initialCapacity: int, chunkCapacity: nat, nullRef: nat, ref: nat)
      returns (r: Result<bool, PoolError>)
    requires 1 < chunkCapacity
    ensures r.Ok? <==>
      && 0 < initialCapacity && ChunkCount(initialCapacity, chunkCapacity) * chunkCapacity <= nullRef
      && ref < ChunkCount(initialCapacity, chunkCapacity) * chunkCapacity
    ensures r.Ok? ==> !r.value
  {
    var created := Create(initialCapacity, chunkCapacity, nullRef);
    if created.Err? {
      return Err(created.error);
    }
    var pool := created.value;
    assert !pool.Outstanding(ref);
    var released := pool.Release(ref);
    if released.Err? {
      return Err(released.error);
    }
    var sound := pool.Check();
    return Ok(sound);
  }
}
