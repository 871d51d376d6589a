/**
 `stream_summary`: the Space-Saving sketch over bucket and item lists, a value map
 and a bucket free list. Intrusive lists are sequences of bucket and item numbers.
 */
module StreamSummary {
  import opened Wrappers
  import opened Collections
  import opened SpaceSaving
  import opened SummaryLists

  datatype SummaryError = NotPositive

  /** The monitored values with their counts, in order of allocation. */
  ghost function EntriesOf<T>(bs: seq<Bucket>, its: seq<Item<T>>, n: nat): (es: seq<Entry<T>>)
    requires n <= |its| && forall i {:trigger its[i]} | 0 <= i < n :: 0 <= its[i].parent < |bs|
    ensures |es| == n
    ensures forall i {:trigger es[i]} | 0 <= i < n :: es[i] == Entry(its[i].value, CountOf(bs, its, i), its[i].error)
  {
    seq(n, i requires 0 <= i < n => Entry(its[i].value, CountOf(bs, its, i), its[i].error))
  }

  /** The value map is a bijection onto the allocated items. */
  ghost predicate Mapped<T>(its: seq<Item<T>>, n: nat, itemMap: map<T, nat>) {
    && n <= |its|
    && (forall v {:trigger itemMap[v]} | v in itemMap :: itemMap[v] < n && its[itemMap[v]].value == v)
    && (forall i {:trigger its[i]} | 0 <= i < n :: its[i].value in itemMap && itemMap[its[i].value] == i)
  }

  lemma StructureParents<T>(bs: seq<Bucket>, its: seq<Item<T>>, order: seq<nat>, free: seq<nat>, n: nat)
    requires Structure(bs, its, order, free, n)
    ensures forall i {:trigger its[i]} | 0 <= i < n :: 0 <= its[i].parent < |bs|
  {
    forall i | 0 <= i < n ensures 0 <= its[i].parent < |bs| {
      assert Placed(bs, its, order, i);
    }
  }

  /** An incremented item shows as an entry with one more. */
  lemma IncrementedEntries<T>(bs: seq<Bucket>, its: seq<Item<T>>, bs': seq<Bucket>, its': seq<Item<T>>,
                              n: nat, item: nat)
    requires n <= |its| && item < n && Incremented(bs, its, bs', its', n, item)
    ensures forall i {:trigger its[i]} | 0 <= i < n :: 0 <= its[i].parent < |bs|
    ensures forall i {:trigger its'[i]} | 0 <= i < n :: 0 <= its'[i].parent < |bs'|
    ensures var es := EntriesOf(bs, its, n);
      EntriesOf(bs', its', n) == es[item := es[item].(count := es[item].count + 1)]
  {
    forall i | 0 <= i < n ensures 0 <= its[i].parent < |bs| {
      var e := its'[i];
    }
    var es, es' := EntriesOf(bs, its, n), EntriesOf(bs', its', n);
    forall i | 0 <= i < n ensures es'[i] == es[item := es[item].(count := es[item].count + 1)][i] {
      assert its'[i].value == its[i].value;
    }
  }

  /** When the parent of an item keeps other items, there is a free bucket left. */
  lemma SpareBucket<T>(bs: seq<Bucket>, its: seq<Item<T>>, order: seq<nat>, free: seq<nat>, n: nat, item: nat)
    requires Structure(bs, its, order, free, n) && item < n
    requires 0 <= its[item].parent < |bs| && Erase(bs[its[item].parent].items, item) != []
    ensures free != [] && free[0] < |bs|
  {
    assert Placed(bs, its, order, item) && Owns(bs, its, n, its[item].parent);
    var rest := Erase(bs[its[item].parent].items, item);
    EraseIs(bs[its[item].parent].items, item);
    assert rest[0] in rest;
    FewerBucketsThanItems(bs, its, order, free, n, item, rest[0]);
  }

  lemma NextDiffers(bs: seq<Bucket>, order: seq<nat>, free: seq<nat>, j: nat)
    requires Ordered(bs, order, free) && j + 1 < |order|
    ensures order[j] != order[j + 1]
  {
    OrderNoDup(bs, order, free);
  }

  /** The lists only depend on parents, not on values and errors. */
  lemma ParentsMatter<T>(bs: seq<Bucket>, its: seq<Item<T>>, its': seq<Item<T>>,
                         order: seq<nat>, free: seq<nat>, n: nat)
    requires Structure(bs, its, order, free, n) && |its'| == |its|
    requires forall i {:trigger its'[i]} | 0 <= i < |its| :: its'[i].parent == its[i].parent
    ensures Structure(bs, its', order, free, n)
  {
    forall i | 0 <= i < n ensures Placed(bs, its', order, i) {
      assert Placed(bs, its, order, i);
    }
    forall b | b in order ensures Owns(bs, its', n, b) {
      assert Owns(bs, its, n, b);
    }
  }

  /** Every bucket in use holds an item, so positive item counts make bucket counts positive. */
  lemma CountsPositive<T>(bs: seq<Bucket>, its: seq<Item<T>>, order: seq<nat>, free: seq<nat>, n: nat,
                          es: seq<Entry<T>>)
    requires Structure(bs, its, order, free, n) && |es| == n
    requires forall i {:trigger es[i]} | 0 <= i < n ::
      0 < es[i].count && 0 <= its[i].parent < |bs| && es[i].count == CountOf(bs, its, i)
    ensures forall k | 0 <= k < |order| :: order[k] < |bs| && 0 < bs[order[k]].count
  {
    forall k | 0 <= k < |order| ensures order[k] < |bs| && 0 < bs[order[k]].count {
      assert Owns(bs, its, n, order[k]);
      var i := bs[order[k]].items[0];
      assert i in bs[order[k]].items;
      assert 0 < es[i].count;
    }
  }

  lemma Remapped<T>(its: seq<Item<T>>, its': seq<Item<T>>, n: nat, itemMap: map<T, nat>, item: nat, value: T)
    requires Mapped(its, n, itemMap) && |its'| == |its| && item < n && value !in itemMap
    requires its'[item].value == value
    requires forall i {:trigger its'[i]} | 0 <= i < n && i != item :: its'[i].value == its[i].value
    ensures Mapped(its', n, (itemMap - {its[item].value})[value := item])
  {
  }

  lemma MappedAdd<T>(its: seq<Item<T>>, its': seq<Item<T>>, n: nat, itemMap: map<T, nat>, value: T)
    requires Mapped(its, n, itemMap) && |its'| == |its| && n < |its| && value !in itemMap
    requires its'[n].value == value
    requires forall i {:trigger its'[i]} | 0 <= i < n :: its'[i].value == its[i].value
    ensures Mapped(its', n + 1, itemMap[value := n])
  {
  }

  lemma MappedSame<T>(its: seq<Item<T>>, its': seq<Item<T>>, n: nat, itemMap: map<T, nat>)
    requires Mapped(its, n, itemMap) && |its'| == |its|
    requires forall i {:trigger its'[i]} | 0 <= i < n :: its'[i].value == its[i].value
    ensures Mapped(its', n, itemMap)
  {
  }

  lemma NotMapped<T>(bs: seq<Bucket>, its: seq<Item<T>>, n: nat, itemMap: map<T, nat>, value: T)
    requires Mapped(its, n, itemMap) && value !in itemMap
    requires forall i {:trigger its[i]} | 0 <= i < n :: 0 <= its[i].parent < |bs|
    ensures !Monitored(EntriesOf(bs, its, n), value)
  {
    var es := EntriesOf(bs, its, n);
    forall i | 0 <= i < |es| ensures es[i].value != value {
      assert its[i].value in itemMap;
    }
  }

  class Summary<T(==, !new, 0)> {
    const maxSize: nat
    var itemsAllocated: nat
    const bucketHolder: array<Bucket>
    const itemHolder: array<Item<T>>
    var buckets: seq<nat>
    var itemMap: map<T, nat>
    var freeList: seq<nat>
    ghost var stream: seq<T>  // every value consumed so far

    ghost predicate Linked()
      reads this, bucketHolder, itemHolder
    {
      && bucketHolder.Length == itemHolder.Length == maxSize
      && bucketHolder as object != itemHolder as object
      && Structure(bucketHolder[..], itemHolder[..], buckets, freeList, itemsAllocated)
    }

    ghost function Entries(): seq<Entry<T>>
      reads this, bucketHolder, itemHolder
      requires Linked()
    {
      StructureParents(bucketHolder[..], itemHolder[..], buckets, freeList, itemsAllocated);
      EntriesOf(bucketHolder[..], itemHolder[..], itemsAllocated)
    }

    ghost predicate Valid()
      reads this, bucketHolder, itemHolder
    {
      && 0 < maxSize && Linked() && Mapped(itemHolder[..], itemsAllocated, itemMap)
      && (forall i | itemsAllocated <= i < maxSize :: itemHolder[i].error == 0)
      && Summarizes(Entries(), stream, maxSize)
    }

    constructor (maxSize: nat)
      requires 0 < maxSize
      ensures Valid() && stream == [] && Entries() == [] && this.maxSize == maxSize
      ensures fresh(bucketHolder) && fresh(itemHolder)
    {
      this.maxSize := maxSize;
      itemsAllocated, buckets, itemMap, stream := 0, [], map[], [];
      bucketHolder := new Bucket[maxSize](_ => Bucket(0, []));
      var value: T := *;
      itemHolder := new Item<T>[maxSize](_ => Item(-1, 0, value));
      freeList := [];
      new;
      for b := 0 to maxSize
        invariant |freeList| == b && forall k | 0 <= k < b :: freeList[k] == k
        invariant itemsAllocated == 0 && buckets == [] && itemMap == map[] && stream == []
        invariant forall i | 0 <= i < maxSize :: bucketHolder[i] == Bucket(0, []) && itemHolder[i].error == 0
      {
        freeList := freeList + [b];
      }
    }

    /** The constructor as a caller sees it: a size that is not positive is refused. */
    static method Create(maxSize: int) returns (r: Result<Summary<T>, SummaryError>)
      ensures r.Ok? <==> 0 < maxSize
      ensures r.Ok? ==> r.value.Valid() && r.value.stream == [] && r.value.maxSize == maxSize
      ensures r.Ok? ==> fresh(r.value) && fresh(r.value.bucketHolder) && fresh(r.value.itemHolder)
    {
      if maxSize <= 0 {
        return Err(NotPositive);
      }
      var summary := new Summary<T>(maxSize);
      return Ok(summary);
    }

    /** Moves an item to the bucket for its count plus one. */
    method IncrementItemCount(item: nat)
      requires Linked() && item < itemsAllocated
      modifies bucketHolder, itemHolder, `buckets, `freeList
      ensures Linked()
      ensures Incremented(old(bucketHolder[..]), old(itemHolder[..]), bucketHolder[..], itemHolder[..],
                          itemsAllocated, item)
      ensures forall i | 0 <= i < maxSize && i != item :: itemHolder[i] == old(itemHolder[i])
    {
      assert Placed(bucketHolder[..], itemHolder[..], buckets, item);
      var parent := itemHolder[item].parent;
      var itemCount := bucketHolder[parent].count + 1;
      var j := IndexOf(buckets, parent);
      if j + 1 == |buckets| || bucketHolder[buckets[j + 1]].count != itemCount {
        if Erase(bucketHolder[parent].items, item) != [] {
          ToNewBucket(item, j);
        } else {
          ToSameBucket(item, j);
        }
      } else {
        ToNextBucket(item, j);
      }
    }

    /** The parent keeps other items: a bucket from the free list takes the item. */
    method ToNewBucket(item: nat, j: nat)
      requires Linked() && item < itemsAllocated && j < |buckets| && buckets[j] == itemHolder[item].parent
      requires buckets[j] < maxSize && Erase(bucketHolder[buckets[j]].items, item) != []
      requires j + 1 < |buckets| ==>
        buckets[j + 1] < maxSize && bucketHolder[buckets[j + 1]].count != bucketHolder[buckets[j]].count + 1
      modifies bucketHolder, itemHolder, `buckets, `freeList
      ensures Linked()
      ensures Incremented(old(bucketHolder[..]), old(itemHolder[..]), bucketHolder[..], itemHolder[..],
                          itemsAllocated, item)
      ensures forall i | 0 <= i < maxSize && i != item :: itemHolder[i] == old(itemHolder[i])
    {
      ghost var bs, its := bucketHolder[..], itemHolder[..];
      var parent := buckets[j];
      var itemCount, rest := bucketHolder[parent].count + 1, Erase(bucketHolder[parent].items, item);
      SpareBucket(bs, its, buckets, freeList, itemsAllocated, item);
      MoveToNewBucket(bs, its, buckets, freeList, itemsAllocated, item, j);
      var newParent := freeList[0];
      bucketHolder[parent] := Bucket(bucketHolder[parent].count, rest);
      bucketHolder[newParent] := Bucket(itemCount, [item]);
      itemHolder[item] := Item(newParent, itemHolder[item].error, itemHolder[item].value);
      freeList, buckets := freeList[1..], Inserted(buckets, j + 1, newParent);
      assert bucketHolder[..] == bs[parent := Bucket(itemCount - 1, rest)][newParent := Bucket(itemCount, [item])];
      assert itemHolder[..] == its[item := Item(newParent, its[item].error, its[item].value)];
    }

    /** The item was alone: its bucket takes the new count and keeps its place. */
    method ToSameBucket(item: nat, j: nat)
      requires Linked() && item < itemsAllocated && j < |buckets| && buckets[j] == itemHolder[item].parent
      requires buckets[j] < maxSize && Erase(bucketHolder[buckets[j]].items, item) == []
      requires j + 1 < |buckets| ==>
        buckets[j + 1] < maxSize && bucketHolder[buckets[j + 1]].count != bucketHolder[buckets[j]].count + 1
      modifies bucketHolder
      ensures Linked()
      ensures Incremented(old(bucketHolder[..]), itemHolder[..], bucketHolder[..], itemHolder[..], itemsAllocated, item)
    {
      ghost var bs := bucketHolder[..];
      var parent := buckets[j];
      var itemCount := bucketHolder[parent].count + 1;
      ReuseBucket(bs, itemHolder[..], buckets, freeList, itemsAllocated, item, j);
      bucketHolder[parent] := Bucket(itemCount, [item]);
      assert bucketHolder[..] == bs[parent := Bucket(itemCount, [item])];
    }

    /** The next bucket has the new count; an emptied parent goes to the free list. */
    method ToNextBucket(item: nat, j: nat)
      requires Linked() && item < itemsAllocated && j + 1 < |buckets| && buckets[j] == itemHolder[item].parent
      requires buckets[j] < maxSize && buckets[j + 1] < maxSize
      requires bucketHolder[buckets[j + 1]].count == bucketHolder[buckets[j]].count + 1
      modifies bucketHolder, itemHolder, `buckets, `freeList
      ensures Linked()
      ensures Incremented(old(bucketHolder[..]), old(itemHolder[..]), bucketHolder[..], itemHolder[..],
                          itemsAllocated, item)
      ensures forall i | 0 <= i < maxSize && i != item :: itemHolder[i] == old(itemHolder[i])
    {
      ghost var bs, its := bucketHolder[..], itemHolder[..];
      var parent, next := buckets[j], buckets[j + 1];
      var rest := Erase(bucketHolder[parent].items, item);
      MoveToNext(bs, its, buckets, freeList, itemsAllocated, item, j);
      bucketHolder[parent] := Bucket(bucketHolder[parent].count, rest);
      bucketHolder[next] := Bucket(bucketHolder[next].count, bucketHolder[next].items + [item]);
      itemHolder[item] := Item(next, itemHolder[item].error, itemHolder[item].value);
      NextDiffers(bs, buckets, freeList, j);
      assert bucketHolder[..]
          == bs[parent := Bucket(bs[parent].count, rest)][next := Bucket(bs[next].count, bs[next].items + [item])];
      assert itemHolder[..] == its[item := Item(next, its[item].error, its[item].value)];
      if rest == [] {
        buckets, freeList := Removed(buckets, j), [parent] + freeList;
      }
    }

    /** A full summary: the last item of the first bucket is given over to the new value. */
    method ReplaceMin(value: T) returns (item: nat)
      requires Valid() && itemsAllocated == maxSize && 0 < maxSize && value !in itemMap
      modifies bucketHolder, itemHolder, `buckets, `freeList, `itemMap
      ensures Linked() && Mapped(itemHolder[..], itemsAllocated, itemMap)
      ensures IsMin(old(Entries()), item)
      ensures Entries() ==
        old(Entries())[item := Entry(value, old(Entries())[item].count + 1, old(Entries())[item].count)]
    {
      ghost var bs, its := bucketHolder[..], itemHolder[..];
      item := FirstMinItem();
      var bmin := buckets[0];
      itemMap := itemMap - {itemHolder[item].value};
      itemHolder[item] := Item(itemHolder[item].parent, bucketHolder[bmin].count, value);
      assert itemHolder[..] == its[item := Item(its[item].parent, bs[bmin].count, value)];
      ParentsMatter(bs, its, itemHolder[..], buckets, freeList, itemsAllocated);
      ghost var its1 := itemHolder[..];
      ghost var es1 := Entries();
      IncrementItemCount(item);
      IncrementedEntries(bs, its1, bucketHolder[..], itemHolder[..], itemsAllocated, item);
      itemMap := itemMap[value := item];
      Remapped(its, itemHolder[..], itemsAllocated, old(itemMap), item, value);
    }

    /** The last item of the bucket with the least count. */
    method FirstMinItem() returns (item: nat)
      requires Linked() && 0 < itemsAllocated
      ensures buckets != [] && buckets[0] < maxSize
      ensures item < itemsAllocated && itemHolder[item].parent == buckets[0]
      ensures var items := bucketHolder[buckets[0]].items; items != [] && item == items[|items| - 1]
      ensures IsMin(Entries(), item)
    {
      ghost var bs, its := bucketHolder[..], itemHolder[..];
      FrontIsMin(bs, its, buckets, freeList, itemsAllocated, 0);
      assert Owns(bs, its, itemsAllocated, buckets[0]);
      var items := bucketHolder[buckets[0]].items;
      item := items[|items| - 1];
      assert item in items;
      forall j | 0 <= j < |Entries()| ensures Entries()[item].count <= Entries()[j].count {
        FrontIsMin(bs, its, buckets, freeList, itemsAllocated, j);
      }
    }

    /** A new monitored value: an unused item starts in a bucket of count 0, which is then incremented. */
    method AddValue(value: T)
      requires Valid() && itemsAllocated < maxSize && value !in itemMap
      modifies bucketHolder, itemHolder, `buckets, `freeList, `itemMap, `itemsAllocated
      ensures Linked() && Mapped(itemHolder[..], itemsAllocated, itemMap)
      ensures itemsAllocated == old(itemsAllocated) + 1
      ensures Entries() == old(Entries()) + [Entry(value, 1, 0)]
      ensures forall i | itemsAllocated <= i < maxSize :: itemHolder[i].error == 0
    {
      hide Summarizes;
      var item := itemsAllocated;
      StartItem(value);
      ghost var bs1, its1 := bucketHolder[..], itemHolder[..];
      IncrementItemCount(item);
      IncrementedEntries(bs1, its1, bucketHolder[..], itemHolder[..], itemsAllocated, item);
      itemMap := itemMap[value := item];
      MappedAdd(old(itemHolder[..]), itemHolder[..], item, old(itemMap), value);
    }

    method StartItem(value: T)
      requires Valid() && itemsAllocated < maxSize
      modifies bucketHolder, itemHolder, `buckets, `freeList, `itemsAllocated
      ensures Linked() && itemsAllocated == old(itemsAllocated) + 1
      ensures Entries() == old(Entries()) + [Entry(value, 0, 0)]
      ensures forall i | 0 <= i < maxSize && i != old(itemsAllocated) :: itemHolder[i] == old(itemHolder[i])
      ensures itemHolder[old(itemsAllocated)].value == value
    {
      ghost var bs, its := bucketHolder[..], itemHolder[..];
      ghost var es := Entries();
      var item := itemsAllocated;
      StructureParents(bs, its, buckets, freeList, itemsAllocated);
      CountsPositive(bs, its, buckets, freeList, itemsAllocated, es);
      AddItem(bs, its, buckets, freeList, itemsAllocated, value);
      itemsAllocated := itemsAllocated + 1;
      var parent := freeList[0];
      freeList := freeList[1..];
      bucketHolder[parent] := Bucket(0, [item]);
      itemHolder[item] := Item(parent, itemHolder[item].error, value);
      buckets := [parent] + buckets;
      assert bucketHolder[..] == bs[parent := Bucket(0, [item])];
      assert itemHolder[..] == its[item := Item(parent, its[item].error, value)];
      forall i | 0 <= i < item ensures Entries()[i] == es[i] {
        assert itemHolder[..][i] == its[i];
      }
    }

    method CountMonitored(item: nat)
      requires Valid() && item < itemsAllocated
      modifies bucketHolder, itemHolder, `buckets, `freeList
      ensures Linked() && Mapped(itemHolder[..], itemsAllocated, itemMap)
      ensures Entries() == old(Entries())[item := old(Entries())[item].(count := old(Entries())[item].count + 1)]
      ensures forall i | itemsAllocated <= i < maxSize :: itemHolder[i].error == 0
    {
      ghost var bs, its := bucketHolder[..], itemHolder[..];
      IncrementItemCount(item);
      IncrementedEntries(bs, its, bucketHolder[..], itemHolder[..], itemsAllocated, item);
      MappedSame(its, itemHolder[..], itemsAllocated, itemMap);
    }

    /** One value of the stream; `i` is the entry it lands in. */
    method UpdateWithValue(value: T) returns (ghost i: int)
      requires Valid()
      modifies this, bucketHolder, itemHolder
      ensures Valid() && stream == old(stream) + [value]
      ensures Updated(old(Entries()), maxSize, value, i, Entries())
    {
      ghost var es := Entries();
      i := Touch(value);
      UpdateKeeps(es, stream, maxSize, value, i, Entries());
      stream := stream + [value];
    }

    method Touch(value: T) returns (ghost i: int)
      requires Valid()
      modifies bucketHolder, itemHolder, `buckets, `freeList, `itemMap, `itemsAllocated
      ensures Linked() && Mapped(itemHolder[..], itemsAllocated, itemMap)
      ensures forall k | itemsAllocated <= k < maxSize :: itemHolder[k].error == 0
      ensures Updated(old(Entries()), maxSize, value, i, Entries())
    {
      StructureParents(bucketHolder[..], itemHolder[..], buckets, freeList, itemsAllocated);
      if value in itemMap {
        i := itemMap[value];
        CountMonitored(itemMap[value]);
      } else {
        NotMapped(bucketHolder[..], itemHolder[..], itemsAllocated, itemMap, value);
        if itemsAllocated == maxSize {
          i := ReplaceMin(value);
        } else {
          i := itemsAllocated;
          AddValue(value);
        }
      }
    }

    /** Consumes a run of values. */
    method Update(values: seq<T>)
      requires Valid()
      modifies this, bucketHolder, itemHolder
      ensures Valid() && stream == old(stream) + values
    {
      hide Summarizes, Mapped, Structure;
      for i := 0 to |values|
        invariant Valid() && stream == old(stream) + values[..i]
      {
        ghost var e := UpdateWithValue(values[i]);
        assert values[..i + 1] == values[..i] + [values[i]];
      }
      assert values[..|values|] == values;
    }

    /** `size()`: how many values are monitored. */
    method Size() returns (n: nat)
      requires Valid()
      ensures n == |Entries()| == |itemMap| <= maxSize
    {
      MapSize(itemHolder[..], itemsAllocated, itemMap);
      n := itemsAllocated;
    }

    /** Iteration from `begin()` to `end()`: reverse over buckets, reverse over their items. */
    method Traverse() returns (visited: seq<nat>)
      requires Valid()
      ensures |visited| == |Entries()| && NoDup(visited)
      ensures forall i: nat :: i in visited <==> i < |Entries()|
      ensures forall j | 0 <= j < |visited| :: visited[j] < |Entries()|
      ensures forall j, k | 0 <= j < k < |visited| :: Entries()[visited[j]].count >= Entries()[visited[k]].count
    {
      visited := [];
      ghost var bs, its := bucketHolder[..], itemHolder[..];
      StructureParents(bs, its, buckets, freeList, itemsAllocated);
      var b := |buckets|;
      while b > 0
        invariant 0 <= b <= |buckets|
        invariant VisitedFrom(bs, its, buckets, itemsAllocated, b, visited)
      {
        b := b - 1;
        VisitBucket(bs, its, buckets, freeList, itemsAllocated, b, visited);
        visited := visited + Reversed(bucketHolder[buckets[b]].items);
      }
      VisitedAllItems(bs, its, buckets, freeList, itemsAllocated, visited);
    }
  }

  /** A list walked from its last node to its first. */
  function Reversed(s: seq<nat>): seq<nat> {
    if s == [] then [] else Reversed(s[1..]) + [s[0]]
  }

  lemma {:induction false} ReversedIs(s: seq<nat>)
    ensures |Reversed(s)| == |s|
    ensures forall k | 0 <= k < |s| :: Reversed(s)[k] == s[|s| - 1 - k]
  {
    if s != [] {
      ReversedIs(s[1..]);
    }
  }

  /** Exactly the items of the buckets from position `b` on were visited, in order of falling counts. */
  ghost predicate VisitedFrom<T>(bs: seq<Bucket>, its: seq<Item<T>>, order: seq<nat>, n: nat, b: nat, visited: seq<nat>)
    requires n <= |its| && forall i {:trigger its[i]} | 0 <= i < n :: 0 <= its[i].parent < |bs|
  {
    && b <= |order| && NoDup(visited)
    && (forall i: nat {:trigger i in visited} :: i in visited <==> i < n && its[i].parent in order[b..])
    && (forall j {:trigger visited[j]} | 0 <= j < |visited| :: visited[j] < n)
    && forall j, k {:trigger visited[j], visited[k]} | 0 <= j < k < |visited| ::
         CountOf(bs, its, visited[j]) >= CountOf(bs, its, visited[k])
  }

  lemma VisitBucket<T>(bs: seq<Bucket>, its: seq<Item<T>>, order: seq<nat>, free: seq<nat>, n: nat, b: nat,
                       visited: seq<nat>)
    requires Structure(bs, its, order, free, n) && b < |order|
    requires forall i {:trigger its[i]} | 0 <= i < n :: 0 <= its[i].parent < |bs|
    requires VisitedFrom(bs, its, order, n, b + 1, visited)
    ensures order[b] < |bs|
    ensures VisitedFrom(bs, its, order, n, b, visited + Reversed(bs[order[b]].items))
  {
    var p := order[b];
    var items := Reversed(bs[p].items);
    var visited' := visited + items;
    assert Owns(bs, its, n, p);
    ReversedIs(bs[p].items);
    OrderNoDup(bs, order, free);
    assert order[b..] == [p] + order[b + 1..];
    assert forall k | 0 <= k < |items| :: items[k] in bs[p].items;
    forall i: nat ensures i in bs[p].items <==> i in items {
      if i in bs[p].items {
        var k := IndexOf(bs[p].items, i);
        assert items[|items| - 1 - k] == i;
      }
    }
    forall i: nat ensures i in visited' <==> i < n && its[i].parent in order[b..] {
      if i < n && its[i].parent == p { assert Placed(bs, its, order, i); }
    }
    forall j, k | 0 <= j < k < |visited'|
      ensures visited'[j] != visited'[k] && CountOf(bs, its, visited'[j]) >= CountOf(bs, its, visited'[k])
    {
      if j < |visited| <= k {
        assert visited[j] in visited;
        LaterBucketIsLarger(bs, its, order, free, b, visited[j]);
      }
    }
  }

  lemma LaterBucketIsLarger<T>(bs: seq<Bucket>, its: seq<Item<T>>, order: seq<nat>, free: seq<nat>, b: nat, i: nat)
    requires Ordered(bs, order, free) && b < |order| && i < |its| && 0 <= its[i].parent < |bs|
    requires its[i].parent in order[b + 1..]
    ensures its[i].parent != order[b] && order[b] < |bs| && bs[order[b]].count <= CountOf(bs, its, i)
  {
    var k := IndexOf(order[b + 1..], its[i].parent);
    var cs := Counts(bs, order);
    assert cs[b] < cs[b + 1 + k];
  }

  lemma VisitedAllItems<T>(bs: seq<Bucket>, its: seq<Item<T>>, order: seq<nat>, free: seq<nat>, n: nat,
                           visited: seq<nat>)
    requires Structure(bs, its, order, free, n)
    requires forall i {:trigger its[i]} | 0 <= i < n :: 0 <= its[i].parent < |bs|
    requires VisitedFrom(bs, its, order, n, 0, visited)
    ensures |visited| == n && forall i: nat :: i in visited <==> i < n
  {
    assert order[0..] == order;
    forall i: nat ensures i in visited <==> i < n {
      if i < n { assert Placed(bs, its, order, i); }
    }
    DistinctSize(visited, Below(n));
  }

  lemma MapSize<T>(its: seq<Item<T>>, n: nat, itemMap: map<T, nat>)
    requires Mapped(its, n, itemMap)
    ensures |itemMap| == n
  {
    var values := seq(n, i requires 0 <= i < n => its[i].value);
    forall v ensures v in itemMap.Keys <==> v in values {
      if v in itemMap { assert values[itemMap[v]] == v; }
    }
    DistinctSize(values, itemMap.Keys);
  }
}
