/**
 The bucket and item lists of `stream_summary`: buckets in order of increasing
 count, each with a list of the items that have that count, and a free list of
 unused buckets. The intrusive lists are sequences of bucket and item numbers.
 */
module SummaryLists {
  import opened Collections

  datatype Bucket = Bucket(count: int, items: seq<nat>)

  datatype Item<T> = Item(parent: int, error: int, value: T)

  /** The count of an item is that of its parent bucket. */
  function CountOf<T>(bs: seq<Bucket>, its: seq<Item<T>>, i: int): int
    requires 0 <= i < |its| && 0 <= its[i].parent < |bs|
  {
    bs[its[i].parent].count
  }

  ghost predicate InUse(bs: seq<Bucket>, order: seq<nat>, b: int) {
    b in order && 0 <= b < |bs|
  }

  ghost predicate Increasing(cs: seq<int>) {
    forall j, k {:trigger cs[j], cs[k]} | 0 <= j < k < |cs| :: cs[j] < cs[k]
  }

  /** The counts along the bucket list. */
  ghost function Counts(bs: seq<Bucket>, order: seq<nat>): (cs: seq<int>)
    requires forall j {:trigger order[j]} | 0 <= j < |order| :: order[j] < |bs|
    ensures |cs| == |order| && forall j {:trigger cs[j]} | 0 <= j < |cs| :: cs[j] == bs[order[j]].count
  {
    seq(|order|, j requires 0 <= j < |order| => bs[order[j]].count)
  }

  lemma InsertIncreasing(cs: seq<int>, j: nat, x: int)
    requires Increasing(cs) && j <= |cs|
    requires (j > 0 ==> cs[j - 1] < x) && (j < |cs| ==> x < cs[j])
    ensures Increasing(cs[..j] + [x] + cs[j..])
  {
  }

  lemma RemoveIncreasing(cs: seq<int>, j: nat)
    requires Increasing(cs) && j < |cs|
    ensures Increasing(cs[..j] + cs[j + 1..])
  {
  }

  lemma RaiseIncreasing(cs: seq<int>, j: nat, x: int)
    requires Increasing(cs) && j < |cs|
    requires cs[j] <= x && (j + 1 < |cs| ==> x < cs[j + 1])
    ensures Increasing(cs[j := x])
  {
  }

  /** The bucket list is in order of strictly increasing counts; free buckets are not on it. */
  ghost predicate Ordered(bs: seq<Bucket>, order: seq<nat>, free: seq<nat>) {
    && |order| + |free| == |bs|
    && (forall j {:trigger order[j]} | 0 <= j < |order| :: order[j] < |bs|)
    && Increasing(Counts(bs, order))
    && NoDup(free)
    && (forall k {:trigger free[k]} | 0 <= k < |free| :: free[k] < |bs| && free[k] !in order && bs[free[k]].items == [])
  }

  /** Item `i` is on the list of its parent, which is in use. */
  ghost predicate Placed<T>(bs: seq<Bucket>, its: seq<Item<T>>, order: seq<nat>, i: int) {
    0 <= i < |its| && InUse(bs, order, its[i].parent) && i in bs[its[i].parent].items
  }

  /** Bucket `b` lists, once each, allocated items whose parent it is; and is not empty. */
  ghost predicate Owns<T>(bs: seq<Bucket>, its: seq<Item<T>>, n: nat, b: int) {
    && 0 <= b < |bs| && bs[b].items != [] && NoDup(bs[b].items)
    && forall i {:trigger i in bs[b].items} | i in bs[b].items :: i < n && i < |its| && its[i].parent == b
  }

  ghost predicate Structure<T>(bs: seq<Bucket>, its: seq<Item<T>>, order: seq<nat>, free: seq<nat>, n: nat) {
    && n <= |its| == |bs|
    && Ordered(bs, order, free)
    && (forall i {:trigger Placed(bs, its, order, i)} | 0 <= i < n :: Placed(bs, its, order, i))
    && (forall b {:trigger Owns(bs, its, n, b)} | b in order :: Owns(bs, its, n, b))
  }

  lemma OrderNoDup(bs: seq<Bucket>, order: seq<nat>, free: seq<nat>)
    requires Ordered(bs, order, free)
    ensures NoDup(order)
  {
    var cs := Counts(bs, order);
    forall j, k | 0 <= j < k < |order| ensures order[j] != order[k] {
      assert cs[j] < cs[k];
    }
  }

  /** Distinct buckets have distinct first items, so there are no more buckets than items. */
  lemma BucketsAtMostItems<T>(bs: seq<Bucket>, its: seq<Item<T>>, order: seq<nat>, free: seq<nat>, n: nat)
    requires Structure(bs, its, order, free, n)
    ensures |order| <= n
  {
    var reps := seq(|order|, j requires 0 <= j < |order| => assert Owns(bs, its, n, order[j]); bs[order[j]].items[0]);
    forall j | 0 <= j < |order| ensures reps[j] in Below(n) && its[reps[j]].parent == order[j] {
      assert Owns(bs, its, n, order[j]);
      assert bs[order[j]].items[0] in bs[order[j]].items;
    }
    OrderNoDup(bs, order, free);
    Pigeonhole(reps, Below(n));
  }

  /** A bucket with two items leaves one item to spare. */
  lemma FewerBucketsThanItems<T>(bs: seq<Bucket>, its: seq<Item<T>>, order: seq<nat>, free: seq<nat>, n: nat,
                                 item: nat, other: nat)
    requires Structure(bs, its, order, free, n)
    requires item < n && other < n && item != other && its[item].parent == its[other].parent
    ensures |order| < n
  {
    var p := its[item].parent;
    var reps := seq(|order|, j requires 0 <= j < |order| =>
      assert Owns(bs, its, n, order[j]);
      if order[j] == p then other else bs[order[j]].items[0]);
    var a := Below(n) - {item};
    forall j | 0 <= j < |order| ensures reps[j] in a && its[reps[j]].parent == order[j] {
      assert Owns(bs, its, n, order[j]);
      assert bs[order[j]].items[0] in bs[order[j]].items;
    }
    OrderNoDup(bs, order, free);
    Pigeonhole(reps, a);
    assert item in Below(n);
  }

  // ---- the three ways an item moves to the bucket for its incremented count ----

  /** Counts of items below `n` before and after: only `item`'s is one more. */
  ghost predicate Incremented<T>(bs: seq<Bucket>, its: seq<Item<T>>, bs': seq<Bucket>, its': seq<Item<T>>,
                                 n: nat, item: nat) {
    && |its'| == |its|
    && forall i {:trigger its'[i]} | 0 <= i < n && i < |its| ::
         && its'[i].value == its[i].value && its'[i].error == its[i].error
         && 0 <= its[i].parent < |bs| && 0 <= its'[i].parent < |bs'|
         && CountOf(bs', its', i) == CountOf(bs, its, i) + if i == item then 1 else 0
  }

  function Inserted(order: seq<nat>, j: nat, b: nat): seq<nat>
    requires j <= |order|
  {
    order[..j] + [b] + order[j..]
  }

  function Removed(order: seq<nat>, j: nat): seq<nat>
    requires j < |order|
  {
    order[..j] + order[j + 1..]
  }

  lemma InsertedIn(order: seq<nat>, j: nat, b: nat)
    requires j <= |order|
    ensures forall x :: x in Inserted(order, j, b) <==> x in order || x == b
  {
    assert order == order[..j] + order[j..];
  }

  lemma RemovedIn(order: seq<nat>, j: nat)
    requires j < |order| && NoDup(order)
    ensures forall x :: x in Removed(order, j) <==> x in order && x != order[j]
  {
    assert order == order[..j] + [order[j]] + order[j + 1..];
  }

  /** Case 1: other items stay behind and no bucket has the new count: a free bucket goes in after the parent. */
  lemma MoveToNewBucket<T>(bs: seq<Bucket>, its: seq<Item<T>>, order: seq<nat>, free: seq<nat>, n: nat,
                           item: nat, j: nat)
    requires Structure(bs, its, order, free, n) && item < n && j < |order| && order[j] == its[item].parent
    requires Erase(bs[order[j]].items, item) != [] && free != []
    requires j + 1 < |order| ==> bs[order[j + 1]].count != bs[order[j]].count + 1
    ensures var p, b := order[j], free[0];
      var bs' := bs[p := Bucket(bs[p].count, Erase(bs[p].items, item))][b := Bucket(bs[p].count + 1, [item])];
      var its' := its[item := Item(b, its[item].error, its[item].value)];
      Structure(bs', its', Inserted(order, j + 1, b), free[1..], n) && Incremented(bs, its, bs', its', n, item)
  {
    var p, b := order[j], free[0];
    var bs' := bs[p := Bucket(bs[p].count, Erase(bs[p].items, item))][b := Bucket(bs[p].count + 1, [item])];
    var its' := its[item := Item(b, its[item].error, its[item].value)];
    var order' := Inserted(order, j + 1, b);
    assert Placed(bs, its, order, item) && Owns(bs, its, n, p);
    EraseIs(bs[p].items, item);
    InsertedIn(order, j + 1, b);
    InsertedOrdered(bs, order, free, j, bs');
    forall i | 0 <= i < n ensures Placed(bs', its', order', i) {
      assert Placed(bs, its, order, i);
    }
    forall c | c in order' ensures Owns(bs', its', n, c) {
      assert c != b ==> Owns(bs, its, n, c);
    }
    forall i | 0 <= i < n ensures 0 <= its[i].parent < |bs| && 0 <= its'[i].parent < |bs'|
      && CountOf(bs', its', i) == CountOf(bs, its, i) + if i == item then 1 else 0 {
      assert Placed(bs, its, order, i);
    }
  }

  lemma InsertedOrdered(bs: seq<Bucket>, order: seq<nat>, free: seq<nat>, j: nat, bs': seq<Bucket>)
    requires Ordered(bs, order, free) && j < |order| && free != [] && free[0] < |bs'|
    requires j + 1 < |order| ==> bs[order[j + 1]].count != bs[order[j]].count + 1
    requires |bs'| == |bs| && bs'[free[0]].count == bs[order[j]].count + 1
    requires forall c | 0 <= c < |bs| && c != free[0] :: bs'[c].count == bs[c].count
    requires forall c | 0 <= c < |bs| && c != free[0] && c != order[j] :: bs'[c] == bs[c]
    ensures Ordered(bs', Inserted(order, j + 1, free[0]), free[1..])
  {
    var b, order' := free[0], Inserted(order, j + 1, free[0]);
    var cs, x := Counts(bs, order), bs[order[j]].count + 1;
    InsertedIn(order, j + 1, b);
    assert j + 1 < |order| ==> cs[j] < cs[j + 1];
    InsertIncreasing(cs, j + 1, x);
    forall k | 0 <= k < |order'|
      ensures order'[k] < |bs'| && bs'[order'[k]].count == (cs[..j + 1] + [x] + cs[j + 1..])[k]
    {
      assert order'[k] == if k <= j then order[k] else if k == j + 1 then b else order[k - 1];
    }
    assert Counts(bs', order') == cs[..j + 1] + [x] + cs[j + 1..];
    forall k | 0 <= k < |free[1..]|
      ensures free[1..][k] < |bs'| && free[1..][k] !in order' && bs'[free[1..][k]].items == []
    {
      assert free[1..][k] == free[k + 1] && free[k + 1] != free[0];
    }
  }

  /** Case 2: the item was alone and no bucket has the new count: its bucket is re-used in place. */
  lemma ReuseBucket<T>(bs: seq<Bucket>, its: seq<Item<T>>, order: seq<nat>, free: seq<nat>, n: nat, item: nat, j: nat)
    requires Structure(bs, its, order, free, n) && item < n && j < |order| && order[j] == its[item].parent
    requires Erase(bs[order[j]].items, item) == []
    requires j + 1 < |order| ==> bs[order[j + 1]].count != bs[order[j]].count + 1
    ensures var p := order[j];
      var bs' := bs[p := Bucket(bs[p].count + 1, [item])];
      Structure(bs', its, order, free, n) && Incremented(bs, its, bs', its, n, item)
  {
    var p := order[j];
    var bs' := bs[p := Bucket(bs[p].count + 1, [item])];
    assert Placed(bs, its, order, item) && Owns(bs, its, n, p);
    EraseIs(bs[p].items, item);
    assert forall i | i in bs[p].items :: i == item;
    OrderNoDup(bs, order, free);
    var cs := Counts(bs, order);
    assert j + 1 < |order| ==> cs[j] < cs[j + 1];
    RaiseIncreasing(cs, j, cs[j] + 1);
    assert Counts(bs', order) == cs[j := cs[j] + 1];
    forall i | 0 <= i < n ensures Placed(bs', its, order, i) {
      assert Placed(bs, its, order, i);
    }
    forall c | c in order ensures Owns(bs', its, n, c) {
      assert Owns(bs, its, n, c);
    }
    forall i | 0 <= i < n ensures 0 <= its[i].parent < |bs|
      && CountOf(bs', its, i) == CountOf(bs, its, i) + if i == item then 1 else 0 {
      assert Placed(bs, its, order, i);
    }
  }

  /** Case 3: the next bucket has the new count. Its list takes the item. */
  lemma MoveToNext<T>(bs: seq<Bucket>, its: seq<Item<T>>, order: seq<nat>, free: seq<nat>, n: nat, item: nat, j: nat)
    requires Structure(bs, its, order, free, n) && item < n && j + 1 < |order| && order[j] == its[item].parent
    requires order[j + 1] < |bs| && bs[order[j + 1]].count == bs[order[j]].count + 1
    ensures var p, q := order[j], order[j + 1];
      var rest := Erase(bs[p].items, item);
      var bs' := bs[p := Bucket(bs[p].count, rest)][q := Bucket(bs[q].count, bs[q].items + [item])];
      var its' := its[item := Item(q, its[item].error, its[item].value)];
      && (rest != [] ==> Structure(bs', its', order, free, n))
      && (rest == [] ==> Structure(bs', its', Removed(order, j), [p] + free, n))
      && Incremented(bs, its, bs', its', n, item)
  {
    var p, q := order[j], order[j + 1];
    var rest := Erase(bs[p].items, item);
    var bs' := bs[p := Bucket(bs[p].count, rest)][q := Bucket(bs[q].count, bs[q].items + [item])];
    var its' := its[item := Item(q, its[item].error, its[item].value)];
    assert Placed(bs, its, order, item) && Owns(bs, its, n, p) && Owns(bs, its, n, q);
    OrderNoDup(bs, order, free);
    MergedOrdered(bs, order, free, j, bs');
    if rest != [] {
      MergedPlaces(bs, its, order, free, n, item, j, order);
    } else {
      RemovedIn(order, j);
      MergedPlaces(bs, its, order, free, n, item, j, Removed(order, j));
    }
    forall i | 0 <= i < n ensures 0 <= its[i].parent < |bs| && 0 <= its'[i].parent < |bs'|
      && CountOf(bs', its', i) == CountOf(bs, its, i) + if i == item then 1 else 0 {
      assert Placed(bs, its, order, i);
    }
  }

  lemma MergedPlaces<T>(bs: seq<Bucket>, its: seq<Item<T>>, order: seq<nat>, free: seq<nat>, n: nat, item: nat, j: nat,
                        order': seq<nat>)
    requires Structure(bs, its, order, free, n) && item < n && j + 1 < |order| && order[j] == its[item].parent
    requires order[j] < |bs| && order[j + 1] < |bs| && order[j] != order[j + 1]
    requires forall x :: x in order' <==> x in order && (x == order[j] ==> Erase(bs[order[j]].items, item) != [])
    ensures var p, q := order[j], order[j + 1];
      var bs' := bs[p := Bucket(bs[p].count, Erase(bs[p].items, item))][q := Bucket(bs[q].count, bs[q].items + [item])];
      var its' := its[item := Item(q, its[item].error, its[item].value)];
      && (forall i {:trigger Placed(bs', its', order', i)} | 0 <= i < n :: Placed(bs', its', order', i))
      && (forall b {:trigger Owns(bs', its', n, b)} | b in order' :: Owns(bs', its', n, b))
  {
    var p, q := order[j], order[j + 1];
    var rest := Erase(bs[p].items, item);
    var bs' := bs[p := Bucket(bs[p].count, rest)][q := Bucket(bs[q].count, bs[q].items + [item])];
    var its' := its[item := Item(q, its[item].error, its[item].value)];
    assert Placed(bs, its, order, item) && Owns(bs, its, n, p) && Owns(bs, its, n, q);
    assert item !in bs[q].items;
    EraseIs(bs[p].items, item);
    forall i | 0 <= i < n ensures Placed(bs', its', order', i) {
      assert Placed(bs, its, order, i);
      assert its[i].parent == p && i != item ==> i in rest;
    }
    forall c | c in order' ensures Owns(bs', its', n, c) {
      assert Owns(bs, its, n, c);
    }
  }

  lemma MergedOrdered(bs: seq<Bucket>, order: seq<nat>, free: seq<nat>, j: nat, bs': seq<Bucket>)
    requires Ordered(bs, order, free) && j < |order|
    requires |bs'| == |bs|
    requires forall c | 0 <= c < |bs| :: bs'[c].count == bs[c].count
    requires forall c | 0 <= c < |bs| && c !in order :: bs'[c] == bs[c]
    ensures Ordered(bs', order, free)
    ensures bs'[order[j]].items == [] ==> Ordered(bs', Removed(order, j), [order[j]] + free)
  {
    var cs, order' := Counts(bs, order), Removed(order, j);
    assert Counts(bs', order) == cs;
    OrderNoDup(bs, order, free);
    RemovedIn(order, j);
    RemoveIncreasing(cs, j);
    forall k | 0 <= k < |order'| ensures order'[k] < |bs'| && bs'[order'[k]].count == (cs[..j] + cs[j + 1..])[k] {
      assert order'[k] == if k < j then order[k] else order[k + 1];
    }
    assert Counts(bs', order') == cs[..j] + cs[j + 1..];
    var free' := [order[j]] + free;
    if bs'[order[j]].items == [] {
      forall k | 0 <= k < |free'| ensures free'[k] < |bs'| && free'[k] !in order' && bs'[free'[k]].items == [] {
        assert k > 0 ==> free'[k] == free[k - 1];
      }
    }
  }

  /** A new item starts alone in a bucket of count 0 at the head of the bucket list. */
  lemma AddItem<T>(bs: seq<Bucket>, its: seq<Item<T>>, order: seq<nat>, free: seq<nat>, n: nat, value: T)
    requires Structure(bs, its, order, free, n) && n < |its|
    requires forall k | 0 <= k < |order| :: 0 < bs[order[k]].count
    ensures free != [] && free[0] < |bs|
    ensures var b := free[0];
      var bs' := bs[b := Bucket(0, [n])];
      var its' := its[n := Item(b, its[n].error, value)];
      && Structure(bs', its', [b] + order, free[1..], n + 1)
      && forall i {:trigger its'[i]} | 0 <= i < n ::
           0 <= its[i].parent < |bs| && its'[i] == its[i] && CountOf(bs', its', i) == CountOf(bs, its, i)
  {
    BucketsAtMostItems(bs, its, order, free, n);
    var b := free[0];
    var bs' := bs[b := Bucket(0, [n])];
    var its' := its[n := Item(b, its[n].error, value)];
    var order', free' := [b] + order, free[1..];
    var cs := Counts(bs, order);
    InsertIncreasing(cs, 0, 0);
    forall k | 0 <= k < |order'| ensures order'[k] < |bs'| && bs'[order'[k]].count == (cs[..0] + [0] + cs[0..])[k] {
      assert k > 0 ==> order'[k] == order[k - 1] && order[k - 1] in order;
    }
    assert Counts(bs', order') == cs[..0] + [0] + cs[0..];
    forall k | 0 <= k < |free'| ensures free'[k] < |bs'| && free'[k] !in order' && bs'[free'[k]].items == [] {
      assert free'[k] == free[k + 1] && free[k + 1] != free[0];
    }
    forall i | 0 <= i < n + 1 ensures Placed(bs', its', order', i) {
      assert i < n ==> Placed(bs, its, order, i);
    }
    forall c | c in order' ensures Owns(bs', its', n + 1, c) {
      assert c != b ==> Owns(bs, its, n, c);
    }
    forall i | 0 <= i < n ensures 0 <= its[i].parent < |bs| && CountOf(bs', its', i) == CountOf(bs, its, i) {
      assert Placed(bs, its, order, i);
    }
  }

  /** No item has a smaller count than those of the first bucket. */
  lemma FrontIsMin<T>(bs: seq<Bucket>, its: seq<Item<T>>, order: seq<nat>, free: seq<nat>, n: nat, i: nat)
    requires Structure(bs, its, order, free, n) && i < n
    ensures order != [] && order[0] < |bs| && 0 <= its[i].parent < |bs|
    ensures bs[order[0]].count <= CountOf(bs, its, i)
  {
    assert Placed(bs, its, order, i);
    var k := IndexOf(order, its[i].parent);
    var cs := Counts(bs, order);
    assert k > 0 ==> cs[0] < cs[k];
  }
}
