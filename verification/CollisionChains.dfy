/**
 The links of `chained_scatter_table` seen as two structures over slot numbers:
 the collision chains of the occupied slots ("chained scatter without
 coalescing") and the circular free list of the empty ones, anchored at the
 sentinel slot 0. Both are described slot by slot, with a ghost rank that
 grows along a chain and falls along the free list.
 */
module CollisionChains {
  import opened Collections

  /** `home[i]` is the hash address of the key in slot `i`, 0 when `i` holds none. */
  datatype Chains = Chains(next: seq<int>, home: seq<int>, rank: seq<int>, pred: seq<int>) {

    ghost predicate Sized() {
      1 < |next| == |home| == |rank| == |pred|
    }

    ghost predicate On(i: int)
      requires Sized()
    {
      0 < i < |next| && home[i] != 0
    }

    /** Slot `i` and its neighbours agree: one home, the head sits at its own address. */
    ghost predicate Linked(i: int)
      requires Sized() && On(i)
    {
      var j, h, p := next[i], home[i], pred[i];
      && 0 <= j < |next| && 0 <= rank[i]
      && (j > 0 ==> home[j] == h && j != h && rank[i] < rank[j] && pred[j] == i)
      && 0 < h < |next| && home[h] == h
      && (i != h ==> 0 < p < |next| && next[p] == i && home[p] == h && rank[p] < rank[i])
    }

    ghost predicate Valid() {
      Sized() && home[0] == 0 && forall i {:trigger Linked(i)} | On(i) :: Linked(i)
    }

    /** `d` becomes a chain of its own. */
    ghost function AddHead(d: int): Chains
      requires Sized() && 0 < d < |next|
    {
      Chains(next[d := 0], home[d := d], rank[d := 0], pred)
    }

    ghost function InsertAfter(p: int, d: int, r: int): Chains
      requires Sized() && On(p) && 0 < d < |next| && 0 <= next[p] < |next|
    {
      var q := next[p];
      Chains(next[d := q][p := d], home[d := home[p]], rank[d := r],
             if q > 0 then pred[d := p][q := d] else pred[d := p])
    }

    ghost function Excise(e: int): Chains
      requires Sized() && On(e) && 0 <= next[e] < |next| && 0 < pred[e] < |next|
    {
      var p, q := pred[e], next[e];
      Chains(next[p := q], home[e := 0], rank, if q > 0 then pred[q := p] else pred)
    }

    ghost function DropHead(e: int): Chains
      requires Sized() && On(e)
    {
      this.(home := home[e := 0])
    }

    // ---- following a chain ----

    /** The slots met by following `next` from `i`, in order. */
    ghost function Nodes(i: int): (ns: seq<int>)
      requires Valid() && On(i)
      ensures |ns| > 0 && ns[0] == i
      ensures forall k | 0 <= k < |ns| :: On(ns[k]) && home[ns[k]] == home[i]
      decreases Bound(rank) - rank[i]
    {
      assert Linked(i);
      BoundAbove(rank, i);
      if next[i] == 0 then [i]
      else
        assert On(next[i]) && Linked(next[i]);
        [i] + Nodes(next[i])
    }
  }

  /** An exclusive upper bound of a sequence. */
  ghost function Bound(s: seq<int>): int {
    if s == [] then 0
    else
      var b := Bound(s[..|s| - 1]);
      if b <= s[|s| - 1] then s[|s| - 1] + 1 else b
  }

  lemma {:induction false} BoundAbove(s: seq<int>, i: int)
    requires 0 <= i < |s|
    ensures s[i] < Bound(s)
  {
    if i < |s| - 1 {
      BoundAbove(s[..|s| - 1], i);
    }
  }

  lemma AddHeadKeeps(c: Chains, d: int)
    requires c.Valid() && 0 < d < |c.next| && c.home[d] == 0
    ensures c.AddHead(d).Valid()
  {
    var c' := c.AddHead(d);
    forall i | c'.On(i) ensures c'.Linked(i) {
      assert i != d ==> c.Linked(i);
    }
  }

  lemma InsertAfterKeeps(c: Chains, p: int, d: int, r: int)
    requires c.Valid() && c.On(p) && 0 < d < |c.next| && c.home[d] == 0
    requires c.Linked(p)
    requires c.rank[p] < r && (c.next[p] > 0 ==> r < c.rank[c.next[p]])
    ensures c.InsertAfter(p, d, r).Valid()
  {
    var c' := c.InsertAfter(p, d, r);
    forall i | c'.On(i) ensures c'.Linked(i) {
      assert i != d ==> c.Linked(i);
      assert c.next[p] > 0 ==> c.Linked(c.next[p]);
    }
  }

  lemma ExciseKeeps(c: Chains, e: int)
    requires c.Valid() && c.On(e) && c.home[e] != e
    ensures c.Linked(e)
    ensures c.Excise(e).Valid()
  {
    assert c.Linked(e);
    var c' := c.Excise(e);
    assert c.Linked(c.pred[e]);
    assert c.next[e] > 0 ==> c.Linked(c.next[e]);
    forall i | c'.On(i) ensures c'.Linked(i) {
      assert c.Linked(i);
    }
  }

  lemma NodesExtend(c: Chains, i: int, p: int)
    requires c.Valid() && c.On(i) && c.On(p) && p in c.Nodes(i) && c.next[p] > 0
    ensures c.next[p] in c.Nodes(i)
    decreases Bound(c.rank) - c.rank[i]
  {
    assert c.Linked(i);
    BoundAbove(c.rank, i);
    if c.next[i] > 0 {
      assert c.On(c.next[i]) && c.Linked(c.next[i]);
      if i != p {
        NodesExtend(c, c.next[i], p);
      }
    }
  }

  /** The chain that starts at a hash address passes through every slot whose key hashes there. */
  lemma {:induction false} HeadReaches(c: Chains, j: int)
    requires c.Valid() && c.On(j)
    ensures c.On(c.home[j])
    ensures j in c.Nodes(c.home[j])
    decreases c.rank[j]
  {
    assert c.Linked(j);
    if j != c.home[j] {
      var p := c.pred[j];
      assert c.Linked(p);
      HeadReaches(c, p);
      NodesExtend(c, c.home[j], p);
    }
  }

  /** Chains are acyclic: no slot is met twice. */
  lemma {:induction false} NodesDistinct(c: Chains, i: int)
    requires c.Valid() && c.On(i)
    ensures forall k | 0 <= k < |c.Nodes(i)| :: c.rank[i] <= c.rank[c.Nodes(i)[k]]
    ensures NoDup(c.Nodes(i))
    decreases Bound(c.rank) - c.rank[i]
  {
    assert c.Linked(i);
    BoundAbove(c.rank, i);
    if c.next[i] > 0 {
      assert c.On(c.next[i]) && c.Linked(c.next[i]);
      NodesDistinct(c, c.next[i]);
    }
  }

  lemma DropHeadKeeps(c: Chains, e: int)
    requires c.Valid() && c.On(e) && c.home[e] == e && c.next[e] == 0
    ensures c.DropHead(e).Valid()
  {
    var c' := c.DropHead(e);
    forall i | c'.On(i) ensures c'.Linked(i) {
      assert c.Linked(i);
      HeadReaches(c, i);
      assert c.Nodes(e) == [e];
    }
  }

  /** The free list: `next[i]` is the slot after `i`, negative when `i` is not on the list. */
  datatype Ring = Ring(next: seq<int>, prev: seq<int>, rank: seq<int>) {

    ghost predicate Sized() {
      1 < |next| == |prev| == |rank|
    }

    ghost predicate On(i: int)
      requires Sized()
    {
      0 <= i < |next| && next[i] >= 0
    }

    /** `next` and `prev` are mutually inverse; ranks fall from the sentinel on. */
    ghost predicate Linked(i: int)
      requires Sized() && On(i)
    {
      var j, p := next[i], prev[i];
      && On(j) && prev[j] == i && On(p) && next[p] == i
      && (i != 0 ==> rank[i] < rank[p])
    }

    ghost predicate Valid() {
      Sized() && On(0) && forall i {:trigger Linked(i)} | On(i) :: Linked(i)
    }

    ghost function Unlink(e: int): Ring
      requires Sized() && On(e) && On(prev[e]) && On(next[e])
    {
      Ring(next[prev[e] := next[e]][e := -1], prev[next[e] := prev[e]], rank)
    }

    ghost function PushFront(e: int): Ring
      requires Sized() && 0 < e < |next| && 0 <= next[0] < |next|
    {
      Ring(next[e := next[0]][0 := e], prev[e := 0][next[0] := e], rank[e := rank[0]][0 := rank[0] + 1])
    }

    /** The empty slots from `i` on until the list closes at the sentinel. */
    ghost function Nodes(i: int): (ns: seq<int>)
      requires Valid() && On(i)
      ensures i != 0 ==> |ns| > 0 && ns[0] == i
      ensures forall k | 0 <= k < |ns| :: On(ns[k]) && ns[k] != 0
      decreases i != 0, rank[i] - Lowest(rank)
    {
      if i == 0 then []
      else
        assert Linked(i) && Linked(next[i]);
        LowestBelow(rank, i);
        [i] + Nodes(next[i])
    }
  }

  /** A lower bound of a sequence. */
  ghost function Lowest(s: seq<int>): int {
    if s == [] then 0
    else
      var b := Lowest(s[..|s| - 1]);
      if s[|s| - 1] < b then s[|s| - 1] else b
  }

  lemma {:induction false} LowestBelow(s: seq<int>, i: int)
    requires 0 <= i < |s|
    ensures Lowest(s) <= s[i]
  {
    if i < |s| - 1 {
      LowestBelow(s[..|s| - 1], i);
    }
  }

  lemma UnlinkKeeps(r: Ring, e: int)
    requires r.Valid() && r.On(e) && e != 0
    ensures r.Linked(e)
    ensures r.Unlink(e).Valid()
  {
    assert r.Linked(e);
    assert r.Linked(r.next[e]) && r.Linked(r.prev[e]);
    var r' := r.Unlink(e);
    forall i | r'.On(i) ensures r'.Linked(i) {
      assert r.Linked(i);
    }
  }

  lemma PushFrontKeeps(r: Ring, e: int)
    requires r.Valid() && 0 < e < |r.next| && r.next[e] < 0
    ensures r.Linked(0)
    ensures r.PushFront(e).Valid()
  {
    assert r.Linked(0);
    assert r.Linked(r.next[0]);
    var r' := r.PushFront(e);
    forall i | r'.On(i) ensures r'.Linked(i) {
      assert i != e ==> r.Linked(i);
      RankBelowSentinel(r);
    }
  }

  lemma RankBelowSentinel(r: Ring)
    requires r.Valid()
    ensures forall i | r.On(i) :: r.rank[i] <= r.rank[0]
  {
    forall i | r.On(i) ensures r.rank[i] <= r.rank[0] {
      FromSentinel(r, i);
    }
  }

  /** No cycle but the one through the sentinel: every empty slot is met from there. */
  lemma {:induction false} FromSentinel(r: Ring, i: int)
    requires r.Valid() && r.On(i)
    ensures r.Linked(0)
    ensures r.rank[i] <= r.rank[0]
    ensures i != 0 ==> i in r.Nodes(r.next[0])
    decreases Bound(r.rank) - r.rank[i]
  {
    assert r.Linked(0);
    assert r.Linked(i);
    BoundAbove(r.rank, i);
    if i != 0 {
      BoundAbove(r.rank, r.prev[i]);
      FromSentinel(r, r.prev[i]);
      if r.prev[i] != 0 {
        RingExtend(r, r.next[0], r.prev[i]);
      }
    }
  }

  lemma RingExtend(r: Ring, i: int, p: int)
    requires r.Valid() && r.On(i) && r.On(p) && p in r.Nodes(i) && r.next[p] != 0
    ensures r.next[p] in r.Nodes(i)
    decreases i != 0, r.rank[i] - Lowest(r.rank)
  {
    if i != 0 {
      assert r.Linked(i) && r.Linked(r.next[i]);
      LowestBelow(r.rank, i);
      if i != p {
        RingExtend(r, r.next[i], p);
      }
    }
  }

  /** The free list is one cycle: starting after the sentinel no slot is met twice. */
  lemma {:induction false} RingDistinct(r: Ring, i: int)
    requires r.Valid() && r.On(i)
    ensures forall k | 0 <= k < |r.Nodes(i)| :: r.rank[r.Nodes(i)[k]] <= r.rank[i]
    ensures NoDup(r.Nodes(i))
    decreases i != 0, r.rank[i] - Lowest(r.rank)
  {
    if i != 0 {
      assert r.Linked(i) && r.Linked(r.next[i]);
      LowestBelow(r.rank, i);
      RingDistinct(r, r.next[i]);
      if r.next[i] == 0 {
        assert r.Nodes(0) == [];
      }
    }
  }
}
