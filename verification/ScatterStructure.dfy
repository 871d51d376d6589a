/**
 What the slot structure gives a caller of `chained_scatter_table`: probing finds
 every present key and no absent one, and slots are neither lost nor shared.
 */
module ScatterStructure {
  import opened Collections
  import opened CollisionChains
  import opened ScatterSlots

  // ---- lookups ----

  /** If the key is present at all, the rest of the chain from `e` leads to it. */
  ghost predicate Ahead<K(!new)>(sh: Shape<K>, e: int, key: K)
    requires sh.chains.Valid()
  {
    sh.chains.On(e) && (key in sh.index ==> sh.index[key] in sh.chains.Nodes(e))
  }

  /** The probe starts right even when the slot at the hash address is foreign. */
  lemma WalkStart<K(!new), V>(s: seq<Slot<K, V>>, addr: K -> int, sh: Shape<K>, key: K)
    requires Shows(s, addr, sh, -1) && 0 < addr(key) < |s|
    ensures if s[addr(key)].next < 0 then s[addr(key)].Free? && key !in sh.index
            else s[addr(key)].Used? && Ahead(sh, addr(key), key)
    ensures s[addr(key)].Used? && addr(s[addr(key)].key) != addr(key) ==> key !in sh.index
  {
    assert Shown(s, addr, sh, addr(key));
    if key in sh.index {
      assert Located(s, sh, key);
      UsedLinks(s, addr, sh, -1, sh.index[key]);
      assert Shown(s, addr, sh, sh.index[key]);
      HeadReaches(sh.chains, sh.index[key]);
    }
  }

  lemma WalkStep<K(!new), V>(s: seq<Slot<K, V>>, addr: K -> int, sh: Shape<K>, e: int, key: K)
    requires Shows(s, addr, sh, -1) && 0 < e < |s| && Ahead(sh, e, key)
    ensures s[e].Used? && 0 <= s[e].next < |s|
    ensures s[e].key == key ==> key in sh.index && sh.index[key] == e
    ensures s[e].key != key && s[e].next == 0 ==> key !in sh.index
    ensures s[e].key != key && s[e].next > 0 ==>
      s[s[e].next].Used? && Ahead(sh, s[e].next, key) && addr(s[s[e].next].key) == addr(s[e].key)
      && |sh.chains.Nodes(s[e].next)| < |sh.chains.Nodes(e)|
  {
    assert Shown(s, addr, sh, e);
    UsedLinks(s, addr, sh, -1, e);
    assert s[e].next > 0 ==> Shown(s, addr, sh, s[e].next);
    if key in sh.index {
      assert Located(s, sh, key);
    }
  }

  /** Following a chain towards one of its later nodes meets that node. */
  lemma SeekStep<K(!new), V>(s: seq<Slot<K, V>>, addr: K -> int, sh: Shape<K>, hole: int, p: int, e: int)
    requires Shows(s, addr, sh, hole) && 0 < p < |s| && p != hole && s[p].Used?
    requires sh.chains.On(p) && e in sh.chains.Nodes(p) && p != e
    ensures 0 < s[p].next < |s| && s[p].next != hole && s[s[p].next].Used?
    ensures sh.chains.On(s[p].next) && e in sh.chains.Nodes(s[p].next)
    ensures |sh.chains.Nodes(s[p].next)| < |sh.chains.Nodes(p)|
  {
    assert Shown(s, addr, sh, p);
    UsedLinks(s, addr, sh, hole, p);
  }

  // ---- counting ----

  function UsedSlots<K, V>(s: seq<Slot<K, V>>): set<int> {
    set i | 0 < i < |s| && s[i].Used?
  }

  function EmptySlots<K, V>(s: seq<Slot<K, V>>): set<int> {
    set i | 0 < i < |s| && s[i].Free?
  }

  lemma {:induction false} InjectiveSize<K(!new)>(m: map<K, int>)
    requires forall k, k' | k in m && k' in m && m[k] == m[k'] :: k == k'
    ensures |m.Values| == |m|
  {
    if m.Keys == {} {
      assert m.Values == {};
    } else {
      var k :| k in m;
      var m' := m - {k};
      InjectiveSize(m');
      assert m.Keys == m'.Keys + {k};
      assert m.Values == m'.Values + {m[k]};
    }
  }

  lemma IndexSize<K(!new), V>(s: seq<Slot<K, V>>, addr: K -> int, sh: Shape<K>)
    requires Shows(s, addr, sh, -1)
    ensures |sh.index| == |UsedSlots(s)|
    ensures |UsedSlots(s)| + |EmptySlots(s)| == |s| - 1
  {
    forall k | k in sh.index ensures Located(s, sh, k) {
    }
    InjectiveSize(sh.index);
    assert sh.index.Values == UsedSlots(s) by {
      forall i | i in UsedSlots(s) ensures i in sh.index.Values {
        assert Shown(s, addr, sh, i);
      }
    }
    SlotsAddUp(s);
  }

  lemma SlotsAddUp<K, V>(s: seq<Slot<K, V>>)
    requires |s| > 0
    ensures |UsedSlots(s)| + |EmptySlots(s)| == |s| - 1
  {
    var all := UsedSlots(s) + EmptySlots(s);
    assert Below(|s|) == all + {0};
    assert UsedSlots(s) !! EmptySlots(s);
  }

  /** The sentinel's first free slot is itself exactly when no slot is empty. */
  lemma FullIffListEmpty<K(!new), V>(s: seq<Slot<K, V>>, addr: K -> int, sh: Shape<K>)
    requires Shows(s, addr, sh, -1)
    ensures s[0].Free? && 0 <= -s[0].next - 1 < |s| && s[-s[0].next - 1].Free?
    ensures -s[0].next - 1 == 0 <==> |sh.index| == |s| - 1
  {
    assert Shown(s, addr, sh, 0);
    FreeLinks(s, addr, sh, -1, 0);
    IndexSize(s, addr, sh);
    var ff := -s[0].next - 1;
    if ff == 0 {
      assert EmptySlots(s) == {} by {
        if i :| i in EmptySlots(s) {
          assert Shown(s, addr, sh, i);
          FromSentinel(sh.ring, i);
        }
      }
    } else {
      assert ff in EmptySlots(s);
    }
  }

  /** The theorem behind "the slot structure": every used slot is on exactly the
      chain of its own hash address, once, behind a head that hashes to its own
      slot; the empty slots are exactly one free list, once each; and the two
      kinds add up to the capacity. */
  lemma SlotPartition<K(!new), V>(s: seq<Slot<K, V>>, addr: K -> int, sh: Shape<K>)
    requires Shows(s, addr, sh, -1)
    ensures forall i | i in UsedSlots(s) ::
      var h := addr(s[i].key);
      h in UsedSlots(s) && addr(s[h].key) == h && sh.chains.On(h) && i in sh.chains.Nodes(h)
    ensures forall h | h in UsedSlots(s) && addr(s[h].key) == h ::
      && sh.chains.On(h)
      && (forall k | 0 <= k < |sh.chains.Nodes(h)| ::
           sh.chains.Nodes(h)[k] in UsedSlots(s) && addr(s[sh.chains.Nodes(h)[k]].key) == h)
      && NoDup(sh.chains.Nodes(h))
    ensures sh.ring.On(sh.ring.next[0])
    ensures forall i :: i in EmptySlots(s) <==> i in sh.ring.Nodes(sh.ring.next[0])
    ensures |sh.ring.Nodes(sh.ring.next[0])| == |EmptySlots(s)|
    ensures |sh.index| + |sh.ring.Nodes(sh.ring.next[0])| == |s| - 1
  {
    forall i | i in UsedSlots(s)
      ensures var h := addr(s[i].key);
        h in UsedSlots(s) && addr(s[h].key) == h && sh.chains.On(h) && i in sh.chains.Nodes(h)
    {
      UsedLinks(s, addr, sh, -1, i);
      assert Shown(s, addr, sh, i) && Shown(s, addr, sh, addr(s[i].key));
      HeadReaches(sh.chains, i);
    }
    forall h | h in UsedSlots(s) && addr(s[h].key) == h
      ensures sh.chains.On(h)
      ensures forall k | 0 <= k < |sh.chains.Nodes(h)| ::
        sh.chains.Nodes(h)[k] in UsedSlots(s) && addr(s[sh.chains.Nodes(h)[k]].key) == h
      ensures NoDup(sh.chains.Nodes(h))
    {
      assert Shown(s, addr, sh, h);
      NodesDistinct(sh.chains, h);
      forall k | 0 <= k < |sh.chains.Nodes(h)|
        ensures sh.chains.Nodes(h)[k] in UsedSlots(s) && addr(s[sh.chains.Nodes(h)[k]].key) == h
      {
        assert Shown(s, addr, sh, sh.chains.Nodes(h)[k]);
      }
    }
    FreeListIsEmptySlots(s, addr, sh);
    IndexSize(s, addr, sh);
  }

  lemma FreeListIsEmptySlots<K(!new), V>(s: seq<Slot<K, V>>, addr: K -> int, sh: Shape<K>)
    requires Shows(s, addr, sh, -1)
    ensures sh.ring.On(sh.ring.next[0])
    ensures forall i :: i in EmptySlots(s) <==> i in sh.ring.Nodes(sh.ring.next[0])
    ensures |sh.ring.Nodes(sh.ring.next[0])| == |EmptySlots(s)|
  {
    assert Shown(s, addr, sh, 0);
    FreeLinks(s, addr, sh, -1, 0);
    var first := sh.ring.next[0];
    forall i ensures i in EmptySlots(s) <==> i in sh.ring.Nodes(first) {
      if i in EmptySlots(s) {
        assert Shown(s, addr, sh, i);
        FromSentinel(sh.ring, i);
      }
      if i in sh.ring.Nodes(first) {
        assert Shown(s, addr, sh, i);
      }
    }
    RingDistinct(sh.ring, first);
    DistinctSize(sh.ring.Nodes(first), EmptySlots(s));
  }

  /** The map's domain is the key index, so its cardinality is `size`. */
  lemma MapOfKeys<K(!new), V>(s: seq<Slot<K, V>>, addr: K -> int, sh: Shape<K>)
    requires Shows(s, addr, sh, -1)
    ensures MapOf(s, sh).Keys == sh.index.Keys
    ensures |MapOf(s, sh)| == |sh.index|
  {
    var m := MapOf(s, sh);
    assert m.Keys == sh.index.Keys;
    assert |m| == |m.Keys| && |sh.index| == |sh.index.Keys|;
  }
}
