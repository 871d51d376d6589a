/**
 The slot array of `chained_scatter_table` and how it shows the chains, the free
 list and the key index it encodes. A slot is a C++ union: `_prev_` overlays key
 and value, so an occupied slot has no `prev` and an empty one has no key. The
 constructor plays the part the sign of `_next_` plays in the source.
 */
module ScatterSlots {
  import opened CollisionChains

  /** `next` of a used slot is an index (0 ends the chain), of an empty one -(index + 1). */
  datatype Slot<K, V> = Used(next: int, key: K, value: V) | Free(next: int, prev: int)

  /** What a slot array stands for; `index` locates every key. */
  datatype Shape<!K> = Shape(chains: Chains, ring: Ring, index: map<K, int>) {

    ghost predicate Valid(n: int) {
      chains.Valid() && ring.Valid() && |chains.next| == |ring.next| == n
    }
  }

  ghost predicate Shown<K, V>(s: seq<Slot<K, V>>, addr: K -> int, sh: Shape<K>, i: int)
    requires sh.Valid(|s|) && 0 <= i < |s|
  {
    match s[i]
    case Used(next, key, _) =>
      && 0 < i && sh.chains.next[i] == next >= 0
      && sh.chains.home[i] == addr(key) != 0
      && sh.ring.next[i] < 0
      && key in sh.index && sh.index[key] == i
    case Free(next, prev) =>
      && sh.chains.home[i] == 0
      && sh.ring.next[i] == -next - 1 >= 0
      && sh.ring.prev[i] == prev
  }

  ghost predicate Located<K, V>(s: seq<Slot<K, V>>, sh: Shape<K>, key: K) {
    key in sh.index && 0 < sh.index[key] < |s| && s[sh.index[key]].Used? && s[sh.index[key]].key == key
  }

  /** The array shows the shape, except in slot `hole` (-1: no exception). */
  ghost predicate Shows<K(!new), V>(s: seq<Slot<K, V>>, addr: K -> int, sh: Shape<K>, hole: int) {
    && sh.Valid(|s|)
    && (forall i {:trigger Shown(s, addr, sh, i)} | 0 <= i < |s| && i != hole :: Shown(s, addr, sh, i))
    && (forall key {:trigger Located(s, sh, key)} | key in sh.index ::
          Located(s, sh, key) && sh.index[key] != hole)
    && (0 <= hole < |s| ==> 0 < hole && sh.ring.next[hole] < 0 && sh.chains.home[hole] == 0)
  }

  /** The mathematical map an array with this index holds. */
  ghost function MapOf<K(!new), V>(s: seq<Slot<K, V>>, sh: Shape<K>): map<K, V> {
    map key | key in sh.index && Located(s, sh, key) :: s[sh.index[key]].value
  }

  // ---- link surgery: the arrays the operations write ----

  /** Takes empty slot `e` off the free list; `e` itself is left as it was. */
  function Unlinked<K, V>(s: seq<Slot<K, V>>, e: int): (t: seq<Slot<K, V>>)
    requires 0 <= e < |s| && s[e].Free?
    requires 0 <= s[e].prev < |s| && s[s[e].prev].Free?
    requires 0 <= -s[e].next - 1 < |s| && s[-s[e].next - 1].Free?
  {
    var n, p := s[e].next, s[e].prev;
    var t := s[p := Free(n, s[p].prev)];
    t[-n - 1 := Free(t[-n - 1].next, p)]
  }

  /** Puts slot `e` right after the sentinel. */
  function Freed<K, V>(s: seq<Slot<K, V>>, e: int): (t: seq<Slot<K, V>>)
    requires 1 <= e < |s| && s[0].Free?
    requires 0 <= -s[0].next - 1 < |s| && s[-s[0].next - 1].Free? && -s[0].next - 1 != e
  {
    var ff := -s[0].next - 1;
    var t := s[ff := Free(s[ff].next, e)][e := Free(-ff - 1, 0)];
    t[0 := Free(-e - 1, t[0].prev)]
  }

  lemma FreeLinks<K(!new), V>(s: seq<Slot<K, V>>, addr: K -> int, sh: Shape<K>, hole: int, e: int)
    requires Shows(s, addr, sh, hole)
    requires 0 <= e < |s| && e != hole && s[e].Free?
    ensures sh.ring.On(e) && sh.ring.Linked(e)
    ensures 0 <= s[e].prev < |s| && s[s[e].prev].Free?
    ensures 0 <= -s[e].next - 1 < |s| && s[-s[e].next - 1].Free?
    ensures s[e].prev != hole && -s[e].next - 1 != hole
  {
    assert Shown(s, addr, sh, e);
    var n, p := -s[e].next - 1, s[e].prev;
    assert sh.ring.Linked(e);
    assert Shown(s, addr, sh, n);
    assert Shown(s, addr, sh, p);
  }

  /** The slot after the sentinel links back to it. */
  lemma FirstFreePrev<K(!new), V>(s: seq<Slot<K, V>>, addr: K -> int, sh: Shape<K>)
    requires Shows(s, addr, sh, -1) && 0 < |s| && s[0].Free? && 0 < -s[0].next - 1 < |s| && s[-s[0].next - 1].Free?
    ensures s[-s[0].next - 1].prev == 0
  {
    FreeLinks(s, addr, sh, -1, 0);
    assert Shown(s, addr, sh, 0) && Shown(s, addr, sh, -s[0].next - 1);
  }

  lemma UsedLinks<K(!new), V>(s: seq<Slot<K, V>>, addr: K -> int, sh: Shape<K>, hole: int, e: int)
    requires Shows(s, addr, sh, hole)
    requires 0 <= e < |s| && e != hole && s[e].Used?
    ensures sh.chains.On(e) && sh.chains.Linked(e)
    ensures 0 <= s[e].next < |s| && s[e].next != hole
    ensures s[e].next > 0 ==> s[s[e].next].Used?
    ensures 0 < addr(s[e].key) < |s| && s[addr(s[e].key)].Used? && addr(s[e].key) != hole
  {
    assert Shown(s, addr, sh, e);
    assert sh.chains.Linked(e);
    var q, h := s[e].next, addr(s[e].key);
    assert q > 0 ==> Shown(s, addr, sh, q);
    assert Shown(s, addr, sh, h);
  }

  lemma UnlinkShows<K(!new), V>(s: seq<Slot<K, V>>, addr: K -> int, sh: Shape<K>, e: int)
      returns (sh': Shape<K>)
    requires Shows(s, addr, sh, -1)
    requires 1 <= e < |s| && s[e].Free?
    ensures 0 <= s[e].prev < |s| && s[s[e].prev].Free?
    ensures 0 <= -s[e].next - 1 < |s| && s[-s[e].next - 1].Free?
    ensures Shows(Unlinked(s, e), addr, sh', e) && Unlinked(s, e)[e] == s[e]
    ensures sh'.index == sh.index && sh'.chains == sh.chains && MapOf(Unlinked(s, e), sh') == MapOf(s, sh)
  {
    FreeLinks(s, addr, sh, -1, e);
    UnlinkKeeps(sh.ring, e);
    sh' := sh.(ring := sh.ring.Unlink(e));
    var t := Unlinked(s, e);
    assert Shown(s, addr, sh, e);
    forall i | 0 <= i < |t| && i != e ensures Shown(t, addr, sh', i) {
      assert Shown(s, addr, sh, i);
    }
    forall key | key in sh'.index ensures Located(t, sh', key) && sh'.index[key] != e {
      assert Located(s, sh, key);
    }
  }

  lemma FreeShows<K(!new), V>(s: seq<Slot<K, V>>, addr: K -> int, sh: Shape<K>, e: int)
      returns (sh': Shape<K>)
    requires 1 <= e < |s| && Shows(s, addr, sh, e)
    ensures s[0].Free? && 0 <= -s[0].next - 1 < |s| && s[-s[0].next - 1].Free? && -s[0].next - 1 != e
    ensures Shows(Freed(s, e), addr, sh', -1)
    ensures sh'.index == sh.index && MapOf(Freed(s, e), sh') == MapOf(s, sh)
  {
    assert Shown(s, addr, sh, 0);
    FreeLinks(s, addr, sh, e, 0);
    PushFrontKeeps(sh.ring, e);
    sh' := sh.(ring := sh.ring.PushFront(e));
    var t := Freed(s, e);
    forall i | 0 <= i < |t| ensures Shown(t, addr, sh', i) {
      assert i != e ==> Shown(s, addr, sh, i);
    }
    forall key | key in sh'.index ensures Located(t, sh', key) && sh'.index[key] != -1 {
      assert Located(s, sh, key);
    }
  }

  /** `key` becomes the only node of its home chain. */
  lemma FillHomeShows<K(!new), V>(s: seq<Slot<K, V>>, addr: K -> int, sh: Shape<K>, e: int, key: K, value: V)
      returns (sh': Shape<K>)
    requires 1 <= e < |s| && Shows(s, addr, sh, e)
    requires addr(key) == e && key !in sh.index
    ensures Shows(s[e := Used(0, key, value)], addr, sh', -1)
    ensures sh'.index == sh.index[key := e]
    ensures MapOf(s[e := Used(0, key, value)], sh') == MapOf(s, sh)[key := value]
  {
    AddHeadKeeps(sh.chains, e);
    sh' := sh.(chains := sh.chains.AddHead(e), index := sh.index[key := e]);
    FilledShows(s, addr, sh, e, s[e := Used(0, key, value)], sh', key, e);
  }

  /** `key` becomes the node after `last`, the end of its home chain. */
  lemma FillLastShows<K(!new), V>(s: seq<Slot<K, V>>, addr: K -> int, sh: Shape<K>, last: int, e: int, key: K, value: V)
      returns (sh': Shape<K>)
    requires 1 <= e < |s| && Shows(s, addr, sh, e)
    requires 1 <= last < |s| && last != e && s[last].Used? && s[last].next == 0
    requires addr(key) == addr(s[last].key) && key !in sh.index
    ensures Shows(s[last := Used(e, s[last].key, s[last].value)][e := Used(0, key, value)], addr, sh', -1)
    ensures sh'.index == sh.index[key := e]
    ensures MapOf(s[last := Used(e, s[last].key, s[last].value)][e := Used(0, key, value)], sh')
            == MapOf(s, sh)[key := value]
  {
    UsedLinks(s, addr, sh, e, last);
    assert Shown(s, addr, sh, last);
    var r := sh.chains.rank[last] + 1;
    InsertAfterKeeps(sh.chains, last, e, r);
    sh' := sh.(chains := sh.chains.InsertAfter(last, e, r), index := sh.index[key := e]);
    FilledShows(s, addr, sh, e,
                s[last := Used(e, s[last].key, s[last].value)][e := Used(0, key, value)], sh', key, last);
  }

  /** Filling a hole: beside `e` only the `next` of `p` may have changed. */
  lemma FilledShows<K(!new), V>(s: seq<Slot<K, V>>, addr: K -> int, sh: Shape<K>, e: int,
                                t: seq<Slot<K, V>>, sh': Shape<K>, key: K, p: int)
    requires 1 <= e < |s| == |t| && 1 <= p < |s| && Shows(s, addr, sh, e) && sh'.Valid(|t|)
    requires key !in sh.index && sh'.index == sh.index[key := e] && sh'.ring == sh.ring
    requires t[e].Used? && t[e].key == key && t[e].next == sh'.chains.next[e] == 0
    requires addr(key) == sh'.chains.home[e] && sh'.chains.home == sh.chains.home[e := addr(key)] && addr(key) != 0
    requires p != e ==>
      && s[p].Used? && t[p] == Used(e, s[p].key, s[p].value) && sh'.chains.next == sh.chains.next[e := 0][p := e]
    requires p == e ==> sh'.chains.next == sh.chains.next[e := 0]
    requires forall i | 0 <= i < |s| && i != e && i != p :: t[i] == s[i]
    ensures Shows(t, addr, sh', -1)
    ensures MapOf(t, sh') == MapOf(s, sh)[key := t[e].value]
  {
    forall i | 0 <= i < |t| ensures Shown(t, addr, sh', i) {
      assert i != e ==> Shown(s, addr, sh, i);
    }
    forall k | k in sh'.index ensures Located(t, sh', k) && sh'.index[k] != -1 {
      assert k != key ==> Located(s, sh, k);
    }
    assert forall k | k in sh.index :: Located(s, sh, k) && Located(t, sh', k);
  }

  /** The foreign entry in `e` moves to the hole `d`; then `e` is the hole. */
  lemma DisplaceShows<K(!new), V>(s: seq<Slot<K, V>>, addr: K -> int, sh: Shape<K>, p: int, e: int, d: int)
      returns (sh': Shape<K>)
    requires 1 <= d < |s| && Shows(s, addr, sh, d)
    requires 1 <= e < |s| && e != d && s[e].Used? && addr(s[e].key) != e
    requires 1 <= p < |s| && p != d && s[p].Used? && s[p].next == e
    ensures Shows(s[d := s[e]][p := Used(d, s[p].key, s[p].value)], addr, sh', e)
    ensures sh'.index == sh.index[s[e].key := d]
    ensures MapOf(s[d := s[e]][p := Used(d, s[p].key, s[p].value)], sh') == MapOf(s, sh)
  {
    UsedLinks(s, addr, sh, d, e);
    UsedLinks(s, addr, sh, d, p);
    assert Shown(s, addr, sh, e) && Shown(s, addr, sh, p);
    var c := sh.chains;
    var c' := MoveNode(c, p, e, d);
    sh' := sh.(chains := c', index := sh.index[s[e].key := d]);
    var t := s[d := s[e]][p := Used(d, s[p].key, s[p].value)];
    MovedShown(s, addr, sh, p, e, d, sh');
    assert sh'.Valid(|t|) && sh'.ring.next[e] < 0 && sh'.chains.home[e] == 0;
    MovedLocated(s, addr, sh, e, d, t, sh');
    assert Shows(t, addr, sh', e);
  }

  lemma MovedShown<K(!new), V>(s: seq<Slot<K, V>>, addr: K -> int, sh: Shape<K>, p: int, e: int, d: int, sh': Shape<K>)
    requires 1 <= d < |s| && Shows(s, addr, sh, d) && sh'.Valid(|s|)
    requires 1 <= e < |s| && e != d && s[e].Used?
    requires 1 <= p < |s| && p != d && p != e && s[p].Used? && s[p].next == e
    requires sh'.chains.next == sh.chains.next[d := sh.chains.next[e]][p := d]
    requires sh'.chains.home == sh.chains.home[d := sh.chains.home[e]][e := 0]
    requires sh'.ring == sh.ring && sh'.index == sh.index[s[e].key := d]
    ensures forall i {:trigger Shown(s[d := s[e]][p := Used(d, s[p].key, s[p].value)], addr, sh', i)} |
      0 <= i < |s| && i != e :: Shown(s[d := s[e]][p := Used(d, s[p].key, s[p].value)], addr, sh', i)
  {
    var t := s[d := s[e]][p := Used(d, s[p].key, s[p].value)];
    assert Shown(s, addr, sh, e);
    forall i | 0 <= i < |t| && i != e ensures Shown(t, addr, sh', i) {
      assert i != d ==> Shown(s, addr, sh, i);
    }
  }

  /** Chain node `e` with predecessor `p` is replaced by `d`. */
  lemma MoveNode(c: Chains, p: int, e: int, d: int) returns (c': Chains)
    requires c.Valid() && c.On(e) && c.home[e] != e && c.On(p) && c.next[p] == e
    requires 0 < d < |c.next| && c.home[d] == 0
    ensures c'.Valid() && |c'.next| == |c.next|
    ensures c'.next == c.next[d := c.next[e]][p := d]
    ensures c'.home == c.home[d := c.home[e]][e := 0]
  {
    assert c.Linked(p) && c.Linked(e);
    assert c.next[e] > 0 ==> c.Linked(c.next[e]);
    ExciseKeeps(c, e);
    var x := c.Excise(e);
    assert x.On(p) && x.Linked(p);
    InsertAfterKeeps(x, p, d, c.rank[e]);
    c' := x.InsertAfter(p, d, c.rank[e]);
    assert c'.next == c.next[d := c.next[e]][p := d];
    assert c'.home == c.home[d := c.home[e]][e := 0];
  }

  lemma MovedLocated<K(!new), V>(s: seq<Slot<K, V>>, addr: K -> int, sh: Shape<K>, e: int, d: int,
                                 t: seq<Slot<K, V>>, sh': Shape<K>)
    requires Shows(s, addr, sh, d) && 1 <= d < |s| == |t|
    requires 1 <= e < |s| && e != d && s[e].Used?
    requires s[e].key in sh.index && sh.index[s[e].key] == e
    requires sh'.index == sh.index[s[e].key := d]
    requires t[d].Used? && t[d].key == s[e].key && t[d].value == s[e].value
    requires forall i | 0 <= i < |s| && i != d && s[i].Used? ::
      t[i].Used? && t[i].key == s[i].key && t[i].value == s[i].value
    ensures forall k {:trigger Located(t, sh', k)} | k in sh'.index :: Located(t, sh', k) && sh'.index[k] != e
    ensures MapOf(t, sh') == MapOf(s, sh)
  {
    forall k | k in sh'.index ensures Located(s, sh, k) && Located(t, sh', k) && sh'.index[k] != e {
      assert Located(s, sh, k);
    }
  }

  /** The last node of a chain leaves it; `p` is its predecessor, or itself at the head. */
  lemma CutShows<K(!new), V>(s: seq<Slot<K, V>>, addr: K -> int, sh: Shape<K>, p: int, e: int)
      returns (sh': Shape<K>)
    requires Shows(s, addr, sh, -1)
    requires 1 <= e < |s| && s[e].Used? && s[e].next == 0
    requires 1 <= p < |s| && s[p].Used? && (if p == e then addr(s[e].key) == e else s[p].next == e)
    ensures Shows(CutOff(s, p, e), addr, sh', e)
    ensures s[e].key in sh.index && |sh'.index| == |sh.index| - 1
    ensures MapOf(CutOff(s, p, e), sh') == MapOf(s, sh) - {s[e].key}
  {
    UsedLinks(s, addr, sh, -1, e);
    UsedLinks(s, addr, sh, -1, p);
    assert Shown(s, addr, sh, e) && Shown(s, addr, sh, p);
    if p == e {
      DropHeadKeeps(sh.chains, e);
      sh' := sh.(chains := sh.chains.DropHead(e), index := sh.index - {s[e].key});
    } else {
      ExciseKeeps(sh.chains, e);
      sh' := sh.(chains := sh.chains.Excise(e), index := sh.index - {s[e].key});
    }
    CutShown(s, addr, sh, p, e, sh');
    CutLocated(s, addr, sh, p, e, sh');
    assert Shows(CutOff(s, p, e), addr, sh', e);
    KeysShrink(sh.index, s[e].key, sh'.index);
  }

  /** The slots once the predecessor `p` of `e`, if there is one, has lost its link to `e`. */
  function CutOff<K, V>(s: seq<Slot<K, V>>, p: int, e: int): seq<Slot<K, V>>
    requires 0 <= p < |s| && s[p].Used?
  {
    if p == e then s else s[p := Used(0, s[p].key, s[p].value)]
  }

  lemma CutShown<K(!new), V>(s: seq<Slot<K, V>>, addr: K -> int, sh: Shape<K>, p: int, e: int, sh': Shape<K>)
    requires Shows(s, addr, sh, -1) && sh'.Valid(|s|)
    requires 1 <= e < |s| && s[e].Used? && s[e].next == 0 && 1 <= p < |s| && s[p].Used?
    requires if p == e then sh'.chains.next == sh.chains.next else sh'.chains.next == sh.chains.next[p := 0]
    requires sh'.chains.home == sh.chains.home[e := 0]
    requires sh'.ring == sh.ring && sh'.index == sh.index - {s[e].key}
    ensures forall i {:trigger Shown(CutOff(s, p, e), addr, sh', i)} | 0 <= i < |s| && i != e ::
      Shown(CutOff(s, p, e), addr, sh', i)
  {
    assert Shown(s, addr, sh, e);
    forall i | 0 <= i < |s| && i != e ensures Shown(CutOff(s, p, e), addr, sh', i) {
      assert Shown(s, addr, sh, i);
    }
  }

  lemma CutLocated<K(!new), V>(s: seq<Slot<K, V>>, addr: K -> int, sh: Shape<K>, p: int, e: int, sh': Shape<K>)
    requires Shows(s, addr, sh, -1)
    requires 1 <= e < |s| && s[e].Used? && 1 <= p < |s| && s[p].Used?
    requires sh'.index == sh.index - {s[e].key}
    ensures s[e].key in sh.index
    ensures forall k {:trigger Located(CutOff(s, p, e), sh', k)} | k in sh'.index ::
      Located(CutOff(s, p, e), sh', k) && sh'.index[k] != e
    ensures MapOf(CutOff(s, p, e), sh') == MapOf(s, sh) - {s[e].key}
  {
    assert Shown(s, addr, sh, e);
    forall k | k in sh'.index ensures Located(s, sh, k) && Located(CutOff(s, p, e), sh', k) && sh'.index[k] != e {
      assert Located(s, sh, k);
    }
  }

  lemma KeysShrink<K>(m: map<K, int>, key: K, m': map<K, int>)
    requires key in m && m'.Keys == m.Keys - {key}
    ensures |m'| == |m| - 1
  {
    assert |m'| == |m'.Keys| && |m| == |m.Keys|;
  }

  /** The successor's entry moves into `e`; the successor's slot is the hole. */
  lemma AbsorbShows<K(!new), V>(s: seq<Slot<K, V>>, addr: K -> int, sh: Shape<K>, e: int)
      returns (sh': Shape<K>)
    requires Shows(s, addr, sh, -1)
    requires 1 <= e < |s| && s[e].Used? && s[e].next > 0
    ensures s[e].next < |s| && s[s[e].next].Used?
    ensures Shows(s[e := s[s[e].next]], addr, sh', s[e].next)
    ensures s[e].key in sh.index && |sh'.index| == |sh.index| - 1
    ensures MapOf(s[e := s[s[e].next]], sh') == MapOf(s, sh) - {s[e].key}
  {
    UsedLinks(s, addr, sh, -1, e);
    var q := s[e].next;
    assert Shown(s, addr, sh, e) && Shown(s, addr, sh, q);
    assert sh.chains.Linked(q);
    ExciseKeeps(sh.chains, q);
    sh' := sh.(chains := sh.chains.Excise(q), index := (sh.index - {s[e].key})[s[q].key := e]);
    var t := s[e := s[q]];
    AbsorbedShown(s, addr, sh, e, q, sh');
    AbsorbedLocated(s, addr, sh, e, q, sh');
    assert Shows(t, addr, sh', q);
    KeysShrink(sh.index, s[e].key, sh'.index);
  }

  lemma AbsorbedShown<K(!new), V>(s: seq<Slot<K, V>>, addr: K -> int, sh: Shape<K>, e: int, q: int, sh': Shape<K>)
    requires Shows(s, addr, sh, -1) && sh'.Valid(|s|)
    requires 1 <= e < |s| && 1 <= q < |s| && e != q && s[e].Used? && s[q].Used?
    requires s[e].next == q && addr(s[e].key) == addr(s[q].key)
    requires sh'.chains.next == sh.chains.next[e := sh.chains.next[q]] && sh'.chains.home == sh.chains.home[q := 0]
    requires sh'.ring == sh.ring && sh'.index == (sh.index - {s[e].key})[s[q].key := e]
    ensures forall i {:trigger Shown(s[e := s[q]], addr, sh', i)} | 0 <= i < |s| && i != q ::
      Shown(s[e := s[q]], addr, sh', i)
  {
    var t := s[e := s[q]];
    assert Shown(s, addr, sh, e) && Shown(s, addr, sh, q);
    forall i | 0 <= i < |t| && i != q ensures Shown(t, addr, sh', i) {
      assert Shown(s, addr, sh, i);
    }
  }

  lemma AbsorbedLocated<K(!new), V>(s: seq<Slot<K, V>>, addr: K -> int, sh: Shape<K>, e: int, q: int, sh': Shape<K>)
    requires Shows(s, addr, sh, -1)
    requires 1 <= e < |s| && 1 <= q < |s| && e != q && s[e].Used? && s[q].Used?
    requires sh'.index == (sh.index - {s[e].key})[s[q].key := e]
    ensures s[e].key in sh.index && s[q].key in sh.index && s[e].key != s[q].key
    ensures forall k {:trigger Located(s[e := s[q]], sh', k)} | k in sh'.index ::
      Located(s[e := s[q]], sh', k) && sh'.index[k] != q
    ensures MapOf(s[e := s[q]], sh') == MapOf(s, sh) - {s[e].key}
  {
    var t := s[e := s[q]];
    assert Shown(s, addr, sh, e) && Shown(s, addr, sh, q);
    forall k | k in sh'.index ensures Located(s, sh, k) && Located(t, sh', k) && sh'.index[k] != q {
      assert Located(s, sh, k);
    }
  }

  /** An update of the value stored with a present key. */
  lemma UpdateShows<K(!new), V>(s: seq<Slot<K, V>>, addr: K -> int, sh: Shape<K>, e: int, value: V)
    requires Shows(s, addr, sh, -1)
    requires 1 <= e < |s| && s[e].Used?
    ensures Shows(s[e := Used(s[e].next, s[e].key, value)], addr, sh, -1)
    ensures s[e].key in sh.index
    ensures MapOf(s[e := Used(s[e].next, s[e].key, value)], sh) == MapOf(s, sh)[s[e].key := value]
  {
    var t := s[e := Used(s[e].next, s[e].key, value)];
    assert Shown(s, addr, sh, e);
    forall i | 0 <= i < |t| && i != -1 ensures Shown(t, addr, sh, i) {
      assert Shown(s, addr, sh, i);
    }
    forall k | k in sh.index ensures Located(s, sh, k) && Located(t, sh, k) {
      assert Located(s, sh, k);
    }
  }
}
