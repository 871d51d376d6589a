/** Sequences without duplicates: erasing, counting, pigeonhole. */
module Collections {

  ghost predicate NoDup<T>(s: seq<T>) {
    forall j, k {:trigger s[j], s[k]} | 0 <= j < k < |s| :: s[j] != s[k]
  }

  ghost function Below(n: nat): (a: set<int>)
    ensures |a| == n && forall i :: i in a <==> 0 <= i < n
  {
    if n == 0 then {} else Below(n - 1) + {n - 1}
  }

  /** The list after unlinking one node, in the same order. */
  function Erase<T(==)>(s: seq<T>, x: T): (r: seq<T>)
    ensures x in s ==> |r| == |s| - 1
  {
    if s == [] then [] else if s[0] == x then s[1..] else [s[0]] + Erase(s[1..], x)
  }

  lemma {:induction false} EraseIs<T>(s: seq<T>, x: T)
    requires NoDup(s)
    ensures forall y :: y in Erase(s, x) <==> y in s && y != x
    ensures NoDup(Erase(s, x))
  {
    if s != [] {
      EraseIs(s[1..], x);
      assert s == [s[0]] + s[1..];
      assert s[0] !in s[1..];
    }
  }

  /** Where a value is in a list that holds it. */
  function IndexOf<T(==)>(s: seq<T>, x: T): (k: nat)
    requires x in s
    ensures k < |s| && s[k] == x
  {
    if s[0] == x then 0 else 1 + IndexOf(s[1..], x)
  }

  lemma {:induction false} DistinctSize<T>(s: seq<T>, a: set<T>)
    requires NoDup(s) && forall x :: x in a <==> x in s
    ensures |s| == |a|
  {
    if s != [] {
      DistinctSize(s[1..], a - {s[0]});
    } else {
      assert forall x :: x in a ==> x in s;
      assert a == {};
    }
  }

  /** A duplicate-free list of members of a finite set is no longer than the set is large. */
  lemma Pigeonhole<T>(s: seq<T>, a: set<T>)
    requires NoDup(s) && forall k | 0 <= k < |s| :: s[k] in a
    ensures |s| <= |a|
  {
    var b := set x | x in s;
    DistinctSize(s, b);
    assert b <= a;
    assert |a| == |b| + |a - b|;
  }
}
