/**
 The singly linked free list of `fixed_size_allocator`, threaded through the slots
 it lists: the first word of a free slot is the reference of the next free one.
 */
module FreeLists {
  import opened Collections

  /** `list` is what following the links from `head` meets before the null reference. */
  ghost predicate IsList(words: seq<int>, head: int, list: seq<int>, nullRef: int) {
    && |words| <= nullRef
    && NoDup(list)
    && head == (if list == [] then nullRef else list[0])
    && forall k {:trigger list[k]} | 0 <= k < |list| ::
         0 <= list[k] < |words| && words[list[k]] == if k + 1 < |list| then list[k + 1] else nullRef
  }

  /** The links from `head` on are acyclic and end in the null reference. */
  ghost predicate Sound(words: seq<int>, head: int, nullRef: int) {
    exists list :: IsList(words, head, list, nullRef)
  }

  lemma NullHeadIsEmpty(words: seq<int>, head: int, list: seq<int>, nullRef: int)
    requires IsList(words, head, list, nullRef)
    ensures head == nullRef <==> list == []
  {
  }

  lemma HeadOf(words: seq<int>, head: int, list: seq<int>, nullRef: int)
    requires IsList(words, head, list, nullRef)
    ensures head == (if list == [] then nullRef else list[0]) && |words| <= nullRef
  {
  }

  /** One step along the list. */
  lemma LinkOf(words: seq<int>, head: int, list: seq<int>, nullRef: int, k: nat)
    requires IsList(words, head, list, nullRef) && k < |list|
    ensures 0 <= list[k] < |words| && words[list[k]] == if k + 1 < |list| then list[k + 1] else nullRef
    ensures list[..k + 1] == list[..k] + [list[k]]
  {
  }

  lemma PopKeeps(words: seq<int>, head: int, list: seq<int>, nullRef: int)
    requires IsList(words, head, list, nullRef) && head != nullRef
    ensures list != [] && 0 <= head < |words| && IsList(words, words[head], list[1..], nullRef)
    ensures list == [head] + list[1..] && head !in list[1..]
  {
    forall k | 0 <= k < |list[1..]|
      ensures 0 <= list[1..][k] < |words|
      ensures words[list[1..][k]] == if k + 1 < |list[1..]| then list[1..][k + 1] else nullRef
    {
      assert list[1..][k] == list[k + 1];
    }
  }

  lemma PushKeeps(words: seq<int>, head: int, list: seq<int>, nullRef: int, ref: int)
    requires IsList(words, head, list, nullRef) && 0 <= ref < |words| && ref !in list
    ensures IsList(words[ref := head], ref, [ref] + list, nullRef)
  {
    var list' := [ref] + list;
    forall k | 0 <= k < |list'|
      ensures 0 <= list'[k] < |words|
      ensures words[ref := head][list'[k]] == if k + 1 < |list'| then list'[k + 1] else nullRef
    {
      assert k > 0 ==> list'[k] == list[k - 1];
    }
  }

  /** The slots of a new chunk, all but its first, are a list of their own. */
  lemma NewChunkIsList(words: seq<int>, chunk: seq<int>, nullRef: int)
    requires 1 < |chunk| && |words| + |chunk| <= nullRef
    requires forall k | 1 <= k < |chunk| :: chunk[k] == if k + 1 < |chunk| then |words| + k + 1 else nullRef
    ensures var list := seq(|chunk| - 1, k => |words| + 1 + k);
      IsList(words + chunk, |words| + 1, list, nullRef) && forall r :: r in list <==> |words| < r < |words| + |chunk|
  {
    var list := seq(|chunk| - 1, k => |words| + 1 + k);
    forall k | 0 <= k < |list|
      ensures (words + chunk)[list[k]] == if k + 1 < |list| then list[k + 1] else nullRef
    {
      assert (words + chunk)[list[k]] == chunk[k + 1];
    }
    forall r | |words| < r < |words| + |chunk| ensures r in list {
      assert list[r - |words| - 1] == r;
    }
  }

  /** Linking every slot to the next one, and the last to null, lists all slots. */
  lemma CountingWordsAreList(words: seq<int>, nullRef: int)
    requires 0 < |words| <= nullRef
    requires forall k | 0 <= k < |words| :: words[k] == if k + 1 < |words| then k + 1 else nullRef
    ensures var list := seq(|words|, k => k);
      IsList(words, 0, list, nullRef) && forall r :: r in list <==> 0 <= r < |words|
  {
    var list := seq(|words|, k => k);
    forall r | 0 <= r < |words| ensures r in list {
      assert list[r] == r;
    }
  }

  /** Words of slots that are not on the list may change freely. */
  lemma OthersMatterNot(words: seq<int>, words': seq<int>, head: int, list: seq<int>, nullRef: int)
    requires IsList(words, head, list, nullRef) && |words| <= |words'| <= nullRef
    requires forall r | 0 <= r < |words| && r in list :: words'[r] == words[r]
    ensures IsList(words', head, list, nullRef)
  {
  }

  /** The list is determined by the words: two lists agree as far as the shorter goes. */
  lemma {:induction false} ListsAgree(words: seq<int>, head: int, list: seq<int>, other: seq<int>, nullRef: int, k: nat)
    requires IsList(words, head, list, nullRef) && IsList(words, head, other, nullRef)
    requires k < |list|
    ensures k < |other| && list[k] == other[k]
  {
    if k > 0 {
      ListsAgree(words, head, list, other, nullRef, k - 1);
      assert words[list[k - 1]] == list[k] != nullRef;
    }
  }

  /** Releasing a slot that is already free ties the list into a loop with no end. */
  lemma DoubleReleaseBreaks(words: seq<int>, head: int, list: seq<int>, nullRef: int, ref: int, broken: seq<int>)
    requires IsList(words, head, list, nullRef) && ref in list
    ensures !IsList(words[ref := head], ref, broken, nullRef)
  {
    if IsList(words[ref := head], ref, broken, nullRef) {
      var at := IndexOf(list, ref);
      FollowsOld(words, head, list, nullRef, ref, broken, at);
    }
  }

  lemma {:induction false} FollowsOld(words: seq<int>, head: int, list: seq<int>, nullRef: int, ref: int,
                                      broken: seq<int>, k: nat)
    requires IsList(words, head, list, nullRef) && ref in list && k <= IndexOf(list, ref)
    requires IsList(words[ref := head], ref, broken, nullRef)
    ensures k + 1 < |broken| && broken[k + 1] == list[k]
  {
    if k > 0 {
      FollowsOld(words, head, list, nullRef, ref, broken, k - 1);
      assert list[k - 1] != ref by { assert list[k - 1] != list[IndexOf(list, ref)]; }
      assert broken[k] == list[k - 1];
      assert words[list[k - 1]] == list[k];
    } else {
      assert broken[0] == ref;
    }
  }

  /** A release keeps the free list sound exactly when the slot was not free already. */
  lemma ReleaseSoundIff(words: seq<int>, head: int, list: seq<int>, nullRef: int, ref: int)
    requires IsList(words, head, list, nullRef) && 0 <= ref < |words|
    ensures Sound(words[ref := head], ref, nullRef) <==> ref !in list
  {
    var words' := words[ref := head];
    if ref in list {
      forall after ensures !IsList(words', ref, after, nullRef) {
        DoubleReleaseBreaks(words, head, list, nullRef, ref, after);
      }
    } else {
      PushKeeps(words, head, list, nullRef, ref);
    }
  }

  lemma ReleaseListIff(words: seq<int>, head: int, list: seq<int>, nullRef: int, ref: int)
    requires IsList(words, head, list, nullRef) && 0 <= ref < |words|
    ensures IsList(words[ref := head], ref, [ref] + list, nullRef) <==> ref !in list
  {
    if ref in list {
      DoubleReleaseBreaks(words, head, list, nullRef, ref, [ref] + list);
    } else {
      PushKeeps(words, head, list, nullRef, ref);
    }
  }

  // ---- the walk of `check()` ----

  /** `seen` are the distinct slots met so far from `head`, and `ref` comes next. */
  ghost predicate Walked(words: seq<int>, head: int, seen: seq<int>, ref: int, nullRef: int) {
    && NoDup(seen)
    && (if seen == [] then ref == head else seen[0] == head)
    && forall k {:trigger seen[k]} | 0 <= k < |seen| ::
         0 <= seen[k] < |words| && words[seen[k]] == if k + 1 < |seen| then seen[k + 1] else ref
  }

  /** Any list there is starts with the slots met so far. */
  lemma {:induction false} WalkIsPrefix(words: seq<int>, head: int, seen: seq<int>, ref: int, nullRef: int,
                                        list: seq<int>, k: nat)
    requires Walked(words, head, seen, ref, nullRef) && IsList(words, head, list, nullRef)
    requires k <= |seen| && forall j | 0 <= j < |seen| :: seen[j] != nullRef
    ensures k < |seen| ==> k < |list| && list[k] == seen[k]
    ensures k == |seen| ==> k <= |list| && ref == if k < |list| then list[k] else nullRef
  {
    if k > 0 {
      WalkIsPrefix(words, head, seen, ref, nullRef, list, k - 1);
      assert list[k - 1] == seen[k - 1];
      assert words[list[k - 1]] == if k < |list| then list[k] else nullRef;
    }
  }

  /** A reference that is out of range, or was met before, rules a sound list out. */
  lemma BadRefNoList(words: seq<int>, head: int, seen: seq<int>, ref: int, nullRef: int, list: seq<int>)
    requires Walked(words, head, seen, ref, nullRef) && ref != nullRef && |words| <= nullRef
    requires ref in seen || !(0 <= ref < |words|)
    ensures !IsList(words, head, list, nullRef)
  {
    if IsList(words, head, list, nullRef) {
      WalkIsPrefix(words, head, seen, ref, nullRef, list, |seen|);
      if ref in seen {
        var k := IndexOf(seen, ref);
        WalkIsPrefix(words, head, seen, ref, nullRef, list, k);
      }
    }
  }

  lemma WalkStep(words: seq<int>, head: int, seen: seq<int>, ref: int, nullRef: int)
    requires Walked(words, head, seen, ref, nullRef) && ref !in seen && 0 <= ref < |words|
    ensures Walked(words, head, seen + [ref], words[ref], nullRef)
    ensures |seen| < |words|
  {
    var seen' := seen + [ref];
    Pigeonhole(seen', Below(|words|));
  }
}
