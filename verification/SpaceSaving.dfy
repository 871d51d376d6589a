/**
 The Space-Saving summary of Metwally et al. as a list of monitored values, and
 what it guarantees about any stream it was fed: the independent account that
 `stream_summary`'s bucket lists are proved against.
 */
module SpaceSaving {

  datatype Entry<T> = Entry(value: T, count: int, error: int)

  /** True frequency of a value in a stream. */
  function Freq<T(==)>(stream: seq<T>, v: T): (n: nat)
    ensures n <= |stream|
  {
    if stream == [] then 0
    else Freq(stream[..|stream| - 1], v) + if stream[|stream| - 1] == v then 1 else 0
  }

  function TotalCount<T>(es: seq<Entry<T>>): int {
    if es == [] then 0 else TotalCount(es[..|es| - 1]) + es[|es| - 1].count
  }

  ghost predicate Monitored<T>(es: seq<Entry<T>>, v: T) {
    exists i {:trigger es[i]} :: 0 <= i < |es| && es[i].value == v
  }

  ghost predicate IsMin<T>(es: seq<Entry<T>>, m: int) {
    0 <= m < |es| && forall j {:trigger es[j]} | 0 <= j < |es| :: es[m].count <= es[j].count
  }

  /** One step on value `v`, which lands in entry `i`: count it, add it, or replace a least entry. */
  ghost predicate Updated<T>(es: seq<Entry<T>>, maxSize: nat, v: T, i: int, es': seq<Entry<T>>) {
    if 0 <= i < |es| && es[i].value == v then
      es' == es[i := es[i].(count := es[i].count + 1)]
    else if i == |es| then
      !Monitored(es, v) && |es| < maxSize && es' == es + [Entry(v, 1, 0)]
    else
      !Monitored(es, v) && |es| == maxSize && IsMin(es, i) && es' == es[i := Entry(v, es[i].count + 1, es[i].count)]
  }

  /** What the summary says about the stream it has consumed. */
  ghost predicate Summarizes<T(!new)>(es: seq<Entry<T>>, stream: seq<T>, maxSize: nat) {
    && |es| <= maxSize
    && (forall i, j {:trigger es[i], es[j]} | 0 <= i < j < |es| :: es[i].value != es[j].value)
    && (forall i {:trigger es[i]} | 0 <= i < |es| ::
          0 <= es[i].error && es[i].count - es[i].error <= Freq(stream, es[i].value) <= es[i].count && 0 < es[i].count)
    && (forall i, j {:trigger es[i].error, es[j].count} | 0 <= i < |es| && 0 <= j < |es| :: es[i].error <= es[j].count)
    && (forall v {:trigger Freq(stream, v)} :: Monitored(es, v) || UnmonitoredBound(es, maxSize, Freq(stream, v)))
    && (|es| < maxSize ==> forall i {:trigger es[i].error} | 0 <= i < |es| :: es[i].error == 0)
    && TotalCount(es) == |stream|
  }

  /** An unmonitored value was never seen, or at most as often as the least monitored count. */
  ghost predicate UnmonitoredBound<T>(es: seq<Entry<T>>, maxSize: nat, n: nat) {
    if |es| < maxSize then n == 0
    else forall j {:trigger es[j]} | 0 <= j < |es| :: n <= es[j].count
  }

  lemma FreqPush<T>(stream: seq<T>, v: T, x: T)
    ensures Freq(stream + [v], x) == Freq(stream, x) + if x == v then 1 else 0
  {
    assert (stream + [v])[..|stream|] == stream;
  }

  lemma {:induction false} TotalCountUpdate<T>(es: seq<Entry<T>>, i: nat, e: Entry<T>)
    requires i < |es|
    ensures TotalCount(es[i := e]) == TotalCount(es) - es[i].count + e.count
  {
    var n := |es| - 1;
    if i < n {
      TotalCountUpdate(es[..n], i, e);
      assert es[i := e][..n] == es[..n][i := e];
    } else {
      assert es[i := e][..n] == es[..n];
    }
  }

  lemma TotalCountPush<T>(es: seq<Entry<T>>, e: Entry<T>)
    ensures TotalCount(es + [e]) == TotalCount(es) + e.count
  {
    assert (es + [e])[..|es|] == es;
  }

  lemma MonitoredAt<T(!new)>(es: seq<Entry<T>>, i: nat)
    requires i < |es|
    ensures Monitored(es, es[i].value)
  {
  }

  lemma NotMonitored<T(!new)>(es: seq<Entry<T>>, v: T)
    requires !Monitored(es, v)
    ensures forall i {:trigger es[i]} | 0 <= i < |es| :: es[i].value != v
  {
  }

  /** A value that stays unmonitored, or that an entry still holds, keeps its bound when counts only grow. */
  lemma BoundGrows<T(!new)>(es: seq<Entry<T>>, es': seq<Entry<T>>, maxSize: nat, x: T, n: nat)
    requires Monitored(es, x) || UnmonitoredBound(es, maxSize, n)
    requires |es| <= |es'| <= maxSize && (|es| < |es'| ==> n == 0 || Monitored(es, x))
    requires forall j {:trigger es'[j]} | 0 <= j < |es| :: es'[j].value == es[j].value && es[j].count <= es'[j].count
    requires forall j {:trigger es'[j]} | 0 <= j < |es'| :: 0 <= es'[j].count
    ensures Monitored(es', x) || UnmonitoredBound(es', maxSize, n)
  {
    if Monitored(es, x) {
      var k :| 0 <= k < |es| && es[k].value == x;
      assert es'[k].value == x;
    }
  }

  lemma CountStep<T(!new)>(es: seq<Entry<T>>, stream: seq<T>, maxSize: nat, v: T, i: nat)
    requires Summarizes(es, stream, maxSize) && i < |es| && es[i].value == v
    ensures Summarizes(es[i := es[i].(count := es[i].count + 1)], stream + [v], maxSize)
  {
    hide Monitored, UnmonitoredBound, Freq;
    var e := es[i].(count := es[i].count + 1);
    var es' := es[i := e];
    TotalCountUpdate(es, i, e);
    forall x ensures Freq(stream + [v], x) == Freq(stream, x) + if x == v then 1 else 0 {
      FreqPush(stream, v, x);
    }
    MonitoredAt(es', i);
    forall x | x != v ensures Monitored(es', x) || UnmonitoredBound(es', maxSize, Freq(stream + [v], x)) {
      BoundGrows(es, es', maxSize, x, Freq(stream, x));
    }
  }

  lemma UnseenIsZero<T(!new)>(es: seq<Entry<T>>, stream: seq<T>, maxSize: nat, x: T)
    requires Summarizes(es, stream, maxSize) && |es| < maxSize
    ensures Monitored(es, x) || Freq(stream, x) == 0
  {
    assert Monitored(es, x) || UnmonitoredBound(es, maxSize, Freq(stream, x));
  }

  lemma AddStep<T(!new)>(es: seq<Entry<T>>, stream: seq<T>, maxSize: nat, v: T)
    requires Summarizes(es, stream, maxSize) && !Monitored(es, v) && |es| < maxSize
    ensures Summarizes(es + [Entry(v, 1, 0)], stream + [v], maxSize)
  {
    hide Monitored, UnmonitoredBound, Freq, TotalCount;
    var es' := es + [Entry(v, 1, 0)];
    TotalCountPush(es, Entry(v, 1, 0));
    forall x ensures Freq(stream + [v], x) == Freq(stream, x) + if x == v then 1 else 0 {
      FreqPush(stream, v, x);
    }
    UnseenIsZero(es, stream, maxSize, v);
    NotMonitored(es, v);
    MonitoredAt(es', |es|);
    forall x | x != v ensures Monitored(es', x) || UnmonitoredBound(es', maxSize, Freq(stream + [v], x)) {
      UnseenIsZero(es, stream, maxSize, x);
      BoundGrows(es, es', maxSize, x, Freq(stream, x));
    }
  }

  lemma ReplaceStep<T(!new)>(es: seq<Entry<T>>, stream: seq<T>, maxSize: nat, v: T, m: nat)
    requires Summarizes(es, stream, maxSize) && !Monitored(es, v) && |es| == maxSize && IsMin(es, m)
    ensures Summarizes(es[m := Entry(v, es[m].count + 1, es[m].count)], stream + [v], maxSize)
  {
    hide Monitored;
    var e := Entry(v, es[m].count + 1, es[m].count);
    var es' := es[m := e];
    TotalCountUpdate(es, m, e);
    forall x ensures Freq(stream + [v], x) == Freq(stream, x) + if x == v then 1 else 0 {
      FreqPush(stream, v, x);
    }
    NotMonitored(es, v);
    assert Freq(stream, v) <= es[m].count;
    forall x ensures Monitored(es', x) || UnmonitoredBound(es', maxSize, Freq(stream + [v], x)) {
      ReplaceBound(es, stream, maxSize, v, m, x);
    }
  }

  /** The evicted value joins the unmonitored ones, whose bound its own count is. */
  lemma ReplaceBound<T(!new)>(es: seq<Entry<T>>, stream: seq<T>, maxSize: nat, v: T, m: nat, x: T)
    requires Summarizes(es, stream, maxSize) && |es| == maxSize && IsMin(es, m)
    ensures var es' := es[m := Entry(v, es[m].count + 1, es[m].count)];
      Monitored(es', x) || (x != v && UnmonitoredBound(es', maxSize, Freq(stream, x)))
  {
    var es' := es[m := Entry(v, es[m].count + 1, es[m].count)];
    assert es'[m].value == v;
    if !Monitored(es', x) {
      forall j | 0 <= j < |es'| ensures Freq(stream, x) <= es'[j].count {
        if Monitored(es, x) {
          var k :| 0 <= k < |es| && es[k].value == x;
          assert es'[k] == es[k] || k == m;
          assert es[m].count <= es[j].count;
        } else {
          assert Freq(stream, x) <= es[j].count;
        }
      }
    }
  }

  /** Every step of the algorithm keeps every guarantee. */
  lemma UpdateKeeps<T(!new)>(es: seq<Entry<T>>, stream: seq<T>, maxSize: nat, v: T, i: int, es': seq<Entry<T>>)
    requires Summarizes(es, stream, maxSize) && Updated(es, maxSize, v, i, es')
    ensures Summarizes(es', stream + [v], maxSize)
  {
    if 0 <= i < |es| && es[i].value == v {
      CountStep(es, stream, maxSize, v, i);
    } else if i == |es| {
      AddStep(es, stream, maxSize, v);
    } else {
      ReplaceStep(es, stream, maxSize, v, i);
    }
  }

  // ---- what a user of the summary gets ----

  lemma {:induction false} TotalAtLeast<T>(es: seq<Entry<T>>, c: int)
    requires forall j {:trigger es[j]} | 0 <= j < |es| :: c <= es[j].count
    ensures c * |es| <= TotalCount(es)
  {
    if es != [] {
      TotalAtLeast(es[..|es| - 1], c);
      assert c * |es| == c * (|es| - 1) + c;
    }
  }

  /** No count is over by more than N/maxSize. */
  lemma ErrorBound<T(!new)>(es: seq<Entry<T>>, stream: seq<T>, maxSize: nat, i: nat)
    requires Summarizes(es, stream, maxSize) && i < |es|
    ensures es[i].error * maxSize <= |stream|
    ensures 0 <= es[i].count - Freq(stream, es[i].value) <= es[i].error
  {
    if |es| == maxSize {
      forall j | 0 <= j < |es| ensures es[i].error <= es[j].count {
      }
      TotalAtLeast(es, es[i].error);
    } else {
      assert es[i].error == 0;
    }
  }

  /** Once the summary is full, the least count is at most N/maxSize. */
  lemma MinCountBound<T(!new)>(es: seq<Entry<T>>, stream: seq<T>, maxSize: nat, m: int)
    requires Summarizes(es, stream, maxSize) && |es| == maxSize && IsMin(es, m)
    ensures es[m].count * maxSize <= |stream|
  {
    TotalAtLeast(es, es[m].count);
  }

  /** A value that makes up more than one part in maxSize of the stream cannot be missed. */
  lemma HeavyHittersAreMonitored<T(!new)>(es: seq<Entry<T>>, stream: seq<T>, maxSize: nat, v: T)
    requires Summarizes(es, stream, maxSize)
    requires Freq(stream, v) * maxSize > |stream|
    ensures Monitored(es, v)
  {
    if !Monitored(es, v) {
      assert UnmonitoredBound(es, maxSize, Freq(stream, v));
      if |es| == maxSize {
        TotalAtLeast(es, Freq(stream, v));
      }
    }
  }

  /** While fewer than maxSize different values were seen, the summary is exact. */
  lemma ExactUntilFull<T(!new)>(es: seq<Entry<T>>, stream: seq<T>, maxSize: nat, v: T)
    requires Summarizes(es, stream, maxSize) && |es| < maxSize
    ensures Monitored(es, v) <==> 0 < Freq(stream, v)
    ensures forall i | 0 <= i < |es| && es[i].value == v :: es[i].count == Freq(stream, v)
  {
    if Monitored(es, v) {
      var k :| 0 <= k < |es| && es[k].value == v;
      assert es[k].error == 0;
    } else {
      assert UnmonitoredBound(es, maxSize, Freq(stream, v));
    }
    forall i | 0 <= i < |es| && es[i].value == v ensures es[i].count == Freq(stream, v) {
      assert es[i].error == 0;
    }
  }
}
