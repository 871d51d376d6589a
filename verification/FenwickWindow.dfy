/**
 `fenwick_window`: a running count over a sliding window of time bins, kept in two
 Fenwick trees that swap roles as time advances. It is proved equal to a plain sum
 over the history of events.
 */
module FenwickWindow {
  import opened Wrappers
  import opened Arith
  import opened Bits
  import opened Fenwick

  datatype WindowError = OutOfOrder | NegativeTime

  /** An increment stamped with the index of its time bin. */
  datatype Event = Event(bin: int, increment: int)

  /** The specification: the sum of the increments in bins `lo` (included) to `hi` (excluded). */
  function SumBetween(history: seq<Event>, lo: int, hi: int): int {
    if history == [] then 0
    else
      var e := history[|history| - 1];
      SumBetween(history[..|history| - 1], lo, hi) + if lo <= e.bin < hi then e.increment else 0
  }

  /** The bins `start` .. `start + n - 1` of a history. */
  function BinsOf(history: seq<Event>, start: int, n: nat): (raw: seq<int>)
    ensures |raw| == n
    ensures forall k {:trigger raw[k]} | 0 <= k < n :: raw[k] == SumBetween(history, start + k, start + k + 1)
  {
    seq(n, k => SumBetween(history, start + k, start + k + 1))
  }

  lemma SumPush(history: seq<Event>, e: Event, lo: int, hi: int)
    ensures SumBetween(history + [e], lo, hi)
         == SumBetween(history, lo, hi) + if lo <= e.bin < hi then e.increment else 0
  {
    assert (history + [e])[..|history|] == history;
  }

  lemma {:induction false} SumSplit(history: seq<Event>, lo: int, mid: int, hi: int)
    requires lo <= mid <= hi
    ensures SumBetween(history, lo, hi) == SumBetween(history, lo, mid) + SumBetween(history, mid, hi)
  {
    if history != [] {
      SumSplit(history[..|history| - 1], lo, mid, hi);
    }
  }

  lemma {:induction false} SumNone(history: seq<Event>, lo: int, hi: int)
    requires forall k | 0 <= k < |history| :: history[k].bin < lo
    ensures SumBetween(history, lo, hi) == 0
  {
    if history != [] {
      SumNone(history[..|history| - 1], lo, hi);
    }
  }

  /** Summing bins is summing events. */
  lemma {:induction false} RangeOfBins(raw: seq<int>, history: seq<Event>, start: int, lo: nat, hi: nat)
    requires lo <= hi <= |raw|
    requires forall k {:trigger raw[k]} | lo <= k < hi :: raw[k] == SumBetween(history, start + k, start + k + 1)
    ensures RangeSum(raw, lo, hi) == SumBetween(history, start + lo, start + hi)
  {
    if lo < hi {
      RangeOfBins(raw, history, start, lo, hi - 1);
      SumSplit(history, start + lo, start + hi - 1, start + hi);
    } else {
      EmptyRange(history, start + lo);
    }
  }

  lemma {:induction false} EmptyRange(history: seq<Event>, lo: int)
    ensures SumBetween(history, lo, lo) == 0
  {
    if history != [] {
      EmptyRange(history[..|history| - 1], lo);
    }
  }

  /** Which of the two windows a bin index falls into, as `(index & (2B - 1)) >= B` computes it. */
  function InSecond(index: nat, binCount: nat): bool
    requires 0 < binCount
  {
    index % (2 * binCount) >= binCount
  }

  lemma InSecondIsParity(index: nat, binCount: nat)
    requires 0 < binCount
    ensures InSecond(index, binCount) <==> index / binCount % 2 == 1
    ensures index % (2 * binCount) % binCount == index % binCount
  {
    var q, m := index / binCount, index % binCount;
    assert index == (q / 2 * 2 + q % 2) * binCount + m;
    assert index == q / 2 * (2 * binCount) + (q % 2 * binCount + m);
    assert q % 2 * binCount == if q % 2 == 1 then binCount else 0;
    DivModIs(index, q / 2, q % 2 * binCount + m, 2 * binCount);
    DivModIs(q % 2 * binCount + m, q % 2, m, binCount);
  }

  /** Advancing by less than a window either stays in the same aligned run of bins or enters the next one. */
  lemma RollOrStay(old': nat, index: nat, binCount: nat)
    requires 0 < binCount && old' <= index < old' + binCount
    ensures index / binCount == old' / binCount + if InSecond(index, binCount) == InSecond(old', binCount) then 0 else 1
  {
    InSecondIsParity(old', binCount);
    InSecondIsParity(index, binCount);
    hide InSecond;
    QuotientGap(old', index, binCount);
    ZeroOrOneMultiple(index / binCount - old' / binCount, binCount);
  }

  class Window {
    const binWidth: nat
    const binCount: nat
    var timeIndex: nat
    var frontWindow: bool
    const first: array<int>   // m_window[0]
    const second: array<int>  // m_window[1]
    ghost var history: seq<Event>  // every event added so far
    ghost var backBins: seq<int>  // what the back window's tree sums

    ghost function Front(): array<int>
      reads this
    {
      if frontWindow then second else first
    }

    ghost function Back(): array<int>
      reads this
    {
      if frontWindow then first else second
    }

    /** The windows are in order for a right edge at bin `t` when the front one starts at bin `base`. */
    ghost predicate WindowsAt(t: int, base: int)
      reads this, first, second
    {
      && 0 < binWidth && IsPow2(binCount) && 0 < binCount
      && first != second && first.Length == second.Length == binCount
      && base <= t < base + binCount
      && AllBefore(history, t)
      && IsTree(Front()[..], BinsOf(history, base, binCount))
      && IsTree(Back()[..], backBins) && |backBins| == binCount
      && BackCovers(history, backBins, base - binCount, t - base)
    }

    ghost predicate ValidAt(t: nat)
      reads this, first, second
    {
      && 0 < binCount
      && (frontWindow <==> InSecond(t, binCount))
      && WindowsAt(t, t - t % binCount)
    }

    ghost predicate Valid()
      reads this, first, second
    {
      ValidAt(timeIndex)
    }

    /** The count a naive implementation would give: every event less than a window old. */
    ghost function WindowCount(): int
      reads this
    {
      SumBetween(history, timeIndex - binCount + 1, timeIndex + 1)
    }

    constructor (startTime: nat, binWidth: nat, binCount: nat)
      requires 0 < binWidth && IsPow2(binCount)
      ensures Valid() && history == [] && timeIndex == startTime / binWidth
      ensures this.binWidth == binWidth && this.binCount == binCount && fresh(first) && fresh(second)
    {
      Pow2Positive(binCount);
      this.binWidth, this.binCount := binWidth, binCount;
      timeIndex := startTime / binWidth;
      frontWindow := startTime / binWidth % (2 * binCount) >= binCount;
      first := new int[binCount](_ => 0);
      second := new int[binCount](_ => 0);
      history, backBins := [], seq(binCount, _ => 0);
      new;
      hide IsTree, BinsOf, BackCovers;
      assert first[..] == second[..] == backBins;
      EmptyWindows(timeIndex - timeIndex % binCount, binCount, timeIndex % binCount);
    }

    /** The constructor as a caller sees it: a negative start is refused. */
    static method Create(startTime: int, binWidth: nat, binCount: nat) returns (r: Result<Window, WindowError>)
      requires 0 < binWidth && IsPow2(binCount)
      ensures r.Ok? <==> 0 <= startTime
      ensures r.Ok? ==>
        && r.value.Valid() && r.value.history == [] && r.value.timeIndex == startTime / binWidth
        && r.value.binWidth == binWidth && r.value.binCount == binCount
        && fresh(r.value) && fresh(r.value.first) && fresh(r.value.second)
    {
      if startTime < 0 {
        return Err(NegativeTime);
      }
      var window := new Window(startTime, binWidth, binCount);
      return Ok(window);
    }

    /** Prefix of the front window plus what remains of the back window, in one walk. */
    method CountImpl(r0: nat, ghost base: int) returns (sum: int)
      requires WindowsAt(timeIndex, base) && r0 == timeIndex - base + 1
      ensures sum == WindowCount()
    {
      ghost var fb, bb := BinsOf(history, base, binCount), backBins;
      var fw := if frontWindow then second else first;
      var bw := if frontWindow then first else second;
      LastCellIsTotal(bw[..], bb);
      var r := r0;
      sum := bw[binCount - 1];
      while r > 0
        invariant 0 <= r <= r0 <= binCount
        invariant sum == RangeSum(bb, 0, binCount) + RangeSum(fb, r, r0) - RangeSum(bb, r, r0)
      {
        assert fw[..][r - 1] == RangeSum(fb, r - LowBit(r), r);
        assert bw[..][r - 1] == RangeSum(bb, r - LowBit(r), r);
        RangeSumSplit(fb, r - LowBit(r), r, r0);
        RangeSumSplit(bb, r - LowBit(r), r, r0);
        sum := sum + (fw[r - 1] - bw[r - 1]);
        r := r - LowBit(r);
      }
      SumOfWindows(history, fb, bb, base, r0);
    }

    /** The running count as of the last `Add`. */
    method Count() returns (n: int)
      requires Valid()
      ensures n == WindowCount()
    {
      InSecondIsParity(timeIndex, binCount);
      var r := timeIndex % (2 * binCount) % binCount + 1;
      n := CountImpl(r, timeIndex - timeIndex % binCount);
    }

    /** Advances the right edge of the window and counts an event there. */
    method Add(time: nat, increment: int) returns (r: Result<int, WindowError>)
      requires Valid()
      modifies this, first, second
      ensures Valid()
      ensures r.Err? <==> time / binWidth < old(timeIndex)
      ensures r.Err? ==>
        history == old(history) && timeIndex == old(timeIndex) && frontWindow == old(frontWindow)
        && first[..] == old(first[..]) && second[..] == old(second[..])
      ensures r.Ok? ==>
        && timeIndex == time / binWidth && history == old(history) + [Event(timeIndex, increment)]
        && r.value == WindowCount()
    {
      var index := time / binWidth;
      var edge := index % (2 * binCount);
      InSecondIsParity(index, binCount);
      var u := edge % binCount + 1;
      ghost var base := index - index % binCount;
      r := Record(index, base, edge >= binCount, u, increment);
    }

    method Record(index: nat, ghost base: int, inSecond: bool, u: nat, increment: int)
        returns (r: Result<int, WindowError>)
      requires Valid() && inSecond == InSecond(index, binCount)
      requires base == index - index % binCount && u == index - base + 1
      modifies this, first, second
      ensures r.Err? <==> index < old(timeIndex)
      ensures r.Err? ==>
        history == old(history) && timeIndex == old(timeIndex) && frontWindow == old(frontWindow)
        && backBins == old(backBins) && first[..] == old(first[..]) && second[..] == old(second[..])
      ensures r.Ok? ==>
        && WindowsAt(timeIndex, base) && frontWindow == inSecond
        && timeIndex == index && history == old(history) + [Event(timeIndex, increment)]
        && r.value == WindowCount()
    {
      var ok := Advance(index, base, inSecond);
      if !ok {
        return Err(OutOfOrder);
      }
      PointUpdate(index, base, u, increment);
      timeIndex := index;
      var n := CountImpl(u, base);
      return Ok(n);
    }

    /** The three cases of an advancing edge: reset both windows, roll them, or neither. */
    method Advance(index: nat, ghost base: int, inSecond: bool) returns (ok: bool)
      requires Valid() && inSecond == InSecond(index, binCount) && base == index - index % binCount
      modifies first, second, `frontWindow, `backBins
      ensures ok <==> timeIndex <= index
      ensures ok ==> WindowsAt(index, base) && frontWindow == inSecond
      ensures !ok ==>
        && frontWindow == old(frontWindow) && backBins == old(backBins)
        && first[..] == old(first[..]) && second[..] == old(second[..])
    {
      if index >= timeIndex + binCount {
        Reset(index, base, inSecond);
      } else if index < timeIndex {
        return false;
      } else {
        NextBase(timeIndex, index, binCount);
        if inSecond != frontWindow {
          Roll(index, base, inSecond);
        }
      }
      return true;
    }

    method Clear(a: array<int>)
      modifies a
      ensures forall k | 0 <= k < a.Length :: a[k] == 0
    {
      for k := 0 to a.Length
        invariant forall i | 0 <= i < k :: a[i] == 0
      {
        a[k] := 0;
      }
    }

    /** Everything counted so far is a window or more old. */
    method Reset(ghost index: nat, ghost base: int, inSecond: bool)
      requires 0 < binCount && WindowsAt(timeIndex, timeIndex - timeIndex % binCount)
      requires index >= timeIndex + binCount && base <= index < base + binCount
      modifies first, second, `frontWindow, `backBins
      ensures WindowsAt(index, base) && frontWindow == inSecond
    {
      Clear(first);
      Clear(second);
      frontWindow := inSecond;
      OldBinsAreZero(history, base, binCount);
      ClearedIsTree(first[..]);
      ClearedIsTree(second[..]);
      backBins := Back()[..];
      OldBackCovers(history, backBins, base - binCount, index - base, timeIndex);
      assert Front()[..] == BinsOf(history, base, binCount);
    }

    /** The front window becomes the back one as it is; the old back is cleared. */
    method Roll(ghost index: nat, ghost base: int, inSecond: bool)
      requires WindowsAt(timeIndex, base - binCount) && base <= index < timeIndex + binCount
      requires inSecond != frontWindow
      modifies first, second, `frontWindow, `backBins
      ensures WindowsAt(index, base) && frontWindow == inSecond
    {
      backBins := BinsOf(history, base - binCount, binCount);
      frontWindow := inSecond;
      ghost var back := Back()[..];
      Clear(if inSecond then second else first);
      assert Back()[..] == back;
      OldBinsAreZero(history, base, binCount);
      ClearedIsTree(Front()[..]);
      assert Front()[..] == BinsOf(history, base, binCount);
    }

    /** Adds to one bin of the front window, whose number within it is `r` - 1. */
    method PointUpdate(ghost index: nat, ghost base: int, r: nat, increment: int)
      requires WindowsAt(index, base) && r == index - base + 1
      modifies first, second, `history
      ensures WindowsAt(index, base) && history == old(history) + [Event(index, increment)]
    {
      ghost var raw := BinsOf(history, base, binCount);
      ghost var e := Event(index, increment);
      UpdateTree(if frontWindow then second else first, raw, r, increment);
      BinsPush(history, e, base, binCount);
      BackPush(history, e, backBins, base - binCount, index - base);
      history := history + [e];
    }

    /** The update walk: from cell `r` to every later cell that covers bin `r` - 1. */
    method UpdateTree(fw: array<int>, ghost raw: seq<int>, r: nat, increment: int)
      requires fw.Length == binCount && IsTree(fw[..], raw) && 1 <= r <= binCount
      modifies fw
      ensures IsTree(fw[..], raw[r - 1 := raw[r - 1] + increment])
    {
      ghost var raw' := raw[r - 1 := raw[r - 1] + increment];
      var u := r;
      UpdateStart(fw[..], raw, r, raw[r - 1] + increment);
      while u <= binCount
        invariant r <= u && u - LowBit(u) < r
        invariant Updating(fw[..], raw, raw', u)
        decreases binCount - u
      {
        ghost var tree := fw[..];
        UpdateStep(tree, raw, r, increment, u);
        fw[u - 1] := fw[u - 1] + increment;
        assert fw[..] == tree[u - 1 := tree[u - 1] + increment];
        u := u + LowBit(u);
      }
      UpdateEnd(fw[..], raw, raw', u);
    }
  }

  /** Advancing by less than a window keeps the front window's first bin, or moves it by one window. */
  lemma NextBase(old': nat, index: nat, binCount: nat)
    requires 0 < binCount && old' <= index < old' + binCount
    ensures index - index % binCount
            == old' - old' % binCount + if InSecond(index, binCount) == InSecond(old', binCount) then 0 else binCount
  {
    hide InSecond;
    RollOrStay(old', index, binCount);
    QuotientGap(old', index, binCount);
  }

  ghost predicate AllBefore(history: seq<Event>, t: int) {
    forall k {:trigger history[k]} | 0 <= k < |history| :: history[k].bin <= t
  }

  /** Two trees of zeros are in order for a window without events. */
  lemma EmptyWindows(start: int, n: nat, edge: nat)
    ensures var bins := seq(n, _ => 0);
      IsTree(bins, bins) && bins == BinsOf([], start, n) && BackCovers([], bins, start - n, edge)
  {
    var bins := seq(n, _ => 0);
    ClearedIsTree(bins);
    assert bins == BinsOf([], start, n);
  }

  lemma OldBinsAreZero(history: seq<Event>, start: int, n: nat)
    requires forall k | 0 <= k < |history| :: history[k].bin < start
    ensures forall k {:trigger BinsOf(history, start, n)[k]} | 0 <= k < n :: BinsOf(history, start, n)[k] == 0
  {
    forall k | 0 <= k < n ensures BinsOf(history, start, n)[k] == 0 {
      SumNone(history, start + k, start + k + 1);
    }
  }

  lemma OldBackCovers(history: seq<Event>, bins: seq<int>, start: int, edge: nat, t: int)
    requires AllBefore(history, t) && t <= start + edge && forall k | 0 <= k < |bins| :: bins[k] == 0
    ensures BackCovers(history, bins, start, edge)
  {
    forall k | edge < k < |bins| ensures bins[k] == SumBetween(history, start + k, start + k + 1) {
      SumNone(history, start + k, start + k + 1);
    }
  }

  lemma BinsPush(history: seq<Event>, e: Event, start: int, n: nat)
    requires start <= e.bin < start + n
    ensures BinsOf(history + [e], start, n)
            == BinsOf(history, start, n)[e.bin - start := BinsOf(history, start, n)[e.bin - start] + e.increment]
  {
    forall k | 0 <= k < n
      ensures BinsOf(history + [e], start, n)[k]
           == BinsOf(history, start, n)[k] + if k == e.bin - start then e.increment else 0
    {
      SumPush(history, e, start + k, start + k + 1);
    }
  }

  lemma BackPush(history: seq<Event>, e: Event, bins: seq<int>, start: int, edge: nat)
    requires BackCovers(history, bins, start, edge) && e.bin >= start + |bins|
    ensures BackCovers(history + [e], bins, start, edge)
  {
    forall k | edge < k < |bins| ensures bins[k] == SumBetween(history + [e], start + k, start + k + 1) {
      SumPush(history, e, start + k, start + k + 1);
    }
  }

  /** The first bins of the front window and the last ones of the back window are the sliding window. */
  lemma SumOfWindows(history: seq<Event>, front: seq<int>, back: seq<int>, base: int, r: nat)
    requires 1 <= r <= |front| == |back| && front == BinsOf(history, base, |front|)
    requires BackCovers(history, back, base - |back|, r - 1)
    ensures RangeSum(back, 0, |back|) + RangeSum(front, 0, r) - RangeSum(back, 0, r)
            == SumBetween(history, base + r - |front|, base + r)
  {
    RangeSumSplit(back, 0, r, |back|);
    RangeOfBins(front, history, base, 0, r);
    RangeOfBins(back, history, base - |back|, r, |back|);
    SumSplit(history, base + r - |front|, base, base + r);
  }

  /** Bin k of the back window is right for every bin that is still inside the sliding window. */
  ghost predicate BackCovers(history: seq<Event>, bins: seq<int>, start: int, edge: nat) {
    forall k {:trigger bins[k]} | edge < k < |bins| :: bins[k] == SumBetween(history, start + k, start + k + 1)
  }
}
