/**
 What the steps of `lf_spsc_buffer` achieve, beside what they keep: a dequeue consumes,
 every value that was committed can be taken out whole, and every value can be put in.
 */
module SpscProgress {
  import opened SpscBuffer

  /** All words of a value were read. */
  ghost predicate Whole<W>(read: map<nat, W>, value: seq<W>, width: nat) {
    forall k {:trigger read[k]} | 0 <= k < width :: k in read && k < |value| && read[k] == value[k]
  }

  // ---- single steps ----

  /** The end of a dequeue result consumes one value; a load reads a word of the next one; nothing else dequeues. */
  lemma ConsumerEffect<W>(s: State<W>, capacity: nat, width: nat, step: Step<W>)
    requires Inv(s, capacity, width) && Enabled(s, width, step)
    ensures var t := Apply(s, capacity, width, step);
      match step
      case EndDequeue =>
        t.dequeued == s.dequeued + [s.seen] && ConsumerPosition(t) == ConsumerPosition(s) + 1 && !t.dequeuing
      case Load(word) =>
        && |s.dequeued| < |s.committed| && word < |s.committed[|s.dequeued|]|
        && t.seen == s.seen[word := s.committed[|s.dequeued|][word]]
        && t.dequeuing && t.dequeued == s.dequeued
      case TryDequeue => t.seen == map[] && t.dequeued == s.dequeued
      case _ => t.dequeued == s.dequeued && t.seen == s.seen && t.dequeuing == s.dequeuing
  {
    if step.Load? {
      LoadIsCommitted(s, capacity, width, step.word);
    }
  }

  /** `commit()` marks the result; its end publishes it exactly if it was marked, and leaves the producer free again. */
  lemma ProducerEffect<W>(s: State<W>, capacity: nat, width: nat, step: Step<W>)
    requires Inv(s, capacity, width) && Enabled(s, width, step)
    ensures var t := Apply(s, capacity, width, step);
      match step
      case Commit => t.enqueuing == Committed && t.committed == s.committed
      case EndEnqueue =>
        && t.enqueuing == Idle
        && ProducerPosition(t) == ProducerPosition(s) + if s.enqueuing == Committed then 1 else 0
      case TryEnqueue => t.enqueuing != Committed && t.committed == s.committed
      case _ => t.enqueuing == s.enqueuing && t.committed == s.committed
  {
    StepKeepsInv(s, capacity, width, step);
    if step.EndEnqueue? {
      var t := Apply(s, capacity, width, step);
      OwnPositionIsCommitted(s.data, s.pPos, s.pBuf, s.cPos, s.committed, capacity);
      OwnPositionIsCommitted(t.data, t.pPos, t.pBuf, t.cPos, t.committed, capacity);
    }
  }

  // ---- runs ----

  lemma {:induction false} RunsConcat<W>(s: State<W>, capacity: nat, width: nat, a: seq<Step<W>>, t: State<W>,
                                         b: seq<Step<W>>, u: State<W>)
    requires 0 < capacity && Runs(s, capacity, width, a, t) && Runs(t, capacity, width, b, u)
    ensures Runs(s, capacity, width, a + b, u)
    decreases |a|
  {
    if a == [] {
      assert a + b == b;
    } else {
      assert (a + b)[0] == a[0] && (a + b)[1..] == a[1..] + b;
      RunsConcat(Apply(s, capacity, width, a[0]), capacity, width, a[1..], t, b, u);
    }
  }

  lemma OneStep<W>(s: State<W>, capacity: nat, width: nat, step: Step<W>)
    requires Inv(s, capacity, width) && Enabled(s, width, step)
    ensures Runs(s, capacity, width, [step], Apply(s, capacity, width, step))
    ensures Inv(Apply(s, capacity, width, step), capacity, width)
  {
    StepKeepsInv(s, capacity, width, step);
    assert [step][1..] == [];
    assert Runs(Apply(s, capacity, width, step), capacity, width, [], Apply(s, capacity, width, step));
  }

  /** The producer's buffered stores reach memory. */
  lemma {:induction false} FlushAllStores<W>(s: State<W>, capacity: nat, width: nat)
      returns (steps: seq<Step<W>>, t: State<W>)
    requires Inv(s, capacity, width)
    ensures Runs(s, capacity, width, steps, t) && Inv(t, capacity, width)
    ensures t == s.(data := t.data, pPos := |s.committed|, pBuf := [])
    decreases |s.pBuf|
  {
    if s.pBuf == [] {
      steps, t := [], s;
    } else {
      var u := Apply(s, capacity, width, FlushProducer);
      OneStep(s, capacity, width, FlushProducer);
      var rest;
      rest, t := FlushAllStores(u, capacity, width);
      steps := [FlushProducer] + rest;
      RunsConcat(s, capacity, width, [FlushProducer], u, rest, t);
    }
  }

  /** So does the consumer's position. */
  lemma {:induction false} FlushAllPositions<W>(s: State<W>, capacity: nat, width: nat)
      returns (steps: seq<Step<W>>, t: State<W>)
    requires Inv(s, capacity, width)
    ensures Runs(s, capacity, width, steps, t) && Inv(t, capacity, width)
    ensures t == s.(cPos := |s.dequeued|, cBuf := [])
    decreases |s.cBuf|
  {
    if s.cBuf == [] {
      steps, t := [], s;
    } else {
      var u := Apply(s, capacity, width, FlushConsumer);
      OneStep(s, capacity, width, FlushConsumer);
      var rest;
      rest, t := FlushAllPositions(u, capacity, width);
      steps := [FlushConsumer] + rest;
      RunsConcat(s, capacity, width, [FlushConsumer], u, rest, t);
    }
  }

  /** A live dequeue result can be read word by word. */
  lemma {:induction false} LoadAll<W>(s: State<W>, capacity: nat, width: nat, from: nat)
      returns (steps: seq<Step<W>>, t: State<W>)
    requires Inv(s, capacity, width) && s.dequeuing && from <= width
    requires forall k | 0 <= k < from :: k in s.seen
    ensures Runs(s, capacity, width, steps, t) && Inv(t, capacity, width)
    ensures t == s.(seen := t.seen) && forall k | 0 <= k < width :: k in t.seen
    decreases width - from
  {
    if from == width {
      steps, t := [], s;
    } else {
      var u := Apply(s, capacity, width, Load(from));
      OneStep(s, capacity, width, Load(from));
      var rest;
      rest, t := LoadAll(u, capacity, width, from + 1);
      steps := [Load(from)] + rest;
      RunsConcat(s, capacity, width, [Load(from)], u, rest, t);
    }
  }

  /** With the stores in memory, the next value can be taken out whole. */
  lemma TakeOne<W>(s: State<W>, capacity: nat, width: nat) returns (steps: seq<Step<W>>, t: State<W>)
    requires Inv(s, capacity, width) && s.pBuf == [] && |s.dequeued| < |s.committed|
    ensures Runs(s, capacity, width, steps, t) && Inv(t, capacity, width)
    ensures t.pBuf == [] && t.committed == s.committed && t.enqueuing == s.enqueuing
    ensures exists read :: t.dequeued == s.dequeued + [read] && Whole(read, s.committed[|s.dequeued|], width)
  {
    var first: seq<Step<W>>, u := [], s;
    if !s.dequeuing {
      first, u := [TryDequeue], Apply(s, capacity, width, TryDequeue);
      TrySucceedsIffRoom(s, capacity, width);
      OneStep(s, capacity, width, TryDequeue);
    }
    var loads, v := LoadAll(u, capacity, width, 0);
    RunsConcat(s, capacity, width, first, u, loads, v);
    t := Apply(v, capacity, width, EndDequeue);
    OneStep(v, capacity, width, EndDequeue);
    steps := first + loads + [EndDequeue];
    RunsConcat(s, capacity, width, first + loads, v, [EndDequeue], t);
    assert t.dequeued == s.dequeued + [v.seen];
    assert Whole(v.seen, s.committed[|s.dequeued|], width);
  }

  lemma {:induction false} TakeAll<W>(s: State<W>, capacity: nat, width: nat)
      returns (steps: seq<Step<W>>, t: State<W>)
    requires Inv(s, capacity, width) && s.pBuf == []
    ensures Runs(s, capacity, width, steps, t) && Inv(t, capacity, width)
    ensures t.pBuf == [] && t.committed == s.committed && t.enqueuing == s.enqueuing
    ensures |t.dequeued| == |t.committed| && s.dequeued <= t.dequeued
    ensures forall i | |s.dequeued| <= i < |t.dequeued| :: Whole(t.dequeued[i], t.committed[i], width)
    decreases |s.committed| - |s.dequeued|
  {
    if |s.dequeued| == |s.committed| {
      steps, t := [], s;
    } else {
      hide Inv, Runs;
      var first, u := TakeOne(s, capacity, width);
      var rest;
      rest, t := TakeAll(u, capacity, width);
      steps := first + rest;
      RunsConcat(s, capacity, width, first, u, rest, t);
      assert t.dequeued[|s.dequeued|] == u.dequeued[|s.dequeued|];
    }
  }

  /** From every reachable state, some run takes out every committed value, whole and in order,
      and empties both store buffers. */
  lemma Drains<W>(s: State<W>, capacity: nat, width: nat) returns (steps: seq<Step<W>>, t: State<W>)
    requires Inv(s, capacity, width)
    ensures Runs(s, capacity, width, steps, t) && Inv(t, capacity, width)
    ensures t.pBuf == [] && t.cBuf == [] && t.committed == s.committed && t.enqueuing == s.enqueuing
    ensures |t.dequeued| == |t.committed| && s.dequeued <= t.dequeued
    ensures forall i | |s.dequeued| <= i < |t.dequeued| :: Whole(t.dequeued[i], t.committed[i], width)
  {
    var flushed, u := FlushAllStores(s, capacity, width);
    var taken, v := TakeAll(u, capacity, width);
    var positions;
    positions, t := FlushAllPositions(v, capacity, width);
    RunsConcat(s, capacity, width, flushed, u, taken, v);
    RunsConcat(s, capacity, width, flushed + taken, v, positions, t);
    steps := flushed + taken + positions;
  }

  /** A live enqueue result can be filled word by word. */
  lemma {:induction false} StoreAll<W>(s: State<W>, capacity: nat, width: nat, value: seq<W>, from: nat)
      returns (steps: seq<Step<W>>, t: State<W>)
    requires Inv(s, capacity, width) && s.enqueuing == Open && from <= |value| == width == |OwnSlot(s, capacity)|
    requires forall k | 0 <= k < from :: OwnSlot(s, capacity)[k] == value[k]
    ensures Runs(s, capacity, width, steps, t) && Inv(t, capacity, width)
    ensures t.enqueuing == Open && t.committed == s.committed && t.dequeued == s.dequeued
    ensures OwnSlot(t, capacity) == value
    decreases width - from
  {
    if from == width {
      steps, t := [], s;
    } else {
      var step := Store(from, value[from]);
      var u := Apply(s, capacity, width, step);
      OneStep(s, capacity, width, step);
      CommitTakesOwnStores(s, capacity, width, step);
      var rest;
      rest, t := StoreAll(u, capacity, width, value, from + 1);
      steps := [step] + rest;
      RunsConcat(s, capacity, width, [step], u, rest, t);
    }
  }

  lemma OwnSlotSized<W>(s: State<W>, capacity: nat, width: nat)
    requires Inv(s, capacity, width)
    ensures |OwnSlot(s, capacity)| == width
  {
    DrainedSized(s.data, s.pBuf, capacity, width);
    SlotOfIsMod(ProducerPosition(s), capacity);
  }

  /** A live result that was filled can be committed and ended. */
  lemma CommitAndEnd<W>(s: State<W>, capacity: nat, width: nat) returns (steps: seq<Step<W>>, t: State<W>)
    requires Inv(s, capacity, width) && s.enqueuing == Open
    ensures Runs(s, capacity, width, steps, t) && Inv(t, capacity, width)
    ensures t.committed == s.committed + [OwnSlot(s, capacity)] && t.enqueuing == Idle && t.dequeued == s.dequeued
  {
    var u := Apply(s, capacity, width, Commit);
    OneStep(s, capacity, width, Commit);
    CommitTakesOwnStores(s, capacity, width, Commit);
    t := Apply(u, capacity, width, EndEnqueue);
    OneStep(u, capacity, width, EndEnqueue);
    CommitTakesOwnStores(u, capacity, width, EndEnqueue);
    steps := [Commit] + [EndEnqueue];
    RunsConcat(s, capacity, width, [Commit], u, [EndEnqueue], t);
  }

  /** With room in the buffer, a value can be put in. */
  lemma PutOne<W>(s: State<W>, capacity: nat, width: nat, value: seq<W>) returns (steps: seq<Step<W>>, t: State<W>)
    requires Inv(s, capacity, width) && s.enqueuing == Idle && |value| == width
    requires |s.committed| - s.cPos < capacity
    ensures Runs(s, capacity, width, steps, t) && Inv(t, capacity, width)
    ensures t.committed == s.committed + [value] && t.enqueuing == Idle && t.dequeued == s.dequeued
  {
    var u := Apply(s, capacity, width, TryEnqueue);
    OneStep(s, capacity, width, TryEnqueue);
    TrySucceedsIffRoom(s, capacity, width);
    OwnSlotSized(u, capacity, width);
    var stores, v := StoreAll(u, capacity, width, value, 0);
    var ends;
    ends, t := CommitAndEnd(v, capacity, width);
    RunsConcat(s, capacity, width, [TryEnqueue], u, stores, v);
    RunsConcat(s, capacity, width, [TryEnqueue] + stores, v, ends, t);
    steps := [TryEnqueue] + stores + ends;
  }

  /** However full the buffer is, once the consumer has caught up the next value goes in. */
  lemma Enqueues<W>(s: State<W>, capacity: nat, width: nat, value: seq<W>) returns (steps: seq<Step<W>>, t: State<W>)
    requires Inv(s, capacity, width) && s.enqueuing == Idle && |value| == width
    ensures Runs(s, capacity, width, steps, t) && Inv(t, capacity, width)
    ensures t.committed == s.committed + [value] && t.enqueuing == Idle
    ensures |t.dequeued| == |s.committed| && s.dequeued <= t.dequeued
    ensures forall i | |s.dequeued| <= i < |t.dequeued| :: Whole(t.dequeued[i], t.committed[i], width)
  {
    var drained, u := Drains(s, capacity, width);
    QuiescentTries(u, capacity, width);
    OwnPositionIsCommitted(u.data, u.pPos, u.pBuf, u.cPos, u.committed, capacity);
    var puts;
    puts, t := PutOne(u, capacity, width, value);
    RunsConcat(s, capacity, width, drained, u, puts, t);
    steps := drained + puts;
  }

  /** A value put in and taken out again comes after those taken out before. */
  lemma PassOne<W>(s: State<W>, capacity: nat, width: nat, value: seq<W>) returns (steps: seq<Step<W>>, t: State<W>)
    requires Inv(s, capacity, width) && s.enqueuing == Idle && |value| == width && |s.dequeued| == |s.committed|
    ensures Runs(s, capacity, width, steps, t) && Inv(t, capacity, width)
    ensures t.committed == s.committed + [value] && t.enqueuing == Idle
    ensures exists read :: t.dequeued == s.dequeued + [read] && Whole(read, value, width)
  {
    var puts, u := Enqueues(s, capacity, width, value);
    var takes;
    takes, t := Drains(u, capacity, width);
    RunsConcat(s, capacity, width, puts, u, takes, t);
    steps := puts + takes;
    var n := |s.dequeued|;
    assert t.dequeued == s.dequeued + [t.dequeued[n]] && Whole(t.dequeued[n], value, width);
  }

  /** Any stream of values passes through a buffer of any capacity: some run from the initial state
      commits exactly these values and dequeues each of them whole, in order. */
  lemma {:induction false} Transfers<W>(capacity: nat, width: nat, zero: W, values: seq<seq<W>>)
      returns (steps: seq<Step<W>>, t: State<W>)
    requires GoodCapacity(capacity) && forall i | 0 <= i < |values| :: |values[i]| == width
    ensures Runs(Init(capacity, width, zero), capacity, width, steps, t) && Inv(t, capacity, width)
    ensures t.committed == values && t.enqueuing == Idle && |t.dequeued| == |values|
    ensures forall i | 0 <= i < |values| :: Whole(t.dequeued[i], values[i], width)
    decreases |values|
  {
    var init := Init(capacity, width, zero);
    InitInv(capacity, width, zero);
    if values == [] {
      steps, t := [], init;
    } else {
      var n := |values| - 1;
      var before, u := Transfers(capacity, width, zero, values[..n]);
      var last;
      last, t := PassOne(u, capacity, width, values[n]);
      RunsConcat(init, capacity, width, before, u, last, t);
      steps := before + last;
    }
  }
}
