/**
 `lf_spsc_buffer` as a step system under x86-TSO: each thread has a FIFO store
 buffer, its own loads are forwarded from it, and its stores reach memory one at
 a time, at any later moment. A slot is several machine words, stored and loaded
 one by one, so that torn reads would be visible. At most one result object is
 alive at each end.
 */
module SpscBuffer {
  import opened Arith
  import opened Bits

  /** A buffered store of the producer: a word of a data slot, or `m_p_position`. */
  datatype Write<W> = Data(slot: nat, word: nat, value: W) | Publish(pos: nat)

  /** The producer's scoped result: none alive, writable, or `commit()` called. */
  datatype Enqueuing = Idle | Open | Committed

  datatype State<W> = State(
    data: seq<seq<W>>, pPos: nat, cPos: nat,                             // memory
    pBuf: seq<Write<W>>, cBuf: seq<nat>,                                 // store buffers
    enqueuing: Enqueuing, cLocal: nat,                                   // owned by the producer
    dequeuing: bool, pLocal: nat, seen: map<nat, W>,                     // owned by the consumer
    committed: seq<seq<W>>, dequeued: seq<map<nat, W>>)                  // history

  datatype Step<W> =
    | TryEnqueue | Store(word: nat, value: W) | Commit | EndEnqueue | FlushProducer
    | TryDequeue | Load(word: nat) | EndDequeue | FlushConsumer

  const UINT32: nat := 0x1_0000_0000

  /** `static_cast<uint32_t>(pos) & (CAPACITY - 1)` for a power-of-2 capacity. */
  function SlotOf(pos: nat, capacity: nat): nat
    requires 0 < capacity
  {
    pos % UINT32 % capacity
  }

  ghost predicate GoodCapacity(capacity: nat) {
    0 < capacity && UINT32 % capacity == 0
  }

  /** Every power of two that a 32-bit size can be is a good capacity. */
  lemma Pow2CapacityIsGood(n: nat)
    requires n <= 32
    ensures GoodCapacity(Pow2(n))
  {
    hide Pow2;
    WordSizes();
    Pow2Add(32 - n, n);
    DivModIs(UINT32, Pow2(32 - n), 0, Pow2(n));
  }

  lemma SlotOfIsMod(pos: nat, capacity: nat)
    requires GoodCapacity(capacity)
    ensures SlotOf(pos, capacity) == pos % capacity
  {
    assert UINT32 == UINT32 / capacity * capacity;
    ModOfMod(pos, UINT32 / capacity, capacity);
  }

  /** Positions less than a capacity apart use different slots. */
  lemma SlotsDiffer(a: nat, b: nat, capacity: nat)
    requires GoodCapacity(capacity) && a < b < a + capacity
    ensures SlotOf(a, capacity) != SlotOf(b, capacity)
  {
    SlotOfIsMod(a, capacity);
    SlotOfIsMod(b, capacity);
    assert b - a == (b / capacity - a / capacity) * capacity + (b % capacity - a % capacity);
    if a % capacity == b % capacity {
      SmallMultiple(b / capacity - a / capacity, capacity);
    }
  }

  // ---- what a thread sees through its own store buffer ----

  function StoreInto<W>(data: seq<seq<W>>, w: Write<W>): (r: seq<seq<W>>)
    ensures |r| == |data|
  {
    match w
    case Data(slot, word, value) =>
      if slot < |data| && word < |data[slot]| then data[slot := data[slot][word := value]] else data
    case Publish(_) => data
  }

  function Drained<W>(data: seq<seq<W>>, buf: seq<Write<W>>): (r: seq<seq<W>>)
    ensures |r| == |data|
    decreases |buf|
  {
    if buf == [] then data else Drained(StoreInto(data, buf[0]), buf[1..])
  }

  /** The producer's own `m_p_position`: the newest buffered store, else memory. */
  function OwnPosition<W>(pos: nat, buf: seq<Write<W>>): nat
    decreases |buf|
  {
    if buf == [] then pos else OwnPosition(if buf[0].Publish? then buf[0].pos else pos, buf[1..])
  }

  function ProducerPosition<W>(s: State<W>): nat {
    OwnPosition(s.pPos, s.pBuf)
  }

  /** The consumer's own `m_c_position`. */
  function ConsumerPosition<W>(s: State<W>): nat {
    if s.cBuf == [] then s.cPos else s.cBuf[|s.cBuf| - 1]
  }

  // ---- the steps ----

  function Init<W>(capacity: nat, width: nat, zero: W): State<W> {
    State(seq(capacity, _ => seq(width, _ => zero)), 0, 0, [], [], Idle, 0, false, 0, map[], [], [])
  }

  /** `commit()` only marks the result: a reference taken from it may be written up to the end of its scope. */
  predicate Enabled<W>(s: State<W>, width: nat, step: Step<W>) {
    match step
    case TryEnqueue => s.enqueuing == Idle
    case Store(word, _) => s.enqueuing != Idle && word < width
    case Commit => s.enqueuing != Idle
    case EndEnqueue => s.enqueuing != Idle
    case FlushProducer => s.pBuf != []
    case TryDequeue => !s.dequeuing
    case Load(word) => s.dequeuing && word < width
    case EndDequeue => s.dequeuing
    case FlushConsumer => s.cBuf != []
  }

  function Apply<W>(s: State<W>, capacity: nat, width: nat, step: Step<W>): State<W>
    requires 0 < capacity && Enabled(s, width, step)
    requires |s.data| == capacity && forall i | 0 <= i < capacity :: |s.data[i]| == width
  {
    match step
    case TryEnqueue =>
      var free := ProducerPosition(s) - capacity;
      if free < s.cLocal then s.(enqueuing := Open)
      else s.(cLocal := s.cPos, enqueuing := if free < s.cPos then Open else Idle)
    case Store(word, value) =>
      s.(pBuf := s.pBuf + [Data(SlotOf(ProducerPosition(s), capacity), word, value)])
    case Commit => s.(enqueuing := Committed)
    case EndEnqueue =>
      if s.enqueuing != Committed then s.(enqueuing := Idle)
      else
        var pos := ProducerPosition(s);
        s.(enqueuing := Idle, pBuf := s.pBuf + [Publish(pos + 1)],
           committed := s.committed + [Drained(s.data, s.pBuf)[SlotOf(pos, capacity)]])
    case FlushProducer =>
      s.(pBuf := s.pBuf[1..], data := StoreInto(s.data, s.pBuf[0]),
         pPos := if s.pBuf[0].Publish? then s.pBuf[0].pos else s.pPos)
    case TryDequeue =>
      var pos := ConsumerPosition(s);
      if pos < s.pLocal then s.(dequeuing := true, seen := map[])
      else s.(pLocal := s.pPos, dequeuing := pos < s.pPos, seen := map[])
    case Load(word) =>
      s.(seen := s.seen[word := s.data[SlotOf(ConsumerPosition(s), capacity)][word]])
    case EndDequeue =>
      s.(dequeuing := false, cBuf := s.cBuf + [ConsumerPosition(s) + 1], dequeued := s.dequeued + [s.seen])
    case FlushConsumer =>
      s.(cBuf := s.cBuf[1..], cPos := s.cBuf[0])
  }

  // ---- the invariant ----

  ghost predicate Sized<W>(data: seq<seq<W>>, capacity: nat, width: nat) {
    |data| == capacity && forall i {:trigger data[i]} | 0 <= i < capacity :: |data[i]| == width
  }

  /** The published positions from `lo` on hold what was committed there. */
  ghost predicate Holds<W>(data: seq<seq<W>>, lo: nat, hi: nat, committed: seq<seq<W>>, capacity: nat)
    requires 0 < capacity
  {
    && lo <= hi <= |committed| && hi - lo <= capacity == |data|
    && forall n {:trigger committed[n]} | lo <= n < hi :: data[SlotOf(n, capacity)] == committed[n]
  }

  /** Draining the producer's buffer in order only ever writes the slot at its own
      position and publishes a position once its slot holds the committed value. */
  ghost predicate Pending<W>(data: seq<seq<W>>, pos: nat, buf: seq<Write<W>>, lo: nat,
                             committed: seq<seq<W>>, capacity: nat)
    requires 0 < capacity
    decreases |buf|
  {
    && Holds(data, lo, pos, committed, capacity)
    && if buf == [] then pos == |committed|
       else
         && pos - lo < capacity
         && match buf[0]
            case Data(slot, word, value) =>
              slot == SlotOf(pos, capacity) && Pending(StoreInto(data, buf[0]), pos, buf[1..], lo, committed, capacity)
            case Publish(n) =>
              n == pos + 1 && Holds(data, lo, pos + 1, committed, capacity)
              && Pending(data, pos + 1, buf[1..], lo, committed, capacity)
  }

  ghost predicate ProducerOk<W>(s: State<W>, capacity: nat) {
    && 0 < capacity
    && Pending(s.data, s.pPos, s.pBuf, s.cPos, s.committed, capacity)
    && s.cLocal <= s.cPos
    && (s.enqueuing != Idle ==> |s.committed| - capacity < s.cLocal)
  }

  ghost predicate ConsumerOk<W>(s: State<W>) {
    && (forall i {:trigger s.cBuf[i]} | 0 <= i < |s.cBuf| :: s.cBuf[i] == s.cPos + 1 + i)
    && ConsumerPosition(s) == |s.dequeued| <= s.pLocal <= s.pPos <= |s.committed|
    && (s.dequeuing ==> |s.dequeued| < s.pLocal)
    && (s.dequeuing ==> Faithful(s.seen, s.committed[|s.dequeued|]))
    && forall i {:trigger s.dequeued[i]} | 0 <= i < |s.dequeued| :: Faithful(s.dequeued[i], s.committed[i])
  }

  /** Every word that was read is the word that was committed. */
  ghost predicate Faithful<W>(read: map<nat, W>, value: seq<W>) {
    forall w {:trigger read[w]} | w in read :: w < |value| && read[w] == value[w]
  }

  ghost predicate Inv<W>(s: State<W>, capacity: nat, width: nat) {
    && GoodCapacity(capacity) && Sized(s.data, capacity, width)
    && ProducerOk(s, capacity) && ConsumerOk(s)
  }

  // ---- facts about the producer's buffer ----

  lemma OwnPositionIsCommitted<W>(data: seq<seq<W>>, pos: nat, buf: seq<Write<W>>, lo: nat,
                                  committed: seq<seq<W>>, capacity: nat)
    requires 0 < capacity && Pending(data, pos, buf, lo, committed, capacity)
    ensures OwnPosition(pos, buf) == |committed| <= lo + capacity
    decreases |buf|
  {
    if buf != [] {
      OwnPositionIsCommitted(StoreInto(data, buf[0]), if buf[0].Publish? then buf[0].pos else pos, buf[1..],
                             lo, committed, capacity);
    }
  }

  lemma StoreElsewhere<W>(data: seq<seq<W>>, lo: nat, hi: nat, committed: seq<seq<W>>, capacity: nat, w: Write<W>)
    requires GoodCapacity(capacity) && Holds(data, lo, hi, committed, capacity)
    requires hi - lo < capacity && w.Data? && w.slot == SlotOf(hi, capacity)
    ensures Holds(StoreInto(data, w), lo, hi, committed, capacity)
  {
    forall n | lo <= n < hi ensures StoreInto(data, w)[SlotOf(n, capacity)] == committed[n] {
      SlotsDiffer(n, hi, capacity);
    }
  }

  lemma {:induction false} PushData<W>(data: seq<seq<W>>, pos: nat, buf: seq<Write<W>>, lo: nat,
                                       committed: seq<seq<W>>, capacity: nat, w: Write<W>)
    requires GoodCapacity(capacity) && Pending(data, pos, buf, lo, committed, capacity)
    requires |committed| - lo < capacity && w.Data? && w.slot == SlotOf(|committed|, capacity)
    ensures Pending(data, pos, buf + [w], lo, committed, capacity)
    decreases |buf|
  {
    if buf == [] {
      StoreElsewhere(data, lo, pos, committed, capacity, w);
      assert (buf + [w])[1..] == [];
    } else {
      assert (buf + [w])[1..] == buf[1..] + [w];
      PushData(StoreInto(data, buf[0]), if buf[0].Publish? then buf[0].pos else pos, buf[1..],
               lo, committed, capacity, w);
    }
  }

  lemma HoldsMore<W>(data: seq<seq<W>>, lo: nat, hi: nat, committed: seq<seq<W>>, capacity: nat, more: seq<seq<W>>)
    requires 0 < capacity && Holds(data, lo, hi, committed, capacity)
    ensures Holds(data, lo, hi, committed + more, capacity)
  {
    forall n | lo <= n < hi ensures data[SlotOf(n, capacity)] == (committed + more)[n] {
      assert committed[n] == (committed + more)[n];
    }
  }

  lemma {:induction false} PushPublish<W>(data: seq<seq<W>>, pos: nat, buf: seq<Write<W>>, lo: nat,
                                          committed: seq<seq<W>>, capacity: nat)
    requires 0 < capacity && Pending(data, pos, buf, lo, committed, capacity)
    requires |committed| - lo < capacity
    ensures var committed' := committed + [Drained(data, buf)[SlotOf(|committed|, capacity)]];
      Pending(data, pos, buf + [Publish(|committed| + 1)], lo, committed', capacity)
    decreases |buf|
  {
    var value := Drained(data, buf)[SlotOf(|committed|, capacity)];
    HoldsMore(data, lo, pos, committed, capacity, [value]);
    var w: Write<W> := Publish(|committed| + 1);
    if buf == [] {
      assert (buf + [w])[1..] == [];
    } else {
      assert (buf + [w])[1..] == buf[1..] + [w];
      if buf[0].Publish? {
        HoldsMore(data, lo, pos + 1, committed, capacity, [value]);
      }
      PushPublish(StoreInto(data, buf[0]), if buf[0].Publish? then buf[0].pos else pos, buf[1..],
                  lo, committed, capacity);
    }
  }

  lemma {:induction false} RaiseLow<W>(data: seq<seq<W>>, pos: nat, buf: seq<Write<W>>, lo: nat, lo': nat,
                                       committed: seq<seq<W>>, capacity: nat)
    requires 0 < capacity && Pending(data, pos, buf, lo, committed, capacity)
    requires lo <= lo' <= pos
    ensures Pending(data, pos, buf, lo', committed, capacity)
    decreases |buf|
  {
    if buf != [] {
      RaiseLow(StoreInto(data, buf[0]), if buf[0].Publish? then buf[0].pos else pos, buf[1..],
               lo, lo', committed, capacity);
    }
  }

  // ---- every step keeps the invariant ----

  lemma InitInv<W>(capacity: nat, width: nat, zero: W)
    requires GoodCapacity(capacity)
    ensures Inv(Init(capacity, width, zero), capacity, width)
  {
  }

  lemma StoreKeepsSized<W>(data: seq<seq<W>>, w: Write<W>, capacity: nat, width: nat)
    requires Sized(data, capacity, width)
    ensures Sized(StoreInto(data, w), capacity, width)
  {
  }

  lemma ProducerStep<W>(s: State<W>, capacity: nat, width: nat, step: Step<W>)
    requires Inv(s, capacity, width) && Enabled(s, width, step)
    requires step.TryEnqueue? || step.Store? || step.Commit?
    ensures Inv(Apply(s, capacity, width, step), capacity, width)
  {
    OwnPositionIsCommitted(s.data, s.pPos, s.pBuf, s.cPos, s.committed, capacity);
    if step.Store? {
      PushData(s.data, s.pPos, s.pBuf, s.cPos, s.committed, capacity,
               Data(SlotOf(|s.committed|, capacity), step.word, step.value));
    }
  }

  lemma EndEnqueueStep<W>(s: State<W>, capacity: nat, width: nat)
    requires Inv(s, capacity, width) && s.enqueuing != Idle
    ensures Inv(Apply(s, capacity, width, EndEnqueue), capacity, width)
  {
    OwnPositionIsCommitted(s.data, s.pPos, s.pBuf, s.cPos, s.committed, capacity);
    if s.enqueuing == Committed {
      PushPublish(s.data, s.pPos, s.pBuf, s.cPos, s.committed, capacity);
      hide Pending, Drained, SlotOf, OwnPosition;
      var t := Apply(s, capacity, width, EndEnqueue);
      assert t.committed[..|s.committed|] == s.committed;
    }
  }

  lemma FlushProducerStep<W>(s: State<W>, capacity: nat, width: nat)
    requires Inv(s, capacity, width) && s.pBuf != []
    ensures Inv(Apply(s, capacity, width, FlushProducer), capacity, width)
  {
    StoreKeepsSized(s.data, s.pBuf[0], capacity, width);
  }

  lemma ConsumerStep<W>(s: State<W>, capacity: nat, width: nat, step: Step<W>)
    requires Inv(s, capacity, width) && Enabled(s, width, step)
    requires step.TryDequeue? || step.Load? || step.EndDequeue?
    ensures Inv(Apply(s, capacity, width, step), capacity, width)
  {
    if step.Load? {
      LoadIsCommitted(s, capacity, width, step.word);
    }
  }

  /** The heart of it: what a consumer loads, now or later in the same result, is
      the committed word, even though the producer may be writing meanwhile. */
  lemma LoadIsCommitted<W>(s: State<W>, capacity: nat, width: nat, word: nat)
    requires Inv(s, capacity, width) && s.dequeuing && word < width
    ensures |s.dequeued| < |s.committed|
    ensures s.data[SlotOf(ConsumerPosition(s), capacity)] == s.committed[|s.dequeued|]
    ensures word < |s.committed[|s.dequeued|]|
  {
    var n := |s.dequeued|;
    assert s.cPos <= n;
    assert s.data[SlotOf(n, capacity)] == s.committed[n];
    assert |s.data[SlotOf(n, capacity)]| == width;
  }

  lemma FlushConsumerStep<W>(s: State<W>, capacity: nat, width: nat)
    requires Inv(s, capacity, width) && s.cBuf != []
    ensures Inv(Apply(s, capacity, width, FlushConsumer), capacity, width)
  {
    var t := Apply(s, capacity, width, FlushConsumer);
    assert s.cBuf[0] == s.cPos + 1;
    assert s.cBuf[|s.cBuf| - 1] == s.cPos + |s.cBuf|;
    RaiseLow(s.data, s.pPos, s.pBuf, s.cPos, s.cPos + 1, s.committed, capacity);
    forall i | 0 <= i < |t.cBuf| ensures t.cBuf[i] == t.cPos + 1 + i {
      assert s.cBuf[i + 1] == s.cPos + 1 + (i + 1);
    }
  }

  lemma StepKeepsInv<W>(s: State<W>, capacity: nat, width: nat, step: Step<W>)
    requires Inv(s, capacity, width) && Enabled(s, width, step)
    ensures Inv(Apply(s, capacity, width, step), capacity, width)
  {
    match step
    case FlushProducer => FlushProducerStep(s, capacity, width);
    case FlushConsumer => FlushConsumerStep(s, capacity, width);
    case EndEnqueue => EndEnqueueStep(s, capacity, width);
    case TryDequeue => ConsumerStep(s, capacity, width, step);
    case Load(_) => ConsumerStep(s, capacity, width, step);
    case EndDequeue => ConsumerStep(s, capacity, width, step);
    case _ => ProducerStep(s, capacity, width, step);
  }

  // ---- what a commit publishes ----

  /** The slot a live enqueue result denotes, as its own thread reads it back. */
  function OwnSlot<W>(s: State<W>, capacity: nat): seq<W>
    requires 0 < capacity == |s.data|
  {
    Drained(s.data, s.pBuf)[SlotOf(ProducerPosition(s), capacity)]
  }

  lemma {:induction false} DrainedPush<W>(data: seq<seq<W>>, buf: seq<Write<W>>, w: Write<W>)
    ensures Drained(data, buf + [w]) == StoreInto(Drained(data, buf), w)
    decreases |buf|
  {
    if buf == [] {
      assert (buf + [w])[1..] == [];
    } else {
      assert (buf + [w])[1..] == buf[1..] + [w];
      DrainedPush(StoreInto(data, buf[0]), buf[1..], w);
    }
  }

  lemma {:induction false} DrainedSized<W>(data: seq<seq<W>>, buf: seq<Write<W>>, capacity: nat, width: nat)
    requires Sized(data, capacity, width)
    ensures Sized(Drained(data, buf), capacity, width)
    decreases |buf|
  {
    if buf != [] {
      StoreKeepsSized(data, buf[0], capacity, width);
      DrainedSized(StoreInto(data, buf[0]), buf[1..], capacity, width);
    }
  }

  lemma {:induction false} OwnPositionPush<W>(pos: nat, buf: seq<Write<W>>, w: Write<W>)
    requires w.Data?
    ensures OwnPosition(pos, buf + [w]) == OwnPosition(pos, buf)
    decreases |buf|
  {
    if buf == [] {
      assert (buf + [w])[1..] == [];
    } else {
      assert (buf + [w])[1..] == buf[1..] + [w];
      OwnPositionPush(if buf[0].Publish? then buf[0].pos else pos, buf[1..], w);
    }
  }

  /** A commit publishes exactly the words stored through the result: a store sets its
      word of the slot, no step of either thread or buffer undoes that, and the commit takes the slot. */
  lemma CommitTakesOwnStores<W>(s: State<W>, capacity: nat, width: nat, step: Step<W>)
    requires Inv(s, capacity, width) && Enabled(s, width, step)
    requires s.enqueuing != Idle
    ensures var t := Apply(s, capacity, width, step);
      match step
      case Store(word, value) =>
        word < |OwnSlot(s, capacity)| && OwnSlot(t, capacity) == OwnSlot(s, capacity)[word := value]
      case EndEnqueue =>
        t.committed == if s.enqueuing == Committed then s.committed + [OwnSlot(s, capacity)] else s.committed
      case _ => OwnSlot(t, capacity) == OwnSlot(s, capacity) && t.committed == s.committed
  {
    if step.Store? {
      var w := Data(SlotOf(ProducerPosition(s), capacity), step.word, step.value);
      DrainedSized(s.data, s.pBuf, capacity, width);
      DrainedPush(s.data, s.pBuf, w);
      OwnPositionPush(s.pPos, s.pBuf, w);
    }
  }

  // ---- whole runs ----

  /** Some interleaving of the two threads and of their store buffers leads from `s` to `t`. */
  ghost predicate Runs<W>(s: State<W>, capacity: nat, width: nat, steps: seq<Step<W>>, t: State<W>)
    requires 0 < capacity
    decreases |steps|
  {
    if steps == [] then s == t
    else
      && Sized(s.data, capacity, width) && Enabled(s, width, steps[0])
      && Runs(Apply(s, capacity, width, steps[0]), capacity, width, steps[1..], t)
  }

  lemma {:induction false} RunKeepsInv<W>(s: State<W>, capacity: nat, width: nat, steps: seq<Step<W>>, t: State<W>)
    requires Inv(s, capacity, width) && Runs(s, capacity, width, steps, t)
    ensures Inv(t, capacity, width)
    decreases |steps|
  {
    if steps != [] {
      StepKeepsInv(s, capacity, width, steps[0]);
      RunKeepsInv(Apply(s, capacity, width, steps[0]), capacity, width, steps[1..], t);
    }
  }

  /** In every interleaving the values read are, in order, a prefix of those committed. */
  lemma DequeuedIsPrefixOfCommitted<W>(capacity: nat, width: nat, zero: W, steps: seq<Step<W>>, t: State<W>)
    requires GoodCapacity(capacity) && Runs(Init(capacity, width, zero), capacity, width, steps, t)
    ensures |t.dequeued| <= |t.committed|
    ensures forall i | 0 <= i < |t.dequeued| :: Faithful(t.dequeued[i], t.committed[i])
    ensures t.dequeuing ==> |t.dequeued| < |t.committed| && Faithful(t.seen, t.committed[|t.dequeued|])
  {
    InitInv(capacity, width, zero);
    RunKeepsInv(Init(capacity, width, zero), capacity, width, steps, t);
  }

  /** Stale positions are conservative, so the two ends never hold the same slot. */
  lemma EndsHoldDifferentSlots<W>(capacity: nat, width: nat, zero: W, steps: seq<Step<W>>, t: State<W>)
    requires GoodCapacity(capacity) && Runs(Init(capacity, width, zero), capacity, width, steps, t)
    ensures t.cLocal <= t.cPos && t.pLocal <= t.pPos && t.cPos <= t.pPos <= t.cPos + capacity
    ensures ProducerPosition(t) == |t.committed| && ConsumerPosition(t) == |t.dequeued|
    ensures |t.dequeued| <= |t.committed| <= t.cPos + capacity
    ensures t.enqueuing != Idle && t.dequeuing ==>
      SlotOf(ProducerPosition(t), capacity) != SlotOf(ConsumerPosition(t), capacity)
  {
    InitInv(capacity, width, zero);
    RunKeepsInv(Init(capacity, width, zero), capacity, width, steps, t);
    OwnPositionIsCommitted(t.data, t.pPos, t.pBuf, t.cPos, t.committed, capacity);
    LastIsCount(t);
    if t.enqueuing != Idle && t.dequeuing {
      SlotsDiffer(|t.dequeued|, |t.committed|, capacity);
    }
  }

  lemma LastIsCount<W>(t: State<W>)
    requires ConsumerOk(t)
    ensures t.cPos <= |t.dequeued|
  {
    if t.cBuf != [] {
      assert t.cBuf[|t.cBuf| - 1] == t.cPos + 1 + (|t.cBuf| - 1);
    }
  }

  /** The cached peer positions cost nothing: a try succeeds exactly when memory says it can. */
  lemma TrySucceedsIffRoom<W>(s: State<W>, capacity: nat, width: nat)
    requires Inv(s, capacity, width)
    ensures s.enqueuing == Idle ==>
      (Apply(s, capacity, width, TryEnqueue).enqueuing == Open <==> |s.committed| - s.cPos < capacity)
    ensures !s.dequeuing ==>
      (Apply(s, capacity, width, TryDequeue).dequeuing <==> |s.dequeued| < s.pPos)
  {
    OwnPositionIsCommitted(s.data, s.pPos, s.pBuf, s.cPos, s.committed, capacity);
  }

  /** Once both store buffers have drained, the ends agree on what is in the buffer. */
  lemma QuiescentTries<W>(s: State<W>, capacity: nat, width: nat)
    requires Inv(s, capacity, width) && s.pBuf == [] && s.cBuf == []
    ensures s.pPos - s.cPos == |s.committed| - |s.dequeued|
    ensures s.enqueuing == Idle ==>
      (Apply(s, capacity, width, TryEnqueue).enqueuing == Open <==> |s.committed| - |s.dequeued| < capacity)
    ensures !s.dequeuing ==>
      (Apply(s, capacity, width, TryDequeue).dequeuing <==> |s.dequeued| < |s.committed|)
  {
    TrySucceedsIffRoom(s, capacity, width);
  }

  /** A scope left without `commit()` leaves the stream, and all that memory can become, unchanged
      but for the contents of a slot that is not part of the stream. */
  lemma AbortLeavesStream<W>(s: State<W>, capacity: nat, width: nat)
    requires Inv(s, capacity, width) && s.enqueuing == Open
    ensures var t := Apply(s, capacity, width, EndEnqueue);
      && t.committed == s.committed && t.dequeued == s.dequeued && t.pBuf == s.pBuf
      && ProducerPosition(t) == ProducerPosition(s)
      && forall n | s.cPos <= n < |s.committed| ::
           SlotOf(n, capacity) != SlotOf(ProducerPosition(s), capacity)
  {
    OwnPositionIsCommitted(s.data, s.pPos, s.pBuf, s.cPos, s.committed, capacity);
    forall n | s.cPos <= n < |s.committed|
      ensures SlotOf(n, capacity) != SlotOf(ProducerPosition(s), capacity)
    {
      SlotsDiffer(n, |s.committed|, capacity);
    }
  }

  // ---- the FIFO order of x86-TSO is needed ----

  /** A weaker memory model: entry `i` of the producer's buffer reaches memory ahead of its turn. */
  function FlushAt<W>(s: State<W>, i: nat): State<W>
    requires i < |s.pBuf|
  {
    s.(pBuf := s.pBuf[..i] + s.pBuf[i + 1..], data := StoreInto(s.data, s.pBuf[i]),
       pPos := if s.pBuf[i].Publish? then s.pBuf[i].pos else s.pPos)
  }

  /** One value, 7, committed to a one-word buffer of capacity 1 and still in the store buffer. */
  function OneCommitted(): State<int> {
    State([[0]], 0, 0, [Data(0, 0, 7), Publish(1)], [], Idle, 0, false, 0, map[], [[7]], [])
  }

  /** If a position may overtake the data it publishes, the consumer reads a stale word. */
  lemma ReorderedStoresBreakIt()
    ensures Runs(Init(1, 1, 0), 1, 1, [TryEnqueue, Store(0, 7), Commit, EndEnqueue], OneCommitted())
    ensures exists after: State<int> ::
      && Runs(FlushAt(OneCommitted(), 1), 1, 1, [TryDequeue, Load(0)], after)
      && after.dequeuing && after.dequeued == [] && after.committed == [[7]] && after.seen == map[0 := 0]
  {
    OneCommittedRuns();
    var s5 := FlushAt(OneCommitted(), 1);
    assert s5.pBuf == [Data(0, 0, 7)] && s5.pPos == 1;
    var s6 := Apply(s5, 1, 1, TryDequeue);
    var s7 := Apply(s6, 1, 1, Load(0));
    var steps := [TryDequeue, Load(0)];
    assert steps[1..] == [Load(0)] && steps[1..][1..] == [];
    assert Runs(s6, 1, 1, steps[1..], s7);
    assert Runs(s5, 1, 1, steps, s7);
  }

  lemma OneCommittedRuns()
    ensures Runs(Init(1, 1, 0), 1, 1, [TryEnqueue, Store(0, 7), Commit, EndEnqueue], OneCommitted())
  {
    var s0 := Init(1, 1, 0);
    assert s0.data == [[0]] by { assert s0.data[0] == [0]; }
    var s3 := Apply(Apply(Apply(s0, 1, 1, TryEnqueue), 1, 1, Store(0, 7)), 1, 1, Commit);
    assert s3.pBuf == [Data(0, 0, 7)];
    var stored := StoreInto(s3.data, s3.pBuf[0]);
    assert stored == [[7]] by { assert stored[0] == [7]; }
    assert Drained(stored, s3.pBuf[1..]) == stored;
    assert Apply(s3, 1, 1, EndEnqueue) == OneCommitted();
    RunOf4(s0, TryEnqueue, Store(0, 7), Commit, EndEnqueue);
  }

  lemma RunOf4(s: State<int>, a: Step<int>, b: Step<int>, c: Step<int>, d: Step<int>)
    requires Sized(s.data, 1, 1) && Enabled(s, 1, a)
    requires var s1 := Apply(s, 1, 1, a);
      && Sized(s1.data, 1, 1) && Enabled(s1, 1, b)
      && var s2 := Apply(s1, 1, 1, b);
      && Sized(s2.data, 1, 1) && Enabled(s2, 1, c)
      && var s3 := Apply(s2, 1, 1, c);
      && Sized(s3.data, 1, 1) && Enabled(s3, 1, d)
    ensures Runs(s, 1, 1, [a, b, c, d],
                 Apply(Apply(Apply(Apply(s, 1, 1, a), 1, 1, b), 1, 1, c), 1, 1, d))
  {
    var s1 := Apply(s, 1, 1, a);
    var s2 := Apply(s1, 1, 1, b);
    var s3 := Apply(s2, 1, 1, c);
    var s4 := Apply(s3, 1, 1, d);
    assert [a, b, c, d][1..] == [b, c, d] && [b, c, d][1..] == [c, d] && [c, d][1..] == [d] && [d][1..] == [];
    assert Runs(s4, 1, 1, [], s4);
    assert Runs(s3, 1, 1, [d], s4);
    assert Runs(s2, 1, 1, [c, d], s4);
    assert Runs(s1, 1, 1, [b, c, d], s4);
  }
}
