/**
 * The single-producer, single-consumer queue, as interleaved atomic steps. Each thread has
 * its own program counter; the counters are 32-bit and wrap, and so is size_t.
 */
module LockFreeQueue {
  const WORD: nat := 0x1_0000_0000

  /** Where the producer is inside PushBack. */
  datatype Producer<T> = PushIdle | Pushing(value: T) | Written(value: T)

  /** Where the consumer is inside PeekFront or PopFront. */
  datatype Consumer<T> = PopIdle | Reading(pop: bool) | Taking(value: T)

  datatype Queue<T> = Queue(
    pushedCount: nat, poppedCount: nat, capacity: nat, slots: seq<T>,
    producer: Producer<T>, consumer: Consumer<T>,
    pushed: seq<T>, popped: seq<T>,     // the values whose increments have happened
    peeked: seq<(nat, T)>)              // each value read, with its place in the queue
  {
    predicate IsFull() { pushedCount == (poppedCount + capacity) % WORD }

    predicate IsEmpty() { pushedCount == poppedCount }

    function Size(): nat { (pushedCount + WORD - poppedCount) % WORD }

    predicate Shaped() { |slots| == capacity < WORD && pushedCount < WORD && poppedCount < WORD }
  }

  datatype Step<T> =
    | PushCheck(value: T) | PushWrite | PushIncrement
    | PopCheck(pop: bool) | PopRead | PopIncrement

  /** The slot that a counter designates. */
  function Place(count: nat, capacity: nat): (i: nat)
    requires capacity > 0
    ensures i < capacity
  {
    count % capacity
  }

  function Initial<T>(slots: seq<T>): Queue<T> {
    Queue(0, 0, |slots|, slots, PushIdle, PopIdle, [], [], [])
  }

  /** One atomic step of one thread; a step that its thread is not at does nothing. */
  function Next<T>(q: Queue<T>, step: Step<T>): (r: Queue<T>)
    requires q.Shaped()
    ensures r.Shaped() && r.capacity == q.capacity
  {
    match step
    case PushCheck(value) =>
      if q.producer.PushIdle? && q.capacity != 0 && !q.IsFull() then q.(producer := Pushing(value)) else q
    case PushWrite =>
      if q.producer.Pushing? && q.capacity != 0 then
        q.(slots := q.slots[Place(q.pushedCount, q.capacity) := q.producer.value],
          producer := Written(q.producer.value))
      else q
    case PushIncrement =>
      if q.producer.Written? then
        q.(pushedCount := (q.pushedCount + 1) % WORD, pushed := q.pushed + [q.producer.value], producer := PushIdle)
      else q
    case PopCheck(pop) =>
      if q.consumer.PopIdle? && q.capacity != 0 && !q.IsEmpty() then q.(consumer := Reading(pop)) else q
    case PopRead =>
      if q.consumer.Reading? && q.capacity != 0 then
        var value := q.slots[Place(q.poppedCount, q.capacity)];
        q.(consumer := if q.consumer.pop then Taking(value) else PopIdle,
           peeked := q.peeked + [(|q.popped|, value)])
      else q
    case PopIncrement =>
      if q.consumer.Taking? then
        q.(poppedCount := (q.poppedCount + 1) % WORD, popped := q.popped + [q.consumer.value], consumer := PopIdle)
      else q
  }

  /** Any interleaving of the two threads' steps. */
  function Run<T>(q: Queue<T>, steps: seq<Step<T>>): (r: Queue<T>)
    requires q.Shaped()
    ensures r.Shaped() && r.capacity == q.capacity
    decreases |steps|
  {
    if steps == [] then q else Run(Next(q, steps[0]), steps[1..])
  }

  lemma {:induction false} RunConcat<T>(q: Queue<T>, a: seq<Step<T>>, b: seq<Step<T>>)
    requires q.Shaped()
    ensures Run(q, a + b) == Run(Run(q, a), b)
    decreases |a|
  {
    if a == [] {
      assert a + b == b;
    } else {
      assert (a + b)[1..] == a[1..] + b;
      RunConcat(Next(q, a[0]), a[1..], b);
    }
  }

  // ---- The invariant -----------------------------------------------------

  /** The first n + 1 values use the slots that unbounded counters would use. */
  predicate Aligned(n: nat, capacity: nat) { capacity > 0 ==> n < WORD || WORD % capacity == 0 }

  // ---- Arithmetic of slots -----------------------------------------------

  lemma {:induction false} MulAtLeast(k: nat, d: nat)
    requires k >= 1
    ensures k * d >= d
  {
    if k > 1 { MulAtLeast(k - 1, d); assert k * d == (k - 1) * d + d; }
  }

  lemma Distribute(a: int, b: int, d: int)
    ensures (a - b) * d == a * d - b * d
  {
  }

  /** Quotient and remainder are what they add up to. */
  lemma DivModUnique(n: nat, d: nat, q: nat, r: nat)
    requires d > 0 && n == q * d + r && r < d
    ensures n / d == q && n % d == r
  {
    var q2, r2 := n / d, n % d;
    assert n == q2 * d + r2;
    Distribute(q, q2, d);
    Distribute(q2, q, d);
    if q < q2 { MulAtLeast(q2 - q, d); }
    if q2 < q { MulAtLeast(q - q2, d); }
  }

  lemma AddMultiple(n: nat, k: nat, d: nat)
    requires d > 0
    ensures (n + k * d) % d == n % d
  {
    var q, r := n / d, n % d;
    assert n == q * d + r;
    assert (q + k) * d == q * d + k * d;
    DivModUnique(n + k * d, d, q + k, r);
  }

  lemma AlignedSlots(i: nat, n: nat, capacity: nat)
    requires capacity > 0 && i <= n && Aligned(n, capacity)
    ensures Place(i % WORD, capacity) == Place(i, capacity)
  {
    if n >= WORD {
      var k, q := WORD / capacity, i / WORD;
      assert k * capacity == WORD;
      assert i == q * WORD + i % WORD;
      assert q * (k * capacity) == (q * k) * capacity;
      AddMultiple(i % WORD, q * k, capacity);
    }
  }

  /** Values within one capacity of each other use different slots. */
  lemma DistinctSlots(i: nat, j: nat, capacity: nat)
    requires i < j < i + capacity
    ensures Place(i, capacity) != Place(j, capacity)
  {
    var q, r := i / capacity, i % capacity;
    assert i == q * capacity + r;
    if r + (j - i) < capacity {
      DivModUnique(j, capacity, q, r + (j - i));
    } else {
      assert (q + 1) * capacity == q * capacity + capacity;
      DivModUnique(j, capacity, q + 1, r + (j - i) - capacity);
    }
  }

  lemma WrappedSize(pushed: nat, popped: nat)
    requires popped <= pushed < popped + WORD
    ensures (pushed % WORD + WORD - popped % WORD) % WORD == pushed - popped
  {
  }

  lemma WrappedSum(popped: nat, n: nat)
    ensures (popped % WORD + n) % WORD == (popped + n) % WORD
  {
  }

  lemma WrappedEqual(a: nat, b: nat)
    requires a <= b < a + WORD
    ensures a % WORD == b % WORD <==> a == b
  {
  }

  /** Counters modulo 2^32 tell the size of a queue smaller than that. */
  lemma WrappedDifference(pushed: nat, popped: nat, capacity: nat)
    requires popped <= pushed <= popped + capacity && capacity < WORD
    ensures (pushed % WORD + WORD - popped % WORD) % WORD == pushed - popped
    ensures pushed % WORD == (popped % WORD + capacity) % WORD <==> pushed - popped == capacity
    ensures pushed % WORD == popped % WORD <==> pushed == popped
    ensures (pushed % WORD + 1) % WORD == (pushed + 1) % WORD && (popped % WORD + 1) % WORD == (popped + 1) % WORD
  {
    WrappedSize(pushed, popped);
    WrappedSum(popped, capacity);
    WrappedEqual(pushed, popped + capacity);
    WrappedEqual(popped, pushed);
    WrappedSum(pushed, 1);
    WrappedSum(popped, 1);
  }

  /** What holds between any two atomic steps. */
  ghost predicate Inv<T(!new)>(q: Queue<T>) {
    && q.Shaped()
    && q.pushedCount == |q.pushed| % WORD && q.poppedCount == |q.popped| % WORD
    && q.popped <= q.pushed && |q.pushed| - |q.popped| <= q.capacity
    && (forall i :: |q.popped| <= i < |q.pushed| ==> q.slots[Place(i, q.capacity)] == q.pushed[i])
    && (forall p :: p in q.peeked ==> p.0 < |q.pushed| && p.1 == q.pushed[p.0])
    && (!q.producer.PushIdle? ==> |q.pushed| - |q.popped| < q.capacity)
    && (q.producer.Written? ==> q.slots[Place(|q.pushed|, q.capacity)] == q.producer.value)
    && (!q.consumer.PopIdle? ==> |q.popped| < |q.pushed|)
    && (q.consumer.Taking? ==> q.consumer.value == q.pushed[|q.popped|])
  }

  lemma ProducerKeepsInv<T(!new)>(q: Queue<T>, step: Step<T>)
    requires Inv(q) && Aligned(|q.pushed|, q.capacity)
    requires step.PushCheck? || step.PushWrite? || step.PushIncrement?
    ensures Inv(Next(q, step))
  {
    WrappedDifference(|q.pushed|, |q.popped|, q.capacity);
    if q.capacity > 0 { AlignedSlots(|q.pushed|, |q.pushed|, q.capacity); }
    hide Place;
    var r := Next(q, step);
    if step.PushWrite? && q.producer.Pushing? {
      forall i | |q.popped| <= i < |q.pushed|
        ensures r.slots[Place(i, q.capacity)] == q.pushed[i]
      {
        DistinctSlots(i, |q.pushed|, q.capacity);
      }
    }
  }

  lemma ConsumerKeepsInv<T(!new)>(q: Queue<T>, step: Step<T>)
    requires Inv(q) && Aligned(|q.pushed|, q.capacity)
    requires step.PopCheck? || step.PopRead? || step.PopIncrement?
    ensures Inv(Next(q, step))
  {
    WrappedDifference(|q.pushed|, |q.popped|, q.capacity);
    if q.capacity > 0 { AlignedSlots(|q.popped|, |q.pushed|, q.capacity); }
    hide Place;
  }

  /** No step writes a slot that holds a value not yet popped, read by the consumer or not. */
  lemma WritesOnlyFreeSlots<T(!new)>(q: Queue<T>, step: Step<T>, i: nat)
    requires Inv(q) && Aligned(|q.pushed|, q.capacity) && |q.popped| <= i < |q.pushed|
    ensures Next(q, step).slots[Place(i, q.capacity)] == q.pushed[i]
  {
    AlignedSlots(|q.pushed|, |q.pushed|, q.capacity);
    if q.producer.Pushing? { DistinctSlots(i, |q.pushed|, q.capacity); }
  }

  // ---- Whole runs --------------------------------------------------------

  /** The values in the queue, oldest first. */
  function Contents<T>(q: Queue<T>): seq<T>
    requires q.popped <= q.pushed
  {
    q.pushed[|q.popped|..]
  }

  /** Each step does to the contents what a bounded first-in, first-out queue does. */
  lemma StepRefinesFifo<T(!new)>(q: Queue<T>, step: Step<T>)
    requires Inv(q) && Aligned(|q.pushed|, q.capacity)
    ensures var r := Next(q, step);
      && Inv(r)
      && (match step
          case PushCheck(_) => Contents(r) == Contents(q)
            && (q.producer.PushIdle? ==> (r.producer.Pushing? <==> |Contents(q)| < q.capacity))
          case PushIncrement => Contents(r) == if q.producer.Written? then Contents(q) + [q.producer.value]
            else Contents(q)
          case PopCheck(_) => Contents(r) == Contents(q)
            && (q.consumer.PopIdle? ==> (r.consumer.Reading? <==> Contents(q) != []))
          case PopIncrement => Contents(q) == if q.consumer.Taking? then [q.consumer.value] + Contents(r)
            else Contents(r)
          case _ => Contents(r) == Contents(q))
  {
    if step.PushCheck? || step.PushWrite? || step.PushIncrement? {
      ProducerKeepsInv(q, step);
    } else {
      ConsumerKeepsInv(q, step);
    }
    WrappedDifference(|q.pushed|, |q.popped|, q.capacity);
    hide Place;
  }

  lemma {:induction false} RunGrows<T>(q: Queue<T>, steps: seq<Step<T>>)
    requires q.Shaped()
    ensures |q.pushed| <= |Run(q, steps).pushed|
    decreases |steps|
  {
    if steps != [] { RunGrows(Next(q, steps[0]), steps[1..]); }
  }

  lemma {:induction false} RunKeepsInv<T(!new)>(q: Queue<T>, steps: seq<Step<T>>)
    requires Inv(q) && Aligned(|Run(q, steps).pushed|, q.capacity)
    ensures Inv(Run(q, steps))
    decreases |steps|
  {
    if steps != [] {
      RunGrows(q, steps);
      StepRefinesFifo(q, steps[0]);
      RunKeepsInv(Next(q, steps[0]), steps[1..]);
    }
  }

  /**
   * First in, first out in every interleaving: while fewer than 2^32 values have been pushed,
   * whatever the capacity, and for ever when the capacity divides 2^32.
   */
  lemma FirstInFirstOut<T(!new)>(slots: seq<T>, steps: seq<Step<T>>)
    requires |slots| < 0x1_0000_0000
    requires |Run(Initial(slots), steps).pushed| < 0x1_0000_0000 || |slots| == 0 || 0x1_0000_0000 % |slots| == 0
    ensures var q := Run(Initial(slots), steps);
      && q.popped <= q.pushed
      && q.Size() == |Contents(q)| <= q.capacity
      && (forall p :: p in q.peeked ==> p.0 < |q.pushed| && p.1 == q.pushed[p.0])
  {
    hide Run, Place;
    var q := Run(Initial(slots), steps);
    RunKeepsInv(Initial(slots), steps);
    WrappedDifference(|q.pushed|, |q.popped|, q.capacity);
  }

  // ---- Capacities that do not divide 2^32 --------------------------------

  function PushAll<T>(value: T): seq<Step<T>> { [PushCheck(value), PushWrite, PushIncrement] }

  function PopAll<T>(): seq<Step<T>> { [PopCheck(true), PopRead, PopIncrement] }

  lemma RunOne<T>(q: Queue<T>, step: Step<T>, rest: seq<Step<T>>)
    requires q.Shaped()
    ensures Run(q, [step] + rest) == Run(Next(q, step), rest)
  {
    hide Next;
    assert ([step] + rest)[1..] == rest;
  }

  lemma RunNone<T>(q: Queue<T>)
    requires q.Shaped()
    ensures Run(q, []) == q
  {
  }

  lemma RunThree<T>(q: Queue<T>, a: Step<T>, b: Step<T>, c: Step<T>)
    requires q.Shaped()
    ensures Run(q, [a, b, c]) == Next(Next(Next(q, a), b), c)
  {
    hide Next, Run;
    var q3 := Next(Next(Next(q, a), b), c);
    RunNone(q3);
    assert [a, b, c] == [a] + [b, c] && [b, c] == [b] + [c] && [c] == [c] + [];
    RunOne(q, a, [b, c]);
    RunOne(Next(q, a), b, [c]);
    RunOne(Next(Next(q, a), b), c, []);
  }

  /** Both threads are between calls and the counters count. */
  predicate AtRest<T>(q: Queue<T>) {
    && q.Shaped() && q.capacity > 0 && q.producer.PushIdle? && q.consumer.PopIdle?
    && q.pushedCount == |q.pushed| % WORD && q.poppedCount == |q.popped| % WORD
    && |q.popped| <= |q.pushed| <= |q.popped| + q.capacity
  }

  lemma ThreePushSteps<T>(q: Queue<T>, value: T)
    requires q.Shaped() && q.capacity > 0 && q.producer.PushIdle? && !q.IsFull()
    ensures Run(q, PushAll(value)) == q.(
      slots := q.slots[Place(q.pushedCount, q.capacity) := value],
      pushedCount := (q.pushedCount + 1) % WORD, pushed := q.pushed + [value])
  {
    hide Place, Run;
    RunThree(q, PushCheck(value), PushWrite, PushIncrement);
  }

  lemma ThreePopSteps<T>(q: Queue<T>)
    requires q.Shaped() && q.capacity > 0 && q.consumer.PopIdle? && !q.IsEmpty()
    ensures var value := q.slots[Place(q.poppedCount, q.capacity)];
      Run(q, PopAll()) == q.(poppedCount := (q.poppedCount + 1) % WORD, popped := q.popped + [value],
                             peeked := q.peeked + [(|q.popped|, value)])
  {
    hide Place, Run;
    RunThree(q, PopCheck(true), PopRead, PopIncrement);
  }

  /** An undisturbed PushBack, also beyond 2^32. */
  lemma PushAtRest<T>(q: Queue<T>, value: T)
    requires AtRest(q) && |q.pushed| < |q.popped| + q.capacity
    ensures Run(q, PushAll(value)) == q.(
      slots := q.slots[Place(|q.pushed| % WORD, q.capacity) := value],
      pushedCount := (|q.pushed| + 1) % WORD, pushed := q.pushed + [value])
    ensures AtRest(Run(q, PushAll(value)))
  {
    hide Place, Run, PushAll;
    WrappedDifference(|q.pushed|, |q.popped|, q.capacity);
    ThreePushSteps(q, value);
  }

  lemma PopAtRest<T>(q: Queue<T>)
    requires AtRest(q) && |q.popped| < |q.pushed|
    ensures var r := Run(q, PopAll());
      && AtRest(r) && r.slots == q.slots && r.pushed == q.pushed && r.pushedCount == q.pushedCount
      && r.popped == q.popped + [q.slots[Place(|q.popped| % WORD, q.capacity)]]
  {
    hide Place, Run, PopAll;
    WrappedDifference(|q.pushed|, |q.popped|, q.capacity);
    ThreePopSteps(q);
  }

  /** Values can be pushed and popped in turn, as many as one likes. */
  lemma {:induction false} PassThrough(q: Queue<int>, n: nat) returns (steps: seq<Step<int>>)
    requires AtRest(q) && q.pushed == q.popped == []
    ensures var r := Run(q, steps); AtRest(r) && |r.pushed| == |r.popped| == n && r.capacity == q.capacity
  {
    if n == 0 {
      steps := [];
    } else {
      steps := PassThrough(q, n - 1);
      var r := Run(q, steps);
      RunConcat(q, steps, PushAll(0));
      PushAtRest(r, 0);
      RunConcat(q, steps + PushAll(0), PopAll());
      PopAtRest(Run(r, PushAll(0)));
      steps := steps + PushAll(0) + PopAll();
    }
  }

  /** From an empty queue at a multiple of the capacity: a one, then n twos. */
  lemma {:induction false} OneThenTwos(q: Queue<int>, n: nat) returns (steps: seq<Step<int>>)
    requires AtRest(q) && |q.pushed| == |q.popped| && n < q.capacity
    requires |q.pushed| + n < WORD && Place(|q.pushed|, q.capacity) == 0
    ensures var r := Run(q, steps);
      && AtRest(r) && r.popped == q.popped && |r.pushed| == |q.pushed| + 1 + n && q.pushed <= r.pushed
      && r.pushed[|q.pushed|] == 1 && r.slots[0] == 1 && r.capacity == q.capacity
  {
    hide Run, Place, PushAll;
    if n == 0 {
      PushAtRest(q, 1);
      steps := PushAll(1);
    } else {
      steps := OneThenTwos(q, n - 1);
      var r := Run(q, steps);
      PushAtRest(r, 2);
      RunConcat(q, steps, PushAll(2));
      DistinctSlots(|q.pushed|, |q.pushed| + n, q.capacity);
      steps := steps + PushAll(2);
    }
  }

  lemma LastMultiple(c: nat)
    requires 0 < c
    ensures Place(WORD - WORD % c, c) == 0 == Place(0, c)
  {
    assert WORD - WORD % c == (WORD / c) * c;
    DivModUnique(WORD - WORD % c, c, WORD / c, 0);
    DivModUnique(0, c, 0, 0);
  }

  /** The oldest value waiting is a one in slot 0, and the next value goes there too. */
  lemma OverwriteAndPop(q: Queue<int>, oldest: nat)
    requires AtRest(q) && |q.pushed| == WORD && |q.popped| == oldest && oldest < WORD < oldest + q.capacity
    requires Place(oldest, q.capacity) == 0 == Place(0, q.capacity) && q.pushed[oldest] == 1
    ensures var r := Run(Run(q, PushAll(2)), PopAll()); !(r.popped <= r.pushed)
  {
    hide Run, PushAll, PopAll, Place;
    PushAtRest(q, 2);
    var q3 := Run(q, PushAll(2));
    PopAtRest(q3);
    assert Run(q3, PopAll()).popped[oldest] == 2 && q3.pushed[oldest] == 1;
  }

  /** The 2^32-nd value lands on the oldest one still waiting. */
  lemma WrapOverwrites(slots: seq<int>) returns (steps: seq<Step<int>>)
    requires 0 < |slots| < WORD && WORD % |slots| != 0
    ensures var q := Run(Initial(slots), steps); !(q.popped <= q.pushed)
  {
    hide Run, PushAll, PopAll, Place;
    var c, r := |slots|, WORD % |slots|;
    var q := Initial(slots);
    LastMultiple(c);
    var s1 := PassThrough(q, WORD - r);
    var q1 := Run(q, s1);
    var s2 := OneThenTwos(q1, r - 1);
    var q2 := Run(q1, s2);
    OverwriteAndPop(q2, WORD - r);
    RunConcat(q, s1, s2);
    RunConcat(q, s1 + s2, PushAll(2));
    RunConcat(q, s1 + s2 + PushAll(2), PopAll());
    steps := s1 + s2 + PushAll(2) + PopAll();
  }

  /** First in, first out for ever holds exactly for the capacities that divide 2^32. */
  lemma FifoForeverIff(slots: seq<int>)
    requires 0 < |slots| < WORD
    ensures (forall steps: seq<Step<int>> :: Run(Initial(slots), steps).popped <= Run(Initial(slots), steps).pushed)
      <==> WORD % |slots| == 0
  {
    if WORD % |slots| == 0 {
      forall steps: seq<Step<int>>
        ensures Run(Initial(slots), steps).popped <= Run(Initial(slots), steps).pushed
      {
        FirstInFirstOut(slots, steps);
      }
    } else {
      var steps := WrapOverwrites(slots);
    }
  }

  // ---- The code ----------------------------------------------------------

  /**
   * The queue itself. Each method is one atomic step of one thread, so a run of the two
   * threads is any sequence of calls; PushBack and PopFront are their steps with nobody
   * in between.
   */
  class FixedSizeLockFreeQueue<T(0, !new)> {
    var pushed_count_: nat
    var popped_count_: nat
    var capacity_: nat
    var data_: array<T>
    var producer_: Producer<T>
    var consumer_: Consumer<T>
    ghost var pushed_: seq<T>
    ghost var popped_: seq<T>
    ghost var peeked_: seq<(nat, T)>

    ghost predicate Valid()
      reads this
    {
      data_.Length == capacity_ < WORD && pushed_count_ < WORD && popped_count_ < WORD
    }

    ghost function View(): (q: Queue<T>)
      requires Valid()
      reads this, data_
      ensures q.Shaped()
    {
      Queue(pushed_count_, popped_count_, capacity_, data_[..], producer_, consumer_, pushed_, popped_, peeked_)
    }

    constructor (capacity: nat)
      requires capacity < WORD
      ensures Valid() && capacity_ == capacity && View() == Initial(data_[..]) && Inv(View()) && fresh(data_)
    {
      pushed_count_, popped_count_, capacity_ := 0, 0, capacity;
      data_ := new T[capacity];
      producer_, consumer_ := PushIdle, PopIdle;
      pushed_, popped_, peeked_ := [], [], [];
    }

    /** Drops everything; no other method may be running. */
    method ClearAndResizeUnsafe(newCapacity: nat)
      requires Valid() && newCapacity < WORD
      modifies this
      ensures Valid() && fresh(data_) && capacity_ == newCapacity
      ensures View() == Initial(data_[..]) && Inv(View())
    {
      capacity_ := newCapacity;
      data_ := new T[newCapacity];
      pushed_count_, popped_count_ := 0, 0;
      producer_, consumer_ := PushIdle, PopIdle;
      pushed_, popped_, peeked_ := [], [], [];
    }

    method BeginPush(value: T) returns (ok: bool)
      requires Valid() && producer_.PushIdle?
      modifies `producer_
      ensures Valid() && View() == Next(old(View()), PushCheck(value))
      ensures ok <==> producer_.Pushing?
    {
      if capacity_ == 0 || pushed_count_ == (popped_count_ + capacity_) % WORD { return false; }
      producer_ := Pushing(value);
      return true;
    }

    method WriteSlot()
      requires Valid() && producer_.Pushing? && capacity_ > 0
      modifies `producer_, data_
      ensures Valid() && View() == Next(old(View()), PushWrite)
    {
      data_[pushed_count_ % capacity_] := producer_.value;
      producer_ := Written(producer_.value);
    }

    method IncrementPushed()
      requires Valid() && producer_.Written?
      modifies `producer_, `pushed_count_, `pushed_
      ensures Valid() && View() == Next(old(View()), PushIncrement)
    {
      pushed_count_ := (pushed_count_ + 1) % WORD;
      pushed_ := pushed_ + [producer_.value];
      producer_ := PushIdle;
    }

    method BeginPop(pop: bool) returns (ok: bool)
      requires Valid() && consumer_.PopIdle?
      modifies `consumer_
      ensures Valid() && View() == Next(old(View()), PopCheck(pop))
      ensures ok <==> consumer_.Reading?
    {
      if capacity_ == 0 || pushed_count_ == popped_count_ { return false; }
      consumer_ := Reading(pop);
      return true;
    }

    method ReadSlot() returns (value: T)
      requires Valid() && consumer_.Reading? && capacity_ > 0
      modifies `consumer_, `peeked_
      ensures Valid() && View() == Next(old(View()), PopRead)
      ensures peeked_ == old(peeked_) + [(|popped_|, value)]
    {
      value := data_[popped_count_ % capacity_];
      consumer_ := if consumer_.pop then Taking(value) else PopIdle;
      peeked_ := peeked_ + [(|popped_|, value)];
    }

    method IncrementPopped()
      requires Valid() && consumer_.Taking?
      modifies `consumer_, `popped_count_, `popped_
      ensures Valid() && View() == Next(old(View()), PopIncrement)
    {
      popped_count_ := (popped_count_ + 1) % WORD;
      popped_ := popped_ + [consumer_.value];
      consumer_ := PopIdle;
    }

    /** PushBack with the consumer standing still: appends, unless the queue is full. */
    method PushBack(value: T) returns (ok: bool)
      requires Valid() && Inv(View()) && Aligned(|pushed_|, capacity_) && producer_.PushIdle?
      modifies this, data_
      ensures Valid() && Inv(View()) && data_ == old(data_) && producer_.PushIdle?
      ensures ok <==> |old(Contents(View()))| < capacity_
      ensures Contents(View()) == old(Contents(View())) + (if ok then [value] else [])
    {
      StepRefinesFifo(View(), PushCheck(value));
      ok := BeginPush(value);
      if ok {
        StepRefinesFifo(View(), PushWrite);
        WriteSlot();
        StepRefinesFifo(View(), PushIncrement);
        IncrementPushed();
      }
    }

    /** PeekFront with the producer standing still: the oldest value stays where it is. */
    method PeekFront() returns (ok: bool, value: T)
      requires Valid() && Inv(View()) && Aligned(|pushed_|, capacity_) && consumer_.PopIdle?
      modifies this, data_
      ensures Valid() && Inv(View()) && data_ == old(data_) && consumer_.PopIdle?
      ensures ok <==> Contents(View()) != []
      ensures Contents(View()) == old(Contents(View())) && (ok ==> value == Contents(View())[0])
    {
      StepRefinesFifo(View(), PopCheck(false));
      ok := BeginPop(false);
      if ok {
        StepRefinesFifo(View(), PopRead);
        value := ReadSlot();
        assert (|popped_|, value) in peeked_;
      } else {
        value := *;
      }
    }

    /** PopFront with the producer standing still: takes the oldest value, if there is one. */
    method PopFront() returns (ok: bool, value: T)
      requires Valid() && Inv(View()) && Aligned(|pushed_|, capacity_) && consumer_.PopIdle?
      modifies this, data_
      ensures Valid() && Inv(View()) && data_ == old(data_) && consumer_.PopIdle?
      ensures ok <==> old(Contents(View())) != []
      ensures old(Contents(View())) == (if ok then [value] else []) + Contents(View())
    {
      StepRefinesFifo(View(), PopCheck(true));
      ok := BeginPop(true);
      if ok {
        StepRefinesFifo(View(), PopRead);
        value := ReadSlot();
        StepRefinesFifo(View(), PopIncrement);
        IncrementPopped();
      } else {
        value := *;
      }
    }
  }
}
