/** The lock-free single-producer single-consumer ring buffer as a state machine: every load,
    slot access and store of `push` and `pop` is its own atomic step, in any interleaving. */
module RingBuffer {
  import opened Machine

  /** Where the producer is inside `push`. */
  datatype Producer<T> =
    | Idle
    | LoadedHead(item: T, head: nat)
    | LoadedTail(item: T, head: nat, tail: nat)
    | WroteSlot(item: T, next: nat)

  /** Where the consumer is inside `pop`. */
  datatype Consumer<T> =
    | Waiting
    | SawTail(tail: nat)
    | SawHead(tail: nat, head: nat)
    | TookSlot(tail: nat, item: Option<T>)

  /** Shared memory, both program counters, and what the calls have returned so far. */
  datatype State<T> = State(
    slots: seq<Option<T>>,
    head: nat,
    tail: nat,
    producer: Producer<T>,
    consumer: Consumer<T>,
    pushed: seq<T>,
    popped: seq<Option<T>>)

  function Init<T>(capacity: nat): State<T> {
    State(seq(capacity, _ => None), 0, 0, Idle, Waiting, [], [])
  }

  function Next(index: nat, capacity: nat): nat
    requires 0 < capacity
  {
    (index + 1) % capacity
  }

  // ---------------------------------------------------------------- atomic steps

  datatype Step<T> =
    | BeginPush(item: T)
    | LoadTail
    | RefusePush
    | WriteSlot
    | StoreHead
    | BeginPop
    | LoadHead
    | EmptyPop
    | TakeSlot
    | StoreTail

  predicate Enabled<T>(s: State<T>, step: Step<T>)
    requires 0 < |s.slots|
  {
    match step
    case BeginPush(item) => s.producer.Idle?
    case LoadTail => s.producer.LoadedHead?
    case RefusePush => s.producer.LoadedTail? && Next(s.producer.head, |s.slots|) == s.producer.tail
    case WriteSlot =>
      && s.producer.LoadedTail? && Next(s.producer.head, |s.slots|) != s.producer.tail
      && s.producer.head < |s.slots|
    case StoreHead => s.producer.WroteSlot?
    case BeginPop => s.consumer.Waiting?
    case LoadHead => s.consumer.SawTail?
    case EmptyPop => s.consumer.SawHead? && s.consumer.head == s.consumer.tail
    case TakeSlot => s.consumer.SawHead? && s.consumer.head != s.consumer.tail && s.consumer.tail < |s.slots|
    case StoreTail => s.consumer.TookSlot?
  }

  function Perform<T>(s: State<T>, step: Step<T>): State<T>
    requires 0 < |s.slots| && Enabled(s, step)
  {
    match step
    case BeginPush(item) => s.(producer := LoadedHead(item, s.head))
    case LoadTail => s.(producer := LoadedTail(s.producer.item, s.producer.head, s.tail))
    case RefusePush => s.(producer := Idle)
    case WriteSlot =>
      s.(slots := s.slots[s.producer.head := Some(s.producer.item)],
         producer := WroteSlot(s.producer.item, Next(s.producer.head, |s.slots|)))
    case StoreHead =>
      s.(head := s.producer.next, producer := Idle, pushed := s.pushed + [s.producer.item])
    case BeginPop => s.(consumer := SawTail(s.tail))
    case LoadHead => s.(consumer := SawHead(s.consumer.tail, s.head))
    case EmptyPop => s.(consumer := Waiting)
    case TakeSlot =>
      s.(slots := s.slots[s.consumer.tail := None],
         consumer := TookSlot(s.consumer.tail, s.slots[s.consumer.tail]))
    case StoreTail =>
      s.(tail := Next(s.consumer.tail, |s.slots|), consumer := Waiting, popped := s.popped + [s.consumer.item])
  }

  // ---------------------------------------------------------------- invariant

  /** Slots from `tail` up to `head` around the ring. */
  function Distance(head: nat, tail: nat, capacity: nat): nat
    requires head < capacity && tail < capacity
  {
    if tail <= head then head - tail else head + capacity - tail
  }

  /** The slot `offset` places after `tail`. */
  function Slot(tail: nat, offset: nat, capacity: nat): nat
    requires tail < capacity && offset < capacity
  {
    if tail + offset < capacity then tail + offset else tail + offset - capacity
  }

  ghost predicate Shape<T>(s: State<T>) {
    2 <= |s.slots| && s.head < |s.slots| && s.tail < |s.slots|
  }

  ghost function Length<T>(s: State<T>): nat
    requires Shape(s)
  {
    Distance(s.head, s.tail, |s.slots|)
  }

  /** What a queue position holds: the consumer may already carry the first item. */
  ghost function Held<T>(s: State<T>, offset: nat): Option<T>
    requires Shape(s) && offset < |s.slots|
  {
    if offset == 0 && s.consumer.TookSlot? then s.consumer.item else s.slots[Slot(s.tail, offset, |s.slots|)]
  }

  ghost predicate Queued<T>(s: State<T>)
    requires Shape(s)
  {
    && |s.pushed| == |s.popped| + Length(s)
    && (forall k :: 0 <= k < |s.popped| ==> s.popped[k] == Some(s.pushed[k]))
    && (forall k :: 0 <= k < Length(s) ==> Held(s, k) == Some(s.pushed[|s.popped| + k]))
  }

  /** Slots outside the queue are empty, but for one the producer has just written. */
  ghost predicate Spare<T>(s: State<T>)
    requires Shape(s)
  {
    && (forall k :: Length(s) <= k < |s.slots| ==>
          if k == Length(s) && s.producer.WroteSlot? then s.slots[Slot(s.tail, k, |s.slots|)] == Some(s.producer.item)
          else s.slots[Slot(s.tail, k, |s.slots|)].None?)
    && (s.consumer.TookSlot? ==> s.slots[s.tail].None?)
  }

  /** What a stale load still guarantees. */
  ghost predicate Views<T>(s: State<T>)
    requires Shape(s)
  {
    && (match s.producer
        case Idle => true
        case LoadedHead(_, head) => head == s.head
        case LoadedTail(_, head, tail) =>
          head == s.head && tail < |s.slots| && Length(s) <= Distance(head, tail, |s.slots|)
        case WroteSlot(_, next) => next == Next(s.head, |s.slots|) && Length(s) + 2 <= |s.slots|)
    && (match s.consumer
        case Waiting => true
        case SawTail(tail) => tail == s.tail
        case SawHead(tail, head) =>
          tail == s.tail && head < |s.slots| && Distance(head, tail, |s.slots|) <= Length(s)
        case TookSlot(tail, _) => tail == s.tail && 1 <= Length(s))
  }

  ghost predicate Inv<T>(s: State<T>) {
    Shape(s) && Queued(s) && Spare(s) && Views(s)
  }

  lemma NextWraps(index: nat, capacity: nat)
    requires index < capacity && 2 <= capacity
    ensures Next(index, capacity) == if index + 1 == capacity then 0 else index + 1
  {
    if index + 1 < capacity {
      assert (index + 1) % capacity == index + 1;
    }
  }

  lemma InitInv<T>(capacity: nat)
    requires 2 <= capacity
    ensures Inv(Init<T>(capacity))
  {
  }

  /** A producer that is about to write has room: the slot at `head` is empty and at least one
      more slot stays empty. */
  lemma WriteHasRoom<T>(s: State<T>)
    requires Inv(s) && Enabled(s, WriteSlot)
    ensures Length(s) + 2 <= |s.slots| && s.slots[s.producer.head].None?
  {
    NextWraps(s.head, |s.slots|);
    assert Slot(s.tail, Length(s), |s.slots|) == s.head;
  }

  /** A consumer that is about to take finds an item. */
  lemma TakeFindsItem<T>(s: State<T>)
    requires Inv(s) && Enabled(s, TakeSlot)
    ensures 1 <= Length(s) && s.slots[s.consumer.tail] == Some(s.pushed[|s.popped|])
  {
    assert Slot(s.tail, 0, |s.slots|) == s.tail;
    assert Held(s, 0) == Some(s.pushed[|s.popped| + 0]);
  }

  lemma StepWrite<T>(s: State<T>)
    requires Inv(s) && Enabled(s, WriteSlot)
    ensures Inv(Perform(s, WriteSlot))
  {
    WriteHasRoom(s);
    var after := Perform(s, WriteSlot);
    assert Slot(s.tail, Length(s), |s.slots|) == s.head;
    forall k | 0 <= k < Length(s) ensures Held(after, k) == Some(s.pushed[|s.popped| + k]) {
      assert Held(s, k) == Some(s.pushed[|s.popped| + k]);
    }
  }

  lemma StepStoreHead<T>(s: State<T>)
    requires Inv(s) && Enabled(s, StoreHead)
    ensures Inv(Perform(s, StoreHead))
  {
    var after := Perform(s, StoreHead);
    NextWraps(s.head, |s.slots|);
    assert Length(after) == Length(s) + 1;
    forall k | 0 <= k < Length(after) ensures Held(after, k) == Some(after.pushed[|after.popped| + k]) {
      if k < Length(s) {
        assert Held(s, k) == Some(s.pushed[|s.popped| + k]);
      }
    }
  }

  lemma StepTake<T>(s: State<T>)
    requires Inv(s) && Enabled(s, TakeSlot)
    ensures Inv(Perform(s, TakeSlot))
  {
    TakeFindsItem(s);
    var after := Perform(s, TakeSlot);
    forall k | 0 <= k < Length(s) ensures Held(after, k) == Some(s.pushed[|s.popped| + k]) {
      assert Held(s, k) == Some(s.pushed[|s.popped| + k]);
    }
  }

  lemma StepStoreTail<T>(s: State<T>)
    requires Inv(s) && Enabled(s, StoreTail)
    ensures Inv(Perform(s, StoreTail))
  {
    var after := Perform(s, StoreTail);
    NextWraps(s.tail, |s.slots|);
    assert Held(s, 0) == Some(s.pushed[|s.popped| + 0]);
    forall k | 0 <= k < Length(after) ensures Held(after, k) == Some(after.pushed[|after.popped| + k]) {
      SlotShifts(s.tail, k, |s.slots|);
      assert Held(s, k + 1) == Some(s.pushed[|s.popped| + (k + 1)]);
    }
    SpareAfterTail(s);
  }

  lemma SpareAfterTail<T>(s: State<T>)
    requires Inv(s) && Enabled(s, StoreTail)
    ensures Spare(Perform(s, StoreTail))
  {
    hide Queued;
    var after := Perform(s, StoreTail);
    NextWraps(s.tail, |s.slots|);
    forall k | Length(after) <= k < |s.slots|
      ensures if k == Length(after) && s.producer.WroteSlot?
              then s.slots[Slot(after.tail, k, |s.slots|)] == Some(s.producer.item)
              else s.slots[Slot(after.tail, k, |s.slots|)].None?
    {
      if k < |s.slots| - 1 {
        SlotShifts(s.tail, k, |s.slots|);
      } else {
        assert Slot(after.tail, k, |s.slots|) == s.tail;
      }
    }
  }

  lemma SlotShifts(tail: nat, offset: nat, capacity: nat)
    requires 2 <= capacity && tail < capacity && offset + 1 < capacity
    ensures Slot(Next(tail, capacity), offset, capacity) == Slot(tail, offset + 1, capacity)
  {
    NextWraps(tail, capacity);
  }

  /** A step that only moves program counters keeps the queue. */
  lemma QuietStep<T>(s: State<T>, after: State<T>)
    requires Inv(s) && after == s.(producer := after.producer, consumer := after.consumer)
    requires (!s.producer.WroteSlot? && !after.producer.WroteSlot?) || s.producer == after.producer
    requires (!s.consumer.TookSlot? && !after.consumer.TookSlot?) || s.consumer == after.consumer
    ensures Queued(after) && Spare(after)
  {
    forall k | 0 <= k < Length(s) ensures Held(after, k) == Some(after.pushed[|after.popped| + k]) {
      assert Held(s, k) == Some(s.pushed[|s.popped| + k]);
    }
  }

  /** Every atomic step of either side keeps the invariant. */
  lemma StepInv<T>(s: State<T>, step: Step<T>)
    requires Inv(s) && Enabled(s, step)
    ensures Inv(Perform(s, step))
  {
    match step
    case WriteSlot => StepWrite(s);
    case StoreHead => StepStoreHead(s);
    case TakeSlot => StepTake(s);
    case StoreTail => StepStoreTail(s);
    case _ => QuietStep(s, Perform(s, step));
  }

  // ---------------------------------------------------------------- every interleaving

  function Run<T>(s: State<T>, steps: seq<Step<T>>): (r: State<T>)
    requires 0 < |s.slots| && CanRun(s, steps)
    ensures |r.slots| == |s.slots|
    decreases |steps|
  {
    if steps == [] then s else Run(Perform(s, steps[0]), steps[1..])
  }

  predicate CanRun<T>(s: State<T>, steps: seq<Step<T>>)
    requires 0 < |s.slots|
    decreases |steps|
  {
    steps == [] || (Enabled(s, steps[0]) && CanRun(Perform(s, steps[0]), steps[1..]))
  }

  lemma {:induction false} RunInv<T>(s: State<T>, steps: seq<Step<T>>)
    requires Inv(s) && CanRun(s, steps)
    ensures Inv(Run(s, steps))
    decreases |steps|
  {
    if steps != [] {
      StepInv(s, steps[0]);
      RunInv(Perform(s, steps[0]), steps[1..]);
    }
  }

  ghost function Items<T>(s: State<T>): seq<Option<T>>
    requires Shape(s)
  {
    seq(Length(s), (k: nat) requires k < Length(s) => Held(s, k))
  }

  function Wrapped<T>(items: seq<T>): seq<Option<T>> {
    seq(|items|, k requires 0 <= k < |items| => Some(items[k]))
  }

  /** First in, first out under every interleaving: what was popped, then what is queued, is what
      was pushed, in order and with nothing lost, repeated or missing. */
  lemma Fifo<T>(capacity: nat, steps: seq<Step<T>>)
    requires 2 <= capacity && CanRun(Init<T>(capacity), steps)
    ensures var s := Run(Init<T>(capacity), steps);
            Shape(s) && s.popped + Items(s) == Wrapped(s.pushed)
  {
    InitInv<T>(capacity);
    RunInv(Init<T>(capacity), steps);
    var s := Run(Init<T>(capacity), steps);
    assert |s.popped + Items(s)| == |Wrapped(s.pushed)|;
    forall k | 0 <= k < |s.pushed| ensures (s.popped + Items(s))[k] == Wrapped(s.pushed)[k] {
      if k >= |s.popped| {
        assert Held(s, k - |s.popped|) == Some(s.pushed[|s.popped| + (k - |s.popped|)]);
      }
    }
  }

  /** In every reachable state: a push about to write finds its slot empty, a pop about to take
      finds an item, and the two never hold the same slot. */
  lemma SlotsAreExclusive<T>(capacity: nat, steps: seq<Step<T>>)
    requires 2 <= capacity && CanRun(Init<T>(capacity), steps)
    ensures var s := Run(Init<T>(capacity), steps);
            && 0 < |s.slots|
            && (Enabled(s, WriteSlot) ==> s.slots[s.producer.head].None?)
            && (Enabled(s, TakeSlot) ==> s.slots[s.consumer.tail].Some?)
            && (Enabled(s, WriteSlot) && (Enabled(s, TakeSlot) || s.consumer.TookSlot?) ==>
                  s.producer.head != s.consumer.tail)
            && (s.producer.WroteSlot? && Enabled(s, TakeSlot) ==> s.head != s.consumer.tail)
  {
    InitInv<T>(capacity);
    RunInv(Init<T>(capacity), steps);
    var s := Run(Init<T>(capacity), steps);
    if Enabled(s, WriteSlot) {
      WriteHasRoom(s);
    }
    if Enabled(s, TakeSlot) {
      TakeFindsItem(s);
    }
  }

  // ---------------------------------------------------------------- two racing loads

  /** `len`: computed from a head loaded first and a tail loaded later. */
  function LenOf(head: nat, tail: nat, capacity: nat): nat
    requires head < capacity && tail < capacity
  {
    if head >= tail then head - tail else capacity - (tail - head)
  }

  /** The indexes count calls: `head` pushes and `tail` pops, modulo the capacity. */
  ghost predicate Counted<T>(s: State<T>)
    requires 0 < |s.slots|
  {
    s.head == |s.pushed| % |s.slots| && s.tail == |s.popped| % |s.slots|
  }

  lemma ModStep(count: nat, capacity: nat)
    requires 2 <= capacity
    ensures (count + 1) % capacity == Next(count % capacity, capacity)
  {
    NextWraps(count % capacity, capacity);
    var q, r := count / capacity, count % capacity;
    assert count == q * capacity + r;
    if r + 1 == capacity {
      ModOf(count + 1, q + 1, 0, capacity);
    } else {
      ModOf(count + 1, q, r + 1, capacity);
    }
  }

  lemma ModOf(x: nat, q: nat, r: nat, capacity: nat)
    requires r < capacity && x == q * capacity + r
    ensures x % capacity == r
  {
    var q', r' := x / capacity, x % capacity;
    assert x == q' * capacity + r';
    assert (q - q') * capacity == r' - r;
    if q > q' {
      MulGrows(q - q', capacity);
    } else if q < q' {
      assert (q' - q) * capacity == r - r';
      MulGrows(q' - q, capacity);
    }
  }

  lemma MulGrows(times: nat, capacity: nat)
    requires 1 <= times
    ensures times * capacity >= capacity
  {
  }

  lemma {:induction false} RunCounted<T>(s: State<T>, steps: seq<Step<T>>)
    requires Inv(s) && Counted(s) && CanRun(s, steps)
    ensures Inv(Run(s, steps)) && Counted(Run(s, steps)) && |Run(s, steps).slots| == |s.slots|
    ensures |s.pushed| <= |Run(s, steps).pushed| && |s.popped| <= |Run(s, steps).popped|
    decreases |steps|
  {
    if steps != [] {
      StepInv(s, steps[0]);
      ModStep(|s.pushed|, |s.slots|);
      ModStep(|s.popped|, |s.slots|);
      RunCounted(Perform(s, steps[0]), steps[1..]);
    }
  }

  lemma IntModOf(x: int, q: int, r: nat, capacity: nat)
    requires r < capacity && x == q * capacity + r
    ensures x % capacity == r
  {
    var q', r' := x / capacity, x % capacity;
    assert x == q' * capacity + r';
    assert (q - q') * capacity == r' - r;
    if q > q' {
      MulGrows(q - q', capacity);
    } else if q < q' {
      assert (q' - q) * capacity == r - r';
      MulGrows(q' - q, capacity);
    }
  }

  /** The code's difference of two wrapped counters is the wrapped difference of the counters. */
  lemma ModDifference(a: nat, b: nat, capacity: nat)
    requires 0 < capacity
    ensures a % capacity < capacity && b % capacity < capacity
    ensures LenOf(a % capacity, b % capacity, capacity) == (a - b) % capacity
  {
    var p, r, q, t := a / capacity, a % capacity, b / capacity, b % capacity;
    assert a == p * capacity + r && b == q * capacity + t;
    if t <= r {
      assert a - b == (p - q) * capacity + (r - t);
      IntModOf(a - b, p - q, r - t, capacity);
    } else {
      assert a - b == (p - q - 1) * capacity + (r + capacity - t);
      IntModOf(a - b, p - q - 1, r + capacity - t, capacity);
    }
  }

  // ---------------------------------------------------------------- refusals

  predicate OfProducer<T>(step: Step<T>) {
    step.BeginPush? || step.LoadTail? || step.RefusePush? || step.WriteSlot? || step.StoreHead?
  }

  lemma {:induction false} ProducerStays<T>(s: State<T>, steps: seq<Step<T>>)
    requires 0 < |s.slots| && CanRun(s, steps) && forall i :: 0 <= i < |steps| ==> !OfProducer(steps[i])
    ensures Run(s, steps).producer == s.producer && |Run(s, steps).slots| == |s.slots|
    decreases |steps|
  {
    if steps != [] {
      assert !OfProducer(steps[0]);
      ProducerStays(Perform(s, steps[0]), steps[1..]);
    }
  }

  lemma {:induction false} ConsumerStays<T>(s: State<T>, steps: seq<Step<T>>)
    requires 0 < |s.slots| && CanRun(s, steps) && forall i :: 0 <= i < |steps| ==> OfProducer(steps[i])
    ensures Run(s, steps).consumer == s.consumer && |Run(s, steps).slots| == |s.slots|
    decreases |steps|
  {
    if steps != [] {
      assert OfProducer(steps[0]);
      ConsumerStays(Perform(s, steps[0]), steps[1..]);
    }
  }

  /** Whatever the consumer does meanwhile, a push is refused exactly when the queue was full, one
      slot short of its capacity, at the moment the producer loaded the tail. */
  lemma FullWhenRefused<T>(capacity: nat, before: seq<Step<T>>, between: seq<Step<T>>)
    requires 2 <= capacity && CanRun(Init<T>(capacity), before)
    requires var s := Run(Init<T>(capacity), before);
             && 0 < |s.slots| && Enabled(s, LoadTail) && CanRun(Perform(s, LoadTail), between)
    requires forall i :: 0 <= i < |between| ==> !OfProducer(between[i])
    ensures var s := Run(Init<T>(capacity), before);
            var t := Run(Perform(s, LoadTail), between);
            && Inv(s) && |s.slots| == |t.slots| == capacity
            && (Enabled(t, RefusePush) <==> Length(s) == capacity - 1)
            && (Enabled(t, WriteSlot) <==> Length(s) < capacity - 1)
  {
    InitInv<T>(capacity);
    RunCounted(Init<T>(capacity), before);
    var s := Run(Init<T>(capacity), before);
    ProducerStays(Perform(s, LoadTail), between);
    NextWraps(s.head, capacity);
  }

  /** Whatever the producer does meanwhile, a pop returns nothing exactly when the queue was empty
      at the moment the consumer loaded the head. */
  lemma EmptyWhenRefused<T>(capacity: nat, before: seq<Step<T>>, between: seq<Step<T>>)
    requires 2 <= capacity && CanRun(Init<T>(capacity), before)
    requires var s := Run(Init<T>(capacity), before);
             && 0 < |s.slots| && Enabled(s, LoadHead) && CanRun(Perform(s, LoadHead), between)
    requires forall i :: 0 <= i < |between| ==> OfProducer(between[i])
    ensures var s := Run(Init<T>(capacity), before);
            var t := Run(Perform(s, LoadHead), between);
            && Inv(s) && |s.slots| == |t.slots| == capacity
            && (Enabled(t, EmptyPop) <==> Length(s) == 0)
            && (Enabled(t, TakeSlot) <==> 0 < Length(s))
  {
    InitInv<T>(capacity);
    RunCounted(Init<T>(capacity), before);
    ConsumerStays(Perform(Run(Init<T>(capacity), before), LoadHead), between);
  }

  // ---------------------------------------------------------------- the observed length

  /** The two loads of `len`: the head in `s`, the tail in a later state `t`. */
  lemma LoadsCounted<T>(capacity: nat, before: seq<Step<T>>, between: seq<Step<T>>)
    requires 2 <= capacity && CanRun(Init<T>(capacity), before)
    requires CanRun(Run(Init<T>(capacity), before), between)
    ensures var s := Run(Init<T>(capacity), before);
            var t := Run(s, between);
            && Inv(s) && Inv(t) && Counted(s) && Counted(t) && |s.slots| == |t.slots| == capacity
            && |s.popped| <= |t.popped|
  {
    InitInv<T>(capacity);
    RunCounted(Init<T>(capacity), before);
    RunCounted(Run(Init<T>(capacity), before), between);
  }

  /** What `len` returns under a race: the length at the first load less the pops completed
      between the loads, wrapped around the capacity. */
  lemma LenOfRacingLoads<T>(capacity: nat, before: seq<Step<T>>, between: seq<Step<T>>)
    requires 2 <= capacity && CanRun(Init<T>(capacity), before)
    requires CanRun(Run(Init<T>(capacity), before), between)
    ensures var s := Run(Init<T>(capacity), before);
            var t := Run(s, between);
            && Inv(s) && s.head < capacity && t.tail < capacity
            && LenOf(s.head, t.tail, capacity) == (Length(s) - (|t.popped| - |s.popped|)) % capacity
  {
    LoadsCounted(capacity, before, between);
    var s := Run(Init<T>(capacity), before);
    var t := Run(s, between);
    assert |s.pushed| == |s.popped| + Length(s);
    ModDifference(|s.pushed|, |t.popped|, capacity);
  }

  lemma {:induction false} TailStays<T>(s: State<T>, steps: seq<Step<T>>)
    requires 0 < |s.slots| && CanRun(s, steps) && forall i :: 0 <= i < |steps| ==> !steps[i].StoreTail?
    ensures Run(s, steps).tail == s.tail && |Run(s, steps).slots| == |s.slots|
    decreases |steps|
  {
    if steps != [] {
      assert !steps[0].StoreTail?;
      TailStays(Perform(s, steps[0]), steps[1..]);
    }
  }

  lemma {:induction false} HeadStays<T>(s: State<T>, steps: seq<Step<T>>)
    requires 0 < |s.slots| && CanRun(s, steps) && forall i :: 0 <= i < |steps| ==> !steps[i].StoreHead?
    ensures Run(s, steps).head == s.head && |Run(s, steps).slots| == |s.slots|
    decreases |steps|
  {
    if steps != [] {
      assert !steps[0].StoreHead?;
      HeadStays(Perform(s, steps[0]), steps[1..]);
    }
  }

  /** A consumer that asks completes no pop in between: it gets the length at its first load. */
  lemma LenForConsumer<T>(capacity: nat, before: seq<Step<T>>, between: seq<Step<T>>)
    requires 2 <= capacity && CanRun(Init<T>(capacity), before)
    requires CanRun(Run(Init<T>(capacity), before), between)
    requires forall i :: 0 <= i < |between| ==> !between[i].StoreTail?
    ensures var s := Run(Init<T>(capacity), before);
            var t := Run(s, between);
            Inv(s) && s.head < capacity && t.tail < capacity && LenOf(s.head, t.tail, capacity) == Length(s)
  {
    LoadsCounted(capacity, before, between);
    TailStays(Run(Init<T>(capacity), before), between);
  }

  /** A producer that asks completes no push in between: it gets the length at its second load. */
  lemma LenForProducer<T>(capacity: nat, before: seq<Step<T>>, between: seq<Step<T>>)
    requires 2 <= capacity && CanRun(Init<T>(capacity), before)
    requires CanRun(Run(Init<T>(capacity), before), between)
    requires forall i :: 0 <= i < |between| ==> !between[i].StoreHead?
    ensures var s := Run(Init<T>(capacity), before);
            var t := Run(s, between);
            Inv(t) && s.head < capacity && t.tail < capacity && LenOf(s.head, t.tail, capacity) == Length(t)
  {
    LoadsCounted(capacity, before, between);
    HeadStays(Run(Init<T>(capacity), before), between);
  }

  function OnePush<T>(item: T): seq<Step<T>> {
    [BeginPush(item), LoadTail, WriteSlot, StoreHead]
  }

  function OnePop<T>(): seq<Step<T>> {
    [BeginPop, LoadHead, TakeSlot, StoreTail]
  }

  /** A third observer can see a nearly full queue that was empty at both loads: one whole push
      and one whole pop between them are enough, whatever the capacity. */
  lemma LenOvershoots<T>(capacity: nat, item: T)
    requires 2 <= capacity
    ensures var s := Init<T>(capacity);
            && CanRun(s, OnePush(item) + OnePop())
            && var t := Run(s, OnePush(item) + OnePop());
               && Shape(s) && Shape(t) && Length(s) == 0 && Length(t) == 0
               && |t.slots| == capacity && LenOf(s.head, t.tail, capacity) == capacity - 1
  {
    var s := Init<T>(capacity);
    NextWraps(0, capacity);
    PushRuns(s, item);
    var pushed := Run(s, OnePush(item));
    PopRuns(pushed);
    RunAppends(s, OnePush(item), OnePop<T>());
  }

  /** A whole push by an idle producer, with room left. */
  lemma PushRuns<T>(s: State<T>, item: T)
    requires 2 <= |s.slots| && s.producer.Idle? && s.head < |s.slots| && Next(s.head, |s.slots|) != s.tail
    ensures CanRun(s, OnePush(item))
    ensures Run(s, OnePush(item)) ==
            s.(slots := s.slots[s.head := Some(item)], head := Next(s.head, |s.slots|), pushed := s.pushed + [item])
  {
    hide Next;
    var s1 := Perform(s, BeginPush(item));
    var s2 := Perform(s1, LoadTail);
    var s3 := Perform(s2, WriteSlot);
    RunFour(s, OnePush(item), s1, s2, s3);
  }

  /** A whole pop by a waiting consumer, with an item to take. */
  lemma PopRuns<T>(s: State<T>)
    requires 2 <= |s.slots| && s.consumer.Waiting? && s.tail < |s.slots| && s.head != s.tail
    ensures CanRun(s, OnePop<T>())
    ensures Run(s, OnePop<T>()) ==
            s.(slots := s.slots[s.tail := None], tail := Next(s.tail, |s.slots|), popped := s.popped + [s.slots[s.tail]])
  {
    hide Next;
    var s1 := Perform(s, BeginPop);
    var s2 := Perform(s1, LoadHead);
    var s3 := Perform(s2, TakeSlot);
    RunFour(s, OnePop<T>(), s1, s2, s3);
  }

  lemma RunFour<T>(s: State<T>, steps: seq<Step<T>>, s1: State<T>, s2: State<T>, s3: State<T>)
    requires 0 < |s.slots| && |steps| == 4 && Enabled(s, steps[0]) && s1 == Perform(s, steps[0])
    requires 0 < |s1.slots| && Enabled(s1, steps[1]) && s2 == Perform(s1, steps[1])
    requires 0 < |s2.slots| && Enabled(s2, steps[2]) && s3 == Perform(s2, steps[2])
    requires 0 < |s3.slots| && Enabled(s3, steps[3])
    ensures CanRun(s, steps) && Run(s, steps) == Perform(s3, steps[3])
  {
    hide Enabled, Perform;
    assert steps[3..][1..] == [] && steps[3..][0] == steps[3];
    assert steps[2..][1..] == steps[3..] && steps[2..][0] == steps[2];
    assert steps[1..][1..] == steps[2..] && steps[1..][0] == steps[1];
    RunFirst(s3, steps[3..]);
    RunFirst(s2, steps[2..]);
    RunFirst(s1, steps[1..]);
    RunFirst(s, steps);
  }

  lemma {:induction false} RunAppends<T>(s: State<T>, a: seq<Step<T>>, b: seq<Step<T>>)
    requires 0 < |s.slots| && CanRun(s, a) && CanRun(Run(s, a), b)
    ensures CanRun(s, a + b) && Run(s, a + b) == Run(Run(s, a), b)
    decreases |a|
  {
    hide Enabled, Perform;
    if a == [] {
      assert a + b == b;
    } else {
      assert (a + b)[1..] == a[1..] + b && (a + b)[0] == a[0];
      RunAppends(Perform(s, a[0]), a[1..], b);
    }
  }

  lemma RunFirst<T>(s: State<T>, steps: seq<Step<T>>)
    requires 0 < |s.slots| && steps != [] && Enabled(s, steps[0]) && CanRun(Perform(s, steps[0]), steps[1..])
    ensures CanRun(s, steps) && Run(s, steps) == Run(Perform(s, steps[0]), steps[1..])
  {
  }
}
