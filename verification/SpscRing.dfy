/**
 The lock-free ring buffer as a protocol of two threads. Each thread takes atomic steps in any
 interleaving. Counting pushes and pops from the start, the index stored after n of them is n modulo
 the capacity; a load of the other thread's index may be stale: it returns any value stored since the
 one the loading thread saw last.
 */
module SpscRing {

  import opened Arithmetic
  import opened Types

  /** Where the producer is inside tryPush; k counts the pops it saw when it loaded the tail. */
  datatype Producer<T> =
    | ProducerIdle
    | WriteSlot(value: T, k: nat)
    | StoreHead(value: T, k: nat)
    | CountPush(k: nat)
    | RaiseMark(k: nat)

  /** Where the consumer is inside tryPop. */
  datatype Consumer<T> =
    | ConsumerIdle
    | ReadSlot
    | StoreTail(value: T)
    | CountPop(value: T)

  datatype Metrics = Metrics(pushCount: nat, popCount: nat, pushFailures: nat, popFailures: nat, highWaterMark: nat)

  /**
   The shared memory, both threads, and the history: what was published and released so far, how much
   of it each thread saw of the other, and the largest number of elements there ever were.
   */
  datatype Ring<T> = Ring(
    capacity: nat,
    head: nat,
    tail: nat,
    buffer: seq<T>,
    metrics: Metrics,
    producer: Producer<T>,
    consumer: Consumer<T>,
    pushed: seq<T>,
    popped: seq<T>,
    producerSaw: nat,
    consumerSaw: nat,
    peak: nat)

  datatype Action<T> =
    | BeginPush(value: T, k: nat)
    | ProducerStep
    | BeginPop(k: nat)
    | ConsumerStep

  predicate Shape<T>(s: Ring<T>) {
    s.capacity > 1 && |s.buffer| == s.capacity && s.head < s.capacity && s.tail < s.capacity
  }

  function Initial<T>(buffer: seq<T>): (s: Ring<T>)
    requires |buffer| > 1
    ensures Shape(s)
  {
    Ring(|buffer|, 0, 0, buffer, Metrics(0, 0, 0, 0, 0), ProducerIdle, ConsumerIdle, [], [], 0, 0, 0)
  }

  /** The index after n operations. */
  function Index(n: nat, capacity: nat): (i: nat)
    requires capacity > 0
    ensures i < capacity
  {
    n % capacity
  }

  function Increment(index: nat, capacity: nat): (i: nat)
    requires capacity > 0
    ensures i < capacity
  {
    (index + 1) % capacity
  }

  /** The depth computed from two indices. */
  function IndexDistance(head: nat, tail: nat, capacity: nat): nat
    requires head < capacity && tail < capacity
  {
    if head >= tail then head - tail else capacity - tail + head
  }

  function Max(a: nat, b: int): nat {
    if a < b then b else a
  }

  function Raised(m: Metrics, size: nat): Metrics {
    if size > m.highWaterMark then m.(highWaterMark := size) else m
  }

  /** The producer loads the tail, as the consumer stored it after k pops, and checks for room. */
  function LoadTail<T>(s: Ring<T>, value: T, k: nat): (r: Ring<T>)
    requires Shape(s)
    ensures Shape(r)
  {
    var s' := s.(producerSaw := k);
    if Increment(s.head, s.capacity) == Index(k, s.capacity)
    then s'.(metrics := s.metrics.(pushFailures := Increment(s.metrics.pushFailures, U64)))
    else s'.(producer := WriteSlot(value, k))
  }

  /** The consumer loads the head, as the producer stored it after k pushes, and checks for an element. */
  function LoadHead<T>(s: Ring<T>, k: nat): (r: Ring<T>)
    requires Shape(s)
    ensures Shape(r)
  {
    var s' := s.(consumerSaw := k);
    if s.tail == Index(k, s.capacity)
    then s'.(metrics := s.metrics.(popFailures := Increment(s.metrics.popFailures, U64)))
    else s'.(consumer := ReadSlot)
  }

  function Produce<T>(s: Ring<T>): (r: Ring<T>)
    requires Shape(s)
    ensures Shape(r)
  {
    match s.producer
    case ProducerIdle => s
    case WriteSlot(v, k) => s.(buffer := s.buffer[s.head := v], producer := StoreHead(v, k))
    case StoreHead(v, k) =>
      s.(head := Increment(s.head, s.capacity), producer := CountPush(k), pushed := s.pushed + [v],
         peak := Max(s.peak, |s.pushed| + 1 - |s.popped|))
    case CountPush(k) =>
      s.(metrics := s.metrics.(pushCount := Increment(s.metrics.pushCount, U64)), producer := RaiseMark(k))
    case RaiseMark(k) =>
      s.(metrics := Raised(s.metrics, IndexDistance(s.head, Index(k, s.capacity), s.capacity)),
        producer := ProducerIdle)
  }

  function Take<T>(s: Ring<T>): (r: Ring<T>)
    requires Shape(s)
    ensures Shape(r)
  {
    match s.consumer
    case ConsumerIdle => s
    case ReadSlot => s.(consumer := StoreTail(s.buffer[s.tail]))
    case StoreTail(v) => s.(tail := Increment(s.tail, s.capacity), consumer := CountPop(v), popped := s.popped + [v])
    case CountPop(_) => s.(metrics := s.metrics.(popCount := Increment(s.metrics.popCount, U64)),
      consumer := ConsumerIdle)
  }

  /** One atomic step; an action that is not possible changes nothing. */
  function Next<T>(s: Ring<T>, a: Action<T>): (r: Ring<T>)
    requires Shape(s)
    ensures Shape(r)
  {
    match a
    case BeginPush(v, k) =>
      if s.producer.ProducerIdle? && s.producerSaw <= k <= |s.popped| then LoadTail(s, v, k) else s
    case ProducerStep => Produce(s)
    case BeginPop(k) =>
      if s.consumer.ConsumerIdle? && s.consumerSaw <= k <= |s.pushed| then LoadHead(s, k) else s
    case ConsumerStep => Take(s)
  }

  function Run<T>(buffer: seq<T>, actions: seq<Action<T>>): (s: Ring<T>)
    requires |buffer| > 1
    ensures Shape(s)
  {
    if actions == [] then Initial(buffer)
    else Next(Run(buffer, actions[..|actions| - 1]), actions[|actions| - 1])
  }

  // ---- Counters and indices ----

  lemma IndexOf(n: nat, q: int, r: nat, c: nat)
    requires r < c && n == q * c + r
    ensures Index(n, c) == r
  {
    DivisionIs(n, c, q, r);
  }

  lemma IndexIncrement(n: nat, c: nat)
    requires c > 0
    ensures Increment(Index(n, c), c) == Index(n + 1, c)
  {
    var q, r := n / c, n % c;
    if r + 1 < c {
      IndexOf(n + 1, q, r + 1, c);
      IndexOf(r + 1, 0, r + 1, c);
    } else {
      assert n + 1 == (q + 1) * c;
      IndexOf(n + 1, q + 1, 0, c);
      IndexOf(r + 1, 1, 0, c);
    }
  }

  /** Counters at most a capacity apart have the same index only when equal or exactly that far apart. */
  lemma SameIndex(m: nat, n: nat, c: nat)
    requires c > 0 && m <= n <= m + c
    ensures Index(m, c) == Index(n, c) <==> n == m || n == m + c
  {
    var d := n / c - m / c;
    if m % c == n % c {
      assert n - m == d * c;
      MultipleGrows(d, c);
      MultipleGrows(d - 1, c);
      assert (d - 1) * c == d * c - c;
    }
    if n == m + c {
      IndexOf(n, m / c + 1, m % c, c);
    }
  }

  /** The two-branch depth formula is the difference of the counters. */
  lemma DistanceIsDifference(m: nat, n: nat, c: nat)
    requires c > 0 && m <= n < m + c
    ensures IndexDistance(Index(n, c), Index(m, c), c) == n - m
  {
    var q, r := m / c, m % c;
    if r + (n - m) < c {
      IndexOf(n, q, r + (n - m), c);
    } else {
      assert n == (q + 1) * c + (r + (n - m) - c);
      IndexOf(n, q + 1, r + (n - m) - c, c);
    }
  }

  // ---- The invariant ----

  ghost predicate Indices<T>(s: Ring<T>)
    requires Shape(s)
  {
    && s.head == Index(|s.pushed|, s.capacity)
    && s.tail == Index(|s.popped|, s.capacity)
    && s.producerSaw <= |s.popped| <= s.consumerSaw <= |s.pushed|
    && |s.pushed| - s.producerSaw < s.capacity
  }

  /** Live slots hold what was pushed and not yet popped, in order. */
  ghost predicate Stored<T>(s: Ring<T>)
    requires Shape(s)
  {
    && s.popped <= s.pushed
    && forall n :: |s.popped| <= n < |s.pushed| ==> s.buffer[Index(n, s.capacity)] == s.pushed[n]
  }

  /** A thread inside an operation relies only on what it saw of the other thread. */
  ghost predicate Midway<T>(s: Ring<T>)
    requires Shape(s)
  {
    && (s.producer.WriteSlot? || s.producer.StoreHead? ==> |s.pushed| + 1 - s.producerSaw < s.capacity)
    && (s.producer.StoreHead? ==> s.buffer[s.head] == s.producer.value)
    && (!s.producer.ProducerIdle? ==> s.producer.k == s.producerSaw)
    && (s.consumer.ReadSlot? || s.consumer.StoreTail? ==> |s.popped| < s.consumerSaw)
    && (s.consumer.StoreTail? ==> |s.popped| < |s.pushed| && s.consumer.value == s.pushed[|s.popped|])
    && (s.consumer.CountPop? ==> s.popped != [] && s.consumer.value == s.popped[|s.popped| - 1])
  }

  /** Counts lag an operation by at most the step that is due; the mark covers the peak once raised. */
  ghost predicate Measured<T>(s: Ring<T>) {
    && (s.producer.CountPush? ==> s.pushed != [])
    && (s.consumer.CountPop? ==> s.popped != [])
    && s.metrics.pushCount == Index(if s.producer.CountPush? then |s.pushed| - 1 else |s.pushed|, U64)
    && s.metrics.popCount == Index(if s.consumer.CountPop? then |s.popped| - 1 else |s.popped|, U64)
    && |s.pushed| - |s.popped| <= s.peak < s.capacity
    && s.metrics.highWaterMark < s.capacity
    && (if s.producer.CountPush? || s.producer.RaiseMark?
        then s.peak <= Max(s.metrics.highWaterMark, |s.pushed| - s.producerSaw)
        else s.peak <= s.metrics.highWaterMark)
  }

  ghost predicate Invariant<T>(s: Ring<T>) {
    Shape(s) && Indices(s) && Stored(s) && Midway(s) && Measured(s)
  }

  lemma LoadTailKeeps<T>(s: Ring<T>, value: T, k: nat)
    requires Invariant(s) && s.producer.ProducerIdle? && s.producerSaw <= k <= |s.popped|
    ensures Invariant(LoadTail(s, value, k))
    ensures LoadTail(s, value, k).producer.WriteSlot? <==> |s.pushed| - k < s.capacity - 1
  {
    hide Index, Increment;
    IndexIncrement(|s.pushed|, s.capacity);
    SameIndex(k, |s.pushed| + 1, s.capacity);
  }

  lemma LoadHeadKeeps<T>(s: Ring<T>, k: nat)
    requires Invariant(s) && s.consumer.ConsumerIdle? && s.consumerSaw <= k <= |s.pushed|
    ensures Invariant(LoadHead(s, k))
    ensures |s.popped| <= k && (LoadHead(s, k).consumer.ReadSlot? <==> k > |s.popped|)
  {
    hide Index, Increment;
    SameIndex(|s.popped|, k, s.capacity);
  }

  lemma WriteKeeps<T>(s: Ring<T>)
    requires Invariant(s) && s.producer.WriteSlot?
    ensures Invariant(Produce(s))
  {
    hide Index, Increment;
    forall n: nat | |s.popped| <= n < |s.pushed| ensures Index(n, s.capacity) != s.head {
      SameIndex(n, |s.pushed|, s.capacity);
    }
  }

  lemma PublishKeeps<T>(s: Ring<T>)
    requires Invariant(s) && s.producer.StoreHead?
    ensures Invariant(Produce(s))
  {
    hide Index, Increment;
    IndexIncrement(|s.pushed|, s.capacity);
  }

  lemma MeasureKeeps<T>(s: Ring<T>)
    requires Invariant(s) && (s.producer.CountPush? || s.producer.RaiseMark?)
    ensures Invariant(Produce(s))
  {
    hide Index, Increment, IndexDistance;
    DistanceIsDifference(s.producerSaw, |s.pushed|, s.capacity);
    if s.producer.CountPush? {
      IndexIncrement(|s.pushed| - 1, U64);
    }
  }

  lemma TakeKeeps<T>(s: Ring<T>)
    requires Invariant(s)
    ensures Invariant(Take(s))
  {
    hide Index, Increment;
    IndexIncrement(|s.popped|, s.capacity);
    if s.consumer.CountPop? {
      IndexIncrement(|s.popped| - 1, U64);
    }
  }

  lemma NextKeeps<T>(s: Ring<T>, a: Action<T>)
    requires Invariant(s)
    ensures Invariant(Next(s, a))
  {
    hide Invariant, LoadTail, LoadHead, Take;
    match a
    case BeginPush(v, k) =>
      if s.producer.ProducerIdle? && s.producerSaw <= k <= |s.popped| { LoadTailKeeps(s, v, k); }
    case BeginPop(k) =>
      if s.consumer.ConsumerIdle? && s.consumerSaw <= k <= |s.pushed| { LoadHeadKeeps(s, k); }
    case ConsumerStep => TakeKeeps(s);
    case ProducerStep =>
      match s.producer {
        case ProducerIdle =>
        case WriteSlot(_, _) => WriteKeeps(s);
        case StoreHead(_, _) => PublishKeeps(s);
        case CountPush(_) => MeasureKeeps(s);
        case RaiseMark(_) => MeasureKeeps(s);
      }
  }

  lemma {:induction false} RunKeeps<T>(buffer: seq<T>, actions: seq<Action<T>>)
    requires |buffer| > 1
    ensures Invariant(Run(buffer, actions))
  {
    if actions != [] {
      RunKeeps(buffer, actions[..|actions| - 1]);
      NextKeeps(Run(buffer, actions[..|actions| - 1]), actions[|actions| - 1]);
    }
  }

  // ---- Calls and their results, told from the trace ----

  /** This action begins a push: the producer is free and can see that many pops. */
  predicate BeginsPush<T>(s: Ring<T>, a: Action<T>) {
    a.BeginPush? && s.producer.ProducerIdle? && s.producerSaw <= a.k <= |s.popped|
  }

  predicate BeginsPop<T>(s: Ring<T>, a: Action<T>) {
    a.BeginPop? && s.consumer.ConsumerIdle? && s.consumerSaw <= a.k <= |s.pushed|
  }

  /** A push that sees the ring full is refused: capacity - 1 elements fill it. */
  predicate SeesRoom<T>(s: Ring<T>, a: Action<T>)
    requires a.BeginPush?
  {
    |s.pushed| - a.k < s.capacity - 1
  }

  predicate SeesElement<T>(s: Ring<T>, a: Action<T>)
    requires a.BeginPop?
  {
    a.k > |s.popped|
  }

  /** The values that callers passed to the pushes that were not refused, in order. */
  function Accepted<T>(buffer: seq<T>, actions: seq<Action<T>>): seq<T>
    requires |buffer| > 1
  {
    if actions == [] then []
    else
      var before, a := actions[..|actions| - 1], actions[|actions| - 1];
      var s := Run(buffer, before);
      Accepted(buffer, before) + if BeginsPush(s, a) && SeesRoom(s, a) then [a.value] else []
  }

  /** The values that pops returned to their callers, in order. */
  function Returned<T>(buffer: seq<T>, actions: seq<Action<T>>): seq<T>
    requires |buffer| > 1
  {
    if actions == [] then []
    else
      var before, a := actions[..|actions| - 1], actions[|actions| - 1];
      var s := Run(buffer, before);
      Returned(buffer, before) + if a.ConsumerStep? && s.consumer.CountPop? then [s.consumer.value] else []
  }

  function PushRefusals<T>(buffer: seq<T>, actions: seq<Action<T>>): nat
    requires |buffer| > 1
  {
    if actions == [] then 0
    else
      var before, a := actions[..|actions| - 1], actions[|actions| - 1];
      var s := Run(buffer, before);
      PushRefusals(buffer, before) + if BeginsPush(s, a) && !SeesRoom(s, a) then 1 else 0
  }

  function PopRefusals<T>(buffer: seq<T>, actions: seq<Action<T>>): nat
    requires |buffer| > 1
  {
    if actions == [] then 0
    else
      var before, a := actions[..|actions| - 1], actions[|actions| - 1];
      var s := Run(buffer, before);
      PopRefusals(buffer, before) + if BeginsPop(s, a) && !SeesElement(s, a) then 1 else 0
  }

  /** The largest depth that a completed push computed: its own element included, the pops it saw taken off. */
  function LargestDepth<T>(buffer: seq<T>, actions: seq<Action<T>>): nat
    requires |buffer| > 1
  {
    if actions == [] then 0
    else
      var before, a := actions[..|actions| - 1], actions[|actions| - 1];
      var s := Run(buffer, before);
      if a.ProducerStep? && s.producer.RaiseMark?
      then Max(LargestDepth(buffer, before), |s.pushed| - s.producerSaw)
      else LargestDepth(buffer, before)
  }

  /** The value of a push that is under way and not yet published. */
  function Unpublished<T>(p: Producer<T>): seq<T> {
    if p.WriteSlot? || p.StoreHead? then [p.value] else []
  }

  /** The value of a pop that released its slot and has not returned. */
  function Unreturned<T>(c: Consumer<T>): seq<T> {
    if c.CountPop? then [c.value] else []
  }

  ghost predicate Traced<T>(
    s: Ring<T>, accepted: seq<T>, returned: seq<T>, pushRefusals: nat, popRefusals: nat, depth: nat) {
    && s.pushed + Unpublished(s.producer) == accepted
    && s.popped == returned + Unreturned(s.consumer)
    && s.metrics.pushFailures == Index(pushRefusals, U64)
    && s.metrics.popFailures == Index(popRefusals, U64)
    && s.metrics.highWaterMark == depth
  }

  ghost predicate TracedRun<T>(buffer: seq<T>, actions: seq<Action<T>>)
    requires |buffer| > 1
  {
    Traced(Run(buffer, actions), Accepted(buffer, actions), Returned(buffer, actions),
           PushRefusals(buffer, actions), PopRefusals(buffer, actions), LargestDepth(buffer, actions))
  }

  lemma PushTraced<T>(s: Ring<T>, a: Action<T>, accepted: seq<T>, returned: seq<T>, x: nat, y: nat, depth: nat)
    requires Invariant(s) && Traced(s, accepted, returned, x, y, depth) && a.BeginPush?
    ensures var begins := BeginsPush(s, a);
      Traced(Next(s, a), accepted + (if begins && SeesRoom(s, a) then [a.value] else []), returned,
             x + (if begins && !SeesRoom(s, a) then 1 else 0), y, depth)
  {
    hide Index, Increment, Invariant;
    IndexIncrement(x, U64);
    if BeginsPush(s, a) {
      LoadTailKeeps(s, a.value, a.k);
    }
  }

  lemma PopTraced<T>(s: Ring<T>, a: Action<T>, accepted: seq<T>, returned: seq<T>, x: nat, y: nat, depth: nat)
    requires Invariant(s) && Traced(s, accepted, returned, x, y, depth) && a.BeginPop?
    ensures Traced(Next(s, a), accepted, returned, x,
                   y + (if BeginsPop(s, a) && !SeesElement(s, a) then 1 else 0), depth)
  {
    hide Index, Increment, Invariant;
    IndexIncrement(y, U64);
    if BeginsPop(s, a) {
      LoadHeadKeeps(s, a.k);
    }
  }

  lemma ProduceTraced<T>(s: Ring<T>, accepted: seq<T>, returned: seq<T>, x: nat, y: nat, depth: nat)
    requires Invariant(s) && Traced(s, accepted, returned, x, y, depth)
    ensures Traced(Produce(s), accepted, returned, x, y,
                   if s.producer.RaiseMark? then Max(depth, |s.pushed| - s.producerSaw) else depth)
  {
    hide Index, Increment, IndexDistance;
    DistanceIsDifference(s.producerSaw, |s.pushed|, s.capacity);
  }

  lemma TakeTraced<T>(s: Ring<T>, accepted: seq<T>, returned: seq<T>, x: nat, y: nat, depth: nat)
    requires Invariant(s) && Traced(s, accepted, returned, x, y, depth)
    ensures Traced(Take(s), accepted,
                   returned + (if s.consumer.CountPop? then [s.consumer.value] else []), x, y, depth)
  {
    hide Index, Increment;
  }

  lemma {:induction false} RunTraced<T>(buffer: seq<T>, actions: seq<Action<T>>)
    requires |buffer| > 1
    ensures TracedRun(buffer, actions)
  {
    hide Traced, Invariant, LoadTail, LoadHead, Produce, Take, SeesRoom, SeesElement;
    if actions == [] {
      StartTraced(buffer);
    } else {
      var before, a := actions[..|actions| - 1], actions[|actions| - 1];
      RunTraced(buffer, before);
      RunKeeps(buffer, before);
      var s, v, w := Run(buffer, before), Accepted(buffer, before), Returned(buffer, before);
      var x, y, d := PushRefusals(buffer, before), PopRefusals(buffer, before), LargestDepth(buffer, before);
      assert v + [] == v && w + [] == w;
      match a
      case BeginPush(_, _) => PushTraced(s, a, v, w, x, y, d);
      case BeginPop(_) => PopTraced(s, a, v, w, x, y, d);
      case ProducerStep => ProduceTraced(s, v, w, x, y, d);
      case ConsumerStep => TakeTraced(s, v, w, x, y, d);
    }
  }

  lemma StartTraced<T>(buffer: seq<T>)
    requires |buffer| > 1
    ensures Traced(Initial(buffer), [], [], 0, 0, 0)
  {
  }

  // ---- What the protocol guarantees ----

  /** Both threads are about to touch the buffer, in the same slot. */
  predicate Collision<T>(s: Ring<T>) {
    s.producer.WriteSlot? && s.consumer.ReadSlot? && s.head == s.tail
  }

  /**
   Every interleaving, with every choice of stale reads: the values that pops returned are the first of
   those that accepted pushes were given, in order, none twice and none invented. What is published and
   not yet released is never more than capacity - 1, and the two threads never touch one slot.
   */
  lemma FifoSafety<T>(buffer: seq<T>, actions: seq<Action<T>>)
    requires |buffer| > 1
    ensures var s := Run(buffer, actions);
      && Returned(buffer, actions) <= Accepted(buffer, actions)
      && s.pushed + Unpublished(s.producer) == Accepted(buffer, actions)
      && s.popped == Returned(buffer, actions) + Unreturned(s.consumer)
      && s.popped <= s.pushed
      && |s.pushed| - |s.popped| <= |buffer| - 1
      && !Collision(s)
  {
    hide Run, Accepted, Returned, PushRefusals, PopRefusals, LargestDepth;
    var s := Run(buffer, actions);
    RunKeeps(buffer, actions);
    RunTraced(buffer, actions);
    CapacityFixed(buffer, actions);
    assert Returned(buffer, actions) <= s.popped <= s.pushed <= Accepted(buffer, actions);
    if s.consumer.ReadSlot? {
      SameIndex(|s.popped|, |s.pushed|, s.capacity);
    }
  }

  /** The steps a call still has to make. */
  function ProducerSteps<T>(p: Producer<T>): nat {
    match p
    case ProducerIdle => 0
    case WriteSlot(_, _) => 4
    case StoreHead(_, _) => 3
    case CountPush(_) => 2
    case RaiseMark(_) => 1
  }

  function ConsumerSteps<T>(c: Consumer<T>): nat {
    match c
    case ConsumerIdle => 0
    case ReadSlot => 3
    case StoreTail(_) => 2
    case CountPop(_) => 1
  }

  /** No call waits for the other thread: each of its steps is one fewer to make, and the other's change nothing. */
  lemma CallsComplete<T>(s: Ring<T>, a: Action<T>)
    requires Shape(s)
    ensures a.ProducerStep? ==> ProducerSteps(Next(s, a).producer) == Max(0, ProducerSteps(s.producer) - 1)
    ensures a.ConsumerStep? ==> ConsumerSteps(Next(s, a).consumer) == Max(0, ConsumerSteps(s.consumer) - 1)
    ensures a.BeginPop? || a.ConsumerStep? ==> Next(s, a).producer == s.producer
    ensures a.BeginPush? || a.ProducerStep? ==> Next(s, a).consumer == s.consumer
  {
  }

  lemma {:induction false} CapacityFixed<T>(buffer: seq<T>, actions: seq<Action<T>>)
    requires |buffer| > 1
    ensures Run(buffer, actions).capacity == |buffer|
  {
    if actions != [] {
      CapacityFixed(buffer, actions[..|actions| - 1]);
    }
  }

  /**
   Each access of a slot comes after the other thread's last access of it, in the order that the
   acquired index establishes: the consumer reads element |popped|, whose publication it saw; the
   producer overwrites the slot of element |pushed| - capacity, whose release it saw.
   */
  lemma AccessesAreOrdered<T>(buffer: seq<T>, actions: seq<Action<T>>)
    requires |buffer| > 1
    ensures var s, accepted := Run(buffer, actions), Accepted(buffer, actions);
      && |s.pushed| <= |accepted|
      && (s.consumer.ReadSlot? ==>
            |s.popped| < s.consumerSaw <= |s.pushed| && s.buffer[s.tail] == accepted[|s.popped|])
      && (s.producer.WriteSlot? ==> |s.pushed| - s.capacity < s.producerSaw <= |s.popped|)
  {
    hide Run, Accepted, Returned, PushRefusals, PopRefusals, LargestDepth;
    RunKeeps(buffer, actions);
    RunTraced(buffer, actions);
  }

  /** A refusal is never wrong about what was seen: with an up-to-date index it means full, or empty. */
  lemma RefusedOnlyWhenSeenFull<T>(buffer: seq<T>, actions: seq<Action<T>>, value: T, k: nat)
    requires |buffer| > 1
    requires var s := Run(buffer, actions); s.producer.ProducerIdle? && s.producerSaw <= k <= |s.popped|
    ensures var s := Run(buffer, actions);
      Next(s, BeginPush(value, k)).producer.ProducerIdle? <==> |s.pushed| - k == s.capacity - 1
  {
    var s := Run(buffer, actions);
    RunKeeps(buffer, actions);
    LoadTailKeeps(s, value, k);
  }

  lemma RefusedOnlyWhenSeenEmpty<T>(buffer: seq<T>, actions: seq<Action<T>>, k: nat)
    requires |buffer| > 1
    requires var s := Run(buffer, actions); s.consumer.ConsumerIdle? && s.consumerSaw <= k <= |s.pushed|
    ensures var s := Run(buffer, actions);
      Next(s, BeginPop(k)).consumer.ConsumerIdle? <==> k == |s.popped|
  {
    var s := Run(buffer, actions);
    RunKeeps(buffer, actions);
    LoadHeadKeeps(s, k);
  }

  /** How many elements there were after the first n actions. */
  function Elements<T>(buffer: seq<T>, actions: seq<Action<T>>, n: nat): int
    requires |buffer| > 1 && n <= |actions|
  {
    var s := Run(buffer, actions[..n]);
    |s.pushed| - |s.popped|
  }

  lemma {:induction false} PeakCovers<T>(buffer: seq<T>, actions: seq<Action<T>>, n: nat)
    requires |buffer| > 1 && n <= |actions|
    ensures Elements(buffer, actions, n) <= Run(buffer, actions).peak
  {
    if n == |actions| {
      assert actions[..n] == actions;
      RunKeeps(buffer, actions);
    } else {
      var before := actions[..|actions| - 1];
      assert before[..n] == actions[..n];
      PeakCovers(buffer, before, n);
      PeakGrows(Run(buffer, before), actions[|actions| - 1]);
    }
  }

  lemma PeakGrows<T>(s: Ring<T>, a: Action<T>)
    requires Shape(s)
    ensures s.peak <= Next(s, a).peak
  {
  }

  /**
   Between calls the counters are the numbers of accepted pushes, returned pops and refusals, modulo
   2^64. The high-water mark is the largest depth a completed push computed; it is never below the number
   of elements there ever were, and at most capacity - 1.
   */
  lemma MetricsAreTrue<T>(buffer: seq<T>, actions: seq<Action<T>>)
    requires |buffer| > 1
    ensures var s := Run(buffer, actions);
      && (s.producer.ProducerIdle? ==> s.metrics.pushCount == |Accepted(buffer, actions)| % U64)
      && (s.consumer.ConsumerIdle? ==> s.metrics.popCount == |Returned(buffer, actions)| % U64)
      && s.metrics.pushFailures == PushRefusals(buffer, actions) % U64
      && s.metrics.popFailures == PopRefusals(buffer, actions) % U64
      && s.metrics.highWaterMark == LargestDepth(buffer, actions) <= |buffer| - 1
      && (s.producer.ProducerIdle? ==>
            forall n :: 0 <= n <= |actions| ==> Elements(buffer, actions, n) <= s.metrics.highWaterMark)
  {
    hide Run, Accepted, Returned, PushRefusals, PopRefusals, LargestDepth, Elements;
    RunKeeps(buffer, actions);
    RunTraced(buffer, actions);
    CapacityFixed(buffer, actions);
    forall n | 0 <= n <= |actions| ensures Elements(buffer, actions, n) <= Run(buffer, actions).peak {
      PeakCovers(buffer, actions, n);
    }
  }
}
