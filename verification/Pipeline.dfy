/**
 The market-data pipeline: one control thread that starts, submits and stops, and the worker that each
 start spawns. The worker polls the running flag, drains the ring, and drains it once more after it
 saw the flag cleared.
 */
module Pipelines {

  import opened Types
  import opened SpscRing

  /** Where the worker is; `final` marks the drain after the loop, `count` what this dispatch consumed. */
  datatype Worker<T> =
    | NoWorker
    | Checking
    | Dispatching(final: bool, count: nat)
    | Delivering(final: bool, count: nat, event: T)
    | Adding(final: bool, count: nat)
    | Finished

  /** The control thread is between calls or inside submit, or waits in stop for the worker to end. */
  datatype Control = Free | Joining

  datatype Pipeline<T> = Pipeline(
    ring: Ring<T>,
    running: bool,
    processed: nat,
    worker: Worker<T>,
    control: Control,
    consumed: seq<T>,
    startedAt: nat,
    stoppedAt: nat)

  /** A flag load returns what stop stored, or still the older value. */
  datatype Move<T> =
    | Start
    | Submit(value: T, k: nat)
    | SubmitStep
    | Stop
    | Join
    | LoadFlag(flag: bool)
    | Pop(k: nat)
    | PopStep
    | Deliver
    | AddCount

  function Begin<T>(buffer: seq<T>): (s: Pipeline<T>)
    requires |buffer| > 1
    ensures Shape(s.ring)
  {
    Pipeline(Initial(buffer), false, 0, NoWorker, Free, [], 0, 0)
  }

  /** Loading a cleared flag also makes everything the control thread did before clearing it visible. */
  function CheckFlag<T>(s: Pipeline<T>, flag: bool): (r: Pipeline<T>)
    requires Shape(s.ring)
    ensures Shape(r.ring)
  {
    if !s.worker.Checking? || (!flag && s.running) then s
    else if flag then s.(worker := Dispatching(false, 0))
    else s.(worker := Dispatching(true, 0), ring := s.ring.(consumerSaw := Max(s.ring.consumerSaw, s.stoppedAt)))
  }

  function Dispatch<T>(s: Pipeline<T>, m: Move<T>): (r: Pipeline<T>)
    requires Shape(s.ring) && s.worker.Dispatching?
    ensures Shape(r.ring)
  {
    match m
    case Pop(k) =>
      if !s.ring.consumer.ConsumerIdle? || !(s.ring.consumerSaw <= k <= |s.ring.pushed|) then s
      else
        var ring := Next(s.ring, BeginPop(k));
        if ring.consumer.ReadSlot? then s.(ring := ring)
        else s.(ring := ring, worker := Adding(s.worker.final, s.worker.count))
    case PopStep =>
      var ring := Next(s.ring, ConsumerStep);
      if s.ring.consumer.CountPop?
      then s.(ring := ring, worker := Delivering(s.worker.final, s.worker.count, s.ring.consumer.value))
      else s.(ring := ring)
    case _ => s
  }

  /** One atomic step of either thread; a move that is not possible changes nothing. */
  function After<T>(s: Pipeline<T>, m: Move<T>): (r: Pipeline<T>)
    requires Shape(s.ring)
    ensures Shape(r.ring)
  {
    var idle := s.control.Free? && s.ring.producer.ProducerIdle?;
    match m
    case Start =>
      if !idle || s.running then s
      else s.(running := true, processed := 0, worker := Checking, startedAt := |s.consumed|)
    case Submit(v, k) => if idle then s.(ring := Next(s.ring, BeginPush(v, k))) else s
    case SubmitStep => if s.control.Free? then s.(ring := Next(s.ring, ProducerStep)) else s
    case Stop =>
      if !idle || !s.running then s
      else s.(running := false, control := Joining, stoppedAt := |s.ring.pushed|)
    case Join =>
      if s.control.Joining? && s.worker.Finished? then s.(control := Free, worker := NoWorker) else s
    case LoadFlag(flag) => CheckFlag(s, flag)
    case Deliver =>
      if !s.worker.Delivering? then s
      else s.(consumed := s.consumed + [s.worker.event], worker := Dispatching(s.worker.final, s.worker.count + 1))
    case AddCount =>
      if !s.worker.Adding? then s
      else s.(processed := if s.worker.count > 0 then (s.processed + s.worker.count) % U64 else s.processed,
              worker := if s.worker.final then Finished else Checking)
    case _ => if s.worker.Dispatching? then Dispatch(s, m) else s
  }

  function Reached<T>(buffer: seq<T>, moves: seq<Move<T>>): (s: Pipeline<T>)
    requires |buffer| > 1
    ensures Shape(s.ring)
  {
    if moves == [] then Begin(buffer)
    else After(Reached(buffer, moves[..|moves| - 1]), moves[|moves| - 1])
  }

  // ---- The invariant ----

  /** The worker is in, or past, the drain that follows the loop. */
  predicate Draining<T>(w: Worker<T>) {
    match w
    case Dispatching(final, _) => final
    case Delivering(final, _, _) => final
    case Adding(final, _) => final
    case Finished => true
    case _ => false
  }

  predicate Lifecycle<T>(s: Pipeline<T>) {
    && (s.control.Free? ==> (s.running <==> !s.worker.NoWorker?))
    && (s.control.Joining? ==> !s.running && !s.worker.NoWorker? && s.ring.producer.ProducerIdle?)
    && (s.control.Joining? ==> s.stoppedAt == |s.ring.pushed|)
    && (Draining(s.worker) ==> s.control.Joining? && s.ring.consumerSaw == |s.ring.pushed|)
    && (!s.ring.consumer.ConsumerIdle? ==> s.worker.Dispatching?)
  }

  /** What was popped has been consumed, but for the event the worker holds. */
  ghost predicate Delivered<T>(s: Pipeline<T>) {
    s.ring.popped == s.consumed +
      (if s.worker.Delivering? then [s.worker.event]
       else if s.ring.consumer.CountPop? then [s.ring.consumer.value]
       else [])
  }

  function Uncounted<T>(w: Worker<T>): nat {
    match w
    case Dispatching(_, count) => count
    case Delivering(_, count, _) => count
    case Adding(_, count) => count
    case _ => 0
  }

  /** The published count is what was consumed since the last start, less what this dispatch has to add. */
  predicate Counted<T>(s: Pipeline<T>) {
    && s.startedAt + Uncounted(s.worker) <= |s.consumed|
    && s.processed == Index(|s.consumed| - s.startedAt - Uncounted(s.worker), U64)
  }

  predicate Drained<T>(s: Pipeline<T>) {
    Draining(s.worker) && (s.worker.Adding? || s.worker.Finished?) ==> |s.ring.popped| == |s.ring.pushed|
  }

  ghost predicate Sound<T>(s: Pipeline<T>) {
    Invariant(s.ring) && Lifecycle(s) && Delivered(s) && Counted(s) && Drained(s)
  }

  /** The producer's steps leave the consumer's side alone. */
  lemma ProducerOnly<T>(s: Ring<T>, a: Action<T>)
    requires Shape(s) && (a.BeginPush? || a.ProducerStep?)
    ensures var r := Next(s, a); r.consumer == s.consumer && r.popped == s.popped && r.consumerSaw == s.consumerSaw
  {
  }

  lemma ControlKeeps<T>(s: Pipeline<T>, m: Move<T>)
    requires Sound(s) && (m.Start? || m.Stop? || m.Join? || m.Submit? || m.SubmitStep?)
    ensures Sound(After(s, m))
  {
    hide Indices, Stored, Midway, Measured, Next, Index;
    if m.Submit? {
      NextKeeps(s.ring, BeginPush(m.value, m.k));
      ProducerOnly(s.ring, BeginPush(m.value, m.k));
    } else if m.SubmitStep? {
      NextKeeps(s.ring, ProducerStep);
      ProducerOnly(s.ring, ProducerStep);
    }
    IndexOf(0, 0, 0, U64);
  }

  lemma FlagKeeps<T>(s: Pipeline<T>, flag: bool)
    requires Sound(s)
    ensures Sound(CheckFlag(s, flag))
  {
    hide Index;
  }

  lemma DispatchKeeps<T>(s: Pipeline<T>, m: Move<T>)
    requires Sound(s) && s.worker.Dispatching?
    ensures Sound(Dispatch(s, m))
  {
    hide Indices, Stored, Midway, Measured, LoadHead, Index;
    match m
    case Pop(k) =>
      if s.ring.consumer.ConsumerIdle? && s.ring.consumerSaw <= k <= |s.ring.pushed| {
        NextKeeps(s.ring, BeginPop(k));
        LoadHeadKeeps(s.ring, k);
        LoadHeadOnly(s.ring, k);
      }
    case PopStep =>
      NextKeeps(s.ring, ConsumerStep);
      LastPopped(s.ring);
    case _ =>
  }

  /** Loading the head changes nothing else that the worker or the control thread relies on. */
  lemma LoadHeadOnly<T>(s: Ring<T>, k: nat)
    requires Shape(s)
    ensures var r := LoadHead(s, k);
      && r.producer == s.producer && r.pushed == s.pushed && r.popped == s.popped && r.consumerSaw == k
      && (r.consumer == s.consumer || r.consumer.ReadSlot?)
  {
  }

  lemma LastPopped<T>(s: Ring<T>)
    requires Invariant(s)
    ensures s.consumer.CountPop? ==> s.popped != [] && s.popped[|s.popped| - 1] == s.consumer.value
    ensures Take(s).consumer.CountPop? && !s.consumer.CountPop? ==> s.consumer.StoreTail?
  {
  }

  lemma DeliverKeeps<T>(s: Pipeline<T>)
    requires Sound(s)
    ensures Sound(After(s, Deliver))
  {
    hide Indices, Stored, Midway, Measured, Index;
  }

  lemma AddKeeps<T>(s: Pipeline<T>)
    requires Sound(s)
    ensures Sound(After(s, AddCount))
  {
    hide Indices, Stored, Midway, Measured, Index;
    var n := |s.consumed| - s.startedAt;
    if s.worker.Adding? {
      AddModulo(n - s.worker.count, s.worker.count);
    }
  }

  lemma AddModulo(n: nat, count: nat)
    ensures (Index(n, U64) + count) % U64 == Index(n + count, U64)
  {
  }

  lemma AfterKeeps<T>(s: Pipeline<T>, m: Move<T>)
    requires Sound(s)
    ensures Sound(After(s, m))
  {
    hide Sound, Dispatch, CheckFlag;
    match m
    case LoadFlag(flag) => FlagKeeps(s, flag);
    case Deliver => DeliverKeeps(s);
    case AddCount => AddKeeps(s);
    case Pop(_) => if s.worker.Dispatching? { DispatchKeeps(s, m); }
    case PopStep => if s.worker.Dispatching? { DispatchKeeps(s, m); }
    case _ => ControlKeeps(s, m);
  }

  lemma {:induction false} ReachedIsSound<T>(buffer: seq<T>, moves: seq<Move<T>>)
    requires |buffer| > 1
    ensures Sound(Reached(buffer, moves))
  {
    hide After;
    if moves != [] {
      ReachedIsSound(buffer, moves[..|moves| - 1]);
      AfterKeeps(Reached(buffer, moves[..|moves| - 1]), moves[|moves| - 1]);
    }
  }

  // ---- Calls, told from the moves ----

  /** This move is a submit that is not refused. */
  predicate Submits<T>(s: Pipeline<T>, m: Move<T>) {
    && m.Submit? && s.control.Free?
    && BeginsPush(s.ring, BeginPush(m.value, m.k)) && SeesRoom(s.ring, BeginPush(m.value, m.k))
  }

  /** The events given to the submits that were not refused, in order. */
  function Submitted<T>(buffer: seq<T>, moves: seq<Move<T>>): seq<T>
    requires |buffer| > 1
  {
    if moves == [] then []
    else
      var before, m := moves[..|moves| - 1], moves[|moves| - 1];
      Submitted(buffer, before) + if Submits(Reached(buffer, before), m) then [m.value] else []
  }

  /** This move is a start call while nothing runs. */
  predicate Starts<T>(s: Pipeline<T>, m: Move<T>) {
    m.Start? && s.control.Free? && s.ring.producer.ProducerIdle? && !s.running
  }

  /** How many events had been consumed when the last worker was started. */
  function ConsumedBefore<T>(buffer: seq<T>, moves: seq<Move<T>>): nat
    requires |buffer| > 1
  {
    if moves == [] then 0
    else
      var before, m := moves[..|moves| - 1], moves[|moves| - 1];
      if Starts(Reached(buffer, before), m) then |Reached(buffer, before).consumed| else ConsumedBefore(buffer, before)
  }

  /** What pushes have been given, published or not. */
  function Offered<T>(s: Ring<T>): seq<T> {
    s.pushed + Unpublished(s.producer)
  }

  lemma OfferedNext<T>(s: Ring<T>, a: Action<T>)
    requires Invariant(s)
    ensures Offered(Next(s, a)) ==
      Offered(s) + if BeginsPush(s, a) && SeesRoom(s, a) then [a.value] else []
  {
    hide Index, Increment, Indices, Stored, Midway, Measured;
    if BeginsPush(s, a) {
      LoadTailKeeps(s, a.value, a.k);
    }
  }

  lemma OfferedAfter<T>(s: Pipeline<T>, m: Move<T>)
    requires Sound(s)
    ensures Offered(After(s, m).ring) == Offered(s.ring) + if Submits(s, m) then [m.value] else []
  {
    hide Invariant, Next, Offered, BeginsPush, SeesRoom;
    if m.Submit? {
      OfferedNext(s.ring, BeginPush(m.value, m.k));
      OnlyWhenIdle(s.ring, BeginPush(m.value, m.k));
    } else if m.SubmitStep? {
      OfferedNext(s.ring, ProducerStep);
      OnlyWhenIdle(s.ring, ProducerStep);
    } else if m.Pop? {
      OfferedNext(s.ring, BeginPop(m.k));
      OnlyWhenIdle(s.ring, BeginPop(m.k));
    } else if m.PopStep? {
      OfferedNext(s.ring, ConsumerStep);
      OnlyWhenIdle(s.ring, ConsumerStep);
    }
    SameOffer(s.ring, Max(s.ring.consumerSaw, s.stoppedAt));
    assert Offered(s.ring) + [] == Offered(s.ring);
  }

  lemma OnlyWhenIdle<T>(s: Ring<T>, a: Action<T>)
    ensures BeginsPush(s, a) ==> s.producer.ProducerIdle? && a.BeginPush?
    ensures a.BeginPop? || a.ConsumerStep? || a.ProducerStep? ==> !BeginsPush(s, a)
  {
  }

  lemma SameOffer<T>(s: Ring<T>, k: nat)
    ensures Offered(s.(consumerSaw := k)) == Offered(s)
  {
  }

  ghost predicate TracedMoves<T>(buffer: seq<T>, moves: seq<Move<T>>)
    requires |buffer| > 1
  {
    && Offered(Reached(buffer, moves).ring) == Submitted(buffer, moves)
    && Reached(buffer, moves).startedAt == ConsumedBefore(buffer, moves)
  }

  lemma {:induction false} MovesTraced<T>(buffer: seq<T>, moves: seq<Move<T>>)
    requires |buffer| > 1
    ensures TracedMoves(buffer, moves)
  {
    hide After, Offered, Submits, Starts, Sound;
    if moves == [] {
      NothingOffered(buffer);
    } else {
      var before, m := moves[..|moves| - 1], moves[|moves| - 1];
      MovesTraced(buffer, before);
      ReachedIsSound(buffer, before);
      OfferedAfter(Reached(buffer, before), m);
      StartedAfter(Reached(buffer, before), m);
    }
  }

  lemma NothingOffered<T>(buffer: seq<T>)
    requires |buffer| > 1
    ensures Offered(Begin(buffer).ring) == []
  {
  }

  lemma StartedAfter<T>(s: Pipeline<T>, m: Move<T>)
    requires Shape(s.ring)
    ensures After(s, m).startedAt == if Starts(s, m) then |s.consumed| else s.startedAt
  {
    hide Next;
  }

  /** Start and stop do what they are called for, and nothing when there is nothing to start or stop. */
  lemma CallsTakeEffect<T>(s: Pipeline<T>)
    requires Sound(s) && s.control.Free? && s.ring.producer.ProducerIdle?
    ensures s.running ==> After(s, Start) == s
    ensures !s.running ==> var r := After(s, Start);
      r.running && r.worker.Checking? && r.processed == 0 && r.ring == s.ring && r.consumed == s.consumed
    ensures s.running ==> var r := After(s, Stop);
      r.control.Joining? && !r.running && r.worker == s.worker && r.ring == s.ring && r.consumed == s.consumed
    ensures !s.running ==> After(s, Stop) == s
  {
  }

  /** The worker may read the old flag for as long as it likes, and the cleared one only once it is cleared. */
  lemma FlagReads<T>(s: Pipeline<T>, flag: bool)
    requires Shape(s.ring) && s.worker.Checking?
    ensures After(s, LoadFlag(flag)) != s <==> flag || !s.running
    ensures flag || !s.running ==> After(s, LoadFlag(flag)).worker == Dispatching(!flag, 0)
  {
  }

  // ---- What the pipeline guarantees ----

  /** At every moment the consumer has been given a prefix of the submitted events, each once, in order. */
  lemma ConsumedInOrder<T>(buffer: seq<T>, moves: seq<Move<T>>)
    requires |buffer| > 1
    ensures Reached(buffer, moves).consumed <= Submitted(buffer, moves)
  {
    hide Reached, Submitted, ConsumedBefore;
    var s := Reached(buffer, moves);
    ReachedIsSound(buffer, moves);
    MovesTraced(buffer, moves);
    assert s.consumed <= s.ring.popped <= s.ring.pushed <= Offered(s.ring);
  }

  /**
   Whenever stop returns after ending a worker, in whichever cycle: every event submitted so far has
   been consumed, in order, and the processed count is what was consumed since the last start.
   */
  lemma StopDrains<T>(buffer: seq<T>, moves: seq<Move<T>>)
    requires |buffer| > 1
    requires var s := Reached(buffer, moves); s.control.Joining? && After(s, Join).control.Free?
    ensures var s := After(Reached(buffer, moves), Join);
      && s.consumed == Submitted(buffer, moves)
      && ConsumedBefore(buffer, moves) <= |s.consumed|
      && s.processed == Index(|s.consumed| - ConsumedBefore(buffer, moves), U64)
  {
    hide Reached, Submitted, ConsumedBefore, Indices, Midway, Measured, Dispatch, CheckFlag, Index;
    var s := Reached(buffer, moves);
    ReachedIsSound(buffer, moves);
    MovesTraced(buffer, moves);
    assert s.ring.popped == s.consumed + [] == s.consumed;
    assert s.ring.popped == s.ring.pushed;
    assert Offered(s.ring) == s.ring.pushed + [] == s.ring.pushed;
  }

  /** The processed count never runs ahead of what was consumed since the last start. */
  lemma NeverAhead<T>(buffer: seq<T>, moves: seq<Move<T>>)
    requires |buffer| > 1
    ensures var s := Reached(buffer, moves);
      && ConsumedBefore(buffer, moves) <= |s.consumed|
      && s.processed <= |s.consumed| - ConsumedBefore(buffer, moves)
  {
    hide Lifecycle, Delivered, Drained, Reached, Uncounted, ConsumedBefore, Submitted;
    ReachedIsSound(buffer, moves);
    MovesTraced(buffer, moves);
    var s := Reached(buffer, moves);
    IndexBelow(|s.consumed| - s.startedAt - Uncounted(s.worker), U64);
  }

  lemma IndexBelow(n: nat, c: nat)
    requires c > 0
    ensures Index(n, c) <= n
  {
  }

  // ---- Stop returns ----

  /** An upper bound on the worker steps left once the flag is cleared, if it sees the flag. */
  function Rank<T>(s: Pipeline<T>): int {
    6 * (|s.ring.pushed| - |s.ring.popped|) +
    match s.worker
    case NoWorker => 0
    case Finished => 0
    case Adding(final, _) => if final then 1 else 9
    case Checking => 8
    case Delivering(final, _, _) => if final then 6 else 14
    case Dispatching(final, _) =>
      (if final then 0 else 8) +
      match s.ring.consumer
      case StoreTail(_) => 3
      case ReadSlot => 4
      case ConsumerIdle => 5
      case CountPop(_) => 7
  }

  predicate WorkerMove<T>(m: Move<T>) {
    m.LoadFlag? || m.Pop? || m.PopStep? || m.Deliver? || m.AddCount?
  }

  /** The move the worker makes next, with up-to-date loads. */
  function NextMove<T>(s: Pipeline<T>): Move<T> {
    match s.worker
    case Dispatching(_, _) => if s.ring.consumer.ConsumerIdle? then Pop(|s.ring.pushed|) else PopStep
    case Delivering(_, _, _) => Deliver
    case Adding(_, _) => AddCount
    case _ => LoadFlag(false)
  }

  lemma DispatchProgress<T>(s: Pipeline<T>, m: Move<T>)
    requires Sound(s) && s.control.Joining? && s.worker.Dispatching? && WorkerMove(m)
    ensures Dispatch(s, m) == s || (Dispatch(s, m).control.Joining? && 0 <= Rank(Dispatch(s, m)) < Rank(s))
    ensures Dispatch(s, NextMove(s)) != s
  {
    hide Index, Stored, Midway, Measured, Delivered, Counted, Drained;
    if s.ring.consumer.ConsumerIdle? {
      LoadHeadKeeps(s.ring, |s.ring.pushed|);
    }
  }

  /** While stop waits, every worker step that is not a stale flag load brings the end closer. */
  lemma WorkerProgress<T>(s: Pipeline<T>, m: Move<T>)
    requires Sound(s) && s.control.Joining? && !s.worker.Finished?
    requires WorkerMove(m) && m != LoadFlag(true)
    ensures After(s, m) == s || (After(s, m).control.Joining? && 0 <= Rank(After(s, m)) < Rank(s))
    ensures After(s, NextMove(s)) != s
  {
    hide Index, Stored, Midway, Measured, Delivered, Counted, Drained, Dispatch;
    if s.worker.Dispatching? {
      DispatchProgress(s, m);
      DispatchProgress(s, NextMove(s));
    }
  }

  /** So stop returns: the worker alone ends within Rank steps when its loads are up to date. */
  lemma {:induction false} StopReturns<T>(buffer: seq<T>, moves: seq<Move<T>>) returns (more: seq<Move<T>>)
    requires |buffer| > 1 && Reached(buffer, moves).control.Joining?
    ensures |more| <= Rank(Reached(buffer, moves)) && forall i :: 0 <= i < |more| ==> WorkerMove(more[i])
    ensures After(Reached(buffer, moves + more), Join).control.Free?
    decreases Rank(Reached(buffer, moves))
  {
    hide Sound, Rank, NextMove, Dispatch, CheckFlag;
    var s := Reached(buffer, moves);
    ReachedIsSound(buffer, moves);
    RankNonNegative(s);
    if s.worker.Finished? {
      more := [];
      assert moves + [] == moves;
    } else {
      var m := NextMove(s);
      NextMoveIsWorkers(s);
      WorkerProgress(s, m);
      assert (moves + [m])[..|moves|] == moves;
      var rest := StopReturns(buffer, moves + [m]);
      more := [m] + rest;
      assert moves + more == moves + [m] + rest;
    }
  }

  lemma RankNonNegative<T>(s: Pipeline<T>)
    requires Sound(s)
    ensures Rank(s) >= 0
  {
  }

  lemma NextMoveIsWorkers<T>(s: Pipeline<T>)
    ensures WorkerMove(NextMove(s)) && NextMove(s) != LoadFlag(true)
  {
  }
}
