/** Whole runs of the matching engine: what holds after any sequence of submissions. */
module EngineRuns {

  import opened Types
  import opened BookSpec
  import opened EngineSpec
  import opened FeedSpec

  /** What a run has accepted, numbered and traded so far. */
  datatype History = History(
    engine: Engine,
    accepted: seq<Submission>,
    ids: seq<nat>,
    trades: seq<Trade>,
    draws: seq<nat>)

  const START := History(INITIAL, [], [], [], [])

  function Sequences(trades: seq<Trade>): (r: seq<nat>)
    ensures |r| == |trades|
    ensures forall i :: 0 <= i < |r| ==> r[i] == trades[i].sequence
  {
    seq(|trades|, i requires 0 <= i < |trades| => trades[i].sequence)
  }

  /** `draws` lists every number taken from the sequencer, for orders and trades alike, in order. */
  function Step(h: History, capacity: nat, o: Submission): History {
    if Count(h.engine.book) >= capacity then h
    else
      var r := Submit(h.engine, capacity, o);
      History(r.engine, h.accepted + [o], h.ids + [r.id], h.trades + r.trades,
              h.draws + [r.id] + Sequences(r.trades))
  }

  function Run(capacity: nat, os: seq<Submission>): History {
    if os == [] then START else Step(Run(capacity, os[..|os| - 1]), capacity, os[|os| - 1])
  }

  // ---- Structure of the book ----

  /** The other side's queue after a match keeps its order and its ids, minus those consumed. */
  lemma RestKeeps(side: Side, q: Queue, rest: Queue)
    requires SuffixOf(rest, q)
    ensures Sorted(side, q) ==> Sorted(side, rest)
    ensures DistinctIds(q) ==> DistinctIds(rest)
    ensures Ids(rest) <= Ids(q)
  {
    var k := |q| - |rest|;
    assert forall i :: 0 <= i < |rest| ==> rest[i].id == q[k + i].id && rest[i].price == q[k + i].price;
    forall id | id in Ids(rest) ensures id in Ids(q) {
      var i :| 0 <= i < |rest| && rest[i].id == id;
      assert q[k + i].id == id;
    }
  }

  lemma ProcessKeeps(e: Engine, id: nat, o: Submission)
    requires WellFormed(e.book) && id !in BookIds(e.book)
    ensures var r := Process(e, id, o);
      WellFormed(r.engine.book) && BookIds(r.engine.book) <= BookIds(e.book) + {id}
  {
    var opp := o.side.Opposite();
    if CanCross(e.book, o.side, o.price) {
      var m := Match(o.side, o.price, o.quantity, e.book.On(opp));
      RestIsSuffix(o.side, o.price, o.quantity, e.book.On(opp));
      RestKeeps(opp, e.book.On(opp), m.rest);
      var b := e.book.With(opp, m.rest);
      if m.left > 0 {
        AddToKeeps(b, o.side, Resting(id, o.account, o.price, m.left));
        AddToIds(b, o.side, Resting(id, o.account, o.price, m.left));
      }
    } else {
      AddToKeeps(e.book, o.side, Resting(id, o.account, o.price, o.quantity));
      AddToIds(e.book, o.side, Resting(id, o.account, o.price, o.quantity));
    }
  }

  /** Each trade but the last of an order consumes a resting order: trades plus resting orders grow by at most one. */
  lemma ProcessCounts(e: Engine, id: nat, o: Submission)
    requires WellFormed(e.book) && id !in BookIds(e.book)
    ensures var r := Process(e, id, o);
      |r.trades| + Count(r.engine.book) <= Count(e.book) + 1 && r.engine.sequence == e.sequence + |r.trades|
  {
    var opp := o.side.Opposite();
    if CanCross(e.book, o.side, o.price) {
      var m := Match(o.side, o.price, o.quantity, e.book.On(opp));
      RestIsSuffix(o.side, o.price, o.quantity, e.book.On(opp));
      RestKeeps(opp, e.book.On(opp), m.rest);
      if m.left > 0 {
        AddToKeeps(e.book.With(opp, m.rest), o.side, Resting(id, o.account, o.price, m.left));
      }
    } else {
      AddToKeeps(e.book, o.side, Resting(id, o.account, o.price, o.quantity));
    }
  }

  // ---- What one submission does, queue by queue ----

  /** The report of a fill: number n, the resting price, and each side's own order and account. */
  predicate ReportOf(t: Trade, id: nat, o: Submission, f: Fill, n: nat) {
    && t.sequence == n && t.quantity == f.quantity && t.price == f.resting.price
    && (o.side.Buy? ==>
          t.buyId == id && t.buyAccount == o.account && t.sellId == f.resting.id && t.sellAccount == f.resting.account)
    && (o.side.Sell? ==>
          t.sellId == id && t.sellAccount == o.account && t.buyId == f.resting.id && t.buyAccount == f.resting.account)
  }

  /** The own queue with the order at place k, behind every price as good as its own and ahead of the rest. */
  predicate RestsBehind(o: Submission, own: Queue, k: nat) {
    && k <= |own|
    && (forall i :: 0 <= i < k ==> !Better(o.side, o.price, own[i].price))
    && (forall i :: k <= i < |own| ==> Better(o.side, o.price, own[i].price))
  }

  /**
   Matching leaves exactly the rest of the opposite queue, reports each fill in turn, and puts what is
   left of the order, or an order that reaches nobody, behind its equals. The outcome is the
   price-time-priority one if and only if the loop does not stall.
   */
  lemma ProcessMeans(e: Engine, id: nat, o: Submission) returns (r: Matched, k: nat)
    requires WellFormed(e.book)
    ensures var opp, own, p := e.book.On(o.side.Opposite()), e.book.On(o.side), Process(e, id, o);
      && LoopOutcome(o.side, o.price, o.quantity, opp, r)
      && (PriceTimePriority(o.side, o.price, o.quantity, opp, r) <==> !Stalls(o.side, o.price, o.quantity, opp))
      && p.engine.book.On(o.side.Opposite()) == r.rest
      && p.engine.sequence == e.sequence + |r.fills|
      && |p.trades| == |r.fills|
      && (forall i :: 0 <= i < |r.fills| ==> ReportOf(p.trades[i], id, o, r.fills[i], e.sequence + 1 + i))
      && RestsBehind(o, own, k)
      && p.engine.book.On(o.side) ==
           if r.left > 0 || opp == [] || !Crosses(o.side, o.price, opp[0].price)
           then own[..k] + [Resting(id, o.account, o.price, r.left)] + own[k..]
           else own
  {
    hide Match, Insert, LoopOutcome, PriceTimePriority, Stalls;
    var opp := e.book.On(o.side.Opposite());
    r := Match(o.side, o.price, o.quantity, opp);
    MatchIsLoopOutcome(o.side, o.price, o.quantity, opp);
    PriceTimePriorityIff(o.side, o.price, o.quantity, opp);
    NothingCrosses(o.side, o.price, o.quantity, opp);
    k := InsertPosition(o.side, e.book.On(o.side), Resting(id, o.account, o.price, r.left));
  }

  lemma NothingCrosses(side: Side, limit: nat, quantity: nat, q: Queue)
    ensures q == [] || !Crosses(side, limit, q[0].price) ==> Match(side, limit, quantity, q) == Matched([], q, quantity)
  {
  }

  /** A run takes the next submission if and only if fewer than `capacity` orders rest, under the next number. */
  lemma AcceptedIffRoom(capacity: nat, os: seq<Submission>, o: Submission)
    ensures var h, h' := Run(capacity, os), Run(capacity, os + [o]);
      var r := Submit(h.engine, capacity, o);
      if |h.engine.book.bids| + |h.engine.book.asks| < capacity
      then
        && h'.accepted == h.accepted + [o]
        && h'.ids == h.ids + [h.engine.sequence + 1]
        && r == Process(h.engine.(sequence := h.engine.sequence + 1), h.engine.sequence + 1, o)
        && h'.engine == r.engine && h'.trades == h.trades + r.trades
      else h' == h && r == Outcome(h.engine, 0, [])
  {
    hide Process, Sequences;
    assert (os + [o])[..|os|] == os;
  }

  // ---- Time priority over whole runs ----

  /** By price, and at one price by id: which is by arrival. */
  predicate TimeOrdered(side: Side, q: Queue) {
    forall i, j :: 0 <= i < j < |q| ==>
      Better(side, q[i].price, q[j].price) || (q[i].price == q[j].price && q[i].id < q[j].id)
  }

  lemma {:induction false} InsertTimeOrdered(side: Side, q: Queue, o: Resting)
    requires TimeOrdered(side, q) && forall i :: 0 <= i < |q| ==> q[i].id < o.id
    ensures TimeOrdered(side, Insert(side, q, o))
  {
    assert Sorted(side, q);
    var k := InsertPosition(side, q, o);
  }

  ghost predicate InTimeOrder(b: Book) {
    TimeOrdered(Buy, b.bids) && TimeOrdered(Sell, b.asks)
  }

  lemma ProcessTimeOrdered(e: Engine, id: nat, o: Submission)
    requires InTimeOrder(e.book) && forall i :: 0 <= i < |e.book.On(o.side)| ==> e.book.On(o.side)[i].id < id
    ensures InTimeOrder(Process(e, id, o).engine.book)
  {
    hide Match, Insert;
    var q := e.book.On(o.side.Opposite());
    var m := Match(o.side, o.price, o.quantity, q);
    RestIsSuffix(o.side, o.price, o.quantity, q);
    SuffixTimeOrdered(o.side.Opposite(), q, m.rest);
    InsertTimeOrdered(o.side, e.book.On(o.side), Resting(id, o.account, o.price, m.left));
    InsertTimeOrdered(o.side, e.book.On(o.side), Resting(id, o.account, o.price, o.quantity));
  }

  lemma SuffixTimeOrdered(side: Side, q: Queue, rest: Queue)
    requires TimeOrdered(side, q) && SuffixOf(rest, q)
    ensures TimeOrdered(side, rest)
  {
    var k := |q| - |rest|;
    assert forall i :: 0 <= i < |rest| ==> rest[i].id == q[k + i].id && rest[i].price == q[k + i].price;
  }

  lemma StepTimeOrdered(h: History, capacity: nat, o: Submission)
    requires InTimeOrder(h.engine.book) && NumbersBelow(h.engine.book, h.engine.sequence)
    ensures InTimeOrder(Step(h, capacity, o).engine.book)
  {
    hide Process, InTimeOrder;
    if Count(h.engine.book) < capacity {
      var n, q := h.engine.sequence + 1, h.engine.book.On(o.side);
      assert forall i :: 0 <= i < |q| ==> q[i].id in BookIds(h.engine.book);
      ProcessTimeOrdered(h.engine.(sequence := n), n, o);
    }
  }

  /** In every run, zero quantities included, orders at one price of one side rest in the order they came. */
  lemma {:induction false} RunTimeOrdered(capacity: nat, os: seq<Submission>)
    ensures InTimeOrder(Run(capacity, os).engine.book)
  {
    hide Step;
    if os != [] {
      RunTimeOrdered(capacity, os[..|os| - 1]);
      RunStructure(capacity, os[..|os| - 1]);
      StepTimeOrdered(Run(capacity, os[..|os| - 1]), capacity, os[|os| - 1]);
    }
  }

  // ---- Numbers ----

  predicate NumbersBelow(b: Book, n: nat) {
    forall id :: id in BookIds(b) ==> id <= n
  }

  /** The book is in order and counted, and the sequencer has numbered orders and trades. */
  ghost predicate Structured(h: History, capacity: nat) {
    && WellFormed(h.engine.book)
    && NumbersBelow(h.engine.book, h.engine.sequence)
    && Count(h.engine.book) <= capacity
    && |h.ids| == |h.accepted|
    && |h.trades| + Count(h.engine.book) <= |h.accepted|
    && h.engine.sequence == FIRST_SEQUENCE + |h.accepted| + |h.trades|
  }

  lemma StepStructured(h: History, capacity: nat, o: Submission)
    requires Structured(h, capacity)
    ensures Structured(Step(h, capacity, o), capacity)
  {
    hide Process, WellFormed, BookIds;
    if Count(h.engine.book) < capacity {
      var n := h.engine.sequence + 1;
      ProcessKeeps(h.engine.(sequence := n), n, o);
      ProcessCounts(h.engine.(sequence := n), n, o);
    }
  }

  /**
   In every run both sides stay in priority order, ids are unique, the pool is never exceeded, and n
   accepted orders draw at most 2n numbers, one per order and one per trade.
   */
  lemma {:induction false} RunStructure(capacity: nat, os: seq<Submission>)
    ensures Structured(Run(capacity, os), capacity)
    ensures |Run(capacity, os).accepted| <= |os|
    ensures Run(capacity, os).engine.sequence <= FIRST_SEQUENCE + 2 * |os|
  {
    if os != [] {
      RunStructure(capacity, os[..|os| - 1]);
      StepStructured(Run(capacity, os[..|os| - 1]), capacity, os[|os| - 1]);
    }
  }

  /** Order ids and trade numbers are drawn consecutively, so no number is ever used twice. */
  lemma {:induction false} DrawsAreConsecutive(capacity: nat, os: seq<Submission>)
    ensures var h := Run(capacity, os);
      && h.engine.sequence == 1000 + |h.draws|
      && forall i :: 0 <= i < |h.draws| ==> h.draws[i] == 1001 + i
  {
    if os != [] {
      DrawsAreConsecutive(capacity, os[..|os| - 1]);
    }
  }

  /** Ids grow, trade numbers grow, and no order has the number of a trade. */
  ghost predicate Numbered(h: History) {
    && (forall i :: 0 <= i < |h.ids| ==> h.ids[i] <= h.engine.sequence)
    && (forall k :: 0 <= k < |h.trades| ==> h.trades[k].sequence <= h.engine.sequence)
    && (forall i, j :: 0 <= i < j < |h.ids| ==> h.ids[i] < h.ids[j])
    && (forall k, l :: 0 <= k < l < |h.trades| ==> h.trades[k].sequence < h.trades[l].sequence)
    && (forall i, k :: 0 <= i < |h.ids| && 0 <= k < |h.trades| ==> h.ids[i] != h.trades[k].sequence)
  }

  lemma StepNumbered(h: History, capacity: nat, o: Submission)
    requires Numbered(h)
    ensures Numbered(Step(h, capacity, o))
  {
    hide Match, Settled, AddTo, ToTrade, CanCross;
    if Count(h.engine.book) < capacity {
      var r := Submit(h.engine, capacity, o);
      assert forall k :: 0 <= k < |r.trades| ==> r.trades[k].sequence == h.engine.sequence + 2 + k by {
        TradeNumbers(h.engine.(sequence := h.engine.sequence + 1), h.engine.sequence + 1, o);
      }
    }
  }

  lemma TradeNumbers(e: Engine, id: nat, o: Submission)
    ensures var r := Process(e, id, o);
      && r.engine.sequence == e.sequence + |r.trades|
      && forall k :: 0 <= k < |r.trades| ==> r.trades[k].sequence == e.sequence + 1 + k
  {
  }

  /** In every run no number is given to two orders, two trades, or an order and a trade. */
  lemma {:induction false} NumbersAreDistinct(capacity: nat, os: seq<Submission>)
    ensures Numbered(Run(capacity, os))
  {
    hide Step;
    if os != [] {
      NumbersAreDistinct(capacity, os[..|os| - 1]);
      StepNumbered(Run(capacity, os[..|os| - 1]), capacity, os[|os| - 1]);
    }
  }

  // ---- The book is never crossed ----

  /** A side is empty or the best bid is below the best ask. */
  predicate Uncrossed(b: Book) {
    b.bids == [] || b.asks == [] || b.bids[0].price < b.asks[0].price
  }

  lemma UncrossedFrom(b: Book, side: Side)
    ensures var own, opp := b.On(side), b.On(side.Opposite());
      Uncrossed(b) <==> own == [] || opp == [] || !Crosses(side, own[0].price, opp[0].price)
  {
  }

  /** An order that reaches an uncrossed book's other side has priority on its own. */
  lemma NewHead(b: Book, o: Resting, side: Side)
    requires Uncrossed(b)
    ensures CanCross(b, side, o.price) ==> Insert(side, b.On(side), o) == [o] + b.On(side)
    ensures Insert(side, b.On(side), o)[0] == o || (b.On(side) != [] && Insert(side, b.On(side), o)[0] == b.On(side)[0])
  {
  }

  /**
   Processing keeps an uncrossed book uncrossed if and only if the loop does not stall on a resting
   order of quantity 0 with a crossing order behind it.
   */
  lemma UncrossedIffNoStall(e: Engine, id: nat, o: Submission)
    requires WellFormed(e.book) && Uncrossed(e.book)
    ensures Uncrossed(Process(e, id, o).engine.book)
       <==> !Stalls(o.side, o.price, o.quantity, e.book.On(o.side.Opposite()))
  {
    var opp := o.side.Opposite();
    var q := e.book.On(opp);
    CrossingRemainder(o.side, o.price, o.quantity, q);
    UncrossedFrom(e.book, o.side);
    UncrossedFrom(Process(e, id, o).engine.book, o.side);
    if CanCross(e.book, o.side, o.price) {
      var m := Match(o.side, o.price, o.quantity, q);
      NewHead(e.book, Resting(id, o.account, o.price, m.left), o.side);
      RestIsSuffix(o.side, o.price, o.quantity, q);
      if m.rest != [] {
        assert |q| > |m.rest| ==> !Better(opp, q[|q| - |m.rest|].price, q[0].price);
      }
    } else {
      NewHead(e.book, Resting(id, o.account, o.price, o.quantity), o.side);
    }
  }

  predicate AllPositive(os: seq<Submission>) {
    forall i :: 0 <= i < |os| ==> os[i].quantity > 0
  }

  lemma ProcessPositive(e: Engine, id: nat, o: Submission)
    requires WellFormed(e.book) && Positive(e.book.bids) && Positive(e.book.asks) && o.quantity > 0
    ensures Positive(Process(e, id, o).engine.book.bids) && Positive(Process(e, id, o).engine.book.asks)
  {
    var opp := o.side.Opposite();
    if CanCross(e.book, o.side, o.price) {
      var m := Match(o.side, o.price, o.quantity, e.book.On(opp));
      RestIsPositive(o.side, o.price, o.quantity, e.book.On(opp));
      if m.left > 0 {
        InsertPositive(o.side, e.book.On(o.side), Resting(id, o.account, o.price, m.left));
      }
    } else {
      InsertPositive(o.side, e.book.On(o.side), Resting(id, o.account, o.price, o.quantity));
    }
  }

  lemma {:induction false} InsertPositive(side: Side, q: Queue, o: Resting)
    requires Positive(q) && o.quantity > 0
    ensures Positive(Insert(side, q, o))
  {
    if q != [] && !Better(side, o.price, q[0].price) {
      InsertPositive(side, q[1..], o);
    }
  }

  lemma NoStall(side: Side, limit: nat, quantity: nat, q: Queue)
    requires Positive(q)
    ensures !Stalls(side, limit, quantity, q)
  {
  }

  ghost predicate Healthy(b: Book) {
    Uncrossed(b) && Positive(b.bids) && Positive(b.asks)
  }

  lemma StepHealthy(h: History, capacity: nat, o: Submission)
    requires WellFormed(h.engine.book) && Healthy(h.engine.book) && o.quantity > 0
    ensures Healthy(Step(h, capacity, o).engine.book)
  {
    hide Process, Uncrossed, Positive, Stalls, WellFormed;
    if Count(h.engine.book) < capacity {
      var n := h.engine.sequence + 1;
      NoStall(o.side, o.price, o.quantity, h.engine.book.On(o.side.Opposite()));
      UncrossedIffNoStall(h.engine.(sequence := n), n, o);
      ProcessPositive(h.engine.(sequence := n), n, o);
    }
  }

  /** On every run of positive quantities, every reachable book is uncrossed. */
  lemma {:induction false} NeverCrossed(capacity: nat, os: seq<Submission>)
    requires AllPositive(os)
    ensures Healthy(Run(capacity, os).engine.book)
  {
    hide Step, WellFormed;
    if os != [] {
      NeverCrossed(capacity, os[..|os| - 1]);
      RunStructure(capacity, os[..|os| - 1]);
      StepHealthy(Run(capacity, os[..|os| - 1]), capacity, os[|os| - 1]);
    }
  }

  /** Submission k of a run is refused, or its match does not stall. */
  ghost predicate Smooth(capacity: nat, os: seq<Submission>, k: nat)
    requires k < |os|
  {
    var b, o := Run(capacity, os[..k]).engine.book, os[k];
    Count(b) >= capacity || !Stalls(o.side, o.price, o.quantity, b.On(o.side.Opposite()))
  }

  ghost predicate UncrossedAfter(capacity: nat, os: seq<Submission>, k: nat)
    requires k <= |os|
  {
    Uncrossed(Run(capacity, os[..k]).engine.book)
  }

  lemma UncrossedStep(capacity: nat, os: seq<Submission>, k: nat)
    requires k < |os| && UncrossedAfter(capacity, os, k)
    ensures UncrossedAfter(capacity, os, k + 1) <==> Smooth(capacity, os, k)
  {
    hide Process, Uncrossed, Stalls, WellFormed;
    var h, o := Run(capacity, os[..k]), os[k];
    assert os[..k + 1][..k] == os[..k];
    RunStructure(capacity, os[..k]);
    if Count(h.engine.book) < capacity {
      var n := h.engine.sequence + 1;
      UncrossedIffNoStall(h.engine.(sequence := n), n, o);
    }
  }

  lemma {:induction false} UncrossedUpTo(capacity: nat, os: seq<Submission>, k: nat)
    requires k <= |os|
    requires forall i :: 0 <= i < k ==> Smooth(capacity, os, i)
    ensures UncrossedAfter(capacity, os, k)
  {
    hide Smooth;
    if k > 0 {
      UncrossedUpTo(capacity, os, k - 1);
      UncrossedStep(capacity, os, k - 1);
    }
  }

  /** For every run: all its books are uncrossed if and only if no submission stalls. */
  lemma AlwaysUncrossedIff(capacity: nat, os: seq<Submission>)
    ensures (forall k :: 0 <= k <= |os| ==> UncrossedAfter(capacity, os, k))
       <==> (forall k :: 0 <= k < |os| ==> Smooth(capacity, os, k))
  {
    hide Smooth, UncrossedAfter;
    if forall k :: 0 <= k <= |os| ==> UncrossedAfter(capacity, os, k) {
      forall k | 0 <= k < |os| ensures Smooth(capacity, os, k) {
        assert UncrossedAfter(capacity, os, k + 1);
        UncrossedStep(capacity, os, k);
      }
    }
    if forall k :: 0 <= k < |os| ==> Smooth(capacity, os, k) {
      forall k | 0 <= k <= |os| ensures UncrossedAfter(capacity, os, k) {
        UncrossedUpTo(capacity, os, k);
      }
    }
  }

  /** With an order of quantity 0 the property fails: here a bid and an ask at 11 end up side by side. */
  lemma ZeroQuantityLocksTheBook()
    ensures var os := [Submission(1, Sell, 10, 0), Submission(1, Sell, 11, 5), Submission(2, Buy, 11, 5)];
      !Uncrossed(Run(3, os).engine.book)
  {
    var s1, s2, s3 := Submission(1, Sell, 10, 0), Submission(1, Sell, 11, 5), Submission(2, Buy, 11, 5);
    assert [s1, s2, s3][..2] == [s1, s2] && [s1, s2][..1] == [s1] && [s1][..0] == [];
    var a1, a2 := Resting(1001, 1, 10, 0), Resting(1002, 1, 11, 5);
    assert Run(3, [s1]).engine == Engine(Book([], [a1]), 1001);
    assert Insert(Sell, [a1], a2) == [a1, a2] by {
      assert [a1][1..] == [];
    }
    assert Run(3, [s1, s2]).engine == Engine(Book([], [a1, a2]), 1002);
    assert Match(Buy, 11, 5, [a1, a2]) == Matched([Fill(a1, 0)], [a2], 5) by {
      assert [a1, a2][1..] == [a2];
    }
    assert Run(3, [s1, s2, s3]).engine.book == Book([Resting(1003, 2, 11, 5)], [a2]);
  }
}
