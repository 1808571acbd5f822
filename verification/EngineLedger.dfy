/** Who traded what: per-order accounting, prices and conservation over whole runs. */
module EngineLedger {

  import opened Types
  import opened BookSpec
  import opened EngineSpec
  import opened FeedSpec
  import opened EngineRuns

  // ---- Quantities per order ----

  /** The quantity resting under an id. */
  function RestingQuantity(q: Queue, id: nat): nat {
    if q == [] then 0 else (if q[0].id == id then q[0].quantity else 0) + RestingQuantity(q[1..], id)
  }

  function FilledQuantity(fills: seq<Fill>, id: nat): nat {
    if fills == [] then 0
    else (if fills[0].resting.id == id then fills[0].quantity else 0) + FilledQuantity(fills[1..], id)
  }

  function Part(t: Trade, id: nat): nat {
    (if t.buyId == id then t.quantity else 0) + (if t.sellId == id then t.quantity else 0)
  }

  /** The quantity that trades executed for an order. */
  function Executed(trades: seq<Trade>, id: nat): nat {
    if trades == [] then 0 else Part(trades[0], id) + Executed(trades[1..], id)
  }

  lemma {:induction false} ExecutedConcat(a: seq<Trade>, b: seq<Trade>, id: nat)
    ensures Executed(a + b, id) == Executed(a, id) + Executed(b, id)
  {
    if a == [] {
      assert a + b == b;
    } else {
      assert (a + b)[1..] == a[1..] + b;
      ExecutedConcat(a[1..], b, id);
    }
  }

  lemma {:induction false} InsertQuantity(side: Side, q: Queue, o: Resting, id: nat)
    ensures RestingQuantity(Insert(side, q, o), id) == RestingQuantity(q, id) + (if o.id == id then o.quantity else 0)
  {
    if q == [] || Better(side, o.price, q[0].price) {
      assert ([o] + q)[1..] == q;
    } else {
      InsertQuantity(side, q[1..], o, id);
      assert Insert(side, q, o)[1..] == Insert(side, q[1..], o);
    }
  }

  lemma OneFill(f: Fill, id: nat)
    ensures FilledQuantity([f], id) == if f.resting.id == id then f.quantity else 0
  {
    assert [f][1..] == [];
  }

  /** What a match takes from each resting order is what it fills of it. */
  lemma {:induction false} MatchPerOrder(side: Side, limit: nat, quantity: nat, q: Queue, id: nat)
    ensures var m := Match(side, limit, quantity, q);
      RestingQuantity(q, id) == RestingQuantity(m.rest, id) + FilledQuantity(m.fills, id)
  {
    var m := Match(side, limit, quantity, q);
    if quantity == 0 || q == [] || !Crosses(side, limit, q[0].price) {
    } else if q[0].quantity == 0 {
      OneFill(m.fills[0], id);
    } else if quantity < q[0].quantity {
      OneFill(m.fills[0], id);
      assert m.rest[1..] == q[1..];
    } else {
      MatchPerOrder(side, limit, quantity - q[0].quantity, q[1..], id);
      assert m.fills[1..] == Match(side, limit, quantity - q[0].quantity, q[1..]).fills;
    }
  }

  /** The trade reports execute the incoming order in total and each resting order by its fills. */
  lemma {:induction false} TradesPerOrder(side: Side, newId: nat, account: nat, fills: seq<Fill>, sequence: nat,
    id: nat)
    ensures Executed(ToTrades(side, newId, account, fills, sequence), id)
         == FilledQuantity(fills, id) + (if newId == id then Traded(fills) else 0)
  {
    var trades := ToTrades(side, newId, account, fills, sequence);
    if fills != [] {
      TradesPerOrder(side, newId, account, fills[1..], sequence + 1, id);
      assert trades[1..] == ToTrades(side, newId, account, fills[1..], sequence + 1);
    }
  }

  function RestingIn(b: Book, id: nat): nat {
    RestingQuantity(b.bids, id) + RestingQuantity(b.asks, id)
  }

  /** Processing moves each order's quantity from resting to executed; the new order's quantity enters. */
  lemma ProcessPerOrder(e: Engine, newId: nat, o: Submission, id: nat)
    ensures var r := Process(e, newId, o);
      RestingIn(e.book, id) + (if newId == id then o.quantity else 0)
        == RestingIn(r.engine.book, id) + Executed(r.trades, id)
  {
    var opp := o.side.Opposite();
    if CanCross(e.book, o.side, o.price) {
      var q := e.book.On(opp);
      var m := Match(o.side, o.price, o.quantity, q);
      MatchPerOrder(o.side, o.price, o.quantity, q, id);
      MatchConserves(o.side, o.price, o.quantity, q);
      TradesPerOrder(o.side, newId, o.account, m.fills, e.sequence, id);
      InsertQuantity(o.side, e.book.On(o.side), Resting(newId, o.account, o.price, m.left), id);
    } else {
      InsertQuantity(o.side, e.book.On(o.side), Resting(newId, o.account, o.price, o.quantity), id);
    }
  }

  /** The quantity an accepted order came with; 0 for an id never issued. */
  function SubmittedQuantity(ids: seq<nat>, accepted: seq<Submission>, id: nat): nat
    requires |ids| == |accepted|
  {
    if ids == [] then 0
    else
      var last := |ids| - 1;
      SubmittedQuantity(ids[..last], accepted[..last], id) + (if ids[last] == id then accepted[last].quantity else 0)
  }

  ghost predicate AddsUp(h: History, id: nat) {
    && |h.ids| == |h.accepted|
    && SubmittedQuantity(h.ids, h.accepted, id) == RestingIn(h.engine.book, id) + Executed(h.trades, id)
  }

  lemma StepAddsUp(h: History, capacity: nat, o: Submission, id: nat)
    requires AddsUp(h, id)
    ensures AddsUp(Step(h, capacity, o), id)
  {
    hide Process, RestingIn, Executed;
    if Count(h.engine.book) < capacity {
      var n := h.engine.sequence + 1;
      ProcessPerOrder(h.engine.(sequence := n), n, o, id);
      ExecutedConcat(h.trades, Submit(h.engine, capacity, o).trades, id);
      assert (h.ids + [n])[..|h.ids|] == h.ids && (h.accepted + [o])[..|h.ids|] == h.accepted;
    }
  }

  /**
   In every run and for every id, submitted quantity is what rests plus what traded: no order is ever
   over-filled and nothing is lost, zero-quantity and self-trading orders included.
   */
  lemma {:induction false} EveryOrderAddsUp(capacity: nat, os: seq<Submission>, id: nat)
    ensures AddsUp(Run(capacity, os), id)
  {
    hide Step;
    if os != [] {
      EveryOrderAddsUp(capacity, os[..|os| - 1], id);
      StepAddsUp(Run(capacity, os[..|os| - 1]), capacity, os[|os| - 1], id);
    }
  }

  // ---- Conservation over the whole book ----

  function SubmittedTotal(accepted: seq<Submission>): nat {
    if accepted == [] then 0
    else accepted[|accepted| - 1].quantity + SubmittedTotal(accepted[..|accepted| - 1])
  }

  lemma OneMoreSubmitted(accepted: seq<Submission>, o: Submission)
    ensures SubmittedTotal(accepted + [o]) == SubmittedTotal(accepted) + o.quantity
  {
    assert (accepted + [o])[..|accepted|] == accepted;
  }

  function TradedTotal(trades: seq<Trade>): nat {
    if trades == [] then 0 else trades[0].quantity + TradedTotal(trades[1..])
  }

  lemma {:induction false} TradedTotalConcat(a: seq<Trade>, b: seq<Trade>)
    ensures TradedTotal(a + b) == TradedTotal(a) + TradedTotal(b)
  {
    if a == [] {
      assert a + b == b;
    } else {
      assert (a + b)[1..] == a[1..] + b;
      TradedTotalConcat(a[1..], b);
    }
  }

  lemma {:induction false} TradesTotal(side: Side, id: nat, account: nat, fills: seq<Fill>, sequence: nat)
    ensures TradedTotal(ToTrades(side, id, account, fills, sequence)) == Traded(fills)
  {
    if fills != [] {
      TradesTotal(side, id, account, fills[1..], sequence + 1);
      assert ToTrades(side, id, account, fills, sequence)[1..] == ToTrades(side, id, account, fills[1..], sequence + 1);
    }
  }

  lemma ProcessConserves(e: Engine, id: nat, o: Submission)
    requires WellFormed(e.book)
    ensures var r := Process(e, id, o);
      Total(e.book.bids) + Total(e.book.asks) + o.quantity
        == Total(r.engine.book.bids) + Total(r.engine.book.asks) + 2 * TradedTotal(r.trades)
  {
    var opp := o.side.Opposite();
    if CanCross(e.book, o.side, o.price) {
      var m := Match(o.side, o.price, o.quantity, e.book.On(opp));
      MatchConserves(o.side, o.price, o.quantity, e.book.On(opp));
      TradesTotal(o.side, id, o.account, m.fills, e.sequence);
      InsertTotal(o.side, e.book.On(o.side), Resting(id, o.account, o.price, m.left));
    } else {
      InsertTotal(o.side, e.book.On(o.side), Resting(id, o.account, o.price, o.quantity));
    }
  }

  ghost predicate Conserved(h: History) {
    SubmittedTotal(h.accepted) == Total(h.engine.book.bids) + Total(h.engine.book.asks) + 2 * TradedTotal(h.trades)
  }

  lemma StepConserves(h: History, capacity: nat, o: Submission)
    requires WellFormed(h.engine.book) && Conserved(h)
    ensures Conserved(Step(h, capacity, o))
  {
    hide Process, WellFormed, Total, TradedTotal, SubmittedTotal, Sequences;
    if Count(h.engine.book) < capacity {
      var n := h.engine.sequence + 1;
      ProcessConserves(h.engine.(sequence := n), n, o);
      TradedTotalConcat(h.trades, Submit(h.engine, capacity, o).trades);
      OneMoreSubmitted(h.accepted, o);
    }
  }

  /** Quantity is conserved: all submitted equals all resting plus twice all traded. */
  lemma {:induction false} QuantityIsConserved(capacity: nat, os: seq<Submission>)
    ensures Conserved(Run(capacity, os))
  {
    hide Step, WellFormed;
    if os != [] {
      QuantityIsConserved(capacity, os[..|os| - 1]);
      RunStructure(capacity, os[..|os| - 1]);
      StepConserves(Run(capacity, os[..|os| - 1]), capacity, os[|os| - 1]);
    }
  }

  // ---- Every trade has its two orders ----

  /** The i-th accepted order has this id, side, account and limit. */
  predicate IsOrder(h: History, i: nat, id: nat, side: Side, account: nat, price: nat) {
    && i < |h.ids| && i < |h.accepted|
    && h.ids[i] == id
    && h.accepted[i].side == side && h.accepted[i].account == account && h.accepted[i].price == price
  }

  ghost predicate HasOrigin(h: History, side: Side, r: Resting) {
    exists i: nat :: IsOrder(h, i, r.id, side, r.account, r.price)
  }

  /**
   A trade between the i-th and j-th accepted orders: their ids and accounts, a price within both
   limits, and that price is the limit of whichever order came first.
   */
  predicate TradeOf(h: History, t: Trade, i: nat, j: nat) {
    && i < |h.ids| && i < |h.accepted| && j < |h.ids| && j < |h.accepted|
    && IsOrder(h, i, t.buyId, Buy, t.buyAccount, h.accepted[i].price)
    && IsOrder(h, j, t.sellId, Sell, t.sellAccount, h.accepted[j].price)
    && h.accepted[j].price <= t.price <= h.accepted[i].price
    && t.price == (if i < j then h.accepted[i].price else h.accepted[j].price)
  }

  ghost predicate HasOrders(h: History, t: Trade) {
    exists i: nat, j: nat :: TradeOf(h, t, i, j)
  }

  ghost predicate Explained(h: History) {
    && |h.ids| == |h.accepted|
    && (forall k :: 0 <= k < |h.engine.book.bids| ==> HasOrigin(h, Buy, h.engine.book.bids[k]))
    && (forall k :: 0 <= k < |h.engine.book.asks| ==> HasOrigin(h, Sell, h.engine.book.asks[k]))
    && (forall k :: 0 <= k < |h.trades| ==> HasOrders(h, h.trades[k]))
  }

  /** `later` has accepted what `h` accepted, and maybe more. */
  predicate Extends(later: History, h: History) {
    && |h.ids| == |h.accepted| && |later.ids| == |later.accepted|
    && h.ids <= later.ids && h.accepted <= later.accepted
  }

  lemma OriginExtends(h: History, later: History, side: Side, r: Resting)
    requires Extends(later, h) && HasOrigin(h, side, r)
    ensures HasOrigin(later, side, r)
  {
    var i: nat :| IsOrder(h, i, r.id, side, r.account, r.price);
    assert IsOrder(later, i, r.id, side, r.account, r.price);
  }

  lemma TradeExtends(h: History, later: History, t: Trade)
    requires Extends(later, h) && HasOrders(h, t)
    ensures HasOrders(later, t)
  {
    var i: nat, j: nat :| TradeOf(h, t, i, j);
    assert TradeOf(later, t, i, j);
  }

  lemma {:induction false} InsertMember(side: Side, q: Queue, o: Resting, k: nat)
    requires k < |Insert(side, q, o)|
    ensures Insert(side, q, o)[k] == o || Insert(side, q, o)[k] in q
  {
    if q == [] || Better(side, o.price, q[0].price) {
    } else if k > 0 {
      InsertMember(side, q[1..], o, k - 1);
    }
  }

  ghost predicate QueueExplained(h: History, side: Side, q: Queue) {
    forall k :: 0 <= k < |q| ==> HasOrigin(h, side, q[k])
  }

  lemma ExplainedInsert(h: History, side: Side, q: Queue, o: Resting)
    requires QueueExplained(h, side, q) && HasOrigin(h, side, o)
    ensures QueueExplained(h, side, Insert(side, q, o))
  {
    forall k | 0 <= k < |Insert(side, q, o)| ensures HasOrigin(h, side, Insert(side, q, o)[k]) {
      InsertMember(side, q, o, k);
    }
  }

  lemma ExplainedRest(h: History, side: Side, q: Queue, rest: Queue)
    requires QueueExplained(h, side, q) && SuffixOf(rest, q)
    ensures QueueExplained(h, side, rest)
  {
    forall k | 0 <= k < |rest| ensures HasOrigin(h, side, rest[k]) {
      var r := q[|q| - |rest| + k];
      var i: nat :| IsOrder(h, i, r.id, side, r.account, r.price);
      assert IsOrder(h, i, rest[k].id, side, rest[k].account, rest[k].price);
    }
  }

  lemma ExplainedLater(h: History, later: History, side: Side, q: Queue)
    requires Extends(later, h) && QueueExplained(h, side, q)
    ensures QueueExplained(later, side, q)
  {
    forall k | 0 <= k < |q| ensures HasOrigin(later, side, q[k]) {
      OriginExtends(h, later, side, q[k]);
    }
  }

  /** The trades of a new order are between it and orders that were resting, at their price. */
  lemma NewTrades(h: History, later: History, o: Submission, q: Queue, sequence: nat, k: nat)
    requires Extends(later, h) && QueueExplained(h, o.side.Opposite(), q)
    requires |later.ids| == |h.ids| + 1 && later.accepted[|h.ids|] == o
    requires k < |Match(o.side, o.price, o.quantity, q).fills|
    ensures var f := Match(o.side, o.price, o.quantity, q).fills[k];
      HasOrders(later, ToTrade(o.side, later.ids[|h.ids|], o.account, f, sequence))
  {
    var n: nat, m := |h.ids|, Match(o.side, o.price, o.quantity, q);
    FillsCross(o.side, o.price, o.quantity, q);
    var f := m.fills[k];
    assert f.resting == q[k] && Crosses(o.side, o.price, f.resting.price);
    assert HasOrigin(h, o.side.Opposite(), q[k]);
    var i: nat :| IsOrder(h, i, q[k].id, o.side.Opposite(), q[k].account, q[k].price);
    var t := ToTrade(o.side, later.ids[n], o.account, f, sequence);
    assert TradeOf(later, t, if o.side.Buy? then n else i, if o.side.Buy? then i else n);
  }

  lemma NewOrigin(later: History, o: Submission, quantity: nat)
    requires |later.ids| == |later.accepted| > 0 && later.accepted[|later.ids| - 1] == o
    ensures HasOrigin(later, o.side, Resting(later.ids[|later.ids| - 1], o.account, o.price, quantity))
  {
    var n: nat := |later.ids| - 1;
    assert IsOrder(later, n, later.ids[n], o.side, o.account, o.price);
  }

  /** The queues after a submission hold orders that were there, and perhaps the new one. */
  lemma BookExplained(later: History, e: Engine, id: nat, o: Submission)
    requires QueueExplained(later, Buy, e.book.bids) && QueueExplained(later, Sell, e.book.asks)
    requires forall quantity: nat {:trigger Resting(id, o.account, o.price, quantity)} ::
      HasOrigin(later, o.side, Resting(id, o.account, o.price, quantity))
    ensures var b := Process(e, id, o).engine.book;
      QueueExplained(later, Buy, b.bids) && QueueExplained(later, Sell, b.asks)
  {
    hide HasOrigin, QueueExplained, Insert, Match;
    var opp := o.side.Opposite();
    var q := e.book.On(opp);
    var m := Match(o.side, o.price, o.quantity, q);
    RestIsSuffix(o.side, o.price, o.quantity, q);
    ExplainedRest(later, opp, q, m.rest);
    ExplainedInsert(later, o.side, e.book.On(o.side), Resting(id, o.account, o.price, m.left));
    ExplainedInsert(later, o.side, e.book.On(o.side), Resting(id, o.account, o.price, o.quantity));
  }

  lemma AcceptedExplained(h: History, capacity: nat, o: Submission)
    requires Explained(h) && Count(h.engine.book) < capacity
    ensures Explained(Step(h, capacity, o))
  {
    hide HasOrigin, HasOrders, Process, ToTrade, Match;
    var n, later, b := h.engine.sequence + 1, Step(h, capacity, o), h.engine.book;
    var e, q := h.engine.(sequence := n), b.On(o.side.Opposite());
    ExplainedLater(h, later, Buy, b.bids);
    ExplainedLater(h, later, Sell, b.asks);
    forall quantity: nat {:trigger Resting(n, o.account, o.price, quantity)}
      ensures HasOrigin(later, o.side, Resting(n, o.account, o.price, quantity))
    {
      NewOrigin(later, o, quantity);
    }
    BookExplained(later, e, n, o);
    ProcessTrades(e, n, o);
    forall k | 0 <= k < |later.trades| ensures HasOrders(later, later.trades[k]) {
      if k < |h.trades| {
        TradeExtends(h, later, h.trades[k]);
      } else {
        NewTrades(h, later, o, q, n + 1 + k - |h.trades|, k - |h.trades|);
      }
    }
  }

  /** The reports of an order are those of its match, also when nothing crosses. */
  lemma ProcessTrades(e: Engine, id: nat, o: Submission)
    ensures var m := Match(o.side, o.price, o.quantity, e.book.On(o.side.Opposite()));
      Process(e, id, o).trades == ToTrades(o.side, id, o.account, m.fills, e.sequence)
  {
  }

  lemma StepExplained(h: History, capacity: nat, o: Submission)
    requires Explained(h)
    ensures Explained(Step(h, capacity, o))
  {
    if Count(h.engine.book) < capacity {
      AcceptedExplained(h, capacity, o);
    }
  }

  /**
   In every run, every trade is between two accepted orders of opposite sides, at a price within both
   limits and equal to the limit of the order that was there first.
   */
  lemma {:induction false} EveryTradeIsExplained(capacity: nat, os: seq<Submission>)
    ensures Explained(Run(capacity, os))
  {
    if os != [] {
      EveryTradeIsExplained(capacity, os[..|os| - 1]);
      StepExplained(Run(capacity, os[..|os| - 1]), capacity, os[|os| - 1]);
    }
  }
}
