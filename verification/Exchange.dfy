/** The exchange's OUCH handler, session map and execution listener, refining the exchange specification. */
module Exchanges {

  import opened Types
  import opened Wire
  import opened Ouch
  import opened BookSpec
  import opened EngineSpec
  import opened EngineRuns
  import opened EngineLedger
  import opened PriceLevels
  import opened OrderBooks
  import opened Matching
  import opened ExchangeSpec

  /** Which user reference each exchange order id belongs to. */
  class ExchangeOrderSessionMap {
    var orderToUserRef: Sessions

    constructor ()
      ensures orderToUserRef == map[]
    {
      orderToUserRef := map[];
    }

    method RegisterOrder(id: nat, userRefNum: Uint32)
      modifies this
      ensures orderToUserRef == old(orderToUserRef)[id := userRefNum]
    {
      orderToUserRef := orderToUserRef[id := userRefNum];
    }

    method Find(id: nat) returns (r: Option<Uint32>)
      ensures r.Some? <==> id in orderToUserRef
      ensures r.Some? ==> r.value == orderToUserRef[id]
    {
      r := if id in orderToUserRef then Some(orderToUserRef[id]) else None;
    }
  }

  /** Builds the two Executed messages of each trade; only the last pair is kept. */
  class ExchangeExecutionListener {
    const sessionMap: ExchangeOrderSessionMap
    var lastResponses: Responses

    constructor (sessionMap: ExchangeOrderSessionMap)
      ensures this.sessionMap == sessionMap && lastResponses == Responses(None, None)
    {
      this.sessionMap := sessionMap;
      lastResponses := Responses(None, None);
    }

    method OnTrade(t: Trade)
      modifies this
      ensures lastResponses == Responses(Report(sessionMap.orderToUserRef, t.buyId, t),
                                         Report(sessionMap.orderToUserRef, t.sellId, t))
    {
      lastResponses := Responses(None, None);
      var buyUserRef := sessionMap.Find(t.buyId);
      if buyUserRef.Some? {
        var buffer := EncodeExecuted(ToExecuted(buyUserRef.value, t));
        lastResponses := lastResponses.(buy := Some(buffer[..]));
      }
      var sellUserRef := sessionMap.Find(t.sellId);
      if sellUserRef.Some? {
        var buffer := EncodeExecuted(ToExecuted(sellUserRef.value, t));
        lastResponses := lastResponses.(sell := Some(buffer[..]));
      }
    }

    /** The dispatcher hands over the trades of one order, in the order they were made. */
    method OnTrades(trades: seq<Trade>) returns (ghost reports: seq<Responses>)
      modifies this
      ensures reports == Reports(sessionMap.orderToUserRef, trades)
      ensures lastResponses == if trades == [] then old(lastResponses) else reports[|trades| - 1]
    {
      hide Report;
      reports := [];
      for k := 0 to |trades|
        invariant reports == Reports(sessionMap.orderToUserRef, trades[..k])
        invariant lastResponses == if k == 0 then old(lastResponses) else reports[k - 1]
      {
        OnTrade(trades[k]);
        reports := reports + [lastResponses];
      }
      assert trades[..|trades|] == trades;
    }
  }

  class ExchangeOuchHandler {
    const engine: MatchingEngine
    const sessionMap: ExchangeOrderSessionMap
    const listener: ExchangeExecutionListener

    /** Everything that happened so far, as the specification sees it, and the messages that led there. */
    ghost var past: Exchange
    ghost var messages: seq<Message>

    ghost predicate Recorded()
      reads this
    {
      past == After(|engine.pool.storage|, messages)
    }

    ghost predicate Valid()
      reads this`past, sessionMap, listener, engine, engine.pool, engine.sequencer, engine.prepared
      reads engine.book.bids, engine.book.asks, engine.book.bids.levels, engine.book.asks.levels
      reads engine.book.bids.orders, engine.book.asks.orders, engine.book.bids.bitmap, engine.book.asks.bitmap
      reads engine.book.index, engine.book.index.entries
    {
      && engine.Valid() && engine.prepared == {}
      && listener.sessionMap == sessionMap
      && past.history.engine == engine.Model()
      && past.history.trades == engine.published
      && past.sessions == sessionMap.orderToUserRef
      && listener.lastResponses == Last(past.reports)
    }

    constructor (n: nat, capacity: nat, hashOf: nat -> nat)
      requires n > 0 && capacity > 0
      ensures Valid() && Recorded() && messages == []
      ensures engine.book.MaxPriceLevels() == n && |engine.pool.storage| == capacity
    {
      hide MatchingEngine.Valid, ArrayOrderBook.Model;
      engine := new MatchingEngine(n, capacity, hashOf);
      var sessions := new ExchangeOrderSessionMap();
      listener := new ExchangeExecutionListener(sessions);
      sessionMap := sessions;
      past := OPENED;
      messages := [];
    }

    /** Prepares the order and registers it; nothing is matched yet. */
    method Admit(account: nat, o: EnterOrder) returns (order: Order?)
      requires engine.Valid() && engine.prepared == {} && engine.sequencer.sequence + 1 < U64
      modifies sessionMap, engine`prepared, engine.pool, engine.sequencer, engine.pool.freeList
      ensures engine.Valid()
      ensures order == null <==> Count(old(engine.Model()).book) == |engine.pool.storage|
      ensures order == null ==>
        engine.prepared == {} && engine.Model() == old(engine.Model()) && unchanged(sessionMap)
      ensures order != null ==>
        && order in old(engine.pool.freeList) && engine.prepared == {order}
        && engine.Model() == old(engine.Model()).(sequence := old(engine.Model()).sequence + 1)
        && engine.Submitted(order) == ToSubmission(account, o) && order.id == engine.Model().sequence
        && sessionMap.orderToUserRef == old(sessionMap.orderToUserRef)[order.id := o.userRefNum]
    {
      hide MatchingEngine.Valid, ArrayOrderBook.Model;
      order := engine.PrepareOrder(account, o.side, o.price, o.quantity);
      if order != null {
        label prepared:
        sessionMap.RegisterOrder(order.id, o.userRefNum);
        assert unchanged@prepared(engine, engine.pool, engine.sequencer, engine.prepared);
        assert unchanged@prepared(engine.book.bids, engine.book.bids.levels, engine.book.bids.orders,
          engine.book.bids.bitmap);
        assert unchanged@prepared(engine.book.asks, engine.book.asks.levels, engine.book.asks.orders,
          engine.book.asks.bitmap);
        assert unchanged@prepared(engine.book.index, engine.book.index.entries);
      }
    }

    /** Matches the order and notifies the listener of its trades. */
    method Match(order: Order) returns (ghost trades: seq<Trade>, ghost reports: seq<Responses>)
      requires engine.Valid() && engine.prepared == {order} && listener.sessionMap == sessionMap
      requires engine.sequencer.sequence + Count(engine.book.Model()) < U64
      requires 0 < order.price < engine.book.MaxPriceLevels()
      modifies listener, order
      modifies engine`published, engine`prepared, engine.sequencer, engine.pool
      modifies engine.book.bids, engine.book.bids.levels, engine.book.bids.bitmap
      modifies engine.book.asks, engine.book.asks.levels, engine.book.asks.bitmap
      modifies engine.book.index, engine.book.index.entries, engine.book.Orders()
      ensures engine.Valid() && engine.prepared == {}
      ensures var r := EngineSpec.Process(old(engine.Model()), old(order.id), old(engine.Submitted(order)));
        engine.Model() == r.engine && trades == r.trades && engine.published == old(engine.published) + trades
      ensures reports == Reports(sessionMap.orderToUserRef, trades)
      ensures listener.lastResponses == if trades == [] then old(listener.lastResponses) else Last(reports)
    {
      hide MatchingEngine.Valid, ArrayOrderBook.Model, EngineSpec.Process, Reports;
      var before := |engine.published|;
      engine.Process(order);
      trades := engine.published[before..];
      label matched:
      reports := listener.OnTrades(engine.published[before..]);
      assert unchanged@matched(engine, engine.pool, engine.sequencer, engine.prepared);
      assert unchanged@matched(engine.book.bids, engine.book.bids.levels, engine.book.bids.orders,
        engine.book.bids.bitmap);
      assert unchanged@matched(engine.book.asks, engine.book.asks.levels, engine.book.asks.orders,
        engine.book.asks.bitmap);
      assert unchanged@matched(engine.book.index, engine.book.index.entries);
    }

    /** Matches an admitted order, which completes the handling of its message. */
    method Complete(order: Order, ghost m: Message, ghost o: EnterOrder)
      requires engine.Valid() && engine.prepared == {order} && listener.sessionMap == sessionMap
      requires engine.sequencer.sequence + Count(engine.book.Model()) < U64
      requires 0 < order.price < engine.book.MaxPriceLevels()
      requires DecodeEnterOrder(m.data) == Some(o) && Count(past.history.engine.book) < |engine.pool.storage|
      requires engine.Model() == past.history.engine.(sequence := past.history.engine.sequence + 1)
      requires engine.Submitted(order) == ToSubmission(m.account, o) && order.id == engine.Model().sequence
      requires engine.published == past.history.trades && listener.lastResponses == Last(past.reports)
      requires sessionMap.orderToUserRef == past.sessions[order.id := o.userRefNum]
      modifies this`past, listener, order
      modifies engine`published, engine`prepared, engine.sequencer, engine.pool
      modifies engine.book.bids, engine.book.bids.levels, engine.book.bids.bitmap
      modifies engine.book.asks, engine.book.asks.levels, engine.book.asks.bitmap
      modifies engine.book.index, engine.book.index.entries, engine.book.Orders()
      ensures Valid() && past == Handle(old(past), |engine.pool.storage|, m)
    {
      hide MatchingEngine.Valid, ArrayOrderBook.Model, DecodeEnterOrder, EngineSpec.Process, Enter, Handle,
        Reports, Last;
      EnterIs(past, |engine.pool.storage|, m, o);
      ghost var trades, reports := Match(order);
      LastOf(past.reports, reports);
      past := Enter(past, |engine.pool.storage|, m, o);
    }

    /** Prepare, register, then match: the listener knows the order before its first trade. */
    method TryEnter(account: nat, data: seq<Byte>, o: EnterOrder) returns (id: Option<nat>)
      requires Valid() && DecodeEnterOrder(data) == Some(o) && 0 < o.price < engine.book.MaxPriceLevels()
      requires engine.sequencer.sequence + 1 + Count(engine.book.Model()) < U64
      modifies this`past, sessionMap, listener
      modifies engine`published, engine`prepared, engine.sequencer, engine.pool, engine.pool.freeList
      modifies engine.book.bids, engine.book.bids.levels, engine.book.bids.bitmap
      modifies engine.book.asks, engine.book.asks.levels, engine.book.asks.bitmap
      modifies engine.book.index, engine.book.index.entries, engine.book.Orders()
      ensures Valid()
      ensures past == Handle(old(past), |engine.pool.storage|, Message(account, data))
      ensures Count(old(past).history.engine.book) >= |engine.pool.storage| <==> id.None?
      ensures id.Some? ==> id.value == old(past).history.engine.sequence + 1
    {
      hide MatchingEngine.Valid, ArrayOrderBook.Model, DecodeEnterOrder, Enter, Handle, Last;
      engine.CountBound();
      EnterIs(past, |engine.pool.storage|, Message(account, data), o);
      var order := Admit(account, o);
      assert unchanged(listener, engine.book.bids, engine.book.asks);
      if order == null {
        return None;
      }
      id := Some(order.id);
      Complete(order, Message(account, data), o);
    }

    /**
     Answers a frame. Prices are unchecked here; like the book, the method needs them between 1 and the
     last level. The bound on the messages keeps the 64-bit sequence from wrapping around.
     */
    method HandleEnterOrder(account: nat, data: seq<Byte>) returns (response: Option<seq<Byte>>)
      requires Valid() && Recorded() && FIRST_SEQUENCE + 1 + 3 * |messages| < U64
      requires DecodeEnterOrder(data).Some? ==> 0 < DecodeEnterOrder(data).value.price < engine.book.MaxPriceLevels()
      modifies this`past, this`messages, sessionMap, listener
      modifies engine`published, engine`prepared, engine.sequencer, engine.pool, engine.pool.freeList
      modifies engine.book.bids, engine.book.bids.levels, engine.book.bids.bitmap
      modifies engine.book.asks, engine.book.asks.levels, engine.book.asks.bitmap
      modifies engine.book.index, engine.book.index.entries, engine.book.Orders()
      ensures Valid() && Recorded() && messages == old(messages) + [Message(account, data)]
      ensures past == Handle(old(past), |engine.pool.storage|, Message(account, data))
      ensures response == Answer(old(past), |engine.pool.storage|, Message(account, data))
    {
      hide Valid, ArrayOrderBook.Model, DecodeEnterOrder, AcceptedBytes, Enter, After;
      Headroom();
      AfterOneMore(|engine.pool.storage|, messages, Message(account, data));
      messages := messages + [Message(account, data)];
      var enterOrder := DecodeEnterOrder(data);
      if enterOrder.None? {
        return None;
      }
      var id := TryEnter(account, data, enterOrder.value);
      if id.None? {
        return None;
      }
      label entered:
      var buffer := EncodeAccepted(ToAccepted(enterOrder.value, id.value));
      response := Some(buffer[..]);
      assert unchanged@entered(this, listener, sessionMap, engine, engine.pool, engine.sequencer, engine.prepared);
      assert unchanged@entered(engine.book.bids, engine.book.bids.levels, engine.book.bids.orders,
        engine.book.bids.bitmap);
      assert unchanged@entered(engine.book.asks, engine.book.asks.levels, engine.book.asks.orders,
        engine.book.asks.bitmap);
      assert unchanged@entered(engine.book.index, engine.book.index.entries);
    }

    /** Numbers drawn and orders resting are bounded by the messages handled. */
    lemma Headroom()
      requires Valid() && Recorded()
      ensures engine.sequencer.sequence + 1 + Count(engine.book.Model()) <= FIRST_SEQUENCE + 1 + 3 * |messages|
    {
      hide MatchingEngine.Valid, ArrayOrderBook.Model, After;
      IsEngineRun(|engine.pool.storage|, messages);
      RunStructure(|engine.pool.storage|, Orders(messages));
    }

    /**
     Every trade the engine ever published was reported to both owners: the reports decode to its
     figures, each under the user reference of the message that entered the owner's order.
     */
    lemma PublishedTradesAreReported(k: nat) returns (i: nat, j: nat)
      requires Valid() && Recorded() && k < |engine.published| && FIRST_SEQUENCE + 2 * |messages| < U64
      ensures |past.reports| == |engine.published|
      ensures TradeOf(past.history, engine.published[k], i, j)
      ensures Says(past, past.reports[k].buy, engine.published[k], i)
      ensures Says(past, past.reports[k].sell, engine.published[k], j)
    {
      hide MatchingEngine.Valid, ArrayOrderBook.Model, After, Says;
      i, j := ReportsDecode(|engine.pool.storage|, messages, k);
    }
  }

  lemma AfterOneMore(capacity: nat, ms: seq<Message>, m: Message)
    ensures After(capacity, ms + [m]) == Handle(After(capacity, ms), capacity, m)
  {
    hide Handle;
    assert (ms + [m])[..|ms|] == ms;
  }

  function Last(reports: seq<Responses>): Responses {
    if reports == [] then Responses(None, None) else reports[|reports| - 1]
  }

  lemma LastOf(a: seq<Responses>, b: seq<Responses>)
    ensures Last(a + b) == if b == [] then Last(a) else Last(b)
  {
    assert b == [] ==> a + b == a;
  }

  /** What handling does with a message that decodes, part by part. */
  lemma EnterIs(x: Exchange, capacity: nat, m: Message, o: EnterOrder)
    requires DecodeEnterOrder(m.data) == Some(o)
    ensures Count(x.history.engine.book) >= capacity ==> Handle(x, capacity, m) == x
    ensures Count(x.history.engine.book) < capacity ==>
      var e := x.history.engine.(sequence := x.history.engine.sequence + 1);
      var r, x' := EngineSpec.Process(e, e.sequence, ToSubmission(m.account, o)), Enter(x, capacity, m, o);
      && Handle(x, capacity, m) == x'
      && x'.history.engine == r.engine && x'.history.trades == x.history.trades + r.trades
      && x'.sessions == x.sessions[e.sequence := o.userRefNum]
      && x'.reports == x.reports + Reports(x'.sessions, r.trades)
  {
    hide DecodeEnterOrder, EngineSpec.Process, Reports;
  }
}
