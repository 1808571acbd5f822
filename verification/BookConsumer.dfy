/** The consumer that applies market-data events to a book, with orders from its own pool. */
module Consumers {

  import opened Types
  import opened BookSpec
  import opened EngineSpec
  import opened FeedSpec
  import opened Levels
  import opened PriceLevels
  import opened OrderBooks
  import opened OrderPools
  import Counting

  class MarketDataBookConsumer {
    const book: ArrayOrderBook
    const pool: OrderPool

    constructor (n: nat, capacity: nat, hashOf: nat -> nat)
      requires n > 0 && capacity > 0
      ensures Valid() && Model() == EmptyFeed(n)
      ensures book.MaxPriceLevels() == n && |pool.storage| == capacity
    {
      hide ArrayOrderBook.Valid, ArrayOrderBook.Model, OrderPool.Valid, OrderPool.Used;
      book := new ArrayOrderBook(n, capacity, hashOf);
      pool := new OrderPool(capacity);
    }

    ghost function Model(): Feed
      reads book.bids`contents, book.asks`contents, book.bids`reductions, book.asks`reductions
    {
      Feed(book.Model(), book.bids.reductions, book.asks.reductions)
    }

    /** The pool's orders in use are exactly the resting ones. */
    ghost predicate Pooled()
      reads pool, book.bids`orders, book.asks`orders
    {
      && pool.Valid()
      && pool.Used() == book.Orders()
      && |pool.storage| <= book.index.capacity
    }

    ghost predicate Valid()
      reads pool, book.bids, book.asks, book.bids.levels, book.asks.levels
      reads book.bids.orders, book.asks.orders, book.bids.bitmap, book.asks.bitmap, book.index, book.index.entries
    {
      book.Valid() && Pooled()
    }

    /** Applies one event to the book. */
    method Consume(event: Event)
      requires Valid() && Allowed(Model(), book.MaxPriceLevels(), event)
      modifies pool, pool.freeList, book.Orders(), book.index, book.index.entries
      modifies book.bids, book.bids.levels, book.bids.bitmap, book.asks, book.asks.levels, book.asks.bitmap
      ensures Valid()
      ensures Model() == Apply(old(Model()), |pool.storage|, event)
    {
      hide Valid, ArrayOrderBook.Model, BookIds, Get, SideOf, Reduced, Replaced, ReductionsAfter, AddTo,
        RemoveFrom, Count;
      match event {
        case AddOrder(id, account, side, price, quantity) =>
          Add(id, account, side, price, quantity);
        case CancelOrder(id, quantity) =>
          Reduce(id, quantity, false);
        case DeleteOrder(id) =>
          Delete(id);
        case ExecuteOrder(id, quantity) =>
          Reduce(id, quantity, true);
        case ReplaceOrder(id, newId, quantity, price) =>
          Replace(id, newId, quantity, price);
      }
    }

    /** A new order is dropped when the pool is empty. */
    method Add(id: nat, account: nat, side: Side, price: nat, quantity: nat)
      requires Valid() && 0 < price < book.MaxPriceLevels() && id !in BookIds(book.Model())
      modifies pool, pool.freeList, book.Orders(), book.index, book.index.entries
      modifies book.bids, book.bids.levels, book.bids.bitmap, book.asks, book.asks.levels, book.asks.bitmap
      ensures Valid()
      ensures Model() == if old(Count(book.Model())) >= |pool.storage| then old(Model())
        else old(Model()).(book := AddTo(old(book.Model()), side, Resting(id, account, price, quantity)))
    {
      hide ArrayOrderBook.Valid, ArrayOrderBook.Model, OrderPool.Valid, OrderPool.Used, BookIds, AddTo;
      UsedCount();
      var order := pool.Acquire();
      if order == null {
        return;
      }
      assert unchanged(book.bids, book.bids.levels, book.bids.orders, book.bids.bitmap);
      assert unchanged(book.asks, book.asks.levels, book.asks.orders, book.asks.bitmap);
      assert unchanged(book.index, book.index.entries);
      Enter(order, id, account, side, price, quantity);
    }

    /** Fills in an acquired order and adds it to the book. */
    method Enter(order: Order, id: nat, account: nat, side: Side, price: nat, quantity: nat)
      requires book.Valid() && pool.Valid() && 0 < price < book.MaxPriceLevels() && id !in BookIds(book.Model())
      requires order !in book.Orders() && pool.Used() == book.Orders() + {order}
      requires |pool.storage| <= book.index.capacity
      modifies order, book.Orders(), book.index, book.index.entries
      modifies book.bids, book.bids.levels, book.bids.bitmap, book.asks, book.asks.levels, book.asks.bitmap
      ensures Valid()
      ensures Model() == old(Model()).(book := AddTo(old(book.Model()), side, Resting(id, account, price, quantity)))
    {
      hide ArrayOrderBook.Valid, ArrayOrderBook.Model, OrderPool.Valid, OrderPool.Used, BookIds, AddTo;
      book.Revise(order, id, account, side, price, quantity);
      Room(order);
      book.Lookup(id);
      book.AddOrder(order);
      assert unchanged(pool);
    }

    /** The pool leaves a slot of the index for every order it hands out. */
    lemma Room(order: Order)
      requires book.Valid() && pool.Valid() && |pool.storage| <= book.index.capacity
      requires order !in book.Orders() && pool.Used() == book.Orders() + {order}
      ensures book.index.size < book.index.capacity
    {
      hide ArrayOrderBook.Valid, ArrayOrderBook.Model, OrderPool.Valid, OrderPool.Used;
      book.IndexSize();
      pool.Partition();
      assert |pool.Used()| == |book.Orders()| + 1;
    }

    /** Orders in use are counted by the model. */
    lemma UsedCount()
      requires Valid()
      ensures |pool.Used()| == Count(book.Model()) <= |pool.storage|
    {
      hide ArrayOrderBook.Valid, ArrayOrderBook.Model, OrderPool.Valid, OrderPool.Used;
      book.IndexSize();
      pool.Partition();
    }

    method ReleaseIfOwned(order: Order?)
      requires book.Valid() && pool.Valid() && |pool.storage| <= book.index.capacity
      requires if order == null then pool.Used() == book.Orders()
        else order !in book.Orders() && pool.Used() == book.Orders() + {order}
      modifies pool
      ensures Valid()
    {
      hide ArrayOrderBook.Valid, OrderPool.Valid, OrderPool.Used;
      if order != null {
        pool.UsedIsOwned(order);
      }
      if order != null && pool.Owns(order) {
        pool.Release(order);
      }
      assert unchanged(book.bids, book.bids.levels, book.bids.orders, book.bids.bitmap);
      assert unchanged(book.asks, book.asks.levels, book.asks.orders, book.asks.bitmap);
      assert unchanged(book.index, book.index.entries);
    }

    /** Cancels or executes part or all of an order. */
    method Reduce(id: nat, quantity: nat, execution: bool)
      requires Valid()
      modifies pool, book.Orders(), book.index, book.index.entries
      modifies book.bids, book.bids.levels, book.bids.bitmap, book.asks, book.asks.levels, book.asks.bitmap
      ensures Valid()
      ensures Model() == ApplyReduction(old(Model()), id, quantity)
    {
      hide ArrayOrderBook.Valid, ArrayOrderBook.Model, OrderPool.Valid, OrderPool.Used, BookIds, Get, SideOf,
        Reduced, ReductionsAfter;
      var success: bool, removed: Order?;
      if execution {
        success, removed := book.ExecuteOrder(id, quantity);
      } else {
        success, removed := book.ReduceOrder(id, quantity);
      }
      ReleaseIfOwned(removed);
    }

    method Delete(id: nat)
      requires Valid()
      modifies pool, book.Orders(), book.index, book.index.entries
      modifies book.bids, book.bids.levels, book.bids.bitmap, book.asks, book.asks.levels, book.asks.bitmap
      ensures Valid()
      ensures Model() == Apply(old(Model()), |pool.storage|, DeleteOrder(id))
    {
      hide ArrayOrderBook.Valid, ArrayOrderBook.Model, OrderPool.Valid, OrderPool.Used, BookIds, SideOf, RemoveFrom;
      var removed := book.CancelOrder(id);
      ReleaseIfOwned(removed);
    }

    method Replace(id: nat, newId: nat, quantity: nat, price: nat)
      requires Valid() && 0 < price < book.MaxPriceLevels()
      modifies book.Orders(), book.index, book.index.entries
      modifies book.bids, book.bids.levels, book.bids.bitmap, book.asks, book.asks.levels, book.asks.bitmap
      ensures Valid()
      ensures Model() == Apply(old(Model()), |pool.storage|, ReplaceOrder(id, newId, quantity, price))
    {
      hide ArrayOrderBook.Valid, ArrayOrderBook.Model, OrderPool.Valid, OrderPool.Used, BookIds, Replaced;
      var ok := book.ReplaceOrder(id, newId, quantity, price);
      assert unchanged(pool);
    }

    /** The drain loop of the dispatcher, over the events it pops: the book becomes their fold. */
    method ConsumeAll(events: seq<Event>) returns (count: nat)
      requires Valid() && AllAllowed(Model(), |pool.storage|, book.MaxPriceLevels(), events)
      modifies pool, pool.storage, book.index, book.index.entries
      modifies book.bids, book.bids.levels, book.bids.bitmap, book.asks, book.asks.levels, book.asks.bitmap
      ensures Valid() && count == |events|
      ensures Model() == Fold(old(Model()), |pool.storage|, events)
    {
      hide Valid, ArrayOrderBook.Model, Apply, Allowed;
      ghost var start := Model();
      count := 0;
      while count < |events|
        invariant count <= |events| && Valid()
        invariant Model() == Fold(start, |pool.storage|, events[..count])
      {
        assert Allowed(Fold(start, |pool.storage|, events[..count]), book.MaxPriceLevels(), events[count]);
        Stored();
        Consume(events[count]);
        count := count + 1;
        assert events[..count][..count - 1] == events[..count - 1];
      }
      assert events[..count] == events;
    }

    /**
     After any replay from an empty book, a level's total is what rests at its price plus what the events
     took out there in part, modulo 2^32.
     */
    lemma TotalsOfReplay(events: seq<Event>, side: Side, p: nat)
      requires Valid() && p < book.MaxPriceLevels()
      requires AllAllowed(EmptyFeed(book.MaxPriceLevels()), |pool.storage|, book.MaxPriceLevels(), events)
      requires Model() == Fold(EmptyFeed(book.MaxPriceLevels()), |pool.storage|, events)
      ensures p < |book.At(side).levels|
      ensures book.At(side).levels[p].totalQuantity ==
        (Total(AtPrice(Model().book.On(side), p))
         + PartsTaken(EmptyFeed(book.MaxPriceLevels()), |pool.storage|, events, side, p)) % U32
    {
      hide ArrayOrderBook.Valid, ArrayOrderBook.Model, OrderPool.Valid, OrderPool.Used, AtPrice, AllAllowed, Fold;
      book.LevelTotal(side, p);
      ReplayRecords(EmptyFeed(book.MaxPriceLevels()), |pool.storage|, book.MaxPriceLevels(), events, side, p);
    }

    lemma Stored()
      requires Valid()
      ensures forall i :: 0 <= i < |pool.freeList| ==> pool.freeList[i] in pool.storage
      ensures forall o :: o in book.Orders() ==> o in pool.storage
    {
      hide ArrayOrderBook.Valid, OrderPool.Valid, OrderPool.Used;
      pool.AllStored();
    }
  }
}
