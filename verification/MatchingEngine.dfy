/** The matching engine: pool, book, sequencer and the trades handed to the dispatcher. */
module Matching {

  import opened Types
  import opened BookSpec
  import opened EngineSpec
  import opened PriceLevels
  import opened BookSides
  import opened Levels
  import opened OrderBooks
  import opened OrderPools
  import opened Sequencers
  import Counting

  lemma LaterPart(s: seq<Trade>, t: seq<Trade>, n: nat)
    requires n <= |s|
    ensures (s + t)[n..] == s[n..] + t
  {
  }

  class MatchingEngine {
    const book: ArrayOrderBook
    const pool: OrderPool
    const sequencer: Sequencer
    /** The trades published so far, in order. */
    var published: seq<Trade>

    /** Orders handed out by `PrepareOrder` and not yet processed. */
    ghost var prepared: set<Order>

    /** The book and the sequence as the specification sees them. */
    ghost function Model(): Engine
      reads book.bids`contents, book.asks`contents, sequencer
    {
      Engine(book.Model(), sequencer.sequence)
    }

    /** The pool's orders in use are exactly the resting and the prepared ones. */
    ghost predicate Pooled()
      reads this`prepared, pool, book.bids`orders, book.asks`orders
    {
      && pool.Valid()
      && prepared !! book.Orders()
      && pool.Used() == book.Orders() + prepared
      && |pool.storage| <= book.index.capacity
    }

    /** Ids in use are distinct and come from the sequencer. */
    ghost predicate Numbered()
      reads this`prepared, sequencer, prepared`id, book.bids`contents, book.asks`contents
    {
      && (forall id :: id in BookIds(book.Model()) ==> id <= sequencer.sequence)
      && (forall o :: o in prepared ==> o.id <= sequencer.sequence && o.id !in BookIds(book.Model()))
      && (forall o, o' :: o in prepared && o' in prepared && o.id == o'.id ==> o == o')
    }

    /** No level ever saw a partial reduction, so totals are exact (in 32-bit arithmetic). */
    ghost predicate Unreduced()
      reads book.bids`reductions, book.asks`reductions
    {
      && (forall p :: 0 <= p < |book.bids.reductions| ==> book.bids.reductions[p] == 0)
      && (forall p :: 0 <= p < |book.asks.reductions| ==> book.asks.reductions[p] == 0)
    }

    ghost predicate Valid()
      reads this, pool, sequencer, prepared, book.bids, book.asks, book.bids.levels, book.asks.levels
      reads book.bids.orders, book.asks.orders, book.bids.bitmap, book.asks.bitmap, book.index, book.index.entries
    {
      && book.Valid()
      && Pooled()
      && Numbered()
      && Unreduced()
    }

    constructor (n: nat, capacity: nat, hashOf: nat -> nat)
      requires n > 0 && capacity > 0
      ensures Valid() && Model() == INITIAL && published == [] && prepared == {}
      ensures book.MaxPriceLevels() == n && |pool.storage| == capacity
    {
      hide ArrayOrderBook.Valid, ArrayOrderBook.Model, OrderPool.Valid, OrderPool.Used;
      book := new ArrayOrderBook(n, capacity, hashOf);
      pool := new OrderPool(capacity);
      sequencer := new Sequencer();
      published := [];
      prepared := {};
    }

    method PrepareOrder(account: nat, side: Side, price: nat, quantity: nat) returns (order: Order?)
      requires Valid() && sequencer.sequence + 1 < U64
      modifies this`prepared, pool, sequencer, pool.freeList
      ensures Valid()
      ensures order == null <==> Count(old(Model()).book) + |old(prepared)| == |pool.storage|
      ensures order == null ==> prepared == old(prepared) && Model() == old(Model())
      ensures order != null ==>
        && order in old(pool.freeList)
        && order !in old(prepared)
        && prepared == old(prepared) + {order}
        && Model() == old(Model()).(sequence := old(Model()).sequence + 1)
        && order.side == side
        && order.Value() == Resting(Model().sequence, account, price, quantity)
    {
      hide Numbered, Unreduced, ArrayOrderBook.Valid, ArrayOrderBook.Model, OrderPool.Valid, OrderPool.Used;
      UsedCount();
      order := pool.Acquire();
      if order == null {
        return;
      }
      assert unchanged(book.bids, book.bids.levels, book.bids.orders, book.bids.bitmap);
      assert unchanged(book.asks, book.asks.levels, book.asks.orders, book.asks.bitmap);
      assert unchanged(book.index, book.index.entries, prepared, sequencer);
      Enlist(order, account, side, price, quantity);
    }

    /** Numbers an acquired order and fills in its fields. */
    method Enlist(order: Order, account: nat, side: Side, price: nat, quantity: nat)
      requires book.Valid() && pool.Valid() && Numbered() && Unreduced()
      requires order !in book.Orders() && order !in prepared && prepared !! book.Orders()
      requires pool.Used() == book.Orders() + prepared + {order} && |pool.storage| <= book.index.capacity
      requires sequencer.sequence + 1 < U64
      modifies this`prepared, sequencer, order
      ensures Valid() && prepared == old(prepared) + {order}
      ensures Model() == old(Model()).(sequence := old(Model()).sequence + 1)
      ensures order.side == side && order.Value() == Resting(Model().sequence, account, price, quantity)
    {
      hide ArrayOrderBook.Valid, ArrayOrderBook.Model, OrderPool.Valid, OrderPool.Used, BookIds, Numbered, Unreduced;
      var id := sequencer.Next();
      assert unchanged(book.bids, book.bids.levels, book.bids.orders, book.bids.bitmap);
      assert unchanged(book.asks, book.asks.levels, book.asks.orders, book.asks.bitmap);
      assert unchanged(book.index, book.index.entries);
      book.Revise(order, id, account, side, price, quantity);
      prepared := prepared + {order};
      assert unchanged(pool, book.bids, book.asks);
      Enlisted(order);
    }

    twostate lemma Enlisted(order: Order)
      requires old(Numbered()) && order !in old(prepared) && prepared == old(prepared) + {order}
      requires sequencer.sequence == old(sequencer.sequence) + 1 == order.id
      requires unchanged(book.bids, book.asks) && forall o :: o in old(prepared) ==> o.id == old(o.id)
      ensures Numbered()
    {
      hide BookIds;
      assert book.Model() == old(book.Model());
    }

    /** Orders in use are counted by the model. */
    lemma UsedCount()
      requires Valid()
      ensures |pool.Used()| == Count(book.Model()) + |prepared|
    {
      hide ArrayOrderBook.Valid, ArrayOrderBook.Model, OrderPool.Valid, OrderPool.Used, Numbered, Unreduced;
      book.IndexSize();
    }

    lemma Parts()
      requires Valid()
      ensures book.Valid() && pool.Valid() && pool.Used() == book.Orders() + prepared && prepared !! book.Orders()
    {
      hide ArrayOrderBook.Valid, ArrayOrderBook.Model, OrderPool.Valid, OrderPool.Used, Numbered, Unreduced;
    }

    /** An incoming order reaches the best opposite price. */
    predicate CanCross(order: Order)
      requires book.At(order.side.Opposite()).best < |book.At(order.side.Opposite()).levels|
      reads order`side, order`price, book.bids`best, book.asks`best, book.bids.levels`price, book.asks.levels`price
    {
      var level := book.BestLevel(order.side.Opposite());
      level != null && if order.side.Buy? then order.price >= level.price else order.price <= level.price
    }

    lemma CanCrossMeans(order: Order)
      requires book.Valid()
      ensures book.At(order.side.Opposite()).best < |book.At(order.side.Opposite()).levels|
      ensures CanCross(order) <==> EngineSpec.CanCross(book.Model(), order.side, order.price)
    {
      hide ArrayOrderBook.Valid, ArrayOrderBook.Model;
      book.Best(order.side.Opposite());
    }

    /** What a step of the match loop keeps. */
    twostate lemma Keeps()
      requires old(Valid()) && book.Valid() && pool.Valid()
      requires prepared == old(prepared) && pool.Used() == book.Orders() + prepared
      requires book.Orders() <= old(book.Orders())
      requires BookIds(book.Model()) <= old(BookIds(book.Model()))
      requires old(sequencer.sequence) <= sequencer.sequence
      requires forall o :: o in old(prepared) ==> o.id == old(o.id)
      requires book.bids.reductions == old(book.bids.reductions)
      requires book.asks.reductions == old(book.asks.reductions)
      ensures Valid()
    {
      hide ArrayOrderBook.Valid, ArrayOrderBook.Model, OrderPool.Valid, OrderPool.Used, BookIds;
    }

    /** Executes `t` of the order with priority; executed in full, it leaves the book. */
    method Execute(resting: Order, t: nat) returns (removed: Order?)
      requires book.Valid() && resting in book.At(resting.side).orders
      requires t <= resting.quantity
      requires book.Model().On(resting.side) != [] && book.Model().On(resting.side)[0] == resting.Value()
      modifies book.bids, book.bids.levels, book.bids.bitmap, book.asks, book.asks.levels, book.asks.bitmap
      modifies book.index, book.index.entries, book.Orders()
      ensures book.Valid()
      ensures book.Orders() == if removed == null then old(book.Orders()) else old(book.Orders()) - {removed}
      ensures removed != null ==> removed in old(book.Orders())
      ensures book.bids.reductions == old(book.bids.reductions) && book.asks.reductions == old(book.asks.reductions)
      ensures book.Model() == old(book.Model()).With(old(resting.side),
        AfterFill(old(book.Model()).On(old(resting.side)), t))
    {
      hide ArrayOrderBook.Valid, ArrayOrderBook.Model, AfterFill, SetIn, RemoveFrom, BookIds, Get, SideOf;
      HeadFilled(book.Model(), resting.side, t);
      book.FillInPlace(resting, t);
      removed := null;
      if resting.quantity == 0 {
        book.RestingValue(resting);
        removed := book.CancelOrder(resting.id);
      }
    }

    method CreateTrade(incoming: Order, resting: Order, t: nat) returns (trade: Trade)
      requires sequencer.sequence + 1 < U64
      modifies sequencer
      ensures sequencer.sequence == old(sequencer.sequence) + 1
      ensures trade == ToTrade(incoming.side, incoming.id, incoming.account, Fill(resting.Value(), t),
        sequencer.sequence)
    {
      var sequence := sequencer.Next();
      trade := if incoming.side.Buy?
        then Trade(sequence, incoming.id, resting.id, incoming.account, resting.account, resting.price, t)
        else Trade(sequence, resting.id, incoming.id, resting.account, incoming.account, resting.price, t);
    }

    /** The order as it was submitted. */
    ghost function Submitted(order: Order): Submission
      reads order
    {
      Submission(order.account, order.side, order.price, order.quantity)
    }

    /** Trades once with the order that has priority on the other side. */
    method MatchOne(incoming: Order) returns (traded: bool)
      requires Valid() && incoming in prepared && sequencer.sequence + 1 < U64
      modifies this`published, incoming`quantity, sequencer, pool
      modifies book.bids, book.bids.levels, book.bids.bitmap, book.asks, book.asks.levels, book.asks.bitmap
      modifies book.index, book.index.entries, book.Orders()
      ensures Valid()
      ensures book.Orders() <= old(book.Orders())
      ensures incoming.id == old(incoming.id)
      ensures var i := EngineSpec.MatchOne(old(Model()), incoming.id, old(Submitted(incoming)));
        && Model() == i.engine
        && Submitted(incoming) == old(Submitted(incoming)).(quantity := i.left)
        && published == old(published) + i.trades
        && traded == i.traded
    {
      hide Valid, ArrayOrderBook.Valid, ArrayOrderBook.Model, AfterFill;
      Parts();
      book.Best(incoming.side.Opposite());
      var level := book.BestLevel(incoming.side.Opposite());
      if level == null || level.head == null {
        return false;
      }
      var resting := level.head;
      var t := if incoming.quantity < resting.quantity then incoming.quantity else resting.quantity;
      TradeWith(incoming, resting, t);
      return t > 0;
    }

    /** Trades `t` between an incoming order and the resting order that has priority. */
    method TradeWith(incoming: Order, resting: Order, t: nat)
      requires Valid() && incoming in prepared && sequencer.sequence + 1 < U64
      requires resting in book.At(resting.side).orders && t <= resting.quantity && t <= incoming.quantity
      requires resting.side == incoming.side.Opposite()
      requires book.Model().On(resting.side) != [] && book.Model().On(resting.side)[0] == resting.Value()
      modifies this`published, incoming`quantity, sequencer, pool
      modifies book.bids, book.bids.levels, book.bids.bitmap, book.asks, book.asks.levels, book.asks.bitmap
      modifies book.index, book.index.entries, book.Orders()
      ensures Valid() && book.Orders() <= old(book.Orders())
      ensures book.Model() == old(book.Model()).With(incoming.side.Opposite(),
        AfterFill(old(book.Model()).On(incoming.side.Opposite()), t))
      ensures sequencer.sequence == old(sequencer.sequence) + 1
      ensures incoming.quantity == old(incoming.quantity) - t
      ensures published == old(published) + [ToTrade(incoming.side, incoming.id, incoming.account,
        Fill(old(resting.Value()), t), sequencer.sequence)]
    {
      hide Valid, ArrayOrderBook.Valid, ArrayOrderBook.Model, OrderPool.Valid, OrderPool.Used, AfterFill, BookIds;
      Parts();
      Report(incoming, resting, t);
      assert unchanged(book.bids, book.bids.levels, book.bids.orders, book.bids.bitmap);
      assert unchanged(book.asks, book.asks.levels, book.asks.orders, book.asks.bitmap);
      assert unchanged(book.index, book.index.entries, pool);
      Settle(resting, t);
      AfterFillIds(old(book.Model()), incoming.side.Opposite(), t);
      Keeps();
    }

    /** Publishes the trade, then takes its quantity off the incoming order. */
    method Report(incoming: Order, resting: Order, t: nat)
      requires sequencer.sequence + 1 < U64 && t <= incoming.quantity
      modifies this`published, incoming`quantity, sequencer
      ensures sequencer.sequence == old(sequencer.sequence) + 1
      ensures published == old(published) + [old(ToTrade(
        incoming.side, incoming.id, incoming.account, Fill(resting.Value(), t), sequencer.sequence + 1))]
      ensures incoming.quantity == old(incoming.quantity) - t
    {
      var trade := CreateTrade(incoming, resting, t);
      published := published + [trade];
      incoming.quantity := incoming.quantity - t;
    }

    /** Executes the resting order and returns it to the pool when nothing is left of it. */
    method Settle(resting: Order, t: nat)
      requires book.Valid() && pool.Valid() && resting in book.At(resting.side).orders
      requires t <= resting.quantity
      requires book.Model().On(resting.side) != [] && book.Model().On(resting.side)[0] == resting.Value()
      requires pool.Used() == book.Orders() + prepared && prepared !! book.Orders()
      modifies book.bids, book.bids.levels, book.bids.bitmap, book.asks, book.asks.levels, book.asks.bitmap
      modifies pool, book.index, book.index.entries, book.Orders()
      ensures book.Valid() && pool.Valid()
      ensures pool.Used() == book.Orders() + prepared && book.Orders() <= old(book.Orders())
      ensures book.bids.reductions == old(book.bids.reductions) && book.asks.reductions == old(book.asks.reductions)
      ensures book.Model() == old(book.Model()).With(old(resting.side),
        AfterFill(old(book.Model()).On(old(resting.side)), t))
    {
      hide ArrayOrderBook.Valid, ArrayOrderBook.Model, OrderPool.Valid, OrderPool.Used, AfterFill;
      var removed := Execute(resting, t);
      assert unchanged(pool);
      label executed:
      pool.Release(removed);
      assert unchanged@executed(book.bids, book.bids.levels, book.bids.orders, book.bids.bitmap);
      assert unchanged@executed(book.asks, book.asks.levels, book.asks.orders, book.asks.bitmap);
      assert unchanged@executed(book.index, book.index.entries);
    }

    /** What is left of a prepared order joins the book; the pool always leaves room in the index. */
    method Rest(order: Order)
      requires Valid() && order in prepared && 0 < order.price < book.MaxPriceLevels()
      modifies this`prepared, book.bids, book.bids.levels, book.bids.bitmap, book.asks, book.asks.levels,
        book.asks.bitmap
      modifies book.index, book.index.entries, book.Orders(), order
      ensures Valid() && prepared == old(prepared) - {order}
      ensures Model() == old(Model()).(book := AddTo(old(Model()).book, old(order.side), old(order.Value())))
    {
      hide Valid, ArrayOrderBook.Valid, ArrayOrderBook.Model, OrderPool.Valid, OrderPool.Used, BookIds, UniqueIds,
        AddTo;
      Parts();
      RoomInIndex(order);
      FreshId(order);
      AddToIds(book.Model(), order.side, order.Value());
      book.AddOrder(order);
      prepared := prepared - {order};
      Rested(order);
    }

    /** The index has a free slot for every prepared order. */
    lemma RoomInIndex(order: Order)
      requires Valid() && order in prepared
      ensures book.index.Valid() && book.index.size < book.index.capacity
    {
      hide ArrayOrderBook.Valid, ArrayOrderBook.Model, OrderPool.Valid, OrderPool.Used, Numbered, Unreduced;
      book.IndexSize();
      pool.Partition();
      Counting.SubsetSize(book.Orders() + {order}, pool.Used());
    }

    /** The id of a prepared order does not rest. */
    lemma FreshId(order: Order)
      requires Valid() && order in prepared
      ensures book.index.Valid() && order.id !in book.index.Contents()
      ensures UniqueIds(book.Model()) && order.id !in BookIds(book.Model())
    {
      hide ArrayOrderBook.Valid, ArrayOrderBook.Model, Pooled, Unreduced, BookIds, UniqueIds;
      book.IdsAreUnique();
      book.Lookup(order.id);
    }

    twostate lemma Rested(order: Order)
      requires old(Valid()) && order in old(prepared) && book.Valid() && pool.Valid()
      requires prepared == old(prepared) - {order} && pool.Used() == old(pool.Used())
      requires book.Orders() == old(book.Orders()) + {order}
      requires BookIds(book.Model()) == old(BookIds(book.Model())) + {order.id}
      requires old(sequencer.sequence) == sequencer.sequence
      requires forall o :: o in old(prepared) ==> o.id == old(o.id)
      requires book.bids.reductions == old(book.bids.reductions)
      requires book.asks.reductions == old(book.asks.reductions)
      ensures Valid()
    {
      hide ArrayOrderBook.Valid, ArrayOrderBook.Model, OrderPool.Valid, OrderPool.Used, BookIds;
    }

    /** A prepared order with nothing left goes back to the pool. */
    method Retire(order: Order)
      requires Valid() && order in prepared
      modifies this`prepared, pool
      ensures Valid() && prepared == old(prepared) - {order} && Model() == old(Model())
    {
      hide ArrayOrderBook.Valid, ArrayOrderBook.Model, OrderPool.Valid, OrderPool.Used, BookIds, Numbered, Unreduced;
      pool.Release(order);
      prepared := prepared - {order};
      assert unchanged(book.bids, book.bids.levels, book.bids.orders, book.bids.bitmap);
      assert unchanged(book.asks, book.asks.levels, book.asks.orders, book.asks.bitmap);
      assert unchanged(book.index, book.index.entries, old(prepared), sequencer);
      FewerPrepared(order);
    }

    twostate lemma FewerPrepared(order: Order)
      requires old(Numbered()) && prepared == old(prepared) - {order}
      requires unchanged(sequencer, book.bids, book.asks)
      requires forall o :: o in old(prepared) ==> o.id == old(o.id)
      ensures Numbered()
    {
    }

    /** Trades until nothing is left, nothing crosses, or a trade was empty. */
    method MatchLoop(incoming: Order)
      requires Valid() && incoming in prepared && sequencer.sequence + Count(book.Model()) < U64
      modifies this`published, incoming`quantity, sequencer, pool
      modifies book.bids, book.bids.levels, book.bids.bitmap, book.asks, book.asks.levels, book.asks.bitmap
      modifies book.index, book.index.entries, book.Orders()
      ensures Valid() && book.Orders() <= old(book.Orders())
      ensures incoming.id == old(incoming.id)
      ensures Submitted(incoming) == old(Submitted(incoming)).(quantity := incoming.quantity)
      ensures old(published) <= published
      ensures Complete(old(Model()), incoming.id, old(Submitted(incoming)), Model(), incoming.quantity,
                       published[|old(published)|..])
    {
      hide Valid, ArrayOrderBook.Valid, ArrayOrderBook.Model, Progress, Complete, EngineSpec.MatchOne,
        EngineSpec.CanCross;
      ghost var e, o := Model(), Submitted(incoming);
      ghost var done: seq<Fill>, stalled := [], false;
      ProgressStarts(e, incoming.id, o);
      assert published[|old(published)|..] == [];
      Parts();
      CanCrossMeans(incoming);
      while incoming.quantity > 0 && CanCross(incoming)
        invariant Valid() && incoming in prepared && book.Orders() <= old(book.Orders())
        invariant incoming.id == old(incoming.id) && Submitted(incoming) == o.(quantity := incoming.quantity)
        invariant book.At(incoming.side.Opposite()).best < |book.At(incoming.side.Opposite()).levels|
        invariant CanCross(incoming) <==> EngineSpec.CanCross(book.Model(), incoming.side, incoming.price)
        invariant !stalled && old(published) <= published
        invariant Progress(e, incoming.id, o, Model(), incoming.quantity, done, published[|old(published)|..])
        decreases incoming.quantity
      {
        AnotherNumber(e, incoming.id, o, Model(), incoming.quantity, done, published[|old(published)|..]);
        ghost var f := ProgressStep(e, incoming.id, o, Model(), incoming.quantity, done, published[|old(published)|..]);
        ghost var before := published;
        var traded := MatchOne(incoming);
        LaterPart(before, published[|before|..], |old(published)|);
        assert published == before + published[|before|..];
        if !traded {
          stalled := true;
          break;
        }
        done := done + [f];
        Parts();
        CanCrossMeans(incoming);
      }
      if !stalled {
        ProgressEnds(e, incoming.id, o, Model(), incoming.quantity, done, published[|old(published)|..]);
      }
    }

    /** The match loop, after which the order rests or returns to the pool. */
    method ExecuteTrade(incoming: Order)
      requires Valid() && incoming in prepared && 0 < incoming.price < book.MaxPriceLevels()
      requires sequencer.sequence + Count(book.Model()) < U64
      requires EngineSpec.CanCross(book.Model(), incoming.side, incoming.price)
      modifies this`published, this`prepared, incoming, sequencer, pool
      modifies book.bids, book.bids.levels, book.bids.bitmap, book.asks, book.asks.levels, book.asks.bitmap
      modifies book.index, book.index.entries, book.Orders()
      ensures Valid() && prepared == old(prepared) - {incoming}
      ensures var r := EngineSpec.Process(old(Model()), old(incoming.id), old(Submitted(incoming)));
        Model() == r.engine && published == old(published) + r.trades
    {
      hide Valid, ArrayOrderBook.Valid, ArrayOrderBook.Model, AddTo, EngineSpec.CanCross;
      MatchLoop(incoming);
      assert published == old(published) + published[|old(published)|..];
      if incoming.quantity > 0 {
        Rest(incoming);
      } else {
        Retire(incoming);
      }
    }

    /** Matches a prepared order, or rests it when it does not cross. */
    method Process(order: Order?)
      requires Valid() && sequencer.sequence + Count(book.Model()) < U64
      requires order != null ==> order in prepared && 0 < order.price < book.MaxPriceLevels()
      modifies this`published, this`prepared, order, sequencer, pool
      modifies book.bids, book.bids.levels, book.bids.bitmap, book.asks, book.asks.levels, book.asks.bitmap
      modifies book.index, book.index.entries, book.Orders()
      ensures Valid()
      ensures order == null ==> prepared == old(prepared) && Model() == old(Model()) && published == old(published)
      ensures order != null ==>
        var r := EngineSpec.Process(old(Model()), old(order.id), old(Submitted(order)));
        prepared == old(prepared) - {order} && Model() == r.engine && published == old(published) + r.trades
    {
      hide Valid, ArrayOrderBook.Valid, ArrayOrderBook.Model, AddTo, EngineSpec.CanCross, EngineSpec.Settled;
      if order == null {
        return;
      }
      Parts();
      CanCrossMeans(order);
      if CanCross(order) {
        ExecuteTrade(order);
      } else {
        Rest(order);
      }
    }

    /** Prepares and processes an order; returns its id, or 0 when the pool is empty. */
    method SubmitOrder(account: nat, side: Side, price: nat, quantity: nat) returns (id: nat)
      requires Valid() && prepared == {} && 0 < price < book.MaxPriceLevels()
      requires sequencer.sequence + 1 + Count(book.Model()) < U64
      modifies this`published, this`prepared, sequencer, pool, pool.freeList
      modifies book.bids, book.bids.levels, book.bids.bitmap, book.asks, book.asks.levels, book.asks.bitmap
      modifies book.index, book.index.entries, book.Orders()
      ensures Valid() && prepared == {}
      ensures var r := Submit(old(Model()), |pool.storage|, Submission(account, side, price, quantity));
        Model() == r.engine && id == r.id && published == old(published) + r.trades
    {
      hide Valid, ArrayOrderBook.Valid, ArrayOrderBook.Model, EngineSpec.Process;
      CountBound();
      var order := PrepareOrder(account, side, price, quantity);
      if order == null {
        return 0;
      }
      id := order.id;
      Process(order);
    }

    /** On every run of the engine each level's total is exactly what rests at its price (in 32 bits). */
    lemma TotalsAreExact(side: Side, p: nat)
      requires Valid() && p < book.MaxPriceLevels()
      ensures p < |book.At(side).levels|
      ensures book.At(side).levels[p].totalQuantity == Total(AtPrice(Model().book.On(side), p)) % U32
    {
      hide ArrayOrderBook.Valid, ArrayOrderBook.Model, Pooled, Numbered, AtPrice;
      book.LevelTotal(side, p);
    }

    /** No more orders rest than the pool holds. */
    lemma CountBound()
      requires Valid()
      ensures Count(book.Model()) + |prepared| <= |pool.storage|
    {
      hide ArrayOrderBook.Valid, ArrayOrderBook.Model, OrderPool.Valid, OrderPool.Used, Numbered, Unreduced;
      UsedCount();
      pool.Partition();
    }
  }
}
