/** The array order book: two sides and an index from order ids to resting orders. */
module OrderBooks {

  import opened Types
  import opened BookSpec
  import opened Levels
  import opened PriceLevels
  import opened BookSides
  import opened Hashing
  import Counting

  class ArrayOrderBook {
    const bids: BookSide
    const asks: BookSide
    const index: FixedHashMap<nat, Order>

    function At(side: Side): BookSide {
      if side.Buy? then bids else asks
    }

    /** The resting orders. */
    ghost function Orders(): set<Order>
      reads bids`orders, asks`orders
    {
      bids.orders + asks.orders
    }

    /** The book as two priority queues. */
    ghost function Model(): Book
      reads bids`contents, asks`contents
    {
      Book(bids.Queue(), asks.Queue())
    }

    /** The number of price levels of each side. */
    function MaxPriceLevels(): nat {
      |bids.levels|
    }

    ghost predicate Shape() {
      && bids.side == Buy && asks.side == Sell
      && bids.bitmap != asks.bitmap
      && index.entries as object != bids.bitmap && index.entries as object != asks.bitmap
      && |bids.levels| == |asks.levels|
      && bids.Shape() && asks.Shape()
    }

    ghost predicate SidesValid()
      reads bids, asks, bids.levels, asks.levels, bids.orders, asks.orders, bids.bitmap, asks.bitmap
    {
      && bids.orders !! asks.orders
      && bids.Valid()
      && asks.Valid()
    }

    /** The index holds exactly the resting orders, each under its own id. */
    ghost predicate Indexed(m: map<nat, Order>)
      reads bids`orders, asks`orders, bids.orders`id, asks.orders`id, bids`contents, asks`contents
    {
      && (forall o :: o in Orders() ==> o.id in m && m[o.id] == o)
      && (forall id :: id in m ==> m[id] in Orders() && m[id].id == id)
      && m.Keys == BookIds(Model())
      && UniqueIds(Model())
    }

    ghost predicate Valid()
      reads bids, asks, bids.levels, asks.levels, bids.orders, asks.orders, bids.bitmap, asks.bitmap
      reads index, index.entries
    {
      && Shape()
      && SidesValid()
      && index.Valid()
      && Indexed(index.Contents())
    }

    constructor (n: nat, capacity: nat, hashOf: nat -> nat)
      requires n > 0 && capacity > 0
      ensures Valid() && MaxPriceLevels() == n && index.capacity == capacity
      ensures Orders() == {} && Model() == EMPTY
      ensures bids.reductions == seq(n, _ => 0) && asks.reductions == seq(n, _ => 0)
      ensures fresh(bids) && fresh(asks) && fresh(bids.levels) && fresh(asks.levels)
      ensures fresh(bids.bitmap) && fresh(asks.bitmap) && fresh(index) && fresh(index.entries)
    {
      hide BookSide.Valid, BookSide.Queue, FixedHashMap.Valid, FixedHashMap.Contents;
      bids := new BookSide(Buy, n);
      asks := new BookSide(Sell, n);
      index := new FixedHashMap<nat, Order>(capacity, hashOf);
      new;
      SideShapes();
    }

    lemma SideShapes()
      requires SidesValid()
      ensures bids.Shape() && asks.Shape()
    {
    }

    method AddOrder(order: Order)
      requires Valid() && order !in Orders() && 0 < order.price < MaxPriceLevels()
      requires order.id !in index.Contents() && index.size < index.capacity
      modifies At(order.side)`best, At(order.side)`orders, At(order.side)`contents
      modifies At(order.side).levels, At(order.side).bitmap, index, index.entries
      modifies order`level, order`prev, order`next, At(order.side).orders`next
      ensures Valid()
      ensures Orders() == old(Orders()) + {order}
      ensures Model() == AddTo(old(Model()), order.side, order.Value())
    {
      hide SidesValid, Indexed, Model, Shape, FixedHashMap.Valid, FixedHashMap.Contents;
      EntriesApart();
      Link(order);
      assert unchanged(index, index.entries);
      IndexedAdded(order);
      label linked:
      var stored := index.Insert(order.id, order);
      assert unchanged@linked(bids, bids.levels, bids.orders, bids.bitmap);
      assert unchanged@linked(asks, asks.levels, asks.orders, asks.bitmap);
    }

    /** Links an order on its side of the book. */
    method Link(order: Order)
      requires Shape() && SidesValid() && order !in Orders() && 0 < order.price < MaxPriceLevels()
      modifies At(order.side)`best, At(order.side)`orders, At(order.side)`contents
      modifies At(order.side).levels, At(order.side).bitmap
      modifies order`level, order`prev, order`next, At(order.side).orders`next
      ensures SidesValid()
      ensures Orders() == old(Orders()) + {order}
      ensures Model() == AddTo(old(Model()), order.side, order.Value())
    {
      hide BookSide.Valid, BookSide.Queue, BookSide.Shape;
      LevelsApart();
      At(order.side).Add(order);
      SideAdded(order);
    }

    lemma EntriesApart()
      requires Shape()
      ensures index.entries as object != bids.bitmap && index.entries as object != asks.bitmap && bids != asks
    {
    }

    /** No level belongs to both sides. */
    lemma LevelsApart()
      requires Shape()
      ensures forall p :: 0 <= p < |bids.levels| ==> bids.levels[p] !in asks.levels
      ensures forall p :: 0 <= p < |asks.levels| ==> asks.levels[p] !in bids.levels
    {
    }

    /** Adding to one side leaves the other as it was. */
    twostate lemma SideAdded(order: Order)
      requires Shape() && old(SidesValid()) && order !in old(Orders()) && order.side == old(order.side)
      requires At(order.side).Valid() && At(order.side).orders == old(At(order.side).orders) + {order}
      requires At(order.side).Queue() == Insert(order.side, old(At(order.side).Queue()), order.Value())
      requires var other := At(order.side.Opposite());
        unchanged(other) && unchanged(other.levels) && unchanged(other.orders) && unchanged(other.bitmap)
      ensures SidesValid()
      ensures Model() == AddTo(old(Model()), order.side, order.Value())
    {
      hide BookSide.Valid, BookSide.Queue, Insert;
    }

    twostate lemma IndexedAdded(order: Order)
      requires old(index.Valid()) && old(Indexed(index.Contents()))
      requires order !in old(Orders()) && order.id !in old(index.Contents())
      requires Orders() == old(Orders()) + {order}
      requires forall o :: o in old(Orders()) ==> o.id == old(o.id)
      requires Model() == AddTo(old(Model()), order.side, order.Value())
      ensures Indexed(old(index.Contents())[order.id := order])
    {
      hide Model, AddTo, BookIds, UniqueIds, FixedHashMap.Valid, FixedHashMap.Contents;
      AddToIds(old(Model()), order.side, order.Value());
    }

    method CancelOrder(id: nat) returns (removed: Order?)
      requires Valid()
      modifies bids`best, bids`orders, bids`contents, bids.levels, bids.bitmap
      modifies asks`best, asks`orders, asks`contents, asks.levels, asks.bitmap
      modifies index, index.entries, Orders()`level, Orders()`prev, Orders()`next
      ensures Valid()
      ensures removed == null <==> id !in old(BookIds(Model()))
      ensures removed == null ==> Orders() == old(Orders()) && Model() == old(Model())
      ensures removed != null ==>
        && removed in old(Orders())
        && removed.id == id
        && Orders() == old(Orders()) - {removed}
        && Model() == RemoveFrom(old(Model()), SideOf(old(Model()), id), id)
        && removed.level == null && removed.prev == null && removed.next == null
    {
      hide Valid, Model, FixedHashMap.Valid, FixedHashMap.Contents, BookIds, Get, SideOf, RemoveFrom;
      Lookup(id);
      var found := index.Find(id);
      if found.None? {
        return null;
      }
      RestingValue(found.value);
      Detach(found.value);
      return found.value;
    }

    /** The index answers for every id. */
    lemma Lookup(id: nat)
      requires Valid()
      ensures index.Valid() && bids != asks
      ensures id in index.Contents() <==> id in BookIds(Model())
      ensures id in index.Contents() ==>
        var o := index.Contents()[id];
        o in Orders() && o.id == id && o in At(o.side).orders
    {
      hide SidesValid, Model, BookSide.Shape, FixedHashMap.Valid, FixedHashMap.Contents;
      if id in index.Contents() {
        SideOfOrder(index.Contents()[id]);
      }
    }

    /** Unlinks a resting order and erases its id. */
    method Detach(order: Order)
      requires Valid() && order in At(order.side).orders
      modifies At(order.side)`best, At(order.side)`orders, At(order.side)`contents
      modifies At(order.side).levels, At(order.side).bitmap, index, index.entries
      modifies At(order.side).orders`level, At(order.side).orders`prev, At(order.side).orders`next
      ensures Valid()
      ensures Orders() == old(Orders()) - {order} && At(order.side).orders == old(At(order.side).orders) - {order}
      ensures Model() == RemoveFrom(old(Model()), order.side, order.id)
      ensures order.level == null && order.prev == null && order.next == null
      ensures index.size < index.capacity
    {
      hide SidesValid, Model, Indexed, Shape, FixedHashMap.Valid, FixedHashMap.Contents, UniqueIds, Ids, RemoveFrom;
      EntriesApart();
      IndexedOrder(order);
      index.SizeBound();
      Unlink(order);
      assert unchanged(index, index.entries);
      IndexedRemoved(order);
      label unlinked:
      var erased := index.Erase(order.id);
      assert unchanged@unlinked(bids, bids.levels, bids.orders, bids.bitmap);
      assert unchanged@unlinked(asks, asks.levels, asks.orders, asks.bitmap);
    }

    lemma IndexedOrder(order: Order)
      requires Valid() && order in Orders()
      ensures order.id in index.Contents() && index.Contents()[order.id] == order && UniqueIds(Model())
    {
      hide SidesValid, Model, Shape, FixedHashMap.Valid, FixedHashMap.Contents;
    }

    /** Unlinks an order from its side of the book. */
    method Unlink(order: Order)
      requires Shape() && SidesValid() && order in At(order.side).orders && UniqueIds(Model())
      modifies At(order.side)`best, At(order.side)`orders, At(order.side)`contents
      modifies At(order.side).levels, At(order.side).bitmap
      modifies At(order.side).orders`level, At(order.side).orders`prev, At(order.side).orders`next
      ensures SidesValid()
      ensures Orders() == old(Orders()) - {order} && At(order.side).orders == old(At(order.side).orders) - {order}
      ensures Model() == RemoveFrom(old(Model()), order.side, order.id) && order.id in old(Ids(Model().On(order.side)))
      ensures order.level == null && order.prev == null && order.next == null
    {
      hide SidesValid, BookSide.Valid, BookSide.Queue, BookSide.Shape, Model, RemoveFrom, UniqueIds, Ids;
      LevelsApart();
      SideOfOrder(order);
      ValidSide(order.side);
      At(order.side).Remove(order);
      SideRemoved(order);
    }

    lemma ValidSide(side: Side)
      requires SidesValid() && UniqueIds(Model())
      ensures At(side).Valid() && DistinctIds(At(side).Queue()) && bids.orders !! asks.orders
    {
      hide BookSide.Valid, BookSide.Queue;
    }

    /** A resting order is linked on the side it names. */
    lemma SideOfOrder(order: Order)
      requires Shape() && SidesValid() && order in Orders()
      ensures order in At(order.side).orders && order !in At(order.side.Opposite()).orders
      ensures 0 < order.price < MaxPriceLevels()
      ensures order.Value() in Model().On(order.side) && order.id in Ids(Model().On(order.side))
    {
      hide BookSide.Valid, BookSide.Queue, BookSide.Shape;
      if order in bids.orders {
        bids.OrderFacts(order);
      } else {
        asks.OrderFacts(order);
      }
    }

    /** Removing from one side leaves the other as it was. */
    twostate lemma SideRemoved(order: Order)
      requires Shape() && old(SidesValid()) && order in old(At(order.side).orders) && order.side == old(order.side)
      requires At(order.side).Valid() && At(order.side).orders == old(At(order.side).orders) - {order}
      requires At(order.side).Queue() == Remove(old(At(order.side).Queue()), order.id)
      requires var other := At(order.side.Opposite());
        unchanged(other) && unchanged(other.levels) && unchanged(other.orders) && unchanged(other.bitmap)
      ensures SidesValid()
      ensures Model() == RemoveFrom(old(Model()), order.side, order.id)
      ensures Orders() == old(Orders()) - {order}
    {
      hide BookSide.Valid, BookSide.Queue, Remove;
    }

    twostate lemma IndexedRemoved(order: Order)
      requires old(index.Valid()) && old(Indexed(index.Contents()))
      requires order in old(Orders()) && order.id == old(order.id)
      requires Orders() == old(Orders()) - {order}
      requires forall o :: o in old(Orders()) ==> o.id == old(o.id)
      requires order.id in old(Ids(Model().On(order.side))) && order.side == old(order.side)
      requires Model() == RemoveFrom(old(Model()), order.side, order.id)
      ensures Indexed(old(index.Contents()) - {order.id})
    {
      hide Model, RemoveFrom, BookIds, UniqueIds, FixedHashMap.Valid, FixedHashMap.Contents;
      RemoveFromIds(old(Model()), order.side, order.id);
    }

    /** Cancels part of a resting order, which keeps its place. */
    method ReduceInPlace(order: Order, amount: nat)
      requires Valid() && order in At(order.side).orders && amount <= order.quantity
      modifies order`quantity, At(order.side).levels`reduced, At(order.side)`contents, At(order.side)`reductions
      ensures Valid() && Orders() == old(Orders())
      ensures order.price < |old(At(order.side).reductions)|
      ensures At(order.side).reductions ==
        old(At(order.side).reductions)[order.price := old(At(order.side).reductions)[order.price] + amount]
      ensures order.quantity == old(order.quantity) - amount
      ensures Model() == SetIn(old(Model()), order.side, order.id, order.quantity)
    {
      hide SidesValid, Model, Indexed, BookSide.Shape, BookSide.Valid, BookSide.Queue, FixedHashMap.Valid,
        FixedHashMap.Contents, UniqueIds, SetIn;
      IndexedOrder(order);
      ValidSide(order.side);
      LevelsApart();
      At(order.side).Reduce(order, amount);
      Requantified(order);
    }

    /** Executes part of a resting order: its quantity and its level's total shrink together. */
    method FillInPlace(order: Order, amount: nat)
      requires Valid() && order in At(order.side).orders && amount <= order.quantity
      modifies order`quantity, At(order.side).levels`totalQuantity, At(order.side)`contents
      ensures Valid() && Orders() == old(Orders())
      ensures order.quantity == old(order.quantity) - amount
      ensures Model() == SetIn(old(Model()), order.side, order.id, order.quantity)
    {
      hide SidesValid, Model, Indexed, BookSide.Shape, BookSide.Valid, BookSide.Queue, FixedHashMap.Valid,
        FixedHashMap.Contents, UniqueIds, SetIn;
      IndexedOrder(order);
      ValidSide(order.side);
      LevelsApart();
      At(order.side).Fill(order, amount);
      Requantified(order);
    }

    /** A resting order is what the model finds under its id. */
    lemma RestingValue(order: Order)
      requires Valid() && order in Orders()
      ensures order in At(order.side).orders
      ensures order.id in BookIds(Model())
      ensures SideOf(Model(), order.id) == order.side && Get(Model(), order.id) == order.Value()
    {
      hide SidesValid, Model, Indexed, BookSide.Shape, FixedHashMap.Valid, FixedHashMap.Contents, UniqueIds, Ids,
        Get, SideOf, BookIds;
      SideOfOrder(order);
      IndexedOrder(order);
      GetOwn(Model(), order.side, order.Value());
    }

    /** A changed quantity on one side leaves the other side and the index as they were. */
    twostate lemma Requantified(order: Order)
      requires old(Valid()) && order in old(At(order.side).orders) && order.side == old(order.side)
      requires order.id == old(order.id)
      requires At(order.side).Valid() && At(order.side).orders == old(At(order.side).orders)
      requires At(order.side).Queue() == SetQuantity(old(At(order.side).Queue()), order.id, order.quantity)
      requires var other := At(order.side.Opposite());
        unchanged(other) && unchanged(other.levels) && unchanged(other.orders) && unchanged(other.bitmap)
      requires unchanged(index, index.entries)
      requires forall o :: o in old(Orders()) ==> o.id == old(o.id)
      ensures Valid() && Orders() == old(Orders())
      ensures Model() == SetIn(old(Model()), order.side, order.id, order.quantity)
    {
      hide BookSide.Valid, BookSide.Queue, BookSide.Shape, SetQuantity, BookIds, UniqueIds, FixedHashMap.Valid,
        FixedHashMap.Contents;
      SetInIds(old(Model()), order.side, order.id, order.quantity);
    }

    /**
     Partial or full cancellation; rejected for an unknown id and for an amount of 0 or above what rests.
     Unless the order leaves the book, no level's total changes.
     */
    method ReduceOrder(id: nat, amount: nat) returns (success: bool, removed: Order?)
      requires Valid()
      modifies bids`best, bids`orders, bids`contents, bids.levels, bids.bitmap
      modifies asks`best, asks`orders, asks`contents, asks.levels, asks.bitmap
      modifies index, index.entries, Orders()`level, Orders()`prev, Orders()`next, Orders()`quantity
      modifies bids`reductions, asks`reductions
      ensures Valid()
      ensures success <==> id in old(BookIds(Model())) && 0 < amount <= old(Get(Model(), id).quantity)
      ensures Model() == if success then Reduced(old(Model()), id, amount) else old(Model())
      ensures bids.reductions == ReductionsAfter(old(Model()), Buy, old(bids.reductions), id, amount)
      ensures asks.reductions == ReductionsAfter(old(Model()), Sell, old(asks.reductions), id, amount)
      ensures removed != null <==> success && amount == old(Get(Model(), id).quantity)
      ensures removed == null ==> Orders() == old(Orders())
      ensures removed == null ==> unchanged(bids.levels`totalQuantity) && unchanged(asks.levels`totalQuantity)
      ensures removed != null ==>
        && removed in old(Orders())
        && Orders() == old(Orders()) - {removed}
        && removed.level == null && removed.prev == null && removed.next == null
    {
      hide Valid, Model, FixedHashMap.Valid, FixedHashMap.Contents, BookIds, Get, SideOf;
      Lookup(id);
      var found := index.Find(id);
      if found.None? {
        return false, null;
      }
      var order := found.value;
      RestingValue(order);
      if amount == 0 || amount > order.quantity {
        return false, null;
      }
      if amount == order.quantity {
        Detach(order);
        return true, order;
      }
      ReduceInPlace(order, amount);
      return true, null;
    }

    /** An execution report reduces the order like a cancellation. */
    method ExecuteOrder(id: nat, amount: nat) returns (success: bool, removed: Order?)
      requires Valid()
      modifies bids`best, bids`orders, bids`contents, bids.levels, bids.bitmap
      modifies asks`best, asks`orders, asks`contents, asks.levels, asks.bitmap
      modifies index, index.entries, Orders()`level, Orders()`prev, Orders()`next, Orders()`quantity
      modifies bids`reductions, asks`reductions
      ensures Valid()
      ensures success <==> id in old(BookIds(Model())) && 0 < amount <= old(Get(Model(), id).quantity)
      ensures Model() == if success then Reduced(old(Model()), id, amount) else old(Model())
      ensures bids.reductions == ReductionsAfter(old(Model()), Buy, old(bids.reductions), id, amount)
      ensures asks.reductions == ReductionsAfter(old(Model()), Sell, old(asks.reductions), id, amount)
      ensures removed != null <==> success && amount == old(Get(Model(), id).quantity)
      ensures removed == null ==> Orders() == old(Orders())
      ensures removed == null ==> unchanged(bids.levels`totalQuantity) && unchanged(asks.levels`totalQuantity)
      ensures removed != null ==>
        && removed in old(Orders())
        && Orders() == old(Orders()) - {removed}
        && removed.level == null && removed.prev == null && removed.next == null
    {
      success, removed := ReduceOrder(id, amount);
    }

    /**
     Replaces a resting order by one with a new id, quantity and price. Rejected for an id or quantity
     of 0, for the old id again, for a new id that already rests and for an unknown old id.
     */
    method ReplaceOrder(originalId: nat, newId: nat, newQuantity: nat, newPrice: nat) returns (ok: bool)
      requires Valid() && 0 < newPrice < MaxPriceLevels()
      modifies bids`best, bids`orders, bids`contents, bids.levels, bids.bitmap
      modifies asks`best, asks`orders, asks`contents, asks.levels, asks.bitmap
      modifies index, index.entries, Orders()
      ensures Valid() && Orders() == old(Orders())
      ensures ok <==>
        && newId != 0 && newQuantity != 0 && newId != originalId
        && newId !in old(BookIds(Model()))
        && originalId in old(BookIds(Model()))
      ensures Model() ==
        if ok then Replaced(old(Model()), originalId, newId, newQuantity, newPrice) else old(Model())
    {
      hide Valid, Model, FixedHashMap.Valid, FixedHashMap.Contents, BookIds, Get, SideOf, AddTo, RemoveFrom;
      if newId == 0 || newQuantity == 0 || newId == originalId {
        return false;
      }
      Lookup(newId);
      var taken := index.Contains(newId);
      if taken {
        return false;
      }
      Lookup(originalId);
      var found := index.Find(originalId);
      if found.None? {
        return false;
      }
      var order := found.value;
      RestingValue(order);
      Requeue(order, newId, newQuantity, newPrice);
      return true;
    }

    /** Cancels an order and adds it again with its new id, quantity and price. */
    method Requeue(order: Order, newId: nat, newQuantity: nat, newPrice: nat)
      requires Valid() && 0 < newPrice < MaxPriceLevels()
      requires order in At(order.side).orders && newId !in BookIds(Model())
      modifies At(order.side)`best, At(order.side)`orders, At(order.side)`contents
      modifies At(order.side).levels, At(order.side).bitmap, index, index.entries, At(order.side).orders
      ensures Valid() && Orders() == old(Orders())
      ensures Model() == AddTo(RemoveFrom(old(Model()), old(order.side), old(order.id)), old(order.side),
                               Resting(newId, old(order.account), newPrice, newQuantity))
    {
      hide Valid, Model, FixedHashMap.Valid, FixedHashMap.Contents, BookIds, AddTo, RemoveFrom;
      var side, account := order.side, order.account;
      Detach(order);
      FreshId(old(Model()), side, old(order.id), newId);
      Revise(order, newId, account, side, newPrice, newQuantity);
      Lookup(newId);
      AddOrder(order);
    }

    /** The level at the cached best price of a side, if there is one. */
    function BestLevel(side: Side): PriceLevel?
      requires At(side).best < |At(side).levels|
      reads At(side)`best
    {
      if At(side).best == 0 then null else At(side).levels[At(side).best]
    }

    /** The front of the best level is the order with priority on its side. */
    lemma Best(side: Side)
      requires Valid()
      ensures At(side).best < |At(side).levels|
      ensures BestLevel(side) == null <==> Model().On(side) == []
      ensures BestLevel(side) != null ==>
        var level := BestLevel(side);
        && level.price == Model().On(side)[0].price
        && level.head != null
        && level.head in At(side).orders
        && level.head.side == side
        && level.head.Value() == Model().On(side)[0]
    {
      hide Indexed, BookSide.Valid, BookSide.Queue, FixedHashMap.Valid;
      At(side).BestIsHead();
      if At(side).best > 0 {
        At(side).OrderFacts(At(side).levels[At(side).best].head);
      }
    }

    /** A level's total is what rests at its price plus all partial reductions there, modulo 2^32. */
    lemma LevelTotal(side: Side, p: nat)
      requires Valid() && p < MaxPriceLevels()
      ensures p < |At(side).reductions| && p < |At(side).levels|
      ensures At(side).levels[p].totalQuantity == (Total(AtPrice(Model().On(side), p)) + At(side).reductions[p]) % U32
    {
      hide Indexed, BookSide.Valid, BookSide.Shape, FixedHashMap.Valid, AtPrice;
      At(side).LevelTotal(p);
    }

    lemma IdsAreUnique()
      requires Valid()
      ensures UniqueIds(Model())
    {
      hide SidesValid, Model, Shape, FixedHashMap.Valid, FixedHashMap.Contents;
    }

    /** As many ids are indexed as orders rest, on the heap and in the model. */
    lemma IndexSize()
      requires Valid()
      ensures index.Valid() && index.size == |Orders()| == |Model().bids| + |Model().asks|
    {
      hide SidesValid, Shape, BookSide.Queue, FixedHashMap.Valid, FixedHashMap.Contents;
      var m := index.Contents();
      Counting.InjectiveSize(m);
      forall o | o in Orders() ensures o in m.Values {
        assert m[o.id] == o;
      }
      assert m.Values == Orders();
      DistinctSize(Model().bids);
      DistinctSize(Model().asks);
    }

    /** Rewrites the fields of an order that is not in the book. */
    method Revise(order: Order, id: nat, account: nat, side: Side, price: nat, quantity: nat)
      requires Valid() && order !in Orders()
      modifies order
      ensures Valid()
      ensures order.id == id && order.side == side && order.Value() == Resting(id, account, price, quantity)
      ensures order.level == null && order.prev == null && order.next == null
    {
      hide Valid;
      order.id := id;
      order.account := account;
      order.side := side;
      order.price := price;
      order.quantity := quantity;
      order.level := null;
      order.prev := null;
      order.next := null;
      assert unchanged(bids, bids.levels, bids.orders, bids.bitmap);
      assert unchanged(asks, asks.levels, asks.orders, asks.bitmap);
      assert unchanged(index, index.entries);
    }
  }

  lemma {:induction false} DistinctSize(q: Queue)
    requires DistinctIds(q)
    ensures |Ids(q)| == |q|
  {
    if q != [] {
      HeadIds(q);
      DistinctSize(q[1..]);
    }
  }

  /** Removing an order frees no id but its own. */
  lemma FreshId(b: Book, side: Side, id: nat, other: nat)
    requires other !in BookIds(b)
    ensures other !in BookIds(RemoveFrom(b, side, id))
  {
    RemainingIds(b.On(side), id);
  }

  lemma {:induction false} RemainingIds(q: Queue, id: nat)
    ensures Ids(Remove(q, id)) <= Ids(q)
  {
    if q != [] {
      HeadIds(q);
      if q[0].id != id {
        RemainingIds(q[1..], id);
        SingleId(q[0]);
        IdsConcat([q[0]], Remove(q[1..], id));
      }
    }
  }
}
