/** The fixed pool that order objects are taken from and returned to. */
module OrderPools {

  import opened PriceLevels
  import Counting

  ghost predicate Distinct(s: seq<Order>) {
    forall i, j :: 0 <= i < j < |s| ==> s[i] != s[j]
  }

  class OrderPool {
    const storage: seq<Order>
    var freeList: seq<Order>
    var inUse: seq<bool>

    /** The free list holds each unused order once and nothing else. */
    ghost predicate Valid()
      reads this
    {
      && Distinct(storage)
      && Distinct(freeList)
      && |inUse| == |storage|
      && (forall o :: o in freeList ==> o in storage)
      && (forall i :: 0 <= i < |storage| ==> (storage[i] in freeList <==> !inUse[i]))
    }

    /** The orders handed out and not yet returned. */
    ghost function Used(): set<Order>
      reads this
    {
      set o | o in storage && o !in freeList
    }

    constructor (capacity: nat)
      ensures Valid() && |storage| == capacity && Used() == {} && fresh(storage)
    {
      var orders: seq<Order> := [];
      for i := 0 to capacity
        invariant |orders| == i && fresh(orders)
        invariant Distinct(orders)
      {
        var order := new Order();
        orders := orders + [order];
      }
      storage := orders;
      freeList := orders;
      inUse := seq(capacity, _ => false);
    }

    predicate Owns(order: Order?) {
      order != null && order in storage
    }

    method Acquire() returns (order: Order?)
      requires Valid()
      modifies this
      ensures Valid()
      ensures order == null <==> |old(Used())| == |storage|
      ensures order == null ==> unchanged(this)
      ensures order != null ==>
        order in old(freeList) && order !in old(Used()) && Used() == old(Used()) + {order}
    {
      Partition();
      if freeList == [] {
        return null;
      }
      order := freeList[|freeList| - 1];
      assert order in freeList && order in storage;
      freeList := freeList[..|freeList| - 1];
      var index :| 0 <= index < |storage| && storage[index] == order;
      inUse := inUse[index := true];
      assert old(freeList) == freeList + [order];
    }

    /** Returning an order twice, or one the pool does not own, changes nothing. */
    method Release(order: Order?)
      requires Valid()
      modifies this
      ensures Valid()
      ensures Used() == if order == null then old(Used()) else old(Used()) - {order}
    {
      if !Owns(order) {
        return;
      }
      var index :| 0 <= index < |storage| && storage[index] == order;
      if !inUse[index] {
        return;
      }
      inUse := inUse[index := false];
      freeList := freeList + [order];
    }

    /** Used and free orders make up the storage. */
    lemma Partition()
      requires Valid()
      ensures |Used()| + |freeList| == |storage|
    {
      SetSize(storage);
      SetSize(freeList);
      var all, free := set o | o in storage, set o | o in freeList;
      assert all == Used() + free;
    }

    lemma AllStored()
      requires Valid()
      ensures forall i :: 0 <= i < |freeList| ==> freeList[i] in storage
      ensures forall o :: o in Used() ==> o in storage
    {
    }

    lemma UsedIsOwned(o: Order)
      requires o in Used()
      ensures Owns(o)
    {
    }

    lemma {:induction false} SetSize(s: seq<Order>)
      requires Distinct(s)
      ensures |set o | o in s| == |s|
    {
      if s != [] {
        var t := s[..|s| - 1];
        SetSize(t);
        var last := s[|s| - 1];
        assert (set o | o in s) == (set o | o in t) + {last};
        assert last !in t;
      }
    }
  }
}
