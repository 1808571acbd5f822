/** Orders and the intrusive doubly linked FIFO list of each price level. */
module PriceLevels {

  import opened Types
  import opened BookSpec

  class Order {
    var id: nat
    var account: nat
    var side: Side
    var price: nat
    var quantity: nat

    var level: PriceLevel?
    var prev: Order?
    var next: Order?

    constructor ()
      ensures level == null && prev == null && next == null
    {
      id, account, side, price, quantity := 0, 0, Buy, 0, 0;
      level, prev, next := null, null, null;
    }

    /** The order without its list links. */
    ghost function Value(): Resting
      reads this`id, this`account, this`price, this`quantity
    {
      Resting(id, account, price, quantity)
    }
  }

  ghost function Values(s: seq<Order>): (r: Queue)
    reads s`id, s`account, s`price, s`quantity
    ensures |r| == |s|
    ensures forall i :: 0 <= i < |s| ==> r[i] == s[i].Value()
  {
    if s == [] then [] else Values(s[..|s| - 1]) + [s[|s| - 1].Value()]
  }

  lemma AddModulo(t: nat, r: nat, q: nat)
    ensures ((t + r) % U32 + q) % U32 == (t + q + r) % U32
  {
  }

  lemma SubModulo(t: nat, r: nat, q: nat)
    ensures ((t + q + r) % U32 - q) % U32 == (t + r) % U32
  {
  }

  lemma TotalWithout(q: Queue, i: nat)
    requires i < |q|
    ensures Total(q) == Total(q[..i] + q[i + 1..]) + q[i].quantity
  {
    hide Total;
    assert q == q[..i] + [q[i]] + q[i + 1..];
    TotalAround(q[..i], q[i], q[i + 1..]);
    TotalConcat(q[..i], q[i + 1..]);
  }

  lemma TotalUpdated(q: Queue, i: nat, r: Resting)
    requires i < |q|
    ensures Total(q[i := r]) == Total(q) - q[i].quantity + r.quantity
  {
    hide Total;
    assert q == q[..i] + [q[i]] + q[i + 1..] && q[i := r] == q[..i] + [r] + q[i + 1..];
    TotalAround(q[..i], q[i], q[i + 1..]);
    TotalAround(q[..i], r, q[i + 1..]);
  }

  class PriceLevel {
    /** The side and the array index of this level. */
    ghost const side: Side
    ghost const slot: nat

    var price: nat
    var head: Order?
    var tail: Order?
    var totalQuantity: nat

    /** The linked orders, in FIFO order. */
    ghost var queue: seq<Order>
    /** All partial reductions ever applied to orders of this level. */
    ghost var reduced: nat

    constructor (ghost side: Side, ghost slot: nat)
      ensures this.side == side && this.slot == slot
      ensures Chain() && Accounted() && queue == [] && reduced == 0
    {
      this.side, this.slot := side, slot;
      price, head, tail, totalQuantity := 0, null, null, 0;
      queue, reduced := [], 0;
    }

    ghost predicate Distinct()
      reads this`queue
    {
      forall i, j :: 0 <= i < j < |queue| ==> queue[i] != queue[j]
    }

    /** The i-th order points to this level and to its neighbours. */
    ghost predicate LinkedAt(i: nat)
      requires i < |queue|
      reads this`queue, queue`level, queue`prev, queue`next
    {
      && queue[i].level == this
      && queue[i].prev == (if i == 0 then null else queue[i - 1])
      && queue[i].next == (if i == |queue| - 1 then null else queue[i + 1])
    }

    /** The next and prev pointers form one acyclic list from head to tail, in queue order. */
    ghost predicate Chain()
      reads this`head, this`tail, this`queue, queue`level, queue`prev, queue`next
    {
      && Distinct()
      && head == (if queue == [] then null else queue[0])
      && tail == (if queue == [] then null else queue[|queue| - 1])
      && forall i :: 0 <= i < |queue| ==> LinkedAt(i)
    }

    /** The level's total is what rests plus what was partially reduced, in 32-bit arithmetic. */
    ghost predicate Accounted()
      reads this`totalQuantity, this`queue, this`reduced, queue`id, queue`account, queue`price, queue`quantity
    {
      totalQuantity == (Total(Values(queue)) + reduced) % U32
    }

    /** A level holds orders of its own side and price only, and none at price 0. */
    ghost predicate Valid()
      reads this, queue
    {
      && Chain()
      && Accounted()
      && (queue != [] ==> price == slot && slot > 0)
      && forall i :: 0 <= i < |queue| ==> queue[i].level == this && queue[i].side == side && queue[i].price == slot
    }

    predicate Empty()
      reads this`head
    {
      head == null
    }

    /** The first order of an empty level sets its price; then it is linked last. */
    method Append(order: Order)
      requires Valid() && order !in queue && order.side == side && order.price == slot > 0
      modifies this, order`level, order`prev, order`next, queue`next
      ensures Valid() && reduced == old(reduced)
      ensures queue == old(queue) + [order]
      ensures Values(queue) == old(Values(queue)) + [order.Value()]
    {
      hide Values, Accounted;
      if Empty() {
        price := order.price;
      }
      PushBack(order);
      forall i | 0 <= i < |queue|
        ensures queue[i].level == this && queue[i].side == side && queue[i].price == slot
      {
        assert LinkedAt(i);
        assert i < |old(queue)| ==> queue[i] == old(queue)[i];
      }
    }

    /** Takes a linked order out of the level. */
    method Take(order: Order, ghost i: nat)
      requires Valid() && i < |queue| && queue[i] == order
      modifies this, order`level, order`prev, order`next, queue`next, queue`prev
      ensures Valid() && reduced == old(reduced)
      ensures queue == old(queue)[..i] + old(queue)[i + 1..] && order !in queue
      ensures Values(queue) == old(Values(queue))[..i] + old(Values(queue))[i + 1..]
      ensures order.level == null && order.prev == null && order.next == null
    {
      hide Values, Accounted;
      Remove(order, i);
      forall j | 0 <= j < |queue|
        ensures queue[j].level == this && queue[j].side == side && queue[j].price == slot
      {
        assert LinkedAt(j);
        assert queue[j] == old(queue)[if j < i then j else j + 1];
      }
    }

    /** Cancels part of an order's quantity; the level's total is left as it is. */
    method Reduce(order: Order, ghost i: nat, amount: nat)
      requires Valid() && i < |queue| && queue[i] == order && amount <= order.quantity
      modifies order`quantity, this`reduced
      ensures Valid() && reduced == old(reduced) + amount
      ensures order.quantity == old(order.quantity) - amount
      ensures Values(queue) == old(Values(queue))[i := order.Value()]
    {
      hide Chain, Values;
      ghost var was := Values(queue);
      order.quantity := order.quantity - amount;
      reduced := reduced + amount;
      assert Values(queue) == was[i := order.Value()] by {
        assert Distinct() by {
          ChainIsDistinct();
        }
      }
      TotalUpdated(was, i, order.Value());
    }

    /** Executes part of an order's quantity; the level's total follows. */
    method Fill(order: Order, ghost i: nat, amount: nat)
      requires Valid() && i < |queue| && queue[i] == order && amount <= order.quantity
      modifies order`quantity, this`totalQuantity
      ensures Valid()
      ensures order.quantity == old(order.quantity) - amount
      ensures Values(queue) == old(Values(queue))[i := order.Value()]
    {
      hide Chain, Values;
      ghost var was := Values(queue);
      order.quantity := order.quantity - amount;
      totalQuantity := (totalQuantity - amount) % U32;
      assert Values(queue) == was[i := order.Value()] by {
        assert Distinct() by {
          ChainIsDistinct();
        }
      }
      TotalUpdated(was, i, order.Value());
      SubModulo(Total(Values(queue)), reduced, amount);
    }

    lemma ChainIsDistinct()
      requires Chain()
      ensures Distinct()
    {
    }

    method PushBack(order: Order)
      requires Chain() && Accounted() && order !in queue
      modifies this`head, this`tail, this`totalQuantity, this`queue
      modifies order`level, order`prev, order`next, queue`next
      ensures Chain() && Accounted()
      ensures queue == old(queue) + [order]
      ensures Values(queue) == old(Values(queue)) + [order.Value()]
    {
      hide Chain, Values;
      ghost var was := Values(queue);
      LinkLast(order);
      totalQuantity := (totalQuantity + order.quantity) % U32;
      assert Values(queue) == was + [order.Value()];
      TotalConcat(was, [order.Value()]);
      AddModulo(Total(was), reduced, order.quantity);
    }

    /** The pointer writes of `PushBack`. */
    method LinkLast(order: Order)
      requires Chain() && order !in queue
      modifies this`head, this`tail, this`queue
      modifies order`level, order`prev, order`next, queue`next
      ensures Chain()
      ensures queue == old(queue) + [order]
    {
      order.level := this;
      order.prev := tail;
      order.next := null;
      if tail != null {
        tail.next := order;
      } else {
        head := order;
      }
      tail := order;
      queue := queue + [order];
      forall i | 0 <= i < |queue|
        ensures LinkedAt(i)
      {
        assert i < |old(queue)| ==> old(LinkedAt(i));
      }
    }

    method Remove(order: Order, ghost i: nat)
      requires Chain() && Accounted() && i < |queue| && queue[i] == order
      modifies this`head, this`tail, this`totalQuantity, this`queue
      modifies order`level, order`prev, order`next, queue`next, queue`prev
      ensures Chain() && Accounted()
      ensures queue == old(queue)[..i] + old(queue)[i + 1..]
      ensures Values(queue) == old(Values(queue))[..i] + old(Values(queue))[i + 1..]
      ensures order.level == null && order.prev == null && order.next == null
    {
      hide Chain, Values;
      ghost var was := Values(queue);
      Unlink(order, i);
      totalQuantity := (totalQuantity - order.quantity) % U32;
      assert Values(queue) == was[..i] + was[i + 1..];
      TotalWithout(was, i);
      SubModulo(Total(Values(queue)), reduced, order.quantity);
    }

    /** The pointer writes of `Remove`. */
    method Unlink(order: Order, ghost i: nat)
      requires Chain() && i < |queue| && queue[i] == order
      modifies this`head, this`tail, this`queue
      modifies order`level, order`prev, order`next, queue`next, queue`prev
      ensures Chain()
      ensures queue == old(queue)[..i] + old(queue)[i + 1..]
      ensures order.level == null && order.prev == null && order.next == null
    {
      assert LinkedAt(i);
      if order.prev != null {
        order.prev.next := order.next;
      } else {
        head := order.next;
      }
      if order.next != null {
        order.next.prev := order.prev;
      } else {
        tail := order.prev;
      }
      order.level := null;
      order.prev := null;
      order.next := null;
      ghost var was := queue;
      queue := queue[..i] + queue[i + 1..];
      forall j | 0 <= j < |queue|
        ensures LinkedAt(j)
      {
        ghost var k := if j < i then j else j + 1;
        assert queue[j] == was[k] && old(LinkedAt(k));
        assert j > 0 ==> queue[j - 1] == was[if j - 1 < i then j - 1 else j];
        assert j < |queue| - 1 ==> queue[j + 1] == was[if j + 1 < i then j + 1 else j + 2];
      }
    }
  }
}
