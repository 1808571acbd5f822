/**
 One side of the array order book: the levels indexed by price, the bitmap of non-empty levels and
 the cached best price.
 */
module BookSides {

  import opened Types
  import opened BookSpec
  import opened Levels
  import opened PriceLevels
  import B = Bitmap
  import Bits

  /** `best` is the best price with a resting order, or 0 when there is none. */
  predicate BestOf(side: Side, contents: seq<Queue>, best: nat) {
    if best == 0
    then forall p :: 0 <= p < |contents| ==> contents[p] == []
    else
      && best < |contents|
      && contents[best] != []
      && forall p :: 0 <= p < |contents| && Better(side, p, best) ==> contents[p] == []
  }

  /** A bit is set exactly when its level holds an order. */
  predicate Marks(words: seq<bv64>, contents: seq<Queue>) {
    && Bits.WORD * |words| >= |contents|
    && forall p :: 0 <= p < Bits.WORD * |words| ==> (B.Active(words, p) <==> p < |contents| && contents[p] != [])
  }

  /** Marking a newly used level. */
  lemma MarksAdded(words: seq<bv64>, words': seq<bv64>, contents: seq<Queue>, p: nat, l: Queue)
    requires Marks(words, contents) && p < |contents| && l != [] && |words'| == |words|
    requires forall q :: 0 <= q < Bits.WORD * |words| ==>
      (B.Active(words', q) <==> q == p || B.Active(words, q))
    ensures Marks(words', contents[p := l])
  {
    hide B.Active;
  }

  lemma MarksKept(words: seq<bv64>, contents: seq<Queue>, p: nat, l: Queue)
    requires Marks(words, contents) && p < |contents| && contents[p] != [] && l != []
    ensures Marks(words, contents[p := l])
  {
    hide B.Active;
  }

  lemma MarksRemoved(words: seq<bv64>, words': seq<bv64>, contents: seq<Queue>, p: nat)
    requires Marks(words, contents) && p < |contents| && |words'| == |words|
    requires forall q :: 0 <= q < Bits.WORD * |words| ==>
      (B.Active(words', q) <==> q != p && B.Active(words, q))
    ensures Marks(words', contents[p := []])
  {
    hide B.Active;
  }

  lemma BestAdded(side: Side, contents: seq<Queue>, best: nat, p: nat, l: Queue)
    requires BestOf(side, contents, best) && 0 < p < |contents| && l != []
    ensures BestOf(side, contents[p := l], if best == 0 || Better(side, p, best) then p else best)
  {
  }

  lemma BestKept(side: Side, contents: seq<Queue>, best: nat, p: nat, l: Queue)
    requires BestOf(side, contents, best) && p < |contents| && contents[p] != []
    requires l != [] || p != best
    ensures BestOf(side, contents[p := l], best)
  {
  }

  /** Below an emptied best bid, the linear scan finds the next best price. */
  lemma BestBidRefreshed(words: seq<bv64>, contents: seq<Queue>, best: nat)
    requires Marks(words, contents) && 0 < best < |contents| && contents[0] == []
    requires forall p :: 0 <= p < |contents| && p >= best ==> contents[p] == []
    ensures BestOf(Buy, contents, B.LinearDown(words, best - 1))
  {
    hide B.Active;
    B.LinearDownMeans(words, best - 1);
    var r := B.LinearDown(words, best - 1);
    forall p | 0 <= p < |contents| && p > r ensures contents[p] == [] {
      assert p < best ==> !B.Active(words, p);
    }
  }

  /** Above an emptied best ask, the linear scan finds the next best price. */
  lemma BestAskRefreshed(words: seq<bv64>, contents: seq<Queue>, best: nat)
    requires Marks(words, contents) && 0 < best < |contents|
    requires forall p :: 0 <= p < |contents| && p <= best ==> contents[p] == []
    ensures BestOf(Sell, contents, B.LinearUp(words, best + 1))
  {
    hide B.Active;
    B.LinearUpMeans(words, best + 1);
    var r := B.LinearUp(words, best + 1);
    forall p | 0 <= p < |contents| && (r == 0 || p < r) ensures contents[p] == [] {
      assert p > best ==> !B.Active(words, p);
    }
  }

  lemma OtherStays<T>(s: seq<T>, i: nat, o: T)
    requires i < |s| && o in s && s[i] != o
    ensures o in s[..i] + s[i + 1..]
  {
    var j :| 0 <= j < |s| && s[j] == o;
    assert (s[..i] + s[i + 1..])[if j < i then j else j - 1] == o;
  }

  lemma NoneMarked(words: seq<bv64>, contents: seq<Queue>)
    requires Bits.WORD * |words| >= |contents|
    requires forall k :: 0 <= k < |words| ==> words[k] == 0
    requires forall p :: 0 <= p < |contents| ==> contents[p] == []
    ensures Marks(words, contents)
  {
    hide Bits.Bit;
    forall p | 0 <= p < Bits.WORD * |words| ensures !B.Active(words, p) {
      Bits.ZeroIffClear(words[p / Bits.WORD]);
    }
  }

  lemma PlaceOf(order: Order, queue: seq<Order>) returns (i: nat)
    requires order in queue
    ensures i < |queue| && queue[i] == order
  {
    i :| 0 <= i < |queue| && queue[i] == order;
  }

  /** The level array of a new side, one level per price. */
  method EmptyLevels(side: Side, n: nat) returns (levels: seq<PriceLevel>)
    ensures |levels| == n && fresh(levels)
    ensures forall p :: 0 <= p < n ==>
      && levels[p].side == side && levels[p].slot == p
      && levels[p].queue == [] && levels[p].reduced == 0 && levels[p].Valid()
  {
    hide PriceLevel.Chain, PriceLevel.Accounted;
    levels := [];
    for p := 0 to n
      invariant |levels| == p && fresh(levels)
      invariant forall q :: 0 <= q < p ==>
        && levels[q].side == side && levels[q].slot == q
        && levels[q].queue == [] && levels[q].reduced == 0 && levels[q].Valid()
    {
      var level := new PriceLevel(side, p);
      levels := levels + [level];
    }
  }

  class BookSide {
    const side: Side
    const levels: seq<PriceLevel>
    const bitmap: array<bv64>
    var best: nat

    /** The linked orders. */
    ghost var orders: set<Order>
    /** The levels as values. */
    ghost var contents: seq<Queue>
    /** The partial reductions applied so far at each level. */
    ghost var reductions: seq<nat>

    /** Levels know their side and index, so they are distinct; the bitmap has a bit for each. */
    ghost predicate Shape() {
      && |levels| > 0
      && bitmap.Length == (|levels| + Bits.WORD - 1) / Bits.WORD
      && forall p :: 0 <= p < |levels| ==> levels[p].side == side && levels[p].slot == p
    }

    ghost predicate LevelAt(p: nat)
      requires p < |levels| && |contents| == |reductions| == |levels|
      reads this`orders, this`contents, this`reductions, levels, orders
    {
      && (forall i :: 0 <= i < |levels[p].queue| ==> levels[p].queue[i] in orders)
      && levels[p].Valid()
      && contents[p] == Values(levels[p].queue)
      && reductions[p] == levels[p].reduced
    }

    /** The levels hold exactly the linked orders, each in the queue of its price. */
    ghost predicate Linked()
      reads this`orders, this`contents, this`reductions, levels, orders
    {
      && Shape()
      && |contents| == |reductions| == |levels|
      && (forall p :: 0 <= p < |levels| ==> LevelAt(p))
      && (forall o :: o in orders ==> o.price < |levels| && o in levels[o.price].queue)
    }

    /** A level none of whose objects changed. */
    twostate lemma KeepsLevel(q: nat)
      requires q < |levels| && |contents| == |old(contents)| == |reductions| == |old(reductions)| == |levels|
      requires old(LevelAt(q))
      requires contents[q] == old(contents[q]) && reductions[q] == old(reductions[q])
      requires unchanged(levels[q])
      requires forall i :: 0 <= i < |levels[q].queue| ==> levels[q].queue[i] in orders && unchanged(levels[q].queue[i])
      ensures LevelAt(q)
    {
    }

    ghost predicate Valid()
      reads this, levels, orders, bitmap
    {
      && Linked()
      && contents[0] == []
      && Marks(bitmap[..], contents)
      && BestOf(side, contents, best)
    }

    /** The priority queue that this side represents. */
    ghost function Queue(): Queue
      reads this`contents
    {
      Flatten(side, contents, 0)
    }

    /** Every order is stored at the level of its price. */
    lemma OwnPrices()
      requires Linked()
      ensures AtOwnPrice(contents)
    {
      forall p, i | 0 <= p < |contents| && 0 <= i < |contents[p]| ensures contents[p][i].price == p {
        assert LevelAt(p);
      }
    }

    lemma OrderFacts(o: Order)
      requires Valid() && o in orders
      ensures o.side == side && 0 < o.price < |levels|
      ensures o.Value() in Queue()
    {
      hide Values, Marks, BestOf;
      assert LevelAt(o.price);
      var i := PlaceOf(o, levels[o.price].queue);
      FlattenMembers(side, contents, 0, o.Value());
      assert InLevel(side, contents, o.Value(), RankOf(side, |levels|, o.price));
    }

    constructor (side: Side, n: nat)
      requires n > 0
      ensures Valid() && this.side == side && |levels| == n
      ensures orders == {} && Queue() == [] && reductions == seq(n, _ => 0)
      ensures fresh(levels) && fresh(bitmap)
    {
      hide Values, B.Active;
      var empty := EmptyLevels(side, n);
      this.side := side;
      levels := empty;
      bitmap := new bv64[(n + Bits.WORD - 1) / Bits.WORD](_ => 0);
      best := 0;
      orders := {};
      contents := seq(n, _ => []);
      reductions := seq(n, _ => 0);
      new;
      NoneMarked(bitmap[..], contents);
      AllEmpty(side, contents, 0);
      forall p | 0 <= p < n ensures LevelAt(p) {
        assert Values(levels[p].queue) == [];
      }
    }

    /** A new order joins the priority queue. */
    method Add(order: Order)
      requires Valid() && order !in orders && order.side == side && 0 < order.price < |levels|
      modifies this`best, this`orders, this`contents, levels, bitmap
      modifies order`level, order`prev, order`next, orders`next
      ensures Valid() && orders == old(orders) + {order}
      ensures Queue() == Insert(side, old(Queue()), order.Value())
    {
      OwnPrices();
      FlattenInsert(side, contents, order.Value());
      hide *;
      Store(order);
    }

    /** A resting order leaves the priority queue. */
    method Remove(order: Order)
      requires Valid() && order in orders && DistinctIds(Queue())
      modifies this`best, this`orders, this`contents, levels, bitmap
      modifies order`level, order`prev, order`next, orders`next, orders`prev
      ensures Valid() && orders == old(orders) - {order}
      ensures Queue() == BookSpec.Remove(old(Queue()), order.id)
      ensures order.level == null && order.prev == null && order.next == null
    {
      assert |contents| == |levels|;
      hide Valid, Flatten;
      ghost var i := Discard(order);
      FlattenRemove(side, old(contents), order.price, i);
    }

    /** Part of a resting order is cancelled; it keeps its place. */
    method Reduce(order: Order, amount: nat)
      requires Valid() && order in orders && amount <= order.quantity && DistinctIds(Queue())
      modifies order`quantity, levels`reduced, this`contents, this`reductions
      ensures Valid() && order.quantity == old(order.quantity) - amount
      ensures Queue() == SetQuantity(old(Queue()), order.id, order.quantity)
      ensures order.price < |old(reductions)|
      ensures reductions == old(reductions)[order.price := old(reductions)[order.price] + amount]
    {
      assert |contents| == |levels|;
      hide Valid, Flatten;
      ghost var i := ReduceStored(order, amount);
      FlattenSetQuantity(side, old(contents), order.price, i, order.quantity);
    }

    /** Part of a resting order is executed; it keeps its place. */
    method Fill(order: Order, amount: nat)
      requires Valid() && order in orders && amount <= order.quantity && DistinctIds(Queue())
      modifies order`quantity, levels`totalQuantity, this`contents
      ensures Valid() && order.quantity == old(order.quantity) - amount
      ensures Queue() == SetQuantity(old(Queue()), order.id, order.quantity)
    {
      assert |contents| == |levels|;
      hide Valid, Flatten;
      ghost var i := FillStored(order, amount);
      FlattenSetQuantity(side, old(contents), order.price, i, order.quantity);
    }

    /** A level's total is what rests there plus its partial reductions, in 32-bit arithmetic. */
    lemma LevelTotal(p: nat)
      requires Valid() && p < |levels|
      ensures p < |reductions|
      ensures levels[p].totalQuantity == (Total(AtPrice(Queue(), p)) + reductions[p]) % U32
    {
      hide Values, Marks, BestOf, Flatten, AtPrice;
      assert LevelAt(p);
      OwnPrices();
      LevelIsAtPrice(side, contents, p);
    }

    /** The front of the best level is the head of the priority queue. */
    lemma BestIsHead()
      requires Valid()
      ensures best < |levels|
      ensures best == 0 <==> Queue() == []
      ensures best > 0 ==>
        && levels[best].price == best == Queue()[0].price
        && levels[best].head != null
        && levels[best].head in orders
        && levels[best].head.Value() == Queue()[0]
    {
      hide Values, Marks, Flatten;
      if best == 0 {
        AllEmpty(side, contents, 0);
      } else {
        assert LevelAt(best);
        FrontLevel(side, contents, best);
      }
    }

    method Store(order: Order)
      requires Valid() && order !in orders && order.side == side && 0 < order.price < |levels|
      modifies this`best, this`orders, this`contents, levels, bitmap
      modifies order`level, order`prev, order`next, orders`next
      ensures Valid() && orders == old(orders) + {order}
      ensures contents == old(contents)[order.price := old(contents[order.price]) + [order.Value()]]
    {
      hide Marks, BestOf, Linked;
      var p := order.price;
      LevelEmptiness(p);
      ghost var l := contents[p] + [order.Value()];
      BestAdded(side, contents, best, p, l);
      Activate(p, l);
      Link(order);
      if best == 0 || Better(side, p, best) {
        best := p;
      }
    }

    lemma LevelEmptiness(p: nat)
      requires Linked() && p < |levels|
      ensures Shape() && |contents| == |levels|
      ensures levels[p].Empty() <==> contents[p] == []
    {
      assert LevelAt(p);
    }

    /** Sets the bit of a level about to receive its first order. */
    method Activate(p: nat, ghost l: Queue)
      requires Shape() && Marks(bitmap[..], contents) && p < |levels| == |contents| && l != []
      requires levels[p].Empty() <==> contents[p] == []
      modifies bitmap
      ensures Marks(bitmap[..], contents[p := l])
    {
      hide B.Active, Marks;
      ghost var words := bitmap[..];
      if levels[p].Empty() {
        B.SetLevelActive(bitmap, p);
        MarksAdded(words, bitmap[..], contents, p, l);
      } else {
        MarksKept(words, contents, p, l);
      }
    }

    /** Links an order last in the level of its price. */
    method Link(order: Order)
      requires Linked() && order !in orders && order.side == side && 0 < order.price < |levels|
      modifies this`orders, this`contents, levels
      modifies order`level, order`prev, order`next, orders`next
      ensures Linked() && orders == old(orders) + {order}
      ensures contents == old(contents)[order.price := old(contents[order.price]) + [order.Value()]]
    {
      hide Values;
      var p := order.price;
      var level := levels[p];
      assert LevelAt(p);
      level.Append(order);
      orders := orders + {order};
      contents := contents[p := contents[p] + [order.Value()]];
      Appended(order);
    }

    twostate lemma Appended(order: Order)
      requires old(Linked()) && order !in old(orders) && order.side == side && 0 < order.price < |levels|
      requires order.price == old(order.price)
      requires orders == old(orders) + {order}
      requires contents == old(contents)[order.price := old(contents[order.price]) + [order.Value()]]
      requires levels[order.price].Valid()
      requires levels[order.price].queue == old(levels[order.price].queue) + [order]
      requires reductions == old(reductions) && levels[order.price].reduced == old(levels[order.price].reduced)
      requires Values(levels[order.price].queue) == contents[order.price]
      requires forall q :: 0 <= q < |levels| && q != order.price ==> unchanged(levels[q])
      requires forall o :: o in old(orders) ==> o.price == old(o.price)
      requires forall o :: o in old(orders) && o !in old(levels[order.price].queue) ==> unchanged(o)
      ensures Linked()
    {
      hide Values;
      var p := order.price;
      assert old(LevelAt(p));
      forall q | 0 <= q < |levels|
        ensures LevelAt(q)
      {
        if q != p {
          assert old(LevelAt(q));
          KeepsLevel(q);
        }
      }
      hide LevelAt;
      forall o | o in orders
        ensures o.price < |levels| && o in levels[o.price].queue
      {
        assert o != order ==> o in old(levels[o.price].queue);
      }
    }

    method Discard(order: Order) returns (ghost i: nat)
      requires Valid() && order in orders
      modifies this`best, this`orders, this`contents, levels, bitmap
      modifies order`level, order`prev, order`next, orders`next, orders`prev
      ensures Valid() && orders == old(orders) - {order}
      ensures order.price < |levels| && i < |old(contents)[order.price]|
      ensures old(contents)[order.price][i] == order.Value()
      ensures contents == old(contents)[order.price :=
        old(contents)[order.price][..i] + old(contents)[order.price][i + 1..]]
      ensures order.level == null && order.prev == null && order.next == null
    {
      hide Marks, BestOf, Values;
      var p := order.price;
      i := Unlink(order);
      Deactivate(p, old(contents));
    }

    /** Takes an order out of the level of its price. */
    method Unlink(order: Order) returns (ghost i: nat)
      requires Linked() && order in orders
      modifies this`orders, this`contents, levels
      modifies order`level, order`prev, order`next, orders`next, orders`prev
      ensures Linked() && orders == old(orders) - {order}
      ensures order.price < |levels| && i < |old(contents)[order.price]|
      ensures old(contents)[order.price][i] == order.Value()
      ensures contents == old(contents)[order.price :=
        old(contents)[order.price][..i] + old(contents)[order.price][i + 1..]]
      ensures levels[order.price].Empty() <==> contents[order.price] == []
      ensures order.level == null && order.prev == null && order.next == null
    {
      hide Values, Linked, LevelAt;
      ghost var p := order.price;
      i := OrderPlace(order);
      var level: PriceLevel := order.level;
      level.Take(order, i);
      orders := orders - {order};
      contents := contents[p := contents[p][..i] + contents[p][i + 1..]];
      Taken(order, i);
      LevelEmptiness(p);
    }

    /** Where a linked order is: in its level, at its place. */
    lemma OrderPlace(order: Order) returns (i: nat)
      requires Linked() && order in orders
      ensures |contents| == |reductions| == |levels| && order.price < |levels| && order.level == levels[order.price]
      ensures var l := levels[order.price];
        && l.Valid() && i < |l.queue| && l.queue[i] == order && contents[order.price] == Values(l.queue)
        && i < |contents[order.price]| && contents[order.price][i] == order.Value()
        && (forall k :: 0 <= k < |l.queue| ==> l.queue[k] in orders)
      ensures forall p, q :: 0 <= p < q < |levels| ==> levels[p] != levels[q]
    {
      assert LevelAt(order.price);
      i := PlaceOf(order, levels[order.price].queue);
    }

    twostate lemma Taken(order: Order, new i: nat)
      requires old(Linked()) && order in old(orders) && order.price == old(order.price)
      requires orders == old(orders) - {order}
      requires order.price < |levels| && i < |old(levels[order.price].queue)| && i < |old(contents)[order.price]|
      requires contents ==
        old(contents)[order.price := old(contents)[order.price][..i] + old(contents)[order.price][i + 1..]]
      requires levels[order.price].Valid() && order !in levels[order.price].queue
      requires old(levels[order.price].queue[i]) == order
      requires reductions == old(reductions) && levels[order.price].reduced == old(levels[order.price].reduced)
      requires levels[order.price].queue ==
        old(levels[order.price].queue)[..i] + old(levels[order.price].queue)[i + 1..]
      requires Values(levels[order.price].queue) == contents[order.price]
      requires forall q :: 0 <= q < |levels| && q != order.price ==> unchanged(levels[q])
      requires forall o :: o in old(orders) ==> o.price == old(o.price)
      requires forall o :: o in old(orders) && o !in old(levels[order.price].queue) ==> unchanged(o)
      ensures Linked()
    {
      hide Values;
      var p := order.price;
      assert old(LevelAt(p));
      forall q | 0 <= q < |levels|
        ensures LevelAt(q)
      {
        if q != p {
          assert old(LevelAt(q));
          KeepsLevel(q);
        }
      }
      hide LevelAt;
      forall o | o in orders
        ensures o.price < |levels| && o in levels[o.price].queue
      {
        assert o in old(levels[o.price].queue);
        if o.price == p {
          OtherStays(old(levels[p].queue), i, o);
        }
      }
    }

    /** Clears the bit of an emptied level and looks for the next best price if it was the best. */
    method Deactivate(p: nat, ghost was: seq<Queue>)
      requires Shape() && Marks(bitmap[..], was) && BestOf(side, was, best)
      requires 0 < p < |levels| == |contents| == |was| && was[p] != [] && was[0] == []
      requires contents == was[p := contents[p]]
      requires levels[p].Empty() <==> contents[p] == []
      modifies bitmap, this`best
      ensures Marks(bitmap[..], contents) && BestOf(side, contents, best)
    {
      hide B.Active, Marks;
      ghost var words := bitmap[..];
      if levels[p].Empty() {
        B.ClearLevelActive(bitmap, p);
        MarksRemoved(words, bitmap[..], was, p);
        if p == best {
          RefreshBest();
        } else {
          BestKept(side, was, best, p, []);
        }
      } else {
        MarksKept(words, was, p, contents[p]);
        BestKept(side, was, best, p, contents[p]);
      }
    }

    /** Moves the cached best price past levels that have become empty. */
    method RefreshBest()
      requires Shape() && |contents| == |levels| && contents[0] == [] && Marks(bitmap[..], contents)
      requires best < |levels|
      requires forall q :: 0 <= q < |contents| && !Better(side, best, q) ==> contents[q] == []
      modifies this`best
      ensures old(best) > 0 ==> BestOf(side, contents, best)
      ensures best == if old(best) == 0 then 0
        else if side.Buy? then B.LinearDown(bitmap[..], old(best) - 1)
        else B.LinearUp(bitmap[..], old(best) + 1)
    {
      hide B.Active, Marks;
      if best == 0 {
        return;
      }
      if side.Buy? {
        BestBidRefreshed(bitmap[..], contents, best);
        best := B.NextBelow(bitmap, best);
      } else {
        BestAskRefreshed(bitmap[..], contents, best);
        best := B.NextAbove(bitmap, best);
      }
    }

    /** Cancels part of a resting order in place. */
    method ReduceStored(order: Order, amount: nat) returns (ghost i: nat)
      requires Valid() && order in orders && amount <= order.quantity
      modifies order`quantity, levels`reduced, this`contents, this`reductions
      ensures Valid() && order.quantity == old(order.quantity) - amount
      ensures order.price < |levels| && i < |old(contents)[order.price]|
      ensures old(contents)[order.price][i] == old(order.Value())
      ensures contents == old(contents)[order.price := old(contents)[order.price][i := order.Value()]]
      ensures order.price < |old(reductions)|
      ensures reductions == old(reductions)[order.price := old(reductions)[order.price] + amount]
    {
      hide Values, Marks, BestOf;
      ghost var p := order.price;
      assert LevelAt(p);
      i := PlaceOf(order, levels[p].queue);
      order.level.Reduce(order, i, amount);
      contents := contents[p := contents[p][i := order.Value()]];
      reductions := reductions[p := reductions[p] + amount];
      Requantified(order);
    }

    /** Executes part of a resting order in place. */
    method FillStored(order: Order, amount: nat) returns (ghost i: nat)
      requires Valid() && order in orders && amount <= order.quantity
      modifies order`quantity, levels`totalQuantity, this`contents
      ensures Valid() && order.quantity == old(order.quantity) - amount
      ensures order.price < |levels| && i < |old(contents)[order.price]|
      ensures old(contents)[order.price][i] == old(order.Value())
      ensures contents == old(contents)[order.price := old(contents)[order.price][i := order.Value()]]
    {
      hide Values, Marks, BestOf;
      ghost var p := order.price;
      assert LevelAt(p);
      i := PlaceOf(order, levels[p].queue);
      order.level.Fill(order, i, amount);
      contents := contents[p := contents[p][i := order.Value()]];
      Requantified(order);
    }

    /** A changed quantity in one level affects neither the other levels nor the marks. */
    twostate lemma Requantified(order: Order)
      requires old(Valid()) && order in orders && orders == old(orders)
      requires order.price == old(order.price) && order.price < |levels|
      requires |contents| == |levels| && contents == old(contents)[order.price := contents[order.price]]
      requires |contents[order.price]| == |old(contents)[order.price]|
      requires |reductions| == |levels| == |old(reductions)|
      requires reductions == old(reductions)[order.price := reductions[order.price]]
      requires reductions[order.price] == levels[order.price].reduced
      requires levels[order.price].Valid() && levels[order.price].queue == old(levels[order.price].queue)
      requires Values(levels[order.price].queue) == contents[order.price]
      requires forall q :: 0 <= q < |levels| && q != order.price ==> unchanged(levels[q])
      requires forall o :: o in orders && o != order ==> unchanged(o)
      requires best == old(best) && bitmap[..] == old(bitmap[..])
      ensures Valid()
    {
      hide Values, Marks;
      var p := order.price;
      assert old(LevelAt(p));
      forall q | 0 <= q < |levels|
        ensures LevelAt(q)
      {
        if q != p {
          assert old(LevelAt(q));
          KeepsLevel(q);
        }
      }
      assert order in old(levels[p].queue);
      MarksKept(bitmap[..], old(contents), p, contents[p]);
      BestKept(side, old(contents), best, p, contents[p]);
    }
  }
}
