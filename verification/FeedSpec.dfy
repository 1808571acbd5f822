/** The market-data feed as a fold of events over a book. */
module FeedSpec {

  import opened Types
  import opened BookSpec
  import opened EngineSpec

  datatype Event =
    | AddOrder(id: nat, account: nat, side: Side, price: nat, quantity: nat)
    | CancelOrder(id: nat, quantity: nat)
    | DeleteOrder(id: nat)
    | ExecuteOrder(id: nat, quantity: nat)
    | ReplaceOrder(id: nat, newId: nat, quantity: nat, price: nat)

  /** The book and, per level, the quantity that partial reductions took out of it. */
  datatype Feed = Feed(book: Book, bidReductions: seq<nat>, askReductions: seq<nat>)

  /** Before the first event, for so many levels. */
  function EmptyFeed(levels: nat): Feed {
    Feed(EMPTY, seq(levels, _ => 0), seq(levels, _ => 0))
  }

  /** Prices index the level array, 0 is reserved, and an added id must not rest already. */
  predicate Allowed(f: Feed, levels: nat, e: Event) {
    match e
    case AddOrder(id, _, _, price, _) => 0 < price < levels && id !in BookIds(f.book)
    case ReplaceOrder(_, _, _, price) => 0 < price < levels
    case _ => true
  }

  predicate CanReduce(b: Book, id: nat, quantity: nat) {
    id in BookIds(b) && 0 < quantity <= Get(b, id).quantity
  }

  predicate CanReplace(b: Book, id: nat, newId: nat, quantity: nat) {
    newId != 0 && quantity != 0 && newId != id && newId !in BookIds(b) && id in BookIds(b)
  }

  function ApplyReduction(f: Feed, id: nat, quantity: nat): Feed {
    Feed(if CanReduce(f.book, id, quantity) then Reduced(f.book, id, quantity) else f.book,
         ReductionsAfter(f.book, Buy, f.bidReductions, id, quantity),
         ReductionsAfter(f.book, Sell, f.askReductions, id, quantity))
  }

  /** What one event does; `capacity` orders fill the pool. */
  function Apply(f: Feed, capacity: nat, e: Event): Feed {
    match e
    case AddOrder(id, account, side, price, quantity) =>
      if Count(f.book) >= capacity then f
      else f.(book := AddTo(f.book, side, Resting(id, account, price, quantity)))
    case CancelOrder(id, quantity) => ApplyReduction(f, id, quantity)
    case ExecuteOrder(id, quantity) => ApplyReduction(f, id, quantity)
    case DeleteOrder(id) =>
      if id in BookIds(f.book) then f.(book := RemoveFrom(f.book, SideOf(f.book, id), id)) else f
    case ReplaceOrder(id, newId, quantity, price) =>
      if CanReplace(f.book, id, newId, quantity)
      then f.(book := Replaced(f.book, id, newId, quantity, price))
      else f
  }

  function Fold(f: Feed, capacity: nat, events: seq<Event>): Feed {
    if events == [] then f
    else Apply(Fold(f, capacity, events[..|events| - 1]), capacity, events[|events| - 1])
  }

  /** Every event of the sequence is allowed when its turn comes. */
  predicate AllAllowed(f: Feed, capacity: nat, levels: nat, events: seq<Event>) {
    forall i :: 0 <= i < |events| ==> Allowed(Fold(f, capacity, events[..i]), levels, events[i])
  }

  // ---- What every replay keeps ----

  predicate WellFormed(b: Book) {
    Sorted(Buy, b.bids) && Sorted(Sell, b.asks) && UniqueIds(b)
  }

  lemma AddToKeeps(b: Book, side: Side, o: Resting)
    requires WellFormed(b) && o.id !in BookIds(b)
    ensures WellFormed(AddTo(b, side, o))
    ensures Count(AddTo(b, side, o)) == Count(b) + 1
  {
    AddToIds(b, side, o);
    var k := InsertPosition(side, b.On(side), o);
  }

  lemma {:induction false} RemoveKeepsOrder(side: Side, q: Queue, id: nat)
    requires Sorted(side, q)
    ensures Sorted(side, Remove(q, id))
    ensures forall o :: o in Remove(q, id) ==> o in q
  {
    if q != [] && q[0].id != id {
      RemoveKeepsOrder(side, q[1..], id);
      var r := Remove(q[1..], id);
      forall j | 0 <= j < |r| ensures !Better(side, r[j].price, q[0].price) {
        assert r[j] in q[1..];
      }
    }
  }

  lemma RemoveFromKeeps(b: Book, id: nat)
    requires WellFormed(b) && id in BookIds(b)
    ensures WellFormed(RemoveFrom(b, SideOf(b, id), id))
    ensures BookIds(RemoveFrom(b, SideOf(b, id), id)) == BookIds(b) - {id}
    ensures Count(RemoveFrom(b, SideOf(b, id), id)) == Count(b) - 1
  {
    var side := SideOf(b, id);
    RemoveFromIds(b, side, id);
    RemoveKeepsOrder(side, b.On(side), id);
    RemoveIds(b.On(side), id);
  }

  lemma SetInKeeps(b: Book, side: Side, id: nat, quantity: nat)
    requires WellFormed(b)
    ensures WellFormed(SetIn(b, side, id, quantity)) && Count(SetIn(b, side, id, quantity)) == Count(b)
  {
    SetInIds(b, side, id, quantity);
    SetQuantityIds(b.On(side), id, quantity);
  }

  lemma ApplyKeeps(f: Feed, capacity: nat, levels: nat, e: Event)
    requires WellFormed(f.book) && Count(f.book) <= capacity && Allowed(f, levels, e)
    ensures WellFormed(Apply(f, capacity, e).book) && Count(Apply(f, capacity, e).book) <= capacity
  {
    match e
    case AddOrder(id, account, side, price, quantity) =>
      AddToKeeps(f.book, side, Resting(id, account, price, quantity));
    case CancelOrder(id, quantity) =>
      ReductionKeeps(f, id, quantity);
    case ExecuteOrder(id, quantity) =>
      ReductionKeeps(f, id, quantity);
    case DeleteOrder(id) =>
      if id in BookIds(f.book) {
        RemoveFromKeeps(f.book, id);
      }
    case ReplaceOrder(id, newId, quantity, price) =>
      if CanReplace(f.book, id, newId, quantity) {
        RemoveFromKeeps(f.book, id);
        AddToKeeps(RemoveFrom(f.book, SideOf(f.book, id), id), SideOf(f.book, id),
                   Resting(newId, Get(f.book, id).account, price, quantity));
      }
  }

  lemma ReductionKeeps(f: Feed, id: nat, quantity: nat)
    requires WellFormed(f.book)
    ensures WellFormed(ApplyReduction(f, id, quantity).book)
    ensures Count(ApplyReduction(f, id, quantity).book) <= Count(f.book)
  {
    if CanReduce(f.book, id, quantity) {
      if quantity == Get(f.book, id).quantity {
        RemoveFromKeeps(f.book, id);
      } else {
        SetInKeeps(f.book, SideOf(f.book, id), id, Get(f.book, id).quantity - quantity);
      }
    }
  }

  /** In every replay both sides stay in priority order, ids stay unique and the pool is not exceeded. */
  lemma {:induction false} ReplayKeeps(f: Feed, capacity: nat, levels: nat, events: seq<Event>)
    requires WellFormed(f.book) && Count(f.book) <= capacity && AllAllowed(f, capacity, levels, events)
    ensures WellFormed(Fold(f, capacity, events).book) && Count(Fold(f, capacity, events).book) <= capacity
  {
    if events != [] {
      var n := |events| - 1;
      assert forall i :: 0 <= i < n ==> events[..n][..i] == events[..i];
      ReplayKeeps(f, capacity, levels, events[..n]);
      ApplyKeeps(Fold(f, capacity, events[..n]), capacity, levels, events[n]);
    }
  }

  /** Deleting an order that was just added restores the book. */
  lemma AddThenDelete(f: Feed, capacity: nat, levels: nat, e: Event)
    requires WellFormed(f.book) && Count(f.book) < capacity && e.AddOrder? && Allowed(f, levels, e)
    ensures Apply(Apply(f, capacity, e), capacity, DeleteOrder(e.id)) == f
  {
    var o := Resting(e.id, e.account, e.price, e.quantity);
    var b := AddTo(f.book, e.side, o);
    AddToIds(f.book, e.side, o);
    InsertIds(e.side, f.book.On(e.side), o);
    RemoveInserted(e.side, f.book.On(e.side), o);
    assert SideOf(b, e.id) == e.side;
  }

  lemma {:induction false} RemoveInserted(side: Side, q: Queue, o: Resting)
    requires o.id !in Ids(q)
    ensures Remove(Insert(side, q, o), o.id) == q
  {
    if q == [] || Better(side, o.price, q[0].price) {
    } else {
      HeadIds(q);
      RemoveInserted(side, q[1..], o);
      assert Insert(side, q, o)[1..] == Insert(side, q[1..], o);
    }
  }

  /** Reducing in two steps is reducing once by the sum: a partial reduction keeps the order's place. */
  lemma TwoReductions(b: Book, id: nat, first: nat, second: nat)
    requires WellFormed(b) && id in BookIds(b) && 0 < first && 0 < second && first + second <= Get(b, id).quantity
    ensures CanReduce(Reduced(b, id, first), id, second)
    ensures Reduced(Reduced(b, id, first), id, second) == Reduced(b, id, first + second)
  {
    hide SetQuantity, Remove, Find, Ids, DistinctIds;
    var side := SideOf(b, id);
    var n := Get(b, id).quantity - first;
    var b' := SetIn(b, side, id, n);
    assert Reduced(b, id, first) == b';
    SetQuantityIds(b.On(side), id, n);
    assert SideOf(b', id) == side;
    SetTwice(b.On(side), id, n, n - second);
    assert Get(b', id).quantity == n;
  }

  lemma {:induction false} SetTwice(q: Queue, id: nat, n: nat, m: nat)
    requires id in Ids(q) && DistinctIds(q)
    ensures Find(SetQuantity(q, id, n), id) == Some(Find(q, id).value.(quantity := n))
    ensures SetQuantity(SetQuantity(q, id, n), id, m) == SetQuantity(q, id, m)
    ensures Remove(SetQuantity(q, id, n), id) == Remove(q, id)
  {
    HeadIds(q);
    var r := SetQuantity(q, id, n);
    if q[0].id != id {
      SetTwice(q[1..], id, n, m);
      assert r[1..] == SetQuantity(q[1..], id, n);
    } else {
      assert r[1..] == q[1..];
    }
  }

  // ---- What each event means, by position ----

  /** In the queue of this side, the order at position k has this id. */
  predicate RestsAt(b: Book, side: Side, k: nat, id: nat) {
    k < |b.On(side)| && b.On(side)[k].id == id
  }

  function Without(q: Queue, k: nat): Queue
    requires k < |q|
  {
    q[..k] + q[k + 1..]
  }

  lemma FoundAt(b: Book, side: Side, k: nat, id: nat)
    requires UniqueIds(b) && RestsAt(b, side, k, id)
    ensures id in BookIds(b) && SideOf(b, id) == side && Get(b, id) == b.On(side)[k]
  {
    GetOwn(b, side, b.On(side)[k]);
  }

  lemma {:induction false} RemoveAt(q: Queue, k: nat)
    requires DistinctIds(q) && k < |q|
    ensures Remove(q, q[k].id) == Without(q, k)
  {
    if k > 0 {
      RemoveAt(q[1..], k - 1);
      assert q[1..][..k - 1] == q[1..k] && q[1..][k..] == q[k + 1..];
    }
  }

  lemma {:induction false} SetAt(q: Queue, k: nat, n: nat)
    requires DistinctIds(q) && k < |q|
    ensures SetQuantity(q, q[k].id, n) == q[k := q[k].(quantity := n)]
  {
    var o := q[k].(quantity := n);
    if k == 0 {
      assert [o] + q[1..] == q[0 := o];
    } else {
      var t := q[1..];
      assert t[k - 1] == q[k] && q[0].id != q[k].id;
      SetAt(t, k - 1, n);
      assert [q[0]] + t[k - 1 := o] == q[k := o];
    }
  }

  /** A new order queues behind every order of its side whose price is as good; a full pool drops it. */
  lemma AddMeans(f: Feed, capacity: nat, id: nat, account: nat, side: Side, price: nat, quantity: nat) returns (j: nat)
    requires WellFormed(f.book)
    ensures var q, f' := f.book.On(side), Apply(f, capacity, AddOrder(id, account, side, price, quantity));
      && j <= |q|
      && (forall i :: 0 <= i < j ==> !Better(side, price, q[i].price))
      && (forall i :: j <= i < |q| ==> Better(side, price, q[i].price))
      && f' == (if |f.book.bids| + |f.book.asks| >= capacity then f
                else f.(book := f.book.With(side, q[..j] + [Resting(id, account, price, quantity)] + q[j..])))
  {
    hide Insert, Ids;
    j := InsertPosition(side, f.book.On(side), Resting(id, account, price, quantity));
  }

  function ReductionsOn(f: Feed, side: Side): seq<nat> {
    if side.Buy? then f.bidReductions else f.askReductions
  }

  /**
   What reducing the order at position k of a side leaves: a part keeps the place and is added up at the
   order's price on its side; all of it removes just that order and is not added up; 0 or too much is
   ignored.
   */
  predicate ReducedAt(f: Feed, side: Side, k: nat, amount: nat, f': Feed)
    requires k < |f.book.On(side)|
  {
    var q, r := f.book.On(side), ReductionsOn(f, side);
    && ReductionsOn(f', side.Opposite()) == ReductionsOn(f, side.Opposite())
    && (amount == 0 || amount > q[k].quantity ==> f' == f)
    && (0 < amount < q[k].quantity ==>
          && f'.book == f.book.With(side, q[k := q[k].(quantity := q[k].quantity - amount)])
          && ReductionsOn(f', side) ==
               if q[k].price < |r| then r[q[k].price := r[q[k].price] + amount] else r)
    && (0 < amount == q[k].quantity ==>
          f'.book == f.book.With(side, Without(q, k)) && ReductionsOn(f', side) == r)
  }

  /** Cancel and execute events reduce the order they name, wherever it rests. */
  lemma ReductionMeans(f: Feed, capacity: nat, side: Side, k: nat, id: nat, amount: nat)
    requires WellFormed(f.book) && RestsAt(f.book, side, k, id)
    ensures ReducedAt(f, side, k, amount, Apply(f, capacity, CancelOrder(id, amount)))
    ensures ReducedAt(f, side, k, amount, Apply(f, capacity, ExecuteOrder(id, amount)))
  {
    hide Remove, SetQuantity, Find, Ids;
    var q := f.book.On(side);
    FoundAt(f.book, side, k, id);
    RemoveAt(q, k);
    if amount <= q[k].quantity {
      SetAt(q, k, q[k].quantity - amount);
    }
  }

  lemma DeleteMeans(f: Feed, capacity: nat, side: Side, k: nat, id: nat)
    requires WellFormed(f.book) && RestsAt(f.book, side, k, id)
    ensures Apply(f, capacity, DeleteOrder(id)) == f.(book := f.book.With(side, Without(f.book.On(side), k)))
  {
    hide Remove, Find, Ids;
    FoundAt(f.book, side, k, id);
    RemoveAt(f.book.On(side), k);
  }

  /**
   A replacement leaves its place and queues behind every order of the same side whose price is as good
   as the new one, keeping side and account; with id or quantity 0, its own id or one that rests, it is
   refused.
   */
  lemma ReplaceMeans(f: Feed, capacity: nat, side: Side, k: nat, id: nat, newId: nat, quantity: nat, price: nat)
    returns (j: nat)
    requires WellFormed(f.book) && RestsAt(f.book, side, k, id)
    ensures var q, f' := Without(f.book.On(side), k), Apply(f, capacity, ReplaceOrder(id, newId, quantity, price));
      && j <= |q|
      && (forall i :: 0 <= i < j ==> !Better(side, price, q[i].price))
      && (forall i :: j <= i < |q| ==> Better(side, price, q[i].price))
      && f' == (if newId == 0 || quantity == 0 || newId in BookIds(f.book) then f
                else f.(book := f.book.With(side,
                  q[..j] + [Resting(newId, f.book.On(side)[k].account, price, quantity)] + q[j..])))
  {
    hide Remove, Find, BookIds, Insert, Ids;
    var o := Resting(newId, f.book.On(side)[k].account, price, quantity);
    FoundAt(f.book, side, k, id);
    RemoveAt(f.book.On(side), k);
    RemoveKeepsOrder(side, f.book.On(side), id);
    j := InsertPosition(side, Without(f.book.On(side), k), o);
  }

  /** An event about an id that does not rest changes nothing, unless it is an add. */
  lemma UnknownIdIsIgnored(f: Feed, capacity: nat, e: Event)
    requires !e.AddOrder? && e.id !in BookIds(f.book)
    ensures Apply(f, capacity, e) == f
  {
  }

  // ---- The partial reductions of a whole replay ----

  /** What a reduction of this id takes out of a queue at price p while leaving the order in it. */
  function PartTaken(q: Queue, id: nat, amount: nat, p: nat): nat {
    if q == [] then 0
    else if q[0].id == id then (if q[0].price == p && 0 < amount < q[0].quantity then amount else 0)
    else PartTaken(q[1..], id, amount, p)
  }

  /** What an event does so: only cancel and execute events do. */
  function PartTakenBy(q: Queue, e: Event, p: nat): nat {
    if e.CancelOrder? || e.ExecuteOrder? then PartTaken(q, e.id, e.quantity, p) else 0
  }

  /** All that partial reductions took out of one side at price p, event by event. */
  function PartsTaken(f: Feed, capacity: nat, events: seq<Event>, side: Side, p: nat): nat {
    if events == [] then 0
    else
      var n := |events| - 1;
      PartsTaken(f, capacity, events[..n], side, p) +
      PartTakenBy(Fold(f, capacity, events[..n]).book.On(side), events[n], p)
  }

  lemma {:induction false} PartTakenAt(q: Queue, k: nat, amount: nat, p: nat)
    requires DistinctIds(q) && k < |q|
    ensures PartTaken(q, q[k].id, amount, p) == if q[k].price == p && 0 < amount < q[k].quantity then amount else 0
  {
    if k > 0 {
      PartTakenAt(q[1..], k - 1, amount, p);
    }
  }

  lemma {:induction false} PartTakenElsewhere(q: Queue, id: nat, amount: nat, p: nat)
    requires id !in Ids(q)
    ensures PartTaken(q, id, amount, p) == 0
  {
    if q != [] {
      HeadIds(q);
      PartTakenElsewhere(q[1..], id, amount, p);
    }
  }

  lemma PlaceIn(q: Queue, id: nat) returns (k: nat)
    requires id in Ids(q)
    ensures k < |q| && q[k].id == id
  {
    k :| 0 <= k < |q| && q[k].id == id;
  }

  /** A reduction adds to the record of a side and price exactly what it takes out there. */
  lemma ReductionRecorded(f: Feed, id: nat, amount: nat, side: Side, p: nat)
    requires WellFormed(f.book) && p < |ReductionsOn(f, side)|
    ensures var f' := ApplyReduction(f, id, amount);
      && |ReductionsOn(f', side)| == |ReductionsOn(f, side)|
      && ReductionsOn(f', side)[p] == ReductionsOn(f, side)[p] + PartTaken(f.book.On(side), id, amount, p)
  {
    hide PartTaken, Find, Ids;
    if id in Ids(f.book.On(side)) {
      var k := PlaceIn(f.book.On(side), id);
      FoundAt(f.book, side, k, id);
      PartTakenAt(f.book.On(side), k, amount, p);
    } else {
      PartTakenElsewhere(f.book.On(side), id, amount, p);
      if id in BookIds(f.book) {
        assert id in Ids(f.book.On(side.Opposite()));
        var k := PlaceIn(f.book.On(side.Opposite()), id);
        FoundAt(f.book, side.Opposite(), k, id);
      }
    }
  }

  lemma EventRecorded(f: Feed, capacity: nat, e: Event, side: Side, p: nat)
    requires WellFormed(f.book) && p < |ReductionsOn(f, side)|
    ensures var f' := Apply(f, capacity, e);
      && |ReductionsOn(f', side)| == |ReductionsOn(f, side)|
      && ReductionsOn(f', side)[p] == ReductionsOn(f, side)[p] + PartTakenBy(f.book.On(side), e, p)
  {
    hide PartTaken, ApplyReduction, Ids, Find;
    if e.CancelOrder? || e.ExecuteOrder? {
      ReductionRecorded(f, e.id, e.quantity, side, p);
    }
  }

  /**
   After any replay the recorded reductions of every level are what the events took out of it in part,
   so a level's total can be told from the events and books alone.
   */
  lemma {:induction false} ReplayRecords(
    f: Feed, capacity: nat, levels: nat, events: seq<Event>, side: Side, p: nat)
    requires WellFormed(f.book) && Count(f.book) <= capacity && AllAllowed(f, capacity, levels, events)
    requires p < |ReductionsOn(f, side)|
    ensures var f' := Fold(f, capacity, events);
      && |ReductionsOn(f', side)| == |ReductionsOn(f, side)|
      && ReductionsOn(f', side)[p] == ReductionsOn(f, side)[p] + PartsTaken(f, capacity, events, side, p)
  {
    hide WellFormed, Allowed, Apply, PartTakenBy;
    if events != [] {
      var n := |events| - 1;
      assert forall i :: 0 <= i < n ==> events[..n][..i] == events[..i];
      ReplayRecords(f, capacity, levels, events[..n], side, p);
      ReplayKeeps(f, capacity, levels, events[..n]);
      EventRecorded(Fold(f, capacity, events[..n]), capacity, events[n], side, p);
    }
  }
}
