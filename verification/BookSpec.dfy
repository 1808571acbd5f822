/**
 The order book as a reader thinks of it: one queue per side, in priority order. The first order
 of a queue is the next to trade; a better price comes first, and earlier arrival breaks ties.
 */
module BookSpec {

  import opened Types

  datatype Resting = Resting(id: nat, account: nat, price: nat, quantity: nat)

  type Queue = seq<Resting>

  datatype Book = Book(bids: Queue, asks: Queue) {
    function On(side: Side): Queue {
      if side.Buy? then bids else asks
    }

    function With(side: Side, q: Queue): Book {
      if side.Buy? then this.(bids := q) else this.(asks := q)
    }
  }

  const EMPTY := Book([], [])

  /** Price `p` has priority over price `q` on this side of the book. */
  predicate Better(side: Side, p: nat, q: nat) {
    if side.Buy? then p > q else p < q
  }

  /** An incoming order of this side and limit trades with a resting order at price `p`. */
  predicate Crosses(side: Side, limit: nat, p: nat) {
    if side.Buy? then limit >= p else limit <= p
  }

  predicate Sorted(side: Side, q: Queue) {
    forall i, j :: 0 <= i < j < |q| ==> !Better(side, q[j].price, q[i].price)
  }

  predicate Positive(q: Queue) {
    forall i :: 0 <= i < |q| ==> q[i].quantity > 0
  }

  predicate DistinctIds(q: Queue) {
    forall i, j :: 0 <= i < j < |q| ==> q[i].id != q[j].id
  }

  function Ids(q: Queue): set<nat> {
    set i | 0 <= i < |q| :: q[i].id
  }

  function Total(q: Queue): nat {
    if q == [] then 0 else q[0].quantity + Total(q[1..])
  }

  /** Arrival: behind every order whose price is at least as good, ahead of the rest. */
  function Insert(side: Side, q: Queue, o: Resting): Queue {
    if q == [] || Better(side, o.price, q[0].price) then [o] + q
    else [q[0]] + Insert(side, q[1..], o)
  }

  function Remove(q: Queue, id: nat): Queue {
    if q == [] then []
    else if q[0].id == id then q[1..]
    else [q[0]] + Remove(q[1..], id)
  }

  /** A change of quantity keeps the order's place in the queue. */
  function SetQuantity(q: Queue, id: nat, quantity: nat): Queue {
    if q == [] then []
    else if q[0].id == id then [q[0].(quantity := quantity)] + q[1..]
    else [q[0]] + SetQuantity(q[1..], id, quantity)
  }

  function Find(q: Queue, id: nat): (r: Option<Resting>)
    ensures r.Some? ==> r.value in q && r.value.id == id
    ensures r.None? <==> id !in Ids(q)
  {
    if q == [] then None
    else if q[0].id == id then Some(q[0])
    else
      var r := Find(q[1..], id);
      assert forall i :: 0 < i < |q| ==> q[i] == q[1..][i - 1];
      assert forall i :: 0 <= i < |q[1..]| ==> q[1..][i].id in Ids(q[1..]);
      r
  }

  // ---- Matching an incoming order against the opposite queue ----

  datatype Fill = Fill(resting: Resting, quantity: nat)

  datatype Matched = Matched(fills: seq<Fill>, rest: Queue, left: nat)

  /**
   The match loop: while quantity is left and the head of the opposite queue crosses, trade the
   smaller of the two quantities with the head. A head of quantity 0 yields an empty fill, leaves
   the queue and ends the loop.
   */
  function Match(side: Side, limit: nat, quantity: nat, q: Queue): Matched
    decreases |q|
  {
    if quantity == 0 || q == [] || !Crosses(side, limit, q[0].price) then
      Matched([], q, quantity)
    else if q[0].quantity == 0 then
      Matched([Fill(q[0], 0)], q[1..], quantity)
    else if quantity < q[0].quantity then
      Matched([Fill(q[0], quantity)], [q[0].(quantity := q[0].quantity - quantity)] + q[1..], 0)
    else
      var r := Match(side, limit, quantity - q[0].quantity, q[1..]);
      Matched([Fill(q[0], q[0].quantity)] + r.fills, r.rest, r.left)
  }

  function Traded(fills: seq<Fill>): nat {
    if fills == [] then 0 else fills[0].quantity + Traded(fills[1..])
  }

  function Min(a: int, b: int): int {
    if a < b then a else b
  }

  /** The quantity resting in the first `n` orders. */
  function Depth(q: Queue, n: nat): nat
    requires n <= |q|
  {
    if n == 0 then 0 else q[0].quantity + Depth(q[1..], n - 1)
  }

  /** The fill of the i-th order: what the orders ahead of it left, up to what it holds. */
  predicate FillAt(side: Side, limit: nat, quantity: nat, q: Queue, f: Fill, i: nat)
    requires i < |q|
  {
    && Crosses(side, limit, q[i].price)
    && Depth(q, i) < quantity
    && f == Fill(q[i], Min(q[i].quantity, quantity - Depth(q, i)))
  }

  /**
   Price-time priority, stated without the loop: the fills touch a prefix of the queue, each takes
   what the earlier ones left, and the prefix ends because the incoming order or the crossing part
   of the queue is used up. Only the last touched order can keep a remainder.
   */
  ghost predicate PriceTimePriority(side: Side, limit: nat, quantity: nat, q: Queue, r: Matched) {
    var n := |r.fills|;
    && PriorityFills(side, limit, quantity, q, r)
    && (n < |q| ==> Depth(q, n) >= quantity || !Crosses(side, limit, q[n].price))
  }

  /** The first fills of a queue in priority order, what they leave of it, and what they leave to fill. */
  ghost predicate PriorityFills(side: Side, limit: nat, quantity: nat, q: Queue, r: Matched) {
    var n := |r.fills|;
    && n <= |q|
    && (forall i :: 0 <= i < n ==> FillAt(side, limit, quantity, q, r.fills[i], i))
    && (if Depth(q, n) <= quantity
        then r.left == quantity - Depth(q, n) && r.rest == q[n..]
        else
          && r.left == 0
          && n > 0
          && r.rest == [q[n - 1].(quantity := Depth(q, n) - quantity)] + q[n..])
  }

  /** On a queue of positive quantities the loop produces exactly the price-time-priority outcome. */
  lemma {:induction false} MatchIsPriceTimePriority(side: Side, limit: nat, quantity: nat, q: Queue)
    requires Positive(q)
    ensures PriceTimePriority(side, limit, quantity, q, Match(side, limit, quantity, q))
  {
    if quantity == 0 || q == [] || !Crosses(side, limit, q[0].price) {
    } else if quantity < q[0].quantity {
      assert Depth(q, 1) == q[0].quantity + Depth(q[1..], 0);
    } else {
      var s := Match(side, limit, quantity - q[0].quantity, q[1..]);
      MatchIsPriceTimePriority(side, limit, quantity - q[0].quantity, q[1..]);
      PriorityOfHead(side, limit, quantity, q, s);
    }
  }

  /** A fully filled head followed by a price-time-priority outcome of the tail is one of the queue. */
  lemma PriorityOfHead(side: Side, limit: nat, quantity: nat, q: Queue, s: Matched)
    requires q != [] && 0 < q[0].quantity <= quantity && Crosses(side, limit, q[0].price)
    requires PriceTimePriority(side, limit, quantity - q[0].quantity, q[1..], s)
    ensures PriceTimePriority(side, limit, quantity, q, Matched([Fill(q[0], q[0].quantity)] + s.fills, s.rest, s.left))
  {
    FillsOfHead(side, limit, quantity, q, s);
    assert Depth(q, |s.fills| + 1) == q[0].quantity + Depth(q[1..], |s.fills|);
  }

  lemma FillsOfHead(side: Side, limit: nat, quantity: nat, q: Queue, s: Matched)
    requires q != [] && 0 < q[0].quantity <= quantity && Crosses(side, limit, q[0].price)
    requires PriorityFills(side, limit, quantity - q[0].quantity, q[1..], s)
    ensures PriorityFills(side, limit, quantity, q, Matched([Fill(q[0], q[0].quantity)] + s.fills, s.rest, s.left))
    ensures Depth(q, |s.fills| + 1) == q[0].quantity + Depth(q[1..], |s.fills|)
  {
    var fills, t, n := [Fill(q[0], q[0].quantity)] + s.fills, q[1..], |s.fills|;
    forall i | 0 <= i < |fills|
      ensures FillAt(side, limit, quantity, q, fills[i], i)
    {
      if i > 0 {
        FillBehindHead(side, limit, quantity, q, s.fills[i - 1], i - 1);
      }
    }
    assert Depth(q, n + 1) == q[0].quantity + Depth(t, n);
    assert q[n + 1..] == t[n..];
  }

  lemma FillBehindHead(side: Side, limit: nat, quantity: nat, q: Queue, f: Fill, i: nat)
    requires q != [] && q[0].quantity <= quantity && i < |q| - 1
    ensures FillAt(side, limit, quantity, q, f, i + 1)
       <==> FillAt(side, limit, quantity - q[0].quantity, q[1..], f, i)
  {
  }

  /** Price-time priority determines the outcome: there is only one. */
  lemma PriceTimePriorityIsUnique(side: Side, limit: nat, quantity: nat, q: Queue, r: Matched, s: Matched)
    requires PriceTimePriority(side, limit, quantity, q, r)
    requires PriceTimePriority(side, limit, quantity, q, s)
    ensures r == s
  {
    if s.fills != [] {
      NoShorterOutcome(side, limit, quantity, q, r, s, |s.fills| - 1);
    }
    if r.fills != [] {
      NoShorterOutcome(side, limit, quantity, q, s, r, |r.fills| - 1);
    }
    forall i | 0 <= i < |r.fills|
      ensures r.fills[i] == s.fills[i]
    {
      assert FillAt(side, limit, quantity, q, r.fills[i], i);
      assert FillAt(side, limit, quantity, q, s.fills[i], i);
    }
  }

  lemma {:induction false} NoShorterOutcome(
    side: Side, limit: nat, quantity: nat, q: Queue, r: Matched, s: Matched, i: nat)
    requires PriceTimePriority(side, limit, quantity, q, r)
    requires PriceTimePriority(side, limit, quantity, q, s)
    requires i < |s.fills|
    ensures i < |r.fills|
  {
    if i > 0 {
      NoShorterOutcome(side, limit, quantity, q, r, s, i - 1);
    }
    assert FillAt(side, limit, quantity, q, s.fills[i], i);
  }

  // ---- Every queue, orders of quantity 0 included ----

  /**
   What the loop does on any queue, stated without it: fills in priority order that end because the
   order or the crossing part of the queue is used up, or else right after the first order of quantity 0.
   */
  ghost predicate LoopOutcome(side: Side, limit: nat, quantity: nat, q: Queue, r: Matched) {
    var n := |r.fills|;
    && PriorityFills(side, limit, quantity, q, r)
    && (forall i :: 0 <= i < n - 1 ==> q[i].quantity > 0)
    && (n < |q| ==>
          Depth(q, n) >= quantity || !Crosses(side, limit, q[n].price) || (n > 0 && q[n - 1].quantity == 0))
  }

  lemma {:induction false} MatchIsLoopOutcome(side: Side, limit: nat, quantity: nat, q: Queue)
    ensures LoopOutcome(side, limit, quantity, q, Match(side, limit, quantity, q))
  {
    if quantity == 0 || q == [] || !Crosses(side, limit, q[0].price) {
    } else if q[0].quantity == 0 || quantity < q[0].quantity {
      assert Depth(q, 1) == q[0].quantity + Depth(q[1..], 0);
    } else {
      var s := Match(side, limit, quantity - q[0].quantity, q[1..]);
      MatchIsLoopOutcome(side, limit, quantity - q[0].quantity, q[1..]);
      LoopOutcomeOfHead(side, limit, quantity, q, s);
    }
  }

  lemma LoopOutcomeOfHead(side: Side, limit: nat, quantity: nat, q: Queue, s: Matched)
    requires q != [] && 0 < q[0].quantity <= quantity && Crosses(side, limit, q[0].price)
    requires LoopOutcome(side, limit, quantity - q[0].quantity, q[1..], s)
    ensures LoopOutcome(side, limit, quantity, q, Matched([Fill(q[0], q[0].quantity)] + s.fills, s.rest, s.left))
  {
    hide FillAt, Depth;
    FillsOfHead(side, limit, quantity, q, s);
    assert forall i :: 0 < i < |s.fills| ==> q[i] == q[1..][i - 1];
  }

  lemma LoopOutcomeIsUnique(side: Side, limit: nat, quantity: nat, q: Queue, r: Matched, s: Matched)
    requires LoopOutcome(side, limit, quantity, q, r)
    requires LoopOutcome(side, limit, quantity, q, s)
    ensures r == s
  {
    if s.fills != [] {
      NoEarlierStop(side, limit, quantity, q, r, s, |s.fills| - 1);
    }
    if r.fills != [] {
      NoEarlierStop(side, limit, quantity, q, s, r, |r.fills| - 1);
    }
    forall i | 0 <= i < |r.fills| ensures r.fills[i] == s.fills[i] {
      assert FillAt(side, limit, quantity, q, r.fills[i], i);
      assert FillAt(side, limit, quantity, q, s.fills[i], i);
    }
  }

  lemma {:induction false} NoEarlierStop(
    side: Side, limit: nat, quantity: nat, q: Queue, r: Matched, s: Matched, i: nat)
    requires LoopOutcome(side, limit, quantity, q, r)
    requires LoopOutcome(side, limit, quantity, q, s)
    requires i < |s.fills|
    ensures i < |r.fills|
  {
    if i > 0 {
      NoEarlierStop(side, limit, quantity, q, r, s, i - 1);
    }
    assert FillAt(side, limit, quantity, q, s.fills[i], i);
  }

  /** The loop's outcome is the price-time-priority one if and only if it does not stall. */
  lemma PriceTimePriorityIff(side: Side, limit: nat, quantity: nat, q: Queue)
    requires Sorted(side.Opposite(), q)
    ensures PriceTimePriority(side, limit, quantity, q, Match(side, limit, quantity, q))
       <==> !Stalls(side, limit, quantity, q)
  {
    var r := Match(side, limit, quantity, q);
    var n := |r.fills|;
    MatchIsLoopOutcome(side, limit, quantity, q);
    CrossingRemainder(side, limit, quantity, q);
    assert Depth(q, n) <= quantity ==> r.rest == q[n..];
  }

  // ---- Consequences used by the engine ----

  /** Nothing is created or lost: what trades leaves both the incoming order and the queue. */
  lemma {:induction false} MatchConserves(side: Side, limit: nat, quantity: nat, q: Queue)
    ensures var r := Match(side, limit, quantity, q);
      && quantity == r.left + Traded(r.fills)
      && Total(q) == Total(r.rest) + Traded(r.fills)
  {
    if quantity == 0 || q == [] || !Crosses(side, limit, q[0].price) {
    } else if q[0].quantity == 0 || quantity < q[0].quantity {
      TradedOne(Match(side, limit, quantity, q).fills[0]);
    } else {
      MatchConserves(side, limit, quantity - q[0].quantity, q[1..]);
      var r := Match(side, limit, quantity - q[0].quantity, q[1..]);
      assert ([Fill(q[0], q[0].quantity)] + r.fills)[1..] == r.fills;
    }
  }

  lemma TradedOne(f: Fill)
    ensures Traded([f]) == f.quantity
  {
    assert [f][1..] == [];
  }

  /** Fills print at the resting price, which crosses the incoming limit. */
  lemma {:induction false} FillsCross(side: Side, limit: nat, quantity: nat, q: Queue)
    ensures forall i :: 0 <= i < |Match(side, limit, quantity, q).fills| ==>
      var f := Match(side, limit, quantity, q).fills[i];
      i < |q| && f.resting == q[i] && Crosses(side, limit, f.resting.price) && f.quantity <= f.resting.quantity
  {
    if quantity == 0 || q == [] || !Crosses(side, limit, q[0].price) || q[0].quantity == 0 || quantity < q[0].quantity {
    } else {
      FillsCross(side, limit, quantity - q[0].quantity, q[1..]);
    }
  }

  /** `rest` is a suffix of the queue, its head possibly reduced. */
  predicate SuffixOf(rest: Queue, q: Queue) {
    && |rest| <= |q|
    && (forall i :: 1 <= i < |rest| ==> rest[i] == q[|q| - |rest| + i])
    && (rest != [] ==> rest[0] == q[|q| - |rest|].(quantity := rest[0].quantity))
  }

  lemma SuffixOfTail(rest: Queue, q: Queue)
    requires q != [] && SuffixOf(rest, q[1..])
    ensures SuffixOf(rest, q)
  {
  }

  /** What rests afterwards is a suffix of the queue; each fill but one removes an order. */
  lemma {:induction false} RestIsSuffix(side: Side, limit: nat, quantity: nat, q: Queue)
    ensures var r := Match(side, limit, quantity, q);
      SuffixOf(r.rest, q) && |r.fills| + |r.rest| <= |q| + (if r.left == 0 then 1 else 0)
  {
    if quantity == 0 || q == [] || !Crosses(side, limit, q[0].price) || q[0].quantity == 0 || quantity < q[0].quantity {
    } else {
      RestIsSuffix(side, limit, quantity - q[0].quantity, q[1..]);
      SuffixOfTail(Match(side, limit, quantity - q[0].quantity, q[1..]).rest, q);
    }
  }

  lemma {:induction false} RestIsPositive(side: Side, limit: nat, quantity: nat, q: Queue)
    requires Positive(q)
    ensures Positive(Match(side, limit, quantity, q).rest)
  {
    if !(quantity == 0 || q == [] || !Crosses(side, limit, q[0].price) || quantity < q[0].quantity) {
      RestIsPositive(side, limit, quantity - q[0].quantity, q[1..]);
    }
  }

  /**
   The loop stops early at a resting order of quantity 0 that is reached with quantity left, while
   the order behind it still crosses.
   */
  ghost predicate Stalls(side: Side, limit: nat, quantity: nat, q: Queue) {
    exists k :: 0 <= k < |q| - 1 && StallsAt(side, limit, quantity, q, k)
  }

  predicate StallsAt(side: Side, limit: nat, quantity: nat, q: Queue, k: nat)
    requires k < |q| - 1
  {
    q[k].quantity == 0 && Depth(q, k) < quantity && Crosses(side, limit, q[k + 1].price)
  }

  /** The remainder of an order still crosses the remaining queue exactly when the loop stalls. */
  lemma {:induction false} CrossingRemainder(side: Side, limit: nat, quantity: nat, q: Queue)
    requires Sorted(side.Opposite(), q)
    ensures var r := Match(side, limit, quantity, q);
      (r.left > 0 && r.rest != [] && Crosses(side, limit, r.rest[0].price)) <==> Stalls(side, limit, quantity, q)
  {
    if quantity == 0 || q == [] {
    } else if !Crosses(side, limit, q[0].price) {
      forall k | 0 <= k < |q| - 1 ensures !StallsAt(side, limit, quantity, q, k) {
        assert !Better(side.Opposite(), q[k + 1].price, q[0].price);
      }
    } else if q[0].quantity == 0 {
      assert |q| > 1 && Crosses(side, limit, q[1].price) ==> StallsAt(side, limit, quantity, q, 0);
      if Stalls(side, limit, quantity, q) {
        var k :| 0 <= k < |q| - 1 && StallsAt(side, limit, quantity, q, k);
        assert k > 0 ==> !Better(side.Opposite(), q[k + 1].price, q[1].price);
      }
    } else if quantity < q[0].quantity {
      forall k | 0 <= k < |q| - 1 ensures !StallsAt(side, limit, quantity, q, k) {
        if k > 0 {
          assert Depth(q, k) == q[0].quantity + Depth(q[1..], k - 1);
        }
      }
    } else {
      StallsInTail(side, limit, quantity, q);
      CrossingRemainder(side, limit, quantity - q[0].quantity, q[1..]);
    }
  }

  lemma StallsInTail(side: Side, limit: nat, quantity: nat, q: Queue)
    requires q != [] && 0 < q[0].quantity <= quantity
    ensures Stalls(side, limit, quantity, q) <==> Stalls(side, limit, quantity - q[0].quantity, q[1..])
  {
    var t, m := q[1..], quantity - q[0].quantity;
    if Stalls(side, limit, quantity, q) {
      var k :| 0 <= k < |q| - 1 && StallsAt(side, limit, quantity, q, k);
      assert StallsAt(side, limit, m, t, k - 1);
    }
    if Stalls(side, limit, m, t) {
      var k :| 0 <= k < |t| - 1 && StallsAt(side, limit, m, t, k);
      assert StallsAt(side, limit, quantity, q, k + 1);
    }
  }

  /** Insertion puts the new order behind every equal or better price and ahead of every worse one. */
  lemma {:induction false} InsertPosition(side: Side, q: Queue, o: Resting) returns (k: nat)
    requires Sorted(side, q)
    ensures k <= |q| && Insert(side, q, o) == q[..k] + [o] + q[k..]
    ensures forall i :: 0 <= i < k ==> !Better(side, o.price, q[i].price)
    ensures forall i :: k <= i < |q| ==> Better(side, o.price, q[i].price)
    ensures Sorted(side, Insert(side, q, o))
  {
    if q == [] || Better(side, o.price, q[0].price) {
      k := 0;
      assert forall i :: 0 < i < |q| ==> !Better(side, q[i].price, q[0].price);
      assert [o] + q == q[..0] + [o] + q[0..];
    } else {
      var j := InsertPosition(side, q[1..], o);
      k := j + 1;
      InsertBehindHead(side, q, o, j);
    }
    SortedAround(side, q, o, k);
  }

  lemma InsertBehindHead(side: Side, q: Queue, o: Resting, j: nat)
    requires q != [] && j <= |q| - 1 && !Better(side, o.price, q[0].price)
    requires Insert(side, q[1..], o) == q[1..][..j] + [o] + q[1..][j..]
    ensures Insert(side, q, o) == q[..j + 1] + [o] + q[j + 1..]
  {
    assert q[..j + 1] == [q[0]] + q[1..][..j] && q[j + 1..] == q[1..][j..];
  }

  lemma SortedAround(side: Side, q: Queue, o: Resting, k: nat)
    requires Sorted(side, q) && k <= |q|
    requires forall i :: 0 <= i < k ==> !Better(side, o.price, q[i].price)
    requires forall i :: k <= i < |q| ==> Better(side, o.price, q[i].price)
    ensures Sorted(side, q[..k] + [o] + q[k..])
  {
  }

  lemma {:induction false} TotalConcat(a: Queue, b: Queue)
    ensures Total(a + b) == Total(a) + Total(b)
  {
    if a == [] {
      assert a + b == b;
    } else {
      assert (a + b)[1..] == a[1..] + b;
      TotalConcat(a[1..], b);
    }
  }

  lemma TotalAround(a: Queue, o: Resting, b: Queue)
    ensures Total(a + [o] + b) == Total(a) + o.quantity + Total(b)
  {
    TotalConcat(a + [o], b);
    TotalConcat(a, [o]);
  }

  lemma InsertTotal(side: Side, q: Queue, o: Resting)
    requires Sorted(side, q)
    ensures Total(Insert(side, q, o)) == Total(q) + o.quantity
  {
    var k := InsertPosition(side, q, o);
    TotalAround(q[..k], o, q[k..]);
    TotalConcat(q[..k], q[k..]);
    assert q == q[..k] + q[k..];
  }

  // ---- Ids under the queue operations ----

  lemma IdsConcat(a: Queue, b: Queue)
    ensures Ids(a + b) == Ids(a) + Ids(b)
  {
    forall id | id in Ids(a) + Ids(b) ensures id in Ids(a + b) {
      if id in Ids(a) {
        var i :| 0 <= i < |a| && a[i].id == id;
        assert (a + b)[i].id == id;
      } else {
        var i :| 0 <= i < |b| && b[i].id == id;
        assert (a + b)[|a| + i].id == id;
      }
    }
  }

  lemma DistinctConcat(a: Queue, b: Queue)
    ensures DistinctIds(a + b) <==> DistinctIds(a) && DistinctIds(b) && Ids(a) !! Ids(b)
  {
    if DistinctIds(a + b) {
      forall i, j | 0 <= i < j < |b| ensures b[i].id != b[j].id {
        assert (a + b)[|a| + i].id != (a + b)[|a| + j].id;
      }
      forall i, j | 0 <= i < j < |a| ensures a[i].id != a[j].id {
        assert (a + b)[i].id != (a + b)[j].id;
      }
      forall i, j | 0 <= i < |a| && 0 <= j < |b| ensures a[i].id != b[j].id {
        assert (a + b)[i].id != (a + b)[|a| + j].id;
      }
    }
    if DistinctIds(a) && DistinctIds(b) && Ids(a) !! Ids(b) {
      forall i, j | 0 <= i < j < |a + b| ensures (a + b)[i].id != (a + b)[j].id {
        if i < |a| <= j {
          assert a[i].id in Ids(a) && b[j - |a|].id in Ids(b);
        }
      }
    }
  }

  lemma {:induction false} InsertIds(side: Side, q: Queue, o: Resting)
    ensures Ids(Insert(side, q, o)) == Ids(q) + {o.id}
    ensures DistinctIds(q) && o.id !in Ids(q) ==> DistinctIds(Insert(side, q, o))
  {
    if q == [] || Better(side, o.price, q[0].price) {
      SingleId(o);
      IdsConcat([o], q);
      DistinctConcat([o], q);
    } else {
      InsertIds(side, q[1..], o);
      HeadIds(q);
      SingleId(q[0]);
      IdsConcat([q[0]], Insert(side, q[1..], o));
      DistinctConcat([q[0]], Insert(side, q[1..], o));
    }
  }

  lemma HeadIds(q: Queue)
    requires q != []
    ensures Ids(q) == {q[0].id} + Ids(q[1..])
    ensures DistinctIds(q) <==> DistinctIds(q[1..]) && q[0].id !in Ids(q[1..])
  {
    assert q == [q[0]] + q[1..];
    SingleId(q[0]);
    IdsConcat([q[0]], q[1..]);
    DistinctConcat([q[0]], q[1..]);
  }

  lemma SingleId(o: Resting)
    ensures Ids([o]) == {o.id}
  {
    assert [o][0].id in Ids([o]);
  }

  lemma SameIds(q: Queue, r: Queue)
    requires |q| == |r| && forall i :: 0 <= i < |q| ==> q[i].id == r[i].id
    ensures Ids(q) == Ids(r) && (DistinctIds(q) ==> DistinctIds(r))
  {
    forall id | id in Ids(q) ensures id in Ids(r) {
      var i :| 0 <= i < |q| && q[i].id == id;
      assert r[i].id == id;
    }
  }

  lemma {:induction false} RemoveIds(q: Queue, id: nat)
    requires DistinctIds(q)
    ensures Ids(Remove(q, id)) == Ids(q) - {id}
    ensures DistinctIds(Remove(q, id))
    ensures id in Ids(q) ==> |Remove(q, id)| == |q| - 1
  {
    if q != [] {
      HeadIds(q);
      if q[0].id != id {
        RemoveIds(q[1..], id);
        SingleId(q[0]);
        IdsConcat([q[0]], Remove(q[1..], id));
        DistinctConcat([q[0]], Remove(q[1..], id));
      }
    }
  }

  lemma {:induction false} SetQuantityIds(q: Queue, id: nat, quantity: nat)
    ensures |SetQuantity(q, id, quantity)| == |q|
    ensures forall i :: 0 <= i < |q| ==>
      SetQuantity(q, id, quantity)[i] == q[i].(quantity := SetQuantity(q, id, quantity)[i].quantity)
    ensures Ids(SetQuantity(q, id, quantity)) == Ids(q)
    ensures DistinctIds(q) ==> DistinctIds(SetQuantity(q, id, quantity))
  {
    var r := SetQuantity(q, id, quantity);
    if q != [] && q[0].id != id {
      SetQuantityIds(q[1..], id, quantity);
    }
    SameIds(q, r);
  }

  // ---- Operations on a whole book ----

  function BookIds(b: Book): set<nat> {
    Ids(b.bids) + Ids(b.asks)
  }

  predicate UniqueIds(b: Book) {
    DistinctIds(b.bids) && DistinctIds(b.asks) && Ids(b.bids) !! Ids(b.asks)
  }

  function AddTo(b: Book, side: Side, o: Resting): Book {
    b.With(side, Insert(side, b.On(side), o))
  }

  function RemoveFrom(b: Book, side: Side, id: nat): Book {
    b.With(side, Remove(b.On(side), id))
  }

  function SetIn(b: Book, side: Side, id: nat, quantity: nat): Book {
    b.With(side, SetQuantity(b.On(side), id, quantity))
  }

  function SideOf(b: Book, id: nat): Side {
    if id in Ids(b.bids) then Buy else Sell
  }

  /** The resting order with this id. */
  function Get(b: Book, id: nat): Resting
    requires id in BookIds(b)
  {
    Find(b.On(SideOf(b, id)), id).value
  }

  /** A partial cancellation keeps the order's place; a full one removes it. */
  function Reduced(b: Book, id: nat, amount: nat): Book
    requires id in BookIds(b) && amount <= Get(b, id).quantity
  {
    if amount == Get(b, id).quantity then RemoveFrom(b, SideOf(b, id), id)
    else SetIn(b, SideOf(b, id), id, Get(b, id).quantity - amount)
  }

  /** A partial cancellation is recorded at the order's level; nothing else is. */
  function ReductionsAfter(b: Book, side: Side, r: seq<nat>, id: nat, amount: nat): seq<nat> {
    if id in BookIds(b) && 0 < amount < Get(b, id).quantity && SideOf(b, id) == side && Get(b, id).price < |r|
    then r[Get(b, id).price := r[Get(b, id).price] + amount]
    else r
  }

  /** A replacement gives up its place: it joins the back of its new price, on the same side and account. */
  function Replaced(b: Book, id: nat, newId: nat, quantity: nat, price: nat): Book
    requires id in BookIds(b)
  {
    var side := SideOf(b, id);
    AddTo(RemoveFrom(b, side, id), side, Resting(newId, Get(b, id).account, price, quantity))
  }

  lemma {:induction false} FindOwn(q: Queue, o: Resting)
    requires DistinctIds(q) && o in q
    ensures Find(q, o.id) == Some(o)
  {
    if q[0] != o {
      HeadIds(q);
      assert o in q[1..];
      var i :| 0 <= i < |q[1..]| && q[1..][i] == o;
      assert o.id in Ids(q[1..]);
      FindOwn(q[1..], o);
    }
  }

  /** With unique ids, a resting order is what its id finds. */
  lemma GetOwn(b: Book, side: Side, o: Resting)
    requires UniqueIds(b) && o in b.On(side)
    ensures o.id in Ids(b.On(side)) && o.id in BookIds(b)
    ensures SideOf(b, o.id) == side && Get(b, o.id) == o
  {
    FindOwn(b.On(side), o);
  }

  lemma AddToIds(b: Book, side: Side, o: Resting)
    requires UniqueIds(b) && o.id !in BookIds(b)
    ensures UniqueIds(AddTo(b, side, o)) && BookIds(AddTo(b, side, o)) == BookIds(b) + {o.id}
  {
    InsertIds(side, b.On(side), o);
  }

  lemma RemoveFromIds(b: Book, side: Side, id: nat)
    requires UniqueIds(b) && id in Ids(b.On(side))
    ensures UniqueIds(RemoveFrom(b, side, id)) && BookIds(RemoveFrom(b, side, id)) == BookIds(b) - {id}
  {
    RemoveIds(b.On(side), id);
  }

  lemma SetInIds(b: Book, side: Side, id: nat, quantity: nat)
    requires UniqueIds(b)
    ensures UniqueIds(SetIn(b, side, id, quantity)) && BookIds(SetIn(b, side, id, quantity)) == BookIds(b)
  {
    SetQuantityIds(b.On(side), id, quantity);
  }
}
