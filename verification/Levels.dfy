/**
 One side of the book as the program stores it: an array of FIFO queues indexed by price. Read
 from the best price to the worst, the array is the priority queue of `BookSpec`.
 */
module Levels {

  import opened Types
  import opened BookSpec

  /** The price of the r-th best level of an array with `n` levels. */
  function PriceAt(side: Side, n: nat, r: nat): nat
    requires r < n
  {
    if side.Sell? then r else n - 1 - r
  }

  function RankOf(side: Side, n: nat, p: nat): nat
    requires p < n
  {
    PriceAt(side, n, p)
  }

  /** The levels from rank `r` on, best first. */
  function Flatten(side: Side, levels: seq<Queue>, r: nat): Queue
    requires r <= |levels|
    decreases |levels| - r
  {
    if r == |levels| then [] else levels[PriceAt(side, |levels|, r)] + Flatten(side, levels, r + 1)
  }

  /** The levels before rank `r`. */
  function Ahead(side: Side, levels: seq<Queue>, r: nat): Queue
    requires r <= |levels|
  {
    if r == 0 then [] else Ahead(side, levels, r - 1) + levels[PriceAt(side, |levels|, r - 1)]
  }

  /** Every order rests at the level of its price. */
  predicate AtOwnPrice(levels: seq<Queue>) {
    forall p, i :: 0 <= p < |levels| && 0 <= i < |levels[p]| ==> levels[p][i].price == p
  }

  lemma {:induction false} SplitAtRank(side: Side, levels: seq<Queue>, r: nat)
    requires r <= |levels|
    ensures Flatten(side, levels, 0) == Ahead(side, levels, r) + Flatten(side, levels, r)
  {
    if r == 0 {
      assert [] + Flatten(side, levels, 0) == Flatten(side, levels, 0);
    } else {
      SplitAtRank(side, levels, r - 1);
      var l := levels[PriceAt(side, |levels|, r - 1)];
      assert Ahead(side, levels, r - 1) + (l + Flatten(side, levels, r))
          == (Ahead(side, levels, r - 1) + l) + Flatten(side, levels, r);
    }
  }

  lemma {:induction false} AheadUnchanged(side: Side, levels: seq<Queue>, p: nat, l: Queue, r: nat)
    requires p < |levels| && r <= RankOf(side, |levels|, p)
    ensures Ahead(side, levels[p := l], r) == Ahead(side, levels, r)
  {
    if r > 0 {
      AheadUnchanged(side, levels, p, l, r - 1);
    }
  }

  lemma {:induction false} BehindUnchanged(side: Side, levels: seq<Queue>, p: nat, l: Queue, r: nat)
    requires p < |levels| && RankOf(side, |levels|, p) < r <= |levels|
    ensures Flatten(side, levels[p := l], r) == Flatten(side, levels, r)
    decreases |levels| - r
  {
    if r < |levels| {
      BehindUnchanged(side, levels, p, l, r + 1);
    }
  }

  /** Replacing one level replaces its segment of the priority queue and nothing else. */
  lemma FlattenUpdate(side: Side, levels: seq<Queue>, p: nat, l: Queue)
    requires p < |levels|
    ensures var r := RankOf(side, |levels|, p);
      && Flatten(side, levels[p := l], 0) == Ahead(side, levels, r) + l + Flatten(side, levels, r + 1)
      && Flatten(side, levels, 0) == Ahead(side, levels, r) + levels[p] + Flatten(side, levels, r + 1)
  {
    var r := RankOf(side, |levels|, p);
    SplitAtRank(side, levels, r);
    SplitAtRank(side, levels[p := l], r);
    AheadUnchanged(side, levels, p, l, r);
    BehindUnchanged(side, levels, p, l, r + 1);
    var a, b := Ahead(side, levels, r), Flatten(side, levels, r + 1);
    assert a + (l + b) == a + l + b && a + (levels[p] + b) == a + levels[p] + b;
  }

  // Where prices lie.

  lemma {:induction false} AheadIsBetter(side: Side, levels: seq<Queue>, p: nat, r: nat)
    requires AtOwnPrice(levels) && p < |levels| && r <= RankOf(side, |levels|, p)
    ensures forall i :: 0 <= i < |Ahead(side, levels, r)| ==> Better(side, Ahead(side, levels, r)[i].price, p)
  {
    if r > 0 {
      AheadIsBetter(side, levels, p, r - 1);
    }
  }

  lemma {:induction false} BehindIsWorse(side: Side, levels: seq<Queue>, p: nat, r: nat)
    requires AtOwnPrice(levels) && p < |levels| && RankOf(side, |levels|, p) < r <= |levels|
    ensures forall i :: 0 <= i < |Flatten(side, levels, r)| ==> Better(side, p, Flatten(side, levels, r)[i].price)
    decreases |levels| - r
  {
    if r < |levels| {
      BehindIsWorse(side, levels, p, r + 1);
    }
  }

  lemma {:induction false} FlattenSorted(side: Side, levels: seq<Queue>, r: nat)
    requires AtOwnPrice(levels) && r <= |levels|
    ensures Sorted(side, Flatten(side, levels, r))
    decreases |levels| - r
  {
    if r < |levels| {
      FlattenSorted(side, levels, r + 1);
      BehindIsWorse(side, levels, PriceAt(side, |levels|, r), r + 1);
    }
  }

  // Queue operations act inside one segment.

  lemma {:induction false} InsertBetween(side: Side, a: Queue, b: Queue, o: Resting)
    requires forall i :: 0 <= i < |a| ==> !Better(side, o.price, a[i].price)
    requires forall i :: 0 <= i < |b| ==> Better(side, o.price, b[i].price)
    ensures Insert(side, a + b, o) == a + [o] + b
  {
    if a == [] {
      assert a + b == b && a + [o] + b == [o] + b;
    } else {
      assert (a + b)[1..] == a[1..] + b;
      InsertBetween(side, a[1..], b, o);
      assert [a[0]] + (a[1..] + [o] + b) == a + [o] + b;
    }
  }

  lemma {:induction false} RemoveBetween(a: Queue, o: Resting, b: Queue)
    requires forall i :: 0 <= i < |a| ==> a[i].id != o.id
    ensures Remove(a + [o] + b, o.id) == a + b
  {
    if a == [] {
      assert a + [o] + b == [o] + b && a + b == b;
    } else {
      assert (a + [o] + b)[1..] == a[1..] + [o] + b;
      RemoveBetween(a[1..], o, b);
      assert [a[0]] + (a[1..] + b) == a + b;
    }
  }

  lemma {:induction false} SetBetween(a: Queue, o: Resting, b: Queue, quantity: nat)
    requires forall i :: 0 <= i < |a| ==> a[i].id != o.id
    ensures SetQuantity(a + [o] + b, o.id, quantity) == a + [o.(quantity := quantity)] + b
  {
    if a == [] {
      assert a + [o] + b == [o] + b;
    } else {
      assert (a + [o] + b)[1..] == a[1..] + [o] + b;
      SetBetween(a[1..], o, b, quantity);
      assert [a[0]] + (a[1..] + [o.(quantity := quantity)] + b) == a + [o.(quantity := quantity)] + b;
    }
  }

  /** Appending to the level of its price is inserting by price-time priority. */
  lemma FlattenInsert(side: Side, levels: seq<Queue>, o: Resting)
    requires AtOwnPrice(levels) && o.price < |levels|
    ensures Flatten(side, levels[o.price := levels[o.price] + [o]], 0) == Insert(side, Flatten(side, levels, 0), o)
  {
    var p := o.price;
    var r := RankOf(side, |levels|, p);
    var a, b := Ahead(side, levels, r), Flatten(side, levels, r + 1);
    FlattenUpdate(side, levels, p, levels[p] + [o]);
    AheadIsBetter(side, levels, p, r);
    BehindIsWorse(side, levels, p, r + 1);
    InsertBetween(side, a + levels[p], b, o);
    assert a + (levels[p] + [o]) + b == a + levels[p] + [o] + b;
  }

  /** Unlinking the i-th order of a level is removing its id. */
  lemma FlattenRemove(side: Side, levels: seq<Queue>, p: nat, i: nat)
    requires p < |levels| && i < |levels[p]| && DistinctIds(Flatten(side, levels, 0))
    ensures Flatten(side, levels[p := levels[p][..i] + levels[p][i + 1..]], 0)
         == Remove(Flatten(side, levels, 0), levels[p][i].id)
  {
    var l := levels[p];
    var a, b := SegmentAround(side, levels, p, i);
    FlattenUpdate(side, levels, p, l[..i] + l[i + 1..]);
    RemoveBetween(a + l[..i], l[i], l[i + 1..] + b);
    assert a + (l[..i] + l[i + 1..]) + b == (a + l[..i]) + (l[i + 1..] + b);
  }

  /** Changing the quantity of the i-th order of a level keeps its place in the priority queue. */
  lemma FlattenSetQuantity(side: Side, levels: seq<Queue>, p: nat, i: nat, quantity: nat)
    requires p < |levels| && i < |levels[p]| && DistinctIds(Flatten(side, levels, 0))
    ensures Flatten(side, levels[p := levels[p][i := levels[p][i].(quantity := quantity)]], 0)
         == SetQuantity(Flatten(side, levels, 0), levels[p][i].id, quantity)
  {
    var l := levels[p];
    var o := l[i].(quantity := quantity);
    var a, b := SegmentAround(side, levels, p, i);
    FlattenUpdate(side, levels, p, l[i := o]);
    SetBetween(a + l[..i], l[i], l[i + 1..] + b, quantity);
    assert l[i := o] == l[..i] + [o] + l[i + 1..];
    assert a + (l[..i] + [o] + l[i + 1..]) + b == (a + l[..i]) + [o] + (l[i + 1..] + b);
  }

  lemma SegmentAround(side: Side, levels: seq<Queue>, p: nat, i: nat) returns (a: Queue, b: Queue)
    requires p < |levels| && i < |levels[p]| && DistinctIds(Flatten(side, levels, 0))
    ensures var r := RankOf(side, |levels|, p);
      a == Ahead(side, levels, r) && b == Flatten(side, levels, r + 1)
    ensures var l := levels[p];
      && Flatten(side, levels, 0) == (a + l[..i]) + [l[i]] + (l[i + 1..] + b)
      && forall k :: 0 <= k < |a + l[..i]| ==> (a + l[..i])[k].id != l[i].id
  {
    var l := levels[p];
    FlattenUpdate(side, levels, p, l);
    var r := RankOf(side, |levels|, p);
    a, b := Ahead(side, levels, r), Flatten(side, levels, r + 1);
    var f := Flatten(side, levels, 0);
    assert l == l[..i] + [l[i]] + l[i + 1..];
    assert a + l + b == (a + l[..i]) + [l[i]] + (l[i + 1..] + b);
    assert f[|a| + i] == l[i];
    assert forall k :: 0 <= k < |a + l[..i]| ==> (a + l[..i])[k] == f[k];
  }

  /** With every better level empty, the level at `p` heads the priority queue. */
  lemma FrontLevel(side: Side, levels: seq<Queue>, p: nat)
    requires p < |levels|
    requires forall q :: 0 <= q < |levels| && Better(side, q, p) ==> levels[q] == []
    ensures var r := RankOf(side, |levels|, p);
      Flatten(side, levels, 0) == levels[p] + Flatten(side, levels, r + 1)
  {
    var r := RankOf(side, |levels|, p);
    NothingAhead(side, levels, p, r);
    SplitAtRank(side, levels, r);
    assert [] + Flatten(side, levels, r) == Flatten(side, levels, r);
  }

  lemma {:induction false} NothingAhead(side: Side, levels: seq<Queue>, p: nat, r: nat)
    requires p < |levels| && r <= RankOf(side, |levels|, p)
    requires forall q :: 0 <= q < |levels| && Better(side, q, p) ==> levels[q] == []
    ensures Ahead(side, levels, r) == []
  {
    if r > 0 {
      NothingAhead(side, levels, p, r - 1);
    }
  }

  lemma {:induction false} AllEmpty(side: Side, levels: seq<Queue>, r: nat)
    requires r <= |levels|
    requires forall q :: 0 <= q < |levels| ==> levels[q] == []
    ensures Flatten(side, levels, r) == []
    decreases |levels| - r
  {
    if r < |levels| {
      AllEmpty(side, levels, r + 1);
    }
  }

  predicate InLevel(side: Side, levels: seq<Queue>, o: Resting, k: nat) {
    k < |levels| && o in levels[PriceAt(side, |levels|, k)]
  }

  /** An order is in the priority queue exactly when it is in the level of some price. */
  lemma {:induction false} FlattenMembers(side: Side, levels: seq<Queue>, r: nat, o: Resting)
    requires r <= |levels|
    ensures o in Flatten(side, levels, r) <==> exists k: nat :: r <= k && InLevel(side, levels, o, k)
    decreases |levels| - r
  {
    if r < |levels| {
      FlattenMembers(side, levels, r + 1, o);
      var l := levels[PriceAt(side, |levels|, r)];
      assert o in Flatten(side, levels, r) <==> o in l || o in Flatten(side, levels, r + 1);
      assert o in l <==> InLevel(side, levels, o, r);
    }
  }

  /** The orders of a queue at one price, in their order. */
  function AtPrice(q: Queue, p: nat): Queue {
    if q == [] then [] else (if q[0].price == p then [q[0]] else []) + AtPrice(q[1..], p)
  }

  lemma {:induction false} AtPriceConcat(a: Queue, b: Queue, p: nat)
    ensures AtPrice(a + b, p) == AtPrice(a, p) + AtPrice(b, p)
  {
    if a == [] {
      assert a + b == b;
    } else {
      assert (a + b)[1..] == a[1..] + b;
      AtPriceConcat(a[1..], b, p);
      var first := if a[0].price == p then [a[0]] else [];
      assert AtPrice(a + b, p) == first + (AtPrice(a[1..], p) + AtPrice(b, p));
      assert first + (AtPrice(a[1..], p) + AtPrice(b, p)) == (first + AtPrice(a[1..], p)) + AtPrice(b, p);
    }
  }

  lemma {:induction false} AllAtPrice(q: Queue, p: nat)
    requires forall i :: 0 <= i < |q| ==> q[i].price == p
    ensures AtPrice(q, p) == q
  {
    if q != [] {
      AllAtPrice(q[1..], p);
    }
  }

  lemma {:induction false} NoneAtPrice(q: Queue, p: nat)
    requires forall i :: 0 <= i < |q| ==> q[i].price != p
    ensures AtPrice(q, p) == []
  {
    if q != [] {
      NoneAtPrice(q[1..], p);
    }
  }

  /** A level is the part of the priority queue at its price. */
  lemma LevelIsAtPrice(side: Side, levels: seq<Queue>, p: nat)
    requires AtOwnPrice(levels) && p < |levels|
    ensures AtPrice(Flatten(side, levels, 0), p) == levels[p]
  {
    hide AtPrice, Flatten, Ahead;
    var r := RankOf(side, |levels|, p);
    var ahead, behind := Ahead(side, levels, r), Flatten(side, levels, r + 1);
    FlattenUpdate(side, levels, p, levels[p]);
    AheadIsBetter(side, levels, p, r);
    BehindIsWorse(side, levels, p, r + 1);
    AtPriceConcat(ahead + levels[p], behind, p);
    AtPriceConcat(ahead, levels[p], p);
    NoneAtPrice(ahead, p);
    NoneAtPrice(behind, p);
    AllAtPrice(levels[p], p);
  }
}
