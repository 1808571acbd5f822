/** The position keeper that listens to trades, in 32-bit arithmetic, and what its numbers mean. */
module Positions {

  import opened Types
  import opened EngineSpec
  import opened EngineRuns
  import opened EngineLedger

  const HALF: int := 0x8000_0000

  /** The signed 32-bit number congruent to x. */
  function Wrap(x: int): (r: int)
    ensures -HALF <= r < HALF && (r - x) % U32 == 0
  {
    (x + HALF) % U32 - HALF
  }

  lemma WrapUnique(x: int, r: int)
    requires -HALF <= r < HALF && (r - x) % U32 == 0
    ensures r == Wrap(x)
  {
  }

  /** Wrapping after every addition is wrapping once at the end. */
  lemma WrapTwice(x: int, y: int)
    ensures Wrap(Wrap(x) + y) == Wrap(x + y)
  {
    var k := (Wrap(x) - x) / U32;
    assert Wrap(x) == x + k * U32;
    var l := (Wrap(Wrap(x) + y) - (Wrap(x) + y)) / U32;
    assert Wrap(Wrap(x) + y) == x + y + (k + l) * U32;
    MultipleOf(Wrap(Wrap(x) + y) - (x + y), k + l);
    WrapUnique(x + y, Wrap(Wrap(x) + y));
  }

  lemma MultipleOf(x: int, k: int)
    requires x == k * U32
    ensures x % U32 == 0
  {
  }

  /** What a trade does to an account's position; a self-trade does both. */
  function Change(t: Trade, account: nat): int {
    (if t.buyAccount == account then t.quantity else 0) - (if t.sellAccount == account then t.quantity else 0)
  }

  /** Bought minus sold, unbounded. */
  function Net(trades: seq<Trade>, account: nat): int {
    if trades == [] then 0 else Net(trades[..|trades| - 1], account) + Change(trades[|trades| - 1], account)
  }

  /** Listens to every trade; `heard` is the trades so far. */
  class PositionManager {
    var positions: map<nat, int>
    ghost var heard: seq<Trade>

    function Position(account: nat): int
      reads this`positions
    {
      if account in positions then positions[account] else 0
    }

    /** Every position is the 32-bit image of bought minus sold; accounts that never traded are absent. */
    ghost predicate Valid()
      reads this
    {
      && (forall account: nat :: Position(account) == Wrap(Net(heard, account)))
      && (forall account: nat :: account in positions <==> Trades(heard, account))
    }

    constructor ()
      ensures Valid() && heard == []
    {
      positions := map[];
      heard := [];
    }

    /** Two in-place 32-bit updates, buyer first. */
    method OnTrade(t: Trade)
      requires Valid()
      modifies this
      ensures Valid() && heard == old(heard) + [t]
    {
      hide Wrap, Trades;
      positions := positions[t.buyAccount := Wrap(Position(t.buyAccount) + t.quantity)];
      positions := positions[t.sellAccount := Wrap(Position(t.sellAccount) - t.quantity)];
      heard := heard + [t];
      forall account: nat ensures Position(account) == Wrap(Net(heard, account)) {
        var net := Net(old(heard), account);
        assert heard[..|heard| - 1] == old(heard);
        WrapTwice(net, t.quantity);
        WrapTwice(net + t.quantity, -(t.quantity as int));
        WrapTwice(net, -(t.quantity as int));
      }
      forall account: nat ensures account in positions <==> Trades(heard, account) {
        TradesOneMore(old(heard), t, account);
      }
    }

    /** The positions of all accounts that ever traded sum to zero in 32-bit arithmetic. */
    lemma SumToZero(accounts: seq<nat>)
      requires Valid() && Distinct(accounts) && forall a :: a in positions ==> a in accounts
      ensures SumOf(positions, accounts) % U32 == 0
    {
      forall k | 0 <= k < |heard| ensures heard[k].buyAccount in accounts && heard[k].sellAccount in accounts {
        assert Trades(heard, heard[k].buyAccount) && Trades(heard, heard[k].sellAccount);
      }
      NetIsZero(heard, accounts);
      SumCongruent(positions, heard, accounts);
    }
  }

  /** An account that was on a side of some trade. */
  ghost predicate Trades(trades: seq<Trade>, account: nat) {
    exists k :: 0 <= k < |trades| && (trades[k].buyAccount == account || trades[k].sellAccount == account)
  }

  lemma TradesOneMore(trades: seq<Trade>, t: Trade, account: nat)
    ensures Trades(trades + [t], account) <==>
      Trades(trades, account) || t.buyAccount == account || t.sellAccount == account
  {
    var more := trades + [t];
    if Trades(trades, account) {
      var k :| 0 <= k < |trades| && (trades[k].buyAccount == account || trades[k].sellAccount == account);
      assert more[k] == trades[k];
    }
    assert more[|trades|] == t;
  }

  // ---- Positions sum to zero ----

  predicate Distinct(accounts: seq<nat>) {
    forall i, j :: 0 <= i < j < |accounts| ==> accounts[i] != accounts[j]
  }

  function SumOf(positions: map<nat, int>, accounts: seq<nat>): int {
    if accounts == [] then 0
    else (if accounts[0] in positions then positions[accounts[0]] else 0) + SumOf(positions, accounts[1..])
  }

  function SumNet(trades: seq<Trade>, accounts: seq<nat>): int {
    if accounts == [] then 0 else Net(trades, accounts[0]) + SumNet(trades, accounts[1..])
  }

  function SumChange(t: Trade, accounts: seq<nat>): int {
    if accounts == [] then 0 else Change(t, accounts[0]) + SumChange(t, accounts[1..])
  }

  lemma {:induction false} ChangeSums(t: Trade, accounts: seq<nat>)
    requires Distinct(accounts)
    ensures SumChange(t, accounts)
         == (if t.buyAccount in accounts then t.quantity else 0) - (if t.sellAccount in accounts then t.quantity else 0)
  {
    if accounts != [] {
      ChangeSums(t, accounts[1..]);
      assert forall a :: a in accounts <==> a == accounts[0] || a in accounts[1..];
    }
  }

  lemma {:induction false} SumNetStep(trades: seq<Trade>, accounts: seq<nat>)
    requires trades != []
    ensures SumNet(trades, accounts)
         == SumNet(trades[..|trades| - 1], accounts) + SumChange(trades[|trades| - 1], accounts)
  {
    if accounts != [] {
      SumNetStep(trades, accounts[1..]);
    }
  }

  /** What one side gains the other loses, self-trades included. */
  lemma {:induction false} NetIsZero(trades: seq<Trade>, accounts: seq<nat>)
    requires Distinct(accounts)
    requires forall k :: 0 <= k < |trades| ==> trades[k].buyAccount in accounts && trades[k].sellAccount in accounts
    ensures SumNet(trades, accounts) == 0
  {
    if trades != [] {
      NetIsZero(trades[..|trades| - 1], accounts);
      SumNetStep(trades, accounts);
      ChangeSums(trades[|trades| - 1], accounts);
    } else {
      NoTrades(accounts);
    }
  }

  lemma {:induction false} NoTrades(accounts: seq<nat>)
    ensures SumNet([], accounts) == 0
  {
    if accounts != [] {
      NoTrades(accounts[1..]);
    }
  }

  lemma {:induction false} SumCongruent(positions: map<nat, int>, trades: seq<Trade>, accounts: seq<nat>)
    requires forall a: nat :: (if a in positions then positions[a] else 0) == Wrap(Net(trades, a))
    ensures (SumOf(positions, accounts) - SumNet(trades, accounts)) % U32 == 0
  {
    if accounts != [] {
      SumCongruent(positions, trades, accounts[1..]);
      SumMod(Wrap(Net(trades, accounts[0])) - Net(trades, accounts[0]),
             SumOf(positions, accounts[1..]) - SumNet(trades, accounts[1..]));
    }
  }

  lemma SumMod(x: int, y: int)
    requires x % U32 == 0 && y % U32 == 0
    ensures (x + y) % U32 == 0
  {
  }

  // ---- A position is what the account's orders executed ----

  function Signed(side: Side, x: int): int {
    if side.Buy? then x else -x
  }

  /** Over the first n accepted orders of an account: executed quantity, bought minus sold. */
  function ExecutedFor(h: History, trades: seq<Trade>, account: nat, n: nat): int
    requires n <= |h.ids| && |h.ids| == |h.accepted|
  {
    if n == 0 then 0
    else
      ExecutedFor(h, trades, account, n - 1) +
      (if h.accepted[n - 1].account == account
       then Signed(h.accepted[n - 1].side, Executed(trades, h.ids[n - 1])) else 0)
  }

  function PartFor(h: History, t: Trade, account: nat, n: nat): int
    requires n <= |h.ids| && |h.ids| == |h.accepted|
  {
    if n == 0 then 0
    else
      PartFor(h, t, account, n - 1) +
      (if h.accepted[n - 1].account == account
       then Signed(h.accepted[n - 1].side, Part(t, h.ids[n - 1])) else 0)
  }

  /** Of all accepted orders, a trade moves its two. */
  lemma {:induction false} PartOfTrade(h: History, t: Trade, account: nat, i: nat, j: nat, n: nat)
    requires Numbered(h) && |h.ids| == |h.accepted| && n <= |h.ids| && TradeOf(h, t, i, j)
    ensures PartFor(h, t, account, n)
         == (if i < n && t.buyAccount == account then t.quantity else 0)
          - (if j < n && t.sellAccount == account then t.quantity else 0)
  {
    if n > 0 {
      PartOfTrade(h, t, account, i, j, n - 1);
      assert n - 1 != i ==> h.ids[n - 1] != t.buyId;
      assert n - 1 != j ==> h.ids[n - 1] != t.sellId;
    }
  }

  lemma {:induction false} ExecutedForStep(h: History, trades: seq<Trade>, t: Trade, account: nat, n: nat)
    requires n <= |h.ids| && |h.ids| == |h.accepted|
    ensures ExecutedFor(h, trades + [t], account, n) == ExecutedFor(h, trades, account, n) + PartFor(h, t, account, n)
  {
    if n > 0 {
      ExecutedForStep(h, trades, t, account, n - 1);
      ExecutedConcat(trades, [t], h.ids[n - 1]);
      assert Executed([t], h.ids[n - 1]) == Part(t, h.ids[n - 1]) by { assert [t][1..] == []; }
    }
  }

  lemma {:induction false} NothingExecuted(h: History, account: nat, n: nat)
    requires n <= |h.ids| && |h.ids| == |h.accepted|
    ensures ExecutedFor(h, [], account, n) == 0
  {
    if n > 0 {
      NothingExecuted(h, account, n - 1);
    }
  }

  lemma {:induction false} NetIsExecuted(h: History, trades: seq<Trade>, account: nat)
    requires Numbered(h) && |h.ids| == |h.accepted|
    requires forall k :: 0 <= k < |trades| ==> HasOrders(h, trades[k])
    ensures Net(trades, account) == ExecutedFor(h, trades, account, |h.ids|)
  {
    if trades == [] {
      NothingExecuted(h, account, |h.ids|);
    } else {
      var before, t := trades[..|trades| - 1], trades[|trades| - 1];
      NetIsExecuted(h, before, account);
      assert trades == before + [t] && HasOrders(h, t);
      ExecutedForStep(h, before, t, account, |h.ids|);
      var i: nat, j: nat :| TradeOf(h, t, i, j);
      PartOfTrade(h, t, account, i, j, |h.ids|);
    }
  }

  /**
   After any run, an account's net position is what its own buy orders executed minus what its own
   sell orders executed; the keeper reports it in 32 bits.
   */
  lemma PositionOfRun(capacity: nat, os: seq<Submission>, account: nat)
    ensures var h := Run(capacity, os);
      && |h.ids| == |h.accepted|
      && Net(h.trades, account) == ExecutedFor(h, h.trades, account, |h.ids|)
  {
    var h := Run(capacity, os);
    EveryTradeIsExplained(capacity, os);
    NumbersAreDistinct(capacity, os);
    NetIsExecuted(h, h.trades, account);
  }
}
