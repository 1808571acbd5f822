/** Pre-trade risk: the limits, the positions they keep, and what the 64-bit order value really bounds. */
module RiskSpec {

  import opened Types
  import opened Arithmetic

  type Price = x: int | -0x8000_0000_0000_0000 <= x < 0x8000_0000_0000_0000
  type Quantity = x: nat | x < U32

  datatype Intent = Intent(account: nat, side: Side, price: Price, quantity: Quantity)

  datatype RiskResult =
    | Accepted
    | InvalidPrice
    | InvalidQuantity
    | MaxOrderQuantityExceeded
    | MaxOrderValueExceeded
    | MaxPositionExceeded

  const MAX_ORDER_QUANTITY := 100000
  const MAX_ORDER_VALUE := 10_000_000
  const MAX_POSITION := 500

  function Signed(i: Intent): int {
    if i.side.Buy? then i.quantity else -(i.quantity as int)
  }

  function Abs(x: int): nat {
    if x < 0 then -x else x
  }

  /** The order value as the program computes it, in unsigned 64-bit arithmetic. */
  function OrderValue(i: Intent): nat {
    (i.price % U64) * i.quantity % U64
  }

  /** The first limit an intent violates, given the account's position. */
  function Check(position: int, i: Intent): RiskResult {
    if i.price <= 0 then InvalidPrice
    else if i.quantity == 0 then InvalidQuantity
    else if i.quantity > MAX_ORDER_QUANTITY then MaxOrderQuantityExceeded
    else if OrderValue(i) > MAX_ORDER_VALUE then MaxOrderValueExceeded
    else if Abs(position + Signed(i)) > MAX_POSITION then MaxPositionExceeded
    else Accepted
  }

  type Positions = map<nat, int>

  function At(positions: Positions, account: nat): int {
    if account in positions then positions[account] else 0
  }

  /** Positions and, as history, the intents that were accepted and executed. */
  datatype Desk = Desk(positions: Positions, executed: seq<Intent>)

  const FLAT := Desk(map[], [])

  datatype GatewayResult = GatewayResult(riskResult: RiskResult, executionSucceeded: bool)

  /** An intent, and whether the execution sink takes it if asked. */
  datatype Request = Request(intent: Intent, taken: bool)

  function Answer(d: Desk, r: Request): GatewayResult {
    var c := Check(At(d.positions, r.intent.account), r.intent);
    GatewayResult(c, c.Accepted? && r.taken)
  }

  /** Only an accepted and executed intent moves a position. */
  function After(d: Desk, r: Request): Desk {
    var i := r.intent;
    if Answer(d, r).executionSucceeded
    then Desk(d.positions[i.account := At(d.positions, i.account) + Signed(i)], d.executed + [i])
    else d
  }

  function Run(requests: seq<Request>): Desk {
    if requests == [] then FLAT else After(Run(requests[..|requests| - 1]), requests[|requests| - 1])
  }

  // ---- Positions over whole runs ----

  function Net(executed: seq<Intent>, account: nat): int {
    if executed == [] then 0
    else
      var last := executed[|executed| - 1];
      Net(executed[..|executed| - 1], account) + if last.account == account then Signed(last) else 0
  }

  ghost predicate Bounded(d: Desk) {
    forall account: nat ::
      At(d.positions, account) == Net(d.executed, account) && -500 <= At(d.positions, account) <= 500
  }

  lemma AfterBounded(d: Desk, r: Request)
    requires Bounded(d)
    ensures Bounded(After(d, r))
  {
    var d' := After(d, r);
    if d'.executed != d.executed {
      assert d'.executed[..|d.executed|] == d.executed;
      forall account: nat
        ensures At(d'.positions, account) == Net(d'.executed, account) && -500 <= At(d'.positions, account) <= 500
      {
        assert At(d.positions, account) == Net(d.executed, account);
      }
    }
  }

  /** Over every run, every account stays within 500 either way and holds what it executed. */
  lemma {:induction false} PositionsBounded(requests: seq<Request>)
    ensures Bounded(Run(requests))
  {
    if requests != [] {
      PositionsBounded(requests[..|requests| - 1]);
      AfterBounded(Run(requests[..|requests| - 1]), requests[|requests| - 1]);
    }
  }

  // ---- Answers, told from the requests ----

  function MovedBy(position: int, i: Intent): int {
    if i.side == Buy then position + i.quantity else position - i.quantity
  }

  /** A valid order of at most 100000 whose 64-bit value is at most 10 million. */
  predicate Orderly(i: Intent) {
    && i.price > 0 && 0 < i.quantity <= 100000
    && i.price * i.quantity % 0x1_0000_0000_0000_0000 <= 10000000
  }

  predicate WithinLimits(position: int, i: Intent) {
    Orderly(i) && -500 <= MovedBy(position, i) <= 500
  }

  /** The intents that were within the limits and taken, each with what was executed before it. */
  function ExecutedOf(requests: seq<Request>): seq<Intent> {
    if requests == [] then []
    else
      var before, r := ExecutedOf(requests[..|requests| - 1]), requests[|requests| - 1];
      before + if WithinLimits(Net(before, r.intent.account), r.intent) && r.taken then [r.intent] else []
  }

  lemma CheckMeans(position: int, i: Intent)
    ensures Check(position, i) ==
      if i.price <= 0 then InvalidPrice
      else if i.quantity == 0 then InvalidQuantity
      else if i.quantity > 100000 then MaxOrderQuantityExceeded
      else if i.price * i.quantity % 0x1_0000_0000_0000_0000 > 10000000 then MaxOrderValueExceeded
      else if !(-500 <= MovedBy(position, i) <= 500) then MaxPositionExceeded
      else Accepted
    ensures Check(position, i).Accepted? <==> WithinLimits(position, i)
  {
    assert i.price > 0 ==> i.price % U64 == i.price;
  }

  /** Over every run exactly the intents within the limits that the sink took are executed. */
  lemma {:induction false} RunExecutes(requests: seq<Request>)
    ensures Run(requests).executed == ExecutedOf(requests)
  {
    hide Check, WithinLimits;
    if requests != [] {
      var before, r := requests[..|requests| - 1], requests[|requests| - 1];
      RunExecutes(before);
      PositionsBounded(before);
      CheckMeans(At(Run(before).positions, r.intent.account), r.intent);
    }
  }

  /** After every run, what is accepted, what is refused and why, and what is executed. */
  lemma AnswerMeans(requests: seq<Request>, r: Request)
    ensures var p, i, a := Net(ExecutedOf(requests), r.intent.account), r.intent, Answer(Run(requests), r);
      && (a.executionSucceeded <==> WithinLimits(p, i) && r.taken)
      && (a.riskResult.Accepted? <==> WithinLimits(p, i))
      && (a.riskResult.InvalidPrice? <==> i.price <= 0)
      && (a.riskResult.InvalidQuantity? <==> i.price > 0 && i.quantity == 0)
      && (a.riskResult.MaxOrderQuantityExceeded? <==> i.price > 0 && i.quantity > 100000)
      && (a.riskResult.MaxOrderValueExceeded? <==> i.price > 0 && 0 < i.quantity <= 100000 && !Orderly(i))
      && (a.riskResult.MaxPositionExceeded? <==> Orderly(i) && !(-500 <= MovedBy(p, i) <= 500))
  {
    hide Check, Net;
    RunExecutes(requests);
    PositionsBounded(requests);
    CheckMeans(At(Run(requests).positions, r.intent.account), r.intent);
  }

  /** So no accepted order is larger than the way from one limit to the other. */
  lemma {:induction false} AcceptedQuantity(requests: seq<Request>, r: Request)
    requires Answer(Run(requests), r).riskResult.Accepted?
    ensures 0 < r.intent.quantity <= 1000
  {
    PositionsBounded(requests);
    assert -500 <= At(Run(requests).positions, r.intent.account) <= 500;
  }

  // ---- The order value ----

  /**
   The value limit holds of the true product if and only if the product fits in 64 bits, which a caller
   can decide by a division.
   */
  lemma ValueLimitIff(position: int, i: Intent)
    requires Check(position, i).Accepted?
    ensures i.price * i.quantity <= 10000000 <==> i.price <= (U64 - 1) / i.quantity
  {
    var p, q: int := i.price, i.quantity;
    assert i.price % U64 == p;
    var most := (U64 - 1) / q;
    if p <= most {
      Product(p, most, q);
    } else {
      Product(most + 1, p, q);
    }
  }

  lemma Product(a: nat, b: nat, q: nat)
    requires a <= b && q > 0
    ensures a * q <= b * q
  {
    assert (b - a) * q >= 0;
  }

  /** For prices up to (2^64 - 1) / 1000 acceptance bounds the true value, on every run. */
  lemma AcceptedValue(requests: seq<Request>, r: Request)
    requires Answer(Run(requests), r).riskResult.Accepted? && r.intent.price <= (U64 - 1) / 1000
    ensures r.intent.price * r.intent.quantity <= 10000000
  {
    AcceptedQuantity(requests, r);
    ValueLimitIff(At(Run(requests).positions, r.intent.account), r.intent);
    Quotients(r.intent.quantity);
  }

  lemma Quotients(q: nat)
    requires 0 < q <= 1000
    ensures (U64 - 1) / 1000 <= (U64 - 1) / q
  {
    var most := (U64 - 1) / 1000;
    Product(q, 1000, most);
    var d := (U64 - 1) / q - most;
    assert (U64 - 1) - (U64 - 1) % q == ((U64 - 1) / q) * q;
    MultipleGrows(d, q);
    assert d * q == ((U64 - 1) / q) * q - most * q;
  }

  /** Above that the check can be passed with a huge value: this product wraps around to 2. */
  lemma WrappedValueIsAccepted()
    ensures var i := Intent(1, Buy, 6148914691236517206, 3);
      Check(0, i).Accepted? && i.price * i.quantity > 10000000 && OrderValue(i) == 2
  {
  }
}

/** The gateway and the risk manager it consults, refining the specification. */
module Gateways {

  import opened Types
  import opened RiskSpec

  class RiskManager {
    var positions: Positions

    constructor ()
      ensures positions == map[]
    {
      positions := map[];
    }

    method Check(i: Intent) returns (r: RiskResult)
      ensures r == RiskSpec.Check(At(positions, i.account), i)
    {
      if i.price <= 0 {
        return InvalidPrice;
      }
      if i.quantity == 0 {
        return InvalidQuantity;
      }
      if i.quantity > MAX_ORDER_QUANTITY {
        return MaxOrderQuantityExceeded;
      }
      var orderValue := (i.price % U64) * i.quantity % U64;
      if orderValue > MAX_ORDER_VALUE {
        return MaxOrderValueExceeded;
      }
      var newPosition: int := if i.account in positions then positions[i.account] else 0;
      if i.side.Buy? {
        newPosition := newPosition + i.quantity;
      } else {
        newPosition := newPosition - i.quantity;
      }
      if newPosition > MAX_POSITION || newPosition < -MAX_POSITION {
        return MaxPositionExceeded;
      }
      return RiskResult.Accepted;
    }

    method OnAccepted(i: Intent)
      modifies this
      ensures positions == old(positions)[i.account := At(old(positions), i.account) + Signed(i)]
    {
      var position := if i.account in positions then positions[i.account] else 0;
      positions := positions[i.account := if i.side.Buy? then position + i.quantity else position - i.quantity];
    }
  }

  class Gateway {
    const riskManager: RiskManager
    ghost var executed: seq<Intent>

    ghost function Model(): Desk
      reads this, riskManager
    {
      Desk(riskManager.positions, executed)
    }

    /** Positions are what was executed, and within the limit. */
    ghost predicate Valid()
      reads this, riskManager
    {
      Bounded(Model())
    }

    constructor ()
      ensures Valid() && Model() == FLAT && fresh(riskManager)
    {
      riskManager := new RiskManager();
      executed := [];
    }

    /** Check, execute, then move the position; `taken` is what the execution sink answers if asked. */
    method Submit(i: Intent, taken: bool) returns (r: GatewayResult)
      requires Valid()
      modifies this, riskManager
      ensures Valid()
      ensures r == Answer(old(Model()), Request(i, taken)) && Model() == After(old(Model()), Request(i, taken))
    {
      AfterBounded(Model(), Request(i, taken));
      var riskResult := riskManager.Check(i);
      if riskResult != RiskResult.Accepted {
        return GatewayResult(riskResult, false);
      }
      if !taken {
        return GatewayResult(RiskResult.Accepted, false);
      }
      riskManager.OnAccepted(i);
      executed := executed + [i];
      return GatewayResult(RiskResult.Accepted, true);
    }
  }
}
