/**
 The exchange behind the wire: EnterOrder messages in, an Accepted answer and two Executed reports per
 trade out, as functions of the messages so far.
 */
module ExchangeSpec {

  import opened Types
  import opened Wire
  import opened Ouch
  import opened EngineSpec
  import opened EngineRuns
  import opened EngineLedger

  /** A frame and the account of the session it came from. */
  datatype Message = Message(account: nat, data: seq<Byte>)

  /** What the listener holds after a trade: the reports to the two owners. */
  datatype Responses = Responses(buy: Option<seq<Byte>>, sell: Option<seq<Byte>>)

  type Sessions = map<nat, Uint32>

  /** The engine's history, the order-to-user-reference map, and the messages that became orders. */
  datatype Exchange = Exchange(history: History, sessions: Sessions, entered: seq<Message>, reports: seq<Responses>)

  const OPENED := Exchange(START, map[], [], [])

  function ToExecuted(userRefNum: Uint32, t: Trade): Executed {
    Executed(0, userRefNum, t.quantity % U32, t.price % U64, LETTER_R, t.sequence % U64, 0)
  }

  function Report(sessions: Sessions, id: nat, t: Trade): Option<seq<Byte>> {
    if id in sessions then Some(ExecutedBytes(ToExecuted(sessions[id], t))) else None
  }

  function Reports(sessions: Sessions, trades: seq<Trade>): (r: seq<Responses>)
    ensures |r| == |trades|
    ensures forall k :: 0 <= k < |r| ==>
      r[k] == Responses(Report(sessions, trades[k].buyId, trades[k]), Report(sessions, trades[k].sellId, trades[k]))
  {
    seq(|trades|, k requires 0 <= k < |trades| =>
      Responses(Report(sessions, trades[k].buyId, trades[k]), Report(sessions, trades[k].sellId, trades[k])))
  }

  function ToSubmission(account: nat, o: EnterOrder): Submission {
    Submission(account, o.side, o.price, o.quantity)
  }

  function ToAccepted(o: EnterOrder, id: nat): Accepted {
    Accepted(0, o.userRefNum, o.side, o.quantity, o.symbol, o.price, o.timeInForce, o.display, id % U64,
             o.capacity, o.isoEligibility, o.crossType, LETTER_L, o.clOrdId, 0)
  }

  /** Registers the new order before matching it, so its own trades are already reported. */
  function Enter(x: Exchange, capacity: nat, m: Message, o: EnterOrder): Exchange {
    var r := Submit(x.history.engine, capacity, ToSubmission(m.account, o));
    var sessions := x.sessions[r.id := o.userRefNum];
    Exchange(Step(x.history, capacity, ToSubmission(m.account, o)), sessions, x.entered + [m],
             x.reports + Reports(sessions, r.trades))
  }

  /** A frame that does not decode, or finds the pool empty, changes nothing. */
  function Handle(x: Exchange, capacity: nat, m: Message): Exchange {
    var o := DecodeEnterOrder(m.data);
    if o.None? || Count(x.history.engine.book) >= capacity then x else Enter(x, capacity, m, o.value)
  }

  function Answer(x: Exchange, capacity: nat, m: Message): Option<seq<Byte>> {
    var o := DecodeEnterOrder(m.data);
    if o.None? || Count(x.history.engine.book) >= capacity then None
    else Some(AcceptedBytes(ToAccepted(o.value, x.history.engine.sequence + 1)))
  }

  function After(capacity: nat, ms: seq<Message>): Exchange {
    if ms == [] then OPENED else Handle(After(capacity, ms[..|ms| - 1]), capacity, ms[|ms| - 1])
  }

  // ---- An exchange run is an engine run ----

  /** The orders in the frames that decode. */
  function Orders(ms: seq<Message>): (os: seq<Submission>)
    ensures |os| <= |ms|
  {
    if ms == [] then []
    else
      var m := ms[|ms| - 1];
      var o := DecodeEnterOrder(m.data);
      Orders(ms[..|ms| - 1]) + if o.None? then [] else [ToSubmission(m.account, o.value)]
  }

  lemma {:induction false} IsEngineRun(capacity: nat, ms: seq<Message>)
    ensures After(capacity, ms).history == Run(capacity, Orders(ms))
  {
    hide DecodeEnterOrder, Step, Reports;
    if ms != [] {
      var before, m := ms[..|ms| - 1], ms[|ms| - 1];
      var o := DecodeEnterOrder(m.data);
      IsEngineRun(capacity, before);
      if o.Some? {
        assert Orders(ms)[..|Orders(before)|] == Orders(before);
        RefusedStep(Run(capacity, Orders(before)), capacity, ToSubmission(m.account, o.value));
      } else {
        assert Orders(ms) == Orders(before);
      }
    }
  }

  lemma RefusedStep(h: History, capacity: nat, o: Submission)
    ensures Count(h.engine.book) >= capacity ==> Step(h, capacity, o) == h
  {
  }

  // ---- Correlation ----

  /** The i-th accepted order is the one in the i-th message that was accepted. */
  predicate EnteredAs(x: Exchange, i: nat) {
    && i < |x.entered| && i < |x.history.accepted| && i < |x.history.ids|
    && var o := DecodeEnterOrder(x.entered[i].data);
    && o.Some?
    && var a := x.history.accepted[i];
    && a.account == x.entered[i].account && a.side == o.value.side
    && a.price == o.value.price && a.quantity == o.value.quantity
    && x.history.ids[i] in x.sessions
    && x.sessions[x.history.ids[i]] == o.value.userRefNum
  }

  predicate ReportedTo(x: Exchange, report: Option<seq<Byte>>, t: Trade, i: nat) {
    && i < |x.entered|
    && var o := DecodeEnterOrder(x.entered[i].data);
    && o.Some?
    && report == Some(ExecutedBytes(ToExecuted(o.value.userRefNum, t)))
  }

  /** Both owners of a trade are told, each under the reference of the message that entered its order. */
  ghost predicate Reported(x: Exchange, t: Trade, r: Responses) {
    exists i: nat, j: nat ::
      TradeOf(x.history, t, i, j) && ReportedTo(x, r.buy, t, i) && ReportedTo(x, r.sell, t, j)
  }

  ghost predicate Correlated(x: Exchange) {
    && |x.entered| == |x.history.accepted| == |x.history.ids|
    && (forall i :: 0 <= i < |x.entered| ==> EnteredAs(x, i))
    && |x.reports| == |x.history.trades|
    && (forall k :: 0 <= k < |x.reports| ==> Reported(x, x.history.trades[k], x.reports[k]))
  }

  /** What entering an order adds to the history. */
  lemma EnterAdds(x: Exchange, capacity: nat, m: Message, o: EnterOrder)
    requires Count(x.history.engine.book) < capacity
    ensures var x', id := Enter(x, capacity, m, o), x.history.engine.sequence + 1;
      && x'.history.ids == x.history.ids + [id]
      && x'.history.accepted == x.history.accepted + [ToSubmission(m.account, o)]
      && x'.sessions == x.sessions[id := o.userRefNum]
      && x.history.trades <= x'.history.trades
      && x'.reports == x.reports + Reports(x'.sessions, x'.history.trades[|x.history.trades|..])
  {
    hide Process, Reports;
    var r := Submit(x.history.engine, capacity, ToSubmission(m.account, o));
    assert (x.history.trades + r.trades)[|x.history.trades|..] == r.trades;
  }

  lemma EnteredStays(x: Exchange, capacity: nat, m: Message, o: EnterOrder, i: nat)
    requires Count(x.history.engine.book) < capacity && DecodeEnterOrder(m.data) == Some(o)
    requires Correlated(x) && Numbered(Enter(x, capacity, m, o).history)
    requires i <= |x.entered|
    ensures EnteredAs(Enter(x, capacity, m, o), i)
  {
    hide DecodeEnterOrder, Step, Reports, Submit, Reported;
    EnterAdds(x, capacity, m, o);
    var x' := Enter(x, capacity, m, o);
    if i < |x.entered| {
      assert EnteredAs(x, i);
      assert x'.history.ids[i] < x'.history.ids[|x.entered|];
    }
  }

  lemma OldReport(x: Exchange, capacity: nat, m: Message, o: EnterOrder, k: nat)
    requires Count(x.history.engine.book) < capacity && Correlated(x) && k < |x.reports|
    ensures Reported(Enter(x, capacity, m, o), x.history.trades[k], x.reports[k])
  {
    hide DecodeEnterOrder, Step, Reports, Submit, EnteredAs;
    EnterAdds(x, capacity, m, o);
    var x', t, r := Enter(x, capacity, m, o), x.history.trades[k], x.reports[k];
    var i: nat, j: nat :|
      TradeOf(x.history, t, i, j) && ReportedTo(x, r.buy, t, i) && ReportedTo(x, r.sell, t, j);
    assert TradeOf(x'.history, t, i, j) && ReportedTo(x', r.buy, t, i) && ReportedTo(x', r.sell, t, j);
  }

  lemma NewReport(x: Exchange, t: Trade)
    requires |x.entered| == |x.history.accepted| == |x.history.ids|
    requires forall i :: 0 <= i < |x.entered| ==> EnteredAs(x, i)
    requires HasOrders(x.history, t)
    ensures Reported(x, t, Responses(Report(x.sessions, t.buyId, t), Report(x.sessions, t.sellId, t)))
  {
    hide DecodeEnterOrder, ExecutedBytes;
    var i: nat, j: nat :| TradeOf(x.history, t, i, j);
    assert EnteredAs(x, i) && EnteredAs(x, j);
    assert ReportedTo(x, Report(x.sessions, t.buyId, t), t, i);
    assert ReportedTo(x, Report(x.sessions, t.sellId, t), t, j);
  }

  lemma EnterCorrelated(x: Exchange, capacity: nat, m: Message, o: EnterOrder)
    requires Count(x.history.engine.book) < capacity && DecodeEnterOrder(m.data) == Some(o)
    requires Correlated(x) && Numbered(Enter(x, capacity, m, o).history) && Explained(Enter(x, capacity, m, o).history)
    ensures Correlated(Enter(x, capacity, m, o))
  {
    hide DecodeEnterOrder, Step, Submit, EnteredAs, Reported, HasOrders, HasOrigin, Numbered;
    var x' := Enter(x, capacity, m, o);
    EnterAdds(x, capacity, m, o);
    forall i | 0 <= i < |x'.entered| ensures EnteredAs(x', i) {
      EnteredStays(x, capacity, m, o, i);
    }
    forall k | 0 <= k < |x'.reports| ensures Reported(x', x'.history.trades[k], x'.reports[k]) {
      if k < |x.reports| {
        OldReport(x, capacity, m, o, k);
      } else {
        NewReport(x', x'.history.trades[k]);
      }
    }
  }

  /**
   On any run of frames, both orders of every trade are registered when it is reported, so both owners
   get an Executed, each with the user reference of the very message that entered its order.
   */
  lemma {:induction false} EveryTradeIsReported(capacity: nat, ms: seq<Message>)
    ensures Correlated(After(capacity, ms))
  {
    hide DecodeEnterOrder, Correlated, Explained, Numbered, Enter, Step;
    if ms == [] {
      NothingYet();
    } else {
      var before, m := ms[..|ms| - 1], ms[|ms| - 1];
      var x, o := After(capacity, before), DecodeEnterOrder(m.data);
      EveryTradeIsReported(capacity, before);
      if o.Some? && Count(x.history.engine.book) < capacity {
        IsEngineRun(capacity, ms);
        EveryTradeIsExplained(capacity, Orders(ms));
        NumbersAreDistinct(capacity, Orders(ms));
        EnterCorrelated(x, capacity, m, o.value);
      }
    }
  }

  lemma NothingYet()
    ensures Correlated(OPENED)
  {
  }

  // ---- What the reports say ----

  /** A trade never exceeds the quantity either of its orders came with. */
  lemma TradeFits(capacity: nat, os: seq<Submission>, k: nat, i: nat, id: nat)
    requires var h := Run(capacity, os);
      && k < |h.trades| && i < |h.ids| && i < |h.accepted| && h.ids[i] == id
      && (h.trades[k].buyId == id || h.trades[k].sellId == id)
    ensures Run(capacity, os).trades[k].quantity <= Run(capacity, os).accepted[i].quantity
  {
    hide Step;
    var h := Run(capacity, os);
    EveryOrderAddsUp(capacity, os, id);
    NumbersAreDistinct(capacity, os);
    SubmittedOnce(h.ids, h.accepted, i);
    ExecutedAtLeast(h.trades, k, id);
  }

  lemma {:induction false} ExecutedAtLeast(trades: seq<Trade>, k: nat, id: nat)
    requires k < |trades|
    ensures EngineLedger.Executed(trades, id) >= Part(trades[k], id)
  {
    if k > 0 {
      ExecutedAtLeast(trades[1..], k - 1, id);
    }
  }

  lemma {:induction false} SubmittedOnce(ids: seq<nat>, accepted: seq<Submission>, i: nat)
    requires |ids| == |accepted| && i < |ids| && forall a, b :: 0 <= a < b < |ids| ==> ids[a] < ids[b]
    ensures SubmittedQuantity(ids, accepted, ids[i]) == accepted[i].quantity
  {
    var last := |ids| - 1;
    if i < last {
      SubmittedOnce(ids[..last], accepted[..last], i);
    } else {
      NotSubmitted(ids[..last], accepted[..last], ids[last]);
    }
  }

  lemma {:induction false} NotSubmitted(ids: seq<nat>, accepted: seq<Submission>, id: nat)
    requires |ids| == |accepted| && id !in ids
    ensures SubmittedQuantity(ids, accepted, id) == 0
  {
    if ids != [] {
      NotSubmitted(ids[..|ids| - 1], accepted[..|ids| - 1], id);
    }
  }

  /** The Executed that the owner of the i-th order reads: the trade's figures, under its own reference. */
  predicate Says(x: Exchange, report: Option<seq<Byte>>, t: Trade, i: nat) {
    && report.Some? && i < |x.entered|
    && var e, o := DecodeExecuted(report.value), DecodeEnterOrder(x.entered[i].data);
    && e.Some? && o.Some?
    && e.value.timestamp == 0
    && e.value.userRefNum == o.value.userRefNum
    && e.value.quantity == t.quantity
    && e.value.price == t.price
    && e.value.liquidityFlag == 82
    && e.value.matchNumber == t.sequence
    && e.value.appendageLength == 0
  }

  lemma ReportSays(x: Exchange, report: Option<seq<Byte>>, t: Trade, i: nat)
    requires ReportedTo(x, report, t, i) && t.quantity < U32 && t.price < U64 && t.sequence < U64
    ensures Says(x, report, t, i)
  {
    hide DecodeEnterOrder, DecodeExecuted, ExecutedBytes;
    var o := DecodeEnterOrder(x.entered[i].data).value;
    ExecutedRoundTrip(ToExecuted(o.userRefNum, t), []);
    assert report.value + [] == report.value;
  }

  /**
   The two reports of trade k decode to its quantity, its price and one shared match number, and each
   carries the user reference of the message that entered the order it is about.
   */
  lemma ReportsDecode(capacity: nat, ms: seq<Message>, k: nat) returns (i: nat, j: nat)
    requires k < |After(capacity, ms).history.trades| && FIRST_SEQUENCE + 2 * |ms| < U64
    ensures var x := After(capacity, ms);
      && |x.reports| == |x.history.trades|
      && TradeOf(x.history, x.history.trades[k], i, j)
      && Says(x, x.reports[k].buy, x.history.trades[k], i)
      && Says(x, x.reports[k].sell, x.history.trades[k], j)
  {
    hide DecodeEnterOrder, Step, After, Says;
    var x := After(capacity, ms);
    var t := x.history.trades[k];
    EveryTradeIsReported(capacity, ms);
    i, j :| TradeOf(x.history, t, i, j)
         && ReportedTo(x, x.reports[k].buy, t, i) && ReportedTo(x, x.reports[k].sell, t, j);
    assert EnteredAs(x, i);
    IsEngineRun(capacity, ms);
    TradeFits(capacity, Orders(ms), k, i, t.buyId);
    NumbersAreDistinct(capacity, Orders(ms));
    RunStructure(capacity, Orders(ms));
    ReportSays(x, x.reports[k].buy, t, i);
    ReportSays(x, x.reports[k].sell, t, j);
  }

  /** A frame of at least 47 bytes that starts with O, while fewer than `capacity` orders rest. */
  predicate Takes(x: Exchange, capacity: nat, m: Message) {
    |m.data| >= 47 && m.data[0] == 79 && |x.history.engine.book.bids| + |x.history.engine.book.asks| < capacity
  }

  /** A message is answered if and only if it became an order, which is when the exchange can take it. */
  lemma AnsweredIff(x: Exchange, capacity: nat, m: Message)
    ensures Answer(x, capacity, m).Some? <==> Takes(x, capacity, m)
    ensures Takes(x, capacity, m) <==> |Handle(x, capacity, m).history.ids| == |x.history.ids| + 1
    ensures !Takes(x, capacity, m) ==> Handle(x, capacity, m) == x
  {
    hide Process, Reports;
    var o := DecodeEnterOrder(m.data);
    if Takes(x, capacity, m) {
      EnterAdds(x, capacity, m, o.value);
    }
  }

  /** The messages that the exchange could take, each when its turn came. */
  function Taken(capacity: nat, ms: seq<Message>): seq<Message> {
    if ms == [] then []
    else
      var before, m := ms[..|ms| - 1], ms[|ms| - 1];
      Taken(capacity, before) + if Takes(After(capacity, before), capacity, m) then [m] else []
  }

  /** On every run the orders are those of the taken messages, one each, in order. */
  lemma {:induction false} EnteredAreTaken(capacity: nat, ms: seq<Message>)
    ensures After(capacity, ms).entered == Taken(capacity, ms)
  {
    hide DecodeEnterOrder, Step, Reports;
    if ms != [] {
      EnteredAreTaken(capacity, ms[..|ms| - 1]);
      AnsweredIff(After(capacity, ms[..|ms| - 1]), capacity, ms[|ms| - 1]);
    }
  }

  /** The answer to a message that is taken decodes to its own fields and the id of the new order. */
  lemma AnswerDecodes(x: Exchange, capacity: nat, m: Message)
    requires Takes(x, capacity, m) && x.history.engine.sequence + 1 < U64
    ensures Answer(x, capacity, m).Some? && DecodeEnterOrder(m.data).Some?
    ensures var o, a := DecodeEnterOrder(m.data).value, DecodeAccepted(Answer(x, capacity, m).value);
      && Handle(x, capacity, m).history.ids == x.history.ids + [x.history.engine.sequence + 1]
      && a.Some?
      && a.value.orderReferenceNumber == x.history.engine.sequence + 1
      && a.value.userRefNum == o.userRefNum && a.value.clOrdId == o.clOrdId
      && a.value.side == o.side && a.value.quantity == o.quantity && a.value.price == o.price
      && a.value.symbol == o.symbol && a.value.timeInForce == o.timeInForce && a.value.display == o.display
      && a.value.capacity == o.capacity && a.value.isoEligibility == o.isoEligibility
      && a.value.crossType == o.crossType
      && a.value.orderState == 76 && a.value.timestamp == 0 && a.value.appendageLength == 0
  {
    hide DecodeEnterOrder, DecodeAccepted, AcceptedBytes;
    var o := DecodeEnterOrder(m.data).value;
    EnterAdds(x, capacity, m, o);
    AcceptedRoundTrip(ToAccepted(o, x.history.engine.sequence + 1), []);
    assert Answer(x, capacity, m).value + [] == Answer(x, capacity, m).value;
  }
}
