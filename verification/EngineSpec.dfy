/** The matching engine as a function of its book: what one submission does and what it publishes. */
module EngineSpec {

  import opened Types
  import opened BookSpec

  datatype Submission = Submission(account: nat, side: Side, price: nat, quantity: nat)

  /** The book and the last number drawn from the sequencer. */
  datatype Engine = Engine(book: Book, sequence: nat)

  datatype Outcome = Outcome(engine: Engine, id: nat, trades: seq<Trade>)

  const FIRST_SEQUENCE: nat := 1000

  const INITIAL := Engine(EMPTY, FIRST_SEQUENCE)

  /** The trade report of one fill: at the resting price, numbered by the sequencer. */
  function ToTrade(side: Side, id: nat, account: nat, f: Fill, sequence: nat): Trade {
    if side.Buy?
    then Trade(sequence, id, f.resting.id, account, f.resting.account, f.resting.price, f.quantity)
    else Trade(sequence, f.resting.id, id, f.resting.account, account, f.resting.price, f.quantity)
  }

  /** The reports of several fills, numbered from `sequence + 1` on. */
  function ToTrades(side: Side, id: nat, account: nat, fills: seq<Fill>, sequence: nat): (trades: seq<Trade>)
    ensures |trades| == |fills|
    ensures forall i :: 0 <= i < |fills| ==> trades[i] == ToTrade(side, id, account, fills[i], sequence + 1 + i)
  {
    seq(|fills|, i requires 0 <= i < |fills| => ToTrade(side, id, account, fills[i], sequence + 1 + i))
  }

  predicate CanCross(b: Book, side: Side, price: nat) {
    var q := b.On(side.Opposite());
    q != [] && Crosses(side, price, q[0].price)
  }

  /** Matching an order that has its id already. */
  function Process(e: Engine, id: nat, o: Submission): (r: Outcome)
    ensures r.id == id
  {
    if CanCross(e.book, o.side, o.price) then
      var m := Match(o.side, o.price, o.quantity, e.book.On(o.side.Opposite()));
      Outcome(Engine(Settled(e.book, id, o, m), e.sequence + |m.fills|), id,
              ToTrades(o.side, id, o.account, m.fills, e.sequence))
    else
      Outcome(e.(book := AddTo(e.book, o.side, Resting(id, o.account, o.price, o.quantity))), id, [])
  }

  /** The book after a match: the opposite queue shrinks, and what is left of the order rests. */
  function Settled(b: Book, id: nat, o: Submission, m: Matched): Book {
    var b' := b.With(o.side.Opposite(), m.rest);
    if m.left > 0 then AddTo(b', o.side, Resting(id, o.account, o.price, m.left)) else b'
  }

  function Count(b: Book): nat {
    |b.bids| + |b.asks|
  }

  /** A submission is refused, with id 0, exactly when `capacity` orders rest; otherwise it draws its id. */
  function Submit(e: Engine, capacity: nat, o: Submission): Outcome {
    if Count(e.book) >= capacity then Outcome(e, 0, [])
    else Process(e.(sequence := e.sequence + 1), e.sequence + 1, o)
  }

  // ---- One iteration of the match loop ----

  /** The head of the queue after trading `t` with it. */
  function AfterFill(q: Queue, t: nat): Queue {
    if q == [] then []
    else if t >= q[0].quantity then q[1..]
    else [q[0].(quantity := q[0].quantity - t)] + q[1..]
  }

  lemma HeadFilled(b: Book, side: Side, t: nat)
    requires b.On(side) != [] && t <= b.On(side)[0].quantity
    ensures var o := b.On(side)[0];
      var b' := SetIn(b, side, o.id, o.quantity - t);
      && b'.On(side) != [] && b'.On(side)[0] == o.(quantity := o.quantity - t)
      && (if t == o.quantity then RemoveFrom(b', side, o.id) else b') == b.With(side, AfterFill(b.On(side), t))
  {
  }

  /** Unrolling the loop once: the fill with the head, then the rest unless the head was empty. */
  lemma MatchUnrolled(side: Side, limit: nat, quantity: nat, q: Queue)
    requires quantity > 0 && q != [] && Crosses(side, limit, q[0].price)
    ensures var t := Min(quantity, q[0].quantity);
      var r := Match(side, limit, quantity - t, AfterFill(q, t));
      Match(side, limit, quantity, q) ==
        if t == 0 then Matched([Fill(q[0], 0)], q[1..], quantity)
        else Matched([Fill(q[0], t)] + r.fills, r.rest, r.left)
  {
    var t := Min(quantity, q[0].quantity);
    if 0 < t < q[0].quantity {
      assert Match(side, limit, 0, AfterFill(q, t)).fills == [];
      assert [Fill(q[0], t)] + [] == [Fill(q[0], t)];
    }
  }

  lemma AfterFillIds(b: Book, side: Side, t: nat)
    ensures BookIds(b.With(side, AfterFill(b.On(side), t))) <= BookIds(b)
  {
    var q := b.On(side);
    if q != [] {
      HeadIds(q);
      if t < q[0].quantity {
        HeadIds(AfterFill(q, t));
      }
    }
  }

  datatype Iteration = Iteration(engine: Engine, left: nat, trades: seq<Trade>, traded: bool)

  /** One trade with the head of the opposite queue, if there is one. */
  function MatchOne(e: Engine, id: nat, o: Submission): Iteration {
    var q := e.book.On(o.side.Opposite());
    if q == [] then Iteration(e, o.quantity, [], false)
    else
      var t := Min(o.quantity, q[0].quantity);
      Iteration(Engine(e.book.With(o.side.Opposite(), AfterFill(q, t)), e.sequence + 1), o.quantity - t,
                [ToTrade(o.side, id, o.account, Fill(q[0], t), e.sequence + 1)], t > 0)
  }

  /** After the fills `done`, engine `e` and quantity `left`, the fills still to come complete the match. */
  ghost predicate Progress(e0: Engine, id: nat, o: Submission, e: Engine, left: nat, done: seq<Fill>,
    trades: seq<Trade>) {
    var m := Match(o.side, o.price, o.quantity, e0.book.On(o.side.Opposite()));
    var q := e.book.On(o.side.Opposite());
    var r := Match(o.side, o.price, left, q);
    && e == Engine(e0.book.With(o.side.Opposite(), q), e0.sequence + |done|)
    && trades == ToTrades(o.side, id, o.account, done, e0.sequence)
    && m == Matched(done + r.fills, r.rest, r.left)
  }

  /** The fills `done` are the whole match. */
  ghost predicate Complete(e0: Engine, id: nat, o: Submission, e: Engine, left: nat, trades: seq<Trade>) {
    var m := Match(o.side, o.price, o.quantity, e0.book.On(o.side.Opposite()));
    && e == Engine(e0.book.With(o.side.Opposite(), m.rest), e0.sequence + |m.fills|)
    && left == m.left
    && trades == ToTrades(o.side, id, o.account, m.fills, e0.sequence)
  }

  lemma ProgressStarts(e: Engine, id: nat, o: Submission)
    ensures Progress(e, id, o, e, o.quantity, [], [])
  {
    var r := Match(o.side, o.price, o.quantity, e.book.On(o.side.Opposite()));
    assert [] + r.fills == r.fills;
  }

  /** An iteration makes progress, or completes the match when it traded nothing. */
  lemma ProgressStep(e0: Engine, id: nat, o: Submission, e: Engine, left: nat, done: seq<Fill>, trades: seq<Trade>)
    returns (f: Fill)
    requires Progress(e0, id, o, e, left, done, trades)
    requires left > 0 && CanCross(e.book, o.side, o.price)
    ensures var i := MatchOne(e, id, o.(quantity := left));
      if i.traded
      then i.left < left && Progress(e0, id, o, i.engine, i.left, done + [f], trades + i.trades)
      else Complete(e0, id, o, i.engine, i.left, trades + i.trades)
  {
    hide Match, ToTrades, ToTrade;
    var q := e.book.On(o.side.Opposite());
    var t := Min(left, q[0].quantity);
    f := Fill(q[0], t);
    MatchUnrolled(o.side, o.price, left, q);
    MoreTrades(o.side, id, o.account, done, f, e0.sequence);
    var r := Match(o.side, o.price, left - t, AfterFill(q, t));
    assert done + ([f] + r.fills) == (done + [f]) + r.fills;
  }

  /** The report of one more fill comes last, with the next number. */
  lemma MoreTrades(side: Side, id: nat, account: nat, done: seq<Fill>, f: Fill, sequence: nat)
    ensures ToTrades(side, id, account, done + [f], sequence)
         == ToTrades(side, id, account, done, sequence) + [ToTrade(side, id, account, f, sequence + |done| + 1)]
  {
  }

  lemma ProgressEnds(e0: Engine, id: nat, o: Submission, e: Engine, left: nat, done: seq<Fill>, trades: seq<Trade>)
    requires Progress(e0, id, o, e, left, done, trades)
    requires left == 0 || !CanCross(e.book, o.side, o.price)
    ensures Complete(e0, id, o, e, left, trades)
  {
    assert done + [] == done;
  }

  /** An order never trades more often than orders rest on the other side. */
  lemma FewFills(e: Engine, o: Submission)
    ensures |Match(o.side, o.price, o.quantity, e.book.On(o.side.Opposite())).fills| <= |e.book.On(o.side.Opposite())|
  {
    var q := e.book.On(o.side.Opposite());
    var m := Match(o.side, o.price, o.quantity, q);
    FillsCross(o.side, o.price, o.quantity, q);
    if m.fills != [] {
      var last := m.fills[|m.fills| - 1];
      assert last.quantity <= last.resting.quantity;
    }
  }

  /** While the loop has an iteration to do, another number can be drawn. */
  lemma AnotherNumber(e0: Engine, id: nat, o: Submission, e: Engine, left: nat, done: seq<Fill>, trades: seq<Trade>)
    requires Progress(e0, id, o, e, left, done, trades)
    requires left > 0 && CanCross(e.book, o.side, o.price)
    ensures e.sequence < e0.sequence + Count(e0.book)
  {
    FewFills(e0, o);
    MatchUnrolled(o.side, o.price, left, e.book.On(o.side.Opposite()));
  }
}
