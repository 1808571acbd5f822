/** The OUCH-style messages between client and exchange: fixed layouts, encoders and decoders. */
module Ouch {

  import opened Types
  import opened Wire

  type Symbol = s: seq<Byte> | |s| == 8 witness [0, 0, 0, 0, 0, 0, 0, 0]
  type ClOrdId = s: seq<Byte> | |s| == 14 witness [0, 0, 0, 0, 0, 0, 0, 0, 0, 0, 0, 0, 0, 0]

  /** The one-character enumerations are bytes: the program casts any byte to them and back. */
  datatype EnterOrder = EnterOrder(
    userRefNum: Uint32,
    side: Side,
    quantity: Uint32,
    symbol: Symbol,
    price: Uint64,
    timeInForce: Byte,
    display: Byte,
    capacity: Byte,
    isoEligibility: Byte,
    crossType: Byte,
    clOrdId: ClOrdId,
    appendageLength: Uint16)

  datatype Accepted = Accepted(
    timestamp: Uint64,
    userRefNum: Uint32,
    side: Side,
    quantity: Uint32,
    symbol: Symbol,
    price: Uint64,
    timeInForce: Byte,
    display: Byte,
    orderReferenceNumber: Uint64,
    capacity: Byte,
    isoEligibility: Byte,
    crossType: Byte,
    orderState: Byte,
    clOrdId: ClOrdId,
    appendageLength: Uint16)

  datatype Executed = Executed(
    timestamp: Uint64,
    userRefNum: Uint32,
    quantity: Uint32,
    price: Uint64,
    liquidityFlag: Byte,
    matchNumber: Uint64,
    appendageLength: Uint16)

  const SPACE: Byte := 32
  const LETTER_A: Byte := 65
  const LETTER_B: Byte := 66
  const LETTER_E: Byte := 69
  const LETTER_L: Byte := 76
  const LETTER_O: Byte := 79
  const LETTER_R: Byte := 82
  const LETTER_S: Byte := 83

  const ENTER_ORDER_SIZE: nat := 47
  const ACCEPTED_SIZE: nat := 64
  const EXECUTED_SIZE: nat := 36

  function SideByte(side: Side): Byte {
    if side.Buy? then LETTER_B else LETTER_S
  }

  /** Every byte but 'B' reads as a sell. */
  function SideOf(b: Byte): Side {
    if b == LETTER_B then Buy else Sell
  }

  // ---- Layouts: the fields in the order of their offsets ----

  /** The encoder always announces no appendage. */
  function EnterOrderBytes(o: EnterOrder): (s: seq<Byte>)
    ensures |s| == ENTER_ORDER_SIZE
  {
    [LETTER_O] + Digits(4, o.userRefNum) + [SideByte(o.side)] + Digits(4, o.quantity) + o.symbol
    + Digits(8, o.price) + [o.timeInForce, o.display, o.capacity, o.isoEligibility, o.crossType]
    + o.clOrdId + Digits(2, 0)
  }

  function AcceptedBytes(a: Accepted): (s: seq<Byte>)
    ensures |s| == ACCEPTED_SIZE
  {
    [LETTER_A] + Digits(8, a.timestamp) + Digits(4, a.userRefNum) + [SideByte(a.side)] + Digits(4, a.quantity)
    + a.symbol + Digits(8, a.price) + [a.timeInForce, a.display] + Digits(8, a.orderReferenceNumber)
    + [a.capacity, a.isoEligibility, a.crossType, a.orderState] + a.clOrdId + Digits(2, a.appendageLength)
  }

  function ExecutedBytes(e: Executed): (s: seq<Byte>)
    ensures |s| == EXECUTED_SIZE
  {
    [LETTER_E] + Digits(8, e.timestamp) + Digits(4, e.userRefNum) + Digits(4, e.quantity) + Digits(8, e.price)
    + [e.liquidityFlag] + Digits(8, e.matchNumber) + Digits(2, e.appendageLength)
  }

  // ---- Encoders: fill a buffer at fixed offsets ----

  method EncodeEnterOrder(o: EnterOrder) returns (buffer: array<Byte>)
    ensures fresh(buffer) && buffer[..] == EnterOrderBytes(o)
  {
    hide Digits;
    buffer := new Byte[ENTER_ORDER_SIZE](_ => SPACE);
    buffer[0] := LETTER_O;
    assert buffer[..1] == [LETTER_O];
    WriteUint32(buffer, 1, o.userRefNum);
    WriteBytes(buffer, 5, [SideByte(o.side)]);
    WriteUint32(buffer, 6, o.quantity);
    WriteBytes(buffer, 10, o.symbol);
    WriteUint64(buffer, 18, o.price);
    WriteBytes(buffer, 26, [o.timeInForce, o.display, o.capacity, o.isoEligibility, o.crossType]);
    WriteBytes(buffer, 31, o.clOrdId);
    WriteUint16(buffer, 45, 0);
    assert buffer[..47] == buffer[..];
  }

  method EncodeAccepted(a: Accepted) returns (buffer: array<Byte>)
    ensures fresh(buffer) && buffer[..] == AcceptedBytes(a)
  {
    hide Digits;
    buffer := new Byte[ACCEPTED_SIZE](_ => SPACE);
    buffer[0] := LETTER_A;
    assert buffer[..1] == [LETTER_A];
    WriteUint64(buffer, 1, a.timestamp);
    WriteUint32(buffer, 9, a.userRefNum);
    WriteBytes(buffer, 13, [SideByte(a.side)]);
    WriteUint32(buffer, 14, a.quantity);
    WriteBytes(buffer, 18, a.symbol);
    WriteUint64(buffer, 26, a.price);
    WriteBytes(buffer, 34, [a.timeInForce, a.display]);
    WriteUint64(buffer, 36, a.orderReferenceNumber);
    WriteBytes(buffer, 44, [a.capacity, a.isoEligibility, a.crossType, a.orderState]);
    WriteBytes(buffer, 48, a.clOrdId);
    WriteUint16(buffer, 62, a.appendageLength);
    assert buffer[..64] == buffer[..];
  }

  method EncodeExecuted(e: Executed) returns (buffer: array<Byte>)
    ensures fresh(buffer) && buffer[..] == ExecutedBytes(e)
  {
    hide Digits;
    buffer := new Byte[EXECUTED_SIZE](_ => 0);
    buffer[0] := LETTER_E;
    assert buffer[..1] == [LETTER_E];
    WriteUint64(buffer, 1, e.timestamp);
    WriteUint32(buffer, 9, e.userRefNum);
    WriteUint32(buffer, 13, e.quantity);
    WriteUint64(buffer, 17, e.price);
    WriteBytes(buffer, 25, [e.liquidityFlag]);
    WriteUint64(buffer, 26, e.matchNumber);
    WriteUint16(buffer, 34, e.appendageLength);
    assert buffer[..36] == buffer[..];
  }

  // ---- Decoders: read the fields at their offsets ----

  function Read64(s: seq<Byte>): (r: Uint64)
    requires |s| == 8
    ensures r == BigEndian(s)
  {
    DigitsOfRead(s);
    Widths();
    BigEndian(s)
  }

  /** Too short or of another type: none. An announced appendage is accepted without its bytes. */
  function DecodeEnterOrder(s: seq<Byte>): (r: Option<EnterOrder>)
    ensures r.None? <==> |s| < 47 || s[0] != 79
    ensures r.Some? ==> (r.value.side == Buy <==> s[5] == 66)
  {
    if |s| < ENTER_ORDER_SIZE || s[0] != LETTER_O then None
    else
      Some(EnterOrder(ReadUint32(s[1..]), SideOf(s[5]), ReadUint32(s[6..]), s[10..18], Read64(s[18..26]),
                      s[26], s[27], s[28], s[29], s[30], s[31..45], ReadUint16(s[45..])))
  }

  /** None also when the announced appendage is not all there. */
  function DecodeAccepted(s: seq<Byte>): (r: Option<Accepted>)
    ensures r.None? <==>
      |s| < 64 || s[0] != 65 || |s| < 64 + BigEndian(s[62..64])
    ensures r.Some? ==> (r.value.side == Buy <==> s[13] == 66)
  {
    if |s| < ACCEPTED_SIZE || s[0] != LETTER_A then None
    else
      var a := Accepted(Read64(s[1..9]), ReadUint32(s[9..]), SideOf(s[13]), ReadUint32(s[14..]), s[18..26],
                        Read64(s[26..34]), s[34], s[35], Read64(s[36..44]), s[44], s[45], s[46], s[47],
                        s[48..62], ReadUint16(s[62..]));
      assert s[62..][..2] == s[62..64];
      if |s| < ACCEPTED_SIZE + a.appendageLength then None else Some(a)
  }

  function DecodeExecuted(s: seq<Byte>): (r: Option<Executed>)
    ensures r.None? <==>
      |s| < 36 || s[0] != 69 || |s| < 36 + BigEndian(s[34..36])
  {
    if |s| < EXECUTED_SIZE || s[0] != LETTER_E then None
    else
      var e := Executed(Read64(s[1..9]), ReadUint32(s[9..]), ReadUint32(s[13..]), Read64(s[17..25]), s[25],
                        Read64(s[26..34]), ReadUint16(s[34..]));
      assert s[34..][..2] == s[34..36];
      if |s| < EXECUTED_SIZE + e.appendageLength then None else Some(e)
  }

  // ---- Round trips ----

  /** The layout of an EnterOrder, offset by offset. */
  lemma EnterOrderFields(o: EnterOrder)
    ensures var s := EnterOrderBytes(o);
      && |s| == 47 && s[0] == 79
      && s[1..][..4] == Digits(4, o.userRefNum) && s[5] == (if o.side.Buy? then 66 else 83)
      && s[6..][..4] == Digits(4, o.quantity) && s[10..18] == o.symbol && s[18..26] == Digits(8, o.price)
      && s[26..31] == [o.timeInForce, o.display, o.capacity, o.isoEligibility, o.crossType]
      && s[31..45] == o.clOrdId && s[45..][..2] == Digits(2, 0)
  {
    hide Digits;
    var s := EnterOrderBytes(o);
    var front := [LETTER_O] + Digits(4, o.userRefNum) + [SideByte(o.side)] + Digits(4, o.quantity);
    var middle := o.symbol + Digits(8, o.price);
    var back := [o.timeInForce, o.display, o.capacity, o.isoEligibility, o.crossType] + o.clOrdId + Digits(2, 0);
    assert s == front + middle + back;
    assert s[..10] == front && s[10..26] == middle && s[26..] == back;
    assert front[1..5] == s[1..][..4] && front[6..10] == s[6..][..4];
    assert middle[..8] == s[10..18] && middle[8..16] == s[18..26];
    assert back[..5] == s[26..31] && back[5..19] == s[31..45] && back[19..21] == s[45..][..2];
  }

  /** Decoding what was encoded gives the order back, with no appendage. */
  lemma EnterOrderRoundTrip(o: EnterOrder)
    ensures DecodeEnterOrder(EnterOrderBytes(o)) == Some(o.(appendageLength := 0))
  {
    hide Digits, EnterOrderBytes, BigEndian;
    var s := EnterOrderBytes(o);
    EnterOrderFields(o);
    assert s[26..31][0] == s[26] && s[26..31][1] == s[27] && s[26..31][2] == s[28]
        && s[26..31][3] == s[29] && s[26..31][4] == s[30];
    Round32(o.userRefNum);
    Round32(o.quantity);
    Round64(o.price);
    Round16(0);
  }

  /** So the bytes determine everything but the appendage length, which is not sent. */
  lemma EnterOrderInjective(a: EnterOrder, b: EnterOrder)
    ensures EnterOrderBytes(a) == EnterOrderBytes(b) <==> a.(appendageLength := 0) == b.(appendageLength := 0)
  {
    EnterOrderRoundTrip(a);
    EnterOrderRoundTrip(b);
  }

  /**
   Encoding what was decoded gives the message back byte for byte, but for the side byte, where anything
   that is not B becomes S, and the appendage length, which becomes 0.
   */
  lemma EnterOrderNormalized(s: seq<Byte>)
    requires DecodeEnterOrder(s).Some?
    ensures EnterOrderBytes(DecodeEnterOrder(s).value)
         == s[..5] + [if s[5] == 66 then 66 else 83] + s[6..45] + [0, 0]
    ensures DecodeEnterOrder(s).value.appendageLength == 256 * (s[45] as nat) + s[46] as nat
  {
    hide Digits, EnterOrderBytes, BigEndian;
    var o := DecodeEnterOrder(s).value;
    var t := EnterOrderBytes(o);
    EnterOrderFields(o);
    DigitsOfRead(s[1..][..4]);
    DigitsOfRead(s[6..][..4]);
    DigitsOfRead(s[18..26]);
    ZeroDigits();
    EnterOrderParts(s);
    EnterOrderParts(t);
    assert t[26..31] == s[26..31];
    assert t == t[..47];
  }

  lemma EnterOrderParts(s: seq<Byte>)
    requires |s| >= 47
    ensures s[..5] == s[..1] + s[1..][..4]
    ensures s[6..45] == s[6..][..4] + s[10..18] + s[18..26] + s[26..31] + s[31..45]
    ensures s[..47] == s[..5] + [s[5]] + s[6..45] + s[45..][..2]
  {
  }

  /** So the bytes come back as they were if and only if the side byte is B or S and no appendage is announced. */
  lemma EnterOrderReencode(s: seq<Byte>)
    requires DecodeEnterOrder(s).Some?
    ensures EnterOrderBytes(DecodeEnterOrder(s).value) == s[..47] <==> s[5] in {66, 83} && s[45..47] == [0, 0]
  {
    hide DecodeEnterOrder, EnterOrderBytes;
    EnterOrderNormalized(s);
    EnterOrderParts(s);
    var t := s[..5] + [if s[5] == 66 then 66 else 83] + s[6..45] + [0, 0];
    assert s[45..][..2] == s[45..47];
    assert t[5] == (if s[5] == 66 then 66 else 83) && t[45..47] == [0, 0];
    assert s[..47][45..47] == s[45..47];
  }

  lemma ZeroDigits()
    ensures Digits(2, 0) == [0, 0]
  {
    assert Digits(1, 0) == [0];
  }

  lemma AcceptedFields(a: Accepted, tail: seq<Byte>)
    ensures var s := AcceptedBytes(a) + tail;
      && |AcceptedBytes(a)| == 64 && s[0] == 65
      && s[1..9] == Digits(8, a.timestamp) && s[9..][..4] == Digits(4, a.userRefNum)
      && s[13] == (if a.side.Buy? then 66 else 83) && s[14..][..4] == Digits(4, a.quantity) && s[18..26] == a.symbol
      && s[26..34] == Digits(8, a.price) && s[34..36] == [a.timeInForce, a.display]
      && s[36..44] == Digits(8, a.orderReferenceNumber)
      && s[44..48] == [a.capacity, a.isoEligibility, a.crossType, a.orderState]
      && s[48..62] == a.clOrdId && s[62..][..2] == Digits(2, a.appendageLength)
  {
    hide Digits;
    var s := AcceptedBytes(a) + tail;
    var front := [LETTER_A] + Digits(8, a.timestamp) + Digits(4, a.userRefNum) + [SideByte(a.side)]
               + Digits(4, a.quantity);
    var middle := a.symbol + Digits(8, a.price) + [a.timeInForce, a.display];
    var numbers := Digits(8, a.orderReferenceNumber)
                 + [a.capacity, a.isoEligibility, a.crossType, a.orderState];
    var back := a.clOrdId + Digits(2, a.appendageLength) + tail;
    assert s == front + middle + numbers + back;
    assert s[..18] == front && s[18..36] == middle && s[36..48] == numbers && s[48..] == back;
    assert front[1..9] == s[1..9] && front[9..13] == s[9..][..4] && front[14..18] == s[14..][..4];
    assert middle[..8] == s[18..26] && middle[8..16] == s[26..34] && middle[16..18] == s[34..36];
    assert numbers[..8] == s[36..44] && numbers[8..12] == s[44..48];
    assert back[..14] == s[48..62] && back[14..16] == s[62..][..2];
  }

  /** With `tail` following it, an encoded Accepted decodes to itself iff its appendage is all there. */
  lemma AcceptedRoundTrip(a: Accepted, tail: seq<Byte>)
    ensures DecodeAccepted(AcceptedBytes(a) + tail) == if |tail| >= a.appendageLength then Some(a) else None
  {
    hide Digits, AcceptedBytes, BigEndian;
    var s := AcceptedBytes(a) + tail;
    AcceptedFields(a, tail);
    assert s[34..36][0] == s[34] && s[34..36][1] == s[35];
    assert s[44..48][0] == s[44] && s[44..48][1] == s[45] && s[44..48][2] == s[46] && s[44..48][3] == s[47];
    Round64(a.timestamp);
    Round32(a.userRefNum);
    Round32(a.quantity);
    Round64(a.price);
    Round64(a.orderReferenceNumber);
    Round16(a.appendageLength);
    assert s[62..][..2] == s[62..64];
  }

  lemma AcceptedInjective(a: Accepted, b: Accepted)
    ensures AcceptedBytes(a) == AcceptedBytes(b) <==> a == b
  {
    var tail := seq(0x1_0000, _ => 0);
    AcceptedRoundTrip(a, tail);
    AcceptedRoundTrip(b, tail);
  }

  lemma AcceptedNormalized(s: seq<Byte>)
    requires DecodeAccepted(s).Some?
    ensures AcceptedBytes(DecodeAccepted(s).value) == s[..13] + [if s[13] == 66 then 66 else 83] + s[14..64]
  {
    hide Digits, AcceptedBytes, BigEndian;
    var a := DecodeAccepted(s).value;
    var t := AcceptedBytes(a);
    AcceptedFields(a, []);
    assert t + [] == t;
    DigitsOfRead(s[1..9]);
    DigitsOfRead(s[9..][..4]);
    DigitsOfRead(s[14..][..4]);
    DigitsOfRead(s[26..34]);
    DigitsOfRead(s[36..44]);
    DigitsOfRead(s[62..][..2]);
    assert t[34..36] == s[34..36] && t[44..48] == s[44..48];
    AcceptedParts(s);
    AcceptedParts(t);
    assert t == t[..64];
  }

  lemma AcceptedReencode(s: seq<Byte>)
    requires DecodeAccepted(s).Some?
    ensures AcceptedBytes(DecodeAccepted(s).value) == s[..64] <==> s[13] in {66, 83}
  {
    hide DecodeAccepted, AcceptedBytes;
    AcceptedNormalized(s);
    AcceptedParts(s);
    var t := s[..13] + [if s[13] == 66 then 66 else 83] + s[14..64];
    assert t[13] == if s[13] == 66 then 66 else 83;
  }

  lemma AcceptedParts(s: seq<Byte>)
    requires |s| >= 64
    ensures s[..13] == s[..1] + s[1..9] + s[9..][..4]
    ensures s[14..64] == s[14..][..4] + s[18..26] + s[26..34] + s[34..36]
                       + s[36..44] + s[44..48] + s[48..62] + s[62..][..2]
    ensures s[..64] == s[..13] + [s[13]] + s[14..64]
  {
    assert s[14..34] == s[14..][..4] + s[18..26] + s[26..34];
    assert s[14..48] == s[14..34] + s[34..36] + s[36..44] + s[44..48];
    assert s[14..64] == s[14..48] + s[48..62] + s[62..][..2];
  }

  lemma ExecutedFields(e: Executed, tail: seq<Byte>)
    ensures var s := ExecutedBytes(e) + tail;
      && |ExecutedBytes(e)| == 36 && s[0] == 69
      && s[1..9] == Digits(8, e.timestamp) && s[9..][..4] == Digits(4, e.userRefNum)
      && s[13..][..4] == Digits(4, e.quantity) && s[17..25] == Digits(8, e.price) && s[25] == e.liquidityFlag
      && s[26..34] == Digits(8, e.matchNumber) && s[34..][..2] == Digits(2, e.appendageLength)
  {
    hide Digits;
    var s := ExecutedBytes(e) + tail;
    var front := [LETTER_E] + Digits(8, e.timestamp) + Digits(4, e.userRefNum) + Digits(4, e.quantity);
    var back := Digits(8, e.price) + [e.liquidityFlag] + Digits(8, e.matchNumber) + Digits(2, e.appendageLength) + tail;
    assert s == front + back;
    assert s[..17] == front && s[17..] == back;
    assert front[1..9] == s[1..9] && front[9..13] == s[9..][..4] && front[13..17] == s[13..][..4];
    assert back[..8] == s[17..25] && back[9..17] == s[26..34] && back[17..19] == s[34..][..2];
  }

  /** With `tail` following it, an encoded Executed decodes to itself iff its appendage is all there. */
  lemma ExecutedRoundTrip(e: Executed, tail: seq<Byte>)
    ensures DecodeExecuted(ExecutedBytes(e) + tail) == if |tail| >= e.appendageLength then Some(e) else None
  {
    hide Digits, ExecutedBytes, BigEndian;
    var s := ExecutedBytes(e) + tail;
    ExecutedFields(e, tail);
    Round64(e.timestamp);
    Round32(e.userRefNum);
    Round32(e.quantity);
    Round64(e.price);
    Round64(e.matchNumber);
    Round16(e.appendageLength);
    assert s[34..][..2] == s[34..36];
  }

  lemma ExecutedInjective(d: Executed, e: Executed)
    ensures ExecutedBytes(d) == ExecutedBytes(e) <==> d == e
  {
    var tail := seq(0x1_0000, _ => 0);
    ExecutedRoundTrip(d, tail);
    ExecutedRoundTrip(e, tail);
  }

  /** An Executed has no redundant bytes: encoding what was decoded always gives the message back. */
  lemma ExecutedReencode(s: seq<Byte>)
    requires DecodeExecuted(s).Some?
    ensures ExecutedBytes(DecodeExecuted(s).value) == s[..EXECUTED_SIZE]
  {
    hide Digits, ExecutedBytes, BigEndian;
    var e := DecodeExecuted(s).value;
    var t := ExecutedBytes(e);
    ExecutedFields(e, []);
    assert t + [] == t;
    DigitsOfRead(s[1..9]);
    DigitsOfRead(s[9..][..4]);
    DigitsOfRead(s[13..][..4]);
    DigitsOfRead(s[17..25]);
    DigitsOfRead(s[26..34]);
    DigitsOfRead(s[34..][..2]);
    ExecutedParts(s);
    ExecutedParts(t);
  }

  lemma ExecutedParts(s: seq<Byte>)
    requires |s| >= EXECUTED_SIZE
    ensures s[..36] == s[..1] + s[1..9] + s[9..][..4] + s[13..][..4] + s[17..25] + [s[25]] + s[26..34] + s[34..][..2]
  {
  }
}
