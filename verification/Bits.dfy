/** The 64-bit word operations behind the price-level bitmaps. */
module Bits {

  const WORD: nat := 64

  /** Bit `i` of a word. */
  predicate Bit(w: bv64, i: nat)
    requires i < WORD
  {
    At(w, Position(i))
  }

  predicate At(w: bv64, i: bv6) {
    (w >> i) & 1 == 1
  }

  /** The word with only bit `b` set. */
  function One(b: nat): bv64
    requires b < WORD
  {
    Shift(Position(b))
  }

  function Shift(b: bv6): bv64 {
    1 << b
  }

  /** A bit position below 64 as a shift amount. */
  function Position(i: nat): bv6 {
    if i == 0 then 0 else Position(i - 1) + 1
  }

  /** A word whose bits below `bitIndex` are set; all of them from 64 on. */
  function LowerBitsMask(bitIndex: nat): bv64 {
    if bitIndex == 0 then 0
    else if bitIndex >= WORD then 0xFFFF_FFFF_FFFF_FFFF
    else One(bitIndex) - 1
  }

  function WithBit(w: bv64, b: nat): bv64
    requires b < WORD
  {
    w | One(b)
  }

  function WithoutBit(w: bv64, b: nat): bv64
    requires b < WORD
  {
    w & !One(b)
  }

  function BitsBelow(w: bv64, b: nat): bv64 {
    w & LowerBitsMask(b)
  }

  function BitsFrom(w: bv64, b: nat): bv64 {
    w & !LowerBitsMask(b)
  }

  /** The number of zero bits above the highest set bit. */
  function CountLeadingZeros(w: bv64): nat {
    LeadingFrom(w, WORD)
  }

  function LeadingFrom(w: bv64, n: nat): nat
    requires n <= WORD
  {
    if n == 0 || Bit(w, n - 1) then 0 else 1 + LeadingFrom(w, n - 1)
  }

  /** The number of zero bits below the lowest set bit. */
  function CountTrailingZeros(w: bv64): nat {
    TrailingFrom(w, 0)
  }

  function TrailingFrom(w: bv64, n: nat): nat
    requires n <= WORD
    decreases WORD - n
  {
    if n == WORD || Bit(w, n) then 0 else 1 + TrailingFrom(w, n + 1)
  }

  // Positions as numbers and as shift amounts.

  lemma IncrementAsNat(b: bv6)
    ensures b < 63 ==> (b + 1) as nat == b as nat + 1
  {
  }

  lemma SameOrder(i: bv6, j: bv6)
    ensures i < j <==> i as nat < j as nat
    ensures i == j <==> i as nat == j as nat
  {
  }

  /** `Position` is the conversion of a number below 64. */
  lemma {:induction false} PositionAsNat(i: nat)
    requires i < WORD
    ensures Position(i) as nat == i
  {
    if i > 0 {
      PositionAsNat(i - 1);
      SameOrder(Position(i - 1), 63);
      IncrementAsNat(Position(i - 1));
    }
  }

  lemma PositionOrder(i: nat, j: nat)
    requires i < WORD && j < WORD
    ensures Position(i) == Position(j) <==> i == j
    ensures Position(i) < Position(j) <==> i < j
  {
    PositionAsNat(i);
    PositionAsNat(j);
    SameOrder(Position(i), Position(j));
  }

  // Facts about shifts and masks, at a position given as a shift amount.

  lemma OrAt(w: bv64, b: bv6, i: bv6)
    ensures At(w | Shift(b), i) <==> i == b || At(w, i)
  {
  }

  lemma AndNotAt(w: bv64, b: bv6, i: bv6)
    ensures At(w & !Shift(b), i) <==> i != b && At(w, i)
  {
  }

  lemma AndAt(w: bv64, v: bv64, i: bv6)
    ensures At(w & v, i) <==> At(w, i) && At(v, i)
  {
  }

  lemma AndComplementAt(w: bv64, v: bv64, i: bv6)
    ensures At(w & !v, i) <==> At(w, i) && !At(v, i)
  {
  }

  lemma MaskAt(b: bv6, i: bv6)
    ensures At(Shift(b) - 1, i) <==> i < b
  {
  }

  lemma ConstantsAt(i: bv6)
    ensures !At(0, i) && At(0xFFFF_FFFF_FFFF_FFFF, i)
  {
  }

  // The same facts at a position given as a number.

  lemma SetBit(w: bv64, b: nat, i: nat)
    requires b < WORD && i < WORD
    ensures Bit(WithBit(w, b), i) <==> i == b || Bit(w, i)
  {
    hide At, Position, Shift;
    var p, q := Position(b), Position(i);
    OrAt(w, p, q);
    assert p == q <==> b == i by {
      PositionOrder(i, b);
    }
  }

  lemma ClearBit(w: bv64, b: nat, i: nat)
    requires b < WORD && i < WORD
    ensures Bit(WithoutBit(w, b), i) <==> i != b && Bit(w, i)
  {
    hide At, Position, Shift;
    var p, q := Position(b), Position(i);
    AndNotAt(w, p, q);
    assert p == q <==> b == i by {
      PositionOrder(i, b);
    }
  }

  lemma MaskBit(b: nat, i: nat)
    requires i < WORD
    ensures Bit(LowerBitsMask(b), i) <==> i < b
  {
    hide At, Position, Shift;
    ConstantsAt(Position(i));
    if 0 < b < WORD {
      MaskAt(Position(b), Position(i));
      PositionOrder(i, b);
    }
  }

  /** Masking with `LowerBitsMask(b)` keeps exactly the bits below `b`, for every `b`. */
  lemma MaskBelow(w: bv64, b: nat, i: nat)
    requires i < WORD
    ensures Bit(BitsBelow(w, b), i) <==> i < b && Bit(w, i)
  {
    hide At, Position, Shift, LowerBitsMask;
    AndAt(w, LowerBitsMask(b), Position(i));
    MaskBit(b, i);
  }

  /** Masking with the complement keeps exactly the bits from `b` on. */
  lemma MaskFrom(w: bv64, b: nat, i: nat)
    requires i < WORD
    ensures Bit(BitsFrom(w, b), i) <==> i >= b && Bit(w, i)
  {
    hide At, Position, Shift, LowerBitsMask;
    AndComplementAt(w, LowerBitsMask(b), Position(i));
    MaskBit(b, i);
  }

  // A word without set bits is zero: clear prefixes grow one bit at a time.

  predicate PrefixClear(w: bv64, b: bv6) {
    w & (Shift(b) - 1) == 0
  }

  lemma PrefixClearStep(w: bv64, b: bv6)
    requires PrefixClear(w, b) && !At(w, b)
    ensures if b == 63 then w == 0 else PrefixClear(w, b + 1)
  {
  }

  lemma {:induction false} ClearPrefix(w: bv64, n: nat)
    requires n < WORD
    requires forall i :: 0 <= i < n ==> !Bit(w, i)
    ensures PrefixClear(w, Position(n))
  {
    hide At, PrefixClear, Shift;
    if n == 0 {
      PrefixClearBase(w);
    } else {
      ClearPrefix(w, n - 1);
      assert !Bit(w, n - 1);
      assert Position(n - 1) != 63 by {
        PositionAsNat(n - 1);
      }
      PrefixClearStep(w, Position(n - 1));
    }
  }

  lemma PrefixClearBase(w: bv64)
    ensures PrefixClear(w, 0)
  {
  }

  /** A word is zero exactly when none of its 64 bits is set. */
  lemma ZeroIffClear(w: bv64)
    ensures w == 0 <==> forall i :: 0 <= i < WORD ==> !Bit(w, i)
  {
    hide At, PrefixClear, Position;
    forall i | 0 <= i < WORD ensures !Bit(0, i) {
      ConstantsAt(Position(i));
    }
    if forall i :: 0 <= i < WORD ==> !Bit(w, i) {
      ClearPrefix(w, 63);
      assert !Bit(w, 63);
      PositionAsNat(63);
      SameOrder(Position(63), 63);
      PrefixClearStep(w, Position(63));
    }
  }

  /** `63 - countl_zero` is the position of the highest set bit of a non-zero word. */
  lemma HighestSetBit(w: bv64)
    requires w != 0
    ensures CountLeadingZeros(w) < WORD
    ensures Bit(w, WORD - 1 - CountLeadingZeros(w))
    ensures forall i :: WORD - 1 - CountLeadingZeros(w) < i < WORD ==> !Bit(w, i)
  {
    hide At, Position, Shift;
    ZeroIffClear(w);
    var k :| 0 <= k < WORD && Bit(w, k);
    HighestBelow(w, k, WORD);
  }

  lemma {:induction false} HighestBelow(w: bv64, k: nat, n: nat)
    requires k < n <= WORD && Bit(w, k)
    ensures var h := n - 1 - LeadingFrom(w, n);
      k <= h < n && Bit(w, h) && forall i :: h < i < n ==> !Bit(w, i)
  {
    hide At, Position, Shift;
    if !Bit(w, n - 1) {
      HighestBelow(w, k, n - 1);
    }
  }

  /** `countr_zero` is the position of the lowest set bit of a non-zero word. */
  lemma LowestSetBit(w: bv64)
    requires w != 0
    ensures CountTrailingZeros(w) < WORD
    ensures Bit(w, CountTrailingZeros(w))
    ensures forall i :: 0 <= i < CountTrailingZeros(w) ==> !Bit(w, i)
  {
    hide At, Position, Shift;
    ZeroIffClear(w);
    var k :| 0 <= k < WORD && Bit(w, k);
    LowestAbove(w, k, 0);
  }

  lemma {:induction false} LowestAbove(w: bv64, k: nat, n: nat)
    requires n <= k < WORD && Bit(w, k)
    ensures var l := n + TrailingFrom(w, n);
      n <= l <= k && Bit(w, l) && forall i :: n <= i < l ==> !Bit(w, i)
    decreases k - n
  {
    hide At, Position, Shift;
    if !Bit(w, n) {
      LowestAbove(w, k, n + 1);
    }
  }
}
