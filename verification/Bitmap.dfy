/** The bitmap of active price levels and its word-at-a-time search for the next best price. */
module Bitmap {

  import opened Bits

  /** Price level `p` is marked active. */
  predicate Active(words: seq<bv64>, p: nat)
    requires p < WORD * |words|
  {
    Bit(words[p / WORD], p % WORD)
  }

  /** The scan the bitmap replaced: one level at a time towards lower prices, 0 when none is active. */
  function LinearDown(words: seq<bv64>, p: nat): nat
    requires p < WORD * |words|
  {
    if p == 0 || Active(words, p) then p else LinearDown(words, p - 1)
  }

  /** The same towards higher prices, 0 when none is active. */
  function LinearUp(words: seq<bv64>, p: nat): nat
    decreases WORD * |words| - p
  {
    if p >= WORD * |words| then 0
    else if Active(words, p) then p
    else LinearUp(words, p + 1)
  }

  /** `LinearDown` finds the highest active level up to `p`. */
  lemma {:induction false} LinearDownFindsHighest(words: seq<bv64>, p: nat, r: nat)
    requires p < WORD * |words|
    requires r <= p && (r == 0 || Active(words, r))
    requires forall q :: r < q <= p ==> !Active(words, q)
    ensures LinearDown(words, p) == r
  {
    hide Active;
    if r < p {
      assert !Active(words, p);
      LinearDownFindsHighest(words, p - 1, r);
    }
  }

  lemma {:induction false} LinearUpFindsLowest(words: seq<bv64>, p: nat, r: nat)
    requires p <= r < WORD * |words| && Active(words, r)
    requires forall q :: p <= q < r ==> !Active(words, q)
    ensures LinearUp(words, p) == r
    decreases r - p
  {
    hide Active;
    if p < r {
      assert !Active(words, p);
      LinearUpFindsLowest(words, p + 1, r);
    }
  }

  lemma {:induction false} LinearUpFindsNone(words: seq<bv64>, p: nat)
    requires forall q :: p <= q < WORD * |words| ==> !Active(words, q)
    ensures LinearUp(words, p) == 0
    decreases WORD * |words| - p
  {
    hide Active;
    if p < WORD * |words| {
      LinearUpFindsNone(words, p + 1);
    }
  }

  /** What `LinearDown` returns is active (or 0) and no level between it and the start is. */
  lemma {:induction false} LinearDownMeans(words: seq<bv64>, p: nat)
    requires p < WORD * |words|
    ensures var r := LinearDown(words, p);
      r <= p && (r == 0 || Active(words, r)) && forall q :: r < q <= p ==> !Active(words, q)
  {
    hide Active;
    if p > 0 && !Active(words, p) {
      LinearDownMeans(words, p - 1);
    }
  }

  lemma {:induction false} LinearUpMeans(words: seq<bv64>, p: nat)
    requires 0 < p
    ensures var r := LinearUp(words, p);
      if r == 0 then forall q :: p <= q < WORD * |words| ==> !Active(words, q)
      else p <= r < WORD * |words| && Active(words, r) && forall q :: p <= q < r ==> !Active(words, q)
    decreases WORD * |words| - p
  {
    hide Active;
    if p < WORD * |words| && !Active(words, p) {
      LinearUpMeans(words, p + 1);
    }
  }

  method SetLevelActive(bitmap: array<bv64>, price: nat)
    requires price < WORD * bitmap.Length
    modifies bitmap
    ensures forall p :: 0 <= p < WORD * bitmap.Length ==>
      (Active(bitmap[..], p) <==> p == price || old(Active(bitmap[..], p)))
  {
    hide Bit, WithBit, WithoutBit;
    var word, bit := price / WORD, price % WORD;
    ghost var was := bitmap[..];
    bitmap[word] := WithBit(bitmap[word], bit);
    forall p | 0 <= p < WORD * bitmap.Length
      ensures Active(bitmap[..], p) <==> p == price || Active(was, p)
    {
      SetBit(was[word], bit, p % WORD);
    }
  }

  method ClearLevelActive(bitmap: array<bv64>, price: nat)
    requires price < WORD * bitmap.Length
    modifies bitmap
    ensures forall p :: 0 <= p < WORD * bitmap.Length ==>
      (Active(bitmap[..], p) <==> p != price && old(Active(bitmap[..], p)))
  {
    hide Bit, WithBit, WithoutBit;
    var word, bit := price / WORD, price % WORD;
    ghost var was := bitmap[..];
    bitmap[word] := WithoutBit(bitmap[word], bit);
    forall p | 0 <= p < WORD * bitmap.Length
      ensures Active(bitmap[..], p) <==> p != price && Active(was, p)
    {
      ClearBit(was[word], bit, p % WORD);
    }
  }

  /** Levels of one word are inactive when the bits at their positions are clear. */
  lemma NoneInWord(words: seq<bv64>, k: nat, lo: nat, hi: nat)
    requires k < |words| && WORD * k <= lo && hi <= WORD * (k + 1)
    requires forall i :: 0 <= i < WORD && lo <= WORD * k + i < hi ==> !Bit(words[k], i)
    ensures forall q :: lo <= q < hi ==> !Active(words, q)
  {
    hide Bit;
    forall q | lo <= q < hi
      ensures !Active(words, q)
    {
      assert q / WORD == k && q % WORD == q - WORD * k;
    }
  }

  lemma ActiveInWord(words: seq<bv64>, k: nat, i: nat)
    requires k < |words| && i < WORD && Bit(words[k], i)
    ensures Active(words, k * WORD + i)
  {
    hide Bit;
    assert (k * WORD + i) / WORD == k && (k * WORD + i) % WORD == i;
  }

  /** The word scan of the bid side: the highest active level below `best`, as the linear scan finds it. */
  method NextBelow(bitmap: array<bv64>, best: nat) returns (next: nat)
    requires 0 < best < WORD * bitmap.Length
    ensures next == LinearDown(bitmap[..], best - 1)
  {
    hide Bit, BitsBelow, Active, LinearDown, CountLeadingZeros;
    var wordIndex, bitIndex := best / WORD, best % WORD;
    var word := BitsBelow(bitmap[wordIndex], bitIndex);
    ghost var words := bitmap[..];
    forall i | 0 <= i < WORD
      ensures Bit(word, i) <==> i < bitIndex && Bit(words[wordIndex], i)
    {
      MaskBelow(words[wordIndex], bitIndex, i);
    }
    while word == 0
      invariant wordIndex < bitmap.Length && WORD * wordIndex <= best
      invariant forall i :: 0 <= i < WORD ==>
        (Bit(word, i) <==> WORD * wordIndex + i < best && Bit(words[wordIndex], i))
      invariant forall q :: WORD * (wordIndex + 1) <= q < best ==> !Active(words, q)
      decreases wordIndex
    {
      ZeroIffClear(word);
      NoneInWord(words, wordIndex, WORD * wordIndex, Min(best, WORD * (wordIndex + 1)));
      if wordIndex == 0 {
        LinearDownFindsHighest(words, best - 1, 0);
        return 0;
      }
      wordIndex := wordIndex - 1;
      word := bitmap[wordIndex];
    }
    var highestSetBit := WORD - 1 - CountLeadingZeros(word);
    HighestSetBit(word);
    next := wordIndex * WORD + highestSetBit;
    NoneInWord(words, wordIndex, next + 1, Min(best, WORD * (wordIndex + 1)));
    ActiveInWord(words, wordIndex, highestSetBit);
    LinearDownFindsHighest(words, best - 1, next);
  }

  function Min(a: nat, b: nat): nat {
    if a < b then a else b
  }

  /** The word scan of the ask side: the lowest active level above `best`, as the linear scan finds it. */
  method NextAbove(bitmap: array<bv64>, best: nat) returns (next: nat)
    requires best < WORD * bitmap.Length
    ensures next == LinearUp(bitmap[..], best + 1)
  {
    hide Bit, BitsFrom, Active, LinearUp, CountTrailingZeros;
    var wordIndex, bitIndex := best / WORD, best % WORD;
    var word := BitsFrom(bitmap[wordIndex], bitIndex + 1);
    ghost var words := bitmap[..];
    forall i | 0 <= i < WORD
      ensures Bit(word, i) <==> i > bitIndex && Bit(words[wordIndex], i)
    {
      MaskFrom(words[wordIndex], bitIndex + 1, i);
    }
    while word == 0
      invariant wordIndex < bitmap.Length && best < WORD * (wordIndex + 1)
      invariant forall i :: 0 <= i < WORD ==>
        (Bit(word, i) <==> WORD * wordIndex + i > best && Bit(words[wordIndex], i))
      invariant forall q :: best < q < WORD * wordIndex ==> !Active(words, q)
      decreases bitmap.Length - wordIndex
    {
      ZeroIffClear(word);
      NoneInWord(words, wordIndex, Max(best + 1, WORD * wordIndex), WORD * (wordIndex + 1));
      wordIndex := wordIndex + 1;
      if wordIndex >= bitmap.Length {
        LinearUpFindsNone(words, best + 1);
        return 0;
      }
      word := bitmap[wordIndex];
    }
    var lowestSetBit := CountTrailingZeros(word);
    LowestSetBit(word);
    next := wordIndex * WORD + lowestSetBit;
    NoneInWord(words, wordIndex, Max(best + 1, WORD * wordIndex), next);
    ActiveInWord(words, wordIndex, lowestSetBit);
    LinearUpFindsLowest(words, best + 1, next);
  }

  function Max(a: nat, b: nat): nat {
    if a < b then b else a
  }
}
