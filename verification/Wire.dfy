/** Bytes on the wire: unsigned integers in big-endian order. */
module Wire {

  import opened Arithmetic
  import opened Types

  type Byte = x: nat | x < 256
  type Uint16 = x: nat | x < 0x1_0000
  type Uint32 = x: nat | x < U32
  type Uint64 = x: nat | x < U64

  function Pow256(n: nat): (p: nat)
    ensures p > 0
  {
    if n == 0 then 1 else 256 * Pow256(n - 1)
  }

  /** The number whose base-256 digits are these bytes, most significant first. */
  function BigEndian(bytes: seq<Byte>): nat {
    if bytes == [] then 0 else BigEndian(bytes[..|bytes| - 1]) * 256 + bytes[|bytes| - 1]
  }

  /** The n low base-256 digits, most significant first. */
  function Digits(n: nat, value: nat): (bytes: seq<Byte>)
    ensures |bytes| == n
  {
    if n == 0 then [] else Digits(n - 1, value / 256) + [value % 256]
  }

  /** Reading digits back: the value, unless it does not fit. */
  lemma {:induction false} ReadDigits(n: nat, value: nat)
    requires value < Pow256(n)
    ensures BigEndian(Digits(n, value)) == value
  {
    if n > 0 {
      ReadDigits(n - 1, value / 256);
      assert Digits(n, value)[..n - 1] == Digits(n - 1, value / 256);
    }
  }

  /** Writing what was read: the same bytes. */
  lemma {:induction false} DigitsOfRead(bytes: seq<Byte>)
    ensures BigEndian(bytes) < Pow256(|bytes|)
    ensures Digits(|bytes|, BigEndian(bytes)) == bytes
  {
    if bytes != [] {
      DigitsOfRead(bytes[..|bytes| - 1]);
    }
  }

  /** A digit is reached by a shift and a mask. */
  lemma {:induction false} DigitByShift(n: nat, value: nat, i: nat)
    requires i < n
    ensures Digits(n, value)[i] == value / Pow256(n - 1 - i) % 256
  {
    if i < n - 1 {
      DigitByShift(n - 1, value / 256, i);
      ShiftTwice(value, Pow256(n - 2 - i));
    }
  }

  lemma ShiftTwice(value: nat, d: nat)
    requires d > 0
    ensures value / 256 / d == value / (256 * d)
  {
    var q, r := value / 256 / d, value / 256 % d;
    var s := value % 256;
    assert value == (q * d + r) * 256 + s;
    assert value == q * (256 * d) + (r * 256 + s);
    assert r * 256 + s < 256 * d;
    DivisionIs(value, 256 * d, q, r * 256 + s);
  }

  lemma Widths()
    ensures Pow256(2) == 0x1_0000 && Pow256(4) == U32 && Pow256(8) == U64
  {
    assert Pow256(4) == 65536 * Pow256(2);
    assert Pow256(6) == 65536 * Pow256(4);
  }

  // ---- The program's readers and writers ----

  /** The first two bytes as one number. */
  function ReadUint16(source: seq<Byte>): (r: Uint16)
    requires |source| >= 2
    ensures r == BigEndian(source[..2])
  {
    assert source[..2][..1] == source[..1] && source[..1][..0] == [];
    assert BigEndian(source[..1]) == source[0];
    source[0] as nat * 0x100 + source[1] as nat
  }

  function ReadUint32(source: seq<Byte>): (r: Uint32)
    requires |source| >= 4
    ensures r == BigEndian(source[..4])
  {
    assert source[..4][..3] == source[..3] && source[..3][..2] == source[..2];
    assert BigEndian(source[..2]) == ReadUint16(source);
    source[0] as nat * 0x100_0000 + source[1] as nat * 0x1_0000 + source[2] as nat * 0x100 + source[3] as nat
  }

  /** Eight times: shift left by a byte, dropping what leaves 64 bits, and put in the next byte. */
  method ReadUint64(source: seq<Byte>) returns (value: Uint64)
    requires |source| >= 8
    ensures value == BigEndian(source[..8])
  {
    value := 0;
    for index := 0 to 8
      invariant value == BigEndian(source[..index]) < Pow256(index)
    {
      ShiftFits(value, index);
      value := value * 256 % U64 + source[index];
      assert source[..index + 1][..index] == source[..index];
    }
    Widths();
  }

  /** Before the last byte the shifted value still fits, so nothing is dropped. */
  lemma ShiftFits(value: nat, index: nat)
    requires index < 8 && value < Pow256(index)
    ensures value * 256 + 255 < Pow256(index + 1) <= U64
  {
    Widths();
    PowMonotone(index + 1, 8);
  }

  lemma {:induction false} PowMonotone(m: nat, n: nat)
    requires m <= n
    ensures Pow256(m) <= Pow256(n)
  {
    if m < n {
      PowMonotone(m, n - 1);
    }
  }

  method WriteUint16(destination: array<Byte>, at: nat, value: Uint16)
    requires at + 2 <= destination.Length
    modifies destination
    ensures destination[..at + 2] == old(destination[..at]) + Digits(2, value)
    ensures destination[at + 2..] == old(destination[at + 2..])
  {
    destination[at] := value / 0x100 % 256;
    destination[at + 1] := value % 256;
    assert Digits(2, value) == [value / 256 % 256, value % 256];
  }

  method WriteUint32(destination: array<Byte>, at: nat, value: Uint32)
    requires at + 4 <= destination.Length
    modifies destination
    ensures destination[..at + 4] == old(destination[..at]) + Digits(4, value)
    ensures destination[at + 4..] == old(destination[at + 4..])
  {
    destination[at] := value / 0x100_0000 % 256;
    destination[at + 1] := value / 0x1_0000 % 256;
    destination[at + 2] := value / 0x100 % 256;
    destination[at + 3] := value % 256;
    FourDigits(value);
  }

  lemma FourDigits(value: nat)
    ensures Digits(4, value) == [value / 0x100_0000 % 256, value / 0x1_0000 % 256, value / 0x100 % 256, value % 256]
  {
    forall i: nat | i < 4 ensures Digits(4, value)[i] == value / Pow256(3 - i) % 256 {
      DigitByShift(4, value, i);
    }
    assert Pow256(3) == 0x100_0000 && Pow256(2) == 0x1_0000 && Pow256(1) == 0x100 && Pow256(0) == 1;
  }

  /** Byte by byte, each by a shift of eight times its distance from the end and a mask. */
  method WriteUint64(destination: array<Byte>, at: nat, value: Uint64)
    requires at + 8 <= destination.Length
    modifies destination
    ensures destination[..at + 8] == old(destination[..at]) + Digits(8, value)
    ensures destination[at + 8..] == old(destination[at + 8..])
  {
    for index := 0 to 8
      invariant destination[..at] == old(destination[..at]) && destination[at + 8..] == old(destination[at + 8..])
      invariant forall j :: 0 <= j < index ==> destination[at + j] == Digits(8, value)[j]
    {
      destination[at + index] := value / Pow256(7 - index) % 256;
      DigitByShift(8, value, index);
    }
  }

  /** Copying a fixed-size character field. */
  method WriteBytes(destination: array<Byte>, at: nat, bytes: seq<Byte>)
    requires at + |bytes| <= destination.Length
    modifies destination
    ensures destination[..at + |bytes|] == old(destination[..at]) + bytes
    ensures destination[at + |bytes|..] == old(destination[at + |bytes|..])
  {
    forall i | 0 <= i < |bytes| {
      destination[at + i] := bytes[i];
    }
  }

  // ---- Round trips ----

  lemma Round16(value: Uint16)
    ensures BigEndian(Digits(2, value)) == value
  {
    Widths();
    ReadDigits(2, value);
  }

  lemma Round32(value: Uint32)
    ensures BigEndian(Digits(4, value)) == value
  {
    Widths();
    ReadDigits(4, value);
  }

  /** The shift-loop writer and reader are inverse for every 64-bit value. */
  lemma Round64(value: Uint64)
    ensures BigEndian(Digits(8, value)) == value
  {
    Widths();
    ReadDigits(8, value);
  }
}
