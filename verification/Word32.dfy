/**
 The bits of a uint32_t.

 The C++ code computes with 32-bit words; the proofs about it read a word as the list of
 its bits, least significant first.  This module is the only place where the two meet.
 Each lemma is about one machine operation and names its operands and its result, which
 keeps the bit-vector reasoning of each proof small.
 */
module Word32 {
  import opened Gf2

  predicate Odd(v: bv32) {
    v & 1 != 0
  }

  function Half(v: bv32): bv32 {
    v >> 1
  }

  /** Bit i of v. */
  predicate Bit(v: bv32, i: nat)
    decreases i
  {
    if i == 0 then Odd(v) else Bit(Half(v), i - 1)
  }

  function LowBits(v: bv32, n: nat): (s: seq<bool>)
    ensures |s| == n && forall i :: 0 <= i < n ==> s[i] == Bit(v, i)
  {
    seq(n, i requires 0 <= i < n => Bit(v, i))
  }

  /** The 32 bits of v, least significant first. */
  function Bits(v: bv32): (s: seq<bool>)
    ensures |s| == 32
  {
    LowBits(v, 32)
  }

  lemma {:induction false} BitZero(i: nat)
    ensures !Bit(0, i)
    decreases i
  {
    if i == 0 {
    } else {
      assert Half(0) == 0;
      BitZero(i - 1);
    }
  }

  // ----- exclusive or ---------------------------------------------------------

  ghost predicate XorAt(a: bv32, b: bv32, c: bv32, i: nat) {
    Bit(c, i) == (Bit(a, i) != Bit(b, i))
  }

  lemma OddXor(a: bv32, b: bv32)
    ensures Odd(a ^ b) == (Odd(a) != Odd(b))
  {
  }

  lemma HalfXor(a: bv32, b: bv32)
    ensures Half(a ^ b) == Half(a) ^ Half(b)
  {
  }

  lemma XorAtFirst(a: bv32, b: bv32, c: bv32)
    requires c == a ^ b
    ensures XorAt(a, b, c, 0)
  {
    OddXor(a, b);
  }

  lemma XorAtNext(a: bv32, b: bv32, c: bv32, i: nat)
    requires i > 0 && XorAt(Half(a), Half(b), Half(c), i - 1)
    ensures XorAt(a, b, c, i)
  {
  }

  lemma {:induction false} BitXor(a: bv32, b: bv32, c: bv32, i: nat)
    requires c == a ^ b
    ensures XorAt(a, b, c, i)
    decreases i
  {
    if i == 0 {
      XorAtFirst(a, b, c);
    } else {
      HalfXor(a, b);
      BitXor(Half(a), Half(b), Half(c), i - 1);
      XorAtNext(a, b, c, i);
    }
  }

  /** The exclusive or of words is the sum of their bit lists. */
  lemma BitsXor(a: bv32, b: bv32, c: bv32)
    requires c == a ^ b
    ensures Bits(c) == Xor(Bits(a), Bits(b))
  {
    forall i: nat | i < 32
      ensures Bits(c)[i] == Xor(Bits(a), Bits(b))[i]
    {
      BitXor(a, b, c, i);
      assert XorAt(a, b, c, i);
    }
  }

  lemma LowByteXor(a: bv32, b: bv32, c: bv32)
    requires c == a ^ b
    ensures LowBits(c, 8) == Xor(LowBits(a, 8), LowBits(b, 8))
  {
    forall i: nat | i < 8
      ensures LowBits(c, 8)[i] == Xor(LowBits(a, 8), LowBits(b, 8))[i]
    {
      BitXor(a, b, c, i);
      assert XorAt(a, b, c, i);
    }
  }

  // ----- conjunction -------------------------------------------------------------

  ghost predicate AndAt(a: bv32, b: bv32, c: bv32, i: nat) {
    Bit(c, i) == (Bit(a, i) && Bit(b, i))
  }

  lemma OddAnd(a: bv32, b: bv32)
    ensures Odd(a & b) == (Odd(a) && Odd(b))
  {
  }

  lemma HalfAnd(a: bv32, b: bv32)
    ensures Half(a & b) == Half(a) & Half(b)
  {
  }

  lemma AndAtFirst(a: bv32, b: bv32, c: bv32)
    requires c == a & b
    ensures AndAt(a, b, c, 0)
  {
    OddAnd(a, b);
  }

  lemma AndAtNext(a: bv32, b: bv32, c: bv32, i: nat)
    requires i > 0 && AndAt(Half(a), Half(b), Half(c), i - 1)
    ensures AndAt(a, b, c, i)
  {
  }

  lemma {:induction false} BitAnd(a: bv32, b: bv32, c: bv32, i: nat)
    requires c == a & b
    ensures AndAt(a, b, c, i)
    decreases i
  {
    if i == 0 {
      AndAtFirst(a, b, c);
    } else {
      HalfAnd(a, b);
      BitAnd(Half(a), Half(b), Half(c), i - 1);
      AndAtNext(a, b, c, i);
    }
  }

  // ----- shifts --------------------------------------------------------------------

  ghost predicate ShiftedAt(v: bv32, w: bv32, n: nat, i: nat) {
    Bit(w, i) == Bit(v, i + n)
  }

  lemma BitShift1(v: bv32, w: bv32, i: nat)
    requires w == v >> 1
    ensures ShiftedAt(v, w, 1, i)
  {
    assert w == Half(v);
  }

  lemma BitShift2(v: bv32, w: bv32, i: nat)
    requires w == v >> 2
    ensures ShiftedAt(v, w, 2, i)
  {
    var u := Half(v);
    assert w == Half(u);
  }

  lemma BitShift4(v: bv32, w: bv32, i: nat)
    requires w == v >> 4
    ensures ShiftedAt(v, w, 4, i)
  {
    var u := v >> 2;
    BitShift2(v, u, i + 2);
    BitShift2(u, w, i);
  }

  lemma BitShift8(v: bv32, w: bv32, i: nat)
    requires w == v >> 8
    ensures ShiftedAt(v, w, 8, i)
  {
    var u := v >> 4;
    BitShift4(v, u, i + 4);
    BitShift4(u, w, i);
  }

  lemma BitShift16(v: bv32, w: bv32, i: nat)
    requires w == v >> 16
    ensures ShiftedAt(v, w, 16, i)
  {
    var u := v >> 8;
    BitShift8(v, u, i + 8);
    BitShift8(u, w, i);
  }

  /** Bits beyond the word are zero. */
  lemma NoBitBeyond(v: bv32, i: nat)
    requires i >= 32
    ensures !Bit(v, i)
  {
    var u := v >> 16;
    BitShift16(v, u, i - 16);
    assert ShiftedAt(v, u, 16, i - 16);
    BitShift16(u, 0, i - 32);
    assert ShiftedAt(u, 0, 16, i - 32);
    BitZero(i - 32);
  }

  lemma BitsHalf(v: bv32, w: bv32)
    requires w == v >> 1
    ensures Bits(w) == Bits(v)[1..] + Zeros(1)
  {
    forall i: nat | i < 32
      ensures Bits(w)[i] == (Bits(v)[1..] + Zeros(1))[i]
    {
      BitShift1(v, w, i);
      assert ShiftedAt(v, w, 1, i);
      NoBitBeyond(v, 32);
    }
  }

  lemma BitsShift8(v: bv32, w: bv32)
    requires w == v >> 8
    ensures Bits(w) == Bits(v)[8..] + Zeros(8)
  {
    forall i: nat | i < 32
      ensures Bits(w)[i] == (Bits(v)[8..] + Zeros(8))[i]
    {
      BitShift8(v, w, i);
      assert ShiftedAt(v, w, 8, i);
      if i >= 24 {
        NoBitBeyond(v, i + 8);
      }
    }
  }

  // ----- the low byte --------------------------------------------------------------

  lemma MaskBit(i: nat)
    ensures Bit(0xFF, i) <==> i < 8
  {
    assert Bit(0xFF, 0) && Bit(0xFF, 1) && Bit(0xFF, 2) && Bit(0xFF, 3);
    assert Bit(0xFF, 4) && Bit(0xFF, 5) && Bit(0xFF, 6) && Bit(0xFF, 7);
    if i >= 8 {
      BitShift8(0xFF, 0, i - 8);
      assert ShiftedAt(0xFF, 0, 8, i - 8);
      BitZero(i - 8);
    }
  }

  lemma BitMasked(x: bv32, y: bv32, i: nat)
    requires y == x & 0xFF
    ensures Bit(y, i) == (i < 8 && Bit(x, i))
  {
    BitAnd(x, 0xFF, y, i);
    assert AndAt(x, 0xFF, y, i);
    MaskBit(i);
  }

  /** x & 0xFF keeps the eight low bits. */
  lemma BitsMasked(x: bv32, y: bv32)
    requires y == x & 0xFF
    ensures Bits(y) == Bits(x)[..8] + Zeros(24)
  {
    forall i: nat | i < 32
      ensures Bits(y)[i] == (Bits(x)[..8] + Zeros(24))[i]
    {
      BitMasked(x, y, i);
    }
  }

  /** The bits of a byte, least significant first. */
  function ByteBits(b: bv8): (s: seq<bool>)
    ensures |s| == 8
  {
    LowBits(b as bv32, 8)
  }

  lemma ByteMasked(b: bv8)
    ensures b as bv32 == (b as bv32) & 0xFF
  {
  }

  lemma BitsOfByte(b: bv8, v: bv32)
    requires v == b as bv32
    ensures Bits(v) == ByteBits(b) + Zeros(24)
  {
    ByteMasked(b);
    BitsMasked(v, v);
    assert Bits(v)[..8] == ByteBits(b);
  }

  lemma MaskedIsSmall(x: bv32)
    ensures x & 0xFF < 256
  {
  }

  lemma SmallIndex(y: bv32)
    requires y < 256
    ensures (y as int) < 256
  {
  }

  lemma IndexBack(y: bv32)
    ensures (y as int) as bv32 == y
  {
  }

  // ----- constants -------------------------------------------------------------------

  lemma BitBeyondByte(v: bv32, w: bv32, i: nat)
    requires w == v >> 8 && i >= 8
    ensures Bit(v, i) == Bit(w, i - 8)
  {
    BitShift8(v, w, i - 8);
    assert ShiftedAt(v, w, 8, i - 8);
  }

  /** v1, v2 and v3 are v shifted by one, two and three bytes. */
  ghost predicate ByteShifts(v: bv32, v1: bv32, v2: bv32, v3: bv32) {
    v1 == v >> 8 && v2 == v1 >> 8 && v3 == v2 >> 8
  }

  lemma BitShifted(v: bv32, v1: bv32, v2: bv32, v3: bv32, i: nat)
    requires i < 32 && ByteShifts(v, v1, v2, v3)
    ensures Bit(v, i) == Bit(if i < 8 then v else if i < 16 then v1 else if i < 24 then v2 else v3, i % 8)
  {
    if i >= 8 {
      BitBeyondByte(v, v1, i);
    }
    if i >= 16 {
      BitBeyondByte(v1, v2, i - 8);
    }
    if i >= 24 {
      BitBeyondByte(v2, v3, i - 16);
    }
  }

  /** Bit i of v is bit i mod 8 of its byte i / 8. */
  lemma BitInByte(v: bv32, v1: bv32, v2: bv32, v3: bv32, b0: bv32, b1: bv32, b2: bv32, b3: bv32, i: nat)
    requires i < 32 && ByteShifts(v, v1, v2, v3)
    requires b0 == v & 0xFF && b1 == v1 & 0xFF && b2 == v2 & 0xFF && b3 == v3 & 0xFF
    ensures Bit(v, i) == Bit(if i < 8 then b0 else if i < 16 then b1 else if i < 24 then b2 else b3, i % 8)
  {
    BitShifted(v, v1, v2, v3, i);
    BitMasked(v, b0, i % 8);
    BitMasked(v1, b1, i % 8);
    BitMasked(v2, b2, i % 8);
    BitMasked(v3, b3, i % 8);
  }

  lemma AllOnesBits()
    ensures forall i: nat :: i < 32 ==> Bit(0xFFFF_FFFF, i)
  {
    forall i: nat | i < 32
      ensures Bit(0xFFFF_FFFF, i)
    {
      BitInByte(0xFFFF_FFFF, 0xFF_FFFF, 0xFFFF, 0xFF, 0xFF, 0xFF, 0xFF, 0xFF, i);
      MaskBit(i % 8);
    }
  }

  lemma PolynomialByte0()
    ensures LowBits(0x20, 8) == [false, false, false, false, false, true, false, false]
  {
    assert !Bit(0x20, 0) && !Bit(0x20, 1) && !Bit(0x20, 2) && !Bit(0x20, 3);
    assert !Bit(0x20, 4) && Bit(0x20, 5) && !Bit(0x20, 6) && !Bit(0x20, 7);
  }

  lemma PolynomialByte1()
    ensures LowBits(0x83, 8) == [true, true, false, false, false, false, false, true]
  {
    assert Bit(0x83, 0) && Bit(0x83, 1) && !Bit(0x83, 2) && !Bit(0x83, 3);
    assert !Bit(0x83, 4) && !Bit(0x83, 5) && !Bit(0x83, 6) && Bit(0x83, 7);
  }

  lemma PolynomialByte2()
    ensures LowBits(0xB8, 8) == [false, false, false, true, true, true, false, true]
  {
    assert !Bit(0xB8, 0) && !Bit(0xB8, 1) && !Bit(0xB8, 2) && Bit(0xB8, 3);
    assert Bit(0xB8, 4) && Bit(0xB8, 5) && !Bit(0xB8, 6) && Bit(0xB8, 7);
  }

  lemma PolynomialByte3()
    ensures LowBits(0xED, 8) == [true, false, true, true, false, true, true, true]
  {
    assert Bit(0xED, 0) && !Bit(0xED, 1) && Bit(0xED, 2) && Bit(0xED, 3);
    assert !Bit(0xED, 4) && Bit(0xED, 5) && Bit(0xED, 6) && Bit(0xED, 7);
  }

  lemma PolynomialBits()
    ensures Bits(0xEDB8_8320) == LowBits(0x20, 8) + LowBits(0x83, 8) + LowBits(0xB8, 8) + LowBits(0xED, 8)
  {
    forall i: nat | i < 32
      ensures Bits(0xEDB8_8320)[i]
              == (LowBits(0x20, 8) + LowBits(0x83, 8) + LowBits(0xB8, 8) + LowBits(0xED, 8))[i]
    {
      BitInByte(0xEDB8_8320, 0xED_B883, 0xEDB8, 0xED, 0x20, 0x83, 0xB8, 0xED, i);
    }
  }

  // The five bytes of a message that is the generator.

  lemma GeneratorByte0()
    ensures LowBits(0x41, 8) == [true, false, false, false, false, false, true, false]
  {
    assert Bit(0x41, 0) && !Bit(0x41, 1) && !Bit(0x41, 2) && !Bit(0x41, 3);
    assert !Bit(0x41, 4) && !Bit(0x41, 5) && Bit(0x41, 6) && !Bit(0x41, 7);
  }

  lemma GeneratorByte1()
    ensures LowBits(0x06, 8) == [false, true, true, false, false, false, false, false]
  {
    assert !Bit(0x06, 0) && Bit(0x06, 1) && Bit(0x06, 2) && !Bit(0x06, 3);
    assert !Bit(0x06, 4) && !Bit(0x06, 5) && !Bit(0x06, 6) && !Bit(0x06, 7);
  }

  lemma GeneratorByte2()
    ensures LowBits(0x71, 8) == [true, false, false, false, true, true, true, false]
  {
    assert Bit(0x71, 0) && !Bit(0x71, 1) && !Bit(0x71, 2) && !Bit(0x71, 3);
    assert Bit(0x71, 4) && Bit(0x71, 5) && Bit(0x71, 6) && !Bit(0x71, 7);
  }

  lemma GeneratorByte3()
    ensures LowBits(0xDB, 8) == [true, true, false, true, true, false, true, true]
  {
    assert Bit(0xDB, 0) && Bit(0xDB, 1) && !Bit(0xDB, 2) && Bit(0xDB, 3);
    assert Bit(0xDB, 4) && !Bit(0xDB, 5) && Bit(0xDB, 6) && Bit(0xDB, 7);
  }

  lemma GeneratorByte4()
    ensures LowBits(0x01, 8) == [true, false, false, false, false, false, false, false]
  {
    assert Bit(0x01, 0) && !Bit(0x01, 1) && !Bit(0x01, 2) && !Bit(0x01, 3);
    assert !Bit(0x01, 4) && !Bit(0x01, 5) && !Bit(0x01, 6) && !Bit(0x01, 7);
  }
}
