/**
 CRC-32/ISO-HDLC as a bit-serial shift register (section 8 of RFC 1952), and what the
 register computes: the remainder of the message polynomial modulo the generator.

 A register is the list of its 32 bits, least significant first.  The code is reflected,
 so bit 0 is the coefficient of x^31: read as a coefficient list, highest degree first,
 a register is its own polynomial.
 */
module Crc {
  import opened Common
  import opened Gf2
  import opened Word32

  type Register = s: seq<bool> | |s| == 32 witness seq(32, i => false)

  /** The generator polynomial of section 8.1.1.6.2 of ITU-T V.42, term by term. */
  const GENERATOR: Poly := {32, 26, 23, 22, 16, 12, 11, 10, 8, 7, 5, 4, 2, 1, 0}

  /** Its coefficients below x^32, from x^31 down to x^0. */
  const FEEDBACK: Register :=
    [false, false, false, false, false, true, false, false,
     true, true, false, false, false, false, false, true,
     false, false, false, true, true, true, false, true,
     true, false, true, true, false, true, true, true]

  function Ones(n: nat): (s: seq<bool>)
    ensures |s| == n && forall i :: 0 <= i < n ==> s[i]
  {
    seq(n, i => true)
  }

  function Shift(c: Register): Register {
    c[1..] + Zeros(1)
  }

  /** One shift of the register. */
  function Step(c: Register): Register {
    if c[0] then Xor(FEEDBACK, Shift(c)) else Shift(c)
  }

  function Steps(c: Register, n: nat): Register
    decreases n
  {
    if n == 0 then c else Steps(Step(c), n - 1)
  }

  /** Add a message bit to the end of the register that is shifted out next. */
  function Inject(c: Register, bit: bool): Register {
    [c[0] != bit] + c[1..]
  }

  /** Feed message bits into the register, in transmission order. */
  function Feed(c: Register, bits: seq<bool>): Register
    decreases |bits|
  {
    if bits == [] then c else Feed(Step(Inject(c, bits[0])), bits[1..])
  }

  /** A byte string in transmission order: each byte least significant bit first. */
  function MessageBits(data: Bytes): (s: seq<bool>)
    ensures |s| == 8 * |data|
  {
    if data == [] then [] else ByteBits(data[0]) + MessageBits(data[1..])
  }

  /** The register after a byte string, from the all-ones initial value. */
  function RegisterAfter(data: Bytes): Register {
    Feed(Ones(32), MessageBits(data))
  }

  /** The checksum: the final register complemented. */
  function Crc32(data: Bytes): Register {
    Xor(RegisterAfter(data), Ones(32))
  }

  // ----- linearity -------------------------------------------------------------------

  lemma StepLinear(c: Register, d: Register)
    ensures Step(Xor(c, d)) == Xor(Step(c), Step(d))
  {
    assert Shift(Xor(c, d)) == Xor(Shift(c), Shift(d));
    var p, x, y := FEEDBACK, Shift(c), Shift(d);
    assert Xor(Xor(p, x), Xor(p, y)) == Xor(x, y);
    assert Xor(p, Xor(x, y)) == Xor(Xor(p, x), y);
    assert Xor(p, Xor(x, y)) == Xor(x, Xor(p, y));
  }

  lemma {:induction false} StepsLinear(c: Register, d: Register, n: nat)
    ensures Steps(Xor(c, d), n) == Xor(Steps(c, n), Steps(d, n))
    decreases n
  {
    if n == 0 {
    } else {
      StepLinear(c, d);
      StepsLinear(Step(c), Step(d), n - 1);
    }
  }

  lemma {:induction false} FeedLinear(c: Register, d: Register, p: seq<bool>, q: seq<bool>)
    requires |p| == |q|
    ensures Feed(Xor(c, d), Xor(p, q)) == Xor(Feed(c, p), Feed(d, q))
    decreases |p|
  {
    if p == [] {
    } else {
      var r := Xor(p, q);
      assert Inject(Xor(c, d), r[0]) == Xor(Inject(c, p[0]), Inject(d, q[0]));
      StepLinear(Inject(c, p[0]), Inject(d, q[0]));
      assert r[1..] == Xor(p[1..], q[1..]);
      FeedLinear(Step(Inject(c, p[0])), Step(Inject(d, q[0])), p[1..], q[1..]);
    }
  }

  // ----- a shift can be undone ---------------------------------------------------------

  function Unstep(d: Register): Register {
    if d[31] then [true] + Xor(d, FEEDBACK)[..31] else [false] + d[..31]
  }

  lemma UnstepAfterStep(c: Register)
    ensures Unstep(Step(c)) == c
  {
    var d := Step(c);
    if c[0] {
      assert d[31] == FEEDBACK[31];
      assert Xor(d, FEEDBACK) == Shift(c);
      assert c == [true] + Shift(c)[..31];
    } else {
      assert c == [false] + Shift(c)[..31];
    }
  }

  lemma StepAfterUnstep(c: Register)
    ensures Step(Unstep(c)) == c
  {
    var u := Unstep(c);
    if c[31] {
      assert Shift(u) == Xor(c, FEEDBACK);
      assert Xor(FEEDBACK, Xor(c, FEEDBACK)) == c;
    } else {
      assert Shift(u) == c;
    }
  }

  lemma StepInvertible(c: Register)
    ensures Unstep(Step(c)) == c && Step(Unstep(c)) == c
  {
    UnstepAfterStep(c);
    StepAfterUnstep(c);
  }

  // ----- words instead of bits ---------------------------------------------------------

  lemma {:induction false} FeedConcat(c: Register, a: seq<bool>, b: seq<bool>)
    ensures Feed(c, a + b) == Feed(Feed(c, a), b)
    decreases |a|
  {
    if a == [] {
      assert a + b == b;
    } else {
      assert (a + b)[1..] == a[1..] + b;
      FeedConcat(Step(Inject(c, a[0])), a[1..], b);
    }
  }

  lemma {:induction false} MessageBitsConcat(a: Bytes, b: Bytes)
    ensures MessageBits(a + b) == MessageBits(a) + MessageBits(b)
    decreases |a|
  {
    if a == [] {
      assert a + b == b;
    } else {
      assert (a + b)[1..] == a[1..] + b;
      MessageBitsConcat(a[1..], b);
      assert MessageBits(a + b) == ByteBits(a[0]) + (MessageBits(a[1..]) + MessageBits(b));
    }
  }

  /** What a byte more does to the register. */
  lemma RegisterSnoc(data: Bytes, b: bv8)
    ensures RegisterAfter(data + [b]) == Feed(RegisterAfter(data), ByteBits(b))
  {
    MessageBitsConcat(data, [b]);
    assert MessageBits([b]) == ByteBits(b) + MessageBits([]);
    assert MessageBits([b]) == ByteBits(b);
    FeedConcat(Ones(32), MessageBits(data), ByteBits(b));
  }

  /** Feeding up to 32 bits one by one is adding them to the register first, then shifting. */
  lemma {:induction false} FeedWord(c: Register, w: seq<bool>)
    requires |w| <= 32
    ensures Feed(c, w) == Steps(Xor(c, w + Zeros(32 - |w|)), |w|)
    decreases |w|
  {
    if w == [] {
      assert Xor(c, w + Zeros(32)) == c;
    } else {
      var d := w + Zeros(32 - |w|);
      var late := [false] + d[1..];
      assert Xor(c, d) == Xor(Inject(c, w[0]), late);
      StepLinear(Inject(c, w[0]), late);
      assert Step(late) == w[1..] + Zeros(32 - |w[1..]|);
      FeedWord(Step(Inject(c, w[0])), w[1..]);
    }
  }

  /** A register whose n low bits are clear is only shifted by n steps. */
  lemma {:induction false} StepsLowZero(c: Register, n: nat)
    requires n <= 32 && c[..n] == Zeros(n)
    ensures Steps(c, n) == c[n..] + Zeros(n)
    decreases n
  {
    if n == 0 {
    } else {
      assert !c[..n][0];
      assert Step(c) == Shift(c);
      assert Shift(c)[..n - 1] == c[..n][1..];
      StepsLowZero(Shift(c), n - 1);
    }
  }

  /** One table lookup does eight single-bit steps. */
  lemma LookupIsEightBits(c: Register, byte: seq<bool>)
    requires |byte| == 8
    ensures Feed(c, byte) == Xor(Steps(Xor(c[..8], byte) + Zeros(24), 8), c[8..] + Zeros(8))
  {
    FeedWord(c, byte);
    var index, high := Xor(c[..8], byte) + Zeros(24), Zeros(8) + c[8..];
    assert Xor(c, byte + Zeros(24)) == Xor(index, high);
    StepsLinear(index, high, 8);
    assert high[..8] == Zeros(8);
    StepsLowZero(high, 8);
  }

  // ----- the register holds a remainder --------------------------------------------------

  lemma GeneratorDegree()
    ensures HasDegree(GENERATOR, 32) && 0 in GENERATOR
  {
  }

  lemma FeedbackIsGenerator()
    ensures GENERATOR == Add({32}, Of(FEEDBACK))
  {
    forall d: nat
      ensures d in GENERATOR <==> d in Add({32}, Of(FEEDBACK))
    {
      if d < 32 {
        assert d in Of(FEEDBACK) <==> FEEDBACK[31 - d];
      }
    }
  }

  lemma LeadingCoefficient(b: bool, s: seq<bool>)
    ensures Of([b] + s) == Add(Of(s), if b then {|s|} else ZERO)
  {
    forall d: nat
      ensures d in Of([b] + s) <==> d in Add(Of(s), if b then {|s|} else ZERO)
    {
      if d < |s| {
        assert Coefficient([b] + s, d) == Coefficient(s, d);
      }
    }
  }

  /** A shift multiplies by x and takes the generator away when x^32 appears. */
  lemma StepIsTimesX(c: Register)
    ensures TimesX(Of(c)) == Add(Of(Step(c)), if c[0] then GENERATOR else ZERO)
  {
    OfSnoc(c, false);
    assert c + [false] == [c[0]] + Shift(c);
    LeadingCoefficient(c[0], Shift(c));
    FeedbackIsGenerator();
    OfXor(FEEDBACK, Shift(c));
  }

  lemma InjectAdds(c: Register, bit: bool)
    ensures Of(Inject(c, bit)) == Add(Of(c), if bit then {31} else ZERO)
  {
    assert c == [c[0]] + c[1..];
    LeadingCoefficient(c[0], c[1..]);
    LeadingCoefficient(c[0] != bit, c[1..]);
  }

  /** x^32 * m + x^n * c, for the message m of n bits and the initial register c. */
  function Dividend(c: Register, bits: seq<bool>): Poly {
    Add(TimesXn(Of(bits), 32), TimesXn(Of(c), |bits|))
  }

  lemma {:induction false} TimesXnOne(d: nat, n: nat)
    ensures TimesXn({d}, n) == {d + n}
    decreases n
  {
    if n == 0 {
    } else {
      TimesXnOne(d, n - 1);
      assert TimesX({d + n - 1}) == {d + n};
    }
  }

  lemma {:induction false} TimesXnAdd(a: Poly, b: Poly, n: nat)
    ensures TimesXn(Add(a, b), n) == Add(TimesXn(a, n), TimesXn(b, n))
    decreases n
  {
    if n == 0 {
    } else {
      TimesXnAdd(a, b, n - 1);
      TimesXAdd(TimesXn(a, n - 1), TimesXn(b, n - 1));
    }
  }

  lemma {:induction false} TimesXnTimesX(a: Poly, n: nat)
    ensures TimesXn(TimesX(a), n) == TimesX(TimesXn(a, n))
    decreases n
  {
    if n == 0 {
    } else {
      TimesXnTimesX(a, n - 1);
    }
  }

  lemma DividendSnoc(c: Register, bits: seq<bool>, b: bool)
    ensures Dividend(c, bits + [b]) == Add(TimesX(Dividend(c, bits)), if b then {32} else ZERO)
  {
    var m, r := TimesXn(Of(bits), 32), TimesXn(Of(c), |bits|);
    OfSnoc(bits, b);
    TimesXAdd(m, r);
    TimesXnTimesX(Of(bits), 32);
    if b {
      TimesXnAdd(TimesX(Of(bits)), {0}, 32);
      TimesXnOne(0, 32);
    }
  }

  lemma FeedLast(c: Register, bits: seq<bool>, b: bool)
    ensures Feed(c, bits + [b]) == Step(Inject(Feed(c, bits), b))
  {
    FeedConcat(c, bits, [b]);
    assert Feed(Feed(c, bits), [b]) == Feed(Step(Inject(Feed(c, bits), b)), []);
  }

  lemma Regroup(p: Poly, x: Poly, out: Poly, f: Poly, s: Poly)
    requires Add(x, out) == Add(s, f)
    ensures Add(Add(p, x), out) == Add(Add(p, f), s)
  {
    AddLaws(p, x, out);
    AddLaws(p, f, s);
    AddLaws(s, f, f);
  }

  /** The bits shifted out are the quotient: a division step for the dividend polynomials. */
  lemma QuotientStep(a: Poly, q: seq<bool>, c: Register, b: bool)
    requires a == Add(Product(q, GENERATOR), Of(c))
    ensures var c' := Inject(c, b);
            Add(TimesX(a), if b then {32} else ZERO)
            == Add(Product(q + [c'[0]], GENERATOR), Of(Step(c')))
  {
    var c' := Inject(c, b);
    var out: Poly := if b then {32} else ZERO;
    var back: Poly := if b then {31} else ZERO;
    var f: Poly := if c'[0] then GENERATOR else ZERO;
    var p := TimesX(Product(q, GENERATOR));
    assert TimesX(back) == out;
    TimesXAdd(Product(q, GENERATOR), Of(c));
    InjectAdds(c, b);
    TimesXAdd(Of(c), back);
    StepIsTimesX(c');
    assert (q + [c'[0]])[..|q|] == q;
    assert Product(q + [c'[0]], GENERATOR) == Add(p, f);
    Regroup(p, TimesX(Of(c)), out, f, Of(Step(c')));
  }

  lemma {:induction false} FeedDivides(c: Register, bits: seq<bool>) returns (q: seq<bool>)
    ensures Dividend(c, bits) == Add(Product(q, GENERATOR), Of(Feed(c, bits)))
    decreases |bits|
  {
    if bits == [] {
      q := [];
      assert Of(bits) == ZERO;
      OfZeros([], 32);
      assert Of([] + Zeros(32)) == ZERO;
      AddLaws(Of(c), ZERO, ZERO);
    } else {
      var n := |bits| - 1;
      var b := bits[n];
      assert bits == bits[..n] + [b];
      var p := FeedDivides(c, bits[..n]);
      DividendSnoc(c, bits[..n], b);
      FeedLast(c, bits[..n], b);
      QuotientStep(Dividend(c, bits[..n]), p, Feed(c, bits[..n]), b);
      q := p + [Inject(Feed(c, bits[..n]), b)[0]];
    }
  }

  /** The register after a message is the remainder of its dividend, from any initial value. */
  lemma FeedIsRemainder(c: Register, bits: seq<bool>)
    ensures IsRemainder(Dividend(c, bits), GENERATOR, 32, Of(Feed(c, bits)))
  {
    var q := FeedDivides(c, bits);
    OfDegree(Feed(c, bits));
  }

  /** The complement of the checksum is the one remainder of
      x^32 * message + x^n * (x^31 + ... + 1) modulo the generator, n being the message length in bits. */
  lemma CrcIsRemainder(data: Bytes, r: Poly)
    ensures var a := Dividend(Ones(32), MessageBits(data));
            IsRemainder(a, GENERATOR, 32, r) <==> r == Of(Xor(Crc32(data), Ones(32)))
  {
    var a := Dividend(Ones(32), MessageBits(data));
    var c := Feed(Ones(32), MessageBits(data));
    assert c == RegisterAfter(data);
    assert Xor(Xor(c, Ones(32)), Ones(32)) == c;
    FeedIsRemainder(Ones(32), MessageBits(data));
    if IsRemainder(a, GENERATOR, 32, r) {
      GeneratorDegree();
      RemainderUnique(a, GENERATOR, 32, r, Of(c));
    }
  }

  // ----- error detection ----------------------------------------------------------------

  lemma OfInjective(s: seq<bool>, t: seq<bool>)
    requires |s| == |t| && Of(s) == Of(t)
    ensures s == t
  {
    forall i: nat | i < |s|
      ensures s[i] == t[i]
    {
      assert Coefficient(s, |s| - 1 - i) == (|s| - 1 - i in Of(s));
      assert Coefficient(t, |s| - 1 - i) == (|s| - 1 - i in Of(t));
    }
  }

  lemma SameCrcIffSameRemainder(a: Bytes, b: Bytes)
    ensures Crc32(a) == Crc32(b)
            <==> Of(Feed(Ones(32), MessageBits(a))) == Of(Feed(Ones(32), MessageBits(b)))
  {
    var c := Ones(32);
    var f, g := Feed(c, MessageBits(a)), Feed(c, MessageBits(b));
    assert Xor(Xor(f, c), c) == f && Xor(Xor(g, c), c) == g;
    if Of(f) == Of(g) {
      OfInjective(f, g);
    }
  }

  lemma DividendDifference(c: Register, p: seq<bool>, q: seq<bool>)
    requires |p| == |q|
    ensures Add(Dividend(c, p), Dividend(c, q)) == TimesXn(Of(Xor(p, q)), 32)
  {
    OfXor(p, q);
    TimesXnAdd(Of(p), Of(q), 32);
  }

  /** Two commands of one length have one checksum exactly when the generator divides the
      polynomial of the bits in which they differ. */
  lemma CollideIffDivides(a: Bytes, b: Bytes)
    requires |a| == |b|
    ensures Crc32(a) == Crc32(b) <==> Divides(GENERATOR, Of(Xor(MessageBits(a), MessageBits(b))))
  {
    var p, q := MessageBits(a), MessageBits(b);
    var c := Ones(32);
    SameCrcIffSameRemainder(a, b);
    FeedIsRemainder(c, p);
    FeedIsRemainder(c, q);
    GeneratorDegree();
    EqualRemaindersIffDivides(Dividend(c, p), Dividend(c, q), GENERATOR, 32, Of(Feed(c, p)), Of(Feed(c, q)));
    DividendDifference(c, p, q);
    DividesTimesXn(GENERATOR, Of(Xor(p, q)), 32);
  }

  /** a and b differ, and only in message bits k .. k + 31. */
  ghost predicate DifferByBurst(a: Bytes, b: Bytes, k: nat) {
    && |a| == |b|
    && MessageBits(a) != MessageBits(b)
    && forall i: nat :: i < 8 * |a| && MessageBits(a)[i] != MessageBits(b)[i] ==> k <= i < k + 32
  }

  lemma BurstNotDivisible(d: seq<bool>, k: nat)
    requires exists i: nat :: i < |d| && d[i]
    requires forall i: nat :: i < |d| && d[i] ==> k <= i < k + 32
    ensures !Divides(GENERATOR, Of(d))
  {
    var i: nat :| i < |d| && d[i];
    var end := if k + 32 <= |d| then k + 32 else |d|;
    var w := d[k..end];
    var tail := |d| - end;
    var w' := d[..end];
    assert d == w' + Zeros(tail);
    OfZeros(w', tail);
    forall e: nat
      ensures e in Of(w') <==> e in Of(w)
    {
      if e < |w'| && e >= |w| {
        assert !w'[|w'| - 1 - e];
      } else if e < |w| {
        assert w'[|w'| - 1 - e] == w[|w| - 1 - e];
      }
    }
    assert Of(w') == Of(w);
    GeneratorDegree();
    DividesTimesXn(GENERATOR, Of(w), tail);
    assert Coefficient(w', end - 1 - i);
    assert end - 1 - i in Of(w');
    assert Of(w) != ZERO;
    if Divides(GENERATOR, Of(w)) {
      var q: seq<bool> :| Of(w) == Product(q, GENERATOR);
      OfDegree(w);
      SmallMultipleIsZero(q, GENERATOR, 32);
      assert false;
    }
  }

  lemma DifferSomewhere(s: seq<bool>, t: seq<bool>)
    requires |s| == |t| && s != t
    ensures exists i: nat :: i < |s| && Xor(s, t)[i]
  {
    var i: nat :| i < |s| && s[i] != t[i];
    assert Xor(s, t)[i];
  }

  /** Every burst error of up to 32 bits changes the checksum, for commands of any length. */
  lemma BurstDetected(a: Bytes, b: Bytes, k: nat)
    requires DifferByBurst(a, b, k)
    ensures Crc32(a) != Crc32(b)
  {
    var d := Xor(MessageBits(a), MessageBits(b));
    DifferSomewhere(MessageBits(a), MessageBits(b));
    BurstNotDivisible(d, k);
    CollideIffDivides(a, b);
  }

  /** Five bytes that hold the generator, in transmission order. */
  const GENERATOR_BYTES: Bytes := [0x41, 0x06, 0x71, 0xDB, 0x01]

  lemma OneByte(b: bv8)
    ensures MessageBits([b]) == ByteBits(b)
  {
    assert MessageBits([b]) == ByteBits(b) + MessageBits([]);
  }

  lemma FiveBytes(a: bv8, b: bv8, c: bv8, d: bv8, e: bv8)
    ensures MessageBits([a, b, c, d, e])
            == ByteBits(a) + (ByteBits(b) + (ByteBits(c) + (ByteBits(d) + ByteBits(e))))
  {
    MessageBitsConcat([a], [b, c, d, e]);
    MessageBitsConcat([b], [c, d, e]);
    MessageBitsConcat([c], [d, e]);
    MessageBitsConcat([d], [e]);
    assert [a] + [b, c, d, e] == [a, b, c, d, e] && [b] + [c, d, e] == [b, c, d, e];
    assert [c] + [d, e] == [c, d, e] && [d] + [e] == [d, e];
    OneByte(a);
    OneByte(b);
    OneByte(c);
    OneByte(d);
    OneByte(e);
  }

  lemma ByteOfWord(b: bv8, v: bv32)
    requires b as bv32 == v
    ensures ByteBits(b) == LowBits(v, 8)
  {
  }

  lemma GeneratorInBytes(a: seq<bool>, b: seq<bool>, c: seq<bool>, d: seq<bool>, e: seq<bool>)
    requires a == [true, false, false, false, false, false, true, false]
    requires b == [false, true, true, false, false, false, false, false]
    requires c == [true, false, false, false, true, true, true, false]
    requires d == [true, true, false, true, true, false, true, true]
    requires e == [true, false, false, false, false, false, false, false]
    ensures a + (b + (c + (d + e))) == [true] + FEEDBACK + Zeros(7)
  {
  }

  lemma GeneratorBits()
    ensures MessageBits(GENERATOR_BYTES) == [true] + FEEDBACK + Zeros(7)
  {
    GeneratorByte0();
    GeneratorByte1();
    GeneratorByte2();
    GeneratorByte3();
    GeneratorByte4();
    GeneratorInBytes(LowBits(0x41, 8), LowBits(0x06, 8), LowBits(0x71, 8), LowBits(0xDB, 8), LowBits(0x01, 8));
    FiveBytes(0x41, 0x06, 0x71, 0xDB, 0x01);
    ByteOfWord(0x41, 0x41);
    ByteOfWord(0x06, 0x06);
    ByteOfWord(0x71, 0x71);
    ByteOfWord(0xDB, 0xDB);
    ByteOfWord(0x01, 0x01);
  }

  lemma ZeroBits()
    ensures MessageBits([0, 0, 0, 0, 0]) == Zeros(40)
  {
    FiveBytes(0, 0, 0, 0, 0);
    ByteOfWord(0, 0);
    forall i: nat | i < 8
      ensures !ByteBits(0)[i]
    {
      BitZero(i);
    }
  }

  lemma DividesItself(g: Poly)
    ensures Divides(g, g)
  {
    assert Product([true][..0], g) == ZERO;
    assert g == Product([true], g);
  }

  /** 32 bits is the limit: these two strings differ within 33 consecutive bits and have one checksum. */
  lemma LongerBurstUndetected(a: Bytes, b: Bytes)
    requires a == [0, 0, 0, 0, 0] && b == GENERATOR_BYTES
    ensures MessageBits(a) != MessageBits(b) && Crc32(a) == Crc32(b)
    ensures forall i: nat :: i < 40 && MessageBits(a)[i] != MessageBits(b)[i] ==> i < 33
  {
    var d := [true] + FEEDBACK;
    ZeroBits();
    GeneratorBits();
    assert Xor(MessageBits(a), MessageBits(b)) == d + Zeros(7);
    OfZeros(d, 7);
    LeadingCoefficient(true, FEEDBACK);
    FeedbackIsGenerator();
    AddLaws({32}, Of(FEEDBACK), ZERO);
    GeneratorDegree();
    DividesItself(GENERATOR);
    DividesTimesXn(GENERATOR, GENERATOR, 7);
    CollideIffDivides(a, b);
  }

  // ----- the checksum is affine ------------------------------------------------------------

  function XorBytes(a: Bytes, b: Bytes): (c: Bytes)
    requires |a| == |b|
    ensures |c| == |a| && forall i :: 0 <= i < |a| ==> c[i] == a[i] ^ b[i]
  {
    seq(|a|, i requires 0 <= i < |a| => a[i] ^ b[i])
  }

  lemma WidenXor(a: bv8, b: bv8)
    ensures (a ^ b) as bv32 == (a as bv32) ^ (b as bv32)
  {
  }

  lemma ByteBitsXor(a: bv8, b: bv8, c: bv8)
    requires c == a ^ b
    ensures ByteBits(c) == Xor(ByteBits(a), ByteBits(b))
  {
    WidenXor(a, b);
    LowByteXor(a as bv32, b as bv32, c as bv32);
  }

  lemma XorConcat(p: seq<bool>, q: seq<bool>, r: seq<bool>, s: seq<bool>)
    requires |p| == |r| && |q| == |s|
    ensures Xor(p + q, r + s) == Xor(p, r) + Xor(q, s)
  {
  }

  lemma MessageBitsXorHead(a: Bytes, b: Bytes, c: Bytes)
    requires |a| == |b| == |c| > 0 && c[0] == a[0] ^ b[0]
    requires MessageBits(c[1..]) == Xor(MessageBits(a[1..]), MessageBits(b[1..]))
    ensures MessageBits(c) == Xor(MessageBits(a), MessageBits(b))
  {
    ByteBitsXor(a[0], b[0], c[0]);
    XorConcat(ByteBits(a[0]), MessageBits(a[1..]), ByteBits(b[0]), MessageBits(b[1..]));
  }

  lemma {:induction false} MessageBitsXor(a: Bytes, b: Bytes, c: Bytes)
    requires |a| == |b|
    requires c == XorBytes(a, b)
    ensures MessageBits(c) == Xor(MessageBits(a), MessageBits(b))
    decreases |a|
  {
    if |a| == 0 {
    } else {
      assert c[1..] == XorBytes(a[1..], b[1..]);
      MessageBitsXor(a[1..], b[1..], c[1..]);
      MessageBitsXorHead(a, b, c);
    }
  }

  /** crc(a + b + c) = crc(a) + crc(b) + crc(c) over GF(2), on strings of one length. */
  lemma CrcAffine(a: Bytes, b: Bytes, c: Bytes)
    requires |a| == |b| == |c|
    ensures Crc32(XorBytes(XorBytes(a, b), c)) == Xor(Xor(Crc32(a), Crc32(b)), Crc32(c))
  {
    var o := Ones(32);
    var p, q, r := MessageBits(a), MessageBits(b), MessageBits(c);
    MessageBitsXor(a, b, XorBytes(a, b));
    MessageBitsXor(XorBytes(a, b), c, XorBytes(XorBytes(a, b), c));
    FeedLinear(o, o, p, q);
    FeedLinear(Xor(o, o), o, Xor(p, q), r);
    assert Xor(Xor(o, o), o) == o;
  }
}
