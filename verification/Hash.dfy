/**
 src/common/Hash.cc: the table-driven CRC-32 of a byte string, printed as eight
 lowercase hexadecimal digits.
 */
module Hash {
  import opened Common
  import opened Gf2
  import opened Word32
  import opened Crc

  // ----- "%08x" and its inverse ---------------------------------------------------------

  const DIGITS := "0123456789abcdef"

  /** The number four bits stand for, least significant first. */
  function NibbleValue(n: seq<bool>): (v: nat)
    requires |n| == 4
    ensures v < 16
  {
    (if n[0] then 1 else 0) + (if n[1] then 2 else 0) + (if n[2] then 4 else 0) + (if n[3] then 8 else 0)
  }

  function NibbleOf(v: nat): (n: seq<bool>)
    requires v < 16
    ensures |n| == 4 && NibbleValue(n) == v
  {
    [v % 2 == 1, v / 2 % 2 == 1, v / 4 % 2 == 1, v / 8 == 1]
  }

  function DigitValue(c: char): Option<nat> {
    if '0' <= c <= '9' then Some((c - '0') as nat)
    else if 'a' <= c <= 'f' then Some((c - 'a') as nat + 10)
    else None
  }

  /** A register of 4k bits in k hexadecimal digits, most significant first. */
  function Hex(c: seq<bool>): (text: string)
    requires |c| % 4 == 0
    ensures |text| == |c| / 4
    decreases |c|
  {
    if c == [] then "" else Hex(c[4..]) + [DIGITS[NibbleValue(c[..4])]]
  }

  function ParseHex(text: string): (c: Option<seq<bool>>)
    ensures c.Some? ==> |c.value| == 4 * |text|
    decreases |text|
  {
    if text == "" then Some([])
    else
      var last := |text| - 1;
      match (DigitValue(text[last]), ParseHex(text[..last]))
      case (Some(v), Some(high)) => if v < 16 then Some(NibbleOf(v) + high) else None
      case _ => None
  }

  lemma DigitRoundTrip(v: nat)
    requires v < 16
    ensures DigitValue(DIGITS[v]) == Some(v)
  {
  }

  lemma ValueRoundTrip(c: char)
    ensures DigitValue(c).Some? ==> DigitValue(c).value < 16 && DIGITS[DigitValue(c).value] == c
  {
  }

  lemma NibbleInjective(m: seq<bool>, n: seq<bool>)
    requires |m| == |n| == 4 && NibbleValue(m) == NibbleValue(n)
    ensures m == n
  {
    assert m[3] == (NibbleValue(m) >= 8) && n[3] == (NibbleValue(n) >= 8);
    assert m[2] == (NibbleValue(m) % 8 >= 4) && n[2] == (NibbleValue(n) % 8 >= 4);
  }

  /** Reading back what was printed gives the register. */
  lemma {:induction false} ParsePrinted(c: seq<bool>)
    requires |c| % 4 == 0
    ensures ParseHex(Hex(c)) == Some(c)
    decreases |c|
  {
    if c == [] {
    } else {
      var v := NibbleValue(c[..4]);
      var text := Hex(c);
      assert text[..|text| - 1] == Hex(c[4..]);
      ParsePrinted(c[4..]);
      DigitRoundTrip(v);
      NibbleInjective(NibbleOf(v), c[..4]);
      assert c == c[..4] + c[4..];
    }
  }

  /** Every text that can be read is the one that is printed for what was read. */
  lemma {:induction false} PrintParsed(text: string)
    requires ParseHex(text).Some?
    ensures Hex(ParseHex(text).value) == text
    decreases |text|
  {
    if text == "" {
    } else {
      var last := |text| - 1;
      var v := DigitValue(text[last]).value;
      var high := ParseHex(text[..last]).value;
      ValueRoundTrip(text[last]);
      PrintParsed(text[..last]);
      var c := NibbleOf(v) + high;
      assert c[..4] == NibbleOf(v) && c[4..] == high;
      assert text == text[..last] + [text[last]];
    }
  }

  /** The number that hexadecimal digits stand for, most significant digit first. */
  function Number(text: string): int
    decreases |text|
  {
    if text == "" then 0
    else
      var d := text[|text| - 1];
      16 * Number(text[..|text| - 1]) + if d <= '9' then d as int - '0' as int else d as int - 'a' as int + 10
  }

  function TwoToThe(i: nat): nat {
    if i == 0 then 1 else 2 * TwoToThe(i - 1)
  }

  /** The sum of 2^i over the set bits i of a register. */
  function Value(c: seq<bool>): nat
    decreases |c|
  {
    if c == [] then 0
    else
      var i := |c| - 1;
      Value(c[..i]) + if c[i] then TwoToThe(i) else 0
  }

  /** Every character is a decimal digit or a letter from a to f. */
  predicate LowercaseHex(text: string) {
    forall i | 0 <= i < |text| :: '0' <= text[i] <= '9' || 'a' <= text[i] <= 'f'
  }

  /** The value of a register with another bit below it. */
  lemma {:induction false} ValueBelow(b: bool, c: seq<bool>)
    ensures Value([b] + c) == (if b then 1 else 0) + 2 * Value(c)
    decreases |c|
  {
    if c == [] {
      assert [b] + c == [b];
      assert [b][..0] == [];
    } else {
      var i := |c| - 1;
      assert ([b] + c)[..i + 1] == [b] + c[..i];
      ValueBelow(b, c[..i]);
    }
  }

  lemma ValueOfNibble(n: seq<bool>, high: seq<bool>)
    requires |n| == 4
    ensures Value(n + high) == NibbleValue(n) + 16 * Value(high)
  {
    var c3 := [n[3]] + high;
    var c2 := [n[2]] + c3;
    var c1 := [n[1]] + c2;
    assert n + high == [n[0]] + c1;
    ValueBelow(n[0], c1);
    ValueBelow(n[1], c2);
    ValueBelow(n[2], c3);
    ValueBelow(n[3], high);
  }

  lemma DigitNumber(v: nat)
    requires v < 16
    ensures var d := DIGITS[v];
            if d <= '9' then '0' <= d && d as int - '0' as int == v
            else 'a' <= d <= 'f' && d as int - 'a' as int + 10 == v
  {
  }

  /** One more digit at the end. */
  lemma NumberNext(text: string, v: nat)
    requires v < 16 && LowercaseHex(text)
    ensures var longer := text + [DIGITS[v]];
            LowercaseHex(longer) && Number(longer) == 16 * Number(text) + v
  {
    var longer := text + [DIGITS[v]];
    assert longer[..|text|] == text;
    DigitNumber(v);
  }

  /** What is printed is the number of the register, in lowercase digits. */
  lemma {:induction false} PrintsNumber(c: seq<bool>)
    requires |c| % 4 == 0
    ensures LowercaseHex(Hex(c)) && Number(Hex(c)) == Value(c)
    decreases |c|
  {
    if c == [] {
    } else {
      var n, high := c[..4], c[4..];
      PrintsNumber(high);
      NumberNext(Hex(high), NibbleValue(n));
      ValueOfNibble(n, high);
      assert c == n + high;
    }
  }

  /** crc32Hex as a function. */
  function HashText(data: Bytes): (text: string)
    ensures |text| == 8
  {
    Hex(Crc32(data))
  }

  /** The text prints the complement of the remainder that defines the checksum. */
  ghost predicate PrintsCrc(data: Bytes, text: string) {
    exists c: Register ::
      && IsRemainder(Dividend(Ones(32), MessageBits(data)), GENERATOR, 32, Of(Xor(c, Ones(32))))
      && ParseHex(text) == Some(c) && |text| == 8
      && LowercaseHex(text) && Number(text) == Value(c)
  }

  lemma HashTextPrintsCrc(data: Bytes)
    ensures PrintsCrc(data, HashText(data))
  {
    var c := Crc32(data);
    CrcIsRemainder(data, Of(Xor(c, Ones(32))));
    ParsePrinted(c);
    PrintsNumber(c);
  }

  /** No other text does. */
  lemma OnlyHashTextPrintsCrc(data: Bytes, text: string)
    requires PrintsCrc(data, text)
    ensures text == HashText(data)
  {
    var c: Register :|
      IsRemainder(Dividend(Ones(32), MessageBits(data)), GENERATOR, 32, Of(Xor(c, Ones(32))))
      && ParseHex(text) == Some(c);
    var d := Crc32(data);
    CrcIsRemainder(data, Of(Xor(c, Ones(32))));
    OfInjective(Xor(c, Ones(32)), Xor(d, Ones(32)));
    assert Xor(Xor(c, Ones(32)), Ones(32)) == c && Xor(Xor(d, Ones(32)), Ones(32)) == d;
    PrintParsed(text);
  }

  /** The string test on hashes is the test on checksums. */
  lemma HashTextInjective(a: Bytes, b: Bytes)
    ensures HashText(a) == HashText(b) <==> Crc32(a) == Crc32(b)
  {
    ParsePrinted(Crc32(a));
    ParsePrinted(Crc32(b));
  }

  lemma PrintedIffParses(text: string, c: Register)
    ensures text == Hex(c) <==> ParseHex(text) == Some(c)
  {
    ParsePrinted(c);
    if ParseHex(text) == Some(c) {
      PrintParsed(text);
    }
  }

  // ----- the table and the byte loop -----------------------------------------------------

  const POLYNOMIAL: bv32 := 0xEDB8_8320

  /** A table entry is eight single-bit steps applied to its index. */
  ghost predicate IsEntry(i: nat, entry: bv32)
    requires i < 256
  {
    Bits(entry) == Steps(Bits(i as bv32), 8)
  }

  lemma PolynomialIsFeedback()
    ensures Bits(POLYNOMIAL) == FEEDBACK
  {
    PolynomialBits();
    PolynomialByte0();
    PolynomialByte1();
    PolynomialByte2();
    PolynomialByte3();
  }

  lemma ShiftRight(c: bv32, h: bv32)
    requires h == c >> 1
    ensures Bits(h) == Shift(Bits(c)) && (c & 1 != 0) == Bits(c)[0]
  {
    BitsHalf(c, h);
    assert Bits(c)[0] == Bit(c, 0);
  }

  lemma WordStep(c: bv32, h: bv32, x: bv32)
    requires h == c >> 1 && x == POLYNOMIAL ^ h
    ensures Step(Bits(c)) == if c & 1 != 0 then Bits(x) else Bits(h)
  {
    ShiftRight(c, h);
    PolynomialIsFeedback();
    BitsXor(POLYNOMIAL, h, x);
  }

  /** One turn of the inner table loop is one shift of the register. */
  method ShiftOnce(c: bv32) returns (d: bv32)
    ensures Bits(d) == Step(Bits(c))
  {
    WordStep(c, c >> 1, POLYNOMIAL ^ (c >> 1));
    d := if c & 1 != 0 then POLYNOMIAL ^ (c >> 1) else c >> 1;
  }

  method TableEntry(i: nat) returns (c: bv32)
    requires i < 256
    ensures IsEntry(i, c)
  {
    c := i as bv32;
    ghost var index := Bits(c);
    var k: nat := 0;
    while k < 8
      invariant k <= 8
      invariant Steps(Bits(c), 8 - k) == Steps(index, 8)
    {
      c := ShiftOnce(c);
      k := k + 1;
    }
  }

  /** The entries below n are in place. */
  ghost predicate IsTable(t: seq<bv32>, n: nat)
    requires n <= |t| <= 256
    decreases n
  {
    n == 0 || (IsTable(t, n - 1) && IsEntry(n - 1, t[n - 1]))
  }

  lemma {:induction false} IsTableFrame(t: seq<bv32>, u: seq<bv32>, n: nat)
    requires n <= |t| <= 256 && n <= |u| <= 256
    requires t[..n] == u[..n] && IsTable(t, n)
    ensures IsTable(u, n)
    decreases n
  {
    if n == 0 {
    } else {
      assert t[n - 1] == t[..n][n - 1] == u[..n][n - 1] == u[n - 1];
      assert t[..n - 1] == t[..n][..n - 1] == u[..n][..n - 1] == u[..n - 1];
      IsTableFrame(t, u, n - 1);
    }
  }

  lemma {:induction false} TableHasEntry(t: seq<bv32>, n: nat, i: nat)
    requires i < n <= |t| <= 256 && IsTable(t, n)
    ensures IsEntry(i, t[i])
    decreases n
  {
    if i == n - 1 {
    } else {
      TableHasEntry(t, n - 1, i);
    }
  }

  ghost predicate Complete(t: seq<bv32>) {
    |t| == 256 && forall i | 0 <= i < 256 :: IsEntry(i, t[i])
  }

  lemma AllEntries(t: seq<bv32>)
    requires |t| <= 256 && IsTable(t, |t|)
    ensures forall i | 0 <= i < |t| :: IsEntry(i, t[i])
  {
    forall i | 0 <= i < |t|
      ensures IsEntry(i, t[i])
    {
      TableHasEntry(t, |t|, i);
    }
  }

  method BuildTable() returns (table: seq<bv32>)
    ensures Complete(table)
  {
    var t := new bv32[256];
    var i := 0;
    while i < 256
      invariant 0 <= i <= 256
      invariant IsTable(t[..], i)
    {
      ghost var before := t[..];
      var c := TableEntry(i);
      t[i] := c;
      IsTableFrame(before, t[..], i);
      i := i + 1;
    }
    table := t[..];
    AllEntries(table);
  }

  lemma IndexBits(crc: bv32, b: bv8, wide: bv32, mixed: bv32, index: bv32)
    requires wide == b as bv32 && mixed == crc ^ wide && index == mixed & 0xFF
    ensures Bits(index) == Xor(Bits(crc)[..8], ByteBits(b)) + Zeros(24)
  {
    var p := Bits(mixed);
    assert p == Xor(Bits(crc), Bits(wide)) by {
      BitsXor(crc, wide, mixed);
    }
    assert Bits(wide) == ByteBits(b) + Zeros(24) by {
      BitsOfByte(b, wide);
    }
    assert Bits(index) == p[..8] + Zeros(24) by {
      BitsMasked(mixed, index);
    }
  }

  lemma IndexInRange(mixed: bv32, index: bv32)
    requires index == mixed & 0xFF
    ensures index as int < 256
  {
    MaskedIsSmall(mixed);
    SmallIndex(index);
  }

  lemma IndexEntry(t: seq<bv32>, index: bv32, i: nat)
    requires Complete(t)
    requires i == index as int && i < 256
    ensures Bits(t[i]) == Steps(Bits(index), 8)
  {
    IndexBack(index);
    assert IsEntry(i, t[i]);
  }

  /** (crc ^ b) & 0xFF */
  method Index(crc: bv32, b: bv8) returns (index: bv32)
    ensures index as int < 256
    ensures Bits(index) == Xor(Bits(crc)[..8], ByteBits(b)) + Zeros(24)
  {
    index := (crc ^ (b as bv32)) & 0xFF;
    IndexInRange(crc ^ (b as bv32), index);
    IndexBits(crc, b, b as bv32, crc ^ (b as bv32), index);
  }

  /** table[(crc ^ b) & 0xFF] */
  method Lookup(table: seq<bv32>, crc: bv32, b: bv8) returns (entry: bv32)
    requires Complete(table)
    ensures Bits(entry) == Steps(Xor(Bits(crc)[..8], ByteBits(b)) + Zeros(24), 8)
  {
    var index := Index(crc, b);
    entry := table[index as int];
    IndexEntry(table, index, index as int);
  }

  /** entry ^ (crc >> 8) */
  method Combine(entry: bv32, crc: bv32) returns (next: bv32)
    ensures Bits(next) == Xor(Bits(entry), Bits(crc)[8..] + Zeros(8))
  {
    var high := crc >> 8;
    BitsShift8(crc, high);
    next := entry ^ high;
    BitsXor(entry, high, next);
  }

  method Complement(crc: bv32) returns (final: bv32)
    ensures Bits(final) == Xor(Bits(crc), Ones(32))
  {
    final := crc ^ 0xFFFF_FFFF;
    BitsXor(crc, 0xFFFF_FFFF, final);
    AllOnesBits();
    assert Bits(0xFFFF_FFFF) == Ones(32);
  }

  method InitialRegister() returns (crc: bv32)
    ensures Bits(crc) == Ones(32)
  {
    crc := 0xFFFF_FFFF;
    AllOnesBits();
  }

  /** crc = table[(crc ^ b) & 0xFF] ^ (crc >> 8) */
  method Advance(table: seq<bv32>, crc: bv32, b: bv8) returns (next: bv32)
    requires Complete(table)
    ensures Bits(next) == Feed(Bits(crc), ByteBits(b))
  {
    var entry := Lookup(table, crc, b);
    next := Combine(entry, crc);
    LookupIsEightBits(Bits(crc), ByteBits(b));
  }

  /** crc32Hex. */
  method Crc32Hex(data: Bytes) returns (text: string)
    ensures text == HashText(data) && PrintsCrc(data, text)
  {
    HashTextPrintsCrc(data);
    var table := BuildTable();
    var crc := InitialRegister();
    var n := 0;
    assert MessageBits(data[..0]) == [];
    while n < |data|
      invariant 0 <= n <= |data|
      invariant Bits(crc) == RegisterAfter(data[..n])
    {
      crc := Advance(table, crc, data[n]);
      RegisterSnoc(data[..n], data[n]);
      assert data[..n + 1] == data[..n] + [data[n]];
      n := n + 1;
    }
    assert data[..n] == data;
    crc := Complement(crc);
    text := Hex(Bits(crc));
  }
}
