/** CRC-32 on 32-bit words, and the values by which the checksum is known. */
module CrcValues {
  import opened Bits
  import opened ByteCodec
  import opened Crc32

  // The operations of words, under names so that proofs about numbers may look away from them.

  function Half(w: bv32): bv32 {
    w >> 1
  }

  predicate Odd(w: bv32) {
    w & 1 == 1
  }

  function Xor32(x: bv32, y: bv32): bv32 {
    x ^ y
  }

  lemma HalfLess(w: bv32)
    requires w != 0
    ensures Half(w) < w
  {
  }

  /** The number that a word stands for. */
  function Number(w: bv32): nat
    decreases w
  {
    if w == 0 then 0 else HalfLess(w); 2 * Number(Half(w)) + Low(w)
  }

  function Low(w: bv32): (b: nat)
    ensures b < 2
  {
    if Odd(w) then 1 else 0
  }

  lemma NumberStep(w: bv32)
    ensures Number(w) == 2 * Number(Half(w)) + Low(w)
  {
  }

  // Evaluation.

  function Down4(w: bv32): bv32 {
    Half(Half(Half(Half(w))))
  }

  function Digit(w: bv32): nat {
    8 * Low(Half(Half(Half(w)))) + 4 * Low(Half(Half(w))) + 2 * Low(Half(w)) + Low(w)
  }

  lemma NumberDigit(w: bv32)
    ensures Number(w) == 16 * Number(Down4(w)) + Digit(w)
  {
    hide Number, Half, Low;
    NumberStep(w);
    NumberStep(Half(w));
    NumberStep(Half(Half(w)));
    NumberStep(Half(Half(Half(w))));
  }

  /** The number in hexadecimal digits. */
  lemma NumberDigits(w: bv32)
    ensures var d1 := Down4(w); var d2 := Down4(d1); var d3 := Down4(d2); var d4 := Down4(d3);
            var d5 := Down4(d4); var d6 := Down4(d5); var d7 := Down4(d6);
            Number(w) == 0x1000_0000 * Digit(d7) + 0x100_0000 * Digit(d6) + 0x10_0000 * Digit(d5) + 0x1_0000 * Digit(d4)
                         + 0x1000 * Digit(d3) + 0x100 * Digit(d2) + 0x10 * Digit(d1) + Digit(w)
  {
    hide Number, Down4, Digit;
    var d1 := Down4(w); var d2 := Down4(d1); var d3 := Down4(d2); var d4 := Down4(d3);
    var d5 := Down4(d4); var d6 := Down4(d5); var d7 := Down4(d6);
    NumberDigit(w); NumberDigit(d1); NumberDigit(d2); NumberDigit(d3);
    NumberDigit(d4); NumberDigit(d5); NumberDigit(d6); NumberDigit(d7);
    NothingLeft(w);
    NumberZero();
  }

  lemma NothingLeft(w: bv32)
    ensures Down4(Down4(Down4(Down4(Down4(Down4(Down4(Down4(w)))))))) == 0
  {
  }

  lemma NumberZero()
    ensures Number(0) == 0
  {
  }

  lemma NumberBound(w: bv32)
    ensures Number(w) < 0x1_0000_0000
  {
    hide Number, Down4, Digit;
    NumberDigits(w);
    var d1 := Down4(w); var d2 := Down4(d1); var d3 := Down4(d2); var d4 := Down4(d3);
    var d5 := Down4(d4); var d6 := Down4(d5); var d7 := Down4(d6);
    DigitBound(w); DigitBound(d1); DigitBound(d2); DigitBound(d3); DigitBound(d4); DigitBound(d5); DigitBound(d6); DigitBound(d7);
  }

  lemma DigitBound(w: bv32)
    ensures Digit(w) < 16
  {
    hide Half, Odd;
  }

  lemma HalfXor(x: bv32, y: bv32)
    ensures Half(Xor32(x, y)) == Xor32(Half(x), Half(y))
    ensures Low(Xor32(x, y)) == (Low(x) + Low(y)) % 2
    ensures Xor32(0, 0) == 0
  {
  }

  lemma {:induction false} NoNumber(w: bv32)
    requires Number(w) == 0
    ensures w == 0
    decreases w
  {
    if w != 0 {
      HalfLess(w);
      NumberStep(w);
      NoNumber(Half(w));
      OnlyBit(w);
    }
  }

  lemma OnlyBit(w: bv32)
    requires Half(w) == 0 && Low(w) == 0
    ensures w == 0
  {
  }

  lemma {:induction false} NumberXor(x: bv32, y: bv32)
    ensures Number(Xor32(x, y)) == Xor(Number(x), Number(y))
    decreases Number(x) + Number(y)
  {
    hide Xor, Number, Half, Low, Xor32;
    HalfXor(x, y);
    NumberStep(x);
    NumberStep(y);
    if Number(x) == 0 && Number(y) == 0 {
      NoNumber(x);
      NoNumber(y);
      XorNothing(0);
    } else {
      NumberXor(Half(x), Half(y));
      NumberStep(Xor32(x, y));
      XorByHalves(Number(Half(x)), Number(Half(y)), Low(x), Low(y), Low(Xor32(x, y)));
    }
  }

  lemma XorByHalves(a: nat, b: nat, i: nat, j: nat, k: nat)
    requires i < 2 && j < 2 && k == (i + j) % 2
    ensures Xor(2 * a + i, 2 * b + j) == 2 * Xor(a, b) + k
  {
    hide Xor;
    XorStep(2 * a + i, 2 * b + j);
    Halves(Xor(2 * a + i, 2 * b + j), 2 * Xor(a, b) + k);
  }

  // Rounds.

  function RoundOfWord(w: bv32): bv32 {
    if Odd(w) then Xor32(0xEDB8_8320, Half(w)) else Half(w)
  }

  function EightRounds(w: bv32): bv32 {
    RoundOfWord(RoundOfWord(RoundOfWord(RoundOfWord(RoundOfWord(RoundOfWord(RoundOfWord(RoundOfWord(w))))))))
  }

  lemma WordRound(w: bv32)
    ensures Number(w) < 0x1_0000_0000 && Number(RoundOfWord(w)) == Round(Number(w))
  {
    hide Xor, Number, Half, Odd, Xor32, Down4, Digit;
    NumberBound(w);
    NumberStep(w);
    Polynomial();
    NumberXor(0xEDB8_8320, Half(w));
  }

  lemma Polynomial()
    ensures Number(0xEDB8_8320) == POLYNOMIAL
  {
    hide Number;
    NumberDigits(0xEDB8_8320);
  }

  lemma WordRounds(w: bv32)
    ensures Number(w) < 0x1_0000_0000 && Number(EightRounds(w)) == Rounds(Number(w), 8)
  {
    hide Number, RoundOfWord, Round;
    var a := RoundOfWord(w); var b := RoundOfWord(a); var c := RoundOfWord(b); var d := RoundOfWord(c);
    var e := RoundOfWord(d); var f := RoundOfWord(e); var g := RoundOfWord(f);
    WordRound(w); WordRound(a); WordRound(b); WordRound(c); WordRound(d); WordRound(e); WordRound(f); WordRound(g);
    RoundsOne(Number(w), 8); RoundsOne(Number(a), 7); RoundsOne(Number(b), 6); RoundsOne(Number(c), 5);
    RoundsOne(Number(d), 4); RoundsOne(Number(e), 3); RoundsOne(Number(f), 2); RoundsOne(Number(g), 1);
    RoundsNone(Number(RoundOfWord(g)));
  }

  lemma RoundsOne(c: u32, n: nat)
    requires n > 0
    ensures Rounds(c, n) == Rounds(Round(c), n - 1)
  {
  }

  lemma RoundsNone(c: nat)
    ensures c < 0x1_0000_0000 ==> Rounds(c, 0) == c
  {
  }

  // The values.

  function ThirtyTwoRounds(w: bv32): bv32 {
    EightRounds(EightRounds(EightRounds(EightRounds(w))))
  }

  lemma WordRounds32(w: bv32)
    ensures Number(w) < 0x1_0000_0000 && Number(ThirtyTwoRounds(w)) == Rounds(Number(w), 32)
  {
    hide Number, EightRounds, Rounds;
    var a := EightRounds(w);
    var b := EightRounds(a);
    var c := EightRounds(b);
    WordRounds(w);
    WordRounds(a);
    WordRounds(b);
    WordRounds(c);
    RoundsAdd(Number(w), 8, 24);
    RoundsAdd(Number(a), 8, 16);
    RoundsAdd(Number(b), 8, 8);
  }

  lemma AllOnes()
    ensures Number(0xFFFF_FFFF) == ALL
  {
    hide Number;
    NumberDigits(0xFFFF_FFFF);
  }

  /** Every text followed by its own checksum has the checksum that the standard names for CRC-32. */
  lemma Residue(m: Bytes)
    ensures Crc(m + Le(Crc(m), 4)) == 0x2144_DF1C
  {
    hide Number, ThirtyTwoRounds, Rounds, Update, Xor, Value, Le;
    var r, c := Update(ALL, m), Crc(m);
    Streaming(ALL, m, Le(c, 4));
    FewBytes(r, Le(c, 4));
    Le32(c);
    XorCommon(r, 0, ALL);
    XorNothing(r);
    XorNothing(ALL);
    assert Xor(r, c) == ALL;
    AllOnes();
    WordRounds32(0xFFFF_FFFF);
    ResidueWord();
    NumberXor(0xDEBB_20E3, 0xFFFF_FFFF);
  }

  lemma ResidueWord()
    ensures ThirtyTwoRounds(0xFFFF_FFFF) == 0xDEBB_20E3
    ensures Number(Xor32(0xDEBB_20E3, 0xFFFF_FFFF)) == 0x2144_DF1C
  {
    hide Number;
    NumberDigits(0x2144_DF1C);
  }

  /** The check value of CRC-32: the checksum of the digits one to nine in ASCII. */
  lemma CheckValue()
    ensures Crc([0x31, 0x32, 0x33, 0x34, 0x35, 0x36, 0x37, 0x38, 0x39]) == 0xCBF4_3926
  {
    hide Number, ThirtyTwoRounds, EightRounds, Rounds, Update, Xor, Value;
    var a: Bytes, b: Bytes, c: Bytes := [0x31, 0x32, 0x33, 0x34], [0x35, 0x36, 0x37, 0x38], [0x39];
    FirstChunk();
    SecondChunk();
    LastChunk();
    LastComplement();
    AllOnes();
    FourBytes(0xFFFF_FFFF, a, 0x3433_3231, 0x641C_1F5C);
    FourBytes(0x641C_1F5C, b, 0x3837_3635, 0x651F_2550);
    NumberBound(0x651F_2550);
    FewBytes(Number(0x651F_2550), c);
    NumberXor(0x651F_2550, 0x39);
    WordRounds(Xor32(0x651F_2550, 0x39));
    NumberXor(0x340B_C6D9, 0xFFFF_FFFF);
    assert [0x31, 0x32, 0x33, 0x34, 0x35, 0x36, 0x37, 0x38, 0x39] == a + (b + c);
    Streaming(ALL, a, b + c);
    Streaming(Update(ALL, a), b, c);
  }

  lemma FourBytes(w: bv32, bytes: Bytes, value: bv32, result: bv32)
    requires |bytes| == 4 && Value(bytes) == Number(value) && ThirtyTwoRounds(Xor32(w, value)) == result
    ensures Number(w) < 0x1_0000_0000 && Update(Number(w), bytes) == Number(result)
  {
    hide Number, ThirtyTwoRounds, Rounds, Update, Xor, Value;
    NumberBound(w);
    FewBytes(Number(w), bytes);
    NumberXor(w, value);
    WordRounds32(Xor32(w, value));
  }

  lemma FirstChunk()
    ensures Value([0x31, 0x32, 0x33, 0x34]) == Number(0x3433_3231)
    ensures ThirtyTwoRounds(Xor32(0xFFFF_FFFF, 0x3433_3231)) == 0x641C_1F5C
  {
    hide Number;
    NumberDigits(0x3433_3231);
    FourValue(0x31, 0x32, 0x33, 0x34);
  }

  lemma SecondChunk()
    ensures Value([0x35, 0x36, 0x37, 0x38]) == Number(0x3837_3635)
    ensures ThirtyTwoRounds(Xor32(0x641C_1F5C, 0x3837_3635)) == 0x651F_2550
  {
    hide Number;
    NumberDigits(0x3837_3635);
    FourValue(0x35, 0x36, 0x37, 0x38);
  }

  lemma LastChunk()
    ensures Value([0x39]) == Number(0x39)
    ensures EightRounds(Xor32(0x651F_2550, 0x39)) == 0x340B_C6D9
  {
    hide Number;
    NumberDigits(0x39);
  }

  lemma LastComplement()
    ensures Number(Xor32(0x340B_C6D9, 0xFFFF_FFFF)) == 0xCBF4_3926
  {
    hide Number;
    NumberDigits(0xCBF4_3926);
  }

  lemma FourValue(a: u8, b: u8, c: u8, d: u8)
    ensures Value([a, b, c, d]) == a as int + 0x100 * (b as int) + 0x1_0000 * (c as int) + 0x100_0000 * (d as int)
  {
    assert [d][1..] == [] && [c, d][1..] == [d] && [b, c, d][1..] == [c, d] && [a, b, c, d][1..] == [b, c, d];
    assert Value([d]) == d;
    assert Value([c, d]) == c as int + 256 * (d as int);
    assert Value([b, c, d]) == b as int + 256 * (c as int + 256 * (d as int));
  }
}
