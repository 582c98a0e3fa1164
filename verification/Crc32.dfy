/** Exclusive or on naturals, bit by bit. */
module Bits {
  type u8 = x: int | 0 <= x < 0x100
  type u32 = x: int | 0 <= x < 0x1_0000_0000

  function Xor(a: nat, b: nat): nat
    decreases a + b
  {
    if a == 0 then b
    else if b == 0 then a
    else 2 * Xor(a / 2, b / 2) + (a + b) % 2
  }

  /** The recurrence without its base cases. */
  lemma XorStep(a: nat, b: nat)
    ensures Xor(a, b) / 2 == Xor(a / 2, b / 2) && Xor(a, b) % 2 == (a + b) % 2
  {
  }

  lemma XorNothing(a: nat)
    ensures Xor(0, a) == a && Xor(a, 0) == a
  {
  }

  lemma {:induction false} XorComm(a: nat, b: nat)
    ensures Xor(a, b) == Xor(b, a)
    decreases a + b
  {
    if a != 0 && b != 0 { XorComm(a / 2, b / 2); }
  }

  lemma {:induction false} XorAssoc(a: nat, b: nat, c: nat)
    ensures Xor(Xor(a, b), c) == Xor(a, Xor(b, c))
    decreases a + b + c
  {
    hide Xor;
    XorNothing(a);
    if a != 0 || b != 0 || c != 0 {
      XorAssoc(a / 2, b / 2, c / 2);
      XorTwice(a, b, c);
      Halves(Xor(Xor(a, b), c), Xor(a, Xor(b, c)));
    }
  }

  lemma Halves(a: nat, b: nat)
    requires a / 2 == b / 2 && a % 2 == b % 2
    ensures a == b
  {
  }

  lemma Parity(a: nat, b: nat, c: nat)
    requires a % 2 == b % 2
    ensures (a + c) % 2 == (b + c) % 2 && (c + a) % 2 == (b + c) % 2
  {
  }

  /** The recurrence for three operands, however they are grouped. */
  lemma XorTwice(a: nat, b: nat, c: nat)
    ensures Xor(Xor(a, b), c) / 2 == Xor(Xor(a / 2, b / 2), c / 2)
    ensures Xor(a, Xor(b, c)) / 2 == Xor(a / 2, Xor(b / 2, c / 2))
    ensures Xor(Xor(a, b), c) % 2 == Xor(a, Xor(b, c)) % 2
  {
    hide Xor;
    XorStep(a, b);
    XorStep(b, c);
    XorStep(Xor(a, b), c);
    XorStep(a, Xor(b, c));
    Parity(Xor(a, b), a + b, c);
    Parity(Xor(b, c), b + c, a);
  }

  lemma {:induction false} XorSelf(a: nat)
    ensures Xor(a, a) == 0
  {
    if a != 0 { XorSelf(a / 2); }
  }

  /** Two numbers with the same exclusive or with a third are equal. */
  lemma XorCancel(a: nat, b: nat, c: nat)
    requires Xor(a, c) == Xor(b, c)
    ensures a == b
  {
    XorAssoc(a, c, c);
    XorAssoc(b, c, c);
    XorSelf(c);
  }

  lemma XorZero(a: nat, b: nat)
    requires Xor(a, b) == 0
    ensures a == b
  {
    XorSelf(b);
    XorCancel(a, b, b);
  }

  /** `(a ^ b) ^ (a ^ c)` is `b ^ c`. */
  lemma XorCommon(a: nat, b: nat, c: nat)
    ensures Xor(Xor(a, b), Xor(a, c)) == Xor(b, c)
  {
    XorComm(a, b);
    XorAssoc(b, a, Xor(a, c));
    XorAssoc(a, a, c);
    XorSelf(a);
  }

  lemma {:induction false} XorBound(a: nat, b: nat, bits: nat, bound: nat)
    requires bound == PowerOfTwo(bits) && a < bound && b < bound
    ensures Xor(a, b) < bound
    decreases bits
  {
    if a != 0 && b != 0 { XorBound(a / 2, b / 2, bits - 1, PowerOfTwo(bits - 1)); }
  }

  function PowerOfTwo(n: nat): nat {
    if n == 0 then 1 else 2 * PowerOfTwo(n - 1)
  }

  lemma XorU32(a: u32, b: u32)
    ensures Xor(a, b) < 0x1_0000_0000
  {
    PowersOfEight();
    XorBound(a, b, 32, 0x1_0000_0000);
  }

  lemma {:induction false} PowerSum(m: nat, n: nat)
    ensures PowerOfTwo(m + n) == PowerOfTwo(m) * PowerOfTwo(n)
  {
    if m > 0 {
      PowerSum(m - 1, n);
      DoubleProduct(PowerOfTwo(m - 1), PowerOfTwo(n));
    }
  }

  lemma PowersOfEight()
    ensures PowerOfTwo(8) == 0x100 && PowerOfTwo(32) == 0x1_0000_0000
  {
    assert PowerOfTwo(4) == 16;
    PowerSum(4, 4);
    PowerSum(8, 8);
    PowerSum(16, 16);
  }

  /** Bits that do not overlap add up. */
  lemma {:induction false} XorDisjoint(low: nat, high: nat, bits: nat)
    requires low < PowerOfTwo(bits)
    ensures Xor(low, PowerOfTwo(bits) * high) == low + PowerOfTwo(bits) * high
    decreases bits
  {
    hide Xor;
    if bits == 0 {
      XorNothing(high);
    } else {
      ghost var p := PowerOfTwo(bits - 1) * high;
      XorDisjoint(low / 2, high, bits - 1);
      DoubleProduct(PowerOfTwo(bits - 1), high);
      XorEven(low, p);
    }
  }

  lemma DoubleProduct(a: nat, b: nat)
    ensures 2 * a * b == 2 * (a * b)
  {
  }

  lemma XorEven(a: nat, p: nat)
    requires Xor(a / 2, p) == a / 2 + p
    ensures Xor(a, 2 * p) == a + 2 * p
  {
    hide Xor;
    XorStep(a, 2 * p);
  }
}

/** CRC-32 as section 8 of RFC 1952 defines it, and what it detects. */
module Crc32 {
  import opened Bits
  import opened ByteCodec
  import opened Slots

  const POLYNOMIAL: u32 := 0xEDB8_8320
  const ALL: u32 := 0xFFFF_FFFF

  /** One round of the loop that makes the table. */
  function Round(c: u32): u32 {
    XorU32(POLYNOMIAL, c / 2);
    if c % 2 == 1 then Xor(POLYNOMIAL, c / 2) else c / 2
  }

  function Rounds(c: u32, n: nat): u32
    decreases n
  {
    if n == 0 then c else Rounds(Round(c), n - 1)
  }

  /** The table entry of a byte. */
  function Entry(n: u8): u32 {
    Rounds(n, 8)
  }

  /** One byte through the table: `table[(c ^ b) & 0xff] ^ (c >> 8)`. */
  function TableStep(c: u32, b: u8): u32 {
    XorU32(Entry(Xor(c, b) % 256), c / 256);
    Xor(Entry(Xor(c, b) % 256), c / 256)
  }

  function Update(c: u32, bytes: seq<u8>): u32
    decreases |bytes|
  {
    if bytes == [] then c else Update(TableStep(c, bytes[0]), bytes[1..])
  }

  function Crc(bytes: seq<u8>): u32 {
    XorU32(Update(ALL, bytes), ALL);
    Xor(Update(ALL, bytes), ALL)
  }

  /** The streaming hasher: its state is the register before the final complement. */
  datatype Hasher = Hasher(register: u32) {
    function Feed(bytes: seq<u8>): Hasher {
      Hasher(Update(register, bytes))
    }

    function Finalize(): u32 {
      XorU32(register, ALL);
      Xor(register, ALL)
    }
  }

  const NEW_HASHER := Hasher(ALL)

  /** Feeding a text in pieces is feeding it whole. */
  lemma {:induction false} Streaming(c: u32, a: seq<u8>, b: seq<u8>)
    ensures Update(c, a + b) == Update(Update(c, a), b)
    decreases |a|
  {
    if a == [] {
      assert a + b == b;
    } else {
      assert (a + b)[1..] == a[1..] + b;
      Streaming(TableStep(c, a[0]), a[1..], b);
    }
  }

  lemma HasherInPieces(a: seq<u8>, b: seq<u8>)
    ensures NEW_HASHER.Feed(a).Feed(b).Finalize() == Crc(a + b)
  {
    Streaming(ALL, a, b);
  }

  lemma EmptyCrc()
    ensures Crc([]) == 0
  {
    XorSelf(ALL);
  }

  // Rounds are linear and invertible.

  lemma RoundLinear(x: u32, y: u32)
    ensures Xor(x, y) < 0x1_0000_0000
    ensures Round(Xor(x, y)) == Xor(Round(x), Round(y))
  {
    hide Xor;
    XorU32(x, y);
    XorStep(x, y);
    var p, a, b := POLYNOMIAL, x / 2, y / 2;
    if x % 2 == 1 && y % 2 == 1 {
      XorCommon(p, a, b);
    } else if x % 2 == 1 {
      XorAssoc(p, a, b);
    } else if y % 2 == 1 {
      XorComm(a, Xor(p, b));
      XorAssoc(p, b, a);
      XorComm(a, b);
    }
  }

  lemma {:induction false} RoundsLinear(x: u32, y: u32, n: nat)
    ensures Xor(x, y) < 0x1_0000_0000
    ensures Rounds(Xor(x, y), n) == Xor(Rounds(x, n), Rounds(y, n))
    decreases n
  {
    RoundLinear(x, y);
    if n > 0 { RoundsLinear(Round(x), Round(y), n - 1); }
  }

  lemma RoundKernel(c: u32)
    requires Round(c) == 0
    ensures c == 0
  {
    if c % 2 == 1 { XorZero(POLYNOMIAL, c / 2); }
  }

  lemma {:induction false} RoundsInjective(x: u32, y: u32, n: nat)
    requires Rounds(x, n) == Rounds(y, n)
    ensures x == y
    decreases n
  {
    if n > 0 {
      RoundsInjective(Round(x), Round(y), n - 1);
      RoundLinear(x, y);
      XorSelf(Round(x));
      RoundKernel(Xor(x, y));
      XorZero(x, y);
    }
  }

  /** Rounds move a number with free low bits down unchanged. */
  lemma {:induction false} RoundsShift(x: nat, n: nat)
    requires PowerOfTwo(n) * x < 0x1_0000_0000
    ensures Rounds(PowerOfTwo(n) * x, n) == x
    decreases n
  {
    if n > 0 {
      DoubleProduct(PowerOfTwo(n - 1), x);
      RoundOfDouble(PowerOfTwo(n - 1) * x);
      RoundsShift(x, n - 1);
    }
  }

  lemma RoundOfDouble(y: nat)
    requires 2 * y < 0x1_0000_0000
    ensures Round(2 * y) == y
  {
    hide Xor;
  }

  lemma {:induction false} RoundsAdd(x: u32, m: nat, n: nat)
    ensures Rounds(x, m + n) == Rounds(Rounds(x, m), n)
    decreases m
  {
    if m > 0 { RoundsAdd(Round(x), m - 1, n); }
  }

  /** A byte through the table is eight rounds of the register with the byte added in. */
  lemma TableIsRounds(c: u32, b: u8)
    ensures Xor(c, b) < 0x1_0000_0000
    ensures TableStep(c, b) == Rounds(Xor(c, b), 8)
  {
    XorU32(c, b);
    var x := Xor(c, b);
    var low, high := x % 256, x / 256;
    PowersOfEight();
    XorDisjoint(low, high, 8);
    assert x == Xor(low, 256 * high);
    RoundsLinear(low, 256 * high, 8);
    RoundsShift(high, 8);
    HighPart(c, b, 8);
  }

  lemma {:induction false} HighPart(c: nat, b: nat, bits: nat)
    requires b < PowerOfTwo(bits)
    ensures PowerOfTwo(bits) > 0
    ensures Xor(c, b) / PowerOfTwo(bits) == c / PowerOfTwo(bits)
    decreases bits
  {
    if bits > 0 {
      XorStep(c, b);
      HighPart(c / 2, b / 2, bits - 1);
      var p := PowerOfTwo(bits - 1);
      HalfThenRest(c, p);
      HalfThenRest(Xor(c, b), p);
    }
  }

  lemma HalfThenRest(x: nat, p: nat)
    requires p > 0
    ensures x / (2 * p) == x / 2 / p
  {
    var q, r := x / 2 / p, x / 2 % p;
    assert x / 2 == q * p + r;
    assert q * (2 * p) == 2 * (q * p);
    assert x == q * (2 * p) + (2 * r + x % 2);
    RemainderUnique(x, 2 * p, q, 2 * r + x % 2);
  }

  // Detection.

  lemma XorSwap(a: nat, b: nat, c: nat)
    requires Xor(c, a) == Xor(c, b)
    ensures a == b
  {
    XorComm(c, a);
    XorComm(c, b);
    XorCancel(a, b, c);
  }

  /** The register after a text determines the register before it. */
  lemma {:induction false} UpdateInjective(c: u32, d: u32, bytes: seq<u8>)
    requires Update(c, bytes) == Update(d, bytes)
    ensures c == d
    decreases |bytes|
  {
    hide Xor;
    if bytes != [] {
      var b := bytes[0];
      UpdateInjective(TableStep(c, b), TableStep(d, b), bytes[1..]);
      TableIsRounds(c, b);
      TableIsRounds(d, b);
      RoundsInjective(Xor(c, b), Xor(d, b), 8);
      XorCancel(c, d, b);
    }
  }

  /** Up to four bytes act on the register as one number. */
  lemma {:induction false} FewBytes(c: u32, bytes: seq<u8>)
    requires |bytes| <= 4
    ensures Value(bytes) < 0x1_0000_0000 && Xor(c, Value(bytes)) < 0x1_0000_0000
    ensures Update(c, bytes) == Rounds(Xor(c, Value(bytes)), 8 * |bytes|)
    decreases |bytes|
  {
    hide Xor, Round;
    ValueBound(bytes);
    XorU32(c, Value(bytes));
    if bytes == [] {
      XorComm(c, 0);
      XorNothing(c);
    } else {
      var b, v := bytes[0], Value(bytes[1..]);
      ValueBound(bytes[1..]);
      FewBytes(TableStep(c, b), bytes[1..]);
      ByteAndRest(c, b, v);
      RoundsAdd(Xor(c, b + 256 * v), 8, 8 * |bytes[1..]|);
    }
  }

  /** Eight rounds of the register with a byte, then more bytes: the same as adding all of them first. */
  lemma ByteAndRest(c: u32, b: u8, v: nat)
    requires v < 0x100_0000
    ensures Xor(c, b + 256 * v) < 0x1_0000_0000
    ensures Xor(TableStep(c, b), v) == Rounds(Xor(c, b + 256 * v), 8)
  {
    hide Xor, Rounds, TableStep;
    XorU32(c, b + 256 * v);
    TableIsRounds(c, b);
    PowersOfEight();
    RoundsShift(v, 8);
    RoundsLinear(Xor(c, b), 256 * v, 8);
    XorAssoc(c, b, 256 * v);
    XorDisjoint(b, v, 8);
  }

  /** Texts that differ only inside a window of four bytes have different checksums. */
  lemma BurstDetected(a: seq<u8>, b: seq<u8>, at: int)
    requires |a| == |b|
    requires forall i :: 0 <= i < |a| && !(at <= i < at + 4) ==> a[i] == b[i]
    requires Crc(a) == Crc(b)
    ensures a == b
  {
    hide Crc;
    var lo := if at < 0 then 0 else if at > |a| then |a| else at;
    var hi := if at + 4 < 0 then 0 else if at + 4 > |a| then |a| else at + 4;
    var pre, post := a[..lo], a[hi..];
    var p, q := a[lo..hi], b[lo..hi];
    assert a == pre + (p + post) && b == pre + (q + post);
    WindowDetected(pre, p, q, post);
  }

  lemma WindowDetected(pre: seq<u8>, p: seq<u8>, q: seq<u8>, post: seq<u8>)
    requires |p| == |q| <= 4 && Crc(pre + (p + post)) == Crc(pre + (q + post))
    ensures p == q
  {
    hide Xor, Update, Rounds, Value;
    XorCancel(Update(ALL, pre + (p + post)), Update(ALL, pre + (q + post)), ALL);
    var c := Update(ALL, pre);
    Streaming(ALL, pre, p + post);
    Streaming(ALL, pre, q + post);
    Streaming(c, p, post);
    Streaming(c, q, post);
    UpdateInjective(Update(c, p), Update(c, q), post);
    FewBytes(c, p);
    FewBytes(c, q);
    RoundsInjective(Xor(c, Value(p)), Xor(c, Value(q)), 8 * |p|);
    XorSwap(Value(p), Value(q), c);
    ValueInjective(p, q);
  }
}
