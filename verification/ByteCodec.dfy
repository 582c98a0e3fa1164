/** Fixed-width little-endian integers and UTF-8. */
module ByteCodec {
  import opened Bits

  type Bytes = seq<u8>

  /** The little-endian value of some bytes. */
  function Value(bytes: seq<u8>): nat {
    if bytes == [] then 0 else bytes[0] + 256 * Value(bytes[1..])
  }

  lemma {:induction false} ValueBound(bytes: seq<u8>)
    ensures |bytes| == 0 ==> Value(bytes) == 0
    ensures |bytes| <= 1 ==> Value(bytes) < 0x100
    ensures |bytes| <= 2 ==> Value(bytes) < 0x1_0000
    ensures |bytes| <= 3 ==> Value(bytes) < 0x100_0000
    ensures |bytes| <= 4 ==> Value(bytes) < 0x1_0000_0000
  {
    if bytes != [] { ValueBound(bytes[1..]); }
  }

  lemma {:induction false} ValueInjective(p: seq<u8>, q: seq<u8>)
    requires |p| == |q| && Value(p) == Value(q)
    ensures p == q
  {
    if p != [] {
      assert p[0] == q[0];
      ValueInjective(p[1..], q[1..]);
      assert p == [p[0]] + p[1..];
    }
  }

  /** `to_le_bytes` of an integer of `k` bytes. */
  function Le(n: nat, k: nat): (b: Bytes)
    ensures |b| == k
    decreases k
  {
    if k == 0 then [] else [n % 256] + Le(n / 256, k - 1)
  }

  lemma {:induction false} LeOfValue(b: Bytes)
    ensures Le(Value(b), |b|) == b
  {
    if b != [] {
      LeOfValue(b[1..]);
      LowByte(b[0], Value(b[1..]));
      assert b == [b[0]] + b[1..];
    }
  }

  lemma LowByte(b: u8, v: nat)
    ensures (b + 256 * v) % 256 == b && (b + 256 * v) / 256 == v
  {
  }

  lemma {:induction false} ValueOfLe(n: nat, k: nat)
    requires n < PowerOfTwo(8 * k)
    ensures Value(Le(n, k)) == n
    decreases k
  {
    if k > 0 {
      BytePower(k);
      ValueOfLe(n / 256, k - 1);
      assert Le(n, k)[1..] == Le(n / 256, k - 1);
    }
  }

  lemma BytePower(k: nat)
    requires k > 0
    ensures PowerOfTwo(8 * k) == 256 * PowerOfTwo(8 * (k - 1))
  {
    PowersOfEight();
    PowerSum(8, 8 * (k - 1));
  }

  /** Four bytes hold exactly the 32-bit integers. */
  lemma Le32(n: u32)
    ensures Value(Le(n, 4)) == n
  {
    BytePower(4); BytePower(3); BytePower(2); BytePower(1);
    ValueOfLe(n, 4);
  }

  /** The same bytes outside the four from `at` on. */
  ghost predicate Within(a: Bytes, b: Bytes, at: int) {
    |a| == |b| && forall i :: 0 <= i < |a| && !(at <= i < at + 4) ==> a[i] == b[i]
  }

  lemma WithinLength(a: Bytes, b: Bytes, at: int)
    requires Within(a, b, at)
    ensures |a| == |b|
  {
  }

  predicate Continuation(b: u8) {
    0x80 <= b < 0xC0
  }

  /** Well-formed UTF-8, as section 4 of RFC 3629 defines it. */
  predicate ValidUtf8(s: Bytes)
    decreases |s|
  {
    if s == [] then true
    else
      var b := s[0];
      if b < 0x80 then ValidUtf8(s[1..])
      else if 0xC2 <= b <= 0xDF then
        |s| >= 2 && Continuation(s[1]) && ValidUtf8(s[2..])
      else if 0xE0 <= b <= 0xEF then
        && |s| >= 3
        && (if b == 0xE0 then 0xA0 <= s[1] < 0xC0 else if b == 0xED then 0x80 <= s[1] < 0xA0 else Continuation(s[1]))
        && Continuation(s[2]) && ValidUtf8(s[3..])
      else if 0xF0 <= b <= 0xF4 then
        && |s| >= 4
        && (if b == 0xF0 then 0x90 <= s[1] < 0xC0 else if b == 0xF4 then 0x80 <= s[1] < 0x90 else Continuation(s[1]))
        && Continuation(s[2]) && Continuation(s[3]) && ValidUtf8(s[4..])
      else false
  }

  type Utf8 = s: Bytes | ValidUtf8(s)

  // What well-formed means: the encodings of scalar values, one after the other.

  /** The code points that are not surrogates. */
  type Scalar = c: int | 0 <= c < 0xD800 || 0xE000 <= c < 0x11_0000

  function EncodeScalar(c: Scalar): Bytes {
    if c < 0x80 then [c]
    else if c < 0x800 then [0xC0 + c / 0x40, 0x80 + c % 0x40]
    else if c < 0x1_0000 then [0xE0 + c / 0x1000, 0x80 + c / 0x40 % 0x40, 0x80 + c % 0x40]
    else [0xF0 + c / 0x4_0000, 0x80 + c / 0x1000 % 0x40, 0x80 + c / 0x40 % 0x40, 0x80 + c % 0x40]
  }

  function EncodeText(text: seq<Scalar>): Bytes {
    if text == [] then [] else EncodeScalar(text[0]) + EncodeText(text[1..])
  }

  /** Bytes are well-formed exactly if some text encodes to them. */
  lemma Utf8Exactly(s: Bytes)
    ensures ValidUtf8(s) <==> exists text :: EncodeText(text) == s
  {
    if ValidUtf8(s) {
      var text := TextOf(s);
    }
    forall text | EncodeText(text) == s ensures ValidUtf8(s) {
      EncodedIsValid(text);
    }
  }

  lemma {:induction false} EncodedIsValid(text: seq<Scalar>)
    ensures ValidUtf8(EncodeText(text))
  {
    if text != [] {
      EncodedIsValid(text[1..]);
      ScalarThenRest(text[0], EncodeText(text[1..]));
    }
  }

  lemma ScalarThenRest(c: Scalar, rest: Bytes)
    ensures ValidUtf8(EncodeScalar(c) + rest) <==> ValidUtf8(rest)
  {
    var e := EncodeScalar(c);
    var s := e + rest;
    assert s[|e|..] == rest;
    Bands(c);
  }

  /** Which first and second bytes a scalar value gets. */
  lemma Bands(c: Scalar)
    ensures 0x80 <= c < 0x800 ==> 2 <= c / 0x40 < 0x20
    ensures 0x800 <= c < 0x1_0000 ==> c / 0x1000 < 0x10 && (c / 0x1000 == 0 ==> c / 0x40 % 0x40 >= 0x20)
                                      && (c / 0x1000 == 0xD ==> c / 0x40 % 0x40 < 0x20)
    ensures c >= 0x1_0000 ==> c / 0x4_0000 <= 4 && (c / 0x4_0000 == 0 ==> c / 0x1000 % 0x40 >= 0x10)
                              && (c / 0x4_0000 == 4 ==> c / 0x1000 % 0x40 < 0x10)
  {
  }

  lemma {:induction false} TextOf(s: Bytes) returns (text: seq<Scalar>)
    requires ValidUtf8(s)
    ensures EncodeText(text) == s
  {
    if s == [] {
      text := [];
    } else {
      var c, n := FirstScalar(s);
      var rest := TextOf(s[n..]);
      text := [c] + rest;
      assert text[1..] == rest;
    }
  }

  lemma FirstScalar(s: Bytes) returns (c: Scalar, n: nat)
    requires s != [] && ValidUtf8(s)
    ensures 0 < n <= |s| && s == EncodeScalar(c) + s[n..] && ValidUtf8(s[n..])
  {
    if s[0] < 0x80 {
      c, n := s[0], 1;
    } else if s[0] < 0xE0 {
      n := 2;
      c := TwoBytes(s[0] - 0xC0, s[1] - 0x80);
    } else if s[0] < 0xF0 {
      n := 3;
      c := ThreeBytes(s[0] - 0xE0, s[1] - 0x80, s[2] - 0x80);
    } else {
      n := 4;
      c := FourBytes(s[0] - 0xF0, s[1] - 0x80, s[2] - 0x80, s[3] - 0x80);
    }
  }

  lemma TwoBytes(a: nat, b: nat) returns (c: Scalar)
    requires 2 <= a < 0x20 && b < 0x40
    ensures EncodeScalar(c) == [0xC0 + a, 0x80 + b]
  {
    c := 0x40 * a + b;
  }

  lemma ThreeBytes(a: nat, b: nat, d: nat) returns (c: Scalar)
    requires a < 0x10 && b < 0x40 && d < 0x40 && (a == 0 ==> b >= 0x20) && (a == 0xD ==> b < 0x20)
    ensures EncodeScalar(c) == [0xE0 + a, 0x80 + b, 0x80 + d]
  {
    c := 0x1000 * a + 0x40 * b + d;
    Parts(0x40 * a + b, d);
    Parts(a, b);
  }

  lemma FourBytes(a: nat, b: nat, d: nat, e: nat) returns (c: Scalar)
    requires a <= 4 && b < 0x40 && d < 0x40 && e < 0x40 && (a == 0 ==> b >= 0x10) && (a == 4 ==> b < 0x10)
    ensures EncodeScalar(c) == [0xF0 + a, 0x80 + b, 0x80 + d, 0x80 + e]
  {
    c := 0x4_0000 * a + 0x1000 * b + 0x40 * d + e;
    Parts(0x1000 * a + 0x40 * b + d, e);
    Parts(0x40 * a + b, d);
    Parts(a, b);
  }

  lemma Parts(high: nat, low: nat)
    requires low < 0x40
    ensures (0x40 * high + low) / 0x40 == high && (0x40 * high + low) % 0x40 == low
  {
  }
}
