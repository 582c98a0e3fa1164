/** 64-bit words as sequences of bits.

    Shifts by a variable amount are repeated shifts by one place, so every fact below is an
    induction over bit positions and no conversion between integers and bit vectors is needed.
    The few genuine bit-vector facts come first; everything after them hides the operators.
 */
module Words64 {

  const ALL_ONES: bv64 := 0xFFFF_FFFF_FFFF_FFFF
  const TOP: bv64 := 0x8000_0000_0000_0000

  function And(a: bv64, b: bv64): bv64 { a & b }
  function Or(a: bv64, b: bv64): bv64 { a | b }
  function Not(a: bv64): bv64 { !a }
  function Half(w: bv64): bv64 { w >> 1 }
  function Double(w: bv64): bv64 { w << 1 }
  function Pred(w: bv64): bv64 { w - 1 }
  predicate Odd(w: bv64) { w & 1 != 0 }

  /** `w << k`. */
  function Shl(w: bv64, k: nat): bv64 {
    if k == 0 then w else Double(Shl(w, k - 1))
  }

  /** `w >> k`. */
  function Shr(w: bv64, k: nat): bv64 {
    if k == 0 then w else Shr(Half(w), k - 1)
  }

  /** Bit `k` of `w`, bit 0 being the least significant one. */
  predicate Bit(w: bv64, k: nat) {
    if k == 0 then Odd(w) else Bit(Half(w), k - 1)
  }

  /** `(1 << k) - 1`. */
  function LowMask(k: nat): bv64 {
    Pred(Shl(1, k))
  }

  /** `u64::trailing_zeros`: the lowest set position, 64 for the zero word. */
  function TrailingZeros(w: bv64): (n: nat)
    ensures n <= 64
    ensures forall j :: 0 <= j < n ==> !Bit(w, j)
    ensures n < 64 ==> Bit(w, n)
  {
    LowestFrom(w, 0)
  }

  function LowestFrom(w: bv64, k: nat): (n: nat)
    requires k <= 64
    ensures k <= n <= 64
    ensures forall j :: k <= j < n ==> !Bit(w, j)
    ensures n < 64 ==> Bit(w, n)
    decreases 64 - k
  {
    if k == 64 || Bit(w, k) then k else LowestFrom(w, k + 1)
  }

  // The bit-vector facts, free of positions.

  lemma HalfAnd(a: bv64, b: bv64)
    ensures Half(And(a, b)) == And(Half(a), Half(b))
    ensures Odd(And(a, b)) <==> Odd(a) && Odd(b)
  {
  }

  lemma HalfOr(a: bv64, b: bv64)
    ensures Half(Or(a, b)) == Or(Half(a), Half(b))
    ensures Odd(Or(a, b)) <==> Odd(a) || Odd(b)
  {
  }

  /** Complementing brings a set bit in at the top when the word is halved. */
  lemma HalfNot(a: bv64)
    ensures Half(Not(a)) == And(Not(Half(a)), Not(TOP))
    ensures Odd(Not(a)) <==> !Odd(a)
  {
  }

  lemma HalfConstants()
    ensures Half(0) == 0 && !Odd(0)
    ensures Half(ALL_ONES) == Not(TOP) && Odd(ALL_ONES)
    ensures Pred(TOP) == Not(TOP) && Pred(1) == 0
  {
  }

  /** A power of two: clearing its lowest set bit leaves nothing. */
  predicate Single(s: bv64) { s & (s - 1) == 0 }

  lemma DoubleSingle(s: bv64)
    requires Single(s)
    ensures Single(Double(s))
    ensures Double(s) != 0 ==> s != 0 && Half(Pred(Double(s))) == Pred(s) && Odd(Pred(Double(s)))
  {
  }

  function Double7(w: bv64): bv64 { w << 7 }

  lemma DoubleSeven(w: bv64)
    ensures Double(Double(Double(Double(Double(Double(Double(w))))))) == Double7(w)
  {
  }

  lemma DoubleSixtyThree()
    ensures Double7(Double7(Double7(Double7(Double7(Double7(Double7(Double7(Double7(1))))))))) == TOP
  {
  }

  lemma Masked(w: bv64, m: bv64)
    ensures And(w, Not(m)) == 0 ==> And(Half(w), Not(Half(m))) == 0
    ensures And(Half(w), Not(Not(TOP))) == 0
    ensures Half(w) == 0 && !Odd(w) ==> w == 0
    ensures And(w, Not(0)) == w
    ensures Not(w) == 0 <==> w == ALL_ONES
  {
  }

  // Positions.

  lemma {:induction false} BitOr(a: bv64, b: bv64, k: nat)
    ensures Bit(Or(a, b), k) <==> Bit(a, k) || Bit(b, k)
    decreases k
  {
    hide Or, Half, Odd;
    HalfOr(a, b);
    if k > 0 { BitOr(Half(a), Half(b), k - 1); }
  }

  lemma {:induction false} BitAnd(a: bv64, b: bv64, k: nat)
    ensures Bit(And(a, b), k) <==> Bit(a, k) && Bit(b, k)
    decreases k
  {
    hide And, Half, Odd;
    HalfAnd(a, b);
    if k > 0 { BitAnd(Half(a), Half(b), k - 1); }
  }

  lemma {:induction false} BitZero(k: nat)
    ensures !Bit(0, k)
  {
    hide Half, Odd;
    HalfConstants();
    if k > 0 { BitZero(k - 1); }
  }

  lemma {:induction false} ShlOneSingle(k: nat)
    ensures Single(Shl(1, k))
  {
    if k > 0 {
      hide Double, Single;
      ShlOneSingle(k - 1);
      DoubleSingle(Shl(1, k - 1));
    }
  }

  lemma ShlNext(w: bv64, k: nat)
    ensures Shl(w, k + 1) == Double(Shl(w, k))
  {
  }

  lemma ShlSeven(w: bv64, k: nat)
    ensures Shl(w, k + 7) == Double7(Shl(w, k))
  {
    hide Double, Double7, Shl;
    ShlNext(w, k); ShlNext(w, k + 1); ShlNext(w, k + 2); ShlNext(w, k + 3);
    ShlNext(w, k + 4); ShlNext(w, k + 5); ShlNext(w, k + 6);
    DoubleSeven(Shl(w, k));
  }

  lemma ShlNone(w: bv64)
    ensures Shl(w, 0) == w
  {
  }

  lemma ShlTop()
    ensures Shl(1, 63) == TOP
  {
    hide Shl, Double7;
    ShlNone(1);
    ShlSeven(1, 0); ShlSeven(1, 7); ShlSeven(1, 14);
    ShlSeven(1, 21); ShlSeven(1, 28); ShlSeven(1, 35);
    ShlSeven(1, 42); ShlSeven(1, 49); ShlSeven(1, 56);
    DoubleSixtyThree();
  }

  lemma {:induction false} ShlOneNonZero(k: nat)
    requires k < 64
    ensures Shl(1, k) != 0
    decreases 64 - k
  {
    hide Double, Single, Shl;
    if k < 63 {
      ShlOneNonZero(k + 1);
      ShlOneSingle(k);
      ShlNext(1, k);
      DoubleSingle(Shl(1, k));
    } else {
      ShlTop();
    }
  }

  /** `(1 << k) - 1` halves to `(1 << (k - 1)) - 1`. */
  lemma LowMaskStep(k: nat)
    requires 0 < k < 64
    ensures Half(LowMask(k)) == LowMask(k - 1) && Odd(LowMask(k))
  {
    hide Half, Odd, Double, Single, Pred, Shl;
    ShlOneNonZero(k);
    ShlOneSingle(k - 1);
    ShlNext(1, k - 1);
    DoubleSingle(Shl(1, k - 1));
  }

  lemma LowMaskEnds()
    ensures LowMask(0) == 0 && LowMask(63) == Not(TOP)
  {
    hide Shl, Pred, Not;
    ShlNone(1);
    ShlTop();
    HalfConstants();
  }

  /** The mask `(1 << k) - 1` selects exactly the positions below `k`. */
  lemma {:induction false} BitLowMask(k: nat, j: nat)
    requires k < 64
    ensures Bit(LowMask(k), j) <==> j < k
    decreases k
  {
    hide Half, Odd, LowMask;
    if k == 0 {
      LowMaskEnds();
      BitZero(j);
    } else {
      LowMaskStep(k);
      if j > 0 { BitLowMask(k - 1, j - 1); }
    }
  }

  /** Every position of the all-ones word is set. */
  lemma BitAllOnes(k: nat)
    requires k < 64
    ensures Bit(ALL_ONES, k)
  {
    hide Half, Odd, LowMask, Not;
    HalfConstants();
    LowMaskEnds();
    if k > 0 { BitLowMask(63, k - 1); }
  }

  lemma {:induction false} BitNot(w: bv64, k: nat)
    requires k < 64
    ensures Bit(Not(w), k) <==> !Bit(w, k)
    decreases k
  {
    hide Half, Odd, Not, And, LowMask;
    HalfNot(w);
    if k > 0 {
      BitNot(Half(w), k - 1);
      LowMaskEnds();
      BitLowMask(63, k - 1);
      BitAnd(Not(Half(w)), Not(TOP), k - 1);
    }
  }

  lemma {:induction false} BitShr(w: bv64, t: nat, j: nat)
    ensures Bit(Shr(w, t), j) <==> Bit(w, t + j)
    decreases t
  {
    hide Half, Odd;
    if t > 0 { BitShr(Half(w), t - 1, j); }
  }

  /** A word is zero exactly when no position is set. */
  lemma ZeroWord(w: bv64)
    ensures w == 0 ==> forall k :: 0 <= k < 64 ==> !Bit(w, k)
    ensures w != 0 ==> exists k :: 0 <= k < 64 && Bit(w, k)
  {
    hide Bit;
    if w == 0 {
      forall k | 0 <= k < 64 ensures !Bit(w, k) { BitZero(k); }
    } else {
      var k := SetPosition(w);
      assert Bit(w, k);
    }
  }

  lemma SetPosition(w: bv64) returns (k: nat)
    requires w != 0
    ensures k < 64 && Bit(w, k)
  {
    hide Half, Odd, Not, And, LowMask;
    if Odd(w) {
      k := 0;
    } else {
      LowMaskEnds();
      Masked(w, w);
      k := SetPositionBelow(Half(w), 63);
      k := k + 1;
    }
  }

  lemma {:induction false} SetPositionBelow(w: bv64, n: nat) returns (k: nat)
    requires n < 64 && w != 0 && And(w, Not(LowMask(n))) == 0
    ensures k < n && Bit(w, k)
    decreases n
  {
    hide Half, Odd, Not, And, LowMask;
    Masked(w, LowMask(n));
    if n == 0 {
      LowMaskEnds();
      assert false;
    } else if Odd(w) {
      k := 0;
    } else {
      LowMaskStep(n);
      k := SetPositionBelow(Half(w), n - 1);
      k := k + 1;
    }
  }
}
