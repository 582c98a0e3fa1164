/** How `spsc` chooses its capacity so that the ring's bytes fill whole pages. */
module Capacity {
  import opened Options
  import opened Naturals
  import opened Slots

  ghost predicate Divides(d: nat, n: nat) {
    exists k: nat :: Multiple(d, k, n)
  }

  ghost predicate Multiple(d: nat, k: nat, n: nat) {
    d * k == n
  }

  /** The least power of two that is not smaller. */
  function NextPowerOfTwo(n: nat): (r: nat)
    ensures IsPowerOfTwo(r) && n <= r
  {
    if n <= 1 then 1 else 2 * NextPowerOfTwo((n + 1) / 2)
  }

  lemma {:induction false} NextPowerLeast(n: nat, q: nat)
    requires IsPowerOfTwo(q) && n <= q
    ensures NextPowerOfTwo(n) <= q
    decreases n
  {
    if n > 1 {
      NextPowerLeast((n + 1) / 2, q / 2);
    }
  }

  /** The capacity of a ring of any size is the least power of two that is large enough; so is the
      one chosen up front when the page size is not known or the elements have no size. */
  lemma CapacityLeast(size: nat, elemSize: nat, pageSize: Option<nat>, q: nat)
    requires IsPowerOfTwo(q) && size <= q
    ensures UnsplitCapacity(size) <= q
    ensures elemSize == 0 || pageSize in {None, Some(0)} ==>
              var c := SpscCapacity(size, elemSize, pageSize);
              IsPowerOfTwo(c) && size <= c <= q
  {
    NextPowerLeast(size, q);
    NextPowerLeast(Max(size, 1), q);
  }

  function Gcd(a: nat, b: nat): (g: nat)
    requires a > 0 || b > 0
    ensures g > 0
    decreases b
  {
    if b == 0 then a else Gcd(b, a % b)
  }

  /** Euclid's loop. */
  method GcdUsize(a0: nat, b0: nat) returns (a: nat)
    requires a0 > 0 || b0 > 0
    ensures a == Gcd(a0, b0)
  {
    var b: nat := b0;
    a := a0;
    while b != 0
      invariant a > 0 || b > 0
      invariant Gcd(a, b) == Gcd(a0, b0)
      decreases b
    {
      var r: nat := a % b;
      a := b;
      b := r;
    }
  }

  /** The capacity whose bytes fill whole pages; none without a page size or for elements of no size. */
  function MmapAlignedCapacity(capacity: nat, elemSize: nat, pageSize: Option<nat>): Option<nat> {
    if capacity == 0 || elemSize == 0 then None
    else match pageSize
      case None => None
      case Some(page) =>
        if page == 0 then None
        else
          var elemsPerPage := page / Gcd(elemSize, page);
          Some(Max(capacity, elemsPerPage))
  }

  function SpscCapacity(size: nat, elemSize: nat, pageSize: Option<nat>): nat {
    var s := NextPowerOfTwo(Max(size, 1));
    match MmapAlignedCapacity(s, elemSize, pageSize)
    case Some(aligned) => aligned
    case None => s
  }

  /** The capacity that `new_unsplit` gives a ring. */
  function UnsplitCapacity(size: nat): (c: nat)
    ensures 0 < c && IsPowerOfTwo(c) && size <= c
  {
    Max(NextPowerOfTwo(size), 1)
  }

  // Divisibility.

  lemma {:induction false} GcdDivides(a: nat, b: nat)
    requires a > 0 || b > 0
    ensures Divides(Gcd(a, b), a) && Divides(Gcd(a, b), b)
    decreases b
  {
    var g := Gcd(a, b);
    if b == 0 {
      assert Multiple(a, 1, a) && Multiple(a, 0, b);
    } else {
      GcdDivides(b, a % b);
      var k: nat :| Multiple(g, k, b);
      var l: nat :| Multiple(g, l, a % b);
      Recombine(a, b, g, k, l);
      assert Multiple(g, k * (a / b) + l, a);
    }
  }

  lemma Recombine(a: nat, b: nat, g: nat, k: nat, l: nat)
    requires b > 0 && g * k == b && g * l == a % b
    ensures g * (k * (a / b) + l) == a
  {
    var q := a / b;
    assert g * (k * q) == (g * k) * q;
    assert g * (k * q + l) == g * (k * q) + g * l;
  }

  /** Every common divisor is at most the greatest one. */
  lemma {:induction false} GcdGreatest(a: nat, b: nat, d: nat)
    requires a > 0 || b > 0
    requires d > 0 && Divides(d, a) && Divides(d, b)
    ensures d <= Gcd(a, b)
    decreases b
  {
    var k: nat :| Multiple(d, k, a);
    var l: nat :| Multiple(d, l, b);
    if b == 0 {
      if k == 0 {
        assert false;
      }
      MulAtLeast(k, d);
    } else {
      var q := a / b;
      assert a == b * q + a % b;
      assert d * (k - l * q) == d * k - (d * l) * q;
      assert d * (k - l * q) == a % b;
      if k < l * q {
        MulAtLeast(l * q - k, d);
        assert false;
      }
      assert Multiple(d, k - l * q, a % b);
      GcdGreatest(b, a % b, d);
    }
  }

  lemma OddHalf(d: nat, k: nat)
    requires d % 2 == 1
    ensures (d * k) % 2 == k % 2
  {
    assert d * k == 2 * ((d / 2) * k) + k;
  }

  lemma OddTimes(d: nat, k: nat)
    requires d % 2 == 1 && (d * k) % 2 == 0
    ensures k % 2 == 0 && d * (k / 2) == d * k / 2
  {
    OddHalf(d, k);
    assert d * k == d * (2 * (k / 2));
  }

  lemma EvenTimes(d: nat, k: nat)
    requires d % 2 == 0
    ensures (d * k) % 2 == 0 && d / 2 * k == d * k / 2
  {
    assert d * k == 2 * (d / 2 * k);
  }

  /** A divisor of a power of two is a power of two. */
  lemma {:induction false} PowerDivisor(d: nat, k: nat)
    requires IsPowerOfTwo(d * k)
    ensures IsPowerOfTwo(d)
    decreases d * k
  {
    if d == 0 {
      assert false;
    } else if d > 1 {
      if d * k == 1 {
        assert k > 0;
        MulAtLeast(k, d);
        assert false;
      } else if d % 2 == 0 {
        EvenTimes(d, k);
        PowerDivisor(d / 2, k);
      } else {
        OddTimes(d, k);
        PowerDivisor(d, k / 2);
      }
    }
  }

  /** Of two powers of two the smaller divides the greater. */
  lemma {:induction false} PowersDivide(a: nat, b: nat)
    requires IsPowerOfTwo(a) && IsPowerOfTwo(b) && a <= b
    ensures Divides(a, b)
    decreases a
  {
    if a == 1 {
      assert Multiple(1, b, b);
    } else {
      PowersDivide(a / 2, b / 2);
      var k: nat :| Multiple(a / 2, k, b / 2);
      assert a * k == 2 * (a / 2 * k);
      assert Multiple(a, k, b);
    }
  }

  /** A power of two that divides a product with an odd factor divides the other factor. */
  lemma {:induction false} PowerAndOdd(p: nat, q: nat, e: nat)
    requires IsPowerOfTwo(p) && e % 2 == 1 && Divides(p, q * e)
    ensures Divides(p, q)
    decreases p
  {
    if p == 1 {
      assert Multiple(1, q, q);
    } else {
      var k: nat :| Multiple(p, k, q * e);
      EvenTimes(p, k);
      assert q * e == e * q;
      OddTimes(e, q);
      assert q / 2 * e == e * (q / 2);
      assert Multiple(p / 2, k, q / 2 * e);
      PowerAndOdd(p / 2, q / 2, e);
      var l: nat :| Multiple(p / 2, l, q / 2);
      assert p * l == 2 * (p / 2 * l);
      assert Multiple(p, l, q);
    }
  }

  lemma DividesAtMost(d: nat, n: nat)
    requires n > 0 && Divides(d, n)
    ensures d <= n
  {
    var k: nat :| Multiple(d, k, n);
    if k == 0 {
      assert false;
    }
    MulAtLeast(k, d);
  }

  lemma RemainderZero(d: nat, n: nat)
    requires d > 0
    ensures n % d == 0 <==> Divides(d, n)
  {
    if n % d == 0 {
      assert Multiple(d, n / d, n);
    } else if Divides(d, n) {
      var k: nat :| Multiple(d, k, n);
      RemainderUnique(n, d, k, 0);
    }
  }

  /** How element size and page size share their factors: some power of two of elements fills whole
      pages, and a power of two of elements does so exactly when it is a multiple of that one. */
  lemma ElementsPerPage(elemSize: nat, page: nat)
    requires elemSize > 0 && IsPowerOfTwo(page)
    ensures var p := page / Gcd(elemSize, page);
            && IsPowerOfTwo(p)
            && forall q: nat :: (q * elemSize) % page == 0 <==> Divides(p, q)
  {
    var g := Gcd(elemSize, page);
    GcdDivides(elemSize, page);
    var e: nat :| Multiple(g, e, elemSize);
    var p: nat :| Multiple(g, p, page);
    assert p * g == g * p;
    RemainderUnique(page, g, p, 0);
    PowerDivisor(p, g);
    if p > 1 { NotBothEven(elemSize, page, g, e, p); }
    forall q: nat ensures (q * elemSize) % page == 0 <==> Divides(p, q) {
      FillsPages(q, elemSize, page, g, e, p);
    }
  }

  lemma NotBothEven(a: nat, b: nat, g: nat, e: nat, p: nat)
    requires a > 0 && b > 0 && g == Gcd(a, b)
    requires Multiple(g, e, a) && Multiple(g, p, b)
    requires IsPowerOfTwo(p) && p > 1
    ensures e % 2 == 1
  {
    if e % 2 == 0 {
      HalveFactor(g, e);
      HalveFactor(g, p);
      assert Multiple(2 * g, e / 2, a) && Multiple(2 * g, p / 2, b);
      GcdGreatest(a, b, 2 * g);
    }
  }

  lemma HalveFactor(g: nat, e: nat)
    requires e % 2 == 0
    ensures (2 * g) * (e / 2) == g * e
  {
    assert g * (2 * (e / 2)) == (2 * g) * (e / 2);
  }

  lemma Regroup(g: nat, p: nat, k: nat, e: nat)
    ensures (g * p) * (k * e) == (p * k) * (g * e)
    ensures (g * p) * (k * 1) == g * (p * k)
  {
    assert (g * p) * (k * e) == g * (p * (k * e));
    assert p * (k * e) == (p * k) * e;
    assert g * ((p * k) * e) == (p * k) * (g * e);
    assert (g * p) * k == g * (p * k);
  }

  lemma FillsPages(q: nat, elemSize: nat, page: nat, g: nat, e: nat, p: nat)
    requires g > 0 && page > 0 && g * e == elemSize && g * p == page
    requires IsPowerOfTwo(p) && (p > 1 ==> e % 2 == 1)
    ensures (q * elemSize) % page == 0 <==> Divides(p, q)
  {
    RemainderZero(page, q * elemSize);
    if Divides(p, q) {
      var k: nat :| Multiple(p, k, q);
      Regroup(g, p, k, e);
      assert Multiple(page, k * e, q * elemSize);
    }
    if Divides(page, q * elemSize) {
      if p == 1 {
        assert Multiple(1, q, q);
      } else {
        var k: nat :| Multiple(page, k, q * elemSize);
        Regroup(g, p, k, 1);
        Regroup(g, e, q, 1);
        CancelFactor(g, p * k, q * e);
        assert Multiple(p, k, q * e);
        PowerAndOdd(p, q, e);
      }
    }
  }

  lemma CancelFactor(g: nat, a: nat, b: nat)
    requires g > 0 && g * a == g * b
    ensures a == b
  {
    assert g * (a - b) == g * a - g * b;
    if a > b { MulAtLeast(a - b, g); }
    if b > a { MulAtLeast(b - a, g); }
  }

  /** The capacity is the least power of two that is large enough and fills whole pages; making the
      ring does not change it, and the check that the mapping covers whole pages passes. */
  lemma SpscFillsPages(size: nat, elemSize: nat, page: nat)
    requires elemSize > 0 && IsPowerOfTwo(page)
    ensures var c := SpscCapacity(size, elemSize, Some(page));
            && IsPowerOfTwo(c) && size <= c && (c * elemSize) % page == 0
            && UnsplitCapacity(c) == c
            && forall q: nat :: IsPowerOfTwo(q) && size <= q && (q * elemSize) % page == 0 ==> c <= q
  {
    var s := NextPowerOfTwo(Max(size, 1));
    var p := page / Gcd(elemSize, page);
    var c := SpscCapacity(size, elemSize, Some(page));
    ElementsPerPage(elemSize, page);
    assert c == if s >= p then s else p;
    PowersDivide(p, c);
    NextPowerLeast(c, c);
    forall q: nat | IsPowerOfTwo(q) && size <= q && (q * elemSize) % page == 0 ensures c <= q {
      DividesAtMost(p, q);
      NextPowerLeast(if size >= 1 then size else 1, q);
    }
  }
}
