/** Positions on the logical timeline and their physical slots. */
module Slots {

  /** `logical & mask`, the mask being a power of two less one (see MaskIsRemainder). */
  function Slot(p: nat, cap: nat): (s: nat)
    requires cap > 0
    ensures s < cap
  {
    p % cap
  }

  /** The slot `k` places after slot `s`, going around the ring. */
  function Wrap(s: nat, k: nat, cap: nat): (i: nat)
    requires s < cap && k <= cap
    ensures i < cap
  {
    if s + k < cap then s + k else s + k - cap
  }

  /** How far slot `i` lies after slot `head`, going around the ring. */
  function Ahead(head: nat, i: nat, cap: nat): (d: nat)
    requires head < cap && i < cap
    ensures d < cap
  {
    if i >= head then i - head else i + cap - head
  }

  lemma MulAtLeast(d: int, m: nat)
    requires d >= 1
    ensures d * m >= m
  {
  }

  lemma MulMinus(a: int, b: int, m: int)
    ensures (a - b) * m == a * m - b * m
  {
  }

  lemma RemainderUnique(x: nat, m: nat, q: int, r: nat)
    requires r < m && x == q * m + r
    ensures x % m == r && x / m == q
  {
    var q', r' := x / m, x % m;
    assert x == q' * m + r';
    if q' > q {
      MulAtLeast(q' - q, m);
      MulMinus(q', q, m);
    } else if q' < q {
      MulAtLeast(q - q', m);
      MulMinus(q, q', m);
    }
  }

  /** Slots of neighbouring positions go around the ring. */
  lemma SlotAdd(p: nat, k: nat, cap: nat)
    requires 0 < cap && k <= cap
    ensures Slot(p + k, cap) == Wrap(Slot(p, cap), k, cap)
  {
    var q, r := p / cap, p % cap;
    assert p == q * cap + r;
    if r + k < cap {
      RemainderUnique(p + k, cap, q, r + k);
    } else if r + k < 2 * cap {
      assert (q + 1) * cap == q * cap + cap;
      RemainderUnique(p + k, cap, q + 1, r + k - cap);
    }
  }

  /** The slot of a position is as far ahead of the slot of `base` as the position is past `base`,
      up to whole turns. */
  lemma SlotAhead(base: nat, k: nat, cap: nat)
    requires cap > 0
    ensures Ahead(Slot(base, cap), Slot(base + k, cap), cap) == Slot(k, cap)
  {
    var t := k % cap;
    assert k == k / cap * cap + t;
    SlotAdd(base, t, cap);
    SlotTurns(base + t, k / cap, cap);
    assert base + t + k / cap * cap == base + k;
  }

  lemma {:induction false} SlotTurns(p: nat, turns: nat, cap: nat)
    requires cap > 0
    ensures turns * cap >= 0
    ensures Slot(p + turns * cap, cap) == Slot(p, cap)
  {
    var q, r := p / cap, p % cap;
    assert p == q * cap + r;
    assert p + turns * cap == (q + turns) * cap + r;
    RemainderUnique(p + turns * cap, cap, q + turns, r);
  }

  predicate IsPowerOfTwo(n: nat) {
    n == 1 || (n > 1 && n % 2 == 0 && IsPowerOfTwo(n / 2))
  }

  /** `x & m`. */
  function BitwiseAnd(x: nat, m: nat): nat {
    if m == 0 then 0 else (x % 2) * (m % 2) + 2 * BitwiseAnd(x / 2, m / 2)
  }

  lemma RemainderOfDouble(x: nat, half: nat)
    requires half > 0
    ensures Slot(x, 2 * half) == 2 * Slot(x / 2, half) + x % 2
  {
    var q, r := x / 2 / half, x / 2 % half;
    assert x / 2 == q * half + r;
    assert q * (2 * half) == 2 * (q * half);
    RemainderUnique(x, 2 * half, q, 2 * r + x % 2);
  }

  /** Masking with a power of two less one takes the remainder. */
  lemma {:induction false} MaskIsRemainder(x: nat, cap: nat)
    requires IsPowerOfTwo(cap)
    ensures BitwiseAnd(x, cap - 1) == Slot(x, cap)
    decreases cap
  {
    if cap == 1 {
      RemainderUnique(x, 1, x, 0);
    } else {
      hide Slot;
      var half := cap / 2;
      MaskIsRemainder(x / 2, half);
      RemainderOfDouble(x, half);
      assert (cap - 1) / 2 == half - 1 && (cap - 1) % 2 == 1;
    }
  }

  lemma SlotIsRemainder(p: nat, cap: nat)
    requires cap > 0
    ensures Slot(p, cap) == p % cap
  {
  }

  lemma SlotSmall(k: nat, cap: nat)
    requires k < cap
    ensures Slot(k, cap) == k
  {
    RemainderUnique(k, cap, 0, k);
  }
}

/** The unbounded history behind the ring, what a reader at a position observes of it, and the
    run-length encoding in which it is handed out. */
module Timeline {
  import opened GapMarks

  /** One position of the timeline: a sample, or a hole left by advancing the timeline. */
  datatype Cell<T> = Sample(value: T) | Hole

  /** What a reader finds at a position: its cell, that it was overwritten, or that it was not
      written yet. */
  datatype View<T> = Held(cell: Cell<T>) | Lost | Late

  datatype Kind = DataKind | GapKind | OverflowKind | UnderflowKind

  datatype Segment<T> =
    | Data(samples: seq<T>)
    | Gap(n: nat)
    | Overflow(n: nat)
    | Underflow(n: nat)
  {
    function Len(): nat {
      match this
      case Data(s) => |s|
      case Gap(n) => n
      case Overflow(n) => n
      case Underflow(n) => n
    }

    function Kind(): Kind {
      match this
      case Data(_) => DataKind
      case Gap(_) => GapKind
      case Overflow(_) => OverflowKind
      case Underflow(_) => UnderflowKind
    }
  }

  function KindOf<T>(v: View<T>): Kind {
    match v
    case Held(Sample(_)) => DataKind
    case Held(Hole) => GapKind
    case Lost => OverflowKind
    case Late => UnderflowKind
  }

  function ValueOf<T>(v: View<T>): T
    requires KindOf(v) == DataKind
  {
    v.cell.value
  }

  function Samples<T>(s: seq<T>): seq<Cell<T>> {
    seq(|s|, i requires 0 <= i < |s| => Sample(s[i]))
  }

  function Holes<T>(hist: seq<Cell<T>>): (m: Marks)
    ensures |m| == |hist|
    ensures forall p :: 0 <= p < |hist| ==> m[p] == hist[p].Hole?
  {
    seq(|hist|, p requires 0 <= p < |hist| => hist[p].Hole?)
  }

  /** The first position still held by a ring of `cap` slots. */
  function Oldest(len: nat, cap: nat): nat {
    if len > cap then len - cap else 0
  }

  function ViewAt<T>(hist: seq<Cell<T>>, cap: nat, p: nat): View<T> {
    if p < Oldest(|hist|, cap) then Lost
    else if p < |hist| then Held(hist[p])
    else Late
  }

  /** The per-sample view of `n` positions. */
  function Window<T>(hist: seq<Cell<T>>, cap: nat, from: nat, n: nat): (w: seq<View<T>>)
    ensures |w| == n
    ensures forall i :: 0 <= i < n ==> w[i] == ViewAt(hist, cap, from + i)
  {
    seq(n, i requires 0 <= i < n => ViewAt(hist, cap, from + i))
  }

  /** How many positions a request covers: all of them, or none past the end of the timeline. */
  function Covered(len: nat, from: nat, requested: nat, emitUnderflow: bool): nat {
    if emitUnderflow || from + requested <= len then requested
    else if from < len then len - from
    else 0
  }

  // Run-length encoding.

  /** The length of the longest prefix of one kind. */
  function RunLength<T>(v: seq<View<T>>): (n: nat)
    requires |v| > 0
    ensures 0 < n <= |v|
    ensures forall i :: 0 <= i < n ==> KindOf(v[i]) == KindOf(v[0])
    ensures n < |v| ==> KindOf(v[n]) != KindOf(v[0])
  {
    if |v| == 1 || KindOf(v[1]) != KindOf(v[0]) then 1 else 1 + RunLength(v[1..])
  }

  /** The segment that stands for a non-empty stretch of one kind. */
  function SegmentOf<T>(v: seq<View<T>>): (s: Segment<T>)
    requires |v| > 0
    requires forall i :: 0 <= i < |v| ==> KindOf(v[i]) == KindOf(v[0])
    ensures s.Len() == |v| && s.Kind() == KindOf(v[0])
  {
    match KindOf(v[0])
    case DataKind => Data(seq(|v|, i requires 0 <= i < |v| => ValueOf(v[i])))
    case GapKind => Gap(|v|)
    case OverflowKind => Overflow(|v|)
    case UnderflowKind => Underflow(|v|)
  }

  /** A segment, sample by sample. */
  function Expand<T>(s: Segment<T>): (v: seq<View<T>>)
    ensures |v| == s.Len()
  {
    match s
    case Data(samples) => seq(|samples|, i requires 0 <= i < |samples| => Held(Sample(samples[i])))
    case Gap(n) => seq(n, _ => Held(Hole))
    case Overflow(n) => seq(n, _ => Lost)
    case Underflow(n) => seq(n, _ => Late)
  }

  function ExpandAll<T>(segs: seq<Segment<T>>): seq<View<T>> {
    if segs == [] then [] else Expand(segs[0]) + ExpandAll(segs[1..])
  }

  function FirstSegment<T>(v: seq<View<T>>): Segment<T>
    requires |v| > 0
  {
    SegmentOf(v[..RunLength(v)])
  }

  function Runs<T>(v: seq<View<T>>): seq<Segment<T>> {
    if v == [] then [] else [FirstSegment(v)] + Runs(v[RunLength(v)..])
  }

  /** No empty segment, and no two neighbours of one kind. */
  predicate Canonical<T>(segs: seq<Segment<T>>) {
    && (forall i :: 0 <= i < |segs| ==> segs[i].Len() > 0)
    && (forall i :: 0 < i < |segs| ==> segs[i].Kind() != segs[i - 1].Kind())
  }

  lemma ExpandSegmentOf<T>(v: seq<View<T>>)
    requires |v| > 0
    requires forall i :: 0 <= i < |v| ==> KindOf(v[i]) == KindOf(v[0])
    ensures Expand(SegmentOf(v)) == v
  {
    var e := Expand(SegmentOf(v));
    forall i | 0 <= i < |v| ensures e[i] == v[i] {
      assert KindOf(v[i]) == KindOf(v[0]);
    }
  }

  lemma ExpandFirst<T>(v: seq<View<T>>)
    requires |v| > 0
    ensures Expand(FirstSegment(v)) == v[..RunLength(v)]
  {
    hide Expand, SegmentOf, KindOf;
    ExpandSegmentOf(v[..RunLength(v)]);
  }

  lemma ExpandAllCons<T>(s: Segment<T>, rest: seq<Segment<T>>)
    ensures ExpandAll([s] + rest) == Expand(s) + ExpandAll(rest)
  {
    assert ([s] + rest)[1..] == rest;
  }

  lemma ExpandAllSplit<T>(a: seq<Segment<T>>, b: seq<Segment<T>>)
    ensures ExpandAll(a + b) == ExpandAll(a) + ExpandAll(b)
    decreases |a|
  {
    hide Expand;
    if a == [] {
      assert a + b == b;
    } else {
      assert (a + b)[1..] == a[1..] + b;
      ExpandAllSplit(a[1..], b);
    }
  }

  /** The encoding loses nothing. */
  lemma {:induction false} RunsExpand<T>(v: seq<View<T>>)
    ensures ExpandAll(Runs(v)) == v
  {
    hide Expand, FirstSegment, KindOf, ExpandAll;
    if v == [] {
      ExpandNothing<T>();
    } else {
      var n := RunLength(v);
      RunsExpand(v[n..]);
      ExpandFirst(v);
      ExpandAllCons(FirstSegment(v), Runs(v[n..]));
      assert v == v[..n] + v[n..];
    }
  }

  lemma ExpandNothing<T>()
    ensures ExpandAll<T>([]) == []
  {
  }

  lemma CanonicalCons<T>(s: Segment<T>, rest: seq<Segment<T>>)
    requires s.Len() > 0 && Canonical(rest)
    requires rest != [] ==> rest[0].Kind() != s.Kind()
    ensures Canonical([s] + rest)
  {
    var all := [s] + rest;
    forall i | 0 <= i < |all| ensures all[i].Len() > 0 {
      assert i > 0 ==> all[i] == rest[i - 1];
    }
    forall i | 0 < i < |all| ensures all[i].Kind() != all[i - 1].Kind() {
      assert all[i] == rest[i - 1];
      assert i > 1 ==> all[i - 1] == rest[i - 2];
    }
  }

  /** Segments are non-empty and neighbours differ in kind. */
  lemma {:induction false} RunsCanonical<T>(v: seq<View<T>>)
    ensures Canonical(Runs(v))
    ensures v != [] ==> Runs(v) != [] && Runs(v)[0].Kind() == KindOf(v[0])
  {
    if v != [] {
      var n := RunLength(v);
      RunsCanonical(v[n..]);
      assert n < |v| ==> v[n..][0] == v[n];
      CanonicalCons(FirstSegment(v), Runs(v[n..]));
    }
  }

  /** The encoding is the only canonical one: what is handed out is determined by what it means. */
  lemma {:induction false} RunsUnique<T>(segs: seq<Segment<T>>)
    requires Canonical(segs)
    ensures Runs(ExpandAll(segs)) == segs
    ensures segs != [] ==> ExpandAll(segs) != [] && KindOf(ExpandAll(segs)[0]) == segs[0].Kind()
  {
    if segs != [] {
      assert Canonical(segs[1..]) by {
        forall i | 0 < i < |segs[1..]| ensures segs[1..][i].Kind() != segs[1..][i - 1].Kind() {
          assert segs[i + 1].Kind() != segs[i].Kind();
        }
      }
      RunsUnique(segs[1..]);
      ExpandKind(segs[0]);
      assert segs[1..] != [] ==> segs[1].Kind() != segs[0].Kind();
      RunsCons(segs[0], ExpandAll(segs[1..]));
      assert segs == [segs[0]] + segs[1..];
    }
  }

  lemma RunsCons<T>(s: Segment<T>, rest: seq<View<T>>)
    requires s.Len() > 0
    requires rest != [] ==> KindOf(rest[0]) != s.Kind()
    ensures Runs(Expand(s) + rest) == [s] + Runs(rest)
  {
    var v := Expand(s) + rest;
    var n := s.Len();
    ExpandKind(s);
    assert v[..n] == Expand(s) && v[n..] == rest;
    assert v[0] == Expand(s)[0];
    assert RunLength(v) == n;
    SegmentOfExpand(s);
  }

  lemma ExpandKind<T>(s: Segment<T>)
    ensures forall i :: 0 <= i < s.Len() ==> KindOf(Expand(s)[i]) == s.Kind()
  {
  }

  lemma SegmentOfExpand<T>(s: Segment<T>)
    requires s.Len() > 0
    ensures forall i :: 0 <= i < s.Len() ==> KindOf(Expand(s)[i]) == KindOf(Expand(s)[0])
    ensures SegmentOf(Expand(s)) == s
  {
    ExpandKind(s);
    var r := SegmentOf(Expand(s));
    if s.Data? {
      forall i | 0 <= i < s.Len() ensures r.samples[i] == s.samples[i] {
        assert Expand(s)[i] == Held(Sample(s.samples[i]));
      }
      assert r.samples == s.samples;
    }
  }
}
