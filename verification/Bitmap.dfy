/** The gap bitmap: one bit per physical slot of the ring, packed in 64-bit words, with a
    cached `empty` flag. Its meaning is a sequence of booleans, one per slot. */
module GapMarks {
  import opened Options

  type Marks = seq<bool>

  /** `s` with the positions `[start, start + len)` set to `v` and no other changed. */
  function Filled(s: Marks, start: nat, len: nat, v: bool): Marks {
    seq(|s|, i requires 0 <= i < |s| => if start <= i < start + len then v else s[i])
  }

  lemma FilledNothing(s: Marks, start: nat, v: bool)
    ensures Filled(s, start, 0, v) == s
  {
  }

  lemma FilledAgain(s: Marks, start: nat, len: nat)
    requires true !in s
    ensures Filled(s, start, len, false) == s
  {
  }

  /** The leftmost marked position of `[from, to)`, `to` if there is none. */
  function FirstMarked(s: Marks, from: nat, to: nat): (p: nat)
    requires from <= to <= |s|
    ensures from <= p <= to
    ensures forall i :: from <= i < p ==> !s[i]
    ensures p < to ==> s[p]
    decreases (to - from) as int
  {
    if from == to || s[from] then from else FirstMarked(s, from + 1, to)
  }

  /** The end of the run of marked positions that starts at `from`, clipped to `to`. */
  function RunEnd(s: Marks, from: nat, to: nat): (p: nat)
    requires from <= to <= |s|
    ensures from <= p <= to
    ensures forall i :: from <= i < p ==> s[i]
    ensures p < to ==> !s[p]
    decreases (to - from) as int
  {
    if from == to || !s[from] then from else RunEnd(s, from + 1, to)
  }

  /** What a search of `[start, start + len)` answers: the leftmost gap and its length. */
  function NextGap(s: Marks, start: nat, len: nat): Option<(nat, nat)>
    requires start + len <= |s|
  {
    var p := FirstMarked(s, start, start + len);
    if p == start + len then None else Some((p, RunEnd(s, p, start + len) - p))
  }

  lemma NoGap(s: Marks, start: nat, len: nat)
    requires start + len <= |s|
    requires forall i :: start <= i < start + len ==> !s[i]
    ensures NextGap(s, start, len) == None
  {
  }

  /** The answer is determined by its meaning. */
  lemma NextGapUnique(s: Marks, start: nat, len: nat, p: nat, n: nat)
    requires start <= p && 0 < n && p + n <= start + len <= |s|
    requires forall i :: start <= i < p ==> !s[i]
    requires forall i :: p <= i < p + n ==> s[i]
    requires p + n < start + len ==> !s[p + n]
    ensures NextGap(s, start, len) == Some((p, n))
  {
    assert s[p];
    var q := FirstMarked(s, start, start + len);
    assert q == p;
    var e := RunEnd(s, p, start + len);
    assert e == p + n;
  }
}

module BitmapModel {
  import opened Options
  import opened Naturals
  import opened Words64
  import opened GapMarks

  /** The mask of the word that holds `start`, for the region `[start, end)`. */
  function FirstMask(start: nat, end: nat): bv64
    requires start < end
  {
    var startBit := start % 64;
    if start / 64 == (end - 1) / 64 then
      var endBit := end % 64;
      if endBit == 0 then Not(LowMask(startBit))
      else And(LowMask(endBit), Not(LowMask(startBit)))
    else
      Not(LowMask(startBit))
  }

  /** The mask of the word that holds `end - 1`. */
  function LastMask(end: nat): bv64 {
    var endBit := end % 64;
    if endBit == 0 then ALL_ONES else LowMask(endBit)
  }

  /** Word `b` is word `a` with the positions of `[start, end)` set to `v`; `base` is the
      position of bit 0. */
  ghost predicate Patched(a: bv64, b: bv64, base: nat, start: nat, end: nat, v: bool) {
    forall j :: 0 <= j < 64 ==> (Bit(b, j) <==> if start <= base + j < end then v else Bit(a, j))
  }

  lemma FirstMaskBit(start: nat, end: nat, j: nat)
    requires start < end && j < 64
    ensures Bit(FirstMask(start, end), j) <==> start <= start / 64 * 64 + j < end
  {
    hide Bit, LowMask, Not, And;
    BitLowMask(start % 64, j);
    BitLowMask(end % 64, j);
    BitNot(LowMask(start % 64), j);
    BitAnd(LowMask(end % 64), Not(LowMask(start % 64)), j);
  }

  lemma LastMaskBit(end: nat, j: nat)
    requires 0 < end && j < 64
    ensures Bit(LastMask(end), j) <==> (end - 1) / 64 * 64 + j < end
  {
    hide Bit, LowMask;
    BitLowMask(end % 64, j);
    BitAllOnes(j);
  }

  lemma MaskPatches(a: bv64, mask: bv64, base: nat, start: nat, end: nat)
    requires forall j :: 0 <= j < 64 ==> (Bit(mask, j) <==> start <= base + j < end)
    ensures Patched(a, Or(a, mask), base, start, end, true)
    ensures Patched(a, And(a, Not(mask)), base, start, end, false)
  {
    hide Bit, Or, And, Not;
    forall j | 0 <= j < 64
      ensures Bit(Or(a, mask), j) <==> if start <= base + j < end then true else Bit(a, j)
      ensures Bit(And(a, Not(mask)), j) <==> if start <= base + j < end then false else Bit(a, j)
    {
      BitOr(a, mask, j);
      BitNot(mask, j);
      BitAnd(a, Not(mask), j);
    }
  }

  lemma FirstWord(a: bv64, start: nat, end: nat)
    requires start < end
    ensures Patched(a, Or(a, FirstMask(start, end)), start / 64 * 64, start, end, true)
    ensures Patched(a, And(a, Not(FirstMask(start, end))), start / 64 * 64, start, end, false)
  {
    hide Bit, Or, And, Not, FirstMask, Patched;
    forall j | 0 <= j < 64
      ensures Bit(FirstMask(start, end), j) <==> start <= start / 64 * 64 + j < end
    {
      FirstMaskBit(start, end, j);
    }
    MaskPatches(a, FirstMask(start, end), start / 64 * 64, start, end);
  }

  lemma LastWord(a: bv64, start: nat, end: nat)
    requires start < end && start / 64 < (end - 1) / 64
    ensures Patched(a, Or(a, LastMask(end)), (end - 1) / 64 * 64, start, end, true)
    ensures Patched(a, And(a, Not(LastMask(end))), (end - 1) / 64 * 64, start, end, false)
  {
    hide Bit, Or, And, Not, LastMask, Patched;
    var base := (end - 1) / 64 * 64;
    forall j | 0 <= j < 64
      ensures Bit(LastMask(end), j) <==> start <= base + j < end
    {
      LastMaskBit(end, j);
    }
    MaskPatches(a, LastMask(end), base, start, end);
  }

  lemma WholeWord(a: bv64, base: nat, start: nat, end: nat)
    requires start <= base && base + 64 <= end
    ensures Patched(a, ALL_ONES, base, start, end, true)
    ensures Patched(a, 0, base, start, end, false)
  {
    hide Bit;
    forall j | 0 <= j < 64
      ensures Bit(ALL_ONES, j) && !Bit(0, j)
    {
      BitAllOnes(j);
      BitZero(j);
    }
  }

  lemma OtherWord(a: bv64, base: nat, start: nat, end: nat, v: bool)
    requires base + 64 <= start || end <= base
    ensures Patched(a, a, base, start, end, v)
  {
  }

  /** Position `i` of a packed bitmap. */
  predicate At(words: seq<bv64>, i: nat)
    requires i < 64 * |words|
  {
    Bit(words[i / 64], i % 64)
  }

  ghost function Unpacked(words: seq<bv64>, capacity: nat): (s: Marks)
    requires capacity <= 64 * |words|
    ensures |s| == capacity
    ensures forall i :: 0 <= i < capacity ==> (s[i] <==> At(words, i))
  {
    seq(capacity, i requires 0 <= i < capacity => At(words, i))
  }

  /** The representation invariant: no bit past the capacity, `empty` iff every word is zero. */
  ghost predicate Packed(words: seq<bv64>, capacity: nat, empty: bool) {
    && |words| == (capacity + 63) / 64
    && (forall i :: capacity <= i < 64 * |words| ==> !At(words, i))
    && (empty <==> forall w :: 0 <= w < |words| ==> words[w] == 0)
  }

  lemma PackedSize(words: seq<bv64>, capacity: nat, empty: bool)
    requires Packed(words, capacity, empty)
    ensures capacity <= 64 * |words|
  {
  }

  /** Patching every word fills exactly the region. */
  lemma PatchesFill(before: seq<bv64>, after: seq<bv64>, capacity: nat, start: nat, end: nat, v: bool)
    requires |before| == |after| == (capacity + 63) / 64
    requires start <= end <= capacity
    requires forall w :: 0 <= w < |after| ==> Patched(before[w], after[w], 64 * w, start, end, v)
    requires forall i :: capacity <= i < 64 * |before| ==> !At(before, i)
    ensures Unpacked(after, capacity) == Filled(Unpacked(before, capacity), start, end - start, v)
    ensures forall i :: capacity <= i < 64 * |after| ==> !At(after, i)
  {
    hide Bit;
    forall i | 0 <= i < 64 * |after|
      ensures At(after, i) <==> if start <= i < end then v else At(before, i)
    {
      assert Patched(before[i / 64], after[i / 64], 64 * (i / 64), start, end, v);
    }
  }

  /** The cached flag says what it should: `empty` exactly when no slot is marked. */
  lemma EmptyMeansNoMark(words: seq<bv64>, capacity: nat, empty: bool)
    requires Packed(words, capacity, empty)
    ensures empty <==> true !in Unpacked(words, capacity)
  {
    hide Bit;
    var s := Unpacked(words, capacity);
    if empty {
      forall i | 0 <= i < capacity ensures !s[i] {
        ZeroWord(words[i / 64]);
      }
    } else {
      var w :| 0 <= w < |words| && words[w] != 0;
      var k := SetPosition(words[w]);
      var i := 64 * w + k;
      assert i / 64 == w && i % 64 == k;
      assert At(words, i);
      assert s[i];
    }
  }

  /** Word `wi` with the positions outside `[start, end)` cleared. */
  function MaskedWord(words: seq<bv64>, start: nat, end: nat, wi: nat): bv64
    requires start < end && wi < |words|
  {
    var lo := start % 64;
    var w := if wi == start / 64 && lo != 0 then And(words[wi], Not(LowMask(lo))) else words[wi];
    var hi := end % 64;
    if wi == (end - 1) / 64 && hi != 0 then And(w, LowMask(hi)) else w
  }

  lemma MaskedWordBit(words: seq<bv64>, start: nat, end: nat, wi: nat, j: nat)
    requires start < end <= 64 * |words| && start / 64 <= wi <= (end - 1) / 64 && j < 64
    ensures Bit(MaskedWord(words, start, end, wi), j) <==> start <= 64 * wi + j < end && At(words, 64 * wi + j)
  {
    hide Bit, LowMask, And, Not;
    var lo, hi := start % 64, end % 64;
    assert (64 * wi + j) / 64 == wi && (64 * wi + j) % 64 == j;
    BitLowMask(lo, j);
    BitNot(LowMask(lo), j);
    BitAnd(words[wi], Not(LowMask(lo)), j);
    BitLowMask(hi, j);
    BitAnd(words[wi], LowMask(hi), j);
    BitAnd(And(words[wi], Not(LowMask(lo))), LowMask(hi), j);
  }

  /** A masked word that is zero holds no marked position of the range. */
  lemma MaskedWordZero(words: seq<bv64>, start: nat, end: nat, wi: nat)
    requires start < end <= 64 * |words| && start / 64 <= wi <= (end - 1) / 64
    requires MaskedWord(words, start, end, wi) == 0
    ensures forall i :: 64 * wi <= i < 64 * wi + 64 && start <= i < end ==> !At(words, i)
  {
    hide Bit, MaskedWord, At;
    var w := MaskedWord(words, start, end, wi);
    ZeroWord(w);
    forall i | 64 * wi <= i < 64 * wi + 64 && start <= i < end
      ensures !At(words, i)
    {
      MaskedWordBit(words, start, end, wi, i - 64 * wi);
    }
  }

  /** The run of set positions that starts at `tz` inside one masked word, as the search counts it. */
  lemma MaskedWordRun(words: seq<bv64>, start: nat, end: nat, wi: nat, tz: nat)
    requires start < end <= 64 * |words| && start / 64 <= wi <= (end - 1) / 64 && tz < 64
    requires start <= 64 * wi + tz < end
    ensures var ones := TrailingZeros(Not(Shr(MaskedWord(words, start, end, wi), tz)));
            && (forall i :: 64 * wi + tz <= i < 64 * wi + tz + ones && i < 64 * wi + 64 && i < end ==> At(words, i))
            && (tz + ones < 64 && 64 * wi + tz + ones < end ==> !At(words, 64 * wi + tz + ones))
  {
    hide Bit, MaskedWord, At, Not, Shr;
    var w := MaskedWord(words, start, end, wi);
    var ones := TrailingZeros(Not(Shr(w, tz)));
    forall i | 64 * wi + tz <= i <= 64 * wi + tz + ones && i < 64 * wi + 64 && i < end
      ensures At(words, i) <==> i < 64 * wi + tz + ones
    {
      var j := i - 64 * wi - tz;
      BitNot(Shr(w, tz), j);
      BitShr(w, tz, j);
      MaskedWordBit(words, start, end, wi, tz + j);
    }
  }

  /** The lowest set position of a non-zero masked word is the first marked one it holds. */
  lemma FirstOfWord(words: seq<bv64>, start: nat, end: nat, wi: nat)
    requires start < end <= 64 * |words| && start / 64 <= wi <= (end - 1) / 64
    requires MaskedWord(words, start, end, wi) != 0
    ensures var tz := TrailingZeros(MaskedWord(words, start, end, wi));
            && tz < 64
            && start <= 64 * wi + tz < end
            && At(words, 64 * wi + tz)
            && (forall i :: 64 * wi <= i < 64 * wi + tz && start <= i ==> !At(words, i))
  {
    hide Bit, MaskedWord, At;
    var w := MaskedWord(words, start, end, wi);
    var k := SetPosition(w);
    var tz := TrailingZeros(w);
    assert tz <= k;
    MaskedWordBit(words, start, end, wi, tz);
    forall i | 64 * wi <= i < 64 * wi + tz && start <= i
      ensures !At(words, i)
    {
      MaskedWordBit(words, start, end, wi, i - 64 * wi);
    }
  }

  /** Complementing and counting trailing zeros counts the ones at the bottom of a word. */
  lemma FullOrNot(w: bv64)
    ensures Shr(w, 0) == w
    ensures w == ALL_ONES ==> TrailingZeros(Not(w)) == 64
    ensures w != ALL_ONES ==> TrailingZeros(Not(w)) < 64
  {
    hide Bit, Not;
    Masked(w, w);
    if w == ALL_ONES {
      ZeroWord(Not(w));
    } else {
      var k := SetPosition(Not(w));
    }
  }

  /** What the search finds inside the first non-zero word. */
  lemma RunInWord(words: seq<bv64>, start: nat, end: nat, wi: nat)
    requires start < end <= 64 * |words| && start / 64 <= wi <= (end - 1) / 64
    requires MaskedWord(words, start, end, wi) != 0
    ensures var w := MaskedWord(words, start, end, wi);
            var tz := TrailingZeros(w);
            var gap := wi * 64 + tz;
            && tz < 64 && start <= gap < end
            && var run := Min(Min(TrailingZeros(Not(Shr(w, tz))), 64 - tz), end - gap);
            && 0 < run
            && (forall i :: 64 * wi <= i < gap && start <= i ==> !At(words, i))
            && (forall i :: gap <= i < gap + run ==> At(words, i))
            && (run < 64 - tz && gap + run < end ==> !At(words, gap + run))
  {
    hide Bit, MaskedWord, At, Not, Shr;
    FirstOfWord(words, start, end, wi);
    MaskedWordRun(words, start, end, wi, TrailingZeros(MaskedWord(words, start, end, wi)));
  }

  /** The search's findings in terms of words are the answer on the unpacked marks. */
  lemma FoundGap(words: seq<bv64>, capacity: nat, start: nat, len: nat, gap: nat, run: nat)
    requires start + len <= capacity <= 64 * |words|
    requires start <= gap && 0 < run && gap + run <= start + len
    requires forall i :: start <= i < gap ==> !At(words, i)
    requires forall i :: gap <= i < gap + run ==> At(words, i)
    requires gap + run < start + len ==> !At(words, gap + run)
    ensures NextGap(Unpacked(words, capacity), start, len) == Some((gap, run))
  {
    hide At;
    NextGapUnique(Unpacked(words, capacity), start, len, gap, run);
  }

  lemma NoGapAt(words: seq<bv64>, capacity: nat, start: nat, len: nat)
    requires start + len <= capacity <= 64 * |words|
    requires forall i :: start <= i < start + len ==> !At(words, i)
    ensures NextGap(Unpacked(words, capacity), start, len) == None
  {
    hide At;
    NoGap(Unpacked(words, capacity), start, len);
  }

  class Bitmap {
    const words: array<bv64>
    const capacity: nat
    var empty: bool

    ghost predicate Valid()
      reads this, words
    {
      Packed(words[..], capacity, empty)
    }

    ghost function Contents(): (marks: Marks)
      requires Valid()
      reads this, words
      ensures |marks| == capacity
    {
      Unpacked(words[..], capacity)
    }

    constructor (capacity: nat)
      ensures Valid() && fresh(words)
      ensures this.capacity == capacity
      ensures Contents() == seq(capacity, _ => false)
    {
      words := new bv64[(capacity + 63) / 64](_ => 0);
      this.capacity := capacity;
      empty := true;
      new;
      forall i | 0 <= i < 64 * words.Length ensures !At(words[..], i) {
        BitZero(i % 64);
      }
    }

    /** Every word strictly inside the region is stored whole. */
    method StoreWords(first: nat, limit: nat, value: bv64)
      requires limit <= words.Length
      modifies words
      ensures forall i :: 0 <= i < words.Length ==>
                words[i] == if first <= i < limit then value else old(words[i])
    {
      var w := first;
      while w < limit
        invariant first <= w && (w <= limit || w == first)
        invariant forall i :: 0 <= i < words.Length ==>
                    words[i] == if first <= i < w then value else old(words[i])
      {
        words[w] := value;
        w := w + 1;
      }
    }

    method MarkRegion(start: nat, len: nat)
      requires Valid() && start + len <= capacity
      modifies this, words
      ensures Valid()
      ensures Contents() == Filled(old(Contents()), start, len, true)
    {
      hide Bit, Or, And, Not, FirstMask, LastMask, Patched, At, Filled, Unpacked;
      if len == 0 {
        FilledNothing(Contents(), start, true);
        return;
      }
      ghost var before := words[..];
      var end := start + len;
      var firstWord := start / 64;
      var lastWord := (end - 1) / 64;

      FirstWord(words[firstWord], start, end);
      words[firstWord] := Or(words[firstWord], FirstMask(start, end));

      StoreWords(firstWord + 1, lastWord, ALL_ONES);

      if lastWord != firstWord {
        LastWord(words[lastWord], start, end);
        words[lastWord] := Or(words[lastWord], LastMask(end));
      }
      AllPatched(before, words[..], firstWord, lastWord, start, end, true);
      PatchesFill(before, words[..], capacity, start, end, true);
      PatchedNonZero(before[firstWord], words[firstWord], start, end);
      empty := false;
    }

    /** The scan over all words that decides the flag. */
    method AnyWordSet() returns (any: bool)
      ensures any <==> exists i :: 0 <= i < words.Length && words[..][i] != 0
    {
      any := false;
      var w := 0;
      while w < words.Length && !any
        invariant w <= words.Length
        invariant any ==> 0 < w && words[w - 1] != 0
        invariant !any ==> forall i :: 0 <= i < w ==> words[i] == 0
      {
        any := words[w] != 0;
        w := w + 1;
      }
      assert any ==> words[..][w - 1] != 0;
    }

    method UnmarkRegion(start: nat, len: nat)
      requires Valid() && start + len <= capacity
      modifies this, words
      ensures Valid()
      ensures Contents() == Filled(old(Contents()), start, len, false)
    {
      hide Bit, Or, And, Not, FirstMask, LastMask, Patched, At, Filled, Unpacked;
      if len == 0 || empty {
        if empty {
          EmptyMeansNoMark(words[..], capacity, empty);
          FilledAgain(Contents(), start, len);
        } else {
          FilledNothing(Contents(), start, false);
        }
        return;
      }
      ghost var before := words[..];
      var end := start + len;
      var firstWord := start / 64;
      var lastWord := (end - 1) / 64;

      FirstWord(words[firstWord], start, end);
      words[firstWord] := And(words[firstWord], Not(FirstMask(start, end)));

      StoreWords(firstWord + 1, lastWord, 0);

      if lastWord != firstWord {
        LastWord(words[lastWord], start, end);
        words[lastWord] := And(words[lastWord], Not(LastMask(end)));
      }
      AllPatched(before, words[..], firstWord, lastWord, start, end, false);
      PatchesFill(before, words[..], capacity, start, end, false);

      var stillNonEmpty := AnyWordSet();
      if !stillNonEmpty {
        empty := true;
      }
    }

    method SearchNextGap(start: nat, len: nat) returns (r: Option<(nat, nat)>)
      requires Valid() && start + len <= capacity
      ensures r == NextGap(Contents(), start, len)
    {
      hide Bit, MaskedWord, Not, Shr, NextGap, At, Unpacked, Packed;
      ghost var ws, marks := words[..], Contents();
      if len == 0 || empty {
        if empty { EmptyMeansNoMark(ws, capacity, empty); }
        NoGap(marks, start, len);
        return None;
      }
      var end := start + len;
      PackedSize(ws, capacity, empty);
      var wi, w := FirstNonZeroWord(start, end);
      assert words[..] == ws;
      if w == 0 {
        NoGapAt(ws, capacity, start, len);
        return None;
      }

      var tz := TrailingZeros(w);
      var gapStart := wi * 64 + tz;
      var onesHere := TrailingZeros(Not(Shr(w, tz)));
      var bitsAvailable := 64 - tz;
      var maxTotal := end - gapStart;
      RunInWord(ws, start, end, wi);
      var run := Min(Min(onesHere, bitsAvailable), maxTotal);
      if run < maxTotal && run == bitsAvailable {
        run := ExtendRun(start, end, gapStart, run);
        assert words[..] == ws;
      }
      FoundGap(ws, capacity, start, len, gapStart, run);
      return Some((gapStart, run));
    }

    /** The first word of the range with a marked position in it, zero if there is none. */
    method FirstNonZeroWord(start: nat, end: nat) returns (wi: nat, w: bv64)
      requires start < end <= 64 * words.Length
      ensures start / 64 <= wi <= (end - 1) / 64
      ensures w == MaskedWord(words[..], start, end, wi)
      ensures forall i :: start <= i < 64 * wi ==> !At(words[..], i)
      ensures w == 0 ==> forall i :: start <= i < end ==> !At(words[..], i)
    {
      hide Bit, MaskedWord, At;
      var lastWord := (end - 1) / 64;
      wi := start / 64;
      w := MaskedWord(words[..], start, end, wi);
      while w == 0
        invariant start / 64 <= wi <= lastWord
        invariant w == MaskedWord(words[..], start, end, wi)
        invariant forall i :: start <= i < 64 * wi ==> !At(words[..], i)
        decreases lastWord - wi
      {
        MaskedWordZero(words[..], start, end, wi);
        if wi == lastWord {
          return;
        }
        wi := wi + 1;
        w := MaskedWord(words[..], start, end, wi);
      }
    }

    /** Follows a run that reaches the end of its word through the next words. */
    method ExtendRun(start: nat, end: nat, gapStart: nat, run0: nat) returns (run: nat)
      requires start <= gapStart && gapStart + run0 < end <= 64 * words.Length
      requires (gapStart + run0) % 64 == 0
      requires forall i :: gapStart <= i < gapStart + run0 ==> At(words[..], i)
      ensures run0 <= run && gapStart + run <= end
      ensures forall i :: gapStart <= i < gapStart + run ==> At(words[..], i)
      ensures gapStart + run < end ==> !At(words[..], gapStart + run)
    {
      hide Bit, MaskedWord, Not, Shr, At;
      var lastWord := (end - 1) / 64;
      var maxTotal := end - gapStart;
      var nextWi := (gapStart + run0) / 64;
      run := run0;
      while gapStart + run < end && nextWi <= lastWord
        invariant run0 <= run <= maxTotal
        invariant run < maxTotal ==> gapStart + run == 64 * nextWi
        invariant forall i :: gapStart <= i < gapStart + run ==> At(words[..], i)
        decreases lastWord + 1 - nextWi
      {
        var ww := MaskedWord(words[..], start, end, nextWi);
        MaskedWordRun(words[..], start, end, nextWi, 0);
        FullOrNot(ww);
        if ww == ALL_ONES {
          var remaining := end - (gapStart + run);
          run := run + Min(remaining, 64);
          if run == maxTotal {
            return;
          }
          nextWi := nextWi + 1;
        } else if ww == 0 {
          MaskedWordZero(words[..], start, end, nextWi);
          return;
        } else {
          var ones := TrailingZeros(Not(ww));
          var remaining := end - (gapStart + run);
          run := run + Min(Min(ones, remaining), 64);
          return;
        }
      }
    }
  }

  /** The words of the region are patched one way or another, the others need no change. */
  lemma AllPatched(before: seq<bv64>, after: seq<bv64>, firstWord: nat, lastWord: nat, start: nat, end: nat, v: bool)
    requires |before| == |after|
    requires start < end && firstWord == start / 64 && lastWord == (end - 1) / 64 < |after|
    requires forall i :: 0 <= i < |after| && !(firstWord <= i <= lastWord) ==> after[i] == before[i]
    requires Patched(before[firstWord], after[firstWord], 64 * firstWord, start, end, v)
    requires Patched(before[lastWord], after[lastWord], 64 * lastWord, start, end, v)
    requires forall i :: firstWord < i < lastWord ==> after[i] == if v then ALL_ONES else 0
    ensures forall w :: 0 <= w < |after| ==> Patched(before[w], after[w], 64 * w, start, end, v)
  {
    hide Patched;
    forall w | 0 <= w < |after|
      ensures Patched(before[w], after[w], 64 * w, start, end, v)
    {
      if !(firstWord <= w <= lastWord) {
        OtherWord(before[w], 64 * w, start, end, v);
      } else if firstWord < w < lastWord {
        WholeWord(before[w], 64 * w, start, end);
      }
    }
  }

  lemma PatchedNonZero(a: bv64, b: bv64, start: nat, end: nat)
    requires start < end && Patched(a, b, start / 64 * 64, start, end, true)
    ensures b != 0
  {
    hide Bit;
    ZeroWord(b);
    assert Bit(b, start % 64);
  }
}
