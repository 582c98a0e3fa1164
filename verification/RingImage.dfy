/** How a ring of `cap` slots and its gap bitmap stand for the recent part of a history. */
module RingImage {
  import opened Naturals
  import opened Options
  import opened Slots
  import opened GapMarks
  import opened Timeline

  /** Every position still held has its cell in its slot. */
  ghost predicate Represents<T>(hist: seq<Cell<T>>, cap: nat, phys: seq<T>, marks: Marks) {
    && 0 < cap == |phys| == |marks|
    && forall p :: Oldest(|hist|, cap) <= p < |hist| ==> InSlot(hist, cap, phys, marks, p)
  }

  ghost predicate InSlot<T>(hist: seq<Cell<T>>, cap: nat, phys: seq<T>, marks: Marks, p: nat)
    requires 0 < cap == |phys| == |marks| && p < |hist|
  {
    match hist[p]
    case Sample(v) => !marks[Slot(p, cap)] && phys[Slot(p, cap)] == v
    case Hole => marks[Slot(p, cap)]
  }

  /** The slots `head, head + 1, ...` going around the ring, overwritten with `src`. */
  function Overwritten<T>(phys: seq<T>, head: nat, src: seq<T>): (r: seq<T>)
    requires head < |phys| && |src| <= |phys|
    ensures |r| == |phys|
  {
    seq(|phys|, i requires 0 <= i < |phys| =>
      if Ahead(head, i, |phys|) < |src| then src[Ahead(head, i, |phys|)] else phys[i])
  }

  /** The `n` slots from `head` on, going around the ring, marked or unmarked. */
  function FilledAround(marks: Marks, head: nat, n: nat, v: bool): (r: Marks)
    requires head < |marks|
    ensures |r| == |marks|
  {
    seq(|marks|, i requires 0 <= i < |marks| =>
      if Ahead(head, i, |marks|) < n then v else marks[i])
  }

  /** The two straight fills that make up one fill around the ring. */
  lemma FilledTwice(marks: Marks, head: nat, n: nat, v: bool)
    requires head < |marks| && n <= |marks|
    ensures var first := if |marks| - head <= n then |marks| - head else n;
            Filled(Filled(marks, head, first, v), 0, n - first, v) == FilledAround(marks, head, n, v)
  {
  }

  /** Where the positions around the end of the timeline lie, as seen from the slot of that end. */
  lemma AheadOfEnd(len: nat, p: nat, cap: nat)
    requires 0 < cap && len <= p + cap
    ensures p < len ==> Ahead(Slot(len, cap), Slot(p, cap), cap) == p + cap - len
    ensures len <= p ==> Ahead(Slot(len, cap), Slot(p, cap), cap) == Slot(p - len, cap)
  {
    hide Slot, Ahead, Wrap;
    if len <= p {
      SlotAhead(len, p - len, cap);
    } else {
      SlotOneTurn(p, cap);
      SlotAhead(len, p + cap - len, cap);
      SlotSmall(p + cap - len, cap);
    }
  }

  lemma SlotOneTurn(p: nat, cap: nat)
    requires cap > 0
    ensures Slot(p + cap, cap) == Slot(p, cap)
  {
    hide Slot;
    SlotAdd(p, cap, cap);
  }

  /** Committing samples: slots are overwritten and unmarked, the history grows by `added`. Of more
      than `cap` samples only `cap` are stored, from the old head's slot on. */
  lemma CommitRepresents<T>(hist: seq<Cell<T>>, cap: nat, phys: seq<T>, marks: Marks,
                            src: seq<T>, added: seq<Cell<T>>)
    requires Represents(hist, cap, phys, marks)
    requires |src| == Min(|added|, cap)
    requires forall i :: Oldest(|added|, cap) <= i < |added| ==>
               Slot(i, cap) < |src| && added[i] == Sample(src[Slot(i, cap)])
    ensures Represents(hist + added, cap, Overwritten(phys, Slot(|hist|, cap), src),
                       FilledAround(marks, Slot(|hist|, cap), |src|, false))
  {
    hide Slot, Ahead;
    var hist', head := hist + added, Slot(|hist|, cap);
    var phys', marks' := Overwritten(phys, head, src), FilledAround(marks, head, |src|, false);
    forall p | Oldest(|hist'|, cap) <= p < |hist'|
      ensures InSlot(hist', cap, phys', marks', p)
    {
      AheadOfEnd(|hist|, p, cap);
      if p < |hist| {
        assert InSlot(hist, cap, phys, marks, p);
      } else {
        assert hist'[p] == added[p - |hist|];
      }
    }
  }

  /** Advancing the timeline: slots are marked, their samples stay, the history grows by holes. */
  lemma AdvanceRepresents<T>(hist: seq<Cell<T>>, cap: nat, phys: seq<T>, marks: Marks, n: nat)
    requires Represents(hist, cap, phys, marks)
    ensures Represents(hist + seq(n, _ => Hole), cap, phys,
                       FilledAround(marks, Slot(|hist|, cap), Min(n, cap), true))
  {
    hide Slot, Ahead;
    var hist', head := hist + seq(n, _ => Hole), Slot(|hist|, cap);
    var marks' := FilledAround(marks, head, Min(n, cap), true);
    forall p | Oldest(|hist'|, cap) <= p < |hist'|
      ensures InSlot(hist', cap, phys, marks', p)
    {
      AheadOfEnd(|hist|, p, cap);
      if p < |hist| {
        assert InSlot(hist, cap, phys, marks, p);
      } else {
        SlotSmallIfFits(p - |hist|, n, cap);
      }
    }
  }

  lemma SlotSmallIfFits(k: nat, n: nat, cap: nat)
    requires k < n && cap > 0
    ensures Slot(k, cap) < Min(n, cap)
  {
    if n <= cap { SlotSmall(k, cap); }
  }

  // Oversize writes.

  /** The samples `write` keeps: the last `cap`. */
  function KeptTail<T>(input: seq<T>, cap: nat): (t: seq<T>)
    ensures |t| == Min(|input|, cap)
  {
    input[Oldest(|input|, cap)..]
  }

  /** The cells that `write` adds to the timeline, as a reader will find them. Positions beyond
      the last `cap` are never read again. */
  function WrittenAs<T>(input: seq<T>, cap: nat): (cells: seq<Cell<T>>)
    requires cap > 0
    ensures |cells| == |input|
  {
    seq(|input|, i requires 0 <= i < |input| =>
      if i < Oldest(|input|, cap) then Sample(input[i])
      else SlotSmallIfFits(i, |input|, cap); Sample(KeptTail(input, cap)[Slot(i, cap)]))
  }

  /** A write that fits is found as it was given. */
  lemma FittingWrite<T>(input: seq<T>, cap: nat)
    requires 0 < cap && |input| <= cap
    ensures WrittenAs(input, cap) == Samples(input)
  {
    hide Slot;
    forall i | 0 <= i < |input|
      ensures WrittenAs(input, cap)[i] == Samples(input)[i]
    {
      SlotSmall(i, cap);
    }
  }

  /** An oversize write is found as its last `cap` samples, rotated left by the length modulo the
      capacity. */
  lemma OversizeWrite<T>(input: seq<T>, cap: nat)
    requires 0 < cap < |input|
    ensures 0 <= |input| % cap < cap
    ensures var tail, r := input[|input| - cap..], |input| % cap;
            WrittenAs(input, cap)[|input| - cap..] == Samples(tail[r..] + tail[..r])
  {
    hide Slot;
    SlotIsRemainder(|input|, cap);
    var n, r := |input|, Slot(|input|, cap);
    var tail := input[n - cap..];
    SlotAdd(n - cap, cap, cap);
    forall j | 0 <= j < cap
      ensures WrittenAs(input, cap)[n - cap..][j] == Samples(tail[r..] + tail[..r])[j]
    {
      SlotAdd(n - cap, j, cap);
    }
  }

  /** Every position that can still be read holds the sample that was written for it. */
  ghost predicate InOrder<T>(input: seq<T>, cap: nat)
    requires cap > 0
  {
    forall i :: Oldest(|input|, cap) <= i < |input| ==> WrittenAs(input, cap)[i] == Sample(input[i])
  }

  /** Writes of a given length are read back in order, whatever their samples, exactly when the
      length fits or is a multiple of the capacity. */
  lemma InOrderExactly<T(!new)>(n: nat, cap: nat, a: T, b: T)
    requires 0 < cap && a != b
    ensures (forall input: seq<T> :: |input| == n ==> InOrder(input, cap)) <==> (n <= cap || Slot(n, cap) == 0)
  {
    hide Slot;
    SlotIsRemainder(n, cap);
    if n <= cap || Slot(n, cap) == 0 {
      forall input: seq<T> | |input| == n ensures InOrder(input, cap) {
        if n <= cap {
          FittingWrite(input, cap);
        } else {
          OversizeWrite(input, cap);
          var tail := input[n - cap..];
          assert tail[0..] + tail[..0] == tail;
          forall i | n - cap <= i < n ensures WrittenAs(input, cap)[i] == Sample(input[i]) {
            assert WrittenAs(input, cap)[i] == WrittenAs(input, cap)[n - cap..][i - (n - cap)];
            assert tail[i - (n - cap)] == input[i];
          }
        }
      }
    } else {
      // One sample differs from the others; it comes back somewhere else.
      var input := seq(n, i requires 0 <= i < n => if i == n - cap then a else b);
      assert |input| == n;
      SlotOneTurn(n - cap, cap);
      assert KeptTail(input, cap)[Slot(n, cap)] == b;
      assert WrittenAs(input, cap)[n - cap] == Sample(b);
      assert !InOrder(input, cap);
    }
  }

  // Reading.

  lemma NextGapMeaning(s: Marks, start: nat, len: nat)
    requires start + len <= |s|
    ensures var r := NextGap(s, start, len);
            && (r == None ==> forall i :: start <= i < start + len ==> !s[i])
            && (r.Some? ==>
                  && start <= r.value.0 && 0 < r.value.1 && r.value.0 + r.value.1 <= start + len
                  && (forall i :: start <= i < r.value.0 ==> !s[i])
                  && (forall i :: r.value.0 <= i < r.value.0 + r.value.1 ==> s[i])
                  && (r.value.0 + r.value.1 < start + len ==> !s[r.value.0 + r.value.1]))
  {
    var p := FirstMarked(s, start, start + len);
    if p < start + len {
      var e := RunEnd(s, p, start + len);
      assert s[p];
    }
  }

  /** A stretch of the timeline shows in the ring in two pieces, from slot `start` on and from slot
      zero on. Said from both sides, for whichever is looked at. */
  ghost predicate InTwoPieces(timeline: Marks, ring: Marks, from: nat, start: nat, first: nat, second: nat) {
    && from + first + second <= |timeline| && start + first <= |ring| && second <= |ring|
    && (second > 0 ==> start + first == |ring|)
    && (forall i :: start <= i < start + first ==> ring[i] == timeline[from + (i - start)])
    && (forall i :: 0 <= i < second ==> ring[i] == timeline[from + first + i])
    && (forall p :: from <= p < from + first ==> timeline[p] == ring[start + (p - from)])
    && (forall p :: from + first <= p < from + first + second ==> timeline[p] == ring[p - from - first])
  }

  /** The marks of the slots that a stretch of the timeline occupies, in the two straight pieces
      into which the end of the ring splits it, are the holes of the history. */
  lemma StretchMarks<T>(hist: seq<Cell<T>>, cap: nat, phys: seq<T>, marks: Marks, from: nat, len: nat)
    requires Represents(hist, cap, phys, marks)
    requires Oldest(|hist|, cap) <= from && from + len <= |hist| && len <= cap
    ensures var start := Slot(from, cap);
            var first := Min(len, cap - start);
            InTwoPieces(Holes(hist), marks, from, start, first, len - first)
  {
    hide Slot;
    forall p | from <= p < from + len
      ensures Holes(hist)[p] == marks[Wrap(Slot(from, cap), p - from, cap)]
    {
      SlotAdd(from, p - from, cap);
      assert InSlot(hist, cap, phys, marks, p);
    }
  }

  /** Searching the two pieces of a stretch one after the other, a run that reaches the end of the
      ring being joined with one at its beginning, searches the stretch. */
  lemma JoinedSearch(timeline: Marks, ring: Marks, from: nat, start: nat, first: nat, second: nat)
    requires InTwoPieces(timeline, ring, from, start, first, second)
    ensures var a, b := NextGap(ring, start, first), NextGap(ring, 0, second);
            NextGap(timeline, from, first + second) ==
            if a.Some? then
              var joins := a.value.0 + a.value.1 == |ring| && second > 0 && b.Some? && b.value.0 == 0;
              Some((from + (a.value.0 - start), if joins then a.value.1 + b.value.1 else a.value.1))
            else if b.Some? then Some((from + first + b.value.0, b.value.1))
            else None
    ensures NextGap(ring, start, first).Some? ==> start <= NextGap(ring, start, first).value.0
    ensures second == 0 ==> NextGap(ring, 0, second) == None
  {
    hide NextGap;
    NextGapMeaning(ring, start, first);
    NextGapMeaning(ring, 0, second);
    var a, b := NextGap(ring, start, first), NextGap(ring, 0, second);
    if a.Some? {
      var joins := a.value.0 + a.value.1 == |ring| && second > 0 && b.Some? && b.value.0 == 0;
      NextGapUnique(timeline, from, first + second, from + (a.value.0 - start),
                    if joins then a.value.1 + b.value.1 else a.value.1);
    } else if b.Some? {
      NextGapUnique(timeline, from, first + second, from + first + b.value.0, b.value.1);
    } else {
      NoGap(timeline, from, first + second);
    }
  }

  lemma ImageSize<T>(hist: seq<Cell<T>>, cap: nat, phys: seq<T>, marks: Marks)
    requires Represents(hist, cap, phys, marks)
    ensures 0 < cap == |phys| == |marks|
  {
  }

  /** The search of a held stretch of the timeline, by searches of the ring. */
  lemma SearchOfRing<T>(hist: seq<Cell<T>>, cap: nat, phys: seq<T>, marks: Marks, from: nat, len: nat)
    requires Represents(hist, cap, phys, marks)
    requires Oldest(|hist|, cap) <= from && from + len <= |hist|
    ensures len <= cap == |marks|
    ensures var start := Slot(from, cap);
            var first := Min(len, cap - start);
            var a, b := NextGap(marks, start, first), NextGap(marks, 0, len - first);
            && (a.Some? ==> start <= a.value.0) && (len == first ==> b == None)
            && NextGap(Holes(hist), from, len) ==
               if a.Some? then
                 var joins := a.value.0 + a.value.1 == cap && len > first && b.Some? && b.value.0 == 0;
                 Some((from + (a.value.0 - start), if joins then a.value.1 + b.value.1 else a.value.1))
               else if b.Some? then Some((from + first + b.value.0, b.value.1))
               else None
  {
    hide Slot, NextGap, Represents, Holes, InTwoPieces;
    ImageSize(hist, cap, phys, marks);
    StretchMarks(hist, cap, phys, marks, from, len);
    var first := Min(len, cap - Slot(from, cap));
    JoinedSearch(Holes(hist), marks, from, Slot(from, cap), first, len - first);
  }

  /** The samples of a stretch without holes, in the same two pieces. */
  lemma StretchSamples<T>(hist: seq<Cell<T>>, cap: nat, phys: seq<T>, marks: Marks, from: nat, len: nat)
    requires Represents(hist, cap, phys, marks)
    requires Oldest(|hist|, cap) <= from && from + len <= |hist| && len <= cap
    requires forall p :: from <= p < from + len ==> !Holes(hist)[p]
    ensures forall p :: from <= p < from + len ==>
              hist[p] == Sample(phys[Wrap(Slot(from, cap), p - from, cap)])
  {
    hide Slot;
    forall p | from <= p < from + len
      ensures hist[p] == Sample(phys[Wrap(Slot(from, cap), p - from, cap)])
    {
      SlotAdd(from, p - from, cap);
      assert InSlot(hist, cap, phys, marks, p);
      assert !Holes(hist)[p];
    }
  }

  /** A search looks at nothing outside its range. */
  lemma SearchIsLocal(s: Marks, t: Marks, start: nat, len: nat)
    requires start + len <= |s| && start + len <= |t|
    requires forall i :: start <= i < start + len ==> s[i] == t[i]
    ensures NextGap(s, start, len) == NextGap(t, start, len)
  {
    hide NextGap;
    NextGapMeaning(s, start, len);
    var r := NextGap(s, start, len);
    if r.Some? {
      NextGapUnique(t, start, len, r.value.0, r.value.1);
    } else {
      NoGap(t, start, len);
    }
  }

  // The segments of a window.

  lemma RunsStep<T>(v: seq<View<T>>, seg: Segment<T>)
    requires 0 < seg.Len() <= |v|
    requires v[..seg.Len()] == Expand(seg)
    requires seg.Len() < |v| ==> KindOf(v[seg.Len()]) != seg.Kind()
    ensures Runs(v) == [seg] + Runs(v[seg.Len()..])
  {
    hide Runs, Expand;
    assert v == Expand(seg) + v[seg.Len()..];
    RunsCons(seg, v[seg.Len()..]);
  }

  lemma WindowSplit<T>(hist: seq<Cell<T>>, cap: nat, from: nat, n: nat, m: nat)
    ensures Window(hist, cap, from, n + m)[..n] == Window(hist, cap, from, n)
    ensures Window(hist, cap, from, n + m)[n..] == Window(hist, cap, from + n, m)
  {
  }

  /** Positions that were overwritten come first, as one overflow. */
  lemma LostRun<T>(hist: seq<Cell<T>>, cap: nat, from: nat, n: nat, more: nat)
    requires 0 < n && from + n <= Oldest(|hist|, cap)
    requires more > 0 ==> from + n == Oldest(|hist|, cap)
    ensures Runs(Window(hist, cap, from, n + more)) == [Overflow(n)] + Runs(Window(hist, cap, from + n, more))
  {
    hide Runs;
    var v := Window(hist, cap, from, n + more);
    WindowSplit(hist, cap, from, n, more);
    assert v[..n] == Expand<T>(Overflow(n));
    RunsStep(v, Overflow(n));
  }

  /** Positions past the end of the timeline are one underflow. */
  lemma LateRun<T>(hist: seq<Cell<T>>, cap: nat, from: nat, n: nat)
    requires 0 < n && |hist| <= from
    ensures Runs(Window(hist, cap, from, n)) == [Underflow(n)]
  {
    hide Runs;
    var v := Window(hist, cap, from, n);
    assert v == Expand<T>(Underflow(n));
    RunsStep(v, Underflow(n));
    RunsOfNothing<T>();
    assert v[n..] == [];
  }

  lemma RunsOfNothing<T>()
    ensures Runs<T>([]) == []
  {
  }

  /** Positions still held: a hole at the front is handed out with its whole run. */
  lemma HeldGapRun<T>(hist: seq<Cell<T>>, cap: nat, from: nat, readable: nat, more: nat, n: nat)
    requires Oldest(|hist|, cap) <= from && from + readable <= |hist|
    requires more > 0 ==> from + readable == |hist|
    requires NextGap(Holes(hist), from, readable) == Some((from, n))
    ensures 0 < n <= readable
    ensures Runs(Window(hist, cap, from, readable + more))
            == [Gap(n)] + Runs(Window(hist, cap, from + n, readable - n + more))
  {
    hide Runs, NextGap;
    NextGapMeaning(Holes(hist), from, readable);
    var v := Window(hist, cap, from, readable + more);
    WindowSplit(hist, cap, from, n, readable - n + more);
    forall i | 0 <= i < n ensures v[i] == Held(Hole) {
      assert Holes(hist)[from + i];
    }
    assert v[..n] == Expand<T>(Gap(n));
    RunsStep(v, Gap(n));
  }

  /** Positions still held: samples at the front are handed out up to the next hole. */
  lemma HeldDataRun<T>(hist: seq<Cell<T>>, cap: nat, from: nat, readable: nat, more: nat, samples: seq<T>)
    requires Oldest(|hist|, cap) <= from && from + readable <= |hist|
    requires more > 0 ==> from + readable == |hist|
    requires 0 < |samples| <= readable
    requires match NextGap(Holes(hist), from, readable)
             case None => |samples| == readable
             case Some(g) => from + |samples| == g.0
    requires forall i :: from <= i < from + |samples| ==> hist[i] == Sample(samples[i - from])
    ensures Runs(Window(hist, cap, from, readable + more))
            == [Data(samples)] + Runs(Window(hist, cap, from + |samples|, readable - |samples| + more))
  {
    hide Runs, NextGap, Window, ViewAt;
    NextGapMeaning(Holes(hist), from, readable);
    var v, n := Window(hist, cap, from, readable + more), |samples|;
    WindowSplit(hist, cap, from, n, readable - n + more);
    HeldSamples(hist, cap, from, samples);
    if n < |v| {
      AfterSamples(hist, cap, from + n, from + readable);
    }
    RunsStep(v, Data(samples));
  }

  lemma HeldSamples<T>(hist: seq<Cell<T>>, cap: nat, from: nat, samples: seq<T>)
    requires Oldest(|hist|, cap) <= from && from + |samples| <= |hist|
    requires forall i :: from <= i < from + |samples| ==> hist[i] == Sample(samples[i - from])
    ensures Window(hist, cap, from, |samples|) == Expand(Data(samples))
  {
    var v := Window(hist, cap, from, |samples|);
    forall i | 0 <= i < |samples| ensures v[i] == Held(Sample(samples[i])) {
      assert hist[from + i] == Sample(samples[(from + i) - from]);
    }
  }

  /** The position after a run of samples is a hole, or no longer held. */
  lemma AfterSamples<T>(hist: seq<Cell<T>>, cap: nat, p: nat, end: nat)
    requires Oldest(|hist|, cap) <= p <= end <= |hist|
    requires p < end ==> Holes(hist)[p]
    requires p == end ==> end == |hist|
    ensures KindOf(ViewAt(hist, cap, p)) != DataKind
  {
  }

  lemma SearchOfSnapshot<T>(hist: seq<Cell<T>>, snapshot: seq<Cell<T>>, from: nat, len: nat)
    requires snapshot <= hist && from + len <= |snapshot|
    ensures NextGap(Holes(hist), from, len) == NextGap(Holes(snapshot), from, len)
  {
    hide NextGap;
    SearchIsLocal(Holes(hist), Holes(snapshot), from, len);
  }

  /** Samples taken from the ring, up to the next hole, are the next segment of an older snapshot that
      the ring still holds. */
  lemma DataOfRing<T>(hist: seq<Cell<T>>, snapshot: seq<Cell<T>>, cap: nat, phys: seq<T>, marks: Marks,
                      from: nat, readable: nat, more: nat, data: seq<T>)
    requires Represents(hist, cap, phys, marks) && snapshot <= hist
    requires Oldest(|hist|, cap) <= from && from + readable <= |snapshot| && readable <= cap
    requires more > 0 ==> from + readable == |snapshot|
    requires 0 < |data| <= readable
    requires match NextGap(Holes(snapshot), from, readable)
             case None => |data| == readable
             case Some(g) => from + |data| == g.0
    requires forall k :: 0 <= k < |data| ==> data[k] == phys[Wrap(Slot(from, cap), k, cap)]
    ensures Runs(Window(snapshot, cap, from, readable + more))
            == [Data(data)] + Runs(Window(snapshot, cap, from + |data|, readable - |data| + more))
  {
    hide Runs, Slot, Represents, NextGap, Wrap, Window;
    ImageSize(hist, cap, phys, marks);
    NextGapMeaning(Holes(snapshot), from, readable);
    forall p | from <= p < from + |data| ensures !Holes(hist)[p] && hist[p] == snapshot[p] {
      assert !Holes(snapshot)[p];
    }
    StretchSamples(hist, cap, phys, marks, from, |data|);
    forall i | from <= i < from + |data| ensures snapshot[i] == Sample(data[i - from]) {
      assert data[i - from] == phys[Wrap(Slot(from, cap), i - from, cap)];
    }
    HeldDataRun(snapshot, cap, from, readable, more, data);
  }

  /** Held positions followed by positions past the end make at least one segment each, and at most
      one per held position and one for the rest. */
  lemma HeldRunCount<T>(hist: seq<Cell<T>>, cap: nat, from: nat, readable: nat, more: nat)
    requires readable > 0 ==> Oldest(|hist|, cap) <= from && from + readable <= |hist|
    requires more > 0 ==> |hist| <= from + readable
    ensures var n := |Runs(Window(hist, cap, from, readable + more))|;
            (if readable > 0 then 1 else 0) + (if more > 0 then 1 else 0) <= n
            <= readable + (if more > 0 then 1 else 0)
  {
    hide Runs, Window, RunLength;
    var v := Window(hist, cap, from, readable + more);
    RunsAtMost(v, readable);
    if readable > 0 {
      RunsUnfold(v);
      if more > 0 {
        assert KindOf(v[readable]) == UnderflowKind != KindOf(v[0]);
        RunsUnfold(v[RunLength(v)..]);
      }
    } else if more > 0 {
      RunsUnfold(v);
    } else {
      RunsOfNothing<T>();
      assert v == [];
    }
  }

  lemma RunsUnfold<T>(v: seq<View<T>>)
    requires |v| > 0
    ensures Runs(v) == [FirstSegment(v)] + Runs(v[RunLength(v)..])
  {
  }

  /** A uniform suffix is at most one segment. */
  lemma {:induction false} RunsAtMost<T>(v: seq<View<T>>, n: nat)
    requires n <= |v|
    requires forall i :: n <= i < |v| ==> KindOf(v[i]) == KindOf(v[n])
    ensures |Runs(v)| <= n + if n < |v| then 1 else 0
    decreases |v|
  {
    hide RunLength, KindOf;
    if v != [] {
      var k := RunLength(v);
      if k <= n {
        forall i | n - k <= i < |v[k..]| ensures KindOf(v[k..][i]) == KindOf(v[n]) {
          assert v[k..][i] == v[k + i];
        }
        RunsAtMost(v[k..], n - k);
      } else if k < |v| {
        assert false;
      } else {
        assert v[k..] == [];
      }
    }
  }
}
