/** What `read` reports about a window, and what zero-filling by that report makes of the output. */
module Reports {
  import opened Naturals
  import opened Timeline
  import opened RingImage

  /** Overflow before the data, samples copied, and everything else that was missing. */
  datatype XRunReport = XRunReport(overflow: nat, copied: nat, underflow: nat)

  function Count<T>(v: seq<View<T>>, k: Kind): (n: nat)
    ensures n <= |v|
  {
    if v == [] then 0 else (if KindOf(v[0]) == k then 1 else 0) + Count(v[1..], k)
  }

  function ReportOf<T>(v: seq<View<T>>): XRunReport {
    XRunReport(Count(v, OverflowKind), Count(v, DataKind), Count(v, GapKind) + Count(v, UnderflowKind))
  }

  /** Samples at their places in the window, the rest as it was. */
  function Delivered<T>(v: seq<View<T>>, before: seq<T>): (out: seq<T>)
    requires |v| == |before|
    ensures |out| == |v|
  {
    seq(|v|, i requires 0 <= i < |v| => if KindOf(v[i]) == DataKind then ValueOf(v[i]) else before[i])
  }

  /** The window with silence for everything missing. */
  function Padded<T>(v: seq<View<T>>, zero: T): seq<T> {
    Delivered(v, seq(|v|, _ => zero))
  }

  /** The prefix of `overflow` positions and the `underflow` positions after the copied ones. */
  predicate ZeroRange(r: XRunReport, i: nat) {
    i < r.overflow || r.overflow + r.copied <= i < r.overflow + r.copied + r.underflow
  }

  function ZeroFilled<T>(out: seq<T>, r: XRunReport, zero: T): (z: seq<T>)
    ensures |z| == |out|
  {
    seq(|out|, i requires 0 <= i < |out| => if ZeroRange(r, i) then zero else out[i])
  }

  lemma {:induction false} CountAppend<T>(a: seq<View<T>>, b: seq<View<T>>, k: Kind)
    ensures Count(a + b, k) == Count(a, k) + Count(b, k)
  {
    if a == [] {
      assert a + b == b;
    } else {
      CountAppend(a[1..], b, k);
      assert (a + b)[1..] == a[1..] + b;
    }
  }

  lemma {:induction false} CountUniform<T>(v: seq<View<T>>, k: Kind)
    ensures (forall i :: 0 <= i < |v| ==> KindOf(v[i]) == k) ==> Count(v, k) == |v|
    ensures (forall i :: 0 <= i < |v| ==> KindOf(v[i]) != k) ==> Count(v, k) == 0
    ensures Count(v, k) == |v| ==> forall i :: 0 <= i < |v| ==> KindOf(v[i]) == k
    ensures Count(v, k) == 0 ==> forall i :: 0 <= i < |v| ==> KindOf(v[i]) != k
  {
    if v != [] {
      CountUniform(v[1..], k);
      assert forall i :: 0 < i < |v| ==> v[i] == v[1..][i - 1];
    }
  }

  /** Nothing is left out of a report. */
  lemma {:induction false} ReportIsComplete<T>(v: seq<View<T>>)
    ensures var r := ReportOf(v); r.overflow + r.copied + r.underflow == |v|
  {
    if v != [] {
      ReportIsComplete(v[1..]);
    }
  }

  /** No sample follows a hole or the end of the timeline. */
  predicate NoDataAfterMissing<T>(v: seq<View<T>>) {
    forall i, j :: 0 <= i < j < |v| && KindOf(v[i]) in {GapKind, UnderflowKind} ==> KindOf(v[j]) != DataKind
  }

  lemma {:induction false} CountPrefix<T>(v: seq<View<T>>, k: Kind, n: nat)
    requires n <= |v|
    requires forall i :: 0 <= i < |v| ==> (KindOf(v[i]) == k <==> i < n)
    ensures Count(v, k) == n
  {
    if v != [] {
      forall i | 0 <= i < |v[1..]| ensures KindOf(v[1..][i]) == k <==> i < (if n > 0 then n - 1 else 0) {
        assert v[1..][i] == v[i + 1];
      }
      CountPrefix(v[1..], k, if n > 0 then n - 1 else 0);
    }
  }

  /** In every window, what was overwritten comes first. */
  lemma LostComeFirst<T>(hist: seq<Cell<T>>, cap: nat, from: nat, n: nat)
    ensures var v := Window(hist, cap, from, n);
            var o := Count(v, OverflowKind);
            && o == Min(Minus(Oldest(|hist|, cap), from), n)
            && forall i :: 0 <= i < n ==> (KindOf(v[i]) == OverflowKind <==> i < o)
  {
    hide Count, Oldest;
    var oldest := Oldest(|hist|, cap);
    CountPrefix(Window(hist, cap, from, n), OverflowKind,
                Min(Minus(oldest, from), n));
  }

  /** In every window, what is not yet written comes last. */
  lemma LateComeLast<T>(hist: seq<Cell<T>>, cap: nat, from: nat, n: nat)
    ensures Count(Window(hist, cap, from, n), UnderflowKind) == Min(Minus(from + n, |hist|), n)
  {
    hide Count;
    var v := Window(hist, cap, from, n);
    var e := n - Min(Minus(from + n, |hist|), n);
    assert v == v[..e] + v[e..];
    CountAppend(v[..e], v[e..], UnderflowKind);
    CountUniform(v[..e], UnderflowKind);
    CountUniform(v[e..], UnderflowKind);
    forall i | 0 <= i < e ensures KindOf(v[..e][i]) != UnderflowKind {
      assert v[..e][i] == ViewAt(hist, cap, from + i);
    }
    forall i | 0 <= i < n - e ensures KindOf(v[e..][i]) == UnderflowKind {
      assert v[e..][i] == ViewAt(hist, cap, from + (e + i));
    }
  }

  /** A window made up of a lost, a held and a late part. */
  lemma PartCounts<T>(hist: seq<Cell<T>>, cap: nat, from: nat, lost: nat, held: nat, late: nat)
    requires lost > 0 ==> from + lost <= Oldest(|hist|, cap)
    requires lost > 0 && held + late > 0 ==> from + lost == Oldest(|hist|, cap)
    requires held > 0 ==> Oldest(|hist|, cap) <= from + lost && from + lost + held <= |hist|
    requires late > 0 ==> |hist| <= from + lost + held && (held > 0 ==> from + lost + held == |hist|)
    ensures var v := Window(hist, cap, from, lost + held + late);
            && Count(v, OverflowKind) == lost && Count(v, UnderflowKind) == late
            && Count(v, DataKind) + Count(v, GapKind) == held
  {
    hide Count, Window;
    LostComeFirst(hist, cap, from, lost + held + late);
    LateComeLast(hist, cap, from, lost + held + late);
    ReportIsComplete(Window(hist, cap, from, lost + held + late));
  }

  /** Its number of segments: one for each of the outer parts, and for the held part at least one and at
      most one per position. */
  lemma PartSegments<T>(hist: seq<Cell<T>>, cap: nat, from: nat, lost: nat, held: nat, late: nat)
    requires lost > 0 ==> from + lost <= Oldest(|hist|, cap)
    requires lost > 0 && held + late > 0 ==> from + lost == Oldest(|hist|, cap)
    requires held > 0 ==> Oldest(|hist|, cap) <= from + lost && from + lost + held <= |hist|
    requires late > 0 ==> |hist| <= from + lost + held && (held > 0 ==> from + lost + held == |hist|)
    ensures var n := |Runs(Window(hist, cap, from, lost + held + late))|;
            Min(lost, 1) + Min(held, 1) + Min(late, 1) <= n <= Min(lost, 1) + held + Min(late, 1)
  {
    hide Runs, Window;
    if lost > 0 {
      LostRun(hist, cap, from, lost, held + late);
    }
    HeldRunCount(hist, cap, from + lost, held, late);
  }

  /** What is missing in front of a sample, and was not overwritten, is a hole. */
  lemma MissingBeforeData<T>(hist: seq<Cell<T>>, cap: nat, from: nat, n: nat, i: nat, j: nat)
    requires i < j < n
    requires KindOf(Window(hist, cap, from, n)[j]) == DataKind
    requires KindOf(Window(hist, cap, from, n)[i]) !in {DataKind, OverflowKind}
    ensures KindOf(Window(hist, cap, from, n)[i]) == GapKind
  {
  }

  lemma {:induction false} CountSome<T>(v: seq<View<T>>, k: Kind)
    ensures Count(v, k) < |v| ==> exists i :: 0 <= i < |v| && KindOf(v[i]) != k
    ensures Count(v, k) > 0 ==> exists i :: 0 <= i < |v| && KindOf(v[i]) == k
  {
    CountUniform(v, k);
  }

  /** The split of a window at the ends of the range that its report calls copied. */
  lemma SplitCounts<T>(v: seq<View<T>>, o: nat, e: nat)
    requires o <= e <= |v|
    requires forall i :: 0 <= i < o ==> KindOf(v[i]) != DataKind
    requires Count(v, DataKind) == e - o
    ensures (forall i :: 0 <= i < |v| ==> (KindOf(v[i]) == DataKind <==> o <= i < e))
            || (exists i, j :: o <= i < e <= j < |v| && KindOf(v[i]) != DataKind && KindOf(v[j]) == DataKind)
  {
    hide Count, KindOf;
    CountSlices(v, o, e, DataKind);
    CountUniform(v[..o], DataKind);
    if Count(v[o..e], DataKind) < e - o {
      CountSome(v[o..e], DataKind);
      CountSome(v[e..], DataKind);
      var i :| 0 <= i < e - o && KindOf(v[o..e][i]) != DataKind;
      var j :| 0 <= j < |v| - e && KindOf(v[e..][j]) == DataKind;
      assert KindOf(v[o + i]) != DataKind && KindOf(v[e + j]) == DataKind;
    } else {
      CountUniform(v[o..e], DataKind);
      CountUniform(v[e..], DataKind);
      forall i | 0 <= i < |v| ensures KindOf(v[i]) == DataKind <==> o <= i < e {
        assert i >= e ==> v[i] == v[e..][i - e];
        assert o <= i < e ==> v[i] == v[o..e][i - o];
      }
    }
  }

  lemma CountSlices<T>(v: seq<View<T>>, o: nat, e: nat, k: Kind)
    requires o <= e <= |v|
    ensures Count(v, k) == Count(v[..o], k) + Count(v[o..e], k) + Count(v[e..], k)
  {
    hide Count;
    assert v == v[..o] + (v[o..e] + v[e..]);
    CountAppend(v[..o], v[o..e] + v[e..], k);
    CountAppend(v[o..e], v[e..], k);
  }

  /** Where the samples of a window lie relative to the range that its report calls copied. */
  lemma DataRange<T>(hist: seq<Cell<T>>, cap: nat, from: nat, n: nat)
    ensures var v := Window(hist, cap, from, n);
            var r := ReportOf(v);
            && r.overflow + r.copied + r.underflow == n
            && (NoDataAfterMissing(v) ==>
                  forall i :: 0 <= i < n ==> (KindOf(v[i]) == DataKind <==> !ZeroRange(r, i)))
            && (!NoDataAfterMissing(v) ==>
                  && (exists i :: 0 <= i < n && KindOf(v[i]) == DataKind && ZeroRange(r, i))
                  && (exists i :: 0 <= i < n && KindOf(v[i]) == GapKind && !ZeroRange(r, i)))
  {
    hide Count, KindOf, Window;
    var v := Window(hist, cap, from, n);
    var r := ReportOf(v);
    ReportIsComplete(v);
    LostComeFirst(hist, cap, from, n);
    var o, e := r.overflow, r.overflow + r.copied;
    SplitCounts(v, o, e);
    if i, j :| o <= i < e <= j < n && KindOf(v[i]) != DataKind && KindOf(v[j]) == DataKind {
      MissingBeforeData(hist, cap, from, n, i, j);
      assert !NoDataAfterMissing(v);
      assert ZeroRange(r, j) && !ZeroRange(r, i);
    } else {
      assert NoDataAfterMissing(v);
    }
  }

  /** Zero-filling by the report gives the padded window, whatever the output held before, exactly
      when no sample follows a missing position. */
  lemma ZeroFillExactly<T(!new)>(hist: seq<Cell<T>>, cap: nat, from: nat, n: nat, zero: T, other: T)
    requires other != zero
    ensures var v := Window(hist, cap, from, n);
            (forall before: seq<T> :: |before| == n ==>
               ZeroFilled(Delivered(v, before), ReportOf(v), zero) == Padded(v, zero))
            <==> NoDataAfterMissing(v)
  {
    var v := Window(hist, cap, from, n);
    var r := ReportOf(v);
    DataRange(hist, cap, from, n);
    if NoDataAfterMissing(v) {
      forall before: seq<T> | |before| == n
        ensures ZeroFilled(Delivered(v, before), r, zero) == Padded(v, zero)
      {
      }
    } else {
      var i :| 0 <= i < n && KindOf(v[i]) == GapKind && !ZeroRange(r, i);
      var before := seq(n, _ => other);
      assert ZeroFilled(Delivered(v, before), r, zero)[i] == other;
      assert Padded(v, zero)[i] == zero;
    }
  }

  // The loop of `read`.

  /** The segment handed out first is the beginning of what was to come. */
  lemma RunsHead<T>(v: seq<View<T>>, segment: Segment<T>, rest: seq<View<T>>)
    requires Runs(v) == [segment] + Runs(rest)
    ensures v == Expand(segment) + rest
  {
    hide Runs, Expand;
    RunsExpand(v);
    RunsExpand(rest);
    ExpandAllCons(segment, Runs(rest));
  }

  /** One segment more is counted once and delivered at its place. */
  lemma DeliveredSegment<T>(v: seq<View<T>>, before: seq<T>, cursor: nat, segment: Segment<T>)
    requires |v| == |before| && cursor + segment.Len() <= |v| && 0 < segment.Len()
    requires v[cursor..cursor + segment.Len()] == Expand(segment)
    ensures var end := cursor + segment.Len();
            && Delivered(v[..end], before[..end])
               == Delivered(v[..cursor], before[..cursor])
                  + (if segment.Data? then segment.samples else before[cursor..end])
            && (forall k :: Count(v[..end], k) == Count(v[..cursor], k) + if segment.Kind() == k then segment.Len() else 0)
  {
    hide Count;
    var end := cursor + segment.Len();
    ExpandKind(segment);
    assert v[..end] == v[..cursor] + Expand(segment);
    forall k ensures Count(v[..end], k) == Count(v[..cursor], k) + if segment.Kind() == k then segment.Len() else 0 {
      CountAppend(v[..cursor], Expand(segment), k);
      CountUniform(Expand(segment), k);
    }
    DeliveredAppend(v[..cursor], Expand(segment), before[..cursor], before[cursor..end]);
    assert before[..end] == before[..cursor] + before[cursor..end];
    DeliveredExpand(segment, before[cursor..end]);
  }

  lemma SegmentAt<T>(v: seq<View<T>>, cursor: nat, segment: Segment<T>, rest: seq<View<T>>)
    requires cursor <= |v| && v[cursor..] == Expand(segment) + rest
    ensures var end := cursor + segment.Len();
            end <= |v| && v[cursor..end] == Expand(segment) && v[end..] == rest
  {
    hide Expand;
    assert |v[cursor..]| == segment.Len() + |rest|;
    assert v[cursor..][..segment.Len()] == v[cursor..cursor + segment.Len()];
    assert v[cursor..][segment.Len()..] == v[cursor + segment.Len()..];
  }

  /** The output with the samples of a segment at `cursor`; other segments leave it alone. */
  function Emitted<T>(out: seq<T>, segment: Segment<T>, cursor: nat): seq<T>
    requires cursor + segment.Len() <= |out|
  {
    if segment.Data? then out[..cursor] + segment.samples + out[cursor + segment.Len()..] else out
  }

  /** The first `cursor` positions have been delivered and counted. */
  ghost predicate Progress<T>(v: seq<View<T>>, before: seq<T>, cursor: nat, out: seq<T>,
                              overflow: nat, copied: nat, underflow: nat)
  {
    && cursor <= |v| == |before|
    && out == Delivered(v[..cursor], before[..cursor]) + before[cursor..]
    && overflow == Count(v[..cursor], OverflowKind)
    && copied == Count(v[..cursor], DataKind)
    && underflow == Count(v[..cursor], GapKind) + Count(v[..cursor], UnderflowKind)
  }

  lemma ProgressStart<T>(v: seq<View<T>>, before: seq<T>)
    requires |v| == |before|
    ensures Progress(v, before, 0, before, 0, 0, 0)
  {
  }

  lemma ProgressEnd<T>(v: seq<View<T>>, before: seq<T>, out: seq<T>, overflow: nat, copied: nat, underflow: nat)
    requires Progress(v, before, |v|, out, overflow, copied, underflow)
    ensures out == Delivered(v, before) && ReportOf(v) == XRunReport(overflow, copied, underflow)
  {
    hide Count;
    assert v[..|v|] == v && before[..|v|] == before;
  }

  lemma ProgressStep<T>(v: seq<View<T>>, before: seq<T>, cursor: nat, out: seq<T>,
                        overflow: nat, copied: nat, underflow: nat, segment: Segment<T>)
    requires Progress(v, before, cursor, out, overflow, copied, underflow)
    requires 0 < segment.Len() && cursor + segment.Len() <= |v|
    requires v[cursor..cursor + segment.Len()] == Expand(segment)
    ensures var n := segment.Len();
            Progress(v, before, cursor + n, Emitted(out, segment, cursor),
                     if segment.Overflow? then overflow + n else overflow,
                     if segment.Data? then copied + n else copied,
                     if segment.Gap? || segment.Underflow? then underflow + n else underflow)
  {
    hide Count, Delivered, Expand;
    var end := cursor + segment.Len();
    DeliveredSegment(v, before, cursor, segment);
    assert before[cursor..] == before[cursor..end] + before[end..];
  }

  lemma DeliveredAppend<T>(a: seq<View<T>>, b: seq<View<T>>, x: seq<T>, y: seq<T>)
    requires |a| == |x| && |b| == |y|
    ensures Delivered(a + b, x + y) == Delivered(a, x) + Delivered(b, y)
  {
  }

  lemma DeliveredExpand<T>(segment: Segment<T>, before: seq<T>)
    requires |before| == segment.Len()
    ensures Delivered(Expand(segment), before) == if segment.Data? then segment.samples else before
  {
    ExpandKind(segment);
  }

  /** `zero_fill_overflow_and_underflow`. */
  method ZeroFill<T>(report: XRunReport, out: array<T>, zero: T)
    requires report.overflow + report.copied + report.underflow <= out.Length
    modifies out
    ensures out[..] == ZeroFilled(old(out[..]), report, zero)
  {
    forall i | 0 <= i < report.overflow {
      out[i] := zero;
    }
    var first := report.overflow + report.copied;
    forall i | first <= i < first + report.underflow {
      out[i] := zero;
    }
  }
}
