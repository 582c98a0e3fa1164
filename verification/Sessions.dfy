/** Whole runs of a ring: any sequence of writes, skips and reads, each read taking as many segments
    as it likes before it is dropped. */
module Sessions {
  import opened Timeline
  import opened RingImage
  import opened Reports

  datatype Op<T> =
    | Write(input: seq<T>)
    | WriteDefault(repeat: nat)
    | AdvanceTimeline(size: nat)
    /** `iter_segments`, dropped after at most `taken` segments. */
    | Read(requested: nat, emitUnderflow: bool, taken: nat)

  /** The timeline, the read position, and everything ever reported, in order. */
  datatype Session<T> = Session(hist: seq<Cell<T>>, readHead: nat, log: seq<View<T>>)

  function Yielded<T>(s: Session<T>, cap: nat, requested: nat, emitUnderflow: bool, taken: nat): seq<View<T>> {
    var segs := Runs(Window(s.hist, cap, s.readHead, Covered(|s.hist|, s.readHead, requested, emitUnderflow)));
    ExpandAll(if taken < |segs| then segs[..taken] else segs)
  }

  function Step<T>(s: Session<T>, op: Op<T>, cap: nat, default: T): Session<T>
    requires cap > 0
  {
    match op
    case Write(input) => s.(hist := s.hist + WrittenAs(input, cap))
    case WriteDefault(n) => s.(hist := s.hist + seq(n, _ => Sample(default)))
    case AdvanceTimeline(n) => s.(hist := s.hist + seq(n, _ => Hole))
    case Read(n, emit, taken) =>
      var out := Yielded(s, cap, n, emit, taken);
      s.(readHead := s.readHead + |out|, log := s.log + out)
  }

  function Run<T>(ops: seq<Op<T>>, cap: nat, default: T): Session<T>
    requires cap > 0
  {
    if ops == [] then Session([], 0, [])
    else Step(Run(ops[..|ops| - 1], cap, default), ops[|ops| - 1], cap, default)
  }

  /** Dropping a reader early consumes a prefix of its window and leaves exactly the rest. */
  lemma EarlyDrop<T>(s: Session<T>, cap: nat, requested: nat, emitUnderflow: bool, taken: nat)
    requires cap > 0
    ensures var n := Covered(|s.hist|, s.readHead, requested, emitUnderflow);
            var v := Window(s.hist, cap, s.readHead, n);
            var out := Yielded(s, cap, requested, emitUnderflow, taken);
            && |out| <= n
            && out == v[..|out|]
            && Window(s.hist, cap, s.readHead + |out|, n - |out|) == v[|out|..]
            && (taken >= |Runs(v)| ==> out == v)
            && Runs(out) == (if taken < |Runs(v)| then Runs(v)[..taken] else Runs(v))
  {
    hide Runs, ExpandAll, Covered;
    var n := Covered(|s.hist|, s.readHead, requested, emitUnderflow);
    var v := Window(s.hist, cap, s.readHead, n);
    var segs := Runs(v);
    var k := if taken < |segs| then taken else |segs|;
    RunsExpand(v);
    ExpandAllSplit(segs[..k], segs[k..]);
    assert segs == segs[..k] + segs[k..];
    assert k == |segs| ==> segs[..k] == segs;
    RunsCanonical(v);
    RunsUnique(segs[..k]);
    var out := Yielded(s, cap, requested, emitUnderflow, taken);
    WindowSplit(s.hist, cap, s.readHead, |out|, n - |out|);
  }

  /** What the log says about a position agrees with the timeline, now and for good. */
  ghost predicate Accounted<T>(hist: seq<Cell<T>>, cap: nat, p: nat, v: View<T>) {
    match v
    case Held(cell) => p < |hist| && hist[p] == cell
    case Lost => p < Oldest(|hist|, cap)
    case Late => true
  }

  ghost predicate Faithful<T>(s: Session<T>, cap: nat) {
    && |s.log| == s.readHead
    && forall p :: 0 <= p < |s.log| ==> Accounted(s.hist, cap, p, s.log[p])
  }

  lemma GrowFaithful<T>(s: Session<T>, added: seq<Cell<T>>, cap: nat)
    requires Faithful(s, cap)
    ensures Faithful(s.(hist := s.hist + added), cap)
  {
    forall p | 0 <= p < |s.log| ensures Accounted(s.hist + added, cap, p, s.log[p]) {
      assert Accounted(s.hist, cap, p, s.log[p]);
    }
  }

  lemma ReportFaithful<T>(s: Session<T>, out: seq<View<T>>, cap: nat)
    requires Faithful(s, cap)
    requires out == Window(s.hist, cap, s.readHead, |out|)
    ensures Faithful(s.(readHead := s.readHead + |out|, log := s.log + out), cap)
    ensures forall p :: |s.log| <= p < |s.log + out| ==> (s.log + out)[p] == ViewAt(s.hist, cap, p)
  {
    forall p | |s.log| <= p < |s.log + out| ensures Accounted(s.hist, cap, p, (s.log + out)[p]) {
      assert (s.log + out)[p] == out[p - |s.log|] == ViewAt(s.hist, cap, p);
    }
  }

  lemma StepFaithful<T>(s: Session<T>, op: Op<T>, cap: nat, default: T)
    requires cap > 0 && Faithful(s, cap)
    ensures Faithful(Step(s, op, cap, default), cap)
    ensures s.log <= Step(s, op, cap, default).log
    ensures s.hist <= Step(s, op, cap, default).hist
    ensures forall p :: |s.log| <= p < |Step(s, op, cap, default).log| ==>
              op.Read? && Step(s, op, cap, default).log[p] == ViewAt(s.hist, cap, p)
  {
    hide WrittenAs, Yielded, Faithful, Window, Covered, ViewAt;
    match op
    case Write(input) =>
      GrowFaithful(s, WrittenAs(input, cap), cap);
    case WriteDefault(n) =>
      GrowFaithful(s, seq(n, _ => Sample(default)), cap);
    case AdvanceTimeline(n) =>
      GrowFaithful(s, seq(n, _ => Hole), cap);
    case Read(n, emit, taken) =>
      YieldedWindow(s, cap, n, emit, taken);
      ReportFaithful(s, Yielded(s, cap, n, emit, taken), cap);
  }

  lemma YieldedWindow<T>(s: Session<T>, cap: nat, requested: nat, emitUnderflow: bool, taken: nat)
    requires cap > 0
    ensures var out := Yielded(s, cap, requested, emitUnderflow, taken);
            out == Window(s.hist, cap, s.readHead, |out|)
  {
    hide Yielded, Window, Covered;
    EarlyDrop(s, cap, requested, emitUnderflow, taken);
    var out := Yielded(s, cap, requested, emitUnderflow, taken);
    var all := Covered(|s.hist|, s.readHead, requested, emitUnderflow);
    WindowSplit(s.hist, cap, s.readHead, |out|, all - |out|);
  }

  /** Operation `k` is the read that reported position `p`, and it was reported as what a reader found
      there when that read began. */
  ghost predicate ReportedAt<T>(ops: seq<Op<T>>, k: nat, p: nat, cap: nat, default: T)
    requires cap > 0
  {
    && k < |ops| && ops[k].Read?
    && |Run(ops[..k], cap, default).log| <= p < |Run(ops[..k + 1], cap, default).log|
    && p < |Run(ops, cap, default).log|
    && Run(ops, cap, default).log[p] == ViewAt(Run(ops[..k], cap, default).hist, cap, p)
  }

  /** In every run the log is as long as the read head is far, what was delivered is what the timeline
      has, and what was lost is overwritten for good. */
  lemma {:induction false} RunFaithful<T>(ops: seq<Op<T>>, cap: nat, default: T)
    requires cap > 0
    ensures Faithful(Run(ops, cap, default), cap)
    decreases |ops|
  {
    hide Step;
    if ops != [] {
      RunFaithful(ops[..|ops| - 1], cap, default);
      StepFaithful(Run(ops[..|ops| - 1], cap, default), ops[|ops| - 1], cap, default);
    }
  }

  /** In every run each position below the read head was reported by a read of the run, as what that
      read found: the cell of the timeline, overwritten, or not yet written. */
  lemma {:induction false} EveryPositionReported<T>(ops: seq<Op<T>>, p: nat, cap: nat, default: T)
    requires cap > 0 && p < |Run(ops, cap, default).log|
    ensures exists k: nat :: ReportedAt(ops, k, p, cap, default)
    decreases |ops|
  {
    hide Step, Faithful, ViewAt;
    if ops != [] {
      var n := |ops| - 1;
      var init := ops[..n];
      RunFaithful(init, cap, default);
      StepFaithful(Run(init, cap, default), ops[n], cap, default);
      assert ops[..n + 1] == ops;
      assert Run(ops, cap, default) == Step(Run(init, cap, default), ops[n], cap, default);
      if p < |Run(init, cap, default).log| {
        EveryPositionReported(init, p, cap, default);
        var k: nat :| ReportedAt(init, k, p, cap, default);
        assert init[..k] == ops[..k] && init[..k + 1] == ops[..k + 1];
        assert ReportedAt(ops, k, p, cap, default);
      } else {
        assert Run(ops, cap, default).log[p] == ViewAt(Run(init, cap, default).hist, cap, p);
        assert ReportedAt(ops, n, p, cap, default);
      }
    }
  }

  /** No position is reported twice. */
  lemma ReportedOnce<T>(ops: seq<Op<T>>, j: nat, k: nat, p: nat, cap: nat, default: T)
    requires cap > 0 && ReportedAt(ops, j, p, cap, default) && ReportedAt(ops, k, p, cap, default)
    ensures j == k
  {
    hide Run;
    if j < k {
      LogGrows(ops, j + 1, k, cap, default);
    } else if k < j {
      LogGrows(ops, k + 1, j, cap, default);
    }
  }

  lemma LogGrows<T>(ops: seq<Op<T>>, i: nat, j: nat, cap: nat, default: T)
    requires cap > 0 && i <= j <= |ops|
    ensures |Run(ops[..i], cap, default).log| <= |Run(ops[..j], cap, default).log|
  {
    hide Run;
    assert ops[..i] + ops[i..j] == ops[..j];
    RunGrows(ops[..i], ops[i..j], cap, default);
  }

  /** Reports and cells are final: going on appends to both. */
  lemma {:induction false} RunGrows<T>(ops: seq<Op<T>>, more: seq<Op<T>>, cap: nat, default: T)
    requires cap > 0
    ensures Run(ops, cap, default).log <= Run(ops + more, cap, default).log
    ensures Run(ops, cap, default).hist <= Run(ops + more, cap, default).hist
    decreases |more|
  {
    hide Step, Faithful;
    if more == [] {
      assert ops + more == ops;
    } else {
      var init := more[..|more| - 1];
      RunGrows(ops, init, cap, default);
      assert (ops + more)[..|ops + more| - 1] == ops + init;
      RunFaithful(ops + init, cap, default);
      StepFaithful(Run(ops + init, cap, default), more[|more| - 1], cap, default);
    }
  }

  /** What is written for time that was already reported missing is never delivered: whatever happens
      later, a position stays reported as late exactly if it was not written when its read began. */
  lemma LateIsNeverDelivered<T>(ops: seq<Op<T>>, more: seq<Op<T>>, p: nat, cap: nat, default: T)
    requires cap > 0 && p < |Run(ops, cap, default).log|
    ensures p < |Run(ops + more, cap, default).log|
    ensures Run(ops + more, cap, default).log[p] == Run(ops, cap, default).log[p]
    ensures exists k: nat :: ReportedAt(ops, k, p, cap, default)
              && (Run(ops + more, cap, default).log[p] == Late <==> |Run(ops[..k], cap, default).hist| <= p)
  {
    hide Run;
    RunGrows(ops, more, cap, default);
    EveryPositionReported(ops, p, cap, default);
    var k: nat :| ReportedAt(ops, k, p, cap, default);
    assert Run(ops + more, cap, default).log[p] == Run(ops, cap, default).log[p];
  }

  /** Reading `n` and then `m` positions covers the same view as reading `n + m` at once. */
  lemma ChunkIndependence<T>(hist: seq<Cell<T>>, cap: nat, from: nat, n: nat, m: nat, emitUnderflow: bool)
    ensures var a := Covered(|hist|, from, n, emitUnderflow);
            var b := Covered(|hist|, from + a, m, emitUnderflow);
            && a + b == Covered(|hist|, from, n + m, emitUnderflow)
            && Window(hist, cap, from, a) + Window(hist, cap, from + a, b) == Window(hist, cap, from, a + b)
            && ExpandAll(Runs(Window(hist, cap, from, a))) + ExpandAll(Runs(Window(hist, cap, from + a, b)))
               == ExpandAll(Runs(Window(hist, cap, from, a + b)))
  {
    hide Runs, ExpandAll;
    var a := Covered(|hist|, from, n, emitUnderflow);
    var b := Covered(|hist|, from + a, m, emitUnderflow);
    WindowSplit(hist, cap, from, a, b);
    var whole := Window(hist, cap, from, a + b);
    assert whole == whole[..a] + whole[a..];
    RunsExpand(Window(hist, cap, from, a));
    RunsExpand(Window(hist, cap, from + a, b));
    RunsExpand(whole);
  }

  /** The accounting over a whole run: every position consumed was delivered, skipped, lost or late. */
  lemma Conservation<T>(ops: seq<Op<T>>, cap: nat, default: T)
    requires cap > 0
    ensures var s := Run(ops, cap, default);
            var r := ReportOf(s.log);
            r.overflow + r.copied + r.underflow == s.readHead
  {
    hide Run;
    RunFaithful(ops, cap, default);
    ReportIsComplete(Run(ops, cap, default).log);
  }

  // What is put in comes out.

  /** The view of cells appended to a timeline that had been read to its end, and of `late` positions
      after them. */
  ghost function ReadBack<T>(added: seq<Cell<T>>, cap: nat, late: nat): seq<View<T>> {
    seq(|added|, i requires 0 <= i < |added| => if i + cap < |added| then Lost else Held(added[i]))
    + seq(late, _ => Late)
  }

  lemma AppendedIsRead<T>(s: Session<T>, added: seq<Cell<T>>, late: nat, emitUnderflow: bool, cap: nat, default: T)
    requires cap > 0 && s.readHead == |s.hist|
    ensures var n := |added| + late;
            var q := Step(s.(hist := s.hist + added), Read(n, emitUnderflow, n), cap, default);
            var view := ReadBack(added, cap, if emitUnderflow then late else 0);
            q.log == s.log + view && q.readHead == s.readHead + |view|
  {
    hide Runs, ExpandAll;
    var w, n := s.(hist := s.hist + added), |added| + late;
    var view := ReadBack(added, cap, if emitUnderflow then late else 0);
    var v := Window(w.hist, cap, w.readHead, Covered(|w.hist|, w.readHead, n, emitUnderflow));
    EarlyDrop(w, cap, n, emitUnderflow, n);
    RunsAtMost(v, |v|);
    assert v == view;
  }

  /** What a reader that has read everything so far is told when it reads `k` positions after an
      operation, and `late` more. */
  ghost function Reported<T>(s: Session<T>, op: Op<T>, k: nat, late: nat, emitUnderflow: bool, cap: nat, default: T)
    : seq<View<T>>
    requires cap > 0
  {
    var log := Step(Step(s, op, cap, default), Read(k + late, emitUnderflow, k + late), cap, default).log;
    if |s.log| <= |log| then log[|s.log|..] else []
  }

  /** A write comes back sample by sample, an oversize one as lost positions and its last `cap` samples
      rotated; then come the missing positions. */
  lemma WriteIsRead<T>(s: Session<T>, input: seq<T>, late: nat, emitUnderflow: bool, cap: nat, default: T)
    requires cap > 0 && s.readHead == |s.hist|
    ensures var missing := seq(if emitUnderflow then late else 0, _ => Late);
            var reported := Reported(s, Write(input), |input|, late, emitUnderflow, cap, default);
            if |input| <= cap then
              reported == seq(|input|, i requires 0 <= i < |input| => Held(Sample(input[i]))) + missing
            else
              var tail, r := input[|input| - cap..], |input| % cap;
              var kept := tail[r..] + tail[..r];
              reported == seq(|input| - cap, _ => Lost)
                          + seq(cap, i requires 0 <= i < cap => Held(Sample(kept[i]))) + missing
  {
    hide WrittenAs, Yielded;
    var m := if emitUnderflow then late else 0;
    AppendedIsRead(s, WrittenAs(input, cap), late, emitUnderflow, cap, default);
    assert Reported(s, Write(input), |input|, late, emitUnderflow, cap, default) == ReadBack(WrittenAs(input, cap), cap, m);
    if |input| <= cap {
      FittingWrite(input, cap);
    } else {
      OversizeReadBack(input, cap, m);
    }
  }

  /** Written defaults come back as defaults and skipped time as holes, behind what was overwritten. */
  lemma PaddingIsRead<T>(s: Session<T>, n: nat, late: nat, emitUnderflow: bool, cap: nat, default: T)
    requires cap > 0 && s.readHead == |s.hist|
    ensures var missing := seq(if emitUnderflow then late else 0, _ => Late);
            var lost := if n <= cap then 0 else n - cap;
            && Reported(s, WriteDefault(n), n, late, emitUnderflow, cap, default)
               == seq(lost, _ => Lost) + seq(n - lost, _ => Held(Sample(default))) + missing
            && Reported(s, AdvanceTimeline(n), n, late, emitUnderflow, cap, default)
               == seq(lost, _ => Lost) + seq(n - lost, _ => Held(Hole)) + missing
  {
    hide Yielded;
    var m := if emitUnderflow then late else 0;
    var samples, holes := seq(n, _ => Sample(default)), seq(n, _ => Hole);
    AppendedIsRead(s, samples, late, emitUnderflow, cap, default);
    AppendedIsRead(s, holes, late, emitUnderflow, cap, default);
    assert Reported(s, WriteDefault(n), n, late, emitUnderflow, cap, default) == ReadBack(samples, cap, m);
    assert Reported(s, AdvanceTimeline(n), n, late, emitUnderflow, cap, default) == ReadBack(holes, cap, m);
  }

  lemma OversizeReadBack<T>(input: seq<T>, cap: nat, late: nat)
    requires 0 < cap < |input|
    ensures var tail, r := input[|input| - cap..], |input| % cap;
            var kept := tail[r..] + tail[..r];
            ReadBack(WrittenAs(input, cap), cap, late)
            == seq(|input| - cap, _ => Lost)
               + seq(cap, i requires 0 <= i < cap => Held(Sample(kept[i]))) + seq(late, _ => Late)
  {
    OversizeWrite(input, cap);
    hide WrittenAs;
    var cells, n := WrittenAs(input, cap), |input|;
    forall i | n - cap <= i < n ensures cells[i] == cells[n - cap..][i - (n - cap)] {
    }
  }

  // Data after a hole.

  /** A sample, a skipped position and a sample. */
  function Mixed<T>(a: T, b: T): seq<Op<T>> {
    [Write([a]), AdvanceTimeline(1), Write([b])]
  }

  /** After that run a read of three positions finds data after something missing, except in a ring of
      one: what zero-filling relies on fails in every other ring. */
  lemma MixedWindow<T>(a: T, b: T, cap: nat, default: T)
    requires cap > 0
    ensures var s := Run(Mixed(a, b), cap, default);
            NoDataAfterMissing(Window(s.hist, cap, s.readHead, 3)) <==> cap == 1
  {
    hide Run, Window;
    MixedTimeline(a, b, cap, default);
    var v := Window([Sample(a), Hole, Sample(b)], cap, 0, 3);
    assert v[1] == ViewAt([Sample(a), Hole, Sample(b)], cap, 1);
    assert v[2] == Held(Sample(b));
    if cap > 1 {
      assert KindOf(v[1]) == GapKind && KindOf(v[2]) == DataKind;
    }
  }

  lemma MixedTimeline<T>(a: T, b: T, cap: nat, default: T)
    requires cap > 0
    ensures var s := Run(Mixed(a, b), cap, default);
            s.hist == [Sample(a), Hole, Sample(b)] && s.readHead == 0
  {
    hide WrittenAs;
    var ops := Mixed(a, b);
    FittingWrite([a], cap);
    FittingWrite([b], cap);
    assert ops[..2][..1] == ops[..1] && ops[..1][..0] == [];
    assert Run(ops[..1], cap, default).hist == [Sample(a)];
    assert Run(ops[..2], cap, default).hist == [Sample(a), Hole];
  }
}
