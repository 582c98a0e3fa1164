/** The array ring refines the timeline, run by run. */
module RingRefinement {
  import opened Options
  import Capacity
  import opened Timeline
  import opened RingImage
  import opened RingBufferModel
  import opened Sessions

  /** Carries any sequence of operations out on a ring over arrays and collects what its readers are
      handed. The outcome is that of the unbounded timeline, for either kind of mirrored memory. */
  method RunOnRing<T>(size: nat, kernelMirror: bool, default: T, ops: seq<Op<T>>)
    returns (log: seq<View<T>>, written: nat, consumed: nat)
    ensures var s := Run(ops, Capacity.UnsplitCapacity(size), default);
            log == s.log && written == |s.hist| && consumed == s.readHead
  {
    hide Run, Step, RingBuffer.Valid, WrittenAs;
    var ring := new RingBuffer(size, kernelMirror, default);
    ghost var cap := ring.capacity;
    assert cap > 0 by { ValidCapacity(ring); }
    log := [];
    RunNothing(cap, default);
    for i := 0 to |ops|
      invariant fresh(ring) && fresh(ring.ring.cells) && fresh(ring.gaps) && fresh(ring.gaps.words)
      invariant ring.Valid() && ring.capacity == cap && ring.default == default
      invariant Session(ring.hist, ring.readHead, log) == Run(ops[..i], cap, default)
    {
      ghost var s := Session(ring.hist, ring.readHead, log);
      RunOneMore(ops, i, cap, default);
      StepCases(s, ops[i], cap, default);
      match ops[i] {
        case Write(input) =>
          var _ := ring.Write(input);
        case WriteDefault(repeat) =>
          ring.WriteDefault(repeat);
        case AdvanceTimeline(n) =>
          ring.AdvanceTimeline(n);
        case Read(requested, emitUnderflow, taken) =>
          var out := ReadUpTo(ring, requested, emitUnderflow, taken);
          log := log + out;
      }
    }
    assert ops[..|ops|] == ops;
    var stats := ring.Stat();
    written, consumed := stats.written, stats.consumed;
  }

  lemma ValidCapacity<T>(ring: RingBuffer<T>)
    requires ring.Valid()
    ensures ring.capacity > 0
  {
  }

  lemma RunNothing<T>(cap: nat, default: T)
    requires cap > 0
    ensures Run([], cap, default) == Session([], 0, [])
  {
  }

  lemma RunOneMore<T>(ops: seq<Op<T>>, i: nat, cap: nat, default: T)
    requires cap > 0 && i < |ops|
    ensures Run(ops[..i + 1], cap, default) == Step(Run(ops[..i], cap, default), ops[i], cap, default)
  {
    assert ops[..i + 1][..i] == ops[..i];
  }

  lemma StepCases<T>(s: Session<T>, op: Op<T>, cap: nat, default: T)
    requires cap > 0
    ensures Step(s, op, cap, default) ==
            match op
            case Write(input) => Session(s.hist + WrittenAs(input, cap), s.readHead, s.log)
            case WriteDefault(n) => Session(s.hist + seq(n, _ => Sample(default)), s.readHead, s.log)
            case AdvanceTimeline(n) => Session(s.hist + seq(n, _ => Hole), s.readHead, s.log)
            case Read(n, emit, taken) =>
              var out := Yielded(s, cap, n, emit, taken);
              Session(s.hist, s.readHead + |out|, s.log + out)
  {
  }

  /** Takes at most `taken` segments from a reader and drops it. */
  method ReadUpTo<T>(ring: RingBuffer<T>, requested: nat, emitUnderflow: bool, taken: nat)
    returns (out: seq<View<T>>)
    requires ring.Valid()
    modifies ring`readHead
    ensures ring.Valid()
    ensures ring.readHead == old(ring.readHead) + |out|
    ensures forall log :: out == Yielded(Session(ring.hist, old(ring.readHead), log), ring.capacity, requested, emitUnderflow, taken)
  {
    hide Runs, Window, Expand, ExpandAll, RingBuffer.Valid, RingSegments.Valid;
    ghost var all := Window(ring.hist, ring.capacity, ring.readHead,
                            Covered(|ring.hist|, ring.readHead, requested, emitUnderflow));
    ghost var segs := [];
    var it := ring.IterSegments(requested, emitUnderflow);
    out := [];
    ExpandNothing<T>();
    var k := 0;
    while k < taken
      invariant fresh(it) && it.ring == ring && it.Valid()
      invariant ring.readHead == old(ring.readHead) && ring.hist == old(ring.hist)
      invariant k == |segs| <= taken
      invariant Runs(all) == segs + Runs(it.Rest())
      invariant out == ExpandAll(segs) && it.consumed == |out|
    {
      var next := it.Next();
      if next == None {
        break;
      }
      ghost var s := next.value;
      ExpandAllSplit(segs, [s]);
      ExpandAllCons(s, []);
      ExpandNothing<T>();
      assert [s] + [] == [s];
      segs := segs + [s];
      out := out + Expand(next.value);
      k := k + 1;
    }
    RunsOfNothing<T>();
    assert segs == if taken < |Runs(all)| then Runs(all)[..taken] else Runs(all) by {
      assert Runs(all) == segs + Runs(it.Rest());
    }
    it.Drop();
  }
}
