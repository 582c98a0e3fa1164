/** The producer and a live reader, one shared-memory step at a time. A read of the bitmap is spread
    over as many steps as the reader likes, and samples are looked at through a borrowed window of
    the ring until the reader is dropped. */
module Interleaving {
  import opened Options
  import opened Naturals
  import opened Slots
  import opened GapMarks
  import opened Timeline
  import opened RingImage
  import opened MicroSteps

  /** A segment as the reader holds it: a window of the ring is borrowed, not copied. */
  datatype Piece =
    | Skipped(n: nat)
    | HoleRun(pos: nat, n: nat)
    | Borrowed(pos: nat, n: nat)
    | Missing(n: nat)

  /** What was asked for, the fields of the segment iterator, the bits seen by the search under way,
      and the segments yielded. What the ring holds of the request lies from `base` to `limit`. */
  datatype Reader<T> = Reader(
    requested: nat, emitUnderflow: bool,
    snapshot: seq<Cell<T>>, base: nat, limit: nat,
    cursor: nat, overflow: nat, underflow: nat, consumed: nat,
    seen: Marks, pieces: seq<Piece>)
  {
    /** How many positions are still to be yielded. */
    function Left(): nat {
      overflow + Minus(limit, cursor) + underflow
    }
  }

  /** An operation under way: how much of its program is done, and the memory it started from. */
  datatype Running<T> = Running(job: Job<T>, done: nat, origin: Memory<T>)

  datatype System<T> = System(
    mem: Memory<T>, hist: seq<Cell<T>>, readHead: nat,
    running: Option<Running<T>>, reader: Option<Reader<T>>)

  datatype Action<T> =
    | Start(job: Job<T>)
    | OneStep
    | Publish
    | Open(requested: nat, emitUnderflow: bool)
    | TakeOverflow
    | Peek(n: nat)
    | TakeHeld
    | TakeUnderflow
    | Drop

  /** The write head once the running operation is published. */
  ghost function Target<T>(s: System<T>): nat {
    |s.hist| + if s.running.Some? then s.running.value.job.Size() else 0
  }

  /** The producer respects the reader: no operation that overlaps a live reader moves the write head
      more than `cap` past the read head. Nothing is asked of operations outside a reader's life. */
  ghost predicate Enabled<T>(s: System<T>, a: Action<T>, cap: nat)
    requires cap > 0
  {
    match a
    case Start(job) =>
      s.running == None && job.Proper(cap) && job.Size() > 0
      && (s.reader.Some? ==> |s.hist| + job.Size() <= s.readHead + cap)
    case OneStep =>
      && s.running.Some? && s.running.value.job.Proper(cap)
      && s.running.value.done < |Program(s.running.value.job, |s.hist|, cap)|
      && Sized(s.mem, cap)
      && Fits(Program(s.running.value.job, |s.hist|, cap)[s.running.value.done], cap)
    case Publish =>
      && s.running.Some? && s.running.value.job.Proper(cap)
      && s.running.value.done == |Program(s.running.value.job, |s.hist|, cap)|
    case Open(_, _) =>
      s.reader == None && (s.running.Some? ==> Target(s) <= s.readHead + cap)
    case TakeOverflow => s.reader.Some? && s.reader.value.overflow > 0
    case Peek(n) =>
      && s.reader.Some? && Sized(s.mem, cap)
      && s.reader.value.overflow == 0
      && s.reader.value.cursor + |s.reader.value.seen| + n <= s.reader.value.limit
    case TakeHeld =>
      && s.reader.Some?
      && s.reader.value.overflow == 0
      && s.reader.value.cursor < s.reader.value.cursor + |s.reader.value.seen| == s.reader.value.limit
    case TakeUnderflow =>
      && s.reader.Some? && s.reader.value.overflow == 0
      && s.reader.value.cursor == s.reader.value.limit && s.reader.value.underflow > 0
    case Drop => s.reader.Some?
  }

  ghost function Apply<T>(s: System<T>, a: Action<T>, cap: nat): System<T>
    requires cap > 0 && Enabled(s, a, cap)
  {
    match a
    case Start(job) => s.(running := Some(Running(job, 0, s.mem)))
    case OneStep =>
      var r := s.running.value;
      s.(mem := Exec(s.mem, Program(r.job, |s.hist|, cap)[r.done], cap), running := Some(r.(done := r.done + 1)))
    case Publish => s.(hist := s.hist + s.running.value.job.Cells(), running := None)
    case Open(requested, emitUnderflow) => s.(reader := Some(Opened(s.hist, s.readHead, cap, requested, emitUnderflow)))
    case TakeOverflow =>
      var r := s.reader.value;
      s.(reader := Some(r.(overflow := 0, consumed := r.consumed + r.overflow, pieces := r.pieces + [Skipped(r.overflow)])))
    case Peek(n) =>
      var r := s.reader.value;
      var bits := seq(n, k requires 0 <= k < n => !s.mem.empty && s.mem.marks[Slot(r.cursor + |r.seen| + k, cap)]);
      s.(reader := Some(r.(seen := r.seen + bits)))
    case TakeHeld =>
      var r := s.reader.value;
      var piece := FirstPiece(r.cursor, r.seen);
      s.(reader := Some(r.(cursor := r.cursor + piece.n, consumed := r.consumed + piece.n, seen := [], pieces := r.pieces + [piece])))
    case TakeUnderflow =>
      var r := s.reader.value;
      s.(reader := Some(r.(underflow := 0, consumed := r.consumed + r.underflow, pieces := r.pieces + [Missing(r.underflow)])))
    case Drop => s.(readHead := s.readHead + s.reader.value.consumed, reader := None)
  }

  ghost function Opened<T>(hist: seq<Cell<T>>, read: nat, cap: nat, requested: nat, emitUnderflow: bool): Reader<T> {
    var overflow := Min(Minus(Oldest(|hist|, cap), read), requested);
    var cursor := read + overflow;
    var readable := Min(Min(Minus(|hist|, cursor), cap), requested - overflow);
    Reader(requested, emitUnderflow, hist, cursor, cursor + readable, cursor, overflow,
           if emitUnderflow then requested - overflow - readable else 0, 0, [], [])
  }

  /** What the search makes of the bits it saw. */
  ghost function FirstPiece(cursor: nat, seen: Marks): Piece {
    match NextGap(seen, 0, |seen|)
    case Some(g) => if g.0 == 0 then HoleRun(cursor, g.1) else Borrowed(cursor, g.0)
    case None => Borrowed(cursor, |seen|)
  }

  /** The segments the reader holds, their samples read from the memory as it is now. */
  ghost function Visible<T>(mem: Memory<T>, cap: nat, pieces: seq<Piece>): seq<Segment<T>>
    requires Sized(mem, cap) && forall i :: 0 <= i < |pieces| ==> Borrowable(pieces[i], cap)
  {
    seq(|pieces|, i requires 0 <= i < |pieces| => VisibleOne(mem, cap, pieces[i]))
  }

  ghost predicate Borrowable(piece: Piece, cap: nat) {
    piece.Borrowed? ==> piece.n <= cap
  }

  ghost function VisibleOne<T>(mem: Memory<T>, cap: nat, piece: Piece): Segment<T>
    requires Sized(mem, cap) && Borrowable(piece, cap)
  {
    match piece
    case Skipped(n) => Overflow(n)
    case HoleRun(_, n) => Gap(n)
    case Borrowed(pos, n) => Data(WindowOf(mem, cap, pos, n))
    case Missing(n) => Underflow(n)
  }

  /** The contiguous window of the ring that starts at the slot of `pos`. */
  ghost function WindowOf<T>(mem: Memory<T>, cap: nat, pos: nat, n: nat): (s: seq<T>)
    requires Sized(mem, cap) && n <= cap
    ensures |s| == n
  {
    seq(n, k requires 0 <= k < n => mem.cells[Slot(pos, cap) + k])
  }

  /** The same segments with the samples of the snapshot. */
  ghost function Intended<T>(snapshot: seq<Cell<T>>, pieces: seq<Piece>): seq<Segment<T>>
    requires forall i :: 0 <= i < |pieces| ==> PieceOf(snapshot, pieces[i])
  {
    seq(|pieces|, i requires 0 <= i < |pieces| => IntendedOne(snapshot, pieces[i]))
  }

  ghost function IntendedOne<T>(snapshot: seq<Cell<T>>, piece: Piece): Segment<T>
    requires PieceOf(snapshot, piece)
  {
    match piece
    case Skipped(n) => Overflow(n)
    case HoleRun(_, n) => Gap(n)
    case Borrowed(pos, n) => Data(SamplesOf(snapshot, pos, n))
    case Missing(n) => Underflow(n)
  }

  ghost function SamplesOf<T>(snapshot: seq<Cell<T>>, pos: nat, n: nat): (s: seq<T>)
    requires pos + n <= |snapshot|
    requires forall p :: pos <= p < pos + n ==> !snapshot[p].Hole?
    ensures |s| == n
    ensures forall p :: pos <= p < pos + n ==> snapshot[p] == Sample(s[p - pos])
  {
    seq(n, k requires 0 <= k < n => assert !snapshot[pos + k].Hole?; snapshot[pos + k].value)
  }

  ghost predicate PieceOf<T>(snapshot: seq<Cell<T>>, piece: Piece) {
    piece.HoleRun? || piece.Borrowed? ==>
      && piece.pos + piece.n <= |snapshot|
      && forall p :: piece.pos <= p < piece.pos + piece.n ==> snapshot[p].Hole? == piece.HoleRun?
  }

  ghost predicate Inside(piece: Piece, base: nat, limit: nat) {
    piece.HoleRun? || piece.Borrowed? ==> base <= piece.pos && piece.pos + piece.n <= limit
  }

  // The invariant.

  ghost predicate ProducerInv<T>(s: System<T>, cap: nat) {
    && cap > 0
    && match s.running
       case None => Image(s.mem, s.hist, cap)
       case Some(r) =>
         && r.job.Proper(cap) && r.job.Size() > 0
         && Image(r.origin, s.hist, cap)
         && var prog := Program(r.job, |s.hist|, cap);
         && AllFit(prog, cap)
         && r.done <= |prog|
         && AllFit(prog[..r.done], cap)
         && s.mem == ExecAll(r.origin, prog[..r.done], cap)
  }

  ghost predicate ReaderInv<T>(s: System<T>, r: Reader<T>, cap: nat) {
    && r.snapshot <= s.hist
    && ((s.running == None && s.hist == r.snapshot) || Target(s) <= s.readHead + cap)
    && s.readHead <= r.base <= r.cursor && r.cursor + |r.seen| <= r.limit
    && (r.base < r.limit ==> Oldest(|r.snapshot|, cap) <= r.base && r.limit <= |r.snapshot|)
    && r.limit - r.base <= cap
    && (forall i :: 0 <= i < |r.seen| ==> r.seen[i] == Holes(r.snapshot)[r.cursor + i])
    && (forall i :: 0 <= i < |r.pieces| ==> Inside(r.pieces[i], r.base, r.limit) && PieceOf(r.snapshot, r.pieces[i]))
    && Counters(r, s.readHead, cap)
    && Answers(r, s.readHead, cap)
  }

  /** What the counters of a reader say of the positions that it has still to yield. */
  ghost predicate Counters<T>(r: Reader<T>, start: nat, cap: nat) {
    var oldest, readable := Oldest(|r.snapshot|, cap), Minus(r.limit, r.cursor);
    && (r.overflow + readable > 0 ==> r.cursor == start + r.consumed + r.overflow)
    && (r.overflow > 0 ==> start + r.consumed + r.overflow <= oldest)
    && (r.overflow > 0 && readable + r.underflow > 0 ==> start + r.consumed + r.overflow == oldest)
    && (readable > 0 && r.underflow > 0 ==> r.limit == |r.snapshot|)
    && (r.underflow > 0 ==> |r.snapshot| <= start + r.consumed + r.overflow + readable)
  }

  /** What was yielded and what is to come are the canonical segments of the window asked for. */
  ghost predicate Answers<T>(r: Reader<T>, start: nat, cap: nat)
    requires forall i :: 0 <= i < |r.pieces| ==> PieceOf(r.snapshot, r.pieces[i])
  {
    && r.consumed + r.Left() == Covered(|r.snapshot|, start, r.requested, r.emitUnderflow)
    && Runs(Window(r.snapshot, cap, start, r.consumed + r.Left()))
       == Intended(r.snapshot, r.pieces) + Runs(Window(r.snapshot, cap, start + r.consumed, r.Left()))
  }

  ghost predicate Inv<T>(s: System<T>, cap: nat) {
    && ProducerInv(s, cap)
    && (s.reader.Some? ==> ReaderInv(s, s.reader.value, cap))
  }

  /** The memory shows a cell in the slot of `p`: in both halves and in the bitmap, and the flag does
      not hide a hole. */
  ghost predicate Shows<T>(m: Memory<T>, cap: nat, p: nat, cell: Cell<T>) {
    && Sized(m, cap)
    && var i := Slot(p, cap);
    && m.marks[i] == cell.Hole?
    && (cell.Hole? ==> !m.empty)
    && (cell.Sample? ==> m.cells[i] == m.cells[i + cap] == cell.value)
  }

  /** As long as a reader lives, the slots of the positions it may still look at show the snapshot. */
  lemma Undisturbed<T>(s: System<T>, cap: nat, p: nat)
    requires Inv(s, cap) && s.reader.Some?
    requires s.reader.value.base <= p < s.reader.value.limit
    ensures p < |s.reader.value.snapshot| && Shows(s.mem, cap, p, s.reader.value.snapshot[p])
  {
    hide Slot, Program, Runs, Window, Counters, Answers;
    match s.running
    case None =>
      AtRest(s.mem, s.hist, cap, p);
    case Some(run) =>
      var head, n := Slot(|s.hist|, cap), run.job.Touched(cap);
      var prog := Program(run.job, |s.hist|, cap);
      AtRest(run.origin, s.hist, cap, p);
      AheadOfEnd(|s.hist|, p, cap);
      ProgramWithin(run.job, |s.hist|, cap);
      Untouched(run.origin, prog[..run.done], head, n, cap);
  }

  lemma AtRest<T>(m: Memory<T>, hist: seq<Cell<T>>, cap: nat, p: nat)
    requires Image(m, hist, cap) && Oldest(|hist|, cap) <= p < |hist|
    ensures Shows(m, cap, p, hist[p])
  {
    hide Slot;
    var i := Slot(p, cap);
    assert InSlot(hist, cap, m.cells[..cap], m.marks, p);
    assert m.cells[cap..][i] == m.cells[..cap][i];
  }

  /** What a live reader has yielded, looked at in this memory, and what is still to come: together the
      canonical segments of the window that it asked for, as its snapshot has it. What was yielded
      covers exactly the positions that dropping the reader will consume. */
  ghost predicate SeesItsSnapshot<T>(mem: Memory<T>, r: Reader<T>, readHead: nat, cap: nat) {
    && Sized(mem, cap)
    && (forall i :: 0 <= i < |r.pieces| ==> Borrowable(r.pieces[i], cap))
    && var n, yielded := Covered(|r.snapshot|, readHead, r.requested, r.emitUnderflow), Visible(mem, cap, r.pieces);
    && r.consumed <= n
    && Runs(Window(r.snapshot, cap, readHead, n))
       == yielded + Runs(Window(r.snapshot, cap, readHead + r.consumed, n - r.consumed))
    && ExpandAll(yielded) == Window(r.snapshot, cap, readHead, r.consumed)
  }

  lemma ReaderSeesSnapshot<T>(s: System<T>, cap: nat)
    requires Inv(s, cap) && s.reader.Some?
    ensures SeesItsSnapshot(s.mem, s.reader.value, s.readHead, cap)
  {
    hide Slot, Runs, Window, ProducerInv, Program, Counters, ExpandAll;
    var r := s.reader.value;
    MemorySized(s, cap);
    forall i | 0 <= i < |r.pieces|
      ensures Borrowable(r.pieces[i], cap) && VisibleOne(s.mem, cap, r.pieces[i]) == IntendedOne(r.snapshot, r.pieces[i])
    {
      PieceVisible(s, cap, r.pieces[i]);
    }
    var yielded := Visible(s.mem, cap, r.pieces);
    assert yielded == Intended(r.snapshot, r.pieces);
    ExpandedPrefix(r.snapshot, cap, s.readHead, r.consumed, r.Left(), yielded);
  }

  lemma ExpandedPrefix<T>(hist: seq<Cell<T>>, cap: nat, from: nat, n: nat, more: nat, segs: seq<Segment<T>>)
    requires Runs(Window(hist, cap, from, n + more)) == segs + Runs(Window(hist, cap, from + n, more))
    ensures ExpandAll(segs) == Window(hist, cap, from, n)
  {
    hide Runs, Window, ExpandAll;
    var v, rest := Window(hist, cap, from, n + more), Window(hist, cap, from + n, more);
    ExpandAllSplit(segs, Runs(rest));
    RunsExpand(v);
    RunsExpand(rest);
    WindowSplit(hist, cap, from, n, more);
    assert v == ExpandAll(segs) + rest;
  }

  lemma MemorySized<T>(s: System<T>, cap: nat)
    requires ProducerInv(s, cap)
    ensures Sized(s.mem, cap)
  {
  }

  lemma PieceVisible<T>(s: System<T>, cap: nat, piece: Piece)
    requires Inv(s, cap) && s.reader.Some?
    requires Inside(piece, s.reader.value.base, s.reader.value.limit)
    requires PieceOf(s.reader.value.snapshot, piece)
    ensures Sized(s.mem, cap) && Borrowable(piece, cap)
    ensures VisibleOne(s.mem, cap, piece) == IntendedOne(s.reader.value.snapshot, piece)
  {
    hide Slot, Runs, Window, ProducerInv, Program, Counters, Answers;
    MemorySized(s, cap);
    var snapshot := s.reader.value.snapshot;
    if piece.Borrowed? {
      var now, then_ := WindowOf(s.mem, cap, piece.pos, piece.n), SamplesOf(snapshot, piece.pos, piece.n);
      forall k | 0 <= k < piece.n ensures now[k] == then_[k] {
        Undisturbed(s, cap, piece.pos + k);
        SlotAdd(piece.pos, k, cap);
        assert snapshot[piece.pos + k] == Sample(then_[piece.pos + k - piece.pos]);
      }
    }
  }

  // Preservation, action by action.

  ghost predicate ByProducer<T>(a: Action<T>) {
    a.Start? || a.OneStep? || a.Publish?
  }

  lemma ProducerPreserves<T>(s: System<T>, a: Action<T>, cap: nat)
    requires cap > 0 && ProducerInv(s, cap) && Enabled(s, a, cap) && ByProducer(a)
    ensures ProducerInv(Apply(s, a, cap), cap)
  {
    hide Program, Represents, Exec, Fits, AllFit, ExecAll, Slot;
    match a
    case Start(job) =>
      ExecNone(s.mem, cap);
      ProgramResult(s.mem, s.hist, job, cap);
      assert Program(job, |s.hist|, cap)[..0] == [];
    case OneStep =>
      var r := s.running.value;
      var prog := Program(r.job, |s.hist|, cap);
      OneMore(r.origin, prog, r.done, cap);
    case Publish =>
      var r := s.running.value;
      var prog := Program(r.job, |s.hist|, cap);
      ProgramResult(r.origin, s.hist, r.job, cap);
      assert prog[..r.done] == prog;
  }

  lemma OneMore<T>(m: Memory<T>, prog: seq<Micro<T>>, k: nat, cap: nat)
    requires Sized(m, cap) && k < |prog| && AllFit(prog, cap)
    ensures AllFit(prog[..k], cap) && AllFit(prog[..k + 1], cap)
    ensures ExecAll(m, prog[..k + 1], cap) == Exec(ExecAll(m, prog[..k], cap), prog[k], cap)
  {
    assert prog[..k + 1][..k] == prog[..k];
  }

  lemma ReaderKept<T>(s: System<T>, a: Action<T>, cap: nat)
    requires cap > 0 && Inv(s, cap) && Enabled(s, a, cap) && ByProducer(a) && s.reader.Some?
    ensures ReaderInv(Apply(s, a, cap), s.reader.value, cap)
  {
    hide Program, ProducerInv, Exec, Slot, Counters, Answers;
  }

  lemma OpenPreserves<T>(s: System<T>, requested: nat, emitUnderflow: bool, cap: nat)
    requires cap > 0 && Inv(s, cap) && Enabled(s, Open(requested, emitUnderflow), cap)
    ensures Inv(Apply(s, Open(requested, emitUnderflow), cap), cap)
  {
    hide Program, ProducerInv, Runs, Window;
    var s' := Apply(s, Open(requested, emitUnderflow), cap);
    SameProducer(s, s', cap);
    assert Intended<T>(s'.reader.value.snapshot, []) == [];
  }

  lemma SameProducer<T>(s: System<T>, s': System<T>, cap: nat)
    requires ProducerInv(s, cap)
    requires s'.mem == s.mem && s'.hist == s.hist && s'.running == s.running
    ensures ProducerInv(s', cap)
  {
  }

  lemma PeekPreserves<T>(s: System<T>, n: nat, cap: nat)
    requires cap > 0 && Inv(s, cap) && Enabled(s, Peek(n), cap)
    ensures Inv(Apply(s, Peek(n), cap), cap)
  {
    hide Program, ProducerInv, Slot, Counters, Answers;
    var s' := Apply(s, Peek(n), cap);
    SameProducer(s, s', cap);
    PeekedBits(s, n, cap);
    SameRequest(s.reader.value, s'.reader.value, s.readHead, cap);
  }

  lemma PeekedBits<T>(s: System<T>, n: nat, cap: nat)
    requires cap > 0 && Inv(s, cap) && Enabled(s, Peek(n), cap)
    ensures var r, r' := s.reader.value, Apply(s, Peek(n), cap).reader.value;
            forall i :: 0 <= i < |r'.seen| ==> r'.seen[i] == Holes(r.snapshot)[r.cursor + i]
  {
    hide Program, ProducerInv, Slot, Counters, Answers;
    var r, r' := s.reader.value, Apply(s, Peek(n), cap).reader.value;
    forall i | 0 <= i < |r'.seen| ensures r'.seen[i] == Holes(r.snapshot)[r.cursor + i] {
      if i >= |r.seen| {
        Undisturbed(s, cap, r.cursor + i);
      }
    }
  }

  lemma SameRequest<T>(r: Reader<T>, r': Reader<T>, start: nat, cap: nat)
    requires r' == r.(seen := r'.seen)
    requires forall i :: 0 <= i < |r.pieces| ==> PieceOf(r.snapshot, r.pieces[i])
    requires Counters(r, start, cap) && Answers(r, start, cap)
    ensures Counters(r', start, cap) && Answers(r', start, cap)
  {
    hide Runs, Window, Intended, Covered;
  }

  /** The search over the bits seen, shifted, is the search over the timeline. */
  lemma SearchShift(s: Marks, seen: Marks, from: nat)
    requires from + |seen| <= |s|
    requires forall i :: 0 <= i < |seen| ==> seen[i] == s[from + i]
    ensures NextGap(s, from, |seen|) ==
            match NextGap(seen, 0, |seen|) case None => None case Some(g) => Some((from + g.0, g.1))
  {
    hide NextGap;
    NextGapMeaning(seen, 0, |seen|);
    assert forall i :: from <= i < from + |seen| ==> s[i] == seen[i - from];
    match NextGap(seen, 0, |seen|)
    case None => NoGap(s, from, |seen|);
    case Some(g) => NextGapUnique(s, from, |seen|, from + g.0, g.1);
  }

  /** The piece the reader takes is the next segment of its window. */
  lemma FirstPieceRun<T>(snapshot: seq<Cell<T>>, seen: Marks, cursor: nat, more: nat, cap: nat)
    requires 0 < |seen| && Oldest(|snapshot|, cap) <= cursor && cursor + |seen| <= |snapshot|
    requires more > 0 ==> cursor + |seen| == |snapshot|
    requires forall i :: 0 <= i < |seen| ==> seen[i] == Holes(snapshot)[cursor + i]
    ensures var piece := FirstPiece(cursor, seen);
            && (piece.HoleRun? || piece.Borrowed?)
            && piece.pos == cursor && 0 < piece.n <= |seen| && PieceOf(snapshot, piece)
            && Runs(Window(snapshot, cap, cursor, |seen| + more))
               == [IntendedOne(snapshot, piece)] + Runs(Window(snapshot, cap, cursor + piece.n, |seen| - piece.n + more))
  {
    hide NextGap, Runs, Window;
    NextGapMeaning(seen, 0, |seen|);
    SearchShift(Holes(snapshot), seen, cursor);
    var piece := FirstPiece(cursor, seen);
    assert forall p :: cursor <= p < cursor + |seen| ==> snapshot[p].Hole? == seen[p - cursor];
    if piece.HoleRun? {
      HeldGapRun(snapshot, cap, cursor, |seen|, more, piece.n);
    } else {
      HeldDataRun(snapshot, cap, cursor, |seen|, more, SamplesOf(snapshot, cursor, piece.n));
    }
  }

  /** Yielding one more piece, the first of what was left, keeps the answer. */
  lemma AnswersNext<T>(r: Reader<T>, r': Reader<T>, piece: Piece, start: nat, cap: nat)
    requires forall i :: 0 <= i < |r.pieces| ==> PieceOf(r.snapshot, r.pieces[i])
    requires Answers(r, start, cap) && PieceOf(r.snapshot, piece)
    requires r'.snapshot == r.snapshot && r'.pieces == r.pieces + [piece]
    requires r'.requested == r.requested && r'.emitUnderflow == r.emitUnderflow
    requires r'.consumed == r.consumed + piece.n && r.Left() == piece.n + r'.Left()
    requires Runs(Window(r.snapshot, cap, start + r.consumed, r.Left()))
             == [IntendedOne(r.snapshot, piece)] + Runs(Window(r.snapshot, cap, start + r.consumed + piece.n, r'.Left()))
    ensures Answers(r', start, cap)
  {
    hide Runs, Window, Covered, IntendedOne;
    assert Intended(r.snapshot, r'.pieces) == Intended(r.snapshot, r.pieces) + [IntendedOne(r.snapshot, piece)];
  }

  lemma TakeHeldPreserves<T>(s: System<T>, cap: nat)
    requires cap > 0 && Inv(s, cap) && Enabled(s, TakeHeld, cap)
    ensures Inv(Apply(s, TakeHeld, cap), cap)
  {
    hide Program, ProducerInv, Runs, Window, Slot, FirstPiece, Answers;
    var s' := Apply(s, TakeHeld, cap);
    var r := s.reader.value;
    SameProducer(s, s', cap);
    FirstPieceRun(r.snapshot, r.seen, r.cursor, r.underflow, cap);
    AnswersNext(r, s'.reader.value, FirstPiece(r.cursor, r.seen), s.readHead, cap);
  }

  lemma TakeOverflowPreserves<T>(s: System<T>, cap: nat)
    requires cap > 0 && Inv(s, cap) && Enabled(s, TakeOverflow, cap)
    ensures Inv(Apply(s, TakeOverflow, cap), cap)
  {
    hide Program, ProducerInv, Runs, Window, Slot, Answers;
    var s' := Apply(s, TakeOverflow, cap);
    var r := s.reader.value;
    SameProducer(s, s', cap);
    LostRun(r.snapshot, cap, s.readHead + r.consumed, r.overflow, r.Left() - r.overflow);
    AnswersNext(r, s'.reader.value, Skipped(r.overflow), s.readHead, cap);
  }

  lemma TakeUnderflowPreserves<T>(s: System<T>, cap: nat)
    requires cap > 0 && Inv(s, cap) && Enabled(s, TakeUnderflow, cap)
    ensures Inv(Apply(s, TakeUnderflow, cap), cap)
  {
    hide Program, ProducerInv, Runs, Slot, Answers;
    var s' := Apply(s, TakeUnderflow, cap);
    var r := s.reader.value;
    SameProducer(s, s', cap);
    LateRun(r.snapshot, cap, s.readHead + r.consumed, r.underflow);
    RunsOfNothing<T>();
    assert Window(r.snapshot, cap, s.readHead + r.consumed + r.underflow, 0) == [];
    AnswersNext(r, s'.reader.value, Missing(r.underflow), s.readHead, cap);
  }

  lemma DropPreserves<T>(s: System<T>, cap: nat)
    requires cap > 0 && Inv(s, cap) && Enabled(s, Drop, cap)
    ensures Inv(Apply(s, Drop, cap), cap)
  {
    hide ProducerInv, ReaderInv;
    SameProducer(s, Apply(s, Drop, cap), cap);
  }

  lemma ProducerKeepsInv<T>(s: System<T>, a: Action<T>, cap: nat)
    requires cap > 0 && Inv(s, cap) && Enabled(s, a, cap) && ByProducer(a)
    ensures Inv(Apply(s, a, cap), cap)
  {
    hide Program, ProducerInv, ReaderInv, Exec;
    ProducerPreserves(s, a, cap);
    if s.reader.Some? {
      ReaderKept(s, a, cap);
    }
  }

  lemma Preserves<T>(s: System<T>, a: Action<T>, cap: nat)
    requires cap > 0 && Inv(s, cap) && Enabled(s, a, cap)
    ensures Inv(Apply(s, a, cap), cap)
  {
    hide Inv, Enabled, Apply;
    match a
    case Start(_) => ProducerKeepsInv(s, a, cap);
    case OneStep => ProducerKeepsInv(s, a, cap);
    case Publish => ProducerKeepsInv(s, a, cap);
    case Open(requested, emitUnderflow) => OpenPreserves(s, requested, emitUnderflow, cap);
    case Peek(n) => PeekPreserves(s, n, cap);
    case TakeHeld => TakeHeldPreserves(s, cap);
    case TakeOverflow => TakeOverflowPreserves(s, cap);
    case TakeUnderflow => TakeUnderflowPreserves(s, cap);
    case Drop => DropPreserves(s, cap);
  }

  // Whole runs.

  ghost function Initial<T>(cap: nat, default: T): System<T> {
    System(Memory(seq(2 * cap, _ => default), seq(cap, _ => false), true), [], 0, None, None)
  }

  /** `states` is a run from the empty ring: every state follows from the one before by an action that
      the producer's rule allows. */
  ghost predicate IsRun<T(!new)>(states: seq<System<T>>, cap: nat, default: T)
    requires cap > 0
  {
    && |states| > 0 && states[0] == Initial(cap, default)
    && forall i :: 0 < i < |states| ==> Follows(states[i - 1], states[i], cap)
  }

  ghost predicate Follows<T(!new)>(s: System<T>, s': System<T>, cap: nat)
    requires cap > 0
  {
    exists a :: Enabled(s, a, cap) && Apply(s, a, cap) == s'
  }

  lemma {:induction false} RunInv<T(!new)>(states: seq<System<T>>, i: nat, cap: nat, default: T)
    requires cap > 0 && IsRun(states, cap, default) && i < |states|
    ensures Inv(states[i], cap)
    decreases i
  {
    hide Inv, Enabled, Apply;
    if i == 0 {
      InitialInv(cap, default);
    } else {
      RunInv(states, i - 1, cap, default);
      assert Follows(states[i - 1], states[i], cap);
      var a :| Enabled(states[i - 1], a, cap) && Apply(states[i - 1], a, cap) == states[i];
      Preserves(states[i - 1], a, cap);
    }
  }

  lemma InitialInv<T>(cap: nat, default: T)
    requires cap > 0
    ensures Inv(Initial(cap, default), cap)
  {
    var m := Initial(cap, default).mem;
    assert m.cells[cap..] == m.cells[..cap];
  }

  /** In every interleaving, at every moment of a reader's life, what it has yielded so far, looked at
      through the ring as it is at that moment, followed by what is still to come, is the run-length
      encoding of the window it asked for on the timeline it took its snapshot of. */
  lemma EveryReaderSeesItsSnapshot<T(!new)>(states: seq<System<T>>, i: nat, cap: nat, default: T)
    requires cap > 0 && IsRun(states, cap, default) && i < |states|
    requires states[i].reader.Some?
    ensures SeesItsSnapshot(states[i].mem, states[i].reader.value, states[i].readHead, cap)
  {
    hide Inv, SeesItsSnapshot;
    RunInv(states, i, cap, default);
    ReaderSeesSnapshot(states[i], cap);
  }

  /** A reader's end moves the read head past exactly the positions that it yielded; nothing else in
      any interleaving moves it. */
  lemma OnlyYieldedIsConsumed<T(!new)>(states: seq<System<T>>, i: nat, cap: nat, default: T)
    requires cap > 0 && IsRun(states, cap, default) && i + 1 < |states|
    ensures var s, s' := states[i], states[i + 1];
            if s.reader.Some? && s'.reader == None then
              && SeesItsSnapshot(s.mem, s.reader.value, s.readHead, cap)
              && s'.readHead == s.readHead + |ExpandAll(Visible(s.mem, cap, s.reader.value.pieces))|
            else s'.readHead == s.readHead
  {
    hide Inv, Program, Exec, Runs, ExpandAll, Visible;
    var s, s' := states[i], states[i + 1];
    assert Follows(states[i], states[i + 1], cap);
    if s.reader.Some? {
      EveryReaderSeesItsSnapshot(states, i, cap, default);
    }
  }

  /** Between operations the shared memory is an exact image of the timeline, however the steps of
      producer and readers were interleaved. */
  lemma EveryRestIsAnImage<T(!new)>(states: seq<System<T>>, i: nat, cap: nat, default: T)
    requires cap > 0 && IsRun(states, cap, default) && i < |states|
    requires states[i].running == None
    ensures Image(states[i].mem, states[i].hist, cap)
  {
    hide Image;
    RunInv(states, i, cap, default);
  }

  // The producer's rule.

  /** The last position before `len` in the slot of `p`. */
  ghost function Newest(p: nat, len: nat, cap: nat): (q: nat)
    requires cap > 0 && p < len
    ensures p <= q < len
  {
    len - 1 - Slot(len - 1 - p, cap)
  }

  lemma SlotRemainder(d: nat, cap: nat)
    requires cap > 0
    ensures d == (d / cap) * cap + Slot(d, cap)
  {
  }

  lemma NewestInSlot(p: nat, len: nat, cap: nat)
    requires cap > 0 && p < len
    ensures Slot(Newest(p, len, cap), cap) == Slot(p, cap)
    ensures Oldest(len, cap) <= Newest(p, len, cap)
    ensures Newest(p, len, cap) == p <==> len <= p + cap
  {
    var d := len - 1 - p;
    SlotRemainder(d, cap);
    hide Slot;
    SlotTurns(p, d / cap, cap);
    if len <= p + cap {
      SlotSmall(d, cap);
    }
  }

  /** The rule is needed, for holes as for samples and for skips as for writes: after a completed
      operation the slot of a held position shows that position's cell if and only if the newest
      position in its slot has an equal cell; and that is another position as soon as the operation
      takes the write head more than `cap` past it. */
  lemma RuleIsNeeded<T>(m: Memory<T>, hist: seq<Cell<T>>, job: Job<T>, p: nat, cap: nat)
    requires Image(m, hist, cap) && job.Proper(cap)
    requires Oldest(|hist|, cap) <= p < |hist|
    ensures var prog := Program(job, |hist|, cap);
            var after := hist + job.Cells();
            var q := Newest(p, |after|, cap);
            && AllFit(prog, cap)
            && Shows(ExecAll(m, prog, cap), cap, p, after[q])
            && (Shows(ExecAll(m, prog, cap), cap, p, hist[p]) <==> after[q] == hist[p])
            && (q == p <==> |after| <= p + cap)
  {
    hide Slot, Program, ExecAll, AllFit, Newest;
    ProgramResult(m, hist, job, cap);
    var after := hist + job.Cells();
    NewestInSlot(p, |after|, cap);
    AtRest(ExecAll(m, Program(job, |hist|, cap), cap), after, cap, Newest(p, |after|, cap));
  }

  ghost predicate Reachable<T(!new)>(s: System<T>, cap: nat, default: T)
    requires cap > 0
  {
    exists states :: IsRun(states, cap, default) && states[|states| - 1] == s
  }

  lemma ReachableInv<T(!new)>(s: System<T>, cap: nat, default: T)
    requires cap > 0 && Reachable(s, cap, default)
    ensures Inv(s, cap)
  {
    hide Inv;
    var states :| IsRun(states, cap, default) && states[|states| - 1] == s;
    RunInv(states, |states| - 1, cap, default);
  }

  lemma ReachableStep<T(!new)>(s: System<T>, a: Action<T>, cap: nat, default: T)
    requires cap > 0 && Reachable(s, cap, default) && Enabled(s, a, cap)
    ensures Reachable(Apply(s, a, cap), cap, default)
  {
    hide Enabled, Apply;
    var states :| IsRun(states, cap, default) && states[|states| - 1] == s;
    var longer := states + [Apply(s, a, cap)];
    assert Follows(s, Apply(s, a, cap), cap);
    assert IsRun(longer, cap, default);
  }

  /** A system in which `done` steps of an operation begun in `s` have been taken. */
  ghost function Underway<T>(s: System<T>, job: Job<T>, done: nat, cap: nat): System<T>
    requires cap > 0 && job.Proper(cap) && Sized(s.mem, cap)
    requires done <= |Program(job, |s.hist|, cap)| && AllFit(Program(job, |s.hist|, cap)[..done], cap)
  {
    s.(mem := ExecAll(s.mem, Program(job, |s.hist|, cap)[..done], cap), running := Some(Running(job, done, s.mem)))
  }

  lemma {:induction false} ReachableUnderway<T(!new)>(s: System<T>, job: Job<T>, done: nat, cap: nat, default: T)
    requires cap > 0 && Reachable(s, cap, default) && Enabled(s, Start(job), cap)
    requires Image(s.mem, s.hist, cap) && AllFit(Program(job, |s.hist|, cap), cap)
    requires done <= |Program(job, |s.hist|, cap)|
    ensures AllFit(Program(job, |s.hist|, cap)[..done], cap)
    ensures Reachable(Underway(s, job, done, cap), cap, default)
    decreases done
  {
    hide Program, ExecAll, Exec, Fits, Reachable, Represents, FlagExact;
    var prog := Program(job, |s.hist|, cap);
    if done == 0 {
      ExecNone(s.mem, cap);
      assert prog[..0] == [];
      ReachableStep(s, Start(job), cap, default);
    } else {
      ReachableUnderway(s, job, done - 1, cap, default);
      OneMore(s.mem, prog, done - 1, cap);
      ReachableStep(Underway(s, job, done - 1, cap), OneStep, cap, default);
    }
  }

  /** A whole operation of the producer, all steps and the publication. */
  lemma ReachableJob<T(!new)>(s: System<T>, job: Job<T>, cap: nat, default: T)
    requires cap > 0 && Reachable(s, cap, default) && Enabled(s, Start(job), cap)
    ensures Sized(s.mem, cap) && AllFit(Program(job, |s.hist|, cap), cap)
    ensures Reachable(s.(mem := ExecAll(s.mem, Program(job, |s.hist|, cap), cap), hist := s.hist + job.Cells()), cap, default)
  {
    hide Program, ExecAll, AllFit, Reachable, Represents, ReaderInv;
    ReachableInv(s, cap, default);
    ProgramResult(s.mem, s.hist, job, cap);
    var prog := Program(job, |s.hist|, cap);
    ReachableUnderway(s, job, |prog|, cap, default);
    assert prog[..|prog|] == prog;
    ReachableStep(Underway(s, job, |prog|, cap), Publish, cap, default);
  }

  /** A write of `cap` samples `b`. */
  ghost function Lap<T>(b: T, cap: nat): Job<T> {
    Commit(seq(cap, _ => b), seq(cap, _ => Sample(b)))
  }

  /** A reader that holds the sample `a`, and an operation that the rule forbids and that would turn
      what the reader holds into `b`. */
  ghost predicate Overrun<T>(s: System<T>, job: Job<T>, a: T, b: T, cap: nat)
    requires cap > 0
  {
    && s.running == None && s.reader.Some? && s.reader.value.pieces == [Borrowed(0, 1)]
    && !Enabled(s, Start(job), cap)
    && Sized(s.mem, cap) && job.Proper(cap) && AllFit(Program(job, |s.hist|, cap), cap)
    && Visible(s.mem, cap, s.reader.value.pieces) == [Data([a])]
    && Visible(ExecAll(s.mem, Program(job, |s.hist|, cap), cap), cap, s.reader.value.pieces) == [Data([b])]
  }

  /** In every ring a run leads to such a reader: nothing but the rule keeps the producer from
      overwriting what a live reader has been handed. */
  lemma OverrunIsSeen<T(!new)>(a: T, b: T, cap: nat, default: T)
    requires cap > 0
    ensures exists s: System<T> :: Reachable(s, cap, default) && Overrun(s, Lap(b, cap), a, b, cap)
  {
    hide Program, ExecAll, AllFit, Reachable, Inv, Slot, Newest, NextGap;
    var s := HoldingReader(a, cap, default);
    var job := Lap(b, cap);
    ReachableInv(s, cap, default);
    RestImage(s, cap);
    forall i | 0 <= i < cap ensures Slot(i, cap) == i { SlotSmall(i, cap); }
    RuleIsNeeded(s.mem, s.hist, job, 0, cap);
    var m := ExecAll(s.mem, Program(job, |s.hist|, cap), cap);
    assert (s.hist + job.Cells())[Newest(0, cap + 1, cap)] == Sample(b);
    SlotSmall(0, cap);
    assert WindowOf(m, cap, 0, 1) == [b];
    assert Visible(m, cap, [Borrowed(0, 1)]) == [Data([b])];
    assert Overrun(s, job, a, b, cap);
  }

  lemma RestImage<T>(s: System<T>, cap: nat)
    requires Inv(s, cap) && s.running == None
    ensures Image(s.mem, s.hist, cap)
  {
  }

  /** A write of one sample, and a reader that takes it. */
  lemma HoldingReader<T(!new)>(a: T, cap: nat, default: T) returns (s: System<T>)
    requires cap > 0
    ensures Reachable(s, cap, default) && s.running == None && s.hist == [Sample(a)] && s.readHead == 0
    ensures s.reader.Some? && s.reader.value.pieces == [Borrowed(0, 1)]
    ensures Sized(s.mem, cap) && Visible(s.mem, cap, [Borrowed(0, 1)]) == [Data([a])]
  {
    hide Program, ExecAll, AllFit, Reachable, Inv, Slot, Visible;
    var s0 := Initial(cap, default);
    assert Reachable(s0, cap, default) by { InitialReachable(cap, default); }
    var job := Commit([a], [Sample(a)]);
    SlotSmall(0, cap);
    ReachableJob(s0, job, cap, default);
    var s1 := s0.(mem := ExecAll(s0.mem, Program(job, 0, cap), cap), hist := [Sample(a)]);
    assert s0.hist + job.Cells() == s1.hist;
    ReachableStep(s1, Open(1, false), cap, default);
    var s2 := Apply(s1, Open(1, false), cap);
    s := TakingReader(s2, a, cap, default);
  }

  lemma TakingReader<T(!new)>(s0: System<T>, a: T, cap: nat, default: T) returns (s: System<T>)
    requires cap > 0 && Reachable(s0, cap, default) && s0.running == None && s0.hist == [Sample(a)] && s0.readHead == 0
    requires s0.reader == Some(Opened([Sample(a)], 0, cap, 1, false))
    ensures Reachable(s, cap, default) && s.running == None && s.hist == [Sample(a)] && s.readHead == 0
    ensures s.reader.Some? && s.reader.value.pieces == [Borrowed(0, 1)]
    ensures Sized(s.mem, cap) && Visible(s.mem, cap, [Borrowed(0, 1)]) == [Data([a])]
  {
    hide Reachable, Inv, Slot, Visible;
    ReachableInv(s0, cap, default);
    assert Sized(s0.mem, cap) by { InvSized(s0, cap); }
    ReachableStep(s0, Peek(1), cap, default);
    var s1 := Apply(s0, Peek(1), cap);
    ReachableInv(s1, cap, default);
    OneSeen(s1, a, cap);
    ReachableStep(s1, TakeHeld, cap, default);
    s := Apply(s1, TakeHeld, cap);
    ReachableInv(s, cap, default);
    OneHeld(s, a, cap);
  }

  lemma InvSized<T>(s: System<T>, cap: nat)
    requires Inv(s, cap)
    ensures Sized(s.mem, cap)
  {
  }

  lemma InitialReachable<T(!new)>(cap: nat, default: T)
    requires cap > 0
    ensures Reachable(Initial(cap, default), cap, default)
  {
    assert IsRun([Initial(cap, default)], cap, default);
  }

  lemma OneSeen<T>(s: System<T>, a: T, cap: nat)
    requires Inv(s, cap) && s.reader.Some?
    requires s.reader.value.snapshot == [Sample(a)] && s.reader.value.cursor == 0 && |s.reader.value.seen| == 1
    ensures FirstPiece(0, s.reader.value.seen) == Borrowed(0, 1)
  {
    hide ProducerInv, Counters, Answers;
    var seen := s.reader.value.seen;
    assert !seen[0];
    NoGap(seen, 0, 1);
  }

  lemma OneHeld<T>(s: System<T>, a: T, cap: nat)
    requires Inv(s, cap) && s.reader.Some?
    requires s.reader.value.snapshot == [Sample(a)] && s.reader.value.pieces == [Borrowed(0, 1)]
    ensures Sized(s.mem, cap) && 1 <= cap && Visible(s.mem, cap, [Borrowed(0, 1)]) == [Data([a])]
  {
    hide ProducerInv, Counters, Answers;
    var piece := Borrowed(0, 1);
    assert piece == s.reader.value.pieces[0];
    assert Inside(piece, s.reader.value.base, s.reader.value.limit);
    PieceVisible(s, cap, piece);
    assert SamplesOf(s.reader.value.snapshot, 0, 1) == [a];
  }
}
