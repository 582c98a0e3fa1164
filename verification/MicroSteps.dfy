/** The producer's operations as sequences of single stores to the memory it shares with the reader:
    one cell, one word of the bitmap, or the bitmap's flag at a time. The memory is the doubled
    vector, where the halves differ while a write is under way. */
module MicroSteps {
  import opened Naturals
  import opened Slots
  import opened GapMarks
  import opened Timeline
  import opened RingImage
  import opened RingStorageModel

  datatype Memory<T> = Memory(cells: seq<T>, marks: Marks, empty: bool)

  datatype Micro<T> =
    | Store(at: nat, value: T)
    | Mirror(dst: nat, src: nat)
    /** One word of the bitmap, masked to `[lo, hi)`. */
    | PutWord(lo: nat, hi: nat, v: bool)
    | LowerFlag
    /** Raises the flag if no word is set. */
    | Rescan

  /** What a write or a skip is about to add. */
  datatype Job<T> = Commit(src: seq<T>, added: seq<Cell<T>>) | Skip(size: nat)
  {
    function Size(): nat {
      match this
      case Commit(_, added) => |added|
      case Skip(n) => n
    }

    function Cells(): seq<Cell<T>> {
      match this
      case Commit(_, added) => added
      case Skip(n) => seq(n, _ => Hole)
    }

    /** The number of slots it touches. */
    function Touched(cap: nat): nat {
      if Size() <= cap then Size() else cap
    }

    ghost predicate Proper(cap: nat)
      requires cap > 0
    {
      Commit? ==>
        && |src| == Touched(cap)
        && forall i :: Oldest(|added|, cap) <= i < |added| ==>
             Slot(i, cap) < |src| && added[i] == Sample(src[Slot(i, cap)])
    }
  }

  ghost predicate Sized<T>(m: Memory<T>, cap: nat) {
    0 < cap == |m.marks| && |m.cells| == 2 * cap
  }

  predicate Fits<T>(a: Micro<T>, cap: nat) {
    match a
    case Store(at, _) => at < 2 * cap
    case Mirror(dst, src) => dst < 2 * cap && src < 2 * cap
    case PutWord(lo, hi, _) => lo <= hi <= cap
    case LowerFlag => true
    case Rescan => true
  }

  ghost function Exec<T>(m: Memory<T>, a: Micro<T>, cap: nat): (m': Memory<T>)
    requires Sized(m, cap) && Fits(a, cap)
    ensures Sized(m', cap)
  {
    match a
    case Store(at, v) => m.(cells := m.cells[at := v])
    case Mirror(dst, src) => m.(cells := m.cells[dst := m.cells[src]])
    case PutWord(lo, hi, v) => m.(marks := Filled(m.marks, lo, hi - lo, v))
    case LowerFlag => m.(empty := false)
    case Rescan => m.(empty := m.empty || true !in m.marks)
  }

  ghost predicate AllFit<T>(prog: seq<Micro<T>>, cap: nat) {
    forall i :: 0 <= i < |prog| ==> Fits(prog[i], cap)
  }

  ghost function ExecAll<T>(m: Memory<T>, prog: seq<Micro<T>>, cap: nat): (m': Memory<T>)
    requires Sized(m, cap) && AllFit(prog, cap)
    ensures Sized(m', cap)
  {
    if prog == [] then m
    else Exec(ExecAll(m, prog[..|prog| - 1], cap), prog[|prog| - 1], cap)
  }

  // The programs.

  ghost function Stores<T>(head: nat, src: seq<T>): seq<Micro<T>> {
    seq(|src|, k requires 0 <= k < |src| => Store(head + k, src[k]))
  }

  ghost function Mirrors<T>(dst: nat, from: nat, len: nat): seq<Micro<T>> {
    seq(len, k requires 0 <= k < len => Mirror(dst + k, from + k))
  }

  /** The words of the region `[start, end)`. */
  ghost function Words<T>(start: nat, end: nat, v: bool): seq<Micro<T>>
    requires start <= end
    decreases end - start
  {
    if start == end then []
    else
      var stop := (start / 64 + 1) * 64;
      var hi := if stop < end then stop else end;
      [PutWord(start, hi, v)] + Words(hi, end, v)
  }

  ghost function UnmarkProgram<T>(start: nat, len: nat): seq<Micro<T>> {
    if len == 0 then [] else Words(start, start + len, false) + [Rescan]
  }

  ghost function MarkProgram<T>(start: nat, len: nat): seq<Micro<T>> {
    if len == 0 then [] else Words(start, start + len, true) + [LowerFlag]
  }

  ghost function StoreProgram<T>(head: nat, src: seq<T>, cap: nat): seq<Micro<T>>
    requires head < cap && |src| <= cap
  {
    var end := head + |src|;
    Stores(head, src)
    + Mirrors(cap + head, head, Min(end, cap) - head)
    + (if end > cap then Mirrors(0, cap, end - cap) else [])
  }

  ghost function Program<T>(job: Job<T>, len: nat, cap: nat): seq<Micro<T>>
    requires cap > 0 && job.Proper(cap)
  {
    var head, n := Slot(len, cap), job.Touched(cap);
    var first := Min(cap - head, n);
    match job
    case Commit(src, _) =>
      StoreProgram(head, src, cap) + UnmarkProgram(head, first) + UnmarkProgram(0, n - first)
    case Skip(_) =>
      MarkProgram(head, first) + MarkProgram(0, n - first)
  }

  // Their footprint.

  /** `a` writes nothing but the `n` slots from `head` on. */
  ghost predicate Within<T>(a: Micro<T>, head: nat, n: nat, cap: nat)
    requires head < cap
  {
    && Fits(a, cap)
    && match a
       case Store(at, _) => Ahead(head, if at < cap then at else at - cap, cap) < n
       case Mirror(dst, _) => Ahead(head, if dst < cap then dst else dst - cap, cap) < n
       case PutWord(lo, hi, _) => forall i :: lo <= i < hi ==> Ahead(head, i, cap) < n
       case LowerFlag => true
       case Rescan => true
  }

  ghost predicate AllWithin<T>(prog: seq<Micro<T>>, head: nat, n: nat, cap: nat)
    requires head < cap
  {
    forall i :: 0 <= i < |prog| ==> Within(prog[i], head, n, cap)
  }

  lemma {:induction false} WordsWithin<T>(start: nat, end: nat, v: bool, head: nat, n: nat, cap: nat)
    requires head < cap && start <= end <= cap
    requires forall i :: start <= i < end ==> Ahead(head, i, cap) < n
    ensures AllWithin<T>(Words(start, end, v), head, n, cap)
    decreases end - start
  {
    if start < end {
      var stop := (start / 64 + 1) * 64;
      WordsWithin<T>(if stop < end then stop else end, end, v, head, n, cap);
    }
  }

  lemma WithinConcat<T>(a: seq<Micro<T>>, b: seq<Micro<T>>, head: nat, n: nat, cap: nat)
    requires head < cap && AllWithin(a, head, n, cap) && AllWithin(b, head, n, cap)
    ensures AllWithin(a + b, head, n, cap)
  {
    hide Within;
    forall i | 0 <= i < |a + b| ensures Within((a + b)[i], head, n, cap) {
      assert i >= |a| ==> (a + b)[i] == b[i - |a|];
    }
  }

  lemma StoresWithin<T>(head: nat, src: seq<T>, cap: nat)
    requires head < cap && |src| <= cap
    ensures AllWithin(StoreProgram(head, src, cap), head, |src|, cap)
  {
    hide Within;
    var end, n := head + |src|, |src|;
    var back := Mirrors<T>(cap + head, head, Min(end, cap) - head);
    var wrapped := if end > cap then Mirrors<T>(0, cap, end - cap) else [];
    forall i | 0 <= i < n ensures Within(Stores(head, src)[i], head, n, cap) {
      PlaceWithin(Store(head + i, src[i]), head, n, cap);
    }
    forall i | 0 <= i < |back| ensures Within(back[i], head, n, cap) {
      PlaceWithin<T>(Mirror(cap + head + i, head + i), head, n, cap);
    }
    forall i | 0 <= i < |wrapped| ensures Within(wrapped[i], head, n, cap) {
      PlaceWithin<T>(Mirror(i, cap + i), head, n, cap);
    }
    WithinConcat(Stores(head, src), back, head, n, cap);
    WithinConcat(Stores(head, src) + back, wrapped, head, n, cap);
  }

  /** A store in one of the three ranges of a write goes to one of its slots. */
  lemma PlaceWithin<T>(a: Micro<T>, head: nat, n: nat, cap: nat)
    requires head < cap && n <= cap
    requires match a
             case Store(at, _) => head <= at < head + n
             case Mirror(dst, src) =>
               || (cap + head <= dst < cap + head + n && dst < 2 * cap && src == dst - cap)
               || (dst < head + n - cap && src == dst + cap)
             case _ => false
    ensures Within(a, head, n, cap)
  {
  }

  lemma FillWithin<T>(start: nat, len: nat, head: nat, n: nat, cap: nat)
    requires head < cap && start + len <= cap
    requires forall i :: start <= i < start + len ==> Ahead(head, i, cap) < n
    ensures AllWithin(UnmarkProgram<T>(start, len), head, n, cap)
    ensures AllWithin(MarkProgram<T>(start, len), head, n, cap)
  {
    WordsWithin<T>(start, start + len, false, head, n, cap);
    WordsWithin<T>(start, start + len, true, head, n, cap);
    WithinConcat<T>(Words(start, start + len, false), [Rescan], head, n, cap);
    WithinConcat<T>(Words(start, start + len, true), [LowerFlag], head, n, cap);
  }

  lemma ProgramWithin<T>(job: Job<T>, len: nat, cap: nat)
    requires cap > 0 && job.Proper(cap)
    ensures AllWithin(Program(job, len, cap), Slot(len, cap), job.Touched(cap), cap)
  {
    hide Slot, Within, AllWithin, StoreProgram, UnmarkProgram, MarkProgram;
    var head, n := Slot(len, cap), job.Touched(cap);
    var first := Min(cap - head, n);
    FillWithin<T>(head, first, head, n, cap);
    FillWithin<T>(0, n - first, head, n, cap);
    match job
    case Commit(src, _) =>
      StoresWithin(head, src, cap);
      WithinConcat(StoreProgram(head, src, cap), UnmarkProgram(head, first), head, n, cap);
      WithinConcat(StoreProgram(head, src, cap) + UnmarkProgram(head, first), UnmarkProgram(0, n - first), head, n, cap);
    case Skip(_) =>
      WithinConcat<T>(MarkProgram(head, first), MarkProgram(0, n - first), head, n, cap);
  }

  /** Outside its footprint a program changes nothing at any point, and while it runs the flag never
      hides a mark that was there before. */
  lemma {:induction false} Untouched<T>(m: Memory<T>, prog: seq<Micro<T>>, head: nat, n: nat, cap: nat)
    requires Sized(m, cap) && head < cap
    requires AllWithin(prog, head, n, cap)
    requires m.empty ==> true !in m.marks
    ensures var m' := ExecAll(m, prog, cap);
            forall i :: 0 <= i < cap && Ahead(head, i, cap) >= n ==>
              && m'.cells[i] == m.cells[i] && m'.cells[i + cap] == m.cells[i + cap]
              && m'.marks[i] == m.marks[i]
              && (m'.empty ==> !m.marks[i])
    decreases |prog|
  {
    if prog != [] {
      Untouched(m, prog[..|prog| - 1], head, n, cap);
      var before := ExecAll(m, prog[..|prog| - 1], cap);
      var a := prog[|prog| - 1];
      assert Within(a, head, n, cap);
      ExecUntouched(before, a, head, n, cap);
    }
  }

  lemma ExecUntouched<T>(m: Memory<T>, a: Micro<T>, head: nat, n: nat, cap: nat)
    requires Sized(m, cap) && head < cap && Within(a, head, n, cap)
    ensures var m' := Exec(m, a, cap);
            forall i :: 0 <= i < cap && Ahead(head, i, cap) >= n ==>
              && m'.cells[i] == m.cells[i] && m'.cells[i + cap] == m.cells[i + cap]
              && m'.marks[i] == m.marks[i]
              && (m'.empty ==> m.empty || !m.marks[i])
  {
  }

  // Their outcome.

  /** The memory at rest: equal halves that stand for the history, the flag up exactly when no slot
      is marked. */
  ghost predicate Image<T>(m: Memory<T>, hist: seq<Cell<T>>, cap: nat) {
    && Sized(m, cap)
    && m.cells[cap..] == m.cells[..cap]
    && Represents(hist, cap, m.cells[..cap], m.marks)
    && FlagExact(m)
  }

  ghost predicate FlagExact<T>(m: Memory<T>) {
    m.empty <==> true !in m.marks
  }

  lemma {:induction false} ExecConcat<T>(m: Memory<T>, a: seq<Micro<T>>, b: seq<Micro<T>>, cap: nat)
    requires Sized(m, cap) && AllFit(a, cap) && AllFit(b, cap)
    ensures AllFit(a + b, cap)
    ensures ExecAll(m, a + b, cap) == ExecAll(ExecAll(m, a, cap), b, cap)
    decreases |b|
  {
    hide Exec, Fits;
    forall i | 0 <= i < |a + b| ensures Fits((a + b)[i], cap) {
      assert i >= |a| ==> (a + b)[i] == b[i - |a|];
    }
    if b == [] {
      assert a + b == a;
    } else {
      ExecConcat(m, a, b[..|b| - 1], cap);
      assert (a + b)[..|a + b| - 1] == a + b[..|b| - 1];
    }
  }

  lemma {:induction false} StoresEffect<T>(m: Memory<T>, head: nat, src: seq<T>, cap: nat)
    requires Sized(m, cap) && head + |src| <= 2 * cap
    ensures AllFit(Stores(head, src), cap)
    ensures ExecAll(m, Stores(head, src), cap) == m.(cells := m.cells[..head] + src + m.cells[head + |src|..])
    decreases |src|
  {
    if src == [] {
      assert m.cells[..head] + src + m.cells[head..] == m.cells;
    } else {
      var init := src[..|src| - 1];
      StoresEffect(m, head, init, cap);
      assert Stores(head, src)[..|src| - 1] == Stores(head, init);
    }
  }

  lemma {:induction false} MirrorsEffect<T>(m: Memory<T>, dst: nat, from: nat, len: nat, cap: nat)
    requires Sized(m, cap) && dst + len <= 2 * cap && from + len <= 2 * cap
    requires dst + len <= from || from + len <= dst
    ensures AllFit(Mirrors<T>(dst, from, len), cap)
    ensures ExecAll(m, Mirrors(dst, from, len), cap) == m.(cells := Copied(m.cells, dst, from, len))
    decreases len
  {
    hide Copied;
    if len == 0 {
      CopiedNothing(m.cells, dst, from);
    } else {
      MirrorsEffect(m, dst, from, len - 1, cap);
      assert Mirrors<T>(dst, from, len)[..len - 1] == Mirrors(dst, from, len - 1);
      CopiedOneMore(m.cells, dst, from, len);
    }
  }

  lemma CopiedOneMore<T>(s: seq<T>, dst: nat, from: nat, len: nat)
    requires 0 < len && dst + len <= |s| && from + len <= |s|
    requires dst + len <= from || from + len <= dst
    ensures var c := Copied(s, dst, from, len - 1);
            Copied(s, dst, from, len) == c[dst + len - 1 := c[from + len - 1]]
  {
  }

  lemma FillsJoin(s: Marks, start: nat, mid: nat, end: nat, v: bool)
    requires start <= mid <= end
    ensures Filled(Filled(s, start, mid - start, v), mid, end - mid, v) == Filled(s, start, end - start, v)
  {
  }

  lemma {:induction false} WordsEffect<T>(m: Memory<T>, start: nat, end: nat, v: bool, cap: nat)
    requires Sized(m, cap) && start <= end <= cap
    ensures AllFit(Words<T>(start, end, v), cap)
    ensures ExecAll(m, Words(start, end, v), cap) == m.(marks := Filled(m.marks, start, end - start, v))
    decreases end - start
  {
    hide ExecAll, Filled;
    if start == end {
      FilledNothing(m.marks, start, v);
      ExecNone(m, cap);
    } else {
      var stop := (start / 64 + 1) * 64;
      var hi := if stop < end then stop else end;
      var first: Micro<T> := PutWord(start, hi, v);
      var m1 := Exec(m, first, cap);
      ExecOne(m, first, cap);
      WordsEffect(m1, hi, end, v, cap);
      ExecConcat(m, [first], Words(hi, end, v), cap);
      FillsJoin(m.marks, start, hi, end, v);
    }
  }

  lemma ExecNone<T>(m: Memory<T>, cap: nat)
    requires Sized(m, cap)
    ensures AllFit<T>([], cap) && ExecAll(m, [], cap) == m
  {
  }

  /** A fill leaves the flag exact. */
  lemma UnmarkEffect<T>(m: Memory<T>, start: nat, len: nat, cap: nat)
    requires Sized(m, cap) && start + len <= cap && FlagExact(m)
    ensures AllFit(UnmarkProgram<T>(start, len), cap)
    ensures var u := ExecAll(m, UnmarkProgram(start, len), cap);
            u.cells == m.cells && u.marks == Filled(m.marks, start, len, false) && FlagExact(u)
  {
    hide ExecAll, AllFit;
    if len == 0 {
      FilledNothing(m.marks, start, false);
      ExecNone(m, cap);
    } else {
      WordsEffect(m, start, start + len, false, cap);
      var m1 := ExecAll(m, Words(start, start + len, false), cap);
      ExecOne<T>(m1, Rescan, cap);
      ExecConcat<T>(m, Words(start, start + len, false), [Rescan], cap);
      if m.empty {
        FilledAgain(m.marks, start, len);
      }
    }
  }

  lemma MarkEffect<T>(m: Memory<T>, start: nat, len: nat, cap: nat)
    requires Sized(m, cap) && start + len <= cap && FlagExact(m)
    ensures AllFit(MarkProgram<T>(start, len), cap)
    ensures var u := ExecAll(m, MarkProgram(start, len), cap);
            u.cells == m.cells && u.marks == Filled(m.marks, start, len, true) && FlagExact(u)
  {
    hide ExecAll, AllFit;
    if len == 0 {
      FilledNothing(m.marks, start, true);
      ExecNone(m, cap);
    } else {
      WordsEffect(m, start, start + len, true, cap);
      var m1 := ExecAll(m, Words(start, start + len, true), cap);
      ExecOne<T>(m1, LowerFlag, cap);
      ExecConcat<T>(m, Words(start, start + len, true), [LowerFlag], cap);
      assert Filled(m.marks, start, len, true)[start];
    }
  }

  lemma ExecOne<T>(m: Memory<T>, a: Micro<T>, cap: nat)
    requires Sized(m, cap) && Fits(a, cap)
    ensures AllFit([a], cap) && ExecAll(m, [a], cap) == Exec(m, a, cap)
  {
    assert [a][..0] == [];
  }

  lemma StoredInDouble<T>(cells: seq<T>, cap: nat, head: nat, src: seq<T>)
    requires |cells| == 2 * cap && head < cap && |src| <= cap && cells[cap..] == cells[..cap]
    ensures cells[..head] + src + cells[head + |src|..] == StoredOver(cells[..cap], head, src)
  {
    forall i | cap <= i < 2 * cap ensures cells[i] == cells[..cap][i - cap] {
      assert cells[i] == cells[cap..][i - cap];
    }
  }

  /** Storing and copying across, one cell at a time, overwrites the slots in both halves. */
  lemma StoreEffect<T>(m: Memory<T>, head: nat, src: seq<T>, cap: nat)
    requires Sized(m, cap) && head < cap && |src| <= cap && m.cells[cap..] == m.cells[..cap]
    ensures AllFit(StoreProgram(head, src, cap), cap)
    ensures var u := ExecAll(m, StoreProgram(head, src, cap), cap);
            && u == m.(cells := u.cells)
            && u.cells[..cap] == Overwritten(m.cells[..cap], head, src) && u.cells[cap..] == u.cells[..cap]
  {
    hide Copied, Overwritten, ExecAll, AllFit, Stores, Mirrors, StoredOver;
    var end := head + |src|;
    var len := Min(end, cap) - head;
    var phys := m.cells[..cap];
    StoresEffect(m, head, src, cap);
    var m1 := ExecAll(m, Stores(head, src), cap);
    StoredInDouble(m.cells, cap, head, src);
    MirrorsEffect(m1, cap + head, head, len, cap);
    ExecConcat(m, Stores(head, src), Mirrors(cap + head, head, len), cap);
    var m2 := ExecAll(m1, Mirrors(cap + head, head, len), cap);
    if end > cap {
      MirrorsEffect(m2, 0, cap, end - cap, cap);
      ExecConcat(m, Stores(head, src) + Mirrors(cap + head, head, len), Mirrors(0, cap, end - cap), cap);
    } else {
      assert StoreProgram(head, src, cap) == Stores(head, src) + Mirrors(cap + head, head, len);
    }
    var u := ExecAll(m, StoreProgram(head, src, cap), cap);
    assert u.cells == SyncedMemory(phys, head, src);
    CopiedAcross(u.cells, phys, head, src);
  }

  lemma CommitResult<T>(m: Memory<T>, hist: seq<Cell<T>>, job: Job<T>, cap: nat)
    requires Image(m, hist, cap) && job.Proper(cap) && job.Commit?
    ensures AllFit(Program(job, |hist|, cap), cap)
    ensures Image(ExecAll(m, Program(job, |hist|, cap), cap), hist + job.Cells(), cap)
  {
    hide Slot, Represents, StoreProgram, UnmarkProgram, Overwritten, FilledAround, Filled, FlagExact, ExecAll, AllFit;
    var head, n := Slot(|hist|, cap), job.Touched(cap);
    var first := Min(cap - head, n);
    FilledTwice(m.marks, head, n, false);
    StoreEffect(m, head, job.src, cap);
    var m1 := ExecAll(m, StoreProgram(head, job.src, cap), cap);
    SameFlag(m, m1);
    UnmarkEffect(m1, head, first, cap);
    var m2 := ExecAll(m1, UnmarkProgram(head, first), cap);
    ExecConcat(m, StoreProgram(head, job.src, cap), UnmarkProgram(head, first), cap);
    UnmarkEffect(m2, 0, n - first, cap);
    ExecConcat(m, StoreProgram(head, job.src, cap) + UnmarkProgram(head, first), UnmarkProgram(0, n - first), cap);
    CommitRepresents(hist, cap, m.cells[..cap], m.marks, job.src, job.added);
  }

  lemma SkipResult<T>(m: Memory<T>, hist: seq<Cell<T>>, job: Job<T>, cap: nat)
    requires Image(m, hist, cap) && job.Proper(cap) && job.Skip?
    ensures AllFit(Program(job, |hist|, cap), cap)
    ensures Image(ExecAll(m, Program(job, |hist|, cap), cap), hist + job.Cells(), cap)
  {
    hide Slot, Represents, MarkProgram, FilledAround, Filled, FlagExact, ExecAll, AllFit;
    var head, n := Slot(|hist|, cap), job.Touched(cap);
    var first := Min(cap - head, n);
    FilledTwice(m.marks, head, n, true);
    MarkEffect(m, head, first, cap);
    var m1 := ExecAll(m, MarkProgram(head, first), cap);
    MarkEffect(m1, 0, n - first, cap);
    ExecConcat<T>(m, MarkProgram(head, first), MarkProgram(0, n - first), cap);
    AdvanceRepresents(hist, cap, m.cells[..cap], m.marks, job.size);
  }

  /** A program run to its end extends the history that the memory stands for. */
  lemma ProgramResult<T>(m: Memory<T>, hist: seq<Cell<T>>, job: Job<T>, cap: nat)
    requires Image(m, hist, cap) && job.Proper(cap)
    ensures AllFit(Program(job, |hist|, cap), cap)
    ensures Image(ExecAll(m, Program(job, |hist|, cap), cap), hist + job.Cells(), cap)
  {
    hide Image, Program, ExecAll, AllFit;
    if job.Commit? {
      CommitResult(m, hist, job, cap);
    } else {
      SkipResult(m, hist, job, cap);
    }
  }

  lemma SameFlag<T>(a: Memory<T>, b: Memory<T>)
    requires a.marks == b.marks && a.empty == b.empty && FlagExact(a)
    ensures FlagExact(b)
  {
  }
}
