/** The ring buffer and its lazy segment iterator over arrays, refined to the unbounded history. */
module RingBufferModel {
  import opened Options
  import opened Naturals
  import opened Slots
  import Capacity
  import opened GapMarks
  import opened BitmapModel
  import opened Timeline
  import opened RingImage
  import opened RingStorageModel
  import opened Reports

  datatype WriteReport = Complete | Partial(written: nat)

  datatype RingStats = RingStats(
    capacity: nat, written: nat, consumed: nat, readable: nat, overflow: nat, underflow: nat)

  class RingBuffer<T> {
    const ring: RingStorage<T>
    const gaps: Bitmap
    const capacity: nat
    const mask: nat
    const default: T
    var writeHead: nat
    var readHead: nat
    /** Every position ever written or skipped. */
    ghost var hist: seq<Cell<T>>

    ghost predicate Valid()
      reads this, gaps, gaps.words, ring.cells
    {
      && Separate()
      && ring.Valid() && ring.Mirrored() && ring.cap == capacity
      && gaps.Valid() && gaps.capacity == capacity
      && IsPowerOfTwo(capacity) && mask == capacity - 1
      && writeHead == |hist|
      && Represents(hist, capacity, ring.Base(), gaps.Contents())
    }

    /** The two arrays are different objects. */
    ghost predicate Separate() {
      var a: object, b: object := gaps.words, ring.cells;
      a != b
    }

    /** Any size is rounded up to a power of two. */
    constructor (size: nat, kernelMirror: bool, default: T)
      ensures Valid() && fresh(ring) && fresh(ring.cells) && fresh(gaps) && fresh(gaps.words)
      ensures capacity == Capacity.UnsplitCapacity(size) && this.default == default
      ensures hist == [] && readHead == 0
    {
      var rounded := Capacity.UnsplitCapacity(size);
      ring := new RingStorage(rounded, kernelMirror, default);
      gaps := new Bitmap(rounded);
      capacity := rounded;
      mask := rounded - 1;
      this.default := default;
      writeHead, readHead := 0, 0;
      hist := [];
    }

    function RingIndex(logical: nat): (i: nat)
      requires IsPowerOfTwo(capacity) && mask == capacity - 1
      ensures i == Slot(logical, capacity)
    {
      MaskIsRemainder(logical, capacity);
      BitwiseAnd(logical, mask)
    }

    /** Publishes what has been stored: `written` samples from the slot of the write head on, the
        head moving by `advance`. */
    method WriteCommitAdvance(written: nat, advance: nat,
                              ghost phys: seq<T>, ghost src: seq<T>, ghost added: seq<Cell<T>>)
      requires Separate()
      requires ring.Valid() && ring.cap == capacity && gaps.Valid() && gaps.capacity == capacity
      requires IsPowerOfTwo(capacity) && mask == capacity - 1 && writeHead == |hist|
      requires |phys| == capacity && Represents(hist, capacity, phys, gaps.Contents())
      requires |src| == written == if advance <= capacity then advance else capacity
      requires ring.Pending(phys, Slot(writeHead, capacity), src)
      requires |added| == advance
      requires forall i :: Oldest(advance, capacity) <= i < advance ==>
                 Slot(i, capacity) < |src| && added[i] == Sample(src[Slot(i, capacity)])
      modifies this`writeHead, this`hist, gaps, gaps.words, ring.cells
      ensures Valid()
      ensures hist == old(hist) + added
    {
      hide Slot, RingStorage.Pending, FilledAround, Overwritten, Represents, Filled, Bitmap.Valid, Bitmap.Contents;
      var cap := capacity;
      var head := RingIndex(writeHead);
      ghost var marks := gaps.Contents();

      ring.SyncMirrorRange(head, written, phys, src);

      var firstLen := Min(cap - head, written);
      var secondLen := written - firstLen;
      gaps.UnmarkRegion(head, firstLen);
      gaps.UnmarkRegion(0, secondLen);
      FilledTwice(marks, head, written, false);
      CommitRepresents(hist, cap, phys, marks, src, added);

      writeHead := writeHead + advance;
      hist := hist + added;
    }

    method Write(input: seq<T>) returns (report: WriteReport)
      requires Valid()
      modifies this`writeHead, this`hist, gaps, gaps.words, ring.cells
      ensures Valid()
      ensures hist == old(hist) + WrittenAs(input, capacity)
      ensures report == if |input| <= capacity then Complete else Partial(capacity)
    {
      hide Slot, RingStorage.Pending, Represents, Bitmap.Valid, Bitmap.Contents;
      var cap := capacity;
      var total := |input|;
      if total == 0 {
        assert WrittenAs(input, cap) == [];
        return Complete;
      }
      var phys := Min(total, cap);
      var src := input[total - phys..];
      ghost var base := ring.Base();

      ring.CopyIn(RingIndex(writeHead), src);
      TailIsWritten(input, cap);
      WriteCommitAdvance(phys, total, base, src, WrittenAs(input, cap));

      return if phys < total then Partial(phys) else Complete;
    }

    method WriteDefault(repeat: nat)
      requires Valid()
      modifies this`writeHead, this`hist, gaps, gaps.words, ring.cells
      ensures Valid()
      ensures hist == old(hist) + seq(repeat, _ => Sample(default))
    {
      hide Slot, RingStorage.Pending, Represents, Bitmap.Valid, Bitmap.Contents;
      if repeat == 0 {
        return;
      }
      var written := Min(repeat, capacity);
      var src := seq(written, _ => default);
      ghost var base := ring.Base();
      ring.CopyIn(RingIndex(writeHead), src);
      forall i | 0 <= i < repeat ensures Slot(i, capacity) < written {
        SlotSmallIfFits(i, repeat, capacity);
      }
      WriteCommitAdvance(written, repeat, base, src, seq(repeat, _ => Sample(default)));
    }

    method AdvanceTimeline(size: nat)
      requires Valid()
      modifies this`writeHead, this`hist, gaps, gaps.words
      ensures Valid()
      ensures hist == old(hist) + seq(size, _ => Hole)
    {
      hide Slot, FilledAround, Represents, Filled, Bitmap.Valid, Bitmap.Contents;
      var cap := capacity;
      if size == 0 {
        return;
      }
      var mark := Min(size, cap);
      var start := RingIndex(writeHead);
      ghost var marks := gaps.Contents();
      var firstLen := Min(cap - start, mark);
      var secondLen := mark - firstLen;

      gaps.MarkRegion(start, firstLen);
      gaps.MarkRegion(0, secondLen);
      FilledTwice(marks, start, mark, true);
      AdvanceRepresents(hist, cap, ring.Base(), marks, size);

      writeHead := writeHead + size;
      hist := hist + seq(size, _ => Hole);
    }

    /** `readable` is what reads without underflow can still cover, `overflow` how much of that is
        reported as lost, and `underflow` how far the reads have run ahead of the writes. */
    method Stat() returns (stats: RingStats)
      requires Valid()
      ensures forall n :: Covered(|hist|, readHead, n, false) == Min(n, stats.readable)
      ensures stats.overflow == Count(Window(hist, capacity, readHead, stats.readable), OverflowKind)
      ensures readHead + stats.readable == |hist| + stats.underflow && (stats.readable == 0 || stats.underflow == 0)
      ensures stats == RingStats(capacity, |hist|, readHead, Minus(|hist|, readHead),
                                 Minus(Oldest(|hist|, capacity), readHead), Minus(readHead, |hist|))
    {
      hide Window, Count, Represents, Bitmap.Valid, Bitmap.Contents;
      LostComeFirst(hist, capacity, readHead, Minus(|hist|, readHead));
      stats := RingStats(capacity, writeHead, readHead, Minus(writeHead, readHead),
                         Minus(Minus(writeHead, capacity), readHead), Minus(readHead, writeHead));
    }

    /** The first hole of a stretch of the timeline that the ring still holds, and the length of
        its run inside the stretch; a run that the end of the ring splits is joined. */
    method SearchGapAbs(startAbs: nat, len: nat) returns (r: Option<(nat, nat)>)
      requires Valid()
      requires Oldest(|hist|, capacity) <= startAbs && startAbs + len <= |hist|
      ensures r == NextGap(Holes(hist), startAbs, len)
    {
      hide Slot, NextGap, Holes, Represents, Bitmap.Valid, Bitmap.Contents;
      var cap := capacity;
      var start := RingIndex(startAbs);
      var firstLen := Min(len, cap - start);
      SearchOfRing(hist, cap, ring.Base(), gaps.Contents(), startAbs, len);

      var gap := gaps.SearchNextGap(start, firstLen);
      if gap.Some? {
        var (gapStart, gapLen) := gap.value;
        var absStart := startAbs + (gapStart - start);
        if gapStart + gapLen == cap && len > firstLen {
          var next := gaps.SearchNextGap(0, len - firstLen);
          if next.Some? && next.value.0 == 0 {
            gapLen := gapLen + next.value.1;
          }
        }
        return Some((absStart, gapLen));
      }
      if len > firstLen {
        var next := gaps.SearchNextGap(0, len - firstLen);
        if next.Some? {
          return Some((startAbs + firstLen + next.value.0, next.value.1));
        }
      }
      return None;
    }

    /** Lazily reads a snapshot of the timeline. */
    method IterSegments(requested: nat, emitUnderflow: bool) returns (it: RingSegments<T>)
      requires Valid()
      ensures fresh(it) && it.ring == this && it.Valid()
      ensures it.snapshot == hist && it.consumed == 0
      ensures it.Rest() == Window(hist, capacity, readHead, Covered(|hist|, readHead, requested, emitUnderflow))
    {
      it := new RingSegments(this, requested, emitUnderflow);
    }

    method ReadCommit(read: nat)
      requires Valid()
      modifies this`readHead
      ensures Valid()
      ensures readHead == old(readHead) + read
    {
      if read == 0 {
        return;
      }
      readHead := readHead + read;
    }

    /** Reads with a callback, here the list of what it was given. */
    method ReadSegments(requested: nat, emitUnderflow: bool) returns (segs: seq<Segment<T>>)
      requires Valid()
      modifies this`readHead
      ensures Valid()
      ensures segs == Runs(Window(hist, capacity, old(readHead), Covered(|hist|, old(readHead), requested, emitUnderflow)))
      ensures readHead == old(readHead) + Covered(|hist|, old(readHead), requested, emitUnderflow)
    {
      hide Runs, Window, RingBuffer.Valid, RingSegments.Valid;
      ghost var all := Window(hist, capacity, readHead, Covered(|hist|, readHead, requested, emitUnderflow));
      var it := IterSegments(requested, emitUnderflow);
      segs := [];
      while true
        invariant fresh(it) && it.ring == this && it.Valid()
        invariant readHead == old(readHead) && hist == old(hist)
        invariant Runs(all) == segs + Runs(it.Rest())
        invariant it.consumed + |it.Rest()| == |all|
        decreases |it.Rest()|
      {
        var next := it.Next();
        if next == None {
          break;
        }
        segs := segs + [next.value];
      }
      RunsOfNothing<T>();
      it.Drop();
    }

    /** Copies the next `|out|` positions of the timeline out, and says what was missing. */
    method Read(out: array<T>) returns (result: Result<(), XRunReport>)
      requires Valid()
      requires out != ring.cells && OtherThan(out)
      modifies this`readHead, out
      ensures Valid()
      ensures readHead == old(readHead) + out.Length
      ensures var v := Window(hist, capacity, old(readHead), out.Length);
              && out[..] == Delivered(v, old(out[..]))
              && result == var r := ReportOf(v);
                           if r.overflow == 0 && r.underflow == 0 then Ok(()) else Err(r)
    {
      hide Runs, Window, Count, Delivered, Progress, Expand, Emitted, RingBuffer.Valid, RingSegments.Valid;
      var requested := out.Length;
      ghost var v := Window(hist, capacity, readHead, requested);
      ghost var before := out[..];
      ProgressStart(v, before);
      if requested == 0 {
        ProgressEnd(v, before, before, 0, 0, 0);
        return Ok(());
      }
      var copied: nat, overflow: nat, underflow: nat, cursor: nat := 0, 0, 0, 0;

      var it := IterSegments(requested, true);
      while true
        invariant fresh(it) && it.ring == this && it.Valid()
        invariant readHead == old(readHead) && hist == old(hist)
        invariant it.consumed == cursor <= requested && it.Rest() == v[cursor..]
        invariant Progress(v, before, cursor, out[..], overflow, copied, underflow)
        decreases |it.Rest()|
      {
        var next := it.Next();
        if next == None {
          break;
        }
        var segment := next.value;
        var len := segment.Len();
        SegmentAt(v, cursor, segment, it.Rest());
        ProgressStep(v, before, cursor, out[..], overflow, copied, underflow, segment);
        Emit(segment, out, cursor);
        match segment {
          case Data(_) => copied := copied + len;
          case Overflow(n) => overflow := overflow + n;
          case Gap(n) => underflow := underflow + n;
          case Underflow(n) => underflow := underflow + n;
        }
        cursor := cursor + len;
      }
      it.Drop();
      ProgressEnd(v, before, out[..], overflow, copied, underflow);

      return if overflow == 0 && underflow == 0 then Ok(()) else Err(XRunReport(overflow, copied, underflow));
    }

    /** The output is not the gap bitmap. */
    ghost predicate OtherThan(out: array<T>) {
      var a: object, b: object := gaps.words, out;
      a != b
    }
  }

  /** The lazy reader: what it has yielded is committed when it is dropped. */
  class RingSegments<T> {
    const ring: RingBuffer<T>
    var cursor: nat
    var overflow: nat
    var readable: nat
    var underflow: nat
    var consumed: nat
    /** The timeline and the read position when the reader was made. */
    ghost const snapshot: seq<Cell<T>>
    ghost const start: nat

    ghost predicate Valid()
      reads this, ring, ring.gaps, ring.gaps.words, ring.ring.cells
    {
      && ring.Valid()
      && ring.readHead == start
      && Undisturbed()
      && Counters()
    }

    /** Writes that happened since the reader was made have overwritten nothing it may still yield. */
    ghost predicate Undisturbed()
      reads ring
    {
      && snapshot <= ring.hist
      && (snapshot == ring.hist || |ring.hist| <= start + ring.capacity)
    }

    ghost predicate Counters()
      reads this, ring
    {
      var oldest := Oldest(|snapshot|, ring.capacity);
      && (overflow + readable > 0 ==> cursor == start + consumed + overflow)
      && (overflow > 0 ==> start + consumed + overflow <= oldest)
      && (overflow > 0 && readable + underflow > 0 ==> start + consumed + overflow == oldest)
      && (readable > 0 ==> oldest <= cursor && cursor + readable <= |snapshot|)
      && (readable > 0 && underflow > 0 ==> cursor + readable == |snapshot|)
      && (underflow > 0 ==> |snapshot| <= start + consumed + overflow + readable)
    }

    /** What is still to be yielded, sample by sample. */
    ghost function Rest(): seq<View<T>>
      reads this, ring
    {
      Window(snapshot, ring.capacity, start + consumed, overflow + readable + underflow)
    }

    constructor (ring: RingBuffer<T>, requested: nat, emitUnderflow: bool)
      requires ring.Valid()
      ensures this.ring == ring && Valid()
      ensures snapshot == ring.hist && start == ring.readHead && consumed == 0
      ensures Rest() == Window(ring.hist, ring.capacity, ring.readHead,
                               Covered(|ring.hist|, ring.readHead, requested, emitUnderflow))
    {
      hide Represents, Window, Bitmap.Valid, Bitmap.Contents;
      var read := ring.readHead;
      var write := ring.writeHead;
      var lost := Min(Minus(Minus(write, ring.capacity), read), requested);
      var remaining := requested - lost;
      var held := Min(Min(Minus(write, read + lost), ring.capacity), remaining);
      this.ring := ring;
      cursor := read + lost;
      overflow := lost;
      readable := held;
      underflow := if emitUnderflow then remaining - held else 0;
      consumed := 0;
      snapshot := ring.hist;
      start := read;
    }

    method Next() returns (r: Option<Segment<T>>)
      requires Valid()
      modifies this
      ensures Valid()
      ensures r == None <==> old(Rest()) == []
      ensures r == None ==> Rest() == old(Rest()) && consumed == old(consumed)
      ensures r.Some? ==> Runs(old(Rest())) == [r.value] + Runs(Rest())
      ensures r.Some? ==> old(Rest()) == Expand(r.value) + Rest()
      ensures r.Some? ==> 0 < r.value.Len() && |old(Rest())| == r.value.Len() + |Rest()|
      ensures r.Some? ==> consumed == old(consumed) + r.value.Len()
    {
      hide Runs, Slot, Represents, Expand, Window, Bitmap.Valid, Bitmap.Contents;
      var segment: Segment<T>;
      if overflow > 0 {
        LostRun(snapshot, ring.capacity, start + consumed, overflow, readable + underflow);
        segment := Overflow(overflow);
        overflow := 0;
      } else if readable > 0 {
        segment := NextHeld();
        cursor := cursor + segment.Len();
        readable := readable - segment.Len();
      } else if underflow > 0 {
        LateRun(snapshot, ring.capacity, start + consumed, underflow);
        RunsOfNothing<T>();
        segment := Underflow(underflow);
        underflow := 0;
      } else {
        return None;
      }
      consumed := consumed + segment.Len();
      RunsHead(old(Rest()), segment, Rest());
      return Some(segment);
    }

    /** `size_hint`: bounds on the number of segments still to come. The lost and the late part are one
        segment each, if there are any; the held part is at least one and at most one per position. */
    method SizeHint() returns (lower: nat, upper: nat)
      requires Valid()
      ensures lower <= |Runs(Rest())| <= upper
      ensures var v := Rest();
              var lost, held := Count(v, OverflowKind), Count(v, DataKind) + Count(v, GapKind);
              var ends := Min(lost, 1) + Min(Count(v, UnderflowKind), 1);
              lower == ends + Min(held, 1) && upper == ends + held
    {
      hide Runs, Count, Window, RingBuffer.Valid;
      PartCounts(snapshot, ring.capacity, start + consumed, overflow, readable, underflow);
      PartSegments(snapshot, ring.capacity, start + consumed, overflow, readable, underflow);
      var fixed := (if overflow > 0 then 1 else 0) + (if underflow > 0 then 1 else 0);
      lower := fixed + if readable > 0 then 1 else 0;
      upper := fixed + readable;
    }

    /** The next segment of what the ring still holds. */
    method NextHeld() returns (segment: Segment<T>)
      requires Valid() && overflow == 0 && readable > 0
      ensures 0 < segment.Len() <= readable
      ensures Runs(Rest()) == [segment] + Runs(Window(snapshot, ring.capacity, cursor + segment.Len(),
                                                      readable - segment.Len() + underflow))
    {
      hide Runs, Slot, Represents, NextGap, Wrap, Window, Holes, Bitmap.Valid, Bitmap.Contents;
      var gap := ring.SearchGapAbs(cursor, readable);
      SearchOfSnapshot(ring.hist, snapshot, cursor, readable);
      NextGapMeaning(Holes(snapshot), cursor, readable);
      if gap.Some? && gap.value.0 == cursor {
        HeldGapRun(snapshot, ring.capacity, cursor, readable, underflow, gap.value.1);
        return Gap(gap.value.1);
      }
      var len := if gap.Some? then gap.value.0 - cursor else readable;
      var head := ring.RingIndex(cursor);
      var data := ring.ring.Slice(head, len);
      DataOfRing(ring.hist, snapshot, ring.capacity, ring.ring.Base(), ring.gaps.Contents(), cursor, readable, underflow, data);
      return Data(data);
    }

    /** Commits what was yielded, in one update. */
    method Drop()
      requires Valid()
      modifies ring`readHead
      ensures ring.Valid()
      ensures ring.readHead == old(ring.readHead) + consumed
    {
      ring.ReadCommit(consumed);
    }
  }

  /** Copies the samples of a segment to their place in the output; other segments leave it alone. */
  method Emit<T>(segment: Segment<T>, out: array<T>, cursor: nat)
    requires cursor + segment.Len() <= out.Length
    modifies out
    ensures out[..] == Emitted(old(out[..]), segment, cursor)
  {
    if segment.Data? {
      forall i | cursor <= i < cursor + segment.Len() {
        out[i] := segment.samples[i - cursor];
      }
    }
  }

  /** The tail that `write` stores holds the cells that a reader will find. */
  lemma TailIsWritten<T>(input: seq<T>, cap: nat)
    requires cap > 0
    ensures forall i :: Oldest(|input|, cap) <= i < |input| ==>
              Slot(i, cap) < |KeptTail(input, cap)| && WrittenAs(input, cap)[i] == Sample(KeptTail(input, cap)[Slot(i, cap)])
  {
    hide Slot;
    forall i | Oldest(|input|, cap) <= i < |input|
      ensures Slot(i, cap) < |KeptTail(input, cap)| && WrittenAs(input, cap)[i] == Sample(KeptTail(input, cap)[Slot(i, cap)])
    {
      SlotSmallIfFits(i, |input|, cap);
    }
  }
}
