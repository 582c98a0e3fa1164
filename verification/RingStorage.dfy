/** The memory behind the ring: twice `cap` addressable cells whose halves show the same samples,
    either because the kernel maps one memory twice or because writes are copied across. */
module RingStorageModel {
  import opened Naturals
  import opened Slots
  import opened RingImage

  /** Twice `phys`, one after the other, with `src` stored from address `head` on. */
  ghost function StoredOver<T>(phys: seq<T>, head: nat, src: seq<T>): (m: seq<T>)
    requires head < |phys| && |src| <= |phys|
    ensures |m| == 2 * |phys|
  {
    seq(2 * |phys|, i requires 0 <= i < 2 * |phys| =>
      if head <= i < head + |src| then src[i - head]
      else if i < |phys| then phys[i]
      else phys[i - |phys|])
  }

  class RingStorage<T> {
    const cap: nat
    /** Whether both halves are one memory; otherwise the vector is twice as long. */
    const kernelMirror: bool
    const cells: array<T>

    ghost predicate Valid() {
      0 < cap && cells.Length == if kernelMirror then cap else 2 * cap
    }

    constructor (cap: nat, kernelMirror: bool, default: T)
      requires cap > 0
      ensures Valid() && fresh(cells)
      ensures this.cap == cap && this.kernelMirror == kernelMirror
      ensures Mirrored() && Base() == seq(cap, _ => default)
    {
      this.cap := cap;
      this.kernelMirror := kernelMirror;
      cells := new T[if kernelMirror then cap else 2 * cap](_ => default);
    }

    /** The cell at address `i` of the doubled memory. */
    function Get(i: nat): T
      requires Valid() && i < 2 * cap
      reads cells
    {
      if kernelMirror && i >= cap then cells[i - cap] else cells[i]
    }

    ghost predicate Mirrored()
      requires Valid()
      reads cells
    {
      !kernelMirror ==> forall i :: cap <= i < 2 * cap ==> cells[i] == cells[i - cap]
    }

    ghost function Base(): seq<T>
      requires Valid()
      reads cells
    {
      cells[..cap]
    }

    /** `src` has been stored at addresses `head, head + 1, ...` over `phys`, and nothing was
        copied across yet. */
    ghost predicate Pending(phys: seq<T>, head: nat, src: seq<T>)
      requires Valid()
      requires |phys| == cap && head < cap && |src| <= cap
      reads cells
    {
      if kernelMirror then
        cells[..] == Overwritten(phys, head, src)
      else
        cells[..] == StoredOver(phys, head, src)
    }

    /** Stores samples through the mutable slice that starts at `head`. */
    method CopyIn(head: nat, src: seq<T>)
      requires Valid() && Mirrored()
      requires head < cap && |src| <= cap
      modifies cells
      ensures Pending(old(Base()), head, src)
    {
      if kernelMirror {
        forall i | 0 <= i < cap && Ahead(head, i, cap) < |src| {
          cells[i] := src[Ahead(head, i, cap)];
        }
      } else {
        forall i | head <= i < head + |src| {
          cells[i] := src[i - head];
        }
      }
    }

    /** Copies what was stored at `head, ..., head + written - 1` to the other half. */
    method SyncMirrorRange(head: nat, written: nat, ghost phys: seq<T>, ghost src: seq<T>)
      requires Valid() && |phys| == cap && head < cap && written == |src| <= cap
      requires Pending(phys, head, src)
      modifies cells
      ensures Mirrored() && Base() == Overwritten(phys, head, src)
    {
      hide Overwritten, StoredOver, Copied;
      if kernelMirror {
        assert cells[..cap] == cells[..];
      } else {
        CopiedNothing(cells[..], cap + head, head);
        var start, end := head, head + written;

        var bStart := Min(start, cap);
        var bEnd := Min(end, cap);
        if bEnd > bStart {
          CopyRange(cap + bStart, bStart, bEnd - bStart);
        }
        var mStart := Max(start, cap);
        var mEnd := Min(end, 2 * cap);
        if mEnd > mStart {
          CopyRange(mStart - cap, mStart, mEnd - mStart);
        }
        CopiedAcross(cells[..], phys, head, src);
      }
    }

    /** `copy_from_slice` between two ranges that do not overlap. */
    method CopyRange(dst: nat, from: nat, len: nat)
      requires dst + len <= cells.Length && from + len <= cells.Length
      requires dst + len <= from || from + len <= dst
      modifies cells
      ensures cells[..] == Copied(old(cells[..]), dst, from, len)
    {
      forall i | dst <= i < dst + len {
        cells[i] := cells[i - dst + from];
      }
    }

    /** A window of the doubled memory. It reads the same whichever way the halves are kept equal. */
    method Slice(head: nat, len: nat) returns (s: seq<T>)
      requires Valid() && Mirrored()
      requires head < cap && len <= cap
      ensures |s| == len
      ensures forall k :: 0 <= k < len ==> s[k] == Base()[Wrap(head, k, cap)]
    {
      s := seq(len, k requires 0 <= k < len reads cells => Get(head + k));
      forall k | 0 <= k < len ensures s[k] == Base()[Wrap(head, k, cap)] {
        assert s[k] == Get(head + k);
      }
    }
  }

  lemma CopiedNothing<T>(s: seq<T>, dst: nat, from: nat)
    requires dst <= |s| && from <= |s|
    ensures Copied(s, dst, from, 0) == s
  {
  }

  function Copied<T>(s: seq<T>, dst: nat, from: nat, len: nat): (r: seq<T>)
    requires dst + len <= |s| && from + len <= |s|
    ensures |r| == |s|
  {
    seq(|s|, i requires 0 <= i < |s| => if dst <= i < dst + len then s[i - dst + from] else s[i])
  }

  /** The two straight copies, whichever way the write straddles the middle of the memory. */
  ghost function SyncedMemory<T>(phys: seq<T>, head: nat, src: seq<T>): seq<T>
    requires head < |phys| && |src| <= |phys|
  {
    var cap, end := |phys|, head + |src|;
    var c1 := Copied(StoredOver(phys, head, src), cap + head, head, Min(end, cap) - head);
    if end > cap then Copied(c1, 0, cap, end - cap) else c1
  }

  lemma CopiedAcross<T>(c: seq<T>, phys: seq<T>, head: nat, src: seq<T>)
    requires head < |phys| && |src| <= |phys|
    requires c == SyncedMemory(phys, head, src)
    ensures forall i :: |phys| <= i < 2 * |phys| ==> c[i] == c[i - |phys|]
    ensures |c| == 2 * |phys| && c[..|phys|] == Overwritten(phys, head, src)
  {
    var cap, want := |phys|, Overwritten(phys, head, src);
    forall i | 0 <= i < cap ensures c[i] == want[i] {
    }
    forall i | cap <= i < 2 * cap ensures c[i] == want[i - cap] && c[i] == c[i - cap] {
    }
  }
}
