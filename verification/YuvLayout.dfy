/** The aligned planes of an I420 image inside one byte buffer at any address. */
module YuvLayout {
  import opened Options

  const ALIGN: nat := 64

  datatype Layout = Layout(width: nat, height: nat, chromaWidth: nat, chromaHeight: nat, yLen: nat, uvLen: nat, totalLen: nat)

  datatype Offsets = Offsets(y: nat, u: nat, v: nat)

  datatype Rect = Rect(x: nat, y: nat, w: nat, h: nat)

  /** `SliceOutOfRange` stands for the panic of a slice that begins past its end. */
  datatype Error = InvalidDirtyRect | BufferTooSmall | SliceOutOfRange

  /** Row lengths of the planes and of the source image, and where the converter starts in each. */
  datatype Starts = Starts(yStride: nat, uvStride: nat, rgbaStride: nat, y: nat, uv: nat, rgba: nat)

  /** A product under a name, so that proofs may look away from it. */
  function Times(a: nat, b: nat): nat {
    a * b
  }

  function AlignOffset(base: nat, offset: nat): nat {
    offset + (ALIGN - (base + offset) % ALIGN) % ALIGN
  }

  function I420(width: nat, height: nat): Layout {
    var cw, ch := (width + 1) / 2, (height + 1) / 2;
    var yLen, uvLen := Times(width, height), Times(cw, ch);
    Layout(width, height, cw, ch, yLen, uvLen, yLen + uvLen + uvLen + (ALIGN - 1) * 3)
  }

  function OffsetsForBase(l: Layout, base: nat): Offsets {
    var y := AlignOffset(base, 0);
    var u := AlignOffset(base, y + l.yLen);
    var v := AlignOffset(base, u + l.uvLen);
    Offsets(y, u, v)
  }

  /** The least aligned offset that is not smaller. */
  lemma AlignOffsetLeast(base: nat, offset: nat, b: nat)
    ensures var a := AlignOffset(base, offset);
            && (base + a) % ALIGN == 0
            && offset <= a < offset + ALIGN
            && (offset <= b && (base + b) % ALIGN == 0 ==> a <= b)
  {
  }

  /** Wherever the buffer lies, the planes are aligned, in order, apart, and inside the storage. */
  lemma PlanesFit(width: nat, height: nat, base: nat)
    ensures var l := I420(width, height);
            var o := OffsetsForBase(l, base);
            && (base + o.y) % 64 == 0 && (base + o.u) % 64 == 0 && (base + o.v) % 64 == 0
            && o.y + l.yLen <= o.u && o.u + l.uvLen <= o.v && o.v + l.uvLen <= l.totalLen
  {
    hide AlignOffset;
    var l := I420(width, height);
    var y := AlignOffset(base, 0);
    var u := AlignOffset(base, y + l.yLen);
    AlignOffsetLeast(base, 0, 0);
    AlignOffsetLeast(base, y + l.yLen, 0);
    AlignOffsetLeast(base, u + l.uvLen, 0);
  }

  /** Every pixel has its chroma sample, every chroma sample has a pixel, and the planes are exactly as
      long as their sides say. */
  lemma I420Sides(width: nat, height: nat)
    ensures var l := I420(width, height);
            && l.width == width && l.height == height
            && (forall x :: 0 <= x < width ==> x / 2 < l.chromaWidth)
            && (forall c :: 0 <= c < l.chromaWidth ==> 2 * c < width)
            && (forall y :: 0 <= y < height ==> y / 2 < l.chromaHeight)
            && (forall c :: 0 <= c < l.chromaHeight ==> 2 * c < height)
            && l.yLen == width * height && l.uvLen == l.chromaWidth * l.chromaHeight
  {
  }

  lemma OnePixel()
    ensures I420(1, 1) == Layout(1, 1, 1, 1, 1, 1, 192)
  {
  }

  lemma AlignmentsOfOne()
    ensures AlignOffset(1, 0) == 63 && AlignOffset(1, 64) == 127 && AlignOffset(1, 128) == 191
  {
  }

  /** The allowance for alignment cannot be smaller: some image at some address fills the storage. */
  lemma StorageIsTight()
    ensures var l := I420(1, 1);
            var o := OffsetsForBase(l, 1);
            o.v + l.uvLen == l.totalLen
  {
    hide AlignOffset, I420;
    OnePixel();
    AlignmentsOfOne();
  }

  // The two slicers.

  /** By index ranges. */
  function SlicesByIndex(l: Layout, o: Offsets, yuv: seq<int>): (seq<int>, seq<int>, seq<int>)
    requires o.y + l.yLen <= |yuv| && o.u + l.uvLen <= |yuv| && o.v + l.uvLen <= |yuv|
  {
    (yuv[o.y..o.y + l.yLen], yuv[o.u..o.u + l.uvLen], yuv[o.v..o.v + l.uvLen])
  }

  /** By splitting the buffer again and again; every split point must lie inside what is left. */
  function SlicesBySplit(l: Layout, o: Offsets, yuv: seq<int>): (seq<int>, seq<int>, seq<int>)
    requires o.y + l.yLen <= o.u && o.u + l.uvLen <= o.v && o.v + l.uvLen <= |yuv|
  {
    var afterStart := yuv[o.y..];
    var y, afterY := afterStart[..l.yLen], afterStart[l.yLen..];
    var afterUGap := afterY[o.u - (o.y + l.yLen)..];
    var u, afterU := afterUGap[..l.uvLen], afterUGap[l.uvLen..];
    var afterVGap := afterU[o.v - (o.u + l.uvLen)..];
    var v := afterVGap[..l.uvLen];
    (y, u, v)
  }

  lemma SliceOfDrop(s: seq<int>, a: nat, b: nat, n: nat)
    requires a + b + n <= |s|
    ensures s[a..][b..] == s[a + b..] && s[a..][..n] == s[a..a + n]
  {
  }

  lemma SplitsAgree(l: Layout, o: Offsets, yuv: seq<int>)
    requires o.y + l.yLen <= o.u && o.u + l.uvLen <= o.v && o.v + l.uvLen <= |yuv|
    ensures SlicesBySplit(l, o, yuv) == SlicesByIndex(l, o, yuv)
  {
    SliceOfDrop(yuv, o.y, l.yLen, 0);
    SliceOfDrop(yuv, o.y, 0, l.yLen);
    SliceOfDrop(yuv, o.y + l.yLen, o.u - (o.y + l.yLen), 0);
    SliceOfDrop(yuv, o.u, l.uvLen, 0);
    SliceOfDrop(yuv, o.u, 0, l.uvLen);
    SliceOfDrop(yuv, o.u + l.uvLen, o.v - (o.u + l.uvLen), 0);
    SliceOfDrop(yuv, o.v, 0, l.uvLen);
  }

  /** A buffer is accepted by its length alone, wherever it lies. */
  function FromSlice(l: Layout, base: nat, yuv: seq<int>): Result<Offsets, Error> {
    if |yuv| < l.totalLen then Err(BufferTooSmall) else Ok(OffsetsForBase(l, base))
  }

  /** In an accepted buffer neither slicer leaves the buffer, and both hand out the same bytes. */
  lemma SlicersAgree(width: nat, height: nat, base: nat, yuv: seq<int>)
    requires FromSlice(I420(width, height), base, yuv).Ok?
    ensures var l, o := I420(width, height), FromSlice(I420(width, height), base, yuv).value;
            && o.y + l.yLen <= o.u && o.u + l.uvLen <= o.v && o.v + l.uvLen <= |yuv|
            && SlicesBySplit(l, o, yuv) == SlicesByIndex(l, o, yuv)
               == (yuv[o.y..o.y + l.yLen], yuv[o.u..o.u + l.uvLen], yuv[o.v..o.v + l.uvLen])
  {
    var l, o := I420(width, height), FromSlice(I420(width, height), base, yuv).value;
    assert o.y + l.yLen <= o.u && o.u + l.uvLen <= o.v && o.v + l.uvLen <= |yuv| ==>
             SlicesByIndex(l, o, yuv) == (yuv[o.y..o.y + l.yLen], yuv[o.u..o.u + l.uvLen], yuv[o.v..o.v + l.uvLen]);
    hide I420, OffsetsForBase, SlicesBySplit, SlicesByIndex;
    PlanesFit(width, height, base);
    SplitsAgree(I420(width, height), OffsetsForBase(I420(width, height), base), yuv);
  }

  // Dirty rectangles.

  const WRAP: nat := 0x1_0000_0000

  /** What 32 bits keep of a number. */
  function Low32(a: nat): nat {
    a % WRAP
  }

  /** Strides and offsets of `update_dirty`; sums and products of 32-bit numbers wrap. */
  function StartsOf(l: Layout, r: Rect): Starts {
    var fullWidth := Low32(l.width);
    var rgbaStride := Low32(fullWidth * 4);
    Starts(fullWidth, l.chromaWidth, rgbaStride,
           Times(r.y, fullWidth) + r.x, Times(r.y / 2, l.chromaWidth) + r.x / 2, Times(r.y, rgbaStride) + r.x * 4)
  }

  /** All that `update_dirty` does before the conversion: the rectangle must be even and inside by the
      wrapping sums, and then source and planes are cut at the offsets. */
  function UpdateDirty(l: Layout, r: Rect, sourceLen: nat): Result<Starts, Error> {
    if r.x % 2 != 0 || r.y % 2 != 0 || r.w % 2 != 0 || r.h % 2 != 0 then Err(InvalidDirtyRect)
    else if Low32(r.x + r.w) > Low32(l.width) || Low32(r.y + r.h) > Low32(l.height) then Err(InvalidDirtyRect)
    else
      var s := StartsOf(l, r);
      if s.rgba > sourceLen || s.y > l.yLen || s.uv > l.uvLen then Err(SliceOutOfRange) else Ok(s)
  }

  /** Where the converter finds the sample of row `row` and column `column` of the rectangle. */
  function Place(start: nat, stride: nat, row: nat, column: nat): nat {
    start + Times(row, stride) + column
  }

  /** Row `i`, column `j` of the rectangle is a pixel of the image, found at that pixel's place in the
      brightness plane and in the source. */
  ghost predicate PixelInside(l: Layout, r: Rect, s: Starts, i: nat, j: nat) {
    && r.y + i < l.height && r.x + j < l.width
    && Place(s.y, s.yStride, i, j) == Place(0, l.width, r.y + i, r.x + j) < l.yLen
    && Place(s.rgba, s.rgbaStride, i, 4 * j) == 4 * Place(0, l.width, r.y + i, r.x + j)
  }

  /** The same of the two colour planes. */
  ghost predicate ChromaInside(l: Layout, r: Rect, s: Starts, i: nat, j: nat) {
    && r.y / 2 + i < l.chromaHeight && r.x / 2 + j < l.chromaWidth
    && Place(s.uv, s.uvStride, i, j) == Place(0, l.chromaWidth, r.y / 2 + i, r.x / 2 + j) < l.uvLen
  }

  /** Every sample that the conversion of the rectangle touches is the one that it should be. */
  ghost predicate StaysInside(l: Layout, r: Rect, s: Starts) {
    && (forall i: nat, j: nat :: i < r.h && j < r.w ==> PixelInside(l, r, s, i, j))
    && (forall i: nat, j: nat :: i < r.h / 2 && j < r.w / 2 ==> ChromaInside(l, r, s, i, j))
  }

  /** What a caller can check beforehand: the bounds hold of the sums as numbers, and the length of a row
      of the source fits 32 bits. */
  predicate Bounded(width: nat, height: nat, r: Rect) {
    r.x + r.w <= width && r.y + r.h <= height && 4 * width < WRAP
  }

  lemma LowEnough(a: nat)
    ensures Low32(a) <= a && Low32(a) < WRAP && Low32(a) % 2 == a % 2 && (a < WRAP <==> Low32(a) == a)
  {
  }

  lemma Distribute(a: nat, b: nat, n: nat)
    ensures Times(a + b, n) == Times(a, n) + Times(b, n) && Times(n, a + b) == Times(n, a) + Times(n, b)
  {
  }

  lemma ByOne(n: nat)
    ensures Times(1, n) == n
  {
  }

  lemma FourTimes(a: nat, n: nat)
    ensures Times(a, n * 4) == 4 * Times(a, n)
  {
    assert a * (n * 4) == 4 * (a * n);
  }

  lemma RowMajor(width: nat, height: nat, y: nat, x: nat, i: nat, j: nat)
    requires y + i < height && x + j < width
    ensures Place(Times(y, width) + x, width, i, j) == Place(0, width, y + i, x + j) < Times(width, height)
  {
    hide Times;
    Distribute(y, i, width);
    Distribute(y + i, 1, width);
    ByOne(width);
    Distribute(y + i + 1, height - (y + i + 1), width);
    Commute(width, height);
  }

  lemma Commute(a: nat, b: nat)
    ensures Times(a, b) == Times(b, a)
  {
  }

  lemma FourBytes(width: nat, y: nat, x: nat, i: nat, j: nat)
    ensures Place(Times(y, width * 4) + x * 4, width * 4, i, 4 * j) == 4 * Place(0, width, y + i, x + j)
  {
    hide Times;
    FourTimes(y, width);
    FourTimes(i, width);
    Distribute(y, i, width);
  }

  lemma Accepted(width: nat, height: nat, r: Rect, sourceLen: nat, s: Starts)
    requires UpdateDirty(I420(width, height), r, sourceLen) == Ok(s)
    ensures r.x % 2 == 0 && r.y % 2 == 0 && r.w % 2 == 0 && r.h % 2 == 0
    ensures Low32(r.x + r.w) <= Low32(width) && Low32(r.y + r.h) <= Low32(height)
    ensures s.yStride == Low32(width) && s.rgbaStride == Low32(Low32(width) * 4) && s.uvStride == (width + 1) / 2
    ensures s.y == Times(r.y, s.yStride) + r.x && s.rgba == Times(r.y, s.rgbaStride) + r.x * 4
    ensures s.uv == Times(r.y / 2, s.uvStride) + r.x / 2
  {
    hide Times, Low32;
  }

  lemma NothingLost(width: nat, height: nat, r: Rect, sourceLen: nat, s: Starts)
    requires UpdateDirty(I420(width, height), r, sourceLen) == Ok(s) && Bounded(width, height, r)
    ensures s.yStride == width && s.rgbaStride == width * 4
  {
    hide Times, Low32, UpdateDirty, I420;
    Accepted(width, height, r, sourceLen, s);
    LowEnough(width);
    LowEnough(width * 4);
  }

  lemma PixelStays(width: nat, height: nat, r: Rect, sourceLen: nat, s: Starts, i: nat, j: nat)
    requires UpdateDirty(I420(width, height), r, sourceLen) == Ok(s) && Bounded(width, height, r) && i < r.h && j < r.w
    ensures PixelInside(I420(width, height), r, s, i, j)
  {
    hide Times, Low32, UpdateDirty, Place;
    Accepted(width, height, r, sourceLen, s);
    NothingLost(width, height, r, sourceLen, s);
    RowMajor(width, height, r.y, r.x, i, j);
    FourBytes(width, r.y, r.x, i, j);
  }

  lemma ChromaStays(width: nat, height: nat, r: Rect, sourceLen: nat, s: Starts, i: nat, j: nat)
    requires UpdateDirty(I420(width, height), r, sourceLen) == Ok(s) && Bounded(width, height, r) && i < r.h / 2 && j < r.w / 2
    ensures ChromaInside(I420(width, height), r, s, i, j)
  {
    hide Times, Low32, UpdateDirty, Place;
    Accepted(width, height, r, sourceLen, s);
    NothingLost(width, height, r, sourceLen, s);
    RowMajor((width + 1) / 2, (height + 1) / 2, r.y / 2, r.x / 2, i, j);
  }

  lemma SameFactor(a: nat, b: nat, n: nat)
    requires Times(n + 1, a) == Times(n + 1, b)
    ensures a == b
  {
    hide Times;
    if a < b {
      Distribute(a, b - a, n + 1);
      NotZero(n + 1, b - a);
    } else if b < a {
      Distribute(b, a - b, n + 1);
      NotZero(n + 1, a - b);
    }
  }

  lemma NotZero(a: nat, b: nat)
    requires a > 0 && b > 0
    ensures Times(a, b) > 0
  {
  }

  /** With a row length other than the width the second row is misplaced. */
  lemma WrongStride(stride: nat, width: nat, y: nat, x: nat)
    requires Place(Times(y, stride) + x, stride, 1, 0) == Place(0, width, y + 1, x)
    ensures stride == width
  {
    hide Times;
    Distribute(y, 1, stride);
    SameFactor(stride, width, y);
  }

  lemma FourPlaces(width: nat, row: nat, column: nat)
    ensures 4 * Place(0, width, row, column) == Place(0, width * 4, row, column * 4)
  {
    hide Times;
    FourTimes(row, width);
  }

  lemma InsideIsBounded(width: nat, height: nat, r: Rect, sourceLen: nat, s: Starts)
    requires 0 < r.w && 0 < r.h && UpdateDirty(I420(width, height), r, sourceLen) == Ok(s)
    requires PixelInside(I420(width, height), r, s, r.h - 1, r.w - 1) && PixelInside(I420(width, height), r, s, 1, 0)
    ensures Bounded(width, height, r)
  {
    hide Times, Low32, UpdateDirty, Place;
    Accepted(width, height, r, sourceLen, s);
    WrongStride(s.yStride, width, r.y, r.x);
    FourPlaces(width, r.y + 1, r.x);
    WrongStride(s.rgbaStride, width * 4, r.y, r.x * 4);
    LowEnough(width * 4);
  }

  /** An accepted non-empty rectangle stays in its place in all planes exactly when the bounds check did
      not wrap and neither did the length of a row. */
  lemma AcceptedStaysInside(width: nat, height: nat, r: Rect, sourceLen: nat)
    requires r.x < WRAP && r.y < WRAP && 0 < r.w < WRAP && 0 < r.h < WRAP
    requires UpdateDirty(I420(width, height), r, sourceLen).Ok?
    ensures StaysInside(I420(width, height), r, UpdateDirty(I420(width, height), r, sourceLen).value)
            <==> Bounded(width, height, r)
  {
    var l := I420(width, height);
    var s := UpdateDirty(l, r, sourceLen).value;
    assert r.h >= 2;
    hide I420, UpdateDirty, PixelInside, ChromaInside;
    if Bounded(width, height, r) {
      forall i: nat, j: nat | i < r.h && j < r.w ensures PixelInside(l, r, s, i, j) {
        PixelStays(width, height, r, sourceLen, s, i, j);
      }
      forall i: nat, j: nat | i < r.h / 2 && j < r.w / 2 ensures ChromaInside(l, r, s, i, j) {
        ChromaStays(width, height, r, sourceLen, s, i, j);
      }
    } else if StaysInside(l, r, s) {
      assert PixelInside(l, r, s, r.h - 1, r.w - 1) && PixelInside(l, r, s, 1, 0);
      InsideIsBounded(width, height, r, sourceLen, s);
    }
  }

  /** Every even rectangle inside the image is accepted, if the source has all rows and a row fits a
      word: the slices of the planes never begin past their ends. */
  lemma BoundedIsAccepted(width: nat, height: nat, r: Rect, sourceLen: nat)
    requires r.x % 2 == 0 && r.y % 2 == 0 && r.w % 2 == 0 && r.h % 2 == 0 && 0 < r.w && 0 < r.h
    requires Bounded(width, height, r) && height < WRAP && 4 * Times(width, height) <= sourceLen
    ensures UpdateDirty(I420(width, height), r, sourceLen).Ok?
  {
    hide Times, Low32, Place;
    LowEnough(width);
    LowEnough(width * 4);
    LowEnough(height);
    LowEnough(r.x + r.w);
    LowEnough(r.y + r.h);
    RowMajor(width, height, r.y, r.x, 0, 0);
    FourBytes(width, r.y, r.x, 0, 0);
    RowMajor((width + 1) / 2, (height + 1) / 2, r.y / 2, r.x / 2, 0, 0);
    StartIsPlace(width, r.y, r.x);
    StartIsPlace(width * 4, r.y, r.x * 4);
    StartIsPlace((width + 1) / 2, r.y / 2, r.x / 2);
  }

  /** The sample at the start of a rectangle. */
  lemma StartIsPlace(stride: nat, row: nat, column: nat)
    ensures Place(Times(row, stride) + column, stride, 0, 0) == Times(row, stride) + column
  {
  }

  /** A rectangle is invalid exactly if one of its numbers is odd or a far edge, as 32 bits keep it,
      lies past the image, as 32 bits keep that. */
  lemma InvalidExactly(width: nat, height: nat, r: Rect, sourceLen: nat)
    ensures UpdateDirty(I420(width, height), r, sourceLen) == Err(InvalidDirtyRect) <==>
            || r.x % 2 == 1 || r.y % 2 == 1 || r.w % 2 == 1 || r.h % 2 == 1
            || (r.x + r.w) % 0x1_0000_0000 > width % 0x1_0000_0000
            || (r.y + r.h) % 0x1_0000_0000 > height % 0x1_0000_0000
  {
    hide Times;
  }

  /** A rectangle that is accepted because its far edge wraps, and does not stay inside. */
  lemma WrappedIsAccepted()
    ensures var r := Rect(2, 0, 0xFFFF_FFFE, 2);
            && UpdateDirty(I420(4, 2), r, 32).Ok?
            && !Bounded(4, 2, r)
            && !StaysInside(I420(4, 2), r, UpdateDirty(I420(4, 2), r, 32).value)
  {
    AcceptedStaysInside(4, 2, Rect(2, 0, 0xFFFF_FFFE, 2), 32);
  }

  /** Converting the whole image is refused exactly when a side is odd. */
  lemma FullUpdateNeedsEvenSides(width: nat, height: nat, sourceLen: nat)
    ensures var r := UpdateDirty(I420(width, height), Rect(0, 0, Low32(width), Low32(height)), sourceLen);
            && (r == Err(InvalidDirtyRect) <==> width % 2 == 1 || height % 2 == 1)
            && (r.Ok? <==> width % 2 == 0 && height % 2 == 0)
  {
    hide Times, Low32;
    LowEnough(width);
    LowEnough(height);
    LowEnough(Low32(width));
    LowEnough(Low32(height));
    TimesZero(Low32(width));
    TimesZero(Low32(Low32(width) * 4));
    TimesZero((width + 1) / 2);
  }

  lemma TimesZero(n: nat)
    ensures Times(0, n) == 0
  {
  }
}
