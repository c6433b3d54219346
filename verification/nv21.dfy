/**
 * The two NV21 transforms of the enrollment path, writing into a reused
 * destination array: a centred crop made of row copies, and a 2:1
 * nearest-neighbour downscale. An NV21 frame of W x H is a luma plane of W*H
 * bytes followed by interleaved V,U chroma rows of W bytes, one row per two
 * luma rows.
 *
 * Java's exceptions are modelled as an `ok` result: `System.arraycopy` and
 * array indexing throw on an out-of-range position, and the caller catches
 * the throw, so a transform that returns `ok == false` left the destination
 * partly written and is followed by nothing.
 */
module Nv21 {

  /** A Java byte. */
  newtype byte = b: int | -128 <= b < 128

  /** Java's `/` on int, which truncates toward zero. */
  function JavaDiv(a: int, b: int): int
    requires b > 0
  {
    if a >= 0 then a / b else -((-a) / b)
  }

  /** Java's `%` on int, whose sign follows the dividend. */
  function JavaRem(a: int, b: int): int
    requires b > 0
  {
    a - b * JavaDiv(a, b)
  }

  /** Byte length of a W x H frame as the crop's guard computes it. */
  function FrameLength(width: int, height: int): int
  {
    JavaDiv(width * height * 3, 2)
  }

  function RowMajor(stride: int, row: int, col: int): int
  {
    row * stride + col
  }

  /** The crop offset along one axis: half the difference, truncated, then
      decremented when odd. */
  function CropOffset(srcDim: int, dstDim: int): int
  {
    var o := JavaDiv(srcDim - dstDim, 2);
    if JavaRem(o, 2) != 0 then o - 1 else o
  }

  /** The offset is always even, so chroma pairs stay aligned; when the target
      fits it is the centring offset rounded down to even. */
  lemma CropOffsetIsEvenCentring(srcDim: int, dstDim: int)
    ensures CropOffset(srcDim, dstDim) % 2 == 0
    ensures dstDim <= srcDim ==>
              0 <= CropOffset(srcDim, dstDim) <= (srcDim - dstDim) / 2 <= CropOffset(srcDim, dstDim) + 1
    ensures dstDim > srcDim + 1 ==> CropOffset(srcDim, dstDim) < 0
  {
  }

  /** The bounds check of System.arraycopy. */
  predicate CopyFits(srcLen: int, srcPos: int, destLen: int, destPos: int, length: int)
  {
    0 <= srcPos && 0 <= destPos && 0 <= length &&
    srcPos + length <= srcLen && destPos + length <= destLen
  }

  /** System.arraycopy from a source frame into `dest`: all or nothing. */
  method ArrayCopy(src: seq<byte>, srcPos: int, dest: array<byte>, destPos: int, length: int)
      returns (ok: bool)
    modifies dest
    ensures ok <==> CopyFits(|src|, srcPos, dest.Length, destPos, length)
    ensures !ok ==> dest[..] == old(dest[..])
    ensures ok ==> forall k :: destPos <= k < destPos + length ==> dest[k] == src[srcPos + (k - destPos)]
    ensures ok ==> forall k :: 0 <= k < dest.Length && !(destPos <= k < destPos + length) ==> dest[k] == old(dest[k])
  {
    ok := CopyFits(|src|, srcPos, dest.Length, destPos, length);
    if ok {
      forall k | destPos <= k < destPos + length {
        dest[k] := src[srcPos + (k - destPos)];
      }
    }
  }

  // ---------------------------------------------------------------- crop

  /** Row-major positions of a grid with `stride` columns grow with (row, col). */
  lemma RowMajorOrder(stride: int, r1: int, c1: int, r2: int, c2: int)
    requires 0 <= c1 < stride && 0 <= c2 && 0 <= r1
    requires r1 < r2 || (r1 == r2 && c1 < c2)
    ensures RowMajor(stride, r1, c1) < RowMajor(stride, r2, c2)
  {
    if r1 < r2 {
      MulMono(r1 + 1, r2, stride);
      assert (r1 + 1) * stride == r1 * stride + stride;
    }
  }

  /** Row i of a block copy: `len` bytes from column `col` of source row
      `firstRow + i` (rows of `stride` bytes from `srcBase`) to destination
      row i (rows of `len` bytes from `destBase`) stay in range. */
  predicate RowFits(srcLen: int, srcBase: int, stride: int, firstRow: int, col: int,
                    destLen: int, destBase: int, len: int, i: int)
  {
    CopyFits(srcLen, srcBase + RowMajor(stride, firstRow + i, col), destLen, destBase + i * len, len)
  }

  predicate RowsFit(srcLen: int, srcBase: int, stride: int, firstRow: int, col: int,
                    destLen: int, destBase: int, len: int, rows: int)
  {
    forall i :: 0 <= i < rows ==> RowFits(srcLen, srcBase, stride, firstRow, col, destLen, destBase, len, i)
  }

  /** Destination position of byte c of row i of a block copy. */
  function BlockDest(destBase: int, len: int, i: int, c: int): int
  {
    destBase + RowMajor(len, i, c)
  }

  /** Source position of byte c of row i of a block copy. */
  function BlockSource(srcBase: int, stride: int, firstRow: int, col: int, i: int, c: int): int
  {
    srcBase + RowMajor(stride, firstRow + i, col) + c
  }

  /** Destination rows 0..rows-1 hold the source rows of the block copy. */
  ghost predicate RowsCopied(src: seq<byte>, srcBase: int, stride: int, firstRow: int, col: int,
                             dest: seq<byte>, destBase: int, len: int, rows: int)
  {
    forall i, c :: 0 <= i < rows && 0 <= c < len ==>
      0 <= BlockSource(srcBase, stride, firstRow, col, i, c) < |src| &&
      0 <= BlockDest(destBase, len, i, c) < |dest| &&
      dest[BlockDest(destBase, len, i, c)] == src[BlockSource(srcBase, stride, firstRow, col, i, c)]
  }

  /** A loop of `rows` System.arraycopy calls, one per row, stopping at the
      first that throws. */
  method CopyRows(src: seq<byte>, srcBase: int, stride: int, firstRow: int, col: int,
                  dest: array<byte>, destBase: int, len: int, rows: int) returns (ok: bool)
    requires 0 <= destBase && 0 <= len && 0 <= rows
    modifies dest
    ensures ok <==> RowsFit(|src|, srcBase, stride, firstRow, col, dest.Length, destBase, len, rows)
    ensures ok ==> RowsCopied(src, srcBase, stride, firstRow, col, dest[..], destBase, len, rows)
    ensures forall k :: 0 <= k < dest.Length && k < destBase ==> dest[k] == old(dest[k])
    ensures ok ==> forall k :: 0 <= k < dest.Length && destBase + rows * len <= k ==> dest[k] == old(dest[k])
  {
    var i := 0;
    ghost var written := destBase;  // end of the rows copied so far
    while i < rows
      invariant 0 <= i <= rows
      invariant written == destBase + i * len
      invariant RowsFit(|src|, srcBase, stride, firstRow, col, dest.Length, destBase, len, i)
      invariant RowsCopied(src, srcBase, stride, firstRow, col, dest[..], destBase, len, i)
      invariant forall k :: 0 <= k < dest.Length && (k < destBase || written <= k) ==> dest[k] == old(dest[k])
    {
      ok := CopyRow(src, srcBase, stride, firstRow, col, dest, destBase, len, i);
      if !ok {
        assert !RowsFit(|src|, srcBase, stride, firstRow, col, dest.Length, destBase, len, rows) by {
          assert !RowFits(|src|, srcBase, stride, firstRow, col, dest.Length, destBase, len, i);
        }
        return;
      }
      assert (i + 1) * len == i * len + len;
      i, written := i + 1, written + len;
    }
    ok := true;
  }

  /** One System.arraycopy of CopyRows: row i, on top of rows 0..i-1. */
  method CopyRow(src: seq<byte>, srcBase: int, stride: int, firstRow: int, col: int,
                 dest: array<byte>, destBase: int, len: int, i: int) returns (ok: bool)
    requires 0 <= destBase && 0 <= len && 0 <= i
    requires RowsCopied(src, srcBase, stride, firstRow, col, dest[..], destBase, len, i)
    modifies dest
    ensures ok <==> RowFits(|src|, srcBase, stride, firstRow, col, dest.Length, destBase, len, i)
    ensures ok ==> RowsCopied(src, srcBase, stride, firstRow, col, dest[..], destBase, len, i + 1)
    ensures forall k :: 0 <= k < dest.Length && !(destBase + i * len <= k < destBase + i * len + len) ==>
              dest[k] == old(dest[k])
  {
    ghost var before := dest[..];
    ok := ArrayCopy(src, srcBase + (firstRow + i) * stride + col, dest, destBase + i * len, len);
    if !ok {
      return;
    }
    forall c | 0 <= c < len
      ensures dest[BlockDest(destBase, len, i, c)] == src[BlockSource(srcBase, stride, firstRow, col, i, c)]
    {
      assert BlockDest(destBase, len, i, c) == destBase + i * len + c;
    }
    forall r, c | 0 <= r < i + 1 && 0 <= c < len
      ensures 0 <= BlockSource(srcBase, stride, firstRow, col, r, c) < |src|
      ensures 0 <= BlockDest(destBase, len, r, c) < dest.Length
      ensures dest[BlockDest(destBase, len, r, c)] == src[BlockSource(srcBase, stride, firstRow, col, r, c)]
    {
      RowCopiedAt(src, srcBase, stride, firstRow, col, before, dest[..], destBase, len, i, r, c);
    }
  }

  /** Copying row i into a buffer holding rows 0..i-1, and writing nothing
      before row i, leaves byte c of row r <= i as the block copy demands. */
  lemma RowCopiedAt(src: seq<byte>, srcBase: int, stride: int, firstRow: int, col: int,
                         before: seq<byte>, after: seq<byte>, destBase: int, len: int, i: int, r: int, c: int)
    requires 0 <= destBase && 0 <= len && 0 <= i && |before| == |after|
    requires RowsCopied(src, srcBase, stride, firstRow, col, before, destBase, len, i)
    requires RowFits(|src|, srcBase, stride, firstRow, col, |after|, destBase, len, i)
    requires forall c :: 0 <= c < len ==>
               after[BlockDest(destBase, len, i, c)] == src[BlockSource(srcBase, stride, firstRow, col, i, c)]
    requires forall k :: 0 <= k < BlockDest(destBase, len, i, 0) && k < |after| ==> after[k] == before[k]
    requires 0 <= r <= i && 0 <= c < len
    ensures 0 <= BlockSource(srcBase, stride, firstRow, col, r, c) < |src|
    ensures 0 <= BlockDest(destBase, len, r, c) < |after|
    ensures after[BlockDest(destBase, len, r, c)] == src[BlockSource(srcBase, stride, firstRow, col, r, c)]
  {
    if r < i {
      RowMajorOrder(len, r, c, i, 0);
      assert BlockDest(destBase, len, r, c) < BlockDest(destBase, len, i, 0);
    }
  }

  /** Every row copy of the crop stays in range, so none of them throws. */
  predicate CropFits(srcLen: int, W: int, H: int, destLen: int, w: int, h: int)
  {
    RowsFit(srcLen, 0, W, CropOffset(H, h), CropOffset(W, w), destLen, 0, w, h) &&
    RowsFit(srcLen, W * H, W, JavaDiv(CropOffset(H, h), 2), CropOffset(W, w), destLen, w * h, w, JavaDiv(h, 2))
  }

  /** `dest` holds the crop of `src`: luma row i is source row yOffset+i from
      column xOffset, chroma row i is source chroma row yOffset/2+i. */
  ghost predicate CroppedInto(src: seq<byte>, W: int, H: int, dest: seq<byte>, w: int, h: int)
  {
    RowsCopied(src, 0, W, CropOffset(H, h), CropOffset(W, w), dest, 0, w, h) &&
    RowsCopied(src, W * H, W, JavaDiv(CropOffset(H, h), 2), CropOffset(W, w), dest, w * h, w, JavaDiv(h, 2))
  }

  /** cropNV21: a short source is left alone; otherwise h luma rows and h/2
      chroma rows of w bytes are copied, stopping at the first copy that
      would throw. */
  method CropNV21(src: seq<byte>, srcWidth: int, srcHeight: int, dest: array<byte>,
                  dstWidth: int, dstHeight: int) returns (ok: bool)
    requires 0 <= srcWidth && 0 <= srcHeight && 0 <= dstWidth && 0 <= dstHeight
    modifies dest
    ensures |src| < FrameLength(srcWidth, srcHeight) ==> ok && dest[..] == old(dest[..])
    ensures |src| >= FrameLength(srcWidth, srcHeight) ==>
              (ok <==> CropFits(|src|, srcWidth, srcHeight, dest.Length, dstWidth, dstHeight))
    ensures |src| >= FrameLength(srcWidth, srcHeight) && ok ==>
              CroppedInto(src, srcWidth, srcHeight, dest[..], dstWidth, dstHeight)
    ensures ok ==> forall k :: 0 <= k < dest.Length && dstWidth * dstHeight + JavaDiv(dstHeight, 2) * dstWidth <= k ==>
                                dest[k] == old(dest[k])
  {
    var W, H, w, h := srcWidth, srcHeight, dstWidth, dstHeight;
    if |src| < FrameLength(W, H) {
      return true;
    }
    var xOffset := JavaDiv(W - w, 2);
    var yOffset := JavaDiv(H - h, 2);
    if JavaRem(xOffset, 2) != 0 {
      xOffset := xOffset - 1;
    }
    if JavaRem(yOffset, 2) != 0 {
      yOffset := yOffset - 1;
    }
    assert xOffset == CropOffset(W, w) && yOffset == CropOffset(H, h);

    ok := CopyRows(src, 0, W, yOffset, xOffset, dest, 0, w, h);
    if !ok {
      return;
    }
    ghost var afterLuma := dest[..];
    var uvSrcStart := W * H;
    var uvDstStart := w * h;
    MulMono(0, w, h);
    ok := CopyRows(src, uvSrcStart, W, JavaDiv(yOffset, 2), xOffset, dest, uvDstStart, w, JavaDiv(h, 2));
    if !ok {
      return;
    }
    RowsCopiedKept(src, 0, W, yOffset, xOffset, afterLuma, dest[..], w, h);
    MulMono(0, JavaDiv(h, 2), w);
    assert h * w <= uvDstStart + JavaDiv(h, 2) * w;
  }

  /** A block copied to the front of a buffer survives writes that leave the
      first rows*len positions alone. */
  lemma RowsCopiedKept(src: seq<byte>, srcBase: int, stride: int, firstRow: int, col: int,
                       before: seq<byte>, after: seq<byte>, len: int, rows: int)
    requires 0 <= len && |before| == |after|
    requires RowsCopied(src, srcBase, stride, firstRow, col, before, 0, len, rows)
    requires forall k :: 0 <= k < |after| && k < len * rows ==> after[k] == before[k]
    ensures RowsCopied(src, srcBase, stride, firstRow, col, after, 0, len, rows)
  {
    forall i, c | 0 <= i < rows && 0 <= c < len
      ensures after[BlockDest(0, len, i, c)] == before[BlockDest(0, len, i, c)]
    {
      RowMajorOrder(len, i, c, rows, 0);
      assert rows * len == len * rows;
    }
  }

  // ----------------------------------------------------------- downscale

  /** Luma pixel (y, x) of the downscale reads source pixel (2y, 2x); both
      accesses are in range. */
  predicate LumaPixelFits(srcLen: int, W: int, destLen: int, w: int, y: int, x: int)
  {
    0 <= RowMajor(W, 2 * y, 2 * x) < srcLen && 0 <= RowMajor(w, y, x) < destLen
  }

  /** The chroma pair at even column x of chroma row y: the V,U bytes at source
      chroma row 2y, column 2x are copied to destination chroma row y, column x;
      all four accesses are in range. */
  predicate ChromaPairFits(srcLen: int, srcBase: int, W: int, destLen: int, destBase: int, w: int, y: int, x: int)
  {
    0 <= srcBase + RowMajor(W, 2 * y, 2 * x) && srcBase + RowMajor(W, 2 * y, 2 * x) + 1 < srcLen &&
    0 <= destBase + RowMajor(w, y, x) && destBase + RowMajor(w, y, x) + 1 < destLen
  }

  /** Every array access of downscaleNV21 is in range, so it does not throw. */
  predicate DownscaleFits(srcLen: int, W: int, H: int, destLen: int, w: int, h: int)
  {
    (forall y, x :: 0 <= y < h && 0 <= x < w ==> LumaPixelFits(srcLen, W, destLen, w, y, x)) &&
    (forall y, x :: 0 <= y < JavaDiv(h, 2) && 0 <= x < w && x % 2 == 0 ==>
       ChromaPairFits(srcLen, W * H, W, destLen, w * h, w, y, x))
  }

  /** `dest` holds the 2:1 downscale of `src`: every luma pixel, every V byte,
      and every U byte whose column is inside the row. (With an odd width the
      U of a row's last pair lands on the first V of the next chroma row,
      which then overwrites it.) */
  ghost predicate DownscaledInto(src: seq<byte>, W: int, H: int, dest: seq<byte>, w: int, h: int)
  {
    (forall y, x :: 0 <= y < h && 0 <= x < w ==>
       LumaPixelFits(|src|, W, |dest|, w, y, x) &&
       dest[RowMajor(w, y, x)] == src[RowMajor(W, 2 * y, 2 * x)]) &&
    (forall y, x :: 0 <= y < JavaDiv(h, 2) && 0 <= x < w && x % 2 == 0 ==>
       ChromaPairFits(|src|, W * H, W, |dest|, w * h, w, y, x) &&
       dest[w * h + RowMajor(w, y, x)] == src[W * H + RowMajor(W, 2 * y, 2 * x)] &&
       (x + 1 < w ==> dest[w * h + RowMajor(w, y, x) + 1] == src[W * H + RowMajor(W, 2 * y, 2 * x) + 1]))
  }

  /** One luma row of the downscale; stops at the first access that throws. */
  method DownscaleLumaRow(src: seq<byte>, W: int, dest: array<byte>, w: int, y: int) returns (ok: bool)
    requires 0 <= W && 0 <= w && 0 <= y
    modifies dest
    ensures ok <==> forall x :: 0 <= x < w ==> LumaPixelFits(|src|, W, dest.Length, w, y, x)
    ensures ok ==> forall x :: 0 <= x < w ==>
                     LumaPixelFits(|src|, W, dest.Length, w, y, x) &&
                     dest[RowMajor(w, y, x)] == src[RowMajor(W, 2 * y, 2 * x)]
    ensures forall k :: 0 <= k < dest.Length && !(y * w <= k < y * w + w) ==> dest[k] == old(dest[k])
  {
    for x := 0 to w
      invariant forall j :: 0 <= j < x ==> LumaPixelFits(|src|, W, dest.Length, w, y, j)
      invariant forall j :: 0 <= j < x ==>
                  LumaPixelFits(|src|, W, dest.Length, w, y, j) &&
                  dest[RowMajor(w, y, j)] == src[RowMajor(W, 2 * y, 2 * j)]
      invariant forall k :: 0 <= k < dest.Length && !(y * w <= k < y * w + x) ==> dest[k] == old(dest[k])
    {
      var si := (y * 2) * W + x * 2;
      var di := y * w + x;
      if !(0 <= si < |src| && 0 <= di < dest.Length) {
        assert !LumaPixelFits(|src|, W, dest.Length, w, y, x);
        return false;
      }
      dest[di] := src[si];
    }
    return true;
  }

  /** The luma loop of downscaleNV21. */
  method DownscaleLuma(src: seq<byte>, W: int, dest: array<byte>, w: int, h: int) returns (ok: bool)
    requires 0 <= W && 0 <= w && 0 <= h
    modifies dest
    ensures ok <==> forall y, x :: 0 <= y < h && 0 <= x < w ==> LumaPixelFits(|src|, W, dest.Length, w, y, x)
    ensures ok ==> forall y, x :: 0 <= y < h && 0 <= x < w ==>
                     LumaPixelFits(|src|, W, dest.Length, w, y, x) &&
                     dest[RowMajor(w, y, x)] == src[RowMajor(W, 2 * y, 2 * x)]
    ensures ok ==> forall k :: 0 <= k < dest.Length && h * w <= k ==> dest[k] == old(dest[k])
  {
    ghost var written := 0;  // end of the rows written so far
    for y := 0 to h
      invariant written == y * w
      invariant forall r, x :: 0 <= r < y && 0 <= x < w ==>
                  LumaPixelFits(|src|, W, dest.Length, w, r, x) &&
                  dest[RowMajor(w, r, x)] == src[RowMajor(W, 2 * r, 2 * x)]
      invariant forall k :: 0 <= k < dest.Length && written <= k ==> dest[k] == old(dest[k])
    {
      ghost var before := dest[..];
      ok := DownscaleLumaRow(src, W, dest, w, y);
      if !ok {
        return;
      }
      forall r, x | 0 <= r < y && 0 <= x < w
        ensures dest[RowMajor(w, r, x)] == before[RowMajor(w, r, x)]
      {
        RowMajorOrder(w, r, x, y, 0);
      }
      assert (y + 1) * w == y * w + w;
      written := written + w;
    }
    return true;
  }

  /** One chroma row of the downscale, pair by pair over even columns. */
  method DownscaleChromaRow(src: seq<byte>, srcBase: int, W: int, dest: array<byte>, destBase: int,
                            w: int, y: int) returns (ok: bool)
    requires 0 <= W && 0 <= w && 0 <= y
    modifies dest
    ensures ok <==> forall x :: 0 <= x < w && x % 2 == 0 ==>
                      ChromaPairFits(|src|, srcBase, W, dest.Length, destBase, w, y, x)
    ensures ok ==> forall x :: 0 <= x < w && x % 2 == 0 ==>
                     ChromaPairFits(|src|, srcBase, W, dest.Length, destBase, w, y, x) &&
                     dest[destBase + RowMajor(w, y, x)] == src[srcBase + RowMajor(W, 2 * y, 2 * x)] &&
                     (x + 1 < w ==> dest[destBase + RowMajor(w, y, x) + 1] == src[srcBase + RowMajor(W, 2 * y, 2 * x) + 1])
    ensures forall k :: 0 <= k < dest.Length && !(destBase + y * w <= k <= destBase + y * w + w) ==>
                     dest[k] == old(dest[k])
  {
    ghost var rowStart := destBase + y * w;
    var x := 0;
    while x < w
      invariant 0 <= x <= w + 1 && x % 2 == 0
      invariant forall j :: 0 <= j < x && j % 2 == 0 ==>
                  ChromaPairFits(|src|, srcBase, W, dest.Length, destBase, w, y, j) &&
                  dest[destBase + RowMajor(w, y, j)] == src[srcBase + RowMajor(W, 2 * y, 2 * j)] &&
                  (j + 1 < w ==> dest[destBase + RowMajor(w, y, j) + 1] == src[srcBase + RowMajor(W, 2 * y, 2 * j) + 1])
      invariant forall k :: 0 <= k < dest.Length && !(rowStart <= k < rowStart + x) ==> dest[k] == old(dest[k])
    {
      ok := DownscaleChromaPair(src, srcBase, W, dest, destBase, w, y, x);
      if !ok {
        assert !ChromaPairFits(|src|, srcBase, W, dest.Length, destBase, w, y, x);
        return;
      }
      forall j | 0 <= j < x + 2 && j % 2 == 0
        ensures ChromaPairFits(|src|, srcBase, W, dest.Length, destBase, w, y, j)
        ensures dest[destBase + RowMajor(w, y, j)] == src[srcBase + RowMajor(W, 2 * y, 2 * j)]
        ensures j + 1 < w ==> dest[destBase + RowMajor(w, y, j) + 1] == src[srcBase + RowMajor(W, 2 * y, 2 * j) + 1]
      {
        if j < x {
          assert RowMajor(w, y, j) + 1 < RowMajor(w, y, x);
        }
      }
      x := x + 2;
    }
    return true;
  }

  /** One V,U pair of a chroma row: both bytes or (on a throw) neither. */
  method DownscaleChromaPair(src: seq<byte>, srcBase: int, W: int, dest: array<byte>, destBase: int,
                             w: int, y: int, x: int) returns (ok: bool)
    modifies dest
    ensures ok <==> ChromaPairFits(|src|, srcBase, W, dest.Length, destBase, w, y, x)
    ensures ok ==> dest[destBase + RowMajor(w, y, x)] == src[srcBase + RowMajor(W, 2 * y, 2 * x)] &&
                   dest[destBase + RowMajor(w, y, x) + 1] == src[srcBase + RowMajor(W, 2 * y, 2 * x) + 1]
    ensures forall k :: 0 <= k < dest.Length && k != destBase + RowMajor(w, y, x) && k != destBase + RowMajor(w, y, x) + 1 ==>
              dest[k] == old(dest[k])
  {
    var si := srcBase + (y * 2) * W + x * 2;
    var di := destBase + y * w + x;
    if !(0 <= si && si + 1 < |src| && 0 <= di && di + 1 < dest.Length) {
      return false;
    }
    dest[di] := src[si];          // V
    dest[di + 1] := src[si + 1];  // U
    return true;
  }

  /** The chroma loop of downscaleNV21. */
  method DownscaleChroma(src: seq<byte>, srcBase: int, W: int, dest: array<byte>, destBase: int,
                         w: int, rows: int) returns (ok: bool)
    requires 0 <= W && 0 <= w && 0 <= rows
    modifies dest
    ensures ok <==> forall y, x :: 0 <= y < rows && 0 <= x < w && x % 2 == 0 ==>
                      ChromaPairFits(|src|, srcBase, W, dest.Length, destBase, w, y, x)
    ensures ok ==> forall y, x :: 0 <= y < rows && 0 <= x < w && x % 2 == 0 ==>
                     ChromaPairFits(|src|, srcBase, W, dest.Length, destBase, w, y, x) &&
                     dest[destBase + RowMajor(w, y, x)] == src[srcBase + RowMajor(W, 2 * y, 2 * x)] &&
                     (x + 1 < w ==> dest[destBase + RowMajor(w, y, x) + 1] == src[srcBase + RowMajor(W, 2 * y, 2 * x) + 1])
    ensures forall k :: 0 <= k < dest.Length && k < destBase ==> dest[k] == old(dest[k])
    ensures ok ==> forall k :: 0 <= k < dest.Length && destBase + rows * w < k ==> dest[k] == old(dest[k])
  {
    for y := 0 to rows
      invariant forall r, x :: 0 <= r < y && 0 <= x < w && x % 2 == 0 ==>
                  ChromaPairFits(|src|, srcBase, W, dest.Length, destBase, w, r, x) &&
                  dest[destBase + RowMajor(w, r, x)] == src[srcBase + RowMajor(W, 2 * r, 2 * x)] &&
                  (x + 1 < w ==> dest[destBase + RowMajor(w, r, x) + 1] == src[srcBase + RowMajor(W, 2 * r, 2 * x) + 1])
      invariant forall k :: 0 <= k < dest.Length && (k < destBase || (y == 0 && destBase <= k) || destBase + y * w < k) ==>
                  dest[k] == old(dest[k])
    {
      ghost var before := dest[..];
      ok := DownscaleChromaRow(src, srcBase, W, dest, destBase, w, y);
      if !ok {
        return;
      }
      forall r, x | 0 <= r < y && 0 <= x < w && x % 2 == 0
        ensures dest[destBase + RowMajor(w, r, x)] == before[destBase + RowMajor(w, r, x)]
        ensures x + 1 < w ==> dest[destBase + RowMajor(w, r, x) + 1] == before[destBase + RowMajor(w, r, x) + 1]
      {
        RowMajorOrder(w, r, x, y, 0);
        if x + 1 < w {
          RowMajorOrder(w, r, x + 1, y, 0);
        }
      }
      assert (y + 1) * w == y * w + w;
    }
    return true;
  }

  /** downscaleNV21: luma pixel (y, x) from source pixel (2y, 2x), then the
      V,U pairs of every second chroma row at even columns; a throw at any
      access ends the transform. */
  method DownscaleNV21(src: seq<byte>, srcWidth: int, srcHeight: int, dest: array<byte>,
                       dstWidth: int, dstHeight: int) returns (ok: bool)
    requires 0 <= srcWidth && 0 <= srcHeight && 0 <= dstWidth && 0 <= dstHeight
    modifies dest
    ensures ok <==> DownscaleFits(|src|, srcWidth, srcHeight, dest.Length, dstWidth, dstHeight)
    ensures ok ==> DownscaledInto(src, srcWidth, srcHeight, dest[..], dstWidth, dstHeight)
    ensures ok ==> forall k :: 0 <= k < dest.Length && dstWidth * dstHeight + JavaDiv(dstHeight, 2) * dstWidth < k ==>
                     dest[k] == old(dest[k])
  {
    ok := DownscaleLuma(src, srcWidth, dest, dstWidth, dstHeight);
    if !ok {
      return;
    }
    ghost var afterLuma := dest[..];
    var uvSrcStart := srcWidth * srcHeight;
    var uvDstStart := dstWidth * dstHeight;
    ok := DownscaleChroma(src, uvSrcStart, srcWidth, dest, uvDstStart, dstWidth, JavaDiv(dstHeight, 2));
    if !ok {
      return;
    }
    forall y, x | 0 <= y < dstHeight && 0 <= x < dstWidth
      ensures dest[RowMajor(dstWidth, y, x)] == afterLuma[RowMajor(dstWidth, y, x)]
    {
      RowMajorOrder(dstWidth, y, x, dstHeight, 0);
    }
    assert dstHeight * dstWidth == dstWidth * dstHeight;
  }

  // ------------------------------------------------------ transform lemmas

  lemma MulMono(a: int, b: int, c: int)
    requires 0 <= a <= b && 0 <= c
    ensures a * c <= b * c
  {
  }

  /** The luma plane and h/2 chroma rows of a W x H frame fit in its length. */
  lemma HalfRowsFit(W: int, H: int)
    requires 0 <= W && 0 <= H
    ensures W * H <= W * H + JavaDiv(H, 2) * W <= FrameLength(W, H)
  {
    var q, r := H / 2, H % 2;
    assert H == 2 * q + r;
    assert W * H == 2 * (q * W) + r * W;
    assert 0 <= r * W <= W * H;
    assert JavaDiv(W * H * 3, 2) == (6 * (q * W) + 3 * (r * W)) / 2;
  }

  /** A row of a block copy whose source block lies inside `srcRows` rows of
      the source and whose destination block lies inside the destination. */
  lemma RowFitsWithin(srcLen: int, srcBase: int, stride: int, firstRow: int, col: int,
                      destLen: int, destBase: int, len: int, rows: int, srcRows: int, i: int)
    requires 0 <= i < rows && 0 <= firstRow && firstRow + rows <= srcRows
    requires 0 <= col && 0 <= len && col + len <= stride && 0 <= srcBase && 0 <= destBase
    requires srcBase + srcRows * stride <= srcLen && destBase + rows * len <= destLen
    ensures RowFits(srcLen, srcBase, stride, firstRow, col, destLen, destBase, len, i)
  {
    MulMono(firstRow + i + 1, srcRows, stride);
    MulMono(i + 1, rows, len);
    assert (firstRow + i + 1) * stride == (firstRow + i) * stride + stride;
    assert (i + 1) * len == i * len + len;
  }

  /** With a target no larger than the source and a full-length source and
      destination, no row copy of the crop throws. */
  lemma CropFitsWhenTargetInside(srcLen: int, W: int, H: int, destLen: int, w: int, h: int)
    requires 0 <= w <= W && 0 <= h <= H
    requires srcLen >= FrameLength(W, H) && destLen >= FrameLength(w, h)
    ensures CropFits(srcLen, W, H, destLen, w, h)
  {
    var xo, yo := CropOffset(W, w), CropOffset(H, h);
    CropOffsetIsEvenCentring(W, w);
    CropOffsetIsEvenCentring(H, h);
    HalfRowsFit(W, H);
    HalfRowsFit(w, h);
    assert H * W == W * H && h * w == w * h;
    forall i | 0 <= i < h
      ensures RowFits(srcLen, 0, W, yo, xo, destLen, 0, w, i)
    {
      RowFitsWithin(srcLen, 0, W, yo, xo, destLen, 0, w, h, H, i);
    }
    var qy, qh, qH := JavaDiv(yo, 2), JavaDiv(h, 2), JavaDiv(H, 2);
    assert 0 <= qy && qy + qh <= qH;
    assert W * H + qH * W <= srcLen && w * h + qh * w <= destLen;
    forall i | 0 <= i < qh
      ensures RowFits(srcLen, W * H, W, qy, xo, destLen, w * h, w, i)
    {
      RowFitsWithin(srcLen, W * H, W, qy, xo, destLen, w * h, w, qh, qH, i);
    }
  }

  /** Position k of a grid with `stride` columns lies in row k / stride. */
  lemma RowOfPosition(stride: int, rows: int, k: int) returns (i: int, c: int)
    requires 0 < stride && 0 <= k < rows * stride
    ensures 0 <= i < rows && 0 <= c < stride && k == RowMajor(stride, i, c)
  {
    i, c := k / stride, k % stride;
    if i >= rows {
      MulMono(rows, i, stride);
    }
  }

  /** One entry of a block copy. */
  lemma RowsCopiedAt(src: seq<byte>, srcBase: int, stride: int, firstRow: int, col: int,
                     dest: seq<byte>, destBase: int, len: int, rows: int, i: int, c: int)
    requires RowsCopied(src, srcBase, stride, firstRow, col, dest, destBase, len, rows)
    requires 0 <= i < rows && 0 <= c < len
    ensures 0 <= BlockDest(destBase, len, i, c) < |dest|
    ensures 0 <= BlockSource(srcBase, stride, firstRow, col, i, c) < |src|
    ensures dest[BlockDest(destBase, len, i, c)] == src[BlockSource(srcBase, stride, firstRow, col, i, c)]
  {
  }

  lemma CropToSameSizeCopiesAt(src: seq<byte>, W: int, H: int, dest: seq<byte>, k: int)
    requires 0 <= W && 0 <= H
    requires CroppedInto(src, W, H, dest, W, H)
    requires 0 <= k < W * H + JavaDiv(H, 2) * W
    ensures k < |dest| && k < |src| && dest[k] == src[k]
  {
    var yo, xo := CropOffset(H, H), CropOffset(W, W);
    assert yo == 0 && xo == 0 && JavaDiv(yo, 2) == 0;
    if k < W * H {
      var i, c := RowOfPosition(W, H, k);
      RowsCopiedAt(src, 0, W, yo, xo, dest, 0, W, H, i, c);
      assert BlockDest(0, W, i, c) == k == BlockSource(0, W, yo, xo, i, c);
    } else {
      var i, c := RowOfPosition(W, JavaDiv(H, 2), k - W * H);
      RowsCopiedAt(src, W * H, W, JavaDiv(yo, 2), xo, dest, W * H, W, JavaDiv(H, 2), i, c);
      assert BlockDest(W * H, W, i, c) == k == BlockSource(W * H, W, JavaDiv(yo, 2), xo, i, c);
    }
  }

  /** Cropping to the source's own size copies the frame unchanged. */
  lemma CropToSameSizeCopies(src: seq<byte>, W: int, H: int, dest: seq<byte>)
    requires 0 <= W && 0 <= H
    requires CroppedInto(src, W, H, dest, W, H)
    ensures W * H + JavaDiv(H, 2) * W <= |dest| && W * H + JavaDiv(H, 2) * W <= |src|
    ensures dest[..W * H + JavaDiv(H, 2) * W] == src[..W * H + JavaDiv(H, 2) * W]
  {
    var n := W * H + JavaDiv(H, 2) * W;
    if n > 0 {
      CropToSameSizeCopiesAt(src, W, H, dest, n - 1);
    }
    forall k | 0 <= k < n
      ensures dest[k] == src[k]
    {
      CropToSameSizeCopiesAt(src, W, H, dest, k);
    }
  }

  /** A square frame of side below 484 cropped to 640x480: the first row copy
      starts before the frame, so the crop throws. */
  lemma SmallSquareCropThrows(srcLen: int, side: int, destLen: int)
    requires 0 <= side < 484
    ensures !CropFits(srcLen, side, side, destLen, 640, 480)
  {
    var xo, yo := CropOffset(side, 640), CropOffset(side, 480);
    assert yo <= 0 && xo < 0;
    assert yo * side <= 0;
    assert !RowFits(srcLen, 0, side, yo, xo, destLen, 0, 640, 0);
  }

  /** A target taller than the source puts the first row copy before the
      start of the frame, so the crop throws. */
  lemma CropAboveFrameThrows(srcLen: int, W: int, H: int, destLen: int, w: int, h: int)
    requires 0 < W && 0 < h && CropOffset(H, h) < 0 && CropOffset(W, w) < W
    ensures !CropFits(srcLen, W, H, destLen, w, h)
  {
    var xo, yo := CropOffset(W, w), CropOffset(H, h);
    MulMono(1, -yo, W);
    assert RowMajor(W, yo, xo) < 0;
    assert !RowFits(srcLen, 0, W, yo, xo, destLen, 0, w, 0);
  }

  /** A 500x500 frame cropped to 640x480 does not throw, but each destination
      row starts 70 bytes before its source row (the first starts 70 bytes
      before source row 10), in the end of the previous row. */
  lemma MidSquareCropWraps()
    ensures CropOffset(500, 640) == -70 && CropOffset(500, 480) == 10
    ensures CropFits(FrameLength(500, 500), 500, 500, FrameLength(640, 480), 640, 480)
    ensures RowMajor(500, CropOffset(500, 480), CropOffset(500, 640)) == RowMajor(500, 10, 0) - 70
  {
    assert CropOffset(500, 640) == -70 && CropOffset(500, 480) == 10;
    assert JavaDiv(10, 2) == 5;
    forall i | 0 <= i < 480
      ensures RowFits(375000, 0, 500, 10, -70, 460800, 0, 640, i)
    {
    }
    forall i | 0 <= i < 240
      ensures RowFits(375000, 250000, 500, 5, -70, 460800, 307200, 640, i)
    {
    }
  }

  lemma HalfLumaPixelFits(srcLen: int, s: int, y: int, x: int)
    requires 0 <= s && srcLen >= s * s
    requires 0 <= y < s / 2 && 0 <= x < s / 2
    ensures LumaPixelFits(srcLen, s, (s / 2) * (s / 2), s / 2, y, x)
  {
    var w := s / 2;
    MulMono(2 * y + 1, s, s);
    MulMono(y + 1, w, w);
    assert (2 * y + 1) * s == (2 * y) * s + s;
    assert (y + 1) * w == y * w + w;
  }

  /** The source half of a chroma pair: row 2y of the chroma plane is at most
      row w - 2, inside the s/2 chroma rows of the frame. */
  lemma HalfChromaSourceFits(srcLen: int, s: int, y: int, x: int)
    requires 0 <= s && srcLen >= s * s + JavaDiv(s, 2) * s
    requires 0 <= y < JavaDiv(s / 2, 2) && 0 <= x < s / 2
    ensures 0 <= s * s + RowMajor(s, 2 * y, 2 * x) && s * s + RowMajor(s, 2 * y, 2 * x) + 1 < srcLen
  {
    var w := s / 2;
    MulMono(2 * y + 2, w, s);
    assert (2 * y + 2) * s == (2 * y) * s + 2 * s;
    MulMono(w, JavaDiv(s, 2), s);
  }

  /** The size of a w x w NV21 frame in terms of half the side:
      w*w + (w/2)*w, plus w/2 more when w is odd. */
  lemma SquareFrameLength(w: int)
    requires 0 <= w
    ensures FrameLength(w, w) == w * w + (w / 2) * w + (w % 2) * (w / 2)
  {
    var q, m := w / 2, w % 2;
    assert w * w == (2 * q + m) * w == 2 * (q * w) + m * w;
    assert m * w == m * (2 * q + m) == 2 * (m * q) + m * m;
    assert m * m == m;
    assert w * w * 3 == 2 * (w * w + q * w + m * q) + m;
  }

  /** The destination half of a chroma pair: inside FrameLength(w, w), also
      for an odd w, where the pair's U is the row's last byte plus one. */
  lemma HalfChromaDestFits(w: int, y: int, x: int)
    requires 0 <= w && 0 <= y < JavaDiv(w, 2) && 0 <= x < w && x % 2 == 0
    ensures 0 <= w * w + RowMajor(w, y, x) && w * w + RowMajor(w, y, x) + 1 < FrameLength(w, w)
  {
    var q := w / 2;
    SquareFrameLength(w);
    MulMono(y + 1, q, w);
    assert (y + 1) * w == y * w + w;
    if w % 2 == 1 {
      assert (w % 2) * q == q;
    } else {
      assert (w % 2) * q == 0;
      assert x + 2 <= w;
    }
  }

  /** Halving a square frame of side `side` into a buffer sized for the half
      frame never indexes out of range. */
  lemma DownscaleHalfFits(srcLen: int, side: int)
    requires 0 <= side && srcLen >= FrameLength(side, side)
    ensures DownscaleFits(srcLen, side, side, FrameLength(side / 2, side / 2), side / 2, side / 2)
  {
    var w := side / 2;
    HalfRowsFit(side, side);
    HalfRowsFit(w, w);
    forall y, x | 0 <= y < w && 0 <= x < w
      ensures LumaPixelFits(srcLen, side, FrameLength(w, w), w, y, x)
    {
      HalfLumaPixelFits(srcLen, side, y, x);
    }
    forall y, x | 0 <= y < JavaDiv(w, 2) && 0 <= x < w && x % 2 == 0
      ensures ChromaPairFits(srcLen, side * side, side, FrameLength(w, w), w * w, w, y, x)
    {
      HalfChromaSourceFits(srcLen, side, y, x);
      HalfChromaDestFits(w, y, x);
    }
  }
}
