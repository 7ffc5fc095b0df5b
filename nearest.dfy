/** `resize_rgba_nearest`: nearest-neighbour resampling through a precomputed
    column table. */
module Nearest {
  import opened Machine
  import opened ResizeErrors
  import opened Validation

  /** The source pixel sampled for destination coordinate `d` on an axis of
      `srcExt` source and `dstExt` destination pixels: the source pixel under
      the destination pixel's centre, `floor((d + 1/2) * srcExt / dstExt)`,
      clamped to the last source pixel. */
  function NearestIndex(d: nat, srcExt: nat, dstExt: nat): (s: nat)
    requires srcExt > 0 && dstExt > 0
    ensures s < srcExt
  {
    MulMonotone(0, 2 * d + 1, srcExt);
    var centre: nat := (2 * d + 1) * srcExt;
    Min(centre / (2 * dstExt), srcExt - 1)
  }

  /** Inside the destination the clamp never fires. */
  lemma NearestIndexUnclamped(d: nat, srcExt: nat, dstExt: nat)
    requires srcExt > 0 && d < dstExt
    ensures NearestIndex(d, srcExt, dstExt) == (2 * d + 1) * srcExt / (2 * dstExt)
  {
    var n, m := (2 * d + 1) * srcExt, 2 * dstExt;
    var q := n / m;
    MulMonotone(2 * d + 2, m, srcExt);
    assert n < (2 * d + 2) * srcExt;
    assert q * m <= n;
    MulCancel(q, srcExt, m);
  }

  /** Resizing to the same extent samples every pixel in place. */
  lemma NearestIndexIdentity(d: nat, n: nat)
    requires d < n
    ensures NearestIndex(d, n, n) == d
  {
    assert (2 * d + 1) * n == d * (2 * n) + n;
    DivModOf(d, 2 * n, n);
  }

  /** A larger destination coordinate never samples an earlier source pixel. */
  lemma NearestIndexMonotone(d: nat, d': nat, srcExt: nat, dstExt: nat)
    requires srcExt > 0 && dstExt > 0 && d <= d'
    ensures NearestIndex(d, srcExt, dstExt) <= NearestIndex(d', srcExt, dstExt)
  {
    MulMonotone(2 * d + 1, 2 * d' + 1, srcExt);
    DivMonotone((2 * d + 1) * srcExt, (2 * d' + 1) * srcExt, 2 * dstExt);
  }

  lemma DivMonotone(a: nat, b: nat, c: nat)
    requires a <= b && c > 0
    ensures a / c <= b / c
  {
    if a / c > b / c {
      MulMonotone(b / c + 1, a / c, c);
    }
  }

  /** The column table `X_INDICES_NEAREST`: byte offset of the sampled
      source pixel within a source row, per destination column. */
  function NearestLut(srcW: nat, dstW: nat): (lut: seq<nat>)
    requires srcW > 0 && dstW > 0
    ensures |lut| == dstW
  {
    seq(dstW, x requires 0 <= x => 4 * NearestIndex(x, srcW, dstW))
  }

  /** Every table entry is a whole pixel inside a source row. */
  lemma NearestLutEntries(srcW: nat, dstW: nat, x: nat)
    requires srcW > 0 && x < dstW
    ensures NearestLut(srcW, dstW)[x] % 4 == 0 && NearestLut(srcW, dstW)[x] + 4 <= srcW * 4
  {
  }

  /** Destination pixel (x, y): the source pixel its row and column map to. */
  function NearestPixel(s: seq<byte>, p: Params, x: nat, y: nat): Pixel
    requires p.srcW > 0 && p.srcH > 0 && p.dstW > 0 && p.dstH > 0 && |s| == p.srcW * p.srcH * 4
  {
    var sx, sy := NearestIndex(x, p.srcW, p.dstW), NearestIndex(y, p.srcH, p.dstH);
    RowMajorBound(sx, sy, p.srcW, p.srcH);
    PixelAt(s, ByteOffset(sx, sy, p.srcW))
  }

  /** The image `resize_rgba_nearest` produces from source bytes `s`. */
  function NearestImage(s: seq<byte>, p: Params): (img: seq<byte>)
    requires p.srcW > 0 && p.srcH > 0 && p.dstW > 0 && p.dstH > 0 && |s| == p.srcW * p.srcH * 4
    ensures |img| == p.dstW * p.dstH * 4
  {
    Raster(p.dstW, p.dstH, (x: nat, y: nat) => NearestPixel(s, p, x, y))
  }

  /** Every destination pixel holds the four bytes of the source pixel its
      column and row map to, and that pixel lies inside the source. */
  lemma NearestImageAt(s: seq<byte>, p: Params, x: nat, y: nat, k: nat)
    requires p.srcW > 0 && p.srcH > 0 && p.dstW > 0 && p.dstH > 0 && |s| == p.srcW * p.srcH * 4
    requires x < p.dstW && y < p.dstH && k < 4
    ensures var sx, sy := NearestIndex(x, p.srcW, p.dstW), NearestIndex(y, p.srcH, p.dstH);
            && sx < p.srcW && sy < p.srcH
            && ByteOffset(x, y, p.dstW) + k < |NearestImage(s, p)|
            && ByteOffset(sx, sy, p.srcW) + k < |s|
            && NearestImage(s, p)[ByteOffset(x, y, p.dstW) + k] == s[ByteOffset(sx, sy, p.srcW) + k]
  {
    RowMajorBound(NearestIndex(x, p.srcW, p.dstW), NearestIndex(y, p.srcH, p.dstH), p.srcW, p.srcH);
    RasterAt(p.dstW, p.dstH, (x: nat, y: nat) => NearestPixel(s, p, x, y), x, y, k);
  }

  /** The read half of one step of the copy loop: pixel (x, y)'s source
      offset, built from the row offset and the column table, is in range,
      and the four bytes there are the pixel the image defines. */
  lemma NearestFetchStep(s: seq<byte>, p: Params, lut: seq<nat>, rowOffset: nat, x: nat, y: nat)
    requires NonZero(p) && WithinPixelCap(p) && |s| == p.srcW * p.srcH * 4
    requires x < p.dstW && y < p.dstH
    requires lut == NearestLut(p.srcW, p.dstW) && rowOffset == NearestIndex(y, p.srcH, p.dstH) * p.srcW * 4
    ensures x < |lut| && rowOffset + lut[x] + 3 < |s| <= USIZE_MAX
    ensures PixelAt(s, rowOffset + lut[x]) == NearestPixel(s, p, x, y)
  {
    var sx, sy := NearestIndex(x, p.srcW, p.dstW), NearestIndex(y, p.srcH, p.dstH);
    assert NearestLut(p.srcW, p.dstW)[x] == 4 * sx;
    ByteOffsetSplit(sx, sy, p.srcW);
    RowMajorBound(sx, sy, p.srcW, p.srcH);
    RgbaSizeBounds(p.srcW, p.srcH);
  }

  /** The write half of one step of the copy loop: pixel (x, y)'s destination
      offset is in range, and the image holds that pixel's four channels
      there. */
  lemma NearestWriteStep(s: seq<byte>, p: Params, x: nat, y: nat)
    requires NonZero(p) && WithinPixelCap(p) && |s| == p.srcW * p.srcH * 4
    requires x < p.dstW && y < p.dstH
    ensures var dstIdx := (y * p.dstW + x) * 4;
            var px := NearestPixel(s, p, x, y);
            var img := NearestImage(s, p);
            && dstIdx == ByteOffset(0, y, p.dstW) + 4 * x
            && dstIdx + 3 < |img| <= USIZE_MAX
            && img[dstIdx] == px.r && img[dstIdx + 1] == px.g && img[dstIdx + 2] == px.b && img[dstIdx + 3] == px.a
  {
    RgbaSizeBounds(p.dstW, p.dstH);
    RasterPixelAt(p.dstW, p.dstH, (x: nat, y: nat) => NearestPixel(s, p, x, y), x, y);
  }

  /** Resizing to the source's own dimensions reproduces the source. */
  lemma NearestSameSizeIsCopy(s: seq<byte>, p: Params)
    requires p.srcW > 0 && p.srcH > 0 && |s| == p.srcW * p.srcH * 4
    requires p.dstW == p.srcW && p.dstH == p.srcH
    ensures NearestImage(s, p) == s
  {
    var img := NearestImage(s, p);
    forall i | 0 <= i < |s|
      ensures img[i] == s[i]
    {
      RasterIndex(i, p.srcW, p.srcH);
      var c := i / 4;
      SameSizePixel(s, p, c % p.srcW, c / p.srcW, i % 4);
    }
  }

  /** One channel of `NearestSameSizeIsCopy`: at equal dimensions pixel
      (x, y) maps to itself, so the image repeats the source's byte. */
  lemma SameSizePixel(s: seq<byte>, p: Params, x: nat, y: nat, k: nat)
    requires p.srcW > 0 && p.srcH > 0 && |s| == p.srcW * p.srcH * 4
    requires p.dstW == p.srcW && p.dstH == p.srcH && x < p.srcW && y < p.srcH && k < 4
    ensures ByteOffset(x, y, p.srcW) + k < |s|
    ensures NearestImage(s, p)[ByteOffset(x, y, p.srcW) + k] == s[ByteOffset(x, y, p.srcW) + k]
  {
    NearestIndexIdentity(x, p.srcW);
    NearestIndexIdentity(y, p.srcH);
    NearestImageAt(s, p, x, y, k);
  }

  /** The reusable column-table buffer of the nearest-neighbour path. */
  class NearestScratch {
    var xIndices: seq<nat>

    constructor ()
      ensures xIndices == []
    {
      xIndices := [];
    }
  }

  /** `resize_rgba_nearest`. A rejected call returns the validation code and
      writes nothing; an accepted one rebuilds the column table, writes every
      destination byte from the source pixel the index maps select, and
      returns `RESIZE_OK`. The last-error cell ends equal to the result. */
  method ResizeRgbaNearest(cell: ErrorCell, scratch: NearestScratch, p: Params, src: array<byte>, dst: array<byte>)
    returns (r: i32)
    requires BuffersMatch(p, src, dst)
    modifies cell, scratch, dst
    ensures cell.code == r
    ensures ValidateParams(p).Err? ==>
              r == ValidateParams(p).code && dst[..] == old(dst[..]) && scratch.xIndices == old(scratch.xIndices)
    ensures ValidateParams(p).Ok? ==>
              && r == RESIZE_OK
              && scratch.xIndices == NearestLut(p.srcW, p.dstW)
              && dst[..] == NearestImage(src[..], p)
  {
    var sizes := Validate(cell, p);
    if sizes.Err? {
      return sizes.code;
    }
    ValidateOkIff(p);
    FillNearestLut(scratch, p.srcW, p.dstW);
    var s := src[..];
    ghost var img := NearestImage(s, p);
    assert ByteOffset(0, 0, p.dstW) == 0;
    for y := 0 to p.dstH
      modifies dst
      invariant ByteOffset(0, y, p.dstW) <= dst.Length
      invariant dst[..ByteOffset(0, y, p.dstW)] == img[..ByteOffset(0, y, p.dstW)]
    {
      CopyNearestRow(s, dst, p, scratch.xIndices, y);
      RowStep(y, p.dstW, p.dstH);
    }
    assert dst[..] == dst[..ByteOffset(0, p.dstH, p.dstW)];
    r := RESIZE_OK;
  }

  /** The column-table loop of `resize_rgba_nearest`: the reused buffer is
      cleared and refilled with one entry per destination column. */
  method FillNearestLut(scratch: NearestScratch, srcW: u32, dstW: u32)
    requires srcW > 0 && dstW > 0
    modifies scratch
    ensures scratch.xIndices == NearestLut(srcW, dstW)
  {
    scratch.xIndices := [];
    for x := 0 to dstW
      invariant scratch.xIndices == NearestLut(srcW, dstW)[..x]
    {
      var srcX := NearestIndex(x, srcW, dstW);
      scratch.xIndices := scratch.xIndices + [srcX * 4];
    }
  }

  /** One pass of the row loop of `resize_rgba_nearest`: given a destination
      that agrees with the image on all rows above `y`, it agrees through
      row `y`. */
  method CopyNearestRow(s: seq<byte>, dst: array<byte>, p: Params, lut: seq<nat>, y: nat)
    requires NonZero(p) && WithinPixelCap(p)
    requires |s| == p.srcW * p.srcH * 4 && dst.Length == p.dstW * p.dstH * 4
    requires lut == NearestLut(p.srcW, p.dstW) && y < p.dstH
    requires ByteOffset(0, y, p.dstW) <= dst.Length
    requires dst[..ByteOffset(0, y, p.dstW)] == NearestImage(s, p)[..ByteOffset(0, y, p.dstW)]
    modifies dst
    ensures ByteOffset(0, y + 1, p.dstW) <= dst.Length
    ensures dst[..ByteOffset(0, y + 1, p.dstW)] == NearestImage(s, p)[..ByteOffset(0, y + 1, p.dstW)]
  {
    ghost var img := NearestImage(s, p);
    var srcY := NearestIndex(y, p.srcH, p.dstH);
    RowMajorBound(0, srcY, p.srcW, p.srcH);
    ByteOffsetSplit(0, srcY, p.srcW);
    RgbaSizeBounds(p.srcW, p.srcH);
    // Neither the row offset's checked multiplications nor its range guard can fail.
    var srcYOffset := srcY * p.srcW * 4;
    assert srcYOffset <= USIZE_MAX && srcYOffset < |s|;
    RowStep(y, p.dstW, p.dstH);
    ghost var rowStart := ByteOffset(0, y, p.dstW);
    for x := 0 to p.dstW
      invariant dst[..rowStart + 4 * x] == img[..rowStart + 4 * x]
    {
      CopyNearestPixel(s, dst, p, lut, y, x, srcYOffset);
    }
  }

  /** One step of the inner copy loop: destination pixel (x, y) is fetched
      from its nearest source pixel through the row offset and the column
      table, and stored; the destination prefix that agrees with the nearest
      image grows by that pixel. */
  method CopyNearestPixel(s: seq<byte>, dst: array<byte>, p: Params, lut: seq<nat>, y: nat, x: nat, srcYOffset: nat)
    requires NonZero(p) && WithinPixelCap(p)
    requires |s| == p.srcW * p.srcH * 4 && dst.Length == p.dstW * p.dstH * 4
    requires lut == NearestLut(p.srcW, p.dstW) && x < p.dstW && y < p.dstH
    requires srcYOffset == NearestIndex(y, p.srcH, p.dstH) * p.srcW * 4
    requires ByteOffset(0, y, p.dstW) + 4 * x <= dst.Length
    requires dst[..ByteOffset(0, y, p.dstW) + 4 * x] == NearestImage(s, p)[..ByteOffset(0, y, p.dstW) + 4 * x]
    modifies dst
    ensures ByteOffset(0, y, p.dstW) + 4 * (x + 1) <= dst.Length
    ensures dst[..ByteOffset(0, y, p.dstW) + 4 * (x + 1)] == NearestImage(s, p)[..ByteOffset(0, y, p.dstW) + 4 * (x + 1)]
  {
    NearestFetchStep(s, p, lut, srcYOffset, x, y);
    NearestWriteStep(s, p, x, y);
    // The LUT index, the overflow checks and both four-byte range guards always pass.
    var srcIdx := srcYOffset + lut[x];
    var dstIdx := (y * p.dstW + x) * 4;
    assert srcIdx <= USIZE_MAX && dstIdx <= USIZE_MAX;
    assert srcIdx + 3 < |s| && dstIdx + 3 < dst.Length;
    var px := Pixel(s[srcIdx], s[srcIdx + 1], s[srcIdx + 2], s[srcIdx + 3]);
    StoreNextPixel(dst, NearestImage(s, p), dstIdx, px);
  }

  // The simd128 build of the inner copy, as written.

  /** Bytes the simd128 build copies for ONE destination pixel: when the source
      and destination byte addresses are both 16-aligned it calls
      `copy_4_pixels_simd`, which moves 16 bytes; otherwise it moves the pixel's 4. */
  function SimdBuildPixelCopyWidth(srcAddr: nat, dstAddr: nat): (n: nat)
    ensures n == 16 <==> srcAddr % 16 == 0 && dstAddr % 16 == 0
    ensures n == 4 || n == 16
  {
    if srcAddr % 16 == 0 && dstAddr % 16 == 0 then 16 else 4
  }

  /** A 1x1 to 1x1 resize at 16-aligned, disjoint addresses passes validation
      and both four-byte range guards, yet the simd128 build then copies 16
      bytes: 12 bytes read past the 4-byte source and 12 written past the 4-byte
      destination. */
  lemma SimdBuildOverrunsOnePixelImage()
    ensures var p := Params(16, 1, 1, 32, 1, 1);
            var srcIdx, dstIdx := ByteOffset(NearestIndex(0, 1, 1), NearestIndex(0, 1, 1), 1), ByteOffset(0, 0, 1);
            && ValidateParams(p) == Ok(Sizes(4, 4))
            && srcIdx + 3 < 4 && dstIdx + 3 < 4
            && dstIdx + SimdBuildPixelCopyWidth(p.srcPtr + srcIdx, p.dstPtr + dstIdx) == 4 + 12
            && srcIdx + SimdBuildPixelCopyWidth(p.srcPtr + srcIdx, p.dstPtr + dstIdx) == 4 + 12
  {
  }
}
