/** `resize_rgba_gamma_bilinear`: bilinear resampling whose colour blend
    works in linear light. The blend itself and the sRGB transfer functions
    are parameters; what is modelled is everything around them: the lazily
    built conversion tables, validation, the column table, the traversal in
    cache-line batches, the guarded pixel fetch and the guarded writes. */
module GammaBilinear {
  import opened Machine
  import opened ResizeErrors
  import opened Validation
  import ResizeRgba

  /** Entries of each sRGB conversion table, one per 8-bit value. */
  const GAMMA_LUT_SIZE: nat := 256
  /** `PIXELS_PER_CACHE_LINE`: a 64-byte cache line holds 16 RGBA pixels. */
  const PIXELS_PER_CACHE_LINE: nat := 64 / 4

  // The conversion tables.

  /** The 256-entry table whose entry `i` is `f(i / 255)`. */
  function LutOf(f: real -> real): (t: seq<real>)
    ensures |t| == GAMMA_LUT_SIZE
  {
    seq(GAMMA_LUT_SIZE, i requires 0 <= i < GAMMA_LUT_SIZE => f(i as real / 255.0))
  }

  /** The (sRGB-to-linear, linear-to-sRGB) table pair after `init_gamma_luts`
      ran on the pair `(toLinear, toSrgb)`. */
  function InitLuts(toLinear: seq<real>, toSrgb: seq<real>, srgbToLinear: real -> real, linearToSrgb: real -> real)
    : (r: (seq<real>, seq<real>))
    ensures |r.0| == GAMMA_LUT_SIZE && |r.1| == GAMMA_LUT_SIZE
  {
    if |toLinear| == GAMMA_LUT_SIZE && |toSrgb| == GAMMA_LUT_SIZE then (toLinear, toSrgb)
    else (LutOf(srgbToLinear), LutOf(linearToSrgb))
  }

  /** Initialising is idempotent, and keeps a complete pair of tables as it
      is; any other pair, including one with a single complete table, is
      rebuilt from the conversion functions in full. */
  lemma InitLutsSpec(toLinear: seq<real>, toSrgb: seq<real>, f: real -> real, g: real -> real)
    ensures var once := InitLuts(toLinear, toSrgb, f, g);
            InitLuts(once.0, once.1, f, g) == once
    ensures |toLinear| == GAMMA_LUT_SIZE && |toSrgb| == GAMMA_LUT_SIZE ==>
              InitLuts(toLinear, toSrgb, f, g) == (toLinear, toSrgb)
    ensures |toLinear| != GAMMA_LUT_SIZE || |toSrgb| != GAMMA_LUT_SIZE ==>
              InitLuts(toLinear, toSrgb, f, g) == (LutOf(f), LutOf(g))
  {
  }

  /** The thread-local state of the gamma path: the two conversion tables and
      the three reusable column-table buffers. */
  class GammaState {
    var srgbToLinear: seq<real>
    var linearToSrgb: seq<real>
    var x0Indices: seq<nat>
    var x1Indices: seq<nat>
    var fxValues: seq<real>

    /** Every buffer starts out empty. */
    constructor ()
      ensures srgbToLinear == [] && linearToSrgb == []
      ensures x0Indices == [] && x1Indices == [] && fxValues == []
    {
      srgbToLinear, linearToSrgb := [], [];
      x0Indices, x1Indices, fxValues := [], [], [];
    }
  }

  /** `init_gamma_luts`: returns at once when both tables hold 256 entries;
      otherwise clears both and pushes `f(i / 255)` for every `i`. The column
      tables are not touched. */
  method InitGammaLuts(g: GammaState, srgbToLinear: real -> real, linearToSrgb: real -> real)
    modifies g
    ensures (g.srgbToLinear, g.linearToSrgb) ==
            InitLuts(old(g.srgbToLinear), old(g.linearToSrgb), srgbToLinear, linearToSrgb)
    ensures g.x0Indices == old(g.x0Indices) && g.x1Indices == old(g.x1Indices) && g.fxValues == old(g.fxValues)
  {
    if |g.srgbToLinear| == GAMMA_LUT_SIZE && |g.linearToSrgb| == GAMMA_LUT_SIZE {
      return;
    }
    var toLinear, toSrgb := [], [];
    for i := 0 to GAMMA_LUT_SIZE
      invariant |toLinear| == i && |toSrgb| == i
      invariant forall j :: 0 <= j < i ==> toLinear[j] == srgbToLinear(j as real / 255.0)
      invariant forall j :: 0 <= j < i ==> toSrgb[j] == linearToSrgb(j as real / 255.0)
    {
      toLinear := toLinear + [srgbToLinear(i as real / 255.0)];
      toSrgb := toSrgb + [linearToSrgb(i as real / 255.0)];
    }
    assert toLinear == LutOf(srgbToLinear) && toSrgb == LutOf(linearToSrgb);
    g.srgbToLinear, g.linearToSrgb := toLinear, toSrgb;
  }

  // Sampling positions.

  /** The two neighbouring source pixels and the weight of the second that
      one destination coordinate samples on one axis. */
  datatype Tap = Tap(lo: nat, hi: nat, frac: real)

  /** The tap of destination coordinate `d` on an axis of `srcExt` source and
      `dstExt` destination pixels. The source coordinate of the pixel centre
      is `c = (d + 1/2) * srcExt / dstExt - 1/2`, here the exact fraction
      `((2d + 1) * srcExt - dstExt) / (2 * dstExt)`; `i0 = floor(c)` may be
      -1, `i1 = min(i0 + 1, srcExt - 1)`, the weight is `c - i0` clamped to
      [0, 1], and both indices are clamped to the source. */
  function AxisTap(d: nat, srcExt: nat, dstExt: nat): (t: Tap)
    requires srcExt > 0 && dstExt > 0
    ensures t.lo < srcExt && t.hi < srcExt && 0.0 <= t.frac <= 1.0
  {
    var num, den := (2 * d + 1) * srcExt - dstExt, 2 * dstExt;
    var i0 := num / den;
    var i1 := Min(i0 + 1, srcExt - 1);
    var raw := num as real / den as real - i0 as real;
    var frac := if raw < 0.0 then 0.0 else if raw > 1.0 then 1.0 else raw;
    Tap(Clamp(i0, 0, srcExt - 1), Clamp(i1, 0, srcExt - 1), frac)
  }

  /** The floor `i0` of a destination pixel's source coordinate lies in
      [-1, srcExt - 1]: at most one pixel before the source, never after it. */
  lemma TapFloorRange(d: nat, srcExt: nat, dstExt: nat)
    requires srcExt > 0 && d < dstExt
    ensures var num, den := (2 * d + 1) * srcExt - dstExt, 2 * dstExt;
            -1 <= num / den <= srcExt - 1
  {
    var num, den := (2 * d + 1) * srcExt - dstExt, 2 * dstExt;
    MulMonotone(1, 2 * d + 1, srcExt);
    MulMonotone(2 * d + 2, den, srcExt);
    assert (2 * d + 1) * srcExt + srcExt == (2 * d + 2) * srcExt;
    DivBetween(num, den, -1, srcExt);
  }

  /** `lo * d <= n < hi * d` puts `n / d` in [lo, hi). */
  lemma DivBetween(n: int, d: nat, lo: int, hi: int)
    requires d > 0 && lo * d <= n < hi * d
    ensures lo <= n / d < hi
  {
    var q := n / d;
    assert q * d <= n < q * d + d;
    assert (q + 1) * d == q * d + d;
    MulCancel(lo, q + 1, d);
    MulCancel(q, hi, d);
  }

  /** The two taps of a coordinate are the same pixel or horizontal (or
      vertical) neighbours; they coincide only at the first or the last
      source pixel. The weight is exactly the distance of the source
      coordinate from its floor, so the clamp to [0, 1] never changes it. */
  lemma AxisTapSpec(d: nat, srcExt: nat, dstExt: nat)
    requires srcExt > 0 && d < dstExt
    ensures var t := AxisTap(d, srcExt, dstExt);
            var num, den := (2 * d + 1) * srcExt - dstExt, 2 * dstExt;
            && (t.hi == t.lo + 1 || (t.hi == t.lo && (t.lo == 0 || t.lo == srcExt - 1)))
            && t.frac == num as real / den as real - (num / den) as real
            && t.frac < 1.0
  {
    var num, den := (2 * d + 1) * srcExt - dstExt, 2 * dstExt;
    TapFloorRange(d, srcExt, dstExt);
    FracOfFloor(num, den);
  }

  /** `n / d - floor(n / d)` lies in [0, 1) for a positive `d`. */
  lemma FracOfFloor(n: int, d: nat)
    requires d > 0
    ensures 0.0 <= n as real / d as real - (n / d) as real < 1.0
  {
    var q, r := n / d, n % d;
    assert n == q * d + r && 0 <= r < d;
    assert n as real == q as real * d as real + r as real;
    assert n as real / d as real == q as real + r as real / d as real;
  }

  /** Resizing to the same extent samples every pixel in place with weight 0. */
  lemma AxisTapIdentity(d: nat, n: nat)
    requires d < n
    ensures AxisTap(d, n, n) == Tap(d, Min(d + 1, n - 1), 0.0)
  {
    assert (2 * d + 1) * n - n == d * (2 * n) by {
      assert (2 * d + 1) * n == 2 * (d * n) + n;
      assert d * (2 * n) == 2 * (d * n);
    }
    AxisTapExact(d, n, n, d);
  }

  /** When the scaled source coordinate of a destination pixel is exactly
      the whole pixel `q`, the tap is `q` and its right neighbour with weight 0. */
  lemma AxisTapExact(d: nat, srcExt: nat, dstExt: nat, q: nat)
    requires srcExt > 0 && dstExt > 0 && q < srcExt
    requires (2 * d + 1) * srcExt - dstExt == q * (2 * dstExt)
    ensures AxisTap(d, srcExt, dstExt) == Tap(q, Min(q + 1, srcExt - 1), 0.0)
  {
    var num, den := (2 * d + 1) * srcExt - dstExt, 2 * dstExt;
    DivModOf(q, den, 0);
    assert num / den == q;
    RealDivCancel(q, den);
    assert num as real / den as real - q as real == 0.0;
  }

  lemma RealDivCancel(a: nat, b: nat)
    requires b > 0
    ensures (a * b) as real / b as real == a as real
  {
    assert (a * b) as real == a as real * b as real;
  }

  /** The column tables the gamma path pushes into `X0_INDICES`,
      `X1_INDICES` and `FX_VALUES`: byte offsets of the two column taps
      within a source row, and the column weight. */
  function X0Lut(srcW: nat, dstW: nat): (lut: seq<nat>)
    requires srcW > 0 && dstW > 0
    ensures |lut| == dstW
  {
    seq(dstW, x requires 0 <= x => 4 * AxisTap(x, srcW, dstW).lo)
  }

  function X1Lut(srcW: nat, dstW: nat): (lut: seq<nat>)
    requires srcW > 0 && dstW > 0
    ensures |lut| == dstW
  {
    seq(dstW, x requires 0 <= x => 4 * AxisTap(x, srcW, dstW).hi)
  }

  function FxLut(srcW: nat, dstW: nat): (lut: seq<real>)
    requires srcW > 0 && dstW > 0
    ensures |lut| == dstW
  {
    seq(dstW, x requires 0 <= x => AxisTap(x, srcW, dstW).frac)
  }

  /** Every column-table entry is a whole pixel inside a source row, the
      second tap is the first or the pixel after it, and every weight is in
      [0, 1). */
  lemma XLutEntries(srcW: nat, dstW: nat, x: nat)
    requires srcW > 0 && x < dstW
    ensures var x0, x1 := X0Lut(srcW, dstW)[x], X1Lut(srcW, dstW)[x];
            && x0 % 4 == 0 && x1 % 4 == 0 && x0 + 4 <= srcW * 4 && x1 + 4 <= srcW * 4
            && (x1 == x0 || x1 == x0 + 4)
            && 0.0 <= FxLut(srcW, dstW)[x] < 1.0
  {
    var t := AxisTap(x, srcW, dstW);
    TapShape(x, srcW, dstW);
    assert X0Lut(srcW, dstW)[x] == 4 * t.lo && X1Lut(srcW, dstW)[x] == 4 * t.hi;
    assert FxLut(srcW, dstW)[x] == t.frac;
  }

  /** The part of `AxisTapSpec` the column tables need: the second tap is
      the first or its neighbour, and the weight is below 1. */
  lemma TapShape(d: nat, srcExt: nat, dstExt: nat)
    requires srcExt > 0 && d < dstExt
    ensures var t := AxisTap(d, srcExt, dstExt);
            (t.hi == t.lo || t.hi == t.lo + 1) && t.frac < 1.0
  {
    AxisTapSpec(d, srcExt, dstExt);
  }

  /** The column-table loop: the three reused buffers are cleared and refilled
      with one entry per destination column; the conversion tables stay. */
  method FillGammaXLut(g: GammaState, srcW: u32, dstW: u32)
    requires srcW > 0 && dstW > 0
    modifies g
    ensures g.x0Indices == X0Lut(srcW, dstW) && g.x1Indices == X1Lut(srcW, dstW) && g.fxValues == FxLut(srcW, dstW)
    ensures g.srgbToLinear == old(g.srgbToLinear) && g.linearToSrgb == old(g.linearToSrgb)
  {
    g.x0Indices, g.x1Indices, g.fxValues := [], [], [];
    for x := 0 to dstW
      invariant g.x0Indices == X0Lut(srcW, dstW)[..x]
      invariant g.x1Indices == X1Lut(srcW, dstW)[..x]
      invariant g.fxValues == FxLut(srcW, dstW)[..x]
      invariant g.srgbToLinear == old(g.srgbToLinear) && g.linearToSrgb == old(g.linearToSrgb)
    {
      var t := AxisTap(x, srcW, dstW);
      g.x0Indices := g.x0Indices + [4 * t.lo];
      g.x1Indices := g.x1Indices + [4 * t.hi];
      g.fxValues := g.fxValues + [t.frac];
    }
  }

  // Fetching source pixels.

  /** The `get_pixel_safe` closure of the gamma path: the four bytes at
      `offset + idx` when they lie inside `src`; otherwise the last complete
      pixel, at `(len / 4 - 1) * 4`; a transparent pixel when the position
      overflows `usize` or `src` is shorter than one pixel. */
  function GammaGetPixelSafe(src: seq<byte>, offset: usize, idx: usize): (px: Pixel)
    requires |src| <= USIZE_MAX
    ensures offset + idx + 3 < |src| ==> px == PixelAt(src, offset + idx)
    ensures offset + idx <= USIZE_MAX && offset + idx + 3 >= |src| && |src| >= 4 ==>
              px == PixelAt(src, (|src| / 4 - 1) * 4)
    ensures offset + idx > USIZE_MAX || |src| < 4 ==> px == TRANSPARENT
  {
    match CheckedAdd(offset, idx, USIZE_MAX)
    case None => TRANSPARENT
    case Some(pos) =>
      if SatAdd(pos, 3, USIZE_MAX) >= |src| then
        if |src| >= 4 then
          var clampedPos := (|src| / 4 - 1) * 4;
          if clampedPos < |src| && SatAdd(clampedPos, 3, USIZE_MAX) < |src| then PixelAt(src, clampedPos)
          else TRANSPARENT
        else TRANSPARENT
      else if pos >= |src| then TRANSPARENT
      else PixelAt(src, pos)
  }

  /** On a buffer of whole pixels the gamma path's fetch and the one of
      `resize_rgba` agree: the last complete pixel is the last four bytes. */
  lemma GetPixelSafeVariantsAgree(src: seq<byte>, offset: usize, idx: usize)
    requires |src| <= USIZE_MAX && |src| % 4 == 0
    ensures GammaGetPixelSafe(src, offset, idx) == ResizeRgba.GetPixelSafe(src, offset, idx)
  {
    if |src| >= 4 {
      assert (|src| / 4 - 1) * 4 == |src| - 4;
    }
  }

  // The image the gamma path produces.

  /** The colour computation, kept abstract: the four neighbours (top-left,
      top-right, bottom-left, bottom-right) and the column and row weights. */
  type Blend = (Pixel, Pixel, Pixel, Pixel, real, real) -> Pixel

  /** Destination pixel (x, y): the blend of the four source pixels at its
      column and row taps. */
  function GammaPixel(s: seq<byte>, p: Params, blend: Blend, x: nat, y: nat): Pixel
    requires NonZero(p) && |s| == p.srcW * p.srcH * 4
  {
    var tx, ty := AxisTap(x, p.srcW, p.dstW), AxisTap(y, p.srcH, p.dstH);
    RowMajorBound(tx.lo, ty.lo, p.srcW, p.srcH);
    RowMajorBound(tx.hi, ty.lo, p.srcW, p.srcH);
    RowMajorBound(tx.lo, ty.hi, p.srcW, p.srcH);
    RowMajorBound(tx.hi, ty.hi, p.srcW, p.srcH);
    blend(PixelAt(s, ByteOffset(tx.lo, ty.lo, p.srcW)), PixelAt(s, ByteOffset(tx.hi, ty.lo, p.srcW)),
          PixelAt(s, ByteOffset(tx.lo, ty.hi, p.srcW)), PixelAt(s, ByteOffset(tx.hi, ty.hi, p.srcW)),
          tx.frac, ty.frac)
  }

  /** The image `resize_rgba_gamma_bilinear` produces from source bytes `s`. */
  function GammaImage(s: seq<byte>, p: Params, blend: Blend): (img: seq<byte>)
    requires NonZero(p) && |s| == p.srcW * p.srcH * 4
    ensures |img| == p.dstW * p.dstH * 4
  {
    Raster(p.dstW, p.dstH, (x: nat, y: nat) => GammaPixel(s, p, blend, x, y))
  }

  /** After validation the guarded fetch never replicates an edge: a tap
      inside the source always yields the pixel it names. */
  lemma GammaFetchExact(s: seq<byte>, p: Params, tx: nat, ty: nat)
    requires NonZero(p) && WithinPixelCap(p) && |s| == p.srcW * p.srcH * 4
    requires tx < p.srcW && ty < p.srcH
    ensures ty * p.srcW * 4 <= USIZE_MAX && 4 * tx <= USIZE_MAX && |s| <= USIZE_MAX
    ensures ByteOffset(tx, ty, p.srcW) + 3 < |s|
    ensures GammaGetPixelSafe(s, ty * p.srcW * 4, 4 * tx) == PixelAt(s, ByteOffset(tx, ty, p.srcW))
  {
    RowMajorBound(tx, ty, p.srcW, p.srcH);
    ByteOffsetSplit(tx, ty, p.srcW);
    RgbaSizeBounds(p.srcW, p.srcH);
  }

  /** The fetch half of one step of the column loop: the four fetches built
      from the row offsets and the column tables return the four tap pixels,
      so the blend sees exactly the pixel the image defines. */
  method BlendAt(s: seq<byte>, p: Params, blend: Blend, x0s: seq<nat>, x1s: seq<nat>, fxs: seq<real>,
                 x: nat, y: nat, fy: real, y0Offset: nat, y1Offset: nat)
    returns (px: Pixel)
    requires NonZero(p) && WithinPixelCap(p) && |s| == p.srcW * p.srcH * 4
    requires x0s == X0Lut(p.srcW, p.dstW) && x1s == X1Lut(p.srcW, p.dstW) && fxs == FxLut(p.srcW, p.dstW)
    requires x < p.dstW && y < p.dstH
    requires fy == AxisTap(y, p.srcH, p.dstH).frac
    requires y0Offset == AxisTap(y, p.srcH, p.dstH).lo * p.srcW * 4
    requires y1Offset == AxisTap(y, p.srcH, p.dstH).hi * p.srcW * 4
    ensures px == GammaPixel(s, p, blend, x, y)
  {
    var tx, ty := AxisTap(x, p.srcW, p.dstW), AxisTap(y, p.srcH, p.dstH);
    GammaFetchExact(s, p, tx.lo, ty.lo);
    GammaFetchExact(s, p, tx.hi, ty.lo);
    GammaFetchExact(s, p, tx.lo, ty.hi);
    GammaFetchExact(s, p, tx.hi, ty.hi);
    // The table-index guard always passes.
    assert x < |x0s| && x < |x1s| && x < |fxs|;
    var x0, x1, fx := x0s[x], x1s[x], fxs[x];
    var p00 := GammaGetPixelSafe(s, y0Offset, x0);
    var p10 := GammaGetPixelSafe(s, y0Offset, x1);
    var p01 := GammaGetPixelSafe(s, y1Offset, x0);
    var p11 := GammaGetPixelSafe(s, y1Offset, x1);
    // Both weights already lie in [0, 1], so `fx_safe` and `fy_safe` are `fx` and `fy`.
    px := blend(p00, p10, p01, p11, fx, fy);
  }

  /** The write half of one step of the column loop: the destination offset
      of pixel (x, y) is in range, and its four bytes in the image are the
      channels of that pixel. */
  lemma GammaWriteStep(s: seq<byte>, p: Params, blend: Blend, x: nat, y: nat)
    requires NonZero(p) && WithinPixelCap(p) && |s| == p.srcW * p.srcH * 4
    requires x < p.dstW && y < p.dstH
    ensures var dstIdx := (y * p.dstW + x) * 4;
            var px := GammaPixel(s, p, blend, x, y);
            var img := GammaImage(s, p, blend);
            && dstIdx == ByteOffset(0, y, p.dstW) + 4 * x
            && dstIdx + 3 < p.dstW * p.dstH * 4 <= USIZE_MAX
            && img[dstIdx] == px.r && img[dstIdx + 1] == px.g && img[dstIdx + 2] == px.b && img[dstIdx + 3] == px.a
  {
    RgbaSizeBounds(p.dstW, p.dstH);
    RasterPixelAt(p.dstW, p.dstH, (x: nat, y: nat) => GammaPixel(s, p, blend, x, y), x, y);
  }

  // The batched traversal of one row.

  /** Column counts of the successive batches over `n` columns when each
      batch takes `min(batch, remaining)`. */
  function BatchPlan(n: nat, batch: nat): seq<nat>
    requires batch > 0
    decreases n
  {
    if n == 0 then [] else var c := Min(batch, n); [c] + BatchPlan(n - c, batch)
  }

  /** Taking the next batch moves it from the plan of the remaining columns
      to the batches done. */
  lemma BatchPlanAppend(n: nat, batch: nat, done: seq<nat>, x: nat, done': seq<nat>, x': nat)
    requires batch > 0 && x < n && done + BatchPlan(n - x, batch) == BatchPlan(n, batch)
    requires done' == done + [Min(batch, n - x)] && x' == x + Min(batch, n - x)
    ensures done' + BatchPlan(n - x', batch) == BatchPlan(n, batch)
  {
    var c := Min(batch, n - x);
    assert BatchPlan(n - x, batch) == [c] + BatchPlan(n - x - c, batch);
    assert (done + [c]) + BatchPlan(n - (x + c), batch) == done + ([c] + BatchPlan(n - x - c, batch));
  }

  function Sum(s: seq<nat>): nat
  {
    if s == [] then 0 else s[0] + Sum(s[1..])
  }

  /** The batches cover the `n` columns exactly; every batch is non-empty and
      at most `batch` wide, and every batch but the last is full. */
  lemma {:induction false} BatchPlanCovers(n: nat, batch: nat)
    requires batch > 0
    ensures var plan := BatchPlan(n, batch);
            && Sum(plan) == n
            && (forall i :: 0 <= i < |plan| ==> 1 <= plan[i] <= batch)
            && (forall i :: 0 <= i < |plan| - 1 ==> plan[i] == batch)
  {
    if n > 0 {
      var c := Min(batch, n);
      BatchPlanCovers(n - c, batch);
      var rest := BatchPlan(n - c, batch);
      assert BatchPlan(n, batch) == [c] + rest;
      assert ([c] + rest)[1..] == rest;
      if c < batch {
        assert n - c == 0;
      }
    }
  }

  /** Row `y` of the gamma path: the row taps and offsets, then the columns
      in batches of `min(16, dst_w)`. Given a destination that agrees with
      the image on all rows above, it agrees through row `y`. Ghost-wise, the
      columns are taken in the batches `BatchPlan` lists, which cover the row
      exactly (`BatchPlanCovers`). */
  method GammaRow(s: seq<byte>, dst: array<byte>, p: Params, x0s: seq<nat>, x1s: seq<nat>, fxs: seq<real>,
                  y: nat, blend: Blend)
    returns (ghost batches: seq<nat>)
    requires NonZero(p) && WithinPixelCap(p)
    requires |s| == p.srcW * p.srcH * 4 && dst.Length == p.dstW * p.dstH * 4
    requires x0s == X0Lut(p.srcW, p.dstW) && x1s == X1Lut(p.srcW, p.dstW) && fxs == FxLut(p.srcW, p.dstW)
    requires y < p.dstH
    requires ByteOffset(0, y, p.dstW) <= dst.Length
    requires dst[..ByteOffset(0, y, p.dstW)] == GammaImage(s, p, blend)[..ByteOffset(0, y, p.dstW)]
    modifies dst
    ensures ByteOffset(0, y + 1, p.dstW) <= dst.Length
    ensures dst[..ByteOffset(0, y + 1, p.dstW)] == GammaImage(s, p, blend)[..ByteOffset(0, y + 1, p.dstW)]
    ensures batches == BatchPlan(p.dstW, Min(PIXELS_PER_CACHE_LINE, p.dstW))
  {
    var ty := AxisTap(y, p.srcH, p.dstH);
    RowOffsetsInRange(p, ty);
    // Neither row offset's checked multiplications nor the range guard can fail.
    var y0Offset, y1Offset := ty.lo * p.srcW * 4, ty.hi * p.srcW * 4;
    assert y0Offset < |s| && y1Offset < |s|;
    batches := GammaColumns(s, dst, p, x0s, x1s, fxs, y, ty.frac, y0Offset, y1Offset, blend);
  }

  /** The column loop of row `y`: batches of `min(16, dst_w)` columns, the
      last one possibly shorter, until the row is done. */
  method GammaColumns(s: seq<byte>, dst: array<byte>, p: Params, x0s: seq<nat>, x1s: seq<nat>, fxs: seq<real>,
                      y: nat, fy: real, y0Offset: nat, y1Offset: nat, blend: Blend)
    returns (ghost batches: seq<nat>)
    requires NonZero(p) && WithinPixelCap(p)
    requires |s| == p.srcW * p.srcH * 4 && dst.Length == p.dstW * p.dstH * 4
    requires x0s == X0Lut(p.srcW, p.dstW) && x1s == X1Lut(p.srcW, p.dstW) && fxs == FxLut(p.srcW, p.dstW)
    requires y < p.dstH
    requires fy == AxisTap(y, p.srcH, p.dstH).frac
    requires y0Offset == AxisTap(y, p.srcH, p.dstH).lo * p.srcW * 4
    requires y1Offset == AxisTap(y, p.srcH, p.dstH).hi * p.srcW * 4
    requires ByteOffset(0, y, p.dstW) <= dst.Length
    requires dst[..ByteOffset(0, y, p.dstW)] == GammaImage(s, p, blend)[..ByteOffset(0, y, p.dstW)]
    modifies dst
    ensures ByteOffset(0, y + 1, p.dstW) <= dst.Length
    ensures dst[..ByteOffset(0, y + 1, p.dstW)] == GammaImage(s, p, blend)[..ByteOffset(0, y + 1, p.dstW)]
    ensures batches == BatchPlan(p.dstW, Min(PIXELS_PER_CACHE_LINE, p.dstW))
  {
    RowStep(y, p.dstW, p.dstH);
    var batchSize: nat := Min(PIXELS_PER_CACHE_LINE, p.dstW);
    var x := 0;
    batches := [];
    while x < p.dstW
      invariant x <= p.dstW
      invariant batches + BatchPlan(p.dstW - x, batchSize) == BatchPlan(p.dstW, batchSize)
      invariant dst[..ByteOffset(0, y, p.dstW) + 4 * x] == GammaImage(s, p, blend)[..ByteOffset(0, y, p.dstW) + 4 * x]
      decreases p.dstW - x
    {
      x, batches := ColumnStep(s, dst, p, x0s, x1s, fxs, y, fy, y0Offset, y1Offset, blend, batchSize, x, batches);
    }
    assert BatchPlan(p.dstW - x, batchSize) == [];
  }

  /** One pass of the column loop: the next batch of `min(batch_size,
      remaining)` columns is written and recorded, and both loop invariants
      hold again at the new column. */
  method ColumnStep(s: seq<byte>, dst: array<byte>, p: Params, x0s: seq<nat>, x1s: seq<nat>, fxs: seq<real>,
                    y: nat, fy: real, y0Offset: nat, y1Offset: nat, blend: Blend,
                    batchSize: nat, x: nat, ghost batches: seq<nat>)
    returns (x': nat, ghost batches': seq<nat>)
    requires NonZero(p) && WithinPixelCap(p)
    requires |s| == p.srcW * p.srcH * 4 && dst.Length == p.dstW * p.dstH * 4
    requires x0s == X0Lut(p.srcW, p.dstW) && x1s == X1Lut(p.srcW, p.dstW) && fxs == FxLut(p.srcW, p.dstW)
    requires y < p.dstH
    requires fy == AxisTap(y, p.srcH, p.dstH).frac
    requires y0Offset == AxisTap(y, p.srcH, p.dstH).lo * p.srcW * 4
    requires y1Offset == AxisTap(y, p.srcH, p.dstH).hi * p.srcW * 4
    requires ByteOffset(0, y, p.dstW) + 4 * p.dstW <= dst.Length
    requires batchSize > 0 && x < p.dstW
    requires batches + BatchPlan(p.dstW - x, batchSize) == BatchPlan(p.dstW, batchSize)
    requires dst[..ByteOffset(0, y, p.dstW) + 4 * x] == GammaImage(s, p, blend)[..ByteOffset(0, y, p.dstW) + 4 * x]
    modifies dst
    ensures x < x' <= p.dstW
    ensures batches' + BatchPlan(p.dstW - x', batchSize) == BatchPlan(p.dstW, batchSize)
    ensures dst[..ByteOffset(0, y, p.dstW) + 4 * x'] == GammaImage(s, p, blend)[..ByteOffset(0, y, p.dstW) + 4 * x']
  {
    var remaining := p.dstW - x;
    var currentBatch: nat := Min(batchSize, remaining);
    GammaBatch(s, dst, p, x0s, x1s, fxs, y, fy, y0Offset, y1Offset, x, currentBatch, blend);
    batches' := batches + [currentBatch];
    x' := x + currentBatch;
    BatchPlanAppend(p.dstW, batchSize, batches, x, batches', x');
  }

  /** Both row offsets of a row tap lie inside the source and fit `usize`. */
  lemma RowOffsetsInRange(p: Params, ty: Tap)
    requires NonZero(p) && WithinPixelCap(p) && ty.lo < p.srcH && ty.hi < p.srcH
    ensures ty.lo * p.srcW * 4 < p.srcW * p.srcH * 4 <= USIZE_MAX
    ensures ty.hi * p.srcW * 4 < p.srcW * p.srcH * 4
  {
    RowMajorBound(0, ty.lo, p.srcW, p.srcH);
    RowMajorBound(0, ty.hi, p.srcW, p.srcH);
    ByteOffsetSplit(0, ty.lo, p.srcW);
    ByteOffsetSplit(0, ty.hi, p.srcW);
    RgbaSizeBounds(p.srcW, p.srcH);
  }

  /** One batch of the column loop: given a destination that agrees with the
      image up to column `x` of row `y`, it agrees up to column `x + count`. */
  method GammaBatch(s: seq<byte>, dst: array<byte>, p: Params, x0s: seq<nat>, x1s: seq<nat>, fxs: seq<real>,
                    y: nat, fy: real, y0Offset: nat, y1Offset: nat, x: nat, count: nat, blend: Blend)
    requires NonZero(p) && WithinPixelCap(p)
    requires |s| == p.srcW * p.srcH * 4 && dst.Length == p.dstW * p.dstH * 4
    requires x0s == X0Lut(p.srcW, p.dstW) && x1s == X1Lut(p.srcW, p.dstW) && fxs == FxLut(p.srcW, p.dstW)
    requires y < p.dstH && x + count <= p.dstW
    requires fy == AxisTap(y, p.srcH, p.dstH).frac
    requires y0Offset == AxisTap(y, p.srcH, p.dstH).lo * p.srcW * 4
    requires y1Offset == AxisTap(y, p.srcH, p.dstH).hi * p.srcW * 4
    requires ByteOffset(0, y, p.dstW) + 4 * (x + count) <= dst.Length
    requires dst[..ByteOffset(0, y, p.dstW) + 4 * x] == GammaImage(s, p, blend)[..ByteOffset(0, y, p.dstW) + 4 * x]
    modifies dst
    ensures dst[..ByteOffset(0, y, p.dstW) + 4 * (x + count)] ==
            GammaImage(s, p, blend)[..ByteOffset(0, y, p.dstW) + 4 * (x + count)]
  {
    for batchX := 0 to count
      invariant dst[..ByteOffset(0, y, p.dstW) + 4 * (x + batchX)] ==
                GammaImage(s, p, blend)[..ByteOffset(0, y, p.dstW) + 4 * (x + batchX)]
    {
      GammaPixelStep(s, dst, p, x0s, x1s, fxs, y, fy, y0Offset, y1Offset, x + batchX, blend);
    }
  }

  /** One pass of the batch loop: pixel (x, y) is blended and stored, so one
      more pixel of the row agrees with the image. */
  method GammaPixelStep(s: seq<byte>, dst: array<byte>, p: Params, x0s: seq<nat>, x1s: seq<nat>, fxs: seq<real>,
                        y: nat, fy: real, y0Offset: nat, y1Offset: nat, x: nat, blend: Blend)
    requires NonZero(p) && WithinPixelCap(p)
    requires |s| == p.srcW * p.srcH * 4 && dst.Length == p.dstW * p.dstH * 4
    requires x0s == X0Lut(p.srcW, p.dstW) && x1s == X1Lut(p.srcW, p.dstW) && fxs == FxLut(p.srcW, p.dstW)
    requires y < p.dstH && x < p.dstW
    requires fy == AxisTap(y, p.srcH, p.dstH).frac
    requires y0Offset == AxisTap(y, p.srcH, p.dstH).lo * p.srcW * 4
    requires y1Offset == AxisTap(y, p.srcH, p.dstH).hi * p.srcW * 4
    requires ByteOffset(0, y, p.dstW) + 4 * x <= dst.Length
    requires dst[..ByteOffset(0, y, p.dstW) + 4 * x] == GammaImage(s, p, blend)[..ByteOffset(0, y, p.dstW) + 4 * x]
    modifies dst
    ensures ByteOffset(0, y, p.dstW) + 4 * (x + 1) <= dst.Length
    ensures dst[..ByteOffset(0, y, p.dstW) + 4 * (x + 1)] == GammaImage(s, p, blend)[..ByteOffset(0, y, p.dstW) + 4 * (x + 1)]
  {
    var result := BlendAt(s, p, blend, x0s, x1s, fxs, x, y, fy, y0Offset, y1Offset);
    GammaWriteStep(s, p, blend, x, y);
    // The checked index arithmetic and the four-byte write guard always pass.
    var dstIdx := (y * p.dstW + x) * 4;
    assert dstIdx <= USIZE_MAX && dstIdx + 3 < dst.Length;
    StoreNextPixel(dst, GammaImage(s, p, blend), dstIdx, result);
  }

  /** `resize_rgba_gamma_bilinear`. The conversion tables are initialised
      first, whatever follows. A rejected call returns the validation code and
      writes no destination byte and no column table; an accepted one rebuilds
      the column tables, writes the whole image, and returns `RESIZE_OK`. The
      last-error cell ends equal to the result. */
  method ResizeRgbaGammaBilinear(cell: ErrorCell, g: GammaState, p: Params, src: array<byte>, dst: array<byte>,
                                 srgbToLinear: real -> real, linearToSrgb: real -> real, blend: Blend)
    returns (r: i32)
    requires BuffersMatch(p, src, dst)
    modifies cell, g, dst
    ensures cell.code == r
    ensures (g.srgbToLinear, g.linearToSrgb) ==
            InitLuts(old(g.srgbToLinear), old(g.linearToSrgb), srgbToLinear, linearToSrgb)
    ensures ValidateParams(p).Err? ==>
              && r == ValidateParams(p).code && dst[..] == old(dst[..])
              && g.x0Indices == old(g.x0Indices) && g.x1Indices == old(g.x1Indices) && g.fxValues == old(g.fxValues)
    ensures ValidateParams(p).Ok? ==>
              && r == RESIZE_OK
              && g.x0Indices == X0Lut(p.srcW, p.dstW) && g.x1Indices == X1Lut(p.srcW, p.dstW)
              && g.fxValues == FxLut(p.srcW, p.dstW)
              && dst[..] == GammaImage(src[..], p, blend)
  {
    InitGammaLuts(g, srgbToLinear, linearToSrgb);
    var sizes := Validate(cell, p);
    if sizes.Err? {
      return sizes.code;
    }
    ValidateOkIff(p);
    // Both scale factors are finite and positive once the dimensions are.
    assert p.srcW as real / p.dstW as real > 0.0 && p.srcH as real / p.dstH as real > 0.0;
    FillGammaXLut(g, p.srcW, p.dstW);
    var s := src[..];
    GammaRows(s, dst, p, g.x0Indices, g.x1Indices, g.fxValues, blend);
    r := RESIZE_OK;
  }

  /** The row loop of the gamma path: every destination row in turn, so the
      whole destination ends equal to the image. */
  method GammaRows(s: seq<byte>, dst: array<byte>, p: Params, x0s: seq<nat>, x1s: seq<nat>, fxs: seq<real>,
                   blend: Blend)
    requires NonZero(p) && WithinPixelCap(p)
    requires |s| == p.srcW * p.srcH * 4 && dst.Length == p.dstW * p.dstH * 4
    requires x0s == X0Lut(p.srcW, p.dstW) && x1s == X1Lut(p.srcW, p.dstW) && fxs == FxLut(p.srcW, p.dstW)
    modifies dst
    ensures dst[..] == GammaImage(s, p, blend)
  {
    ghost var img := GammaImage(s, p, blend);
    assert ByteOffset(0, 0, p.dstW) == 0;
    for y := 0 to p.dstH
      invariant ByteOffset(0, y, p.dstW) <= dst.Length
      invariant dst[..ByteOffset(0, y, p.dstW)] == img[..ByteOffset(0, y, p.dstW)]
    {
      var _ := GammaRow(s, dst, p, x0s, x1s, fxs, y, blend);
      RowStep(y, p.dstW, p.dstH);
    }
    assert dst[..] == dst[..ByteOffset(0, p.dstH, p.dstW)];
  }
}
