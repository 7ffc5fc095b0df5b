/** The integer rules that pick a resampling kernel from the scale factors. */
module AlgorithmSelect {
  import opened Machine

  const NEAREST: nat := 0
  const BILINEAR: nat := 1
  const LANCZOS: nat := 2

  /** `is_integer_scaling` on one axis: the larger extent is tested for
      divisibility by the smaller. Both extents must be positive, as the
      remainder by zero would panic. */
  function AxisIsInteger(src: u32, dst: u32): bool
    requires src > 0 && dst > 0
  {
    if src >= dst then src % dst == 0 else dst % src == 0
  }

  /** `is_integer_scaling`: per axis (horizontal, vertical), whether the
      larger of source and destination extent is a whole multiple of the
      smaller. */
  function IsIntegerScaling(srcW: u32, srcH: u32, dstW: u32, dstH: u32): (r: (bool, bool))
    requires srcW > 0 && srcH > 0 && dstW > 0 && dstH > 0
    ensures r.0 <==> IsMultipleOf(if srcW >= dstW then srcW else dstW, if srcW >= dstW then dstW else srcW)
    ensures r.1 <==> IsMultipleOf(if srcH >= dstH then srcH else dstH, if srcH >= dstH then dstH else srcH)
  {
    AxisIsIntegerIff(srcW, dstW);
    AxisIsIntegerIff(srcH, dstH);
    (AxisIsInteger(srcW, dstW), AxisIsInteger(srcH, dstH))
  }

  /** `k` copies of `m`. */
  function Times(k: nat, m: nat): nat { k * m }

  /** `n` is a whole multiple of `m`. */
  ghost predicate IsMultipleOf(n: nat, m: nat)
  {
    exists k: nat :: Times(k, m) == n
  }

  /** An axis scales by an integer exactly when the larger extent is a whole
      multiple of the smaller, whichever of source and destination is larger. */
  lemma {:induction false} AxisIsIntegerIff(src: u32, dst: u32)
    requires src > 0 && dst > 0
    ensures AxisIsInteger(src, dst) <==>
            IsMultipleOf(if src >= dst then src else dst, if src >= dst then dst else src)
  {
    var lo, hi := if src >= dst then dst else src, if src >= dst then src else dst;
    if AxisIsInteger(src, dst) {
      assert Times(hi / lo, lo) == hi;
    }
    if IsMultipleOf(hi, lo) {
      var k: nat :| Times(k, lo) == hi;
      DivModOf(k, lo, 0);
    }
  }

  /** The (bilinear, lanczos) ratio limits for a source of `srcPixels` pixels. */
  function Thresholds(srcPixels: nat): (t: (u32, u32))
    ensures 1 <= t.1 < t.0 <= 8 && t.0 == 2 * t.1
  {
    if srcPixels < 1_000_000 then (8, 4)
    else if srcPixels < 10_000_000 then (4, 2)
    else (2, 1)
  }

  /** The source extent is more than `t` times the destination extent. */
  predicate Exceeds(src: nat, dst: nat, t: nat)
  {
    src > dst * t
  }

  /** `select_resize_algorithm`: 0 = nearest, 1 = bilinear, 2 = Lanczos. */
  function SelectResizeAlgorithm(srcW: u32, srcH: u32, dstW: u32, dstH: u32): (r: nat)
    ensures r in {NEAREST, BILINEAR, LANCZOS}
    ensures srcW <= dstW && srcH <= dstH ==> r == LANCZOS
    ensures Exceeds(srcW, dstW, 8) || Exceeds(srcH, dstH, 8) ==> r == NEAREST
  {
    var downX := srcW > dstW;
    var downY := srcH > dstH;
    if !downX && !downY then LANCZOS
    else if (downX && srcW > SatMulU32(dstW, 8)) || (downY && srcH > SatMulU32(dstH, 8)) then NEAREST
    else
      var (bilinear, lanczos) := Thresholds(srcW * srcH);
      var xOverBilinear := downX && srcW > SatMulU32(dstW, bilinear);
      var yOverBilinear := downY && srcH > SatMulU32(dstH, bilinear);
      var xOverLanczos := downX && srcW > SatMulU32(dstW, lanczos);
      var yOverLanczos := downY && srcH > SatMulU32(dstH, lanczos);
      if !xOverLanczos && !yOverLanczos then LANCZOS
      else if !xOverBilinear && !yOverBilinear then BILINEAR
      else NEAREST
  }

  /** The choice is decided by the two ratio limits of the source's size class
      alone: the early eightfold rule never changes the answer, and neither
      does saturation of the multiplications. */
  lemma SelectSpec(srcW: u32, srcH: u32, dstW: u32, dstH: u32)
    ensures var (b, l) := Thresholds(srcW * srcH);
            var r := SelectResizeAlgorithm(srcW, srcH, dstW, dstH);
            && (r == NEAREST <==> Exceeds(srcW, dstW, b) || Exceeds(srcH, dstH, b))
            && (r == LANCZOS <==> !Exceeds(srcW, dstW, l) && !Exceeds(srcH, dstH, l))
  {
    var (b, l) := Thresholds(srcW * srcH);
    AxisLimits(srcW, dstW, b, l);
    AxisLimits(srcH, dstH, b, l);
    SelectLogic(srcW > dstW, srcH > dstH,
                srcW > SatMulU32(dstW, 8), srcH > SatMulU32(dstH, 8),
                srcW > SatMulU32(dstW, b), srcH > SatMulU32(dstH, b),
                srcW > SatMulU32(dstW, l), srcH > SatMulU32(dstH, l),
                SelectResizeAlgorithm(srcW, srcH, dstW, dstH));
  }

  /** The branch structure of `select_resize_algorithm` over its comparisons
      alone: per axis, shrinking by more than 8 implies more than the bilinear
      limit, which implies more than the Lanczos limit, which implies shrinking.
      Then nearest is chosen exactly when an axis is over the bilinear limit,
      and Lanczos exactly when no axis is over the Lanczos limit. */
  lemma SelectLogic(downX: bool, downY: bool, x8: bool, y8: bool, xb: bool, yb: bool, xl: bool, yl: bool, r: nat)
    requires (x8 ==> xb) && (xb ==> xl) && (xl ==> downX)
    requires (y8 ==> yb) && (yb ==> yl) && (yl ==> downY)
    requires r == if !downX && !downY then LANCZOS
                 else if (downX && x8) || (downY && y8) then NEAREST
                 else if !(downX && xl) && !(downY && yl) then LANCZOS
                 else if !(downX && xb) && !(downY && yb) then BILINEAR
                 else NEAREST
    ensures r == NEAREST <==> xb || yb
    ensures r == LANCZOS <==> !xl && !yl
  {
  }

  /** On one axis: each saturating comparison decides `Exceeds`, and
      exceeding a larger limit implies exceeding every smaller one, down to
      plain shrinking (`Exceeds` with limit 1). */
  lemma AxisLimits(src: u32, dst: u32, b: u32, l: u32)
    requires 1 <= l <= b <= 8
    ensures src > SatMulU32(dst, 8) <==> Exceeds(src, dst, 8)
    ensures src > SatMulU32(dst, b) <==> Exceeds(src, dst, b)
    ensures src > SatMulU32(dst, l) <==> Exceeds(src, dst, l)
    ensures Exceeds(src, dst, 8) ==> Exceeds(src, dst, b)
    ensures Exceeds(src, dst, b) ==> Exceeds(src, dst, l)
    ensures Exceeds(src, dst, l) ==> src > dst
  {
    SaturatedExceeds(src, dst, 8);
    SaturatedExceeds(src, dst, b);
    SaturatedExceeds(src, dst, l);
    ExceedsMonotone(src, dst, b, 8);
    ExceedsMonotone(src, dst, l, b);
    ExceedsMonotone(src, dst, 1, l);
  }

  /** Comparing against the saturated product decides `Exceeds`: when the
      product saturates, no `u32` extent can exceed it nor the true product. */
  lemma SaturatedExceeds(src: u32, dst: u32, t: u32)
    ensures src > SatMulU32(dst, t) <==> Exceeds(src, dst, t)
  {
  }

  /** Exceeding a limit implies exceeding every smaller one. */
  lemma ExceedsMonotone(src: nat, dst: nat, t: nat, t': nat)
    requires t <= t'
    ensures Exceeds(src, dst, t') ==> Exceeds(src, dst, t)
  {
    MulMonotone(t, t', dst);
  }

  /** Shrinking the destination never moves the choice toward a higher-quality
      kernel. */
  lemma SelectMonotone(srcW: u32, srcH: u32, dstW: u32, dstH: u32, dstW': u32, dstH': u32)
    requires dstW' <= dstW && dstH' <= dstH
    ensures SelectResizeAlgorithm(srcW, srcH, dstW', dstH') <= SelectResizeAlgorithm(srcW, srcH, dstW, dstH)
  {
    var (b, l) := Thresholds(srcW * srcH);
    SelectSpec(srcW, srcH, dstW, dstH);
    SelectSpec(srcW, srcH, dstW', dstH');
    ExceedsAntitone(srcW, dstW', dstW, b);
    ExceedsAntitone(srcH, dstH', dstH, b);
    ExceedsAntitone(srcW, dstW', dstW, l);
    ExceedsAntitone(srcH, dstH', dstH, l);
  }

  /** A smaller destination exceeds a limit whenever a larger one does. */
  lemma ExceedsAntitone(src: nat, dst': nat, dst: nat, t: nat)
    requires dst' <= dst
    ensures Exceeds(src, dst, t) ==> Exceeds(src, dst', t)
  {
    MulMonotone(dst', dst, t);
  }

  /** `should_use_nearest_neighbor`: some axis shrinks by more than the
      bilinear limit of the source's size class. */
  function ShouldUseNearestNeighbor(srcW: u32, srcH: u32, dstW: u32, dstH: u32): (r: bool)
    ensures r <==> var b := Thresholds(srcW * srcH).0; Exceeds(srcW, dstW, b) || Exceeds(srcH, dstH, b)
  {
    SelectSpec(srcW, srcH, dstW, dstH);
    SelectResizeAlgorithm(srcW, srcH, dstW, dstH) == NEAREST
  }
}
