/** `resize_rgba`, the automatic entry point: after validation it asks the
    selector for a kernel and hands the call over; its own bilinear path
    fetches source pixels through an edge-replicating `get_pixel_safe`. */
module ResizeRgba {
  import opened Machine
  import opened ResizeErrors
  import opened Validation
  import opened AlgorithmSelect

  /** The three resampling kernels the module implements. */
  datatype Kernel = NearestKernel | BilinearKernel | LanczosKernel

  /** The `match algorithm` of `resize_rgba`: 0 goes to nearest, 2 to Lanczos,
      and every other value falls through to bilinear. */
  function DispatchKernel(algorithm: nat): (k: Kernel)
    ensures k == NearestKernel <==> algorithm == NEAREST
    ensures k == LanczosKernel <==> algorithm == LANCZOS
    ensures k == BilinearKernel <==> algorithm != NEAREST && algorithm != LANCZOS
  {
    match algorithm
    case 0 => NearestKernel
    case 2 => LanczosKernel
    case _ => BilinearKernel
  }

  /** Where a `resize_rgba` call goes: the validation error, returned as is,
      or the kernel the selector picks for the accepted dimensions. */
  function ResizeRgbaRoute(p: Params): Result<Kernel>
  {
    match ValidateParams(p)
    case Err(code) => Err(code)
    case Ok(_) => Ok(DispatchKernel(SelectResizeAlgorithm(p.srcW, p.srcH, p.dstW, p.dstH)))
  }

  /** A call is routed exactly when it is acceptable, and rejected with the
      code validation reports otherwise. An accepted call goes to nearest
      exactly when some axis shrinks by more than the bilinear limit of the
      source's size class, to Lanczos exactly when no axis shrinks by more
      than the Lanczos limit, and to bilinear in between; enlarging on both
      axes always goes to Lanczos. */
  lemma ResizeRgbaRouteSpec(p: Params)
    ensures ResizeRgbaRoute(p).Ok? <==> Acceptable(p)
    ensures ResizeRgbaRoute(p).Err? ==> ResizeRgbaRoute(p).code == ValidateParams(p).code
    ensures ResizeRgbaRoute(p).Ok? ==>
              var (b, l) := Thresholds(p.srcW * p.srcH);
              var nearest := Exceeds(p.srcW, p.dstW, b) || Exceeds(p.srcH, p.dstH, b);
              var lanczos := !Exceeds(p.srcW, p.dstW, l) && !Exceeds(p.srcH, p.dstH, l);
              && (ResizeRgbaRoute(p).value == NearestKernel <==> nearest)
              && (ResizeRgbaRoute(p).value == LanczosKernel <==> lanczos)
              && (ResizeRgbaRoute(p).value == BilinearKernel <==> !nearest && !lanczos)
    ensures ResizeRgbaRoute(p).Ok? && p.srcW <= p.dstW && p.srcH <= p.dstH ==>
              ResizeRgbaRoute(p).value == LanczosKernel
  {
    ValidateOkIff(p);
    SelectSpec(p.srcW, p.srcH, p.dstW, p.dstH);
  }

  /** The `get_pixel_safe` closure of `resize_rgba`'s bilinear path: the four
      bytes at `offset + idx` when they lie inside `src`; otherwise the last
      four bytes of `src` (edge replication); a transparent pixel when the
      position overflows `usize` or `src` is shorter than one pixel. Its
      final `pos >= len` check can never fire, so it has no branch here. */
  function GetPixelSafe(src: seq<byte>, offset: usize, idx: usize): (px: Pixel)
    requires |src| <= USIZE_MAX
    ensures offset + idx + 3 < |src| ==> px == PixelAt(src, offset + idx)
    ensures offset + idx <= USIZE_MAX && offset + idx + 3 >= |src| && |src| >= 4 ==> px == PixelAt(src, |src| - 4)
    ensures offset + idx > USIZE_MAX || |src| < 4 ==> px == TRANSPARENT
  {
    match CheckedAdd(offset, idx, USIZE_MAX)
    case None => TRANSPARENT
    case Some(pos) =>
      if SatAdd(pos, 3, USIZE_MAX) >= |src| then
        if |src| >= 4 then PixelAt(src, |src| - 4) else TRANSPARENT
      else PixelAt(src, pos)
  }

  /** Whatever the position, the fetched pixel is transparent or four
      consecutive bytes of `src` starting at a position no later than the
      requested one. */
  lemma GetPixelSafeReadsSource(src: seq<byte>, offset: usize, idx: usize)
    requires |src| <= USIZE_MAX
    ensures var px := GetPixelSafe(src, offset, idx);
            px == TRANSPARENT
            || exists pos: nat :: pos + 3 < |src| && pos <= offset + idx && px == PixelAt(src, pos)
  {
    var px := GetPixelSafe(src, offset, idx);
    if offset + idx + 3 < |src| {
      assert px == PixelAt(src, offset + idx);
    } else if offset + idx <= USIZE_MAX && |src| >= 4 {
      assert px == PixelAt(src, |src| - 4);
    }
  }
}
