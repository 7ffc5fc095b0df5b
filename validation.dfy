/** `validate_params`: the fixed sequence of checks every resize entry point
    runs before touching a pixel. */
module Validation {
  import opened Machine
  import opened ResizeErrors

  /** Largest accepted width or height (the largest `u16`). */
  const MAX_DIMENSION: nat := 65535
  /** Largest accepted pixel count of either image: 256 megapixels. */
  const MAX_PIXELS: nat := 268_435_456

  /** The arguments of an exported resize function: two buffer addresses in
      linear memory (0 is the null pointer) and the two sets of dimensions. */
  datatype Params = Params(srcPtr: usize, srcW: u32, srcH: u32, dstPtr: usize, dstW: u32, dstH: u32)

  /** Byte lengths of the source and destination buffers. */
  datatype Sizes = Sizes(src: nat, dst: nat)

  /** `(w as u64).checked_mul(h as u64).and_then(|x| x.checked_mul(4))`. */
  function CheckedRgbaSize(w: u32, h: u32): (r: Option<nat>)
    ensures r.Some? <==> w * h * 4 <= U64_MAX
    ensures r.Some? ==> r.value == w * h * 4
  {
    match CheckedMul(w, h, U64_MAX)
    case None => None
    case Some(pixels) => CheckedMul(pixels, 4, U64_MAX)
  }

  /** `n as usize` on wasm32: keeps the low 32 bits. */
  function AsUsize(n: nat): (r: usize)
    ensures n <= USIZE_MAX ==> r == n
  {
    n % (USIZE_MAX + 1)
  }

  /** The whole decision procedure, in the source's order: null pointers,
      source alignment, destination alignment, zero dimensions, `u64` overflow
      of either byte size, the per-dimension cap, the pixel cap, and last the
      overlap of the half-open regions `[ptr, ptr + size)` whose ends are
      computed with a saturating add. */
  function ValidateParams(p: Params): (r: Result<Sizes>)
    ensures r.Err? ==> r.code in {RESIZE_ERR_NULL_PTR, RESIZE_ERR_ALIGNMENT, RESIZE_ERR_INVALID_SIZE,
                                  RESIZE_ERR_OVERFLOW, RESIZE_ERR_OVERLAP}
    ensures r.Ok? ==> r.value == Sizes(p.srcW * p.srcH * 4, p.dstW * p.dstH * 4)
    ensures r.Ok? ==> 0 < r.value.src <= MAX_PIXELS * 4 && 0 < r.value.dst <= MAX_PIXELS * 4
  {
    if p.srcPtr == 0 || p.dstPtr == 0 then Err(RESIZE_ERR_NULL_PTR)
    else if p.srcPtr % 4 != 0 then Err(RESIZE_ERR_ALIGNMENT)
    else if p.dstPtr % 4 != 0 then Err(RESIZE_ERR_ALIGNMENT)
    else if p.srcW == 0 || p.srcH == 0 || p.dstW == 0 || p.dstH == 0 then Err(RESIZE_ERR_INVALID_SIZE)
    else match CheckedRgbaSize(p.srcW, p.srcH)
    case None => Err(RESIZE_ERR_OVERFLOW)
    case Some(srcSize64) =>
      match CheckedRgbaSize(p.dstW, p.dstH)
      case None => Err(RESIZE_ERR_OVERFLOW)
      case Some(dstSize64) =>
        if p.srcW > MAX_DIMENSION || p.srcH > MAX_DIMENSION
           || p.dstW > MAX_DIMENSION || p.dstH > MAX_DIMENSION then Err(RESIZE_ERR_INVALID_SIZE)
        else if p.srcW * p.srcH > MAX_PIXELS || p.dstW * p.dstH > MAX_PIXELS then Err(RESIZE_ERR_INVALID_SIZE)
        else
          var srcEnd := SatAdd(p.srcPtr, AsUsize(srcSize64), USIZE_MAX);
          var dstEnd := SatAdd(p.dstPtr, AsUsize(dstSize64), USIZE_MAX);
          if p.srcPtr < dstEnd && p.dstPtr < srcEnd then Err(RESIZE_ERR_OVERLAP)
          else
            RgbaSizeBounds(p.srcW, p.srcH);
            RgbaSizeBounds(p.dstW, p.dstH);
            Ok(Sizes(AsUsize(srcSize64), AsUsize(dstSize64)))
  }

  /** Under the pixel cap a byte size is positive and fits a wasm32 `usize`. */
  lemma RgbaSizeBounds(w: u32, h: u32)
    requires 0 < w && 0 < h && w * h <= MAX_PIXELS
    ensures 0 < w * h * 4 <= MAX_PIXELS * 4 <= USIZE_MAX
  {
    MulMonotone(1, w, h);
  }

  // The conditions of the checks, stated on their own.

  predicate NonNull(p: Params) { p.srcPtr != 0 && p.dstPtr != 0 }

  predicate Aligned(p: Params) { p.srcPtr % 4 == 0 && p.dstPtr % 4 == 0 }

  predicate NonZero(p: Params) { p.srcW != 0 && p.srcH != 0 && p.dstW != 0 && p.dstH != 0 }

  predicate SizesFit64(p: Params)
  {
    p.srcW * p.srcH * 4 <= U64_MAX && p.dstW * p.dstH * 4 <= U64_MAX
  }

  predicate WithinDimensionCap(p: Params)
  {
    p.srcW <= MAX_DIMENSION && p.srcH <= MAX_DIMENSION && p.dstW <= MAX_DIMENSION && p.dstH <= MAX_DIMENSION
  }

  predicate WithinPixelCap(p: Params)
  {
    p.srcW * p.srcH <= MAX_PIXELS && p.dstW * p.dstH <= MAX_PIXELS
  }

  /** The two buffers, taken with their exact byte sizes, share a byte. */
  predicate RegionsOverlap(p: Params)
  {
    p.srcPtr < p.dstPtr + p.dstW * p.dstH * 4 && p.dstPtr < p.srcPtr + p.srcW * p.srcH * 4
  }

  /** Everything a caller must supply for validation to pass. */
  predicate Acceptable(p: Params)
  {
    NonNull(p) && Aligned(p) && NonZero(p) && WithinDimensionCap(p) && WithinPixelCap(p) && !RegionsOverlap(p)
  }

  /** Under the dimension cap neither byte size can overflow `u64`. */
  lemma DimensionCapPreventsOverflow(p: Params)
    requires WithinDimensionCap(p)
    ensures SizesFit64(p)
  {
    MulMonotone(p.srcW, MAX_DIMENSION, p.srcH);
    MulMonotone(p.srcH, MAX_DIMENSION, MAX_DIMENSION);
    MulMonotone(p.dstW, MAX_DIMENSION, p.dstH);
    MulMonotone(p.dstH, MAX_DIMENSION, MAX_DIMENSION);
  }

  /** For a non-null 4-aligned address the saturating end of a region compares
      exactly like the true end: saturation never changes the overlap test. */
  lemma SaturationTransparent(a: usize, b: usize, size: nat)
    requires a % 4 == 0 && size <= USIZE_MAX
    ensures a < SatAdd(b, size, USIZE_MAX) <==> a < b + size
  {
  }

  /** Validation passes exactly on acceptable parameters; the `u64` overflow
      check never decides acceptance on its own. */
  lemma ValidateOkIff(p: Params)
    ensures ValidateParams(p).Ok? <==> Acceptable(p)
  {
    if NonNull(p) && Aligned(p) && NonZero(p) && WithinDimensionCap(p) && WithinPixelCap(p) {
      DimensionCapPreventsOverflow(p);
      RgbaSizeBounds(p.srcW, p.srcH);
      RgbaSizeBounds(p.dstW, p.dstH);
      SaturationTransparent(p.srcPtr, p.dstPtr, p.dstW * p.dstH * 4);
      SaturationTransparent(p.dstPtr, p.srcPtr, p.srcW * p.srcH * 4);
    }
  }

  /** Code 1 is returned exactly when a pointer is null. */
  lemma ValidateNullIff(p: Params)
    ensures ValidateParams(p) == Err(RESIZE_ERR_NULL_PTR) <==> !NonNull(p)
  {
  }

  /** Code 5 is returned exactly when both pointers are non-null and one is
      not 4-byte aligned. */
  lemma ValidateAlignmentIff(p: Params)
    ensures ValidateParams(p) == Err(RESIZE_ERR_ALIGNMENT) <==> NonNull(p) && !Aligned(p)
  {
  }

  /** Code 3 is returned exactly when the pointer and zero checks pass and a
      byte size overflows `u64`. */
  lemma ValidateOverflowIff(p: Params)
    ensures ValidateParams(p) == Err(RESIZE_ERR_OVERFLOW) <==>
            NonNull(p) && Aligned(p) && NonZero(p) && !SizesFit64(p)
  {
  }

  /** Code 2 is returned exactly for a zero dimension after the pointer checks,
      or, once no size overflows, for a dimension or pixel count over its cap. */
  lemma ValidateInvalidSizeIff(p: Params)
    ensures ValidateParams(p) == Err(RESIZE_ERR_INVALID_SIZE) <==>
            NonNull(p) && Aligned(p) &&
            (!NonZero(p) || (SizesFit64(p) && (!WithinDimensionCap(p) || !WithinPixelCap(p))))
  {
  }

  /** Code 6 is returned exactly when every other check passes and the two
      regions share a byte. */
  lemma ValidateOverlapIff(p: Params)
    ensures ValidateParams(p) == Err(RESIZE_ERR_OVERLAP) <==>
            NonNull(p) && Aligned(p) && NonZero(p) && WithinDimensionCap(p) && WithinPixelCap(p)
            && RegionsOverlap(p)
  {
    ValidateOkIff(p);
    if NonNull(p) && Aligned(p) && NonZero(p) && WithinDimensionCap(p) {
      DimensionCapPreventsOverflow(p);
    }
  }

  /** An overflow report always concerns a dimension above the cap. */
  lemma OverflowOnlyBeyondCap(p: Params)
    requires ValidateParams(p) == Err(RESIZE_ERR_OVERFLOW)
    ensures !WithinDimensionCap(p)
  {
    if WithinDimensionCap(p) {
      DimensionCapPreventsOverflow(p);
    }
  }

  /** A destination that starts right where the source ends is accepted. */
  lemma AdjacentRegionsAccepted(p: Params)
    requires NonNull(p) && Aligned(p) && NonZero(p) && WithinDimensionCap(p) && WithinPixelCap(p)
    requires p.dstPtr == p.srcPtr + p.srcW * p.srcH * 4
    ensures ValidateParams(p).Ok?
    ensures ValidateParams(p).value.src == p.srcW * p.srcH * 4 && ValidateParams(p).value.dst == p.dstW * p.dstH * 4
  {
    ValidateOkIff(p);
  }

  /** What the exported functions' callers promise about the raw pointers,
      as far as the code relies on it: once validation passes, each pointer
      addresses a buffer of exactly the validated size, and (the regions being
      disjoint) the two buffers are different objects. */
  predicate BuffersMatch(p: Params, src: array<byte>, dst: array<byte>)
  {
    ValidateParams(p).Ok? ==>
      src != dst && src.Length == p.srcW * p.srcH * 4 && dst.Length == p.dstW * p.dstH * 4
  }

  /** `validate_params` as a step of the program: decides, then records the
      outcome in the last-error cell (`RESIZE_OK` on success). */
  method Validate(cell: ErrorCell, p: Params) returns (r: Result<Sizes>)
    modifies cell
    ensures r == ValidateParams(p)
    ensures cell.code == (if r.Ok? then RESIZE_OK else r.code)
  {
    r := ValidateParams(p);
    cell.Set(if r.Ok? then RESIZE_OK else r.code);
  }
}
