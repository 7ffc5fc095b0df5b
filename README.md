# wasm-resize in Dafny

This project models the core of the WebAssembly resize module of GenresFox
(`src/wasm-resize/src/`). That module exports RGBA resize kernels over raw
pointers into linear memory, plus an allocator pair and a last-error
accessor. The model covers the integer and control skeleton of the module:

- the seven error codes and the thread-local last-error cell;
- `alloc_memory` / `dealloc_memory`;
- `validate_params`, with its fixed order of checks;
- the kernel selector `select_resize_algorithm` and the dispatch of
  `resize_rgba`;
- `resize_rgba_nearest`: the column table, the clamped index maps and the
  pixel-by-pixel copy;
- `resize_rgba_gamma_bilinear`: the lazily built conversion tables, the column
  tables, the traversal in cache-line batches, the edge-replicating fetch and
  the guarded writes. The colour blend itself is a parameter;
- the helpers of `simd_helpers.rs`: `copy_4_pixels_simd`,
  `batch_copy_nearest` and `bilinear_interp_4_pixels`, each in both its
  simd128 and scalar builds.

The machine is wasm32, so `usize` is 32 bits wide. A raw pointer is a
numeric address (0 is null) together with an `array<byte>` holding the
bytes it points to. Each exported function takes the caller's safety
promise as a precondition: once validation passes, the arrays have exactly
the validated sizes and are distinct. The thread-local state becomes classes
with one field per modelled thread-local static: `ErrorCell`, `NearestScratch`
and `GammaState`.

Files, one module each:

| file | module | what |
|---|---|---|
| machine.dfy | `Machine` | integer widths, saturating and checked arithmetic, `Pixel`, row-major offsets, `Raster`, the 4-byte store |
| errors.dfy | `ResizeErrors` | error codes, messages, `ErrorCell` |
| memory.dfy | `Memory` | `alloc_memory`, `dealloc_memory` |
| validation.dfy | `Validation` | `validate_params` and one lemma per outcome |
| select.dfy | `AlgorithmSelect` | `is_integer_scaling`, `select_resize_algorithm`, `should_use_nearest_neighbor` |
| resize_rgba.dfy | `ResizeRgba` | dispatch of `resize_rgba`, its `get_pixel_safe` closure |
| nearest.dfy | `Nearest` | `resize_rgba_nearest` |
| simd_helpers.dfy | `SimdHelpers` | copy and interpolation helpers |
| gamma.dfy | `GammaBilinear` | `resize_rgba_gamma_bilinear`, `init_gamma_luts` |

Each kernel is specified by a function that computes the whole destination
image from the source bytes: `Nearest.NearestImage` and
`GammaBilinear.GammaImage`. The methods that write the destination array
are proved to leave it equal to that image. Proofs proceed row by row and
pixel by pixel, with the invariant that the destination prefix written so
far equals the image's prefix.

The source's defensive guards cannot fail once validation has passed. These
are the checked multiplications of the row and pixel offsets, the `>= len`
offset checks, the lookup-table index checks and the four-byte range guards
before each write. Each guard is an `assert` in the model, so the verifier
proves that it always passes and that its error branch is dead.

## Model

| member | source | states |
|---|---|---|
| `ResizeErrors.MessageOf` | src/wasm-resize/src/lib.rs:120-142 | every code has a non-empty message; the message is "Unknown error" exactly for codes outside 0..6 |
| `ResizeErrors.MessagesIdentifyCodes` | src/wasm-resize/src/lib.rs:122-140 | two known codes with the same message are the same code |
| `ResizeErrors.ErrorCell.constructor` | src/wasm-resize/src/lib.rs:40-42 | the last-error cell starts at `RESIZE_OK` |
| `ResizeErrors.ErrorCell.Set` | src/wasm-resize/src/lib.rs:60-62 | `set_last_error` stores exactly the given code |
| `ResizeErrors.ErrorCell.GetLastError` | src/wasm-resize/src/lib.rs:120-142 | returns the message of the stored code, never "Unknown error" for a known code |
| `Memory.AllocMemory` | src/wasm-resize/src/lib.rs:72-99 | size 0 gives null and code 2; a size no layout can describe, or a refusing allocator, gives null and code 4; otherwise a fresh buffer of exactly `size` bytes, all zero, with the last error untouched |
| `Memory.DeallocMemory` | src/wasm-resize/src/lib.rs:104-115 | the block is released exactly when the pointer is non-null, the size non-zero and the layout valid |
| `Validation.CheckedRgbaSize` | src/wasm-resize/src/lib.rs:183-203 | `Some` exactly when `w*h*4` fits in `u64`, and then it holds `w*h*4` |
| `Validation.AsUsize` | src/wasm-resize/src/lib.rs:253-254 | the `as usize` cast keeps any value that fits in 32 bits |
| `Validation.ValidateParams` | src/wasm-resize/src/lib.rs:146-258 | every error is one of codes 1, 2, 3, 5, 6; success returns `(src_w*src_h*4, dst_w*dst_h*4)`, both positive and at most 1 GiB |
| `Validation.RgbaSizeBounds` | src/wasm-resize/src/lib.rs:229-235 | under the pixel cap a byte size is positive and fits a wasm32 `usize` |
| `Validation.DimensionCapPreventsOverflow` | src/wasm-resize/src/lib.rs:211-227 | under the 65535 cap neither `w*h*4` overflows `u64` |
| `Validation.SaturationTransparent` | src/wasm-resize/src/lib.rs:240-247 | for an aligned address, comparing with a saturated region end is the same as comparing with the true end |
| `Validation.ValidateOkIff` | src/wasm-resize/src/lib.rs:155-257 | validation succeeds exactly when the pointers are non-null and aligned, no dimension is zero or above 65535, neither pixel count exceeds 268,435,456, and the regions are disjoint |
| `Validation.ValidateNullIff` | src/wasm-resize/src/lib.rs:155-158 | code 1 exactly when a pointer is null |
| `Validation.ValidateAlignmentIff` | src/wasm-resize/src/lib.rs:167-175 | code 5 exactly when both pointers are non-null and one is not 4-aligned |
| `Validation.ValidateOverflowIff` | src/wasm-resize/src/lib.rs:183-203 | code 3 exactly when the earlier checks pass and a byte size overflows `u64` |
| `Validation.ValidateInvalidSizeIff` | src/wasm-resize/src/lib.rs:177-235 | code 2 exactly for a zero dimension after the pointer checks, or, without overflow, for a dimension or pixel count over its cap |
| `Validation.ValidateOverlapIff` | src/wasm-resize/src/lib.rs:238-250 | code 6 exactly when every other check passes and the half-open regions share a byte |
| `Validation.OverflowOnlyBeyondCap` | src/wasm-resize/src/lib.rs:183-227 | code 3 is only ever reported for a dimension above the cap |
| `Validation.AdjacentRegionsAccepted` | src/wasm-resize/src/lib.rs:238-257 | a destination starting exactly at the source's end is accepted, with sizes `w*h*4` |
| `Validation.Validate` | src/wasm-resize/src/lib.rs:146-258 | returns the decision, and the last-error cell ends at `RESIZE_OK` or the returned code |
| `AlgorithmSelect.IsIntegerScaling` | src/wasm-resize/src/lib.rs:270-296 | each axis flag is true exactly when the larger extent is a whole multiple of the smaller |
| `AlgorithmSelect.AxisIsIntegerIff` | src/wasm-resize/src/lib.rs:279-293 | the `%` test is equivalent to the existence of a whole-number factor |
| `AlgorithmSelect.Thresholds` | src/wasm-resize/src/lib.rs:345-356 | the (bilinear, Lanczos) downscale limits of a size class lie within 1..8, with the Lanczos limit below and exactly half of the bilinear one |
| `AlgorithmSelect.SelectResizeAlgorithm` | src/wasm-resize/src/lib.rs:322-372 | the result is 0, 1 or 2; it is 2 when no axis shrinks and 0 when an axis shrinks by more than 8 |
| `AlgorithmSelect.SelectSpec` | src/wasm-resize/src/lib.rs:328-372 | nearest exactly when an axis exceeds the bilinear limit, Lanczos exactly when no axis exceeds the Lanczos limit, bilinear otherwise |
| `AlgorithmSelect.SelectLogic` | src/wasm-resize/src/lib.rs:328-372 | given that each axis's comparisons nest (over 8 implies over the bilinear limit, which implies over the Lanczos limit, which implies shrinking), the branch chain picks nearest exactly when an axis is over the bilinear limit and Lanczos exactly when none is over the Lanczos limit |
| `AlgorithmSelect.AxisLimits` | src/wasm-resize/src/lib.rs:339-364 | each saturating comparison `src > dst.saturating_mul(t)` decides "more than t times", and the three limits nest |
| `AlgorithmSelect.SelectMonotone` | src/wasm-resize/src/lib.rs:322-372 | a smaller destination never gets a higher-quality kernel |
| `AlgorithmSelect.ShouldUseNearestNeighbor` | src/wasm-resize/src/lib.rs:377-379 | true exactly when an axis shrinks by more than the bilinear limit of the size class |
| `ResizeRgba.DispatchKernel` | src/wasm-resize/src/lib.rs:577-582 | 0 goes to nearest, 2 to Lanczos, every other value to bilinear |
| `ResizeRgba.ResizeRgbaRouteSpec` | src/wasm-resize/src/lib.rs:556-582 | a call is routed exactly when it is acceptable and otherwise fails with the validation code; the kernel follows the selector's limits; enlarging goes to Lanczos |
| `ResizeRgba.GetPixelSafe` | src/wasm-resize/src/lib.rs:702-736 | returns the four bytes at `offset+idx` when they fit, the last four bytes when they do not, and a transparent pixel on `usize` overflow or a buffer shorter than a pixel |
| `ResizeRgba.GetPixelSafeReadsSource` | src/wasm-resize/src/lib.rs:702-736 | the fetch is transparent or reads a whole pixel of the source at or before the requested position |
| `Machine.StorePixel` | src/wasm-resize/src/lib.rs:512-515 | the four channel bytes are written at `pos..pos+3` and nothing else changes |
| `Machine.StoreNextPixel` | src/wasm-resize/src/lib.rs:512-515 | storing the pixel an image holds at `pos`, right after a prefix that agrees with the image, writes only those four bytes and extends the agreement past the pixel |
| `Nearest.NearestIndex` | src/wasm-resize/src/lib.rs:431-441 | the sampled source index is inside the source |
| `Nearest.NearestIndexUnclamped` | src/wasm-resize/src/lib.rs:432-433 | inside the destination the `min` clamp never fires |
| `Nearest.NearestIndexIdentity` | src/wasm-resize/src/lib.rs:432-433 | at equal extents every pixel samples itself |
| `Nearest.NearestIndexMonotone` | src/wasm-resize/src/lib.rs:440-441 | the index map never decreases |
| `Nearest.NearestLutEntries` | src/wasm-resize/src/lib.rs:431-435 | every entry is a multiple of 4 below `src_w*4` |
| `Nearest.NearestImageAt` | src/wasm-resize/src/lib.rs:439-519 | destination pixel (x, y) holds the four bytes of source pixel (sx(x), sy(y)), with sx < src_w and sy < src_h |
| `Nearest.NearestSameSizeIsCopy` | src/wasm-resize/src/lib.rs:384-524 | resizing to the source's own dimensions copies the source |
| `Nearest.SameSizePixel` | src/wasm-resize/src/lib.rs:384-524 | at equal dimensions each channel of each pixel of the result is the source's byte at the same offset |
| `Nearest.NearestFetchStep` | src/wasm-resize/src/lib.rs:444-475 | the row offset plus the table entry is in range and addresses the pixel the image defines |
| `Nearest.NearestWriteStep` | src/wasm-resize/src/lib.rs:478-491 | `(y*dst_w + x)*4` is in range and the image holds the pixel's bytes there |
| `Nearest.FillNearestLut` | src/wasm-resize/src/lib.rs:419-435 | the reused buffer is cleared and ends equal to the column table |
| `Nearest.CopyNearestPixel` | src/wasm-resize/src/lib.rs:461-519 | one more pixel of the destination agrees with the nearest image |
| `Nearest.CopyNearestRow` | src/wasm-resize/src/lib.rs:439-520 | one more row of the destination agrees with the nearest image |
| `Nearest.ResizeRgbaNearest` | src/wasm-resize/src/lib.rs:384-524 | a rejected call returns the validation code and writes nothing; an accepted one returns 0, rebuilds the table and leaves the destination equal to the nearest image of the source; the last-error cell equals the result |
| `Nearest.SimdBuildPixelCopyWidth` | src/wasm-resize/src/lib.rs:496-509 | the simd128 build copies 16 bytes for a pixel exactly when both addresses are 16-aligned, and 4 otherwise |
| `Nearest.SimdBuildOverrunsOnePixelImage` | src/wasm-resize/src/lib.rs:491-509 | a validated 1x1 to 1x1 call at 16-aligned addresses passes both range guards, then copies 16 bytes into and out of 4-byte buffers |
| `SimdHelpers.Copy4PixelsSimd` | src/wasm-resize/src/simd_helpers.rs:14-21 | the 16 source bytes are written at the destination offset and nothing else changes |
| `SimdHelpers.Copy4PixelsScalar` | src/wasm-resize/src/simd_helpers.rs:26-31 | the same effect through slices |
| `SimdHelpers.Copy4PixelsVariantsAgree` | src/wasm-resize/src/simd_helpers.rs:14-31 | both builds produce the same bytes: the copied block, with the bytes before and after it unchanged |
| `SimdHelpers.CopyFromSlice` | src/wasm-resize/src/simd_helpers.rs:146-148 | `copy_from_slice` writes the `n` source bytes at the offset and nothing else |
| `SimdHelpers.ChunkPlan` | src/wasm-resize/src/simd_helpers.rs:132-133 | `16*chunks + 4*remainder == 4n` with fewer than 4 leftover pixels |
| `SimdHelpers.ChunkPlanUnique` | src/wasm-resize/src/simd_helpers.rs:132-133 | that split is the only one with fewer than 4 leftover pixels |
| `SimdHelpers.ChunkAlignment` | src/wasm-resize/src/simd_helpers.rs:137-141 | stepping by whole chunks keeps 16-byte alignment |
| `SimdHelpers.SplicedPrefixGrows` | src/wasm-resize/src/simd_helpers.rs:136-158 | copying the block right after a copied prefix extends the prefix, so the chunks and the remainder are contiguous |
| `SimdHelpers.CopyChunk` | src/wasm-resize/src/simd_helpers.rs:137-149 | the aligned `v128` path and the slice path both copy the chunk's 16 bytes |
| `SimdHelpers.BatchCopyNearestSimd` | src/wasm-resize/src/simd_helpers.rs:124-159 | the first `4n` destination bytes end equal to the source's and no other byte changes |
| `SimdHelpers.CopyChunks` | src/wasm-resize/src/simd_helpers.rs:136-150 | after `chunks` 16-byte copies the first `16*chunks` destination bytes equal the source's and the rest are unchanged |
| `SimdHelpers.CopyRemainder` | src/wasm-resize/src/simd_helpers.rs:153-158 | copying the leftover pixels extends the copied prefix from `16*chunks` to `4*pixel_count` bytes, the rest unchanged |
| `SimdHelpers.BatchCopyNearestScalar` | src/wasm-resize/src/simd_helpers.rs:165-174 | the same effect in one slice copy |
| `SimdHelpers.BatchCopyVariantsAgree` | src/wasm-resize/src/simd_helpers.rs:124-174 | both builds produce the same bytes: the copied prefix, with the rest unchanged |
| `SimdHelpers.ToU8` | src/wasm-resize/src/simd_helpers.rs:50-53 | the clamp-and-truncate conversion: the floor inside [0, 255], 0 below, 255 above |
| `SimdHelpers.LerpSpec` | src/wasm-resize/src/simd_helpers.rs:50-93 | the two `lerp` forms agree, stay between their endpoints for a weight in [0, 1], and return the endpoints at weights 0 and 1 |
| `SimdHelpers.BilinearInterpSpec` | src/wasm-resize/src/simd_helpers.rs:40-115 | both builds agree, and the corner weights return the corner pixels |
| `SimdHelpers.BilinearInterpBounded` | src/wasm-resize/src/simd_helpers.rs:40-115 | for weights in [0, 1] every channel lies between the smallest and largest of the four corners |
| `GammaBilinear.InitLutsSpec` | src/wasm-resize/src/gamma_simd.rs:37-61 | initialising is idempotent, keeps a pair of tables that already hold 256 entries each, and otherwise rebuilds both |
| `GammaBilinear.GammaState.constructor` | src/wasm-resize/src/gamma_simd.rs:29-32 | every table and buffer starts empty |
| `GammaBilinear.InitGammaLuts` | src/wasm-resize/src/gamma_simd.rs:37-61 | the tables end as the initialisation defines them and the column buffers are untouched |
| `GammaBilinear.AxisTap` | src/wasm-resize/src/gamma_simd.rs:405-417 | both taps lie inside the source and the weight lies in [0, 1] |
| `GammaBilinear.TapFloorRange` | src/wasm-resize/src/gamma_simd.rs:406-408 | the floor of a pixel's source coordinate lies in [-1, src_ext) |
| `GammaBilinear.AxisTapSpec` | src/wasm-resize/src/gamma_simd.rs:405-417 | the two taps are neighbours, or the same pixel at an edge; the weight is the exact fractional part and below 1 |
| `GammaBilinear.AxisTapIdentity` | src/wasm-resize/src/gamma_simd.rs:405-417 | at equal extents every pixel taps itself with weight 0 |
| `GammaBilinear.AxisTapExact` | src/wasm-resize/src/gamma_simd.rs:405-417 | when the scaled source coordinate is exactly the whole pixel `q`, the taps are `q` and `min(q + 1, src_ext - 1)` with weight 0 |
| `GammaBilinear.XLutEntries` | src/wasm-resize/src/gamma_simd.rs:405-417 | each x0/x1 entry is the byte offset `4*c` of a column `c < src_w`; x1 is x0 or the next pixel; the weight lies in [0, 1) |
| `GammaBilinear.TapShape` | src/wasm-resize/src/gamma_simd.rs:405-417 | the second tap is the first or the pixel after it, and the weight is below 1 |
| `GammaBilinear.FillGammaXLut` | src/wasm-resize/src/gamma_simd.rs:389-417 | the three reused buffers end equal to the column tables and the conversion tables are untouched |
| `GammaBilinear.GammaGetPixelSafe` | src/wasm-resize/src/gamma_simd.rs:496-531 | returns the four bytes at `pos` when they fit, otherwise the last whole pixel at `(len/4 - 1)*4`, and a transparent pixel when the buffer is shorter than a pixel or `pos` overflows |
| `GammaBilinear.GetPixelSafeVariantsAgree` | src/wasm-resize/src/gamma_simd.rs:496-531 | on a buffer of whole pixels it agrees with the fetch of `resize_rgba` |
| `GammaBilinear.GammaFetchExact` | src/wasm-resize/src/gamma_simd.rs:496-536 | after validation every tap is fetched exactly and never edge-replicated |
| `GammaBilinear.BlendAt` | src/wasm-resize/src/gamma_simd.rs:478-552 | the four fetches through the tables and row offsets, blended, give the image's pixel |
| `GammaBilinear.GammaWriteStep` | src/wasm-resize/src/gamma_simd.rs:555-577 | `(y*dst_w + x)*4` is in range and the image holds the pixel's bytes there |
| `GammaBilinear.BatchPlanAppend` | src/wasm-resize/src/gamma_simd.rs:474-584 | taking the next batch of `min(batch, remaining)` columns moves it from the remaining plan to the batches done |
| `GammaBilinear.BatchPlanCovers` | src/wasm-resize/src/gamma_simd.rs:469-585 | the batches are non-empty, at most `batch` wide, all full but the last, and sum to the row width, so every column falls in exactly one batch |
| `GammaBilinear.RowOffsetsInRange` | src/wasm-resize/src/gamma_simd.rs:436-464 | both row offsets are inside the source and fit `usize`, so the overflow and range checks never fire |
| `GammaBilinear.GammaBatch` | src/wasm-resize/src/gamma_simd.rs:478-581 | `count` more pixels of the row agree with the image |
| `GammaBilinear.GammaPixelStep` | src/wasm-resize/src/gamma_simd.rs:479-581 | after blending and storing pixel (x, y) the row agrees with the image one pixel further; neither the index overflow nor the write guard fires |
| `GammaBilinear.GammaColumns` | src/wasm-resize/src/gamma_simd.rs:469-585 | the whole row agrees with the image, and the batches taken are exactly the plan of `min(16, dst_w)`-column batches |
| `GammaBilinear.ColumnStep` | src/wasm-resize/src/gamma_simd.rs:475-584 | one batch of `min(batch_size, remaining)` columns advances `x`, moves that batch from the remaining plan to the batches done, and extends the agreement with the image to the new `x` |
| `GammaBilinear.GammaRow` | src/wasm-resize/src/gamma_simd.rs:421-585 | one more row of the destination agrees with the image |
| `GammaBilinear.GammaRows` | src/wasm-resize/src/gamma_simd.rs:421-585 | after the row loop the whole destination equals the gamma-correct bilinear image |
| `GammaBilinear.ResizeRgbaGammaBilinear` | src/wasm-resize/src/gamma_simd.rs:339-592 | the tables are initialised first; a rejected call returns the validation code and writes no destination byte and no column table; an accepted one rebuilds the tables, writes the whole image and returns 0; the last-error cell equals the result |

## Left out

- The Lanczos kernel, its weights and its two-pass convolution (`resize_rgba_lanczos`, `lanczos_kernel`, `anti_ringing_clamp`): floating-point resampling maths, outside this model. `ResizeRgba.DispatchKernel` only routes to it.
- The bilinear loop of `resize_rgba` and its weights: floating-point resampling maths. Its `get_pixel_safe` closure is modelled.
- The sRGB transfer functions, their lookup-table readers and `gamma_correct_bilinear`: they depend on f32 `powf` rounding. The transfer functions and the blend are parameters of `GammaBilinear.InitGammaLuts` and `GammaBilinear.ResizeRgbaGammaBilinear`.
- The dead float helpers `srgb_to_linear_simd_4pixels`, `linear_to_srgb_simd_4pixels` and `gamma_correct_lanczos_kernel`: never called.
- SIMD intrinsics: `v128_load`/`v128_store` are modelled only as a 16-byte copy.
- The Rust global allocator and `Layout` internals are foreign. `Memory.AllocMemory` takes whether the allocator grants the request as a parameter.
- The `from_raw_parts(...).get(..)` branches that return `RESIZE_ERR_MEMORY` can never fail, so they have no model.
- `thread_local!` and `RefCell`: the cells are class fields. The code has no concurrency.
- The `compile_error!` target gates: the machine is wasm32 throughout.
- `AlgorithmSelect.IsIntegerScaling`: a zero extent makes the source's `%` divide by zero and panic (a wasm trap). The function has no caller (`#[allow(dead_code)]`, lib.rs:268), so no call reaches that path. The model therefore requires positive extents and does not model the trap.
- `Nearest.CopyNearestPixel`, `Nearest.ResizeRgbaNearest`: both model the 4-byte copy of the scalar branch. The simd128 branch at lib.rs:496-509 is represented only by `Nearest.SimdBuildPixelCopyWidth` and `Nearest.SimdBuildOverrunsOnePixelImage`, which record its 16-byte copy and the overrun listed under Findings.
- `Memory.DeallocMemory`: reports whether the block is released; the allocator's own bookkeeping is not modelled.
- `Nearest.NearestIndex`: the source computes the index map in f32. The model uses the exact integer form `min((2d+1)*src / (2*dst), src-1)`, so it does not model f32 rounding.
- `GammaBilinear.AxisTap`: the source coordinate, its floor and the weight are computed in f32. The model uses the exact rational value, and `real` stands in for f32.
- `GammaBilinear.AxisTap`: the `is_finite` guards on `fy`, `fx_safe` and `fy_safe`, and the `min(255).max(0)` clamps on the result bytes, are identities in exact arithmetic, so they have no branch. The finite-and-positive check on the scale factors is an `assert` in `GammaBilinear.ResizeRgbaGammaBilinear`.
- `SimdHelpers.ToU8`, `SimdHelpers.LerpSimd`, `SimdHelpers.LerpScalar`: exact real arithmetic stands in for f32, so the two `lerp` forms agree exactly. Under f32 rounding they can differ. NaN is not modelled.
- `Nearest.ResizeRgbaNearest`, `GammaBilinear.ResizeRgbaGammaBilinear`: the source slice is taken as a value copy of the source array right after validation. The source array is never modified, so this is the same as reading through the slice.
- `GammaBilinear.GammaRow`: the batch plan is returned as a ghost result. The order of visits is stated through that plan, not as a separate trace of visited columns.

## Findings

| source | as written | input that shows it | evidently intended | confidence | as-written member | corrected member |
|---|---|---|---|---|---|---|
| src/wasm-resize/src/lib.rs:496-509 | in the simd128 build, when the source and destination byte addresses of a pixel are both 16-aligned, the pixel is copied with `copy_4_pixels_simd`, which moves 16 bytes (four pixels), although both range guards checked only 4 bytes | `resize_rgba_nearest` with source at address 16, 1x1, destination at address 32, 1x1: validation passes, both guards pass, and the copy reads 12 bytes past the 4-byte source and writes 12 bytes past the 4-byte destination | copy exactly the four bytes of the pixel, as the scalar build does | not executed | `Nearest.SimdBuildOverrunsOnePixelImage` | `Nearest.CopyNearestPixel` |
