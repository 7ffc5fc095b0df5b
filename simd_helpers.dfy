/** The byte-copy and interpolation helpers shared by the resize kernels,
    in both their simd128 and scalar builds. A raw pointer is an array with
    a start offset; alignment tests look at the numeric address of the
    array's first byte, which is a parameter. */
module SimdHelpers {
  import opened Machine

  /** `d` with `s` written over it starting at `off`. */
  function Spliced(d: seq<byte>, off: nat, s: seq<byte>): (r: seq<byte>)
    requires off + |s| <= |d|
    ensures |r| == |d|
  {
    d[..off] + s + d[off + |s|..]
  }

  /** Byte `i` of a spliced sequence comes from the block inside its range
      and from the original everywhere else. */
  lemma SplicedAt(d: seq<byte>, off: nat, s: seq<byte>, i: nat)
    requires off + |s| <= |d| && i < |d|
    ensures Spliced(d, off, s)[i] == if off <= i < off + |s| then s[i - off] else d[i]
  {
  }

  /** A sequence that agrees with the splice byte by byte is the splice. */
  lemma SplicedFrom(r: seq<byte>, d: seq<byte>, off: nat, s: seq<byte>)
    requires |r| == |d| && off + |s| <= |d|
    requires forall j :: 0 <= j < |r| ==> r[j] == if off <= j < off + |s| then s[j - off] else d[j]
    ensures r == Spliced(d, off, s)
  {
    forall j | 0 <= j < |r|
      ensures r[j] == Spliced(d, off, s)[j]
    {
      SplicedAt(d, off, s, j);
    }
  }

  /** Writing a block and then the block right after it is writing the two
      blocks joined. */
  lemma SplicedConsecutive(d: seq<byte>, off: nat, s: seq<byte>, t: seq<byte>)
    requires off + |s| + |t| <= |d|
    ensures Spliced(Spliced(d, off, s), off + |s|, t) == Spliced(d, off, s + t)
  {
    var a, b := Spliced(Spliced(d, off, s), off + |s|, t), Spliced(d, off, s + t);
    assert |a| == |b|;
    forall i | 0 <= i < |a|
      ensures a[i] == b[i]
    {
      SplicedAt(d, off, s, i);
      SplicedAt(Spliced(d, off, s), off + |s|, t, i);
      SplicedAt(d, off, s + t, i);
      if off + |s| <= i < off + |s| + |t| {
        assert (s + t)[i - off] == t[i - off - |s|];
      } else if off <= i < off + |s| {
        assert (s + t)[i - off] == s[i - off];
      }
    }
  }

  /** Copying the next bytes after a copied prefix extends the prefix: if
      `before` holds the first `off` bytes of `s` over `d`, and `after` is
      `before` with the next block of `s` written at `off`, then `after`
      holds the prefix of `s` up to the end of the block over `d`. */
  lemma SplicedPrefixGrows(d: seq<byte>, s: seq<byte>, before: seq<byte>, block: seq<byte>, after: seq<byte>, off: nat, end: nat)
    requires end == off + |block| && end <= |s| && end <= |d|
    requires before == Spliced(d, 0, s[..off])
    requires block == s[off..end]
    requires after == Spliced(before, off, block)
    ensures after == Spliced(d, 0, s[..end])
  {
    SplicedConsecutive(d, 0, s[..off], block);
    assert s[..off] + block == s[..end];
  }

  /** `copy_4_pixels_simd`, simd128 build: one 16-byte `v128` load, then one
      store. The whole block is read before any byte is written, so the two
      ranges may even overlap. */
  method Copy4PixelsSimd(src: array<byte>, srcOff: nat, dst: array<byte>, dstOff: nat)
    requires srcOff + 16 <= src.Length && dstOff + 16 <= dst.Length
    modifies dst
    ensures dst[..] == Spliced(old(dst[..]), dstOff, old(src[srcOff..srcOff + 16]))
  {
    var data := src[srcOff..srcOff + 16];
    forall i | 0 <= i < 16 {
      dst[dstOff + i] := data[i];
    }
  }

  /** `copy_from_slice` between a shared and a mutable slice of `n` bytes, which
      Rust's aliasing rules keep apart. */
  method CopyFromSlice(src: array<byte>, srcOff: nat, dst: array<byte>, dstOff: nat, n: nat)
    requires src != dst
    requires srcOff + n <= src.Length && dstOff + n <= dst.Length
    modifies dst
    ensures dst[..] == Spliced(old(dst[..]), dstOff, src[srcOff..srcOff + n])
  {
    ghost var d0, block := dst[..], src[srcOff..srcOff + n];
    for i := 0 to n
      invariant forall j :: 0 <= j < dst.Length ==>
                  dst[j] == if dstOff <= j < dstOff + i then block[j - dstOff] else d0[j]
    {
      dst[dstOff + i] := src[srcOff + i];
    }
    SplicedFrom(dst[..], d0, dstOff, block);
  }

  /** `copy_4_pixels_simd`, scalar build: the same 16 bytes through two
      16-byte slices. */
  method Copy4PixelsScalar(src: array<byte>, srcOff: nat, dst: array<byte>, dstOff: nat)
    requires src != dst
    requires srcOff + 16 <= src.Length && dstOff + 16 <= dst.Length
    modifies dst
    ensures dst[..] == Spliced(old(dst[..]), dstOff, src[srcOff..srcOff + 16])
  {
    CopyFromSlice(src, srcOff, dst, dstOff, 16);
  }

  /** How `batch_copy_nearest` divides `pixelCount` pixels: whole 16-byte
      chunks of four pixels, then fewer than four pixels copied one slice. */
  function ChunkPlan(pixelCount: nat): (plan: (nat, nat))
    ensures 16 * plan.0 + 4 * plan.1 == 4 * pixelCount && plan.1 < 4
  {
    (pixelCount / 4, pixelCount % 4)
  }

  /** The division is the only one with fewer than four leftover pixels. */
  lemma ChunkPlanUnique(pixelCount: nat, chunks: nat, remainder: nat)
    requires 16 * chunks + 4 * remainder == 4 * pixelCount && remainder < 4
    ensures ChunkPlan(pixelCount) == (chunks, remainder)
  {
    DivModOf(chunks, 4, remainder);
  }

  /** Moving a pointer by whole chunks keeps its 16-byte alignment, so the
      aligned/unaligned choice is the same for every chunk of one call. */
  lemma ChunkAlignment(addr: nat, i: nat)
    ensures Aligned16(addr + 16 * i) <==> Aligned16(addr)
  {
    DivModOf(addr / 16 + i, 16, addr % 16);
  }

  /** A `v128` access at this address is 16-byte aligned. */
  predicate Aligned16(addr: nat)
  {
    addr % 16 == 0
  }

  /** One chunk of `batch_copy_nearest`, simd128 build: a `v128` load and
      store when both of its addresses are 16-aligned, a slice copy
      otherwise; either way the 16 bytes at `off` are copied. */
  method CopyChunk(src: array<byte>, srcAddr: nat, dst: array<byte>, dstAddr: nat, off: nat)
    requires src != dst
    requires off + 16 <= src.Length && off + 16 <= dst.Length
    modifies dst
    ensures dst[..] == Spliced(old(dst[..]), off, src[off..off + 16])
  {
    if Aligned16(srcAddr + off) && Aligned16(dstAddr + off) {
      Copy4PixelsSimd(src, off, dst, off);
    } else {
      CopyFromSlice(src, off, dst, off, 16);
    }
  }

  /** `batch_copy_nearest`, simd128 build: the whole chunks go through
      `CopyChunk`, then the leftover pixels follow as one slice copy. The
      first `4 * pixelCount` destination bytes end equal to the source's,
      and nothing else changes. */
  method BatchCopyNearestSimd(src: array<byte>, srcAddr: nat, dst: array<byte>, dstAddr: nat, pixelCount: nat)
    requires src != dst
    requires 4 * pixelCount <= src.Length && 4 * pixelCount <= dst.Length
    modifies dst
    ensures dst[..] == Spliced(old(dst[..]), 0, src[..4 * pixelCount])
  {
    ghost var d0, s := dst[..], src[..];
    var (chunks, remainder) := ChunkPlan(pixelCount);
    CopyChunks(src, srcAddr, dst, dstAddr, d0, s, chunks);
    CopyRemainder(src, dst, d0, s, 16 * chunks, 4 * pixelCount);
    assert s[..4 * pixelCount] == src[..4 * pixelCount];
  }

  /** The chunk loop of `batch_copy_nearest`: chunk `i` covers bytes
      `16 * i .. 16 * i + 16`, so after `chunks` chunks the copied prefix
      reaches `16 * chunks`. */
  method CopyChunks(src: array<byte>, srcAddr: nat, dst: array<byte>, dstAddr: nat,
                    ghost d0: seq<byte>, ghost s: seq<byte>, chunks: nat)
    requires src != dst && s == src[..] && d0 == dst[..]
    requires 16 * chunks <= src.Length && 16 * chunks <= dst.Length
    modifies dst
    ensures dst[..] == Spliced(d0, 0, s[..16 * chunks])
  {
    for i := 0 to chunks
      invariant dst[..] == Spliced(d0, 0, s[..16 * i])
    {
      ghost var before := dst[..];
      CopyChunk(src, srcAddr, dst, dstAddr, 16 * i);
      SplicedPrefixGrows(d0, s, before, src[16 * i..16 * i + 16], dst[..], 16 * i, 16 * (i + 1));
    }
  }

  /** The remainder step of `batch_copy_nearest`: the bytes from `off` to
      `end` (the leftover pixels) are copied with one slice copy, when there
      are any; the copied prefix then reaches `end`. */
  method CopyRemainder(src: array<byte>, dst: array<byte>, ghost d0: seq<byte>, ghost s: seq<byte>, off: nat, end: nat)
    requires src != dst && s == src[..] && |d0| == dst.Length
    requires off <= end <= src.Length && end <= dst.Length
    requires dst[..] == Spliced(d0, 0, s[..off])
    modifies dst
    ensures dst[..] == Spliced(d0, 0, s[..end])
  {
    if off < end {
      ghost var before := dst[..];
      CopyFromSlice(src, off, dst, off, end - off);
      SplicedPrefixGrows(d0, s, before, src[off..end], dst[..], off, end);
    }
  }

  /** `batch_copy_nearest`, scalar build: one slice copy of `4 * pixelCount`
      bytes, with the same effect as the simd128 build. */
  method BatchCopyNearestScalar(src: array<byte>, dst: array<byte>, pixelCount: nat)
    requires src != dst
    requires 4 * pixelCount <= src.Length && 4 * pixelCount <= dst.Length
    modifies dst
    ensures dst[..] == Spliced(old(dst[..]), 0, src[..4 * pixelCount])
  {
    CopyFromSlice(src, 0, dst, 0, 4 * pixelCount);
  }

  /** Run on copies of the same bytes, the two builds of `copy_4_pixels_simd`
      leave the same destination: the 16 bytes at `dstOff` replaced by the
      source's 16 bytes at `srcOff`. */
  method Copy4PixelsVariantsAgree(s: seq<byte>, srcOff: nat, d: seq<byte>, dstOff: nat)
    returns (viaSimd: seq<byte>, viaScalar: seq<byte>)
    requires srcOff + 16 <= |s| && dstOff + 16 <= |d|
    ensures viaSimd == viaScalar
    ensures |viaSimd| == |d| && viaSimd[dstOff..dstOff + 16] == s[srcOff..srcOff + 16]
    ensures viaSimd[..dstOff] == d[..dstOff] && viaSimd[dstOff + 16..] == d[dstOff + 16..]
  {
    var src := new byte[|s|](i requires 0 <= i < |s| => s[i]);
    var dst1 := new byte[|d|](i requires 0 <= i < |d| => d[i]);
    var dst2 := new byte[|d|](i requires 0 <= i < |d| => d[i]);
    assert src[..] == s && dst1[..] == d && dst2[..] == d;
    Copy4PixelsSimd(src, srcOff, dst1, dstOff);
    Copy4PixelsScalar(src, srcOff, dst2, dstOff);
    viaSimd, viaScalar := dst1[..], dst2[..];
  }

  /** Run on copies of the same bytes, the two builds of `batch_copy_nearest`
      leave the same destination, whatever the buffers' alignment: its first
      `4 * pixelCount` bytes are the source's and the rest are untouched. */
  method BatchCopyVariantsAgree(s: seq<byte>, srcAddr: nat, d: seq<byte>, dstAddr: nat, pixelCount: nat)
    returns (viaSimd: seq<byte>, viaScalar: seq<byte>)
    requires 4 * pixelCount <= |s| && 4 * pixelCount <= |d|
    ensures viaSimd == viaScalar
    ensures |viaSimd| == |d| && viaSimd[..4 * pixelCount] == s[..4 * pixelCount]
    ensures viaSimd[4 * pixelCount..] == d[4 * pixelCount..]
  {
    var src := new byte[|s|](i requires 0 <= i < |s| => s[i]);
    var dst1 := new byte[|d|](i requires 0 <= i < |d| => d[i]);
    var dst2 := new byte[|d|](i requires 0 <= i < |d| => d[i]);
    assert src[..] == s && dst1[..] == d && dst2[..] == d;
    BatchCopyNearestSimd(src, srcAddr, dst1, dstAddr, pixelCount);
    BatchCopyNearestScalar(src, dst2, pixelCount);
    viaSimd, viaScalar := dst1[..], dst2[..];
  }

  // `bilinear_interp_4_pixels`, over the reals.

  /** `v.max(0.0).min(255.0) as u8`: clamp to the byte range, then truncate. */
  function ToU8(v: real): (b: byte)
    ensures 0.0 <= v <= 255.0 ==> b as real <= v < b as real + 1.0
    ensures v < 0.0 ==> b == 0
    ensures v > 255.0 ==> b == 255
  {
    if v < 0.0 then 0 else if v > 255.0 then 255 else v.Floor
  }

  /** The value the simd128 build's `lerp` converts: `a + t * (b - a)`. */
  function LerpValue(a: byte, b: byte, t: real): real
  {
    a as real + t * (b as real - a as real)
  }

  /** The simd128 build's `lerp`. */
  function LerpSimd(a: byte, b: byte, t: real): byte
  {
    ToU8(LerpValue(a, b, t))
  }

  /** The scalar build's `lerp`: `a * (1 - t) + b * t`. */
  function LerpScalar(a: byte, b: byte, t: real): byte
  {
    ToU8(a as real * (1.0 - t) + b as real * t)
  }

  /** In exact arithmetic the two `lerp` forms agree, and for a weight in
      [0, 1] the result lies between the end points, equal to `a` at 0 and
      to `b` at 1. */
  lemma LerpSpec(a: byte, b: byte, t: real)
    ensures LerpSimd(a, b, t) == LerpScalar(a, b, t)
    ensures 0.0 <= t <= 1.0 ==> Min(a, b) <= LerpSimd(a, b, t) <= Max(a, b)
    ensures LerpSimd(a, b, 0.0) == a && LerpSimd(a, b, 1.0) == b
  {
    LerpFormsAgree(a, b, t);
    if 0.0 <= t <= 1.0 {
      LerpBounded(a, b, t);
    }
    LerpFormsAgree(a, b, 0.0);
    LerpFormsAgree(a, b, 1.0);
  }

  lemma LerpFormsAgree(a: byte, b: byte, t: real)
    ensures LerpValue(a, b, t) == a as real * (1.0 - t) + b as real * t
  {
  }

  lemma LerpBounded(a: byte, b: byte, t: real)
    requires 0.0 <= t <= 1.0
    ensures Min(a, b) <= LerpSimd(a, b, t) <= Max(a, b)
  {
    LerpBetween(a, b, t);
    FloorBetween(LerpValue(a, b, t), Min(a, b), Max(a, b));
  }

  /** `a + t * (b - a)` lies between `a` and `b` for `t` in [0, 1]. */
  lemma LerpBetween(a: byte, b: byte, t: real)
    requires 0.0 <= t <= 1.0
    ensures Min(a, b) as real <= LerpValue(a, b, t) <= Max(a, b) as real
  {
    var x, y := a as real, b as real;
    if a <= b {
      MulNonneg(1.0 - t, y - x);
      MulNonneg(t, y - x);
    } else {
      MulNonneg(1.0 - t, x - y);
      MulNonneg(t, x - y);
    }
  }

  lemma MulNonneg(x: real, y: real)
    requires 0.0 <= x && 0.0 <= y
    ensures 0.0 <= x * y
  {
  }

  function Max(a: int, b: int): int { if a >= b then a else b }

  /** The floor of a value between two integers stays between them. */
  lemma FloorBetween(v: real, lo: int, hi: int)
    requires lo as real <= v <= hi as real && 0 <= lo
    ensures lo <= v.Floor <= hi
  {
  }

  /** One channel of `bilinear_interp_4_pixels` in a build whose `lerp` is
      `lerp`: two horizontal blends by `fx`, then a vertical one by `fy`. */
  function InterpChannel(lerp: (byte, byte, real) -> byte, c00: byte, c10: byte, c01: byte, c11: byte,
                         fx: real, fy: real): byte
  {
    lerp(lerp(c00, c10, fx), lerp(c01, c11, fx), fy)
  }

  /** `bilinear_interp_4_pixels`, simd128 build. */
  function BilinearInterpSimd(p00: Pixel, p10: Pixel, p01: Pixel, p11: Pixel, fx: real, fy: real): Pixel
  {
    Pixel(InterpChannel(LerpSimd, p00.r, p10.r, p01.r, p11.r, fx, fy),
          InterpChannel(LerpSimd, p00.g, p10.g, p01.g, p11.g, fx, fy),
          InterpChannel(LerpSimd, p00.b, p10.b, p01.b, p11.b, fx, fy),
          InterpChannel(LerpSimd, p00.a, p10.a, p01.a, p11.a, fx, fy))
  }

  /** `bilinear_interp_4_pixels`, scalar build. */
  function BilinearInterpScalar(p00: Pixel, p10: Pixel, p01: Pixel, p11: Pixel, fx: real, fy: real): Pixel
  {
    Pixel(InterpChannel(LerpScalar, p00.r, p10.r, p01.r, p11.r, fx, fy),
          InterpChannel(LerpScalar, p00.g, p10.g, p01.g, p11.g, fx, fy),
          InterpChannel(LerpScalar, p00.b, p10.b, p01.b, p11.b, fx, fy),
          InterpChannel(LerpScalar, p00.a, p10.a, p01.a, p11.a, fx, fy))
  }

  /** Both builds compute the same pixel; at the corner weights it is the
      corner pixel itself. */
  lemma BilinearInterpSpec(p00: Pixel, p10: Pixel, p01: Pixel, p11: Pixel, fx: real, fy: real)
    ensures BilinearInterpSimd(p00, p10, p01, p11, fx, fy) == BilinearInterpScalar(p00, p10, p01, p11, fx, fy)
    ensures BilinearInterpSimd(p00, p10, p01, p11, 0.0, 0.0) == p00
    ensures BilinearInterpSimd(p00, p10, p01, p11, 1.0, 0.0) == p10
    ensures BilinearInterpSimd(p00, p10, p01, p11, 0.0, 1.0) == p01
    ensures BilinearInterpSimd(p00, p10, p01, p11, 1.0, 1.0) == p11
  {
    forall a: byte, b: byte, t: real
      ensures LerpSimd(a, b, t) == LerpScalar(a, b, t)
      ensures LerpSimd(a, b, 0.0) == a && LerpSimd(a, b, 1.0) == b
    {
      LerpSpec(a, b, t);
    }
  }

  /** For weights in [0, 1] every output channel lies between the smallest
      and the largest of the four corner channels. */
  lemma BilinearInterpBounded(p00: Pixel, p10: Pixel, p01: Pixel, p11: Pixel, fx: real, fy: real, k: nat)
    requires 0.0 <= fx <= 1.0 && 0.0 <= fy <= 1.0 && k < 4
    ensures var lo := Min(Min(p00.At(k), p10.At(k)), Min(p01.At(k), p11.At(k)));
            var hi := Max(Max(p00.At(k), p10.At(k)), Max(p01.At(k), p11.At(k)));
            lo <= BilinearInterpSimd(p00, p10, p01, p11, fx, fy).At(k) <= hi
  {
    var c0 := LerpSimd(p00.At(k), p10.At(k), fx);
    var c1 := LerpSimd(p01.At(k), p11.At(k), fx);
    LerpSpec(p00.At(k), p10.At(k), fx);
    LerpSpec(p01.At(k), p11.At(k), fx);
    LerpSpec(c0, c1, fy);
    assert BilinearInterpSimd(p00, p10, p01, p11, fx, fy).At(k) == LerpSimd(c0, c1, fy) by {
      if k == 0 {
      } else if k == 1 {
      } else if k == 2 {
      } else {
      }
    }
  }
}
