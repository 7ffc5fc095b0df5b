/** Machine integers of the wasm32 target, RGBA pixels and the small
    option/result wrappers the resize module's code is written against. */
module Machine {

  /** Largest value of `u32`; on wasm32 `usize` has the same width. */
  const U32_MAX: nat := 0xFFFF_FFFF
  const USIZE_MAX: nat := U32_MAX
  /** `isize::MAX` on wasm32: the largest size a `Layout` accepts. */
  const ISIZE_MAX: nat := 0x7FFF_FFFF
  const U64_MAX: nat := 0xFFFF_FFFF_FFFF_FFFF

  type u32 = x: nat | x <= U32_MAX
  type usize = x: nat | x <= USIZE_MAX
  type i32 = x: int | -0x8000_0000 <= x < 0x8000_0000
  type byte = x: int | 0 <= x < 256

  datatype Option<+T> = None | Some(value: T)

  /** The `Result<_, i32>` of the module: a value or an error code. */
  datatype Result<+T> = Ok(value: T) | Err(code: i32)

  /** `a.saturating_add(b)` on an unsigned type whose maximum is `max`. */
  function SatAdd(a: nat, b: nat, max: nat): (r: nat)
    ensures r <= max || r == a + b
    ensures r == a + b <==> a + b <= max
    ensures a + b > max ==> r == max
  {
    if a + b <= max then a + b else max
  }

  /** `a.saturating_mul(b)` on `u32`. */
  function SatMulU32(a: u32, b: u32): (r: u32)
    ensures r == a * b || (r == U32_MAX && a * b > U32_MAX)
  {
    if a * b <= U32_MAX then a * b else U32_MAX
  }

  /** `a.checked_mul(b)` on an unsigned type whose maximum is `max`. */
  function CheckedMul(a: nat, b: nat, max: nat): (r: Option<nat>)
    ensures r.Some? <==> a * b <= max
    ensures r.Some? ==> r.value == a * b
  {
    if a * b <= max then Some(a * b) else None
  }

  /** `a.checked_add(b)` on an unsigned type whose maximum is `max`. */
  function CheckedAdd(a: nat, b: nat, max: nat): (r: Option<nat>)
    ensures r.Some? <==> a + b <= max
    ensures r.Some? ==> r.value == a + b
  {
    if a + b <= max then Some(a + b) else None
  }

  /** `x.min(hi).max(lo)`, written as `x.clamp(lo, hi)` in the source. */
  function Clamp(x: int, lo: int, hi: int): (r: int)
    requires lo <= hi
    ensures lo <= r <= hi
    ensures lo <= x <= hi ==> r == x
  {
    if x < lo then lo else if x > hi then hi else x
  }

  function Min(a: int, b: int): int { if a <= b then a else b }

  /** An RGBA pixel, the source's `[u8; 4]`. */
  datatype Pixel = Pixel(r: byte, g: byte, b: byte, a: byte) {
    /** Channel `k`, in memory order R, G, B, A. */
    function At(k: nat): byte
      requires k < 4
    {
      if k == 0 then r else if k == 1 then g else if k == 2 then b else a
    }
  }

  const TRANSPARENT: Pixel := Pixel(0, 0, 0, 0)

  /** The four bytes `s[pos..pos + 4]` read as a pixel. */
  function PixelAt(s: seq<byte>, pos: nat): (p: Pixel)
    requires pos + 3 < |s|
    ensures forall k :: 0 <= k < 4 ==> p.At(k) == s[pos + k]
  {
    Pixel(s[pos], s[pos + 1], s[pos + 2], s[pos + 3])
  }

  /** Byte offset of pixel (x, y) in a row-major RGBA raster `w` pixels wide. */
  function ByteOffset(x: nat, y: nat, w: nat): nat
  {
    (y * w + x) * 4
  }

  lemma MulMonotone(a: nat, b: nat, c: nat)
    requires a <= b
    ensures a * c <= b * c
  {
  }

  /** A pixel's offset is its row's offset plus four bytes per column. */
  lemma ByteOffsetSplit(x: nat, y: nat, w: nat)
    ensures ByteOffset(x, y, w) == y * w * 4 + 4 * x == ByteOffset(0, y, w) + 4 * x
  {
  }

  /** A pixel inside a `w` x `h` raster has all four bytes inside `w * h * 4`. */
  lemma RowMajorBound(x: nat, y: nat, w: nat, h: nat)
    requires x < w && y < h
    ensures y * w + x < w * h
    ensures ByteOffset(x, y, w) + 4 <= w * h * 4
  {
    MulMonotone(y + 1, h, w);
    assert y * w + w == (y + 1) * w;
    assert h * w == w * h;
  }

  /** The rows of a `w` x `h` raster follow one another `4 * w` bytes apart. */
  lemma RowStep(y: nat, w: nat, h: nat)
    requires y < h
    ensures ByteOffset(0, y + 1, w) == ByteOffset(0, y, w) + 4 * w
    ensures ByteOffset(0, y + 1, w) <= w * h * 4
  {
    MulMonotone(y + 1, h, w);
    assert h * w == w * h;
  }

  lemma MulCancel(a: int, b: int, c: nat)
    requires a * c < b * c
    ensures a < b
  {
  }

  /** Division by a positive `d` recovers quotient and remainder. */
  lemma DivModOf(q: nat, d: nat, r: nat)
    requires r < d
    ensures (q * d + r) / d == q && (q * d + r) % d == r
  {
    var a := q * d + r;
    var q', r' := a / d, a % d;
    assert a == q' * d + r';
    assert q' * d < (q + 1) * d;
    MulCancel(q', q + 1, d);
    assert q * d < (q' + 1) * d;
    MulCancel(q, q' + 1, d);
  }

  /** Every byte of a row-major raster belongs to exactly one (x, y, channel). */
  lemma ByteOffsetInverse(x: nat, y: nat, w: nat, k: nat)
    requires x < w && k < 4
    ensures (ByteOffset(x, y, w) + k) / 4 == y * w + x
    ensures (ByteOffset(x, y, w) + k) % 4 == k
    ensures (y * w + x) / w == y && (y * w + x) % w == x
  {
    DivModOf(y * w + x, 4, k);
    DivModOf(y, w, x);
  }

  /** The converse of `RowMajorBound`: every byte index of a `w` x `h` raster
      is channel `i % 4` of the pixel numbered `i / 4` in row-major order. */
  lemma RasterIndex(i: nat, w: nat, h: nat)
    requires w > 0 && i < w * h * 4
    ensures var c := i / 4;
            && c % w < w && c / w < h
            && i == ByteOffset(c % w, c / w, w) + i % 4
  {
    var c := i / 4;
    assert c * 4 <= i;
    MulCancel(c, w * h, 4);
    assert c == (c / w) * w + c % w;
    assert (c / w) * w < h * w;
    MulCancel(c / w, h, w);
  }

  /** Byte `i` of the raster whose pixel (x, y) is `f(x, y)`. */
  function PixelChannel(f: (nat, nat) -> Pixel, w: nat, i: nat): byte
    requires w > 0
  {
    var c := i / 4;
    f(c % w, c / w).At(i % 4)
  }

  /** The row-major RGBA raster of `w` x `h` pixels whose pixel (x, y) is `f(x, y)`. */
  function Raster(w: nat, h: nat, f: (nat, nat) -> Pixel): (r: seq<byte>)
    ensures |r| == w * h * 4
  {
    var n := w * h * 4;
    if w == 0 then [] else seq(n, i requires 0 <= i < n => PixelChannel(f, w, i))
  }

  /** Channel `k` of pixel (x, y) of a raster is where `ByteOffset` says it is. */
  lemma RasterAt(w: nat, h: nat, f: (nat, nat) -> Pixel, x: nat, y: nat, k: nat)
    requires x < w && y < h && k < 4
    ensures ByteOffset(x, y, w) + k < |Raster(w, h, f)|
    ensures Raster(w, h, f)[ByteOffset(x, y, w) + k] == f(x, y).At(k)
  {
    RowMajorBound(x, y, w, h);
    ByteOffsetInverse(x, y, w, k);
  }

  /** All four channels of pixel (x, y) of a raster, at its row's offset plus
      four bytes per column. */
  lemma RasterPixelAt(w: nat, h: nat, f: (nat, nat) -> Pixel, x: nat, y: nat)
    requires x < w && y < h
    ensures var pos, r, px := ByteOffset(x, y, w), Raster(w, h, f), f(x, y);
            && pos == ByteOffset(0, y, w) + 4 * x
            && pos + 3 < |r|
            && r[pos] == px.r && r[pos + 1] == px.g && r[pos + 2] == px.b && r[pos + 3] == px.a
  {
    ByteOffsetSplit(x, y, w);
    RasterAt(w, h, f, x, y, 0);
    RasterAt(w, h, f, x, y, 1);
    RasterAt(w, h, f, x, y, 2);
    RasterAt(w, h, f, x, y, 3);
  }

  /** The four byte stores of one RGBA pixel at `pos`. */
  method StorePixel(dst: array<byte>, pos: nat, px: Pixel)
    requires pos + 3 < dst.Length
    modifies dst
    ensures dst[..] == old(dst[..])[pos := px.r][pos + 1 := px.g][pos + 2 := px.b][pos + 3 := px.a]
  {
    dst[pos] := px.r;
    dst[pos + 1] := px.g;
    dst[pos + 2] := px.b;
    dst[pos + 3] := px.a;
  }

  /** The four byte stores of the pixel an image holds at `pos`, made right
      after a prefix of `dst` that already agrees with the image: the
      agreement then reaches past the pixel. */
  method StoreNextPixel(dst: array<byte>, ghost img: seq<byte>, pos: nat, px: Pixel)
    requires |img| == dst.Length && pos + 3 < dst.Length && dst[..pos] == img[..pos]
    requires img[pos] == px.r && img[pos + 1] == px.g && img[pos + 2] == px.b && img[pos + 3] == px.a
    modifies dst
    ensures dst[..] == old(dst[..])[pos := px.r][pos + 1 := px.g][pos + 2 := px.b][pos + 3 := px.a]
    ensures dst[..pos + 4] == img[..pos + 4]
  {
    PixelWritten(dst[..], img, pos, px);
    StorePixel(dst, pos, px);
  }

  /** Writing the four channels of the pixel an image holds at `pos` right
      after a prefix that already agrees with the image extends the
      agreement by that pixel. */
  lemma PixelWritten(d: seq<byte>, img: seq<byte>, pos: nat, px: Pixel)
    requires |d| == |img| && pos + 3 < |d| && d[..pos] == img[..pos]
    requires img[pos] == px.r && img[pos + 1] == px.g && img[pos + 2] == px.b && img[pos + 3] == px.a
    ensures d[pos := px.r][pos + 1 := px.g][pos + 2 := px.b][pos + 3 := px.a][..pos + 4] == img[..pos + 4]
  {
    var e := d[pos := px.r][pos + 1 := px.g][pos + 2 := px.b][pos + 3 := px.a];
    forall i | 0 <= i < pos + 4
      ensures e[i] == img[i]
    {
      if i < pos {
        assert d[i] == d[..pos][i];
      }
    }
  }
}
