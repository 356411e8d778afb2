/**
  The 3x3 weighted sums shared by blur, sharpen and the Sobel edge filter,
  the square-root magnitude, and the two ways the implementations turn a
  weighted sum back into a byte.

  The source stores the weights as floats. Every weight used is an integer
  divided by a power of two (blur: `{1,2,1,2,4,2,1,2,1} / 16`; sharpen and
  Sobel: integers), so with byte inputs every product and partial sum is
  exactly representable; a kernel is therefore an integer weight vector plus
  a positive divisor, and the float sum equals `Window(...) / divisor`
  computed over the rationals.
 */
module Kernels {
  import opened Raster

  /** Nine row-major weights (`weights[(ky + 1) * 3 + (kx + 1)]`) over a divisor. */
  datatype Kernel = Kernel(weights: seq<int>, divisor: int)
  {
    predicate Valid() { |weights| == 9 && divisor > 0 }
  }

  const BlurKernel: Kernel := Kernel([1, 2, 1, 2, 4, 2, 1, 2, 1], 16)
  const SharpenKernel: Kernel := Kernel([0, -1, 0, -1, 5, -1, 0, -1, 0], 1)
  const SobelX: seq<int> := [-1, 0, 1, -2, 0, 2, -1, 0, 1]
  const SobelY: seq<int> := [-1, -2, -1, 0, 0, 0, 1, 2, 1]

  /** Sum of the nine weights. */
  function WeightSum(w: seq<int>): int
    requires |w| == 9
  {
    w[0] + w[1] + w[2] + w[3] + w[4] + w[5] + w[6] + w[7] + w[8]
  }

  /** What a window's centre pixel may be: its 3x3 neighbourhood is in the image. */
  predicate WindowFits(img: seq<Byte>, s: Shape, x: int, y: int, c: int, w: seq<int>)
  {
    |img| == s.Size() && s.Interior(x, y) && 0 <= c < s.channels && |w| == 9
  }

  /** One product of the sum: the sample at offset `(kx, ky)` times its weight. */
  function Tap(img: seq<Byte>, s: Shape, x: int, y: int, c: int, w: seq<int>, ky: int, kx: int): int
    requires WindowFits(img, s, x, y, c, w)
    requires -1 <= ky <= 1 && -1 <= kx <= 1
  {
    IdxDecode(s, x + kx, y + ky, c);
    img[s.Idx(x + kx, y + ky, c)] * w[(ky + 1) * 3 + (kx + 1)]
  }

  /** The taps `kx = -1 .. n - 2` of kernel row `ky`. */
  function RowTaps(img: seq<Byte>, s: Shape, x: int, y: int, c: int, w: seq<int>, ky: int, n: nat): int
    requires WindowFits(img, s, x, y, c, w)
    requires -1 <= ky <= 1 && n <= 3
  {
    if n == 0 then 0
    else RowTaps(img, s, x, y, c, w, ky, n - 1) + Tap(img, s, x, y, c, w, ky, n - 2)
  }

  /** The kernel rows `ky = -1 .. m - 2`. */
  function Taps(img: seq<Byte>, s: Shape, x: int, y: int, c: int, w: seq<int>, m: nat): int
    requires WindowFits(img, s, x, y, c, w)
    requires m <= 3
  {
    if m == 0 then 0
    else Taps(img, s, x, y, c, w, m - 1) + RowTaps(img, s, x, y, c, w, m - 2, 3)
  }

  /** The 3x3 weighted sum of channel `c` around pixel `(x, y)`. */
  function Window(img: seq<Byte>, s: Shape, x: int, y: int, c: int, w: seq<int>): int
    requires WindowFits(img, s, x, y, c, w)
  {
    Taps(img, s, x, y, c, w, 3)
  }

  /**
    The `ky`/`kx` accumulation loop of `applyKernel`, `filterEdge`,
    `applyConvolution` and `applyEdge` for one kernel.
   */
  method SumWindow(input: array<Byte>, s: Shape, x: int, y: int, c: int, w: seq<int>)
    returns (sum: int)
    requires WindowFits(input[..], s, x, y, c, w)
    ensures sum == Window(input[..], s, x, y, c, w)
  {
    sum := 0;
    for ky := -1 to 2
      invariant sum == Taps(input[..], s, x, y, c, w, ky + 1)
    {
      for kx := -1 to 2
        invariant sum == Taps(input[..], s, x, y, c, w, ky + 1) + RowTaps(input[..], s, x, y, c, w, ky, kx + 1)
      {
        IdxDecode(s, x + kx, y + ky, c);
        var pIdx := ((y + ky) * s.width + (x + kx)) * s.channels + c;
        sum := sum + input[pIdx] * w[(ky + 1) * 3 + (kx + 1)];
      }
    }
  }

  /** The fused loop of the edge filters: both Sobel sums in one pass. */
  method SobelSums(input: array<Byte>, s: Shape, x: int, y: int, c: int)
    returns (sumX: int, sumY: int)
    requires WindowFits(input[..], s, x, y, c, SobelX)
    ensures sumX == Window(input[..], s, x, y, c, SobelX)
    ensures sumY == Window(input[..], s, x, y, c, SobelY)
  {
    sumX, sumY := 0, 0;
    for ky := -1 to 2
      invariant sumX == Taps(input[..], s, x, y, c, SobelX, ky + 1)
      invariant sumY == Taps(input[..], s, x, y, c, SobelY, ky + 1)
    {
      for kx := -1 to 2
        invariant sumX == Taps(input[..], s, x, y, c, SobelX, ky + 1) + RowTaps(input[..], s, x, y, c, SobelX, ky, kx + 1)
        invariant sumY == Taps(input[..], s, x, y, c, SobelY, ky + 1) + RowTaps(input[..], s, x, y, c, SobelY, ky, kx + 1)
      {
        IdxDecode(s, x + kx, y + ky, c);
        var pIdx := ((y + ky) * s.width + (x + kx)) * s.channels + c;
        sumX := sumX + input[pIdx] * SobelX[(ky + 1) * 3 + (kx + 1)];
        sumY := sumY + input[pIdx] * SobelY[(ky + 1) * 3 + (kx + 1)];
      }
    }
  }

  /** On a flat image every sample of the window is the channel's colour. */
  lemma UniformWindow(img: seq<Byte>, s: Shape, colour: seq<Byte>, x: int, y: int, c: int, w: seq<int>)
    requires ChannelUniform(img, s, colour) && WindowFits(img, s, x, y, c, w)
    ensures Window(img, s, x, y, c, w) == colour[c] * WeightSum(w)
  {
    var v := colour[c];
    forall ky, kx | -1 <= ky <= 1 && -1 <= kx <= 1
      ensures Tap(img, s, x, y, c, w, ky, kx) == v * w[(ky + 1) * 3 + (kx + 1)]
    {
      IdxDecode(s, x + kx, y + ky, c);
    }
    forall ky | -1 <= ky <= 1
      ensures RowTaps(img, s, x, y, c, w, ky, 3) == v * w[(ky + 1) * 3] + v * w[(ky + 1) * 3 + 1] + v * w[(ky + 1) * 3 + 2]
    {
      assert RowTaps(img, s, x, y, c, w, ky, 1) == v * w[(ky + 1) * 3];
      assert RowTaps(img, s, x, y, c, w, ky, 2) == v * w[(ky + 1) * 3] + v * w[(ky + 1) * 3 + 1];
    }
    assert Taps(img, s, x, y, c, w, 1) == v * w[0] + v * w[1] + v * w[2];
    assert Taps(img, s, x, y, c, w, 2) == v * w[0] + v * w[1] + v * w[2] + v * w[3] + v * w[4] + v * w[5];
  }

  /** Blur and sharpen weights sum to their divisor: they preserve a flat colour. */
  lemma SmoothingKernelsPreserveFlat()
    ensures BlurKernel.Valid() && WeightSum(BlurKernel.weights) == BlurKernel.divisor
    ensures SharpenKernel.Valid() && WeightSum(SharpenKernel.weights) == SharpenKernel.divisor
    ensures WeightSum(SobelX) == 0 && WeightSum(SobelY) == 0
  {
  }

  /** Largest `r` with `r * r <= n`. */
  function FloorSqrt(n: nat): (r: nat)
    ensures r * r <= n < (r + 1) * (r + 1)
  {
    if n == 0 then 0
    else
      var r := FloorSqrt(n - 1);
      if (r + 1) * (r + 1) <= n then r + 1 else r
  }

  /**
    The edge byte: the square root of `gx^2 + gy^2`, truncated and capped
    at 255. Both implementations cap and truncate; the order does not
    matter because the root is non-negative.
   */
  function Magnitude(gx: int, gy: int): (m: Byte)
  {
    var r := FloorSqrt(gx * gx + gy * gy);
    if r > 255 then 255 else r
  }

  lemma SquareMono(a: nat, b: nat)
    requires a <= b
    ensures a * a <= b * b
  {
    MulLeq(a, b, a);
    MulLeq(a, b, b);
  }

  /** The magnitude is the truncated root below the cap, and zero only for a zero gradient. */
  lemma MagnitudeMeaning(gx: int, gy: int)
    ensures var n, m := gx * gx + gy * gy, Magnitude(gx, gy);
      (m < 255 ==> m * m <= n < (m + 1) * (m + 1)) &&
      (m == 255 <==> n >= 255 * 255) &&
      (m == 0 <==> gx == 0 && gy == 0)
  {
    var n := gx * gx + gy * gy;
    var r := FloorSqrt(n);
    if r >= 255 {
      SquareMono(255, r);
    } else if n >= 255 * 255 {
      SquareMono(r + 1, 255);
    }
    if gx != 0 {
      assert gx * gx > 0;
    }
    if gy != 0 {
      assert gy * gy > 0;
    }
  }

  /**
    The threaded implementation: `min(max(sum / divisor, 0), 255)` over the
    reals, then the conversion to `unsigned char`, which truncates.
   */
  function ClampThenTruncate(sum: int, divisor: int): Byte
    requires divisor > 0
  {
    if sum < 0 then 0 else Clamp(sum / divisor)
  }

  /** C's `(int)` conversion of `a / d`: truncation toward zero. */
  function TruncDiv(a: int, d: int): int
    requires d > 0
  {
    if a >= 0 then a / d else -((-a) / d)
  }

  /** The OpenMP implementation: `(int)(sum / divisor)`, then `max(0, min(255, .))`. */
  function TruncateThenClamp(sum: int, divisor: int): Byte
    requires divisor > 0
  {
    Clamp(TruncDiv(sum, divisor))
  }

  /** The quotient of a non-negative sum is non-negative, and below 256 for a sum below `256 * divisor`. */
  lemma QuotientBounds(sum: int, divisor: int)
    requires sum >= 0 && divisor > 0
    ensures 0 <= sum / divisor
    ensures sum < 256 * divisor ==> sum / divisor < 256
  {
    var q, r := sum / divisor, sum % divisor;
    assert sum == q * divisor + r && 0 <= r < divisor;
    if q < 0 {
      MulLeq(q, -1, divisor);
    } else if sum < 256 * divisor && q >= 256 {
      MulLeq(256, q, divisor);
    }
  }

  /** The two saturations agree on every sum. */
  lemma SaturationsAgree(sum: int, divisor: int)
    requires divisor > 0
    ensures ClampThenTruncate(sum, divisor) == TruncateThenClamp(sum, divisor)
    ensures sum < 0 ==> TruncateThenClamp(sum, divisor) == 0
    ensures 0 <= sum < 256 * divisor ==> TruncateThenClamp(sum, divisor) == sum / divisor
  {
    if sum >= 0 {
      QuotientBounds(sum, divisor);
    } else {
      QuotientBounds(-sum, divisor);
    }
  }

  /** A flat colour passes through blur and sharpen unchanged. */
  lemma FlatSurvivesKernel(k: Kernel, v: Byte)
    requires k == BlurKernel || k == SharpenKernel
    ensures TruncateThenClamp(v * WeightSum(k.weights), k.divisor) == v
    ensures ClampThenTruncate(v * WeightSum(k.weights), k.divisor) == v
  {
    SmoothingKernelsPreserveFlat();
    DivModUnique(v * k.divisor, k.divisor, v, 0);
  }
}
