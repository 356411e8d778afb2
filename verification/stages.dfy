/**
  The filter stages both batch programs run on one decoded image. Every
  stage reads the original image; the blur, edge, sharpen and brightness
  stages all write the one shared output buffer, so a stage that leaves a
  byte alone exposes what the previous stage (or the allocation) left there.
  The returned sequences are the buffer contents each stage hands to the
  encoder.
 */
module Stages {
  import opened Raster
  import opened Kernels
  import opened RowPartition
  import T = ThreadFilters
  import O = OmpFilters

  /** The brightness shift both programs use. */
  const BrightnessShift := 50

  /**
    One image through the threaded program: `memcpy` into the gray buffer
    and grayscale it in place, then blur, edge, sharpen and brightness from
    `img` into `outputImg`, each through `runParallel`. `order` is the order
    in which the workers of the grayscale, blur, edge and sharpen stages
    complete; their result does not depend on it. The brightness stage passes
    its shift where `runParallel` appends the row range, so its workers run
    `filterBrightness` over rows `[50, start)` with shift `end`; its result
    depends on `brightOrder`, the order in which those workers complete.
   */
  method ThreadedImage(numThreads: int, img: array<Byte>, outputImg: array<Byte>, grayImg: array<Byte>,
                       s: Shape, luma: (Byte, Byte, Byte) -> Byte, order: seq<int>, brightOrder: seq<int>)
    returns (gray: seq<Byte>, blur: seq<Byte>, edge: seq<Byte>, sharp: seq<Byte>, bright: seq<Byte>)
    requires numThreads >= 1 && T.IsPermutation(order, numThreads) && T.IsPermutation(brightOrder, numThreads)
    requires img != outputImg && img != grayImg && outputImg != grayImg
    requires img.Length == s.Size() && outputImg.Length == s.Size() && grayImg.Length == s.Size()
    requires s.channels >= 3
    modifies outputImg, grayImg
    ensures img[..] == old(img[..])
    ensures gray == T.Grayscale(img[..], s, luma, RowSpan(0, s.height))
    ensures blur == T.Apply(T.Convolve(BlurKernel), img[..], old(outputImg[..]), s, RowSpan(0, s.height))
    ensures edge == T.Apply(T.Sobel, img[..], blur, s, RowSpan(0, s.height))
    ensures sharp == T.Apply(T.Convolve(SharpenKernel), img[..], edge, s, RowSpan(0, s.height))
    ensures bright == T.ShiftedBrightness(img[..], sharp, s, BrightnessShift, RowRanges(numThreads, s.height),
                                          brightOrder, numThreads)
    ensures grayImg[..] == gray && outputImg[..] == bright
  {
    forall i | 0 <= i < grayImg.Length {
      grayImg[i] := img[i];
    }
    assert grayImg[..] == img[..];
    T.RunParallelGrayscale(numThreads, grayImg, s, luma, order);
    gray := grayImg[..];
    T.RunParallel(T.Convolve(BlurKernel), numThreads, img, outputImg, s, order);
    blur := outputImg[..];
    T.RunParallel(T.Sobel, numThreads, img, outputImg, s, order);
    edge := outputImg[..];
    T.RunParallel(T.Convolve(SharpenKernel), numThreads, img, outputImg, s, order);
    sharp := outputImg[..];
    T.RunParallelShiftedBrightness(numThreads, img, outputImg, s, BrightnessShift, brightOrder);
    bright := outputImg[..];
  }

  /**
    In the threaded program nothing uninitialised reaches the blur, edge and
    sharpen outputs when the image has three or four channels: blur copies the
    border, so the edge stage, which skips the border, exposes the original
    border bytes; its interior alpha is 255.
   */
  lemma ThreadedOutputsDefined(img: seq<Byte>, garbage: seq<Byte>, s: Shape, x: int, y: int, c: int)
    requires |img| == s.Size() && |garbage| == s.Size() && (s.channels == 3 || s.channels == 4) && s.Has(x, y, c)
    ensures 0 <= s.Idx(x, y, c) < s.Size()
    ensures var all := RowSpan(0, s.height);
      var blur := T.Apply(T.Convolve(BlurKernel), img, garbage, s, all);
      var edge := T.Apply(T.Sobel, img, blur, s, all);
      var sharp := T.Apply(T.Convolve(SharpenKernel), img, edge, s, all);
      var i := s.Idx(x, y, c);
      (!s.Interior(x, y) ==> blur[i] == img[i] && edge[i] == img[i] && sharp[i] == img[i]) &&
      (s.Interior(x, y) && c == 3 ==> blur[i] == img[i] && edge[i] == 255 && sharp[i] == img[i])
  {
    var all := RowSpan(0, s.height);
    var blur := T.Apply(T.Convolve(BlurKernel), img, garbage, s, all);
    var edge := T.Apply(T.Sobel, img, blur, s, all);
    T.KernelAt(img, garbage, s, BlurKernel, 0, s.height, x, y, c);
    T.EdgeAt(img, blur, s, 0, s.height, x, y, c);
    T.KernelAt(img, edge, s, SharpenKernel, 0, s.height, x, y, c);
  }

  /**
    One image through the OpenMP program: grayscale into the one-byte-per-
    pixel buffer, then blur, edge, sharpen and brightness from `img` into
    `outputImg`.
   */
  method OmpImage(img: array<Byte>, outputImg: array<Byte>, grayImg: array<Byte>,
                  s: Shape, luma: (Byte, Byte, Byte) -> Byte)
    returns (gray: seq<Byte>, blur: seq<Byte>, edge: seq<Byte>, sharp: seq<Byte>, bright: seq<Byte>)
    requires img != outputImg && img != grayImg && outputImg != grayImg
    requires img.Length == s.Size() && outputImg.Length == s.Size() && grayImg.Length == s.width * s.height
    modifies outputImg, grayImg
    ensures img[..] == old(img[..])
    ensures s.channels < 3 ==> gray == old(grayImg[..])
    ensures s.channels >= 3 ==> gray == O.GrayPlane(img[..], s, luma)
    ensures blur == O.Convolution(img[..], old(outputImg[..]), s, BlurKernel)
    ensures edge == O.Edge(img[..], blur, s)
    ensures sharp == O.Convolution(img[..], edge, s, SharpenKernel)
    ensures bright == O.BrightnessPlane(img[..], BrightnessShift)
    ensures grayImg[..] == gray && outputImg[..] == bright
  {
    O.ApplyGrayscale(img, grayImg, s, luma);
    gray := grayImg[..];
    O.ApplyBlur(img, outputImg, s);
    blur := outputImg[..];
    O.ApplyEdge(img, outputImg, s);
    edge := outputImg[..];
    O.ApplySharpen(img, outputImg, s);
    sharp := outputImg[..];
    O.ApplyBrightness(img, outputImg, s, BrightnessShift);
    bright := outputImg[..];
  }

  /**
    In the OpenMP program no stage writes a border byte except brightness,
    so the border of the blur, edge and sharpen outputs is whatever
    `outputImg` held when it was allocated.
   */
  lemma OmpBordersKeepAllocation(img: seq<Byte>, garbage: seq<Byte>, s: Shape, x: int, y: int, c: int)
    requires |img| == s.Size() && |garbage| == s.Size() && s.Has(x, y, c) && !s.Interior(x, y)
    ensures 0 <= s.Idx(x, y, c) < s.Size()
    ensures var blur := O.Convolution(img, garbage, s, BlurKernel);
      var edge := O.Edge(img, blur, s);
      var sharp := O.Convolution(img, edge, s, SharpenKernel);
      var i := s.Idx(x, y, c);
      blur[i] == garbage[i] && edge[i] == garbage[i] && sharp[i] == garbage[i]
  {
    var blur := O.Convolution(img, garbage, s, BlurKernel);
    var edge := O.Edge(img, blur, s);
    O.ConvolutionAt(img, garbage, s, BlurKernel, x, y, c);
    O.EdgeAt(img, blur, s, x, y, c);
    O.ConvolutionAt(img, edge, s, SharpenKernel, x, y, c);
  }
}
