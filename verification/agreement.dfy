/**
  Where the hand-threaded and the OpenMP filters agree, and where they
  differ, when both run over the whole image.
 */
module Agreement {
  import opened Raster
  import opened Kernels
  import T = ThreadFilters
  import O = OmpFilters

  /** Brightness agrees on every byte but channel 3, which only the threaded version copies. */
  lemma BrightnessVersions(input: seq<Byte>, prev: seq<Byte>, s: Shape, value: int, i: int)
    requires |input| == s.Size() && |prev| == s.Size() && 0 <= i < s.Size()
    ensures var t := T.Apply(T.Brightness(value), input, prev, s, RowSpan(0, s.height))[i];
      (s.ChanOf(i) != 3 ==> t == O.BrightnessPlane(input, value)[i]) &&
      (s.ChanOf(i) == 3 ==> t == input[i])
  {
    IdxEncode(s, i);
  }

  /**
    Blur and sharpen: at the colour channels of an interior pixel both
    versions produce the same byte, whatever the output buffers held; at a
    border pixel the threaded version copies the input and the OpenMP version
    keeps what its output buffer held.
   */
  lemma ConvolutionVersions(input: seq<Byte>, tPrev: seq<Byte>, oPrev: seq<Byte>, s: Shape, k: Kernel,
                            x: int, y: int, c: int)
    requires T.Fits(T.Convolve(k), s, input, tPrev) && |oPrev| == s.Size() && s.Has(x, y, c)
    ensures 0 <= s.Idx(x, y, c) < s.Size()
    ensures var i := s.Idx(x, y, c);
      var t := T.Apply(T.Convolve(k), input, tPrev, s, RowSpan(0, s.height))[i];
      var o := O.Convolution(input, oPrev, s, k)[i];
      (s.Interior(x, y) && c < 3 ==> t == o) &&
      (!s.Interior(x, y) ==> t == input[i] && o == oPrev[i])
  {
    IdxDecode(s, x, y, c);
    if s.Interior(x, y) && c < 3 {
      SaturationsAgree(Window(input, s, x, y, c, k.weights), k.divisor);
    }
  }

  /**
    Edge: starting from the same output buffer the versions agree on every
    byte except the alpha byte of an interior pixel, which the threaded
    version sets to 255 and the OpenMP version sets to the magnitude.
   */
  lemma EdgeVersions(input: seq<Byte>, prev: seq<Byte>, s: Shape, x: int, y: int, c: int)
    requires T.Fits(T.Sobel, s, input, prev) && s.Has(x, y, c)
    ensures 0 <= s.Idx(x, y, c) < s.Size()
    ensures var i := s.Idx(x, y, c);
      var t := T.Apply(T.Sobel, input, prev, s, RowSpan(0, s.height))[i];
      var o := O.Edge(input, prev, s)[i];
      (!(s.Interior(x, y) && c >= 3) ==> t == o) &&
      (s.Interior(x, y) && c == 3 && s.channels == 4 ==>
        t == 255 && o == Magnitude(Window(input, s, x, y, c, SobelX), Window(input, s, x, y, c, SobelY)))
  {
    IdxDecode(s, x, y, c);
  }

  /**
    Grayscale: given the same luma function, the gray byte of pixel
    `(x, y)` in the OpenMP plane is the value the threaded version writes
    into each of that pixel's first three bytes.
   */
  lemma GrayLayouts(img: seq<Byte>, s: Shape, luma: (Byte, Byte, Byte) -> Byte, x: int, y: int)
    requires |img| == s.Size() && s.channels >= 3 && s.Has(x, y, 0)
    ensures 0 <= y * s.width + x < s.width * s.height
    ensures 0 <= s.Idx(x, y, 0) && s.Idx(x, y, 2) < s.Size()
    ensures var t, g := T.Grayscale(img, s, luma, RowSpan(0, s.height)), O.GrayPlane(img, s, luma)[y * s.width + x];
      t[s.Idx(x, y, 0)] == g && t[s.Idx(x, y, 1)] == g && t[s.Idx(x, y, 2)] == g
  {
    MulLeq(y + 1, s.height, s.width);
    IdxDecode(s, x, y, 2);
    var j := y * s.width + x;
    assert j * s.channels == s.Idx(x, y, 0);
    var g := O.GrayPlane(img, s, luma)[j];
    assert g == luma(img[s.Idx(x, y, 0)], img[s.Idx(x, y, 1)], img[s.Idx(x, y, 2)]);
    T.GrayscaleAt(img, s, luma, 0, s.height, x, y);
  }
}
