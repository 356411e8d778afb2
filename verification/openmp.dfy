/**
  The OpenMP implementation: whole-image filters whose `#pragma omp
  parallel for` loops are modelled by their sequential meaning. Each loop
  iteration writes a distinct output byte and reads only `input`, so the
  iterations may run in any order.
 */
module OmpFilters {
  import opened Raster
  import opened Kernels

  /** The grayscale plane: one byte per pixel, from the pixel's first three bytes. */
  function GrayPlane(input: seq<Byte>, s: Shape, luma: (Byte, Byte, Byte) -> Byte): (r: seq<Byte>)
    requires |input| == s.Size() && s.channels >= 3
    ensures |r| == s.width * s.height
  {
    seq(s.width * s.height, i requires 0 <= i < s.width * s.height => PixelGray(input, s, luma, i))
  }

  /** The luma of pixel `i`, numbering pixels in buffer order. */
  function PixelGray(input: seq<Byte>, s: Shape, luma: (Byte, Byte, Byte) -> Byte, i: int): Byte
    requires |input| == s.Size() && s.channels >= 3 && 0 <= i < s.width * s.height
  {
    PixelBytesFit(s, i);
    var p := i * s.channels;
    luma(input[p], input[p + 1], input[p + 2])
  }

  /** The first three bytes of pixel `i` lie in the buffer. */
  lemma PixelBytesFit(s: Shape, i: int)
    requires 0 <= i < s.width * s.height && s.channels >= 3
    ensures 0 <= i * s.channels && i * s.channels + 2 < s.Size()
  {
    MulLeq(i + 1, s.width * s.height, s.channels);
  }

  /**
    `applyGrayscale`: nothing is written for fewer than three channels;
    otherwise exactly the `width * height` bytes of `output` are written, and
    `input` is left as it was. `luma` stands for the float weighting of the
    source.
   */
  method ApplyGrayscale(input: array<Byte>, output: array<Byte>, s: Shape, luma: (Byte, Byte, Byte) -> Byte)
    requires input.Length == s.Size() && output.Length == s.width * s.height
    modifies output
    ensures input[..] == old(input[..])
    ensures s.channels < 3 ==> output[..] == old(output[..])
    ensures s.channels >= 3 ==> output[..] == GrayPlane(old(input[..]), s, luma)
  {
    if s.channels < 3 {
      return;
    }
    ghost var in0 := input[..];
    assert s.width * s.height > 0 ==> input != output by {
      MulLeq(1, s.channels, s.width * s.height);
    }
    for i := 0 to s.width * s.height
      invariant input[..] == in0
      invariant forall j :: 0 <= j < i ==> output[j] == GrayPlane(in0, s, luma)[j]
    {
      PixelBytesFit(s, i);
      var r := input[i * s.channels];
      var g := input[i * s.channels + 1];
      var b := input[i * s.channels + 2];
      output[i] := luma(r, g, b);
    }
  }

  /** A gray byte depends on nothing but the first three bytes of its pixel. */
  lemma GrayPlaneLocal(in1: seq<Byte>, in2: seq<Byte>, s: Shape, luma: (Byte, Byte, Byte) -> Byte, i: int)
    requires |in1| == s.Size() && |in2| == s.Size() && s.channels >= 3
    requires 0 <= i < s.width * s.height
    requires forall j :: i * s.channels <= j < i * s.channels + 3 && 0 <= j < s.Size() ==> in1[j] == in2[j]
    ensures GrayPlane(in1, s, luma)[i] == GrayPlane(in2, s, luma)[i]
  {
    PixelBytesFit(s, i);
  }

  /** `applyConvolution` at byte `i`: interior bytes of every channel get the saturated sum. */
  function ConvolutionByte(input: seq<Byte>, prev: seq<Byte>, s: Shape, k: Kernel, i: int): Byte
    requires |input| == s.Size() && |prev| == s.Size() && k.Valid() && 0 <= i < s.Size()
  {
    IdxEncode(s, i);
    var x, y, c := s.ColOf(i), s.RowOf(i), s.ChanOf(i);
    if s.Interior(x, y) then TruncateThenClamp(Window(input, s, x, y, c, k.weights), k.divisor)
    else prev[i]
  }

  /** The output buffer after `applyConvolution`. */
  function Convolution(input: seq<Byte>, prev: seq<Byte>, s: Shape, k: Kernel): (r: seq<Byte>)
    requires |input| == s.Size() && |prev| == s.Size() && k.Valid()
    ensures |r| == |prev|
  {
    seq(|prev|, i requires 0 <= i < |prev| => ConvolutionByte(input, prev, s, k, i))
  }

  method ApplyConvolution(input: array<Byte>, output: array<Byte>, s: Shape, k: Kernel)
    requires input != output
    requires input.Length == s.Size() && output.Length == s.Size() && k.Valid()
    modifies output
    ensures output[..] == Convolution(input[..], old(output[..]), s, k)
  {
    ghost var out0 := output[..];
    AllEncode(s);
    var y := 1;
    while y < s.height - 1
      invariant 1 <= y
      invariant forall i :: 0 <= i < output.Length ==>
        output[i] == if Visited(s, i, 0, y, 1, 0) then ConvolutionByte(input[..], out0, s, k, i) else out0[i]
    {
      var x := 1;
      while x < s.width - 1
        invariant 1 <= x
        invariant forall i :: 0 <= i < output.Length ==>
          output[i] == if Visited(s, i, 0, y, x, 0) then ConvolutionByte(input[..], out0, s, k, i) else out0[i]
      {
        for c := 0 to s.channels
          invariant forall i :: 0 <= i < output.Length ==>
            output[i] == if Visited(s, i, 0, y, x, c) then ConvolutionByte(input[..], out0, s, k, i) else out0[i]
        {
          IdxDecode(s, x, y, c);
          var sum := SumWindow(input, s, x, y, c, k.weights);
          var val := TruncDiv(sum, k.divisor);
          output[(y * s.width + x) * s.channels + c] := Clamp(val);
        }
        x := x + 1;
      }
      y := y + 1;
    }
    assert forall i :: 0 <= i < output.Length ==>
      output[..][i] == Convolution(input[..], out0, s, k)[i];
  }

  /** `applyBlur`: the convolution with the weights `{{1,2,1},{2,4,2},{1,2,1}} / 16`. */
  method ApplyBlur(input: array<Byte>, output: array<Byte>, s: Shape)
    requires input != output
    requires input.Length == s.Size() && output.Length == s.Size()
    modifies output
    ensures output[..] == Convolution(input[..], old(output[..]), s, BlurKernel)
  {
    ApplyConvolution(input, output, s, BlurKernel);
  }

  /** `applySharpen`: the convolution with the weights `{{0,-1,0},{-1,5,-1},{0,-1,0}}`. */
  method ApplySharpen(input: array<Byte>, output: array<Byte>, s: Shape)
    requires input != output
    requires input.Length == s.Size() && output.Length == s.Size()
    modifies output
    ensures output[..] == Convolution(input[..], old(output[..]), s, SharpenKernel)
  {
    ApplyConvolution(input, output, s, SharpenKernel);
  }

  /** `applyEdge` at byte `i`: interior bytes of every channel, alpha included, get the Sobel magnitude. */
  function EdgeByte(input: seq<Byte>, prev: seq<Byte>, s: Shape, i: int): Byte
    requires |input| == s.Size() && |prev| == s.Size() && 0 <= i < s.Size()
  {
    IdxEncode(s, i);
    var x, y, c := s.ColOf(i), s.RowOf(i), s.ChanOf(i);
    if s.Interior(x, y) then Magnitude(Window(input, s, x, y, c, SobelX), Window(input, s, x, y, c, SobelY))
    else prev[i]
  }

  /** The output buffer after `applyEdge`. */
  function Edge(input: seq<Byte>, prev: seq<Byte>, s: Shape): (r: seq<Byte>)
    requires |input| == s.Size() && |prev| == s.Size()
    ensures |r| == |prev|
  {
    seq(|prev|, i requires 0 <= i < |prev| => EdgeByte(input, prev, s, i))
  }

  method ApplyEdge(input: array<Byte>, output: array<Byte>, s: Shape)
    requires input != output
    requires input.Length == s.Size() && output.Length == s.Size()
    modifies output
    ensures output[..] == Edge(input[..], old(output[..]), s)
  {
    ghost var out0 := output[..];
    AllEncode(s);
    var y := 1;
    while y < s.height - 1
      invariant 1 <= y
      invariant forall i :: 0 <= i < output.Length ==>
        output[i] == if Visited(s, i, 0, y, 1, 0) then EdgeByte(input[..], out0, s, i) else out0[i]
    {
      var x := 1;
      while x < s.width - 1
        invariant 1 <= x
        invariant forall i :: 0 <= i < output.Length ==>
          output[i] == if Visited(s, i, 0, y, x, 0) then EdgeByte(input[..], out0, s, i) else out0[i]
      {
        for c := 0 to s.channels
          invariant forall i :: 0 <= i < output.Length ==>
            output[i] == if Visited(s, i, 0, y, x, c) then EdgeByte(input[..], out0, s, i) else out0[i]
        {
          IdxDecode(s, x, y, c);
          var sumX, sumY := SobelSums(input, s, x, y, c);
          output[(y * s.width + x) * s.channels + c] := Magnitude(sumX, sumY);
        }
        x := x + 1;
      }
      y := y + 1;
    }
    assert forall i :: 0 <= i < output.Length ==>
      output[..][i] == Edge(input[..], out0, s)[i];
  }

  /** The output buffer after `applyBrightness`: every byte shifted and saturated, alpha included. */
  function BrightnessPlane(input: seq<Byte>, value: int): (r: seq<Byte>)
    ensures |r| == |input|
  {
    seq(|input|, i requires 0 <= i < |input| => Clamp(input[i] + value))
  }

  method ApplyBrightness(input: array<Byte>, output: array<Byte>, s: Shape, value: int)
    requires input.Length == s.Size() && output.Length == s.Size()
    modifies output
    ensures output[..] == BrightnessPlane(old(input[..]), value)
  {
    ghost var in0 := input[..];
    for i := 0 to s.width * s.height * s.channels
      invariant forall j :: 0 <= j < i ==> output[j] == Clamp(in0[j] + value)
      invariant forall j :: i <= j < input.Length ==> input[j] == in0[j]
    {
      var newVal := input[i] + value;
      output[i] := Clamp(newVal);
    }
  }

  /** Brightness saturates at both ends and is exact in between. */
  lemma BrightnessSaturates(input: seq<Byte>, value: int, i: int)
    requires 0 <= i < |input|
    ensures input[i] + value >= 255 ==> BrightnessPlane(input, value)[i] == 255
    ensures input[i] + value <= 0 ==> BrightnessPlane(input, value)[i] == 0
    ensures 0 <= input[i] + value <= 255 ==> BrightnessPlane(input, value)[i] == input[i] + value
  {
  }

  /** `applyConvolution` at channel `c` of pixel `(x, y)`. */
  lemma ConvolutionAt(input: seq<Byte>, prev: seq<Byte>, s: Shape, k: Kernel, x: int, y: int, c: int)
    requires |input| == s.Size() && |prev| == s.Size() && k.Valid() && s.Has(x, y, c)
    ensures 0 <= s.Idx(x, y, c) < s.Size()
    ensures var i := s.Idx(x, y, c);
      var r := Convolution(input, prev, s, k)[i];
      (s.Interior(x, y) ==> r == TruncateThenClamp(Window(input, s, x, y, c, k.weights), k.divisor)) &&
      (!s.Interior(x, y) ==> r == prev[i])
  {
    IdxDecode(s, x, y, c);
  }

  /** On an image narrower or shorter than three pixels the filters write nothing. */
  lemma SmallImageUntouched(input: seq<Byte>, prev: seq<Byte>, s: Shape, k: Kernel)
    requires |input| == s.Size() && |prev| == s.Size() && k.Valid()
    requires s.width < 3 || s.height < 3
    ensures Convolution(input, prev, s, k) == prev
    ensures Edge(input, prev, s) == prev
  {
    AllEncode(s);
    assert forall i :: 0 <= i < |prev| ==> Convolution(input, prev, s, k)[i] == prev[i];
    assert forall i :: 0 <= i < |prev| ==> Edge(input, prev, s)[i] == prev[i];
  }

  /** Blur and sharpen keep a flat colour at every interior byte, alpha included. */
  lemma FlatThroughConvolution(input: seq<Byte>, prev: seq<Byte>, s: Shape, k: Kernel, colour: seq<Byte>,
                               x: int, y: int, c: int)
    requires k == BlurKernel || k == SharpenKernel
    requires |prev| == s.Size() && ChannelUniform(input, s, colour)
    requires s.Has(x, y, c) && s.Interior(x, y)
    ensures 0 <= s.Idx(x, y, c) < s.Size()
    ensures Convolution(input, prev, s, k)[s.Idx(x, y, c)] == colour[c]
  {
    IdxDecode(s, x, y, c);
    UniformWindow(input, s, colour, x, y, c, k.weights);
    FlatSurvivesKernel(k, colour[c]);
  }

  /** `applyEdge` at channel `c` of pixel `(x, y)`. */
  lemma EdgeAt(input: seq<Byte>, prev: seq<Byte>, s: Shape, x: int, y: int, c: int)
    requires |input| == s.Size() && |prev| == s.Size() && s.Has(x, y, c)
    ensures 0 <= s.Idx(x, y, c) < s.Size()
    ensures var i := s.Idx(x, y, c);
      var r := Edge(input, prev, s)[i];
      (s.Interior(x, y) ==> r == Magnitude(Window(input, s, x, y, c, SobelX), Window(input, s, x, y, c, SobelY))) &&
      (!s.Interior(x, y) ==> r == prev[i])
  {
    IdxDecode(s, x, y, c);
  }

  /** A flat image has a zero gradient: every interior byte, alpha included, becomes 0. */
  lemma FlatEdgeIsBlack(input: seq<Byte>, prev: seq<Byte>, s: Shape, colour: seq<Byte>, x: int, y: int, c: int)
    requires |prev| == s.Size() && ChannelUniform(input, s, colour)
    requires s.Has(x, y, c) && s.Interior(x, y)
    ensures 0 <= s.Idx(x, y, c) < s.Size()
    ensures Edge(input, prev, s)[s.Idx(x, y, c)] == 0
  {
    IdxDecode(s, x, y, c);
    UniformWindow(input, s, colour, x, y, c, SobelX);
    UniformWindow(input, s, colour, x, y, c, SobelY);
    MagnitudeMeaning(0, 0);
  }
}
