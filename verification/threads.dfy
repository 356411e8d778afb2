/**
  The hand-threaded implementation: row-range workers that `runParallel`
  starts once per range, and the sequential meaning of running them.

  Every worker reads the original image and writes only the bytes of the
  rows it was given. `Apply` is the state after one worker call: bytes of the
  given rows hold the worker's value, every other byte keeps its old value.
 */
module ThreadFilters {
  import opened Raster
  import opened Kernels
  import opened RowPartition

  /** The workers that read `input` and write a separate `output`. */
  datatype Worker = Brightness(value: int) | Convolve(kernel: Kernel) | Sobel

  /**
    Both buffers hold the whole image; the 3x3 workers need three colour
    channels, since their `c < 3` loop would otherwise write into the
    neighbouring pixel.
   */
  predicate Fits(w: Worker, s: Shape, input: seq<Byte>, prev: seq<Byte>)
  {
    |input| == s.Size() && |prev| == s.Size() &&
    match w
    case Brightness(_) => true
    case Convolve(k) => k.Valid() && s.channels >= 3
    case Sobel => s.channels >= 3
  }

  /** `filterBrightness`: channel 3 is copied, every other channel shifted and saturated. */
  function BrightnessByte(input: seq<Byte>, s: Shape, value: int, i: int): Byte
    requires 0 <= i < |input|
  {
    if s.ChanOf(i) == 3 then input[i] else Clamp(input[i] + value)
  }

  /**
    `applyKernel` with a 3x3 kernel: a border pixel is copied through; at an
    interior pixel channels 0..2 get the saturated weighted sum and, for four
    channels, the alpha byte is copied. Further channels are not written.
   */
  function KernelByte(input: seq<Byte>, prev: seq<Byte>, s: Shape, k: Kernel, i: int): Byte
    requires Fits(Convolve(k), s, input, prev) && 0 <= i < s.Size()
  {
    IdxEncode(s, i);
    var x, y, c := s.ColOf(i), s.RowOf(i), s.ChanOf(i);
    if !s.Interior(x, y) then input[i]
    else if c < 3 then ClampThenTruncate(Window(input, s, x, y, c, k.weights), k.divisor)
    else if c == 3 && s.channels == 4 then input[i]
    else prev[i]
  }

  /**
    `filterEdge`: border pixels are skipped; at an interior pixel channels
    0..2 get the Sobel magnitude and, for four channels, alpha becomes 255.
   */
  function EdgeByte(input: seq<Byte>, prev: seq<Byte>, s: Shape, i: int): Byte
    requires Fits(Sobel, s, input, prev) && 0 <= i < s.Size()
  {
    IdxEncode(s, i);
    var x, y, c := s.ColOf(i), s.RowOf(i), s.ChanOf(i);
    if !s.Interior(x, y) then prev[i]
    else if c < 3 then Magnitude(Window(input, s, x, y, c, SobelX), Window(input, s, x, y, c, SobelY))
    else if c == 3 && s.channels == 4 then 255
    else prev[i]
  }

  function WorkerByte(w: Worker, input: seq<Byte>, prev: seq<Byte>, s: Shape, i: int): Byte
    requires Fits(w, s, input, prev) && 0 <= i < s.Size()
  {
    match w
    case Brightness(value) => BrightnessByte(input, s, value, i)
    case Convolve(k) => KernelByte(input, prev, s, k, i)
    case Sobel => EdgeByte(input, prev, s, i)
  }

  /** The output buffer after worker `w` has run over the rows in `rows`. */
  function Apply(w: Worker, input: seq<Byte>, prev: seq<Byte>, s: Shape, rows: set<int>): (r: seq<Byte>)
    requires Fits(w, s, input, prev)
    ensures |r| == |prev|
  {
    seq(|prev|, i requires 0 <= i < |prev| =>
      if s.RowOf(i) in rows then WorkerByte(w, input, prev, s, i) else prev[i])
  }

  /**
    `filterBrightness` over rows `[start, end)`. A range with `end <= start`
    writes nothing, as the source's row loop does.
   */
  method FilterBrightness(input: array<Byte>, output: array<Byte>, s: Shape, start: int, end: int, value: int)
    requires input.Length == s.Size() && output.Length == s.Size()
    requires 0 <= start && end <= s.height
    modifies output
    ensures output[..] == Apply(Brightness(value), old(input[..]), old(output[..]), s, RowSpan(start, end))
  {
    ghost var in0, out0 := input[..], output[..];
    AllEncode(s);
    var y := start;
    while y < end
      invariant start <= y && (y <= end || y == start)
      invariant forall i :: 0 <= i < output.Length ==>
        output[i] == if Visited(s, i, start, y, 0, 0) then BrightnessByte(in0, s, value, i) else out0[i]
      invariant forall i :: 0 <= i < input.Length && !Visited(s, i, start, y, 0, 0) ==> input[i] == in0[i]
    {
      var x := 0;
      while x < s.width
        invariant 0 <= x <= s.width
        invariant forall i :: 0 <= i < output.Length ==>
          output[i] == if Visited(s, i, start, y, x, 0) then BrightnessByte(in0, s, value, i) else out0[i]
        invariant forall i :: 0 <= i < input.Length && !Visited(s, i, start, y, x, 0) ==> input[i] == in0[i]
      {
        var idx := (y * s.width + x) * s.channels;
        var c := 0;
        while c < s.channels
          invariant 0 <= c <= s.channels
          invariant forall i :: 0 <= i < output.Length ==>
            output[i] == if Visited(s, i, start, y, x, c) then BrightnessByte(in0, s, value, i) else out0[i]
          invariant forall i :: 0 <= i < input.Length && !Visited(s, i, start, y, x, c) ==> input[i] == in0[i]
        {
          IdxDecode(s, x, y, c);
          if c == 3 {
            output[idx + c] := input[idx + c];
          } else {
            var p := input[idx + c] + value;
            output[idx + c] := Clamp(p);
          }
          c := c + 1;
        }
        x := x + 1;
      }
      y := y + 1;
    }
    assert forall i :: 0 <= i < output.Length ==>
      output[..][i] == Apply(Brightness(value), in0, out0, s, RowSpan(start, end))[i];
  }

  /** Byte `i` belongs to pixel `(x, y)`. */
  predicate InPixel(s: Shape, i: int, x: int, y: int)
  {
    s.RowOf(i) == y && s.ColOf(i) == x
  }

  /**
    The body of `applyKernel`'s `x` loop: writes the bytes of pixel `(x, y)`
    as `KernelByte` says, given that they still hold `prev`.
   */
  method KernelPixel(input: array<Byte>, output: array<Byte>, s: Shape, k: Kernel, x: int, y: int, ghost prev: seq<Byte>)
    requires input != output
    requires Fits(Convolve(k), s, input[..], prev) && output.Length == s.Size()
    requires 0 <= x < s.width && 0 <= y < s.height
    requires forall i :: 0 <= i < output.Length && InPixel(s, i, x, y) ==> output[i] == prev[i]
    modifies output
    ensures forall i :: 0 <= i < output.Length ==>
      output[i] == if InPixel(s, i, x, y) then KernelByte(input[..], prev, s, k, i) else old(output[i])
  {
    AllEncode(s);
    var idx := (y * s.width + x) * s.channels;
    if y < 1 || y >= s.height - 1 || x < 1 || x >= s.width - 1 {
      for c := 0 to s.channels
        invariant forall i :: 0 <= i < output.Length ==>
          output[i] == if InPixel(s, i, x, y) && s.ChanOf(i) < c then KernelByte(input[..], prev, s, k, i) else old(output[i])
      {
        IdxDecode(s, x, y, c);
        output[idx + c] := input[idx + c];
      }
    } else {
      for c := 0 to 3
        invariant forall i :: 0 <= i < output.Length ==>
          output[i] == if InPixel(s, i, x, y) && s.ChanOf(i) < c then KernelByte(input[..], prev, s, k, i) else old(output[i])
      {
        IdxDecode(s, x, y, c);
        var sum := SumWindow(input, s, x, y, c, k.weights);
        output[(y * s.width + x) * s.channels + c] := ClampThenTruncate(sum, k.divisor);
      }
      if s.channels == 4 {
        IdxDecode(s, x, y, 3);
        output[(y * s.width + x) * s.channels + 3] := input[(y * s.width + x) * s.channels + 3];
      }
    }
  }

  method ApplyKernel(input: array<Byte>, output: array<Byte>, s: Shape, start: int, end: int, k: Kernel)
    requires input != output
    requires Fits(Convolve(k), s, input[..], output[..])
    requires 0 <= start <= end <= s.height
    modifies output
    ensures output[..] == Apply(Convolve(k), input[..], old(output[..]), s, RowSpan(start, end))
  {
    ghost var out0 := output[..];
    AllEncode(s);
    var y := start;
    while y < end
      invariant start <= y <= end
      invariant forall i :: 0 <= i < output.Length ==>
        output[i] == if Visited(s, i, start, y, 0, 0) then KernelByte(input[..], out0, s, k, i) else out0[i]
    {
      var x := 0;
      while x < s.width
        invariant 0 <= x <= s.width
        invariant forall i :: 0 <= i < output.Length ==>
          output[i] == if Visited(s, i, start, y, x, 0) then KernelByte(input[..], out0, s, k, i) else out0[i]
      {
        KernelPixel(input, output, s, k, x, y, out0);
        x := x + 1;
      }
      y := y + 1;
    }
    assert forall i :: 0 <= i < output.Length ==>
      output[..][i] == Apply(Convolve(k), input[..], out0, s, RowSpan(start, end))[i];
  }

  /** `filterBlur`: `applyKernel` with the weights `{1,2,1,2,4,2,1,2,1} / 16`. */
  method FilterBlur(input: array<Byte>, output: array<Byte>, s: Shape, start: int, end: int)
    requires input != output
    requires Fits(Convolve(BlurKernel), s, input[..], output[..])
    requires 0 <= start <= end <= s.height
    modifies output
    ensures output[..] == Apply(Convolve(BlurKernel), input[..], old(output[..]), s, RowSpan(start, end))
  {
    ApplyKernel(input, output, s, start, end, BlurKernel);
  }

  /** `filterSharpen`: `applyKernel` with the weights `{0,-1,0,-1,5,-1,0,-1,0}`. */
  method FilterSharpen(input: array<Byte>, output: array<Byte>, s: Shape, start: int, end: int)
    requires input != output
    requires Fits(Convolve(SharpenKernel), s, input[..], output[..])
    requires 0 <= start <= end <= s.height
    modifies output
    ensures output[..] == Apply(Convolve(SharpenKernel), input[..], old(output[..]), s, RowSpan(start, end))
  {
    ApplyKernel(input, output, s, start, end, SharpenKernel);
  }

  /** The body of `filterEdge`'s `x` loop: writes the bytes of pixel `(x, y)` as `EdgeByte` says. */
  method EdgePixel(input: array<Byte>, output: array<Byte>, s: Shape, x: int, y: int, ghost prev: seq<Byte>)
    requires input != output
    requires Fits(Sobel, s, input[..], prev) && output.Length == s.Size()
    requires 0 <= x < s.width && 0 <= y < s.height
    requires forall i :: 0 <= i < output.Length && InPixel(s, i, x, y) ==> output[i] == prev[i]
    modifies output
    ensures forall i :: 0 <= i < output.Length ==>
      output[i] == if InPixel(s, i, x, y) then EdgeByte(input[..], prev, s, i) else old(output[i])
  {
    AllEncode(s);
    if y < 1 || y >= s.height - 1 || x < 1 || x >= s.width - 1 {
      return;
    }
    for c := 0 to 3
      invariant forall i :: 0 <= i < output.Length ==>
        output[i] == if InPixel(s, i, x, y) && s.ChanOf(i) < c then EdgeByte(input[..], prev, s, i) else old(output[i])
    {
      IdxDecode(s, x, y, c);
      var sumX, sumY := SobelSums(input, s, x, y, c);
      output[(y * s.width + x) * s.channels + c] := Magnitude(sumX, sumY);
    }
    if s.channels == 4 {
      IdxDecode(s, x, y, 3);
      output[(y * s.width + x) * s.channels + 3] := 255;
    }
  }

  method FilterEdge(input: array<Byte>, output: array<Byte>, s: Shape, start: int, end: int)
    requires input != output
    requires Fits(Sobel, s, input[..], output[..])
    requires 0 <= start <= end <= s.height
    modifies output
    ensures output[..] == Apply(Sobel, input[..], old(output[..]), s, RowSpan(start, end))
  {
    ghost var out0 := output[..];
    AllEncode(s);
    var y := start;
    while y < end
      invariant start <= y <= end
      invariant forall i :: 0 <= i < output.Length ==>
        output[i] == if Visited(s, i, start, y, 0, 0) then EdgeByte(input[..], out0, s, i) else out0[i]
    {
      var x := 0;
      while x < s.width
        invariant 0 <= x <= s.width
        invariant forall i :: 0 <= i < output.Length ==>
          output[i] == if Visited(s, i, start, y, x, 0) then EdgeByte(input[..], out0, s, i) else out0[i]
      {
        EdgePixel(input, output, s, x, y, out0);
        x := x + 1;
      }
      y := y + 1;
    }
    assert forall i :: 0 <= i < output.Length ==>
      output[..][i] == Apply(Sobel, input[..], out0, s, RowSpan(start, end))[i];
  }

  /**
    `filterGrayscale`, in place: with at least three channels, bytes 0..2 of
    a pixel all become the luma of that pixel's own (r, g, b); every other
    byte is kept. `luma` stands for the float weighting of the source.
   */
  function GrayByte(img: seq<Byte>, s: Shape, luma: (Byte, Byte, Byte) -> Byte, i: int): Byte
    requires |img| == s.Size() && 0 <= i < |img|
  {
    IdxEncode(s, i);
    var x, y, c := s.ColOf(i), s.RowOf(i), s.ChanOf(i);
    if s.channels >= 3 && c < 3 then
      IdxDecode(s, x, y, 2);
      luma(img[s.Idx(x, y, 0)], img[s.Idx(x, y, 1)], img[s.Idx(x, y, 2)])
    else img[i]
  }

  /** The buffer after `filterGrayscale` has run over the rows in `rows`. */
  function Grayscale(img: seq<Byte>, s: Shape, luma: (Byte, Byte, Byte) -> Byte, rows: set<int>): (r: seq<Byte>)
    requires |img| == s.Size()
    ensures |r| == |img|
  {
    seq(|img|, i requires 0 <= i < |img| =>
      if s.RowOf(i) in rows then GrayByte(img, s, luma, i) else img[i])
  }

  method FilterGrayscale(img: array<Byte>, s: Shape, start: int, end: int, luma: (Byte, Byte, Byte) -> Byte)
    requires img.Length == s.Size()
    requires 0 <= start <= end <= s.height
    modifies img
    ensures img[..] == Grayscale(old(img[..]), s, luma, RowSpan(start, end))
  {
    ghost var img0 := img[..];
    AllEncode(s);
    if s.channels < 3 {
      assert forall i :: 0 <= i < img.Length ==> img[..][i] == Grayscale(img0, s, luma, RowSpan(start, end))[i];
      return;
    }
    var y := start;
    while y < end
      invariant start <= y <= end
      invariant forall i :: 0 <= i < img.Length ==>
        img[i] == if Visited(s, i, start, y, 0, 0) then GrayByte(img0, s, luma, i) else img0[i]
    {
      var x := 0;
      while x < s.width
        invariant 0 <= x <= s.width
        invariant forall i :: 0 <= i < img.Length ==>
          img[i] == if Visited(s, i, start, y, x, 0) then GrayByte(img0, s, luma, i) else img0[i]
      {
        var idx := (y * s.width + x) * s.channels;
        IdxDecode(s, x, y, 0);
        IdxDecode(s, x, y, 1);
        IdxDecode(s, x, y, 2);
        var r, g, b := img[idx], img[idx + 1], img[idx + 2];
        var gray := luma(r, g, b);
        img[idx] := gray;
        img[idx + 1] := gray;
        img[idx + 2] := gray;
        x := x + 1;
      }
      y := y + 1;
    }
    assert forall i :: 0 <= i < img.Length ==> img[..][i] == Grayscale(img0, s, luma, RowSpan(start, end))[i];
  }

  /**
    A worker either ignores the old output byte or keeps it: what it writes
    depends on the output buffer at most through the byte itself.
   */
  lemma WorkerReadsOnlyInput(w: Worker, input: seq<Byte>, p1: seq<Byte>, p2: seq<Byte>, s: Shape, i: int)
    requires Fits(w, s, input, p1) && Fits(w, s, input, p2) && 0 <= i < s.Size()
    ensures WorkerByte(w, input, p1, s, i) == WorkerByte(w, input, p2, s, i) ||
      (WorkerByte(w, input, p1, s, i) == p1[i] && WorkerByte(w, input, p2, s, i) == p2[i])
  {
  }

  /**
    Running a worker over `rows1` and then over `rows2` leaves the same buffer
    as one run over both: the ranges may run in either order, and even a row
    processed twice gets the same bytes.
   */
  lemma ApplyComposes(w: Worker, input: seq<Byte>, prev: seq<Byte>, s: Shape, rows1: set<int>, rows2: set<int>)
    requires Fits(w, s, input, prev)
    ensures Apply(w, input, Apply(w, input, prev, s, rows1), s, rows2) == Apply(w, input, prev, s, rows1 + rows2)
    ensures Apply(w, input, Apply(w, input, prev, s, rows1), s, rows2) ==
            Apply(w, input, Apply(w, input, prev, s, rows2), s, rows1)
  {
    var mid1 := Apply(w, input, prev, s, rows1);
    var mid2 := Apply(w, input, prev, s, rows2);
    forall i | 0 <= i < |prev|
      ensures Apply(w, input, mid1, s, rows2)[i] == Apply(w, input, prev, s, rows1 + rows2)[i]
      ensures Apply(w, input, mid2, s, rows1)[i] == Apply(w, input, prev, s, rows1 + rows2)[i]
    {
      WorkerReadsOnlyInput(w, input, mid1, prev, s, i);
      WorkerReadsOnlyInput(w, input, mid2, prev, s, i);
    }
  }

  /** `order` lists every thread index in `[0, n)` exactly once. */
  predicate IsPermutation(order: seq<int>, n: int)
  {
    |order| == n &&
    (forall j :: 0 <= j < n ==> 0 <= order[j] < n) &&
    (forall i :: 0 <= i < n ==> i in order) &&
    (forall j, k :: 0 <= j < k < n ==> order[j] != order[k])
  }

  /** Some of the first `k` ranges to finish holds `row`. */
  predicate Finished(ranges: seq<RowRange>, order: seq<int>, k: int, row: int)
    requires 0 <= k <= |order|
    requires forall j :: 0 <= j < |order| ==> 0 <= order[j] < |ranges|
  {
    exists j :: 0 <= j < k && ranges[order[j]].Contains(row)
  }

  /** One more finished range adds exactly its own rows. */
  lemma FinishedStep(ranges: seq<RowRange>, order: seq<int>, k: int)
    requires 0 <= k < |order|
    requires forall j :: 0 <= j < |order| ==> 0 <= order[j] < |ranges|
    ensures forall row :: Finished(ranges, order, k + 1, row) <==>
      Finished(ranges, order, k, row) || ranges[order[k]].Contains(row)
  {
  }

  /** The worker call `f(args..., start, end)` that `runParallel` starts on a thread. */
  method RunWorker(w: Worker, input: array<Byte>, output: array<Byte>, s: Shape, start: int, end: int)
    requires input != output
    requires Fits(w, s, input[..], output[..])
    requires 0 <= start <= end <= s.height
    modifies output
    ensures output[..] == Apply(w, input[..], old(output[..]), s, RowSpan(start, end))
  {
    match w {
      case Brightness(value) => FilterBrightness(input, output, s, start, end, value);
      case Convolve(kernel) => ApplyKernel(input, output, s, start, end, kernel);
      case Sobel => FilterEdge(input, output, s, start, end);
    }
  }

  /**
    After the ranges have been worked in `order`, every row of the image has
    been done exactly as by a single call over `[0, height)`.
   */
  lemma FinishedCoversImage(numThreads: int, height: nat, order: seq<int>, done: set<int>)
    requires numThreads >= 1 && IsPermutation(order, numThreads)
    requires forall row :: row in done <==> Finished(RowRanges(numThreads, height), order, numThreads, row)
    ensures done == RowSpan(0, height)
  {
    var ranges := RowRanges(numThreads, height);
    RangesCover(numThreads, height);
    forall row | 0 <= row < height
      ensures row in done
    {
      assert Covered(ranges, row);
      var i :| 0 <= i < numThreads && ranges[i].Contains(row);
      assert i in order;
      var j :| 0 <= j < numThreads && order[j] == i;
      assert Finished(ranges, order, numThreads, row);
    }
    forall row | row in done
      ensures 0 <= row < height
    {
      var j :| 0 <= j < numThreads && ranges[order[j]].Contains(row);
      assert Covered(ranges, row);
    }
  }

  /**
    `runParallel` for the two-buffer workers: one worker call per range of
    `RowRanges`, completing in the arbitrary order `order`. The result is
    that of one call over all rows, whatever the order.
   */
  method RunParallel(w: Worker, numThreads: int, input: array<Byte>, output: array<Byte>, s: Shape, order: seq<int>)
    requires numThreads >= 1 && IsPermutation(order, numThreads)
    requires input != output
    requires Fits(w, s, input[..], output[..])
    modifies output
    ensures output[..] == Apply(w, input[..], old(output[..]), s, RowSpan(0, s.height))
  {
    ghost var out0 := output[..];
    var ranges := RowRanges(numThreads, s.height);
    RangesTile(numThreads, s.height);
    ghost var done: set<int> := {};
    for k := 0 to numThreads
      invariant forall row :: row in done <==> Finished(ranges, order, k, row)
      invariant output[..] == Apply(w, input[..], out0, s, done)
    {
      var r := ranges[order[k]];
      ApplyComposes(w, input[..], out0, s, done, RowSpan(r.start, r.end));
      RunWorker(w, input, output, s, r.start, r.end);
      FinishedStep(ranges, order, k);
      done := done + RowSpan(r.start, r.end);
    }
    FinishedCoversImage(numThreads, s.height, order, done);
  }

  /**
    In-place grayscale over two disjoint row sets composes: a pixel's new
    bytes are computed from its own row, which the other run left alone.
   */
  lemma GrayscaleComposes(img: seq<Byte>, s: Shape, luma: (Byte, Byte, Byte) -> Byte, rows1: set<int>, rows2: set<int>)
    requires |img| == s.Size() && rows1 !! rows2
    ensures Grayscale(Grayscale(img, s, luma, rows1), s, luma, rows2) == Grayscale(img, s, luma, rows1 + rows2)
  {
    var mid := Grayscale(img, s, luma, rows1);
    forall i | 0 <= i < |img|
      ensures Grayscale(mid, s, luma, rows2)[i] == Grayscale(img, s, luma, rows1 + rows2)[i]
    {
      IdxEncode(s, i);
      var x, y := s.ColOf(i), s.RowOf(i);
      if s.channels >= 3 {
        IdxDecode(s, x, y, 0);
        IdxDecode(s, x, y, 1);
        IdxDecode(s, x, y, 2);
      }
    }
  }

  /** `runParallel(numThreads, height, filterGrayscale, ...)` with ranges completing in `order`. */
  method RunParallelGrayscale(numThreads: int, img: array<Byte>, s: Shape, luma: (Byte, Byte, Byte) -> Byte, order: seq<int>)
    requires numThreads >= 1 && IsPermutation(order, numThreads)
    requires img.Length == s.Size()
    modifies img
    ensures img[..] == Grayscale(old(img[..]), s, luma, RowSpan(0, s.height))
  {
    ghost var img0 := img[..];
    var ranges := RowRanges(numThreads, s.height);
    RangesTile(numThreads, s.height);
    RangesDisjoint(numThreads, s.height);
    ghost var done: set<int> := {};
    for k := 0 to numThreads
      invariant forall row :: row in done <==> Finished(ranges, order, k, row)
      invariant img[..] == Grayscale(img0, s, luma, done)
    {
      var r := ranges[order[k]];
      assert done !! RowSpan(r.start, r.end) by {
        forall row | row in done && r.Contains(row)
          ensures false
        {
        }
      }
      GrayscaleComposes(img0, s, luma, done, RowSpan(r.start, r.end));
      FilterGrayscale(img, s, r.start, r.end, luma);
      FinishedStep(ranges, order, k);
      done := done + RowSpan(r.start, r.end);
    }
    FinishedCoversImage(numThreads, s.height, order, done);
  }

  /**
    The brightness stage as `runParallel` binds it. `runParallel` appends the
    range `start, end` after the caller's arguments, and the caller's last
    argument is the shift, so thread `t` runs `filterBrightness` with
    `startRow = value`, `endRow = ranges[t].start` and a shift of
    `ranges[t].end`. This is the buffer after the first `k` threads of
    `order` have finished.
   */
  function ShiftedBrightness(input: seq<Byte>, prev: seq<Byte>, s: Shape, value: int,
                             ranges: seq<RowRange>, order: seq<int>, k: nat): (r: seq<Byte>)
    requires |input| == s.Size() && |prev| == s.Size() && k <= |order|
    requires forall j :: 0 <= j < |order| ==> 0 <= order[j] < |ranges|
    ensures |r| == |prev|
  {
    if k == 0 then prev
    else
      var t := ranges[order[k - 1]];
      Apply(Brightness(t.end), input, ShiftedBrightness(input, prev, s, value, ranges, order, k - 1), s, RowSpan(value, t.start))
  }

  /**
    `runParallel(numThreads, height, filterBrightness, input, output, width,
    channels, value)`, with the threads finishing one after another in
    `order`.
   */
  method RunParallelShiftedBrightness(numThreads: int, input: array<Byte>, output: array<Byte>, s: Shape,
                                      value: int, order: seq<int>)
    requires numThreads >= 1 && IsPermutation(order, numThreads)
    requires input != output
    requires input.Length == s.Size() && output.Length == s.Size()
    requires value >= 0
    modifies output
    ensures output[..] == ShiftedBrightness(input[..], old(output[..]), s, value, RowRanges(numThreads, s.height), order, numThreads)
  {
    ghost var out0 := output[..];
    var ranges := RowRanges(numThreads, s.height);
    RangesTile(numThreads, s.height);
    for k := 0 to numThreads
      invariant output[..] == ShiftedBrightness(input[..], out0, s, value, ranges, order, k)
    {
      var r := ranges[order[k]];
      FilterBrightness(input, output, s, value, r.start, r.end);
    }
  }

  /** A byte whose row no finished thread's `[value, start)` holds keeps its previous value. */
  lemma {:induction false} ShiftedBrightnessKeeps(input: seq<Byte>, prev: seq<Byte>, s: Shape, value: int,
                                                 ranges: seq<RowRange>, order: seq<int>, k: nat, i: int)
    requires |input| == s.Size() && |prev| == s.Size() && k <= |order|
    requires forall j :: 0 <= j < |order| ==> 0 <= order[j] < |ranges|
    requires 0 <= i < |prev|
    requires forall j :: 0 <= j < k ==> !(value <= s.RowOf(i) < ranges[order[j]].start)
    ensures ShiftedBrightness(input, prev, s, value, ranges, order, k)[i] == prev[i]
  {
    if k > 0 {
      ShiftedBrightnessKeeps(input, prev, s, value, ranges, order, k - 1, i);
    }
  }

  /**
    The stage as bound never brightens the rows before row `value`, nor the rows
    from the last range's start `(numThreads - 1) * (height / numThreads)`
    on, whatever the completion order.
   */
  lemma ShiftedBrightnessMissesRows(numThreads: int, input: seq<Byte>, prev: seq<Byte>, s: Shape, value: int,
                                    order: seq<int>, i: int)
    requires numThreads >= 1 && IsPermutation(order, numThreads)
    requires |input| == s.Size() && |prev| == s.Size() && 0 <= i < |prev|
    requires s.RowOf(i) < value || s.RowOf(i) >= (numThreads - 1) * (s.height / numThreads)
    ensures ShiftedBrightness(input, prev, s, value, RowRanges(numThreads, s.height), order, numThreads)[i] == prev[i]
  {
    var ranges := RowRanges(numThreads, s.height);
    forall j | 0 <= j < numThreads
      ensures ranges[order[j]].start <= (numThreads - 1) * (s.height / numThreads)
    {
      MulLeq(order[j], numThreads - 1, s.height / numThreads);
    }
    ShiftedBrightnessKeeps(input, prev, s, value, ranges, order, numThreads, i);
  }

  /** With one thread the stage as bound writes nothing at all. */
  lemma OneThreadShiftedBrightness(input: seq<Byte>, prev: seq<Byte>, s: Shape, value: int)
    requires |input| == s.Size() && |prev| == s.Size()
    ensures ShiftedBrightness(input, prev, s, value, RowRanges(1, s.height), [0], 1) == prev
  {
    forall i | 0 <= i < |prev|
      ensures ShiftedBrightness(input, prev, s, value, RowRanges(1, s.height), [0], 1)[i] == prev[i]
    {
      IdxEncode(s, i);
      ShiftedBrightnessMissesRows(1, input, prev, s, value, [0], i);
    }
  }

  /**
    The stage as bound depends on the completion order. With three threads
    and 153 rows, threads 1 and 2 both write row 50, with shifts 102 and
    153; the byte keeps the shift of whichever finished last.
   */
  lemma ShiftedBrightnessDependsOnOrder(input: seq<Byte>, prev: seq<Byte>, s: Shape, x: int, c: int)
    requires |input| == s.Size() && |prev| == s.Size() && s.height == 153 && s.Has(x, 50, c) && c != 3
    ensures 0 <= s.Idx(x, 50, c) < s.Size()
    ensures var ranges, i := RowRanges(3, 153), s.Idx(x, 50, c);
      var last2 := ShiftedBrightness(input, prev, s, 50, ranges, [0, 1, 2], 3)[i];
      var last1 := ShiftedBrightness(input, prev, s, 50, ranges, [0, 2, 1], 3)[i];
      last2 == Clamp(input[i] as int + 153) && last1 == Clamp(input[i] as int + 102) &&
      (input[i] < 153 ==> last2 != last1)
  {
    IdxDecode(s, x, 50, c);
    var ranges, i := RowRanges(3, 153), s.Idx(x, 50, c);
    ThreeRanges();
    var v: int := input[i];
    assert BrightnessByte(input, s, 102, i) == Clamp(v + 102);
    assert BrightnessByte(input, s, 153, i) == Clamp(v + 153);
    var a, b := [0, 1, 2], [0, 2, 1];
    assert a[2] == 2 && b[2] == 1;
    ShiftedStep(input, prev, s, 50, ranges, a, 3, i);
    assert ShiftedBrightness(input, prev, s, 50, ranges, a, 3)[i] == Clamp(v + 153);
    ShiftedStep(input, prev, s, 50, ranges, b, 3, i);
    assert ShiftedBrightness(input, prev, s, 50, ranges, b, 3)[i] == Clamp(v + 102);
  }

  /** The three ranges of 153 rows. */
  lemma ThreeRanges()
    ensures RowRanges(3, 153) == [RowRange(0, 51), RowRange(51, 102), RowRange(102, 153)]
  {
    DivModUnique(153, 3, 51, 0);
  }

  /** One more finished thread: its rows `[value, start)` get its shift, the rest is kept. */
  lemma ShiftedStep(input: seq<Byte>, prev: seq<Byte>, s: Shape, value: int,
                    ranges: seq<RowRange>, order: seq<int>, k: nat, i: int)
    requires |input| == s.Size() && |prev| == s.Size() && 1 <= k <= |order|
    requires forall j :: 0 <= j < |order| ==> 0 <= order[j] < |ranges|
    requires 0 <= i < |prev|
    ensures var t := ranges[order[k - 1]];
      ShiftedBrightness(input, prev, s, value, ranges, order, k)[i] ==
        if value <= s.RowOf(i) < t.start then BrightnessByte(input, s, t.end, i)
        else ShiftedBrightness(input, prev, s, value, ranges, order, k - 1)[i]
  {
  }

  /**
    The brightness stage as intended, `runParallel` with each worker
    brightening its own range: every byte of the image is overwritten with its
    brightened value, so nothing of the previous buffer survives, whatever the
    completion order.
   */
  lemma BrightnessCoversImage(input: seq<Byte>, prev: seq<Byte>, s: Shape, value: int)
    requires |input| == s.Size() && |prev| == s.Size()
    ensures Apply(Brightness(value), input, prev, s, RowSpan(0, s.height)) ==
      seq(|input|, i requires 0 <= i < |input| => BrightnessByte(input, s, value, i))
  {
    forall i | 0 <= i < |input|
      ensures 0 <= s.RowOf(i) < s.height
    {
      IdxEncode(s, i);
    }
  }

  /** `filterBrightness` at channel `c` of pixel `(x, y)`. */
  lemma BrightnessAt(input: seq<Byte>, prev: seq<Byte>, s: Shape, value: int, start: int, end: int, x: int, y: int, c: int)
    requires |input| == s.Size() && |prev| == s.Size() && s.Has(x, y, c)
    ensures 0 <= s.Idx(x, y, c) < s.Size()
    ensures var i := s.Idx(x, y, c);
      var r := Apply(Brightness(value), input, prev, s, RowSpan(start, end))[i];
      (start <= y < end && c != 3 ==> r == Clamp(input[i] + value)) &&
      (start <= y < end && c == 3 ==> r == input[i]) &&
      (!(start <= y < end) ==> r == prev[i])
  {
    IdxDecode(s, x, y, c);
  }

  /** `applyKernel` at channel `c` of a pixel `(x, y)` of the given rows. */
  lemma KernelAt(input: seq<Byte>, prev: seq<Byte>, s: Shape, k: Kernel, start: int, end: int, x: int, y: int, c: int)
    requires Fits(Convolve(k), s, input, prev) && s.Has(x, y, c)
    ensures 0 <= s.Idx(x, y, c) < s.Size()
    ensures var i := s.Idx(x, y, c);
      var r := Apply(Convolve(k), input, prev, s, RowSpan(start, end))[i];
      (!(start <= y < end) ==> r == prev[i]) &&
      (start <= y < end && !s.Interior(x, y) ==> r == input[i]) &&
      (start <= y < end && s.Interior(x, y) && c < 3 ==>
        r == ClampThenTruncate(Window(input, s, x, y, c, k.weights), k.divisor)) &&
      (start <= y < end && s.Interior(x, y) && c == 3 && s.channels == 4 ==> r == input[i])
  {
    IdxDecode(s, x, y, c);
  }

  /**
    Blur and sharpen map a flat image to itself: every byte they write in
    the given rows, border or interior, equals the input colour.
   */
  lemma FlatThroughKernel(input: seq<Byte>, prev: seq<Byte>, s: Shape, k: Kernel, colour: seq<Byte>,
                          start: int, end: int, x: int, y: int, c: int)
    requires k == BlurKernel || k == SharpenKernel
    requires Fits(Convolve(k), s, input, prev) && ChannelUniform(input, s, colour)
    requires s.Has(x, y, c) && start <= y < end && (c < 3 || (c == 3 && s.channels == 4))
    ensures 0 <= s.Idx(x, y, c) < s.Size()
    ensures Apply(Convolve(k), input, prev, s, RowSpan(start, end))[s.Idx(x, y, c)] == colour[c]
  {
    IdxDecode(s, x, y, c);
    if s.Interior(x, y) && c < 3 {
      UniformWindow(input, s, colour, x, y, c, k.weights);
      FlatSurvivesKernel(k, colour[c]);
    }
  }

  /** `filterEdge` at channel `c` of pixel `(x, y)`. */
  lemma EdgeAt(input: seq<Byte>, prev: seq<Byte>, s: Shape, start: int, end: int, x: int, y: int, c: int)
    requires Fits(Sobel, s, input, prev) && s.Has(x, y, c)
    ensures 0 <= s.Idx(x, y, c) < s.Size()
    ensures var i := s.Idx(x, y, c);
      var r := Apply(Sobel, input, prev, s, RowSpan(start, end))[i];
      (!(start <= y < end) || !s.Interior(x, y) ==> r == prev[i]) &&
      (start <= y < end && s.Interior(x, y) && c < 3 ==>
        r == Magnitude(Window(input, s, x, y, c, SobelX), Window(input, s, x, y, c, SobelY))) &&
      (start <= y < end && s.Interior(x, y) && c == 3 && s.channels == 4 ==> r == 255)
  {
    IdxDecode(s, x, y, c);
  }

  /** On a flat image both Sobel sums vanish, so every colour channel of an interior pixel becomes 0. */
  lemma FlatEdgeIsBlack(input: seq<Byte>, prev: seq<Byte>, s: Shape, colour: seq<Byte>,
                        start: int, end: int, x: int, y: int, c: int)
    requires Fits(Sobel, s, input, prev) && ChannelUniform(input, s, colour)
    requires s.Has(x, y, c) && s.Interior(x, y) && start <= y < end && c < 3
    ensures 0 <= s.Idx(x, y, c) < s.Size()
    ensures Apply(Sobel, input, prev, s, RowSpan(start, end))[s.Idx(x, y, c)] == 0
  {
    IdxDecode(s, x, y, c);
    UniformWindow(input, s, colour, x, y, c, SobelX);
    UniformWindow(input, s, colour, x, y, c, SobelY);
    MagnitudeMeaning(0, 0);
  }

  /** With fewer than three channels `filterGrayscale` changes nothing. */
  lemma GrayscaleNoOp(img: seq<Byte>, s: Shape, luma: (Byte, Byte, Byte) -> Byte, rows: set<int>)
    requires |img| == s.Size() && s.channels < 3
    ensures Grayscale(img, s, luma, rows) == img
  {
  }

  /**
    `filterGrayscale` at pixel `(x, y)`: inside the rows, bytes 0..2 all hold
    the luma of the pixel's original colour; bytes from 3 on, and every byte
    outside the rows, are unchanged.
   */
  lemma GrayscaleAt(img: seq<Byte>, s: Shape, luma: (Byte, Byte, Byte) -> Byte, start: int, end: int, x: int, y: int)
    requires |img| == s.Size() && s.channels >= 3 && s.Has(x, y, 0)
    ensures forall c :: 0 <= c < s.channels ==> 0 <= s.Idx(x, y, c) < s.Size()
    ensures var r := Grayscale(img, s, luma, RowSpan(start, end));
      var gray := luma(img[s.Idx(x, y, 0)], img[s.Idx(x, y, 1)], img[s.Idx(x, y, 2)]);
      (start <= y < end ==> r[s.Idx(x, y, 0)] == gray && r[s.Idx(x, y, 1)] == gray && r[s.Idx(x, y, 2)] == gray) &&
      (forall c :: 3 <= c < s.channels ==> r[s.Idx(x, y, c)] == img[s.Idx(x, y, c)]) &&
      (!(start <= y < end) ==> forall c :: 0 <= c < s.channels ==> r[s.Idx(x, y, c)] == img[s.Idx(x, y, c)])
  {
    IdxDecode(s, x, y, 0);
    IdxDecode(s, x, y, 1);
    IdxDecode(s, x, y, 2);
    forall c | 0 <= c < s.channels
      ensures 0 <= s.Idx(x, y, c) < s.Size()
      ensures s.RowOf(s.Idx(x, y, c)) == y && s.ColOf(s.Idx(x, y, c)) == x && s.ChanOf(s.Idx(x, y, c)) == c
    {
      IdxDecode(s, x, y, c);
    }
  }
}
