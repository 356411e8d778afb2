# Parallel image filters, modelled in Dafny

The repository is a batch image processor written twice, once with hand-made
`std::thread` workers and once with OpenMP. Both versions decode an image into
a flat byte buffer. The buffer is row-major and channel-interleaved: channel
`c` of pixel `(x, y)` is at `(y * width + x) * channels + c`. Each version then
runs five filters over the buffer: grayscale, Gaussian blur, Sobel edge,
sharpen and brightness.

This project models the filters of both versions, the row partition that the
threaded version uses to split an image among its workers, and the order in
which each program runs the stages on one image.

- `raster.dfy` (`Raster`): the byte type and the buffer geometry (`Shape`).
  Offsets are encoded and decoded exactly: every pixel byte has an offset in
  the buffer that decodes back to it, and every offset decodes to a pixel
  byte.
- `kernels.dfy` (`Kernels`):
  - the 3x3 weighted sum, as a loop (`SumWindow`, `SobelSums`) proved against
    a specification function (`Window`);
  - the blur, sharpen and Sobel weights;
  - the square-root magnitude;
  - the two ways the versions turn a sum back into a byte.
- `partition.dfy` (`RowPartition`): the row ranges that `runParallel` hands
  out.
- `threads.dfy` (`ThreadFilters`):
  - the row-range workers, as imperative methods over arrays, each proved
    against a per-byte specification;
  - `RunParallel`, which runs the workers of every range in an arbitrary
    completion order. It is proved equal to one pass over the whole image;
  - the brightness stage as the threaded `main` binds it, where the shift and
    the row range land in the wrong parameters (see "## Findings").
- `openmp.dfy` (`OmpFilters`): the whole-image filters, each loop proved
  against a per-byte specification.
- `agreement.dfy` (`Agreement`): where the two versions' filter functions
  produce the same bytes and where they differ, when each is applied to the
  whole image. For brightness this compares `filterBrightness` over all rows,
  a call the threaded `main` does not make (see "## Findings").
- `stages.dfy` (`Stages`): the five stages each `main` runs on one image, and
  what ends up in the shared output buffer.

The kernels are integer weights over a divisor:

- blur is `{1,2,1,2,4,2,1,2,1} / 16`;
- sharpen is `{0,-1,0,-1,5,-1,0,-1,0} / 1`;
- Sobel uses its integer weights.

With byte samples, every float product and partial sum in the source is exactly
representable, so the model works over the integers.

The saturations are modelled as each version writes them:

- The threaded version clamps the float to `[0, 255]` and then truncates
  (`ClampThenTruncate`).
- The OpenMP version truncates toward zero (`(int)`) and then clamps
  (`TruncateThenClamp`).
- `SaturationsAgree` proves that the two orders give the same byte.

The edge magnitude is `min(255, floor(sqrt(gx^2 + gy^2)))`. The sum of squares
is at most about 2.1 million, an integer below 2^24, so it is exact in a float.
A correctly rounded square root of `k^2 - 1` stays below `k` for every `k` in
range, so truncating the float root gives the integer floor root.

The grayscale weights are floats: ITU-R BT.709 in the threaded version and
ITU-R BT.601 in the OpenMP version. Both are passed to the model as a function
parameter `luma` from (r, g, b) to a byte.

Where the two versions or a plain reading of the program might differ, the
model follows the code:

- Every stage reads the original image. Four stages write the same output
  buffer, and no stage's output feeds the next stage.
- The threaded convolution copies border pixels through, while the threaded
  edge filter and both OpenMP 3x3 filters leave the border bytes of the output
  alone.
- The OpenMP brightness shifts the alpha byte too. The OpenMP edge filter
  writes the magnitude into alpha, while the threaded edge filter writes 255.
- Nothing checks the thread count or the buffer sizes. The model states these
  as preconditions rather than error results, because the code has no error
  path.

## Model

| member | source | states |
|---|---|---|
| Raster.IdxDecode | src_threads/main.cpp:64 | the offset `(y*width+x)*channels+c` of a pixel byte lies in the buffer, and its row, column and channel decode back to `y`, `x` and `c` |
| Raster.IdxEncode | src_openmp/main.cpp:104 | every offset of the `width*height*channels` buffer is the offset of an in-image pixel byte, namely the row, column and channel it decodes to |
| Raster.AllEncode | src_openmp/main.cpp:104 | the decoding of `IdxEncode`, for all offsets of the buffer at once |
| Raster.RowSpan | src_threads/main.cpp:23 | the rows a worker visits, `startRow <= y < endRow`, as a set |
| Kernels.SumWindow | src_threads/main.cpp:61-67 | the `ky`/`kx` accumulation loop returns the 3x3 weighted sum `Window` of channel `c` around `(x, y)` |
| Kernels.SobelSums | src_openmp/main.cpp:85-93 | the fused loop returns both Sobel sums of channel `c` around `(x, y)` |
| Kernels.UniformWindow | src_openmp/main.cpp:42-47 | on a flat image the weighted sum is the channel's colour times the sum of the weights |
| Kernels.SmoothingKernelsPreserveFlat | src_threads/main.cpp:77-83 | the blur and sharpen weights sum to their divisor, and the Sobel weights sum to zero |
| Kernels.FloorSqrt | src_threads/main.cpp:104 | the root is the largest `r` with `r*r <= n` |
| Kernels.MagnitudeMeaning | src_openmp/main.cpp:94-95 | below the cap the edge byte is the floor root of `gx^2+gy^2`; it is 255 exactly when `gx^2+gy^2 >= 255^2`; it is 0 exactly when both sums are 0 |
| Kernels.SaturationsAgree | src_openmp/main.cpp:48-49 | clamp-then-truncate and truncate-then-clamp give the same byte; a negative sum gives 0; a sum in range gives its floor quotient exactly |
| Kernels.FlatSurvivesKernel | src_openmp/main.cpp:57-62 | with blur (`16v/16`) and sharpen (`v/1`) a flat value `v` saturates back to `v` under both saturations |
| RowPartition.RowRanges | src_threads/main.cpp:115-118 | there is one range per thread |
| RowPartition.RangesTile | src_threads/main.cpp:115-118 | range 0 starts at 0, the last range ends at `height`, each range ends where the next starts, all ranges lie in `[0, height)`, and every range but the last has `height/numThreads` rows |
| RowPartition.RangeHolding | src_threads/main.cpp:115-118 | every row of `[0, height)` lies in the range of some thread index in `[0, numThreads)` |
| RowPartition.RangesCover | src_threads/main.cpp:115-118 | a row lies in some range exactly when it is in `[0, height)` |
| RowPartition.RangesDisjoint | src_threads/main.cpp:115-118 | no row lies in two ranges |
| RowPartition.MoreThreadsThanRows | src_threads/main.cpp:115-118 | with more threads than rows every range but the last is empty, and the last is `[0, height)` |
| ThreadFilters.Apply | src_threads/main.cpp:37-38 | a worker over a row set leaves a buffer of the same length (the per-byte meaning is in the lemmas `BrightnessAt`, `KernelAt` and `EdgeAt`) |
| ThreadFilters.FilterBrightness | src_threads/main.cpp:36-47 | in the rows of the range, channel 3 is copied and every other channel becomes `Clamp(input + value)`; other rows keep their bytes; a range with `endRow <= startRow` writes nothing. `input` and `output` may be the same buffer |
| ThreadFilters.KernelPixel | src_threads/main.cpp:55-70 | one pass of the `x` loop writes exactly the bytes of pixel `(x, y)`, each as `KernelByte` says; no other byte changes |
| ThreadFilters.ApplyKernel | src_threads/main.cpp:50-73 | in the rows of the range, border pixels are copied, interior colour channels get the saturated weighted sum, and for four channels interior alpha is copied; nothing else changes |
| ThreadFilters.FilterBlur | src_threads/main.cpp:76-79 | `ApplyKernel` with the blur weights over 16 |
| ThreadFilters.FilterSharpen | src_threads/main.cpp:82-85 | `ApplyKernel` with the sharpen weights |
| ThreadFilters.EdgePixel | src_threads/main.cpp:94-107 | one pass of the `x` loop writes exactly the bytes of pixel `(x, y)`, each as `EdgeByte` says; no other byte changes |
| ThreadFilters.FilterEdge | src_threads/main.cpp:88-110 | in the rows of the range, border pixels are left untouched, interior colour channels get the Sobel magnitude, and for four channels interior alpha becomes 255 |
| ThreadFilters.Grayscale | src_threads/main.cpp:21-33 | in-place grayscale over a row set keeps the buffer's length (the per-byte meaning is in `GrayscaleAt`) |
| ThreadFilters.FilterGrayscale | src_threads/main.cpp:21-33 | in place: with three or more channels, bytes 0..2 of each pixel in the rows become the luma of that pixel's original colour; everything else is kept |
| ThreadFilters.WorkerReadsOnlyInput | src_threads/main.cpp:36-110 | a worker's byte depends on the previous output only at that same byte, and only where it leaves the byte unwritten |
| ThreadFilters.ApplyComposes | src_threads/main.cpp:113-121 | two workers over two row sets, in either order, give the same buffer as one worker over their union |
| ThreadFilters.GrayscaleComposes | src_threads/main.cpp:113-121 | in-place grayscale over two disjoint row sets, one after the other, equals grayscale over their union |
| ThreadFilters.FinishedCoversImage | src_threads/main.cpp:116-121 | once every thread's range has finished, the finished rows are exactly `[0, height)` |
| ThreadFilters.RunWorker | src_threads/main.cpp:119 | one worker call over `[start, end)` leaves the output as `Apply` over those rows |
| ThreadFilters.RunParallel | src_threads/main.cpp:113-122 | for any completion order of the workers, the output equals one worker pass over all rows `[0, height)` |
| ThreadFilters.RunParallelGrayscale | src_threads/main.cpp:113-122 | for any completion order of the in-place grayscale workers, the image equals one grayscale pass over all rows |
| ThreadFilters.ShiftedBrightness | src_threads/main.cpp:177 | the buffer after the first `k` brightness workers as bound have finished keeps the buffer's length (its per-byte meaning is in `ShiftedStep` and `ShiftedBrightnessKeeps`) |
| ThreadFilters.RunParallelShiftedBrightness | src_threads/main.cpp:113-122 | the threaded brightness stage as written: worker `i` runs `filterBrightness` with `startRow = 50`, `endRow` its range's start and `value` its range's end; for any completion order the output is `ShiftedBrightness` of that order |
| ThreadFilters.ShiftedBrightnessKeeps | src_threads/main.cpp:36-37 | a byte whose row lies in no finished worker's `[50, start)` keeps its previous value |
| ThreadFilters.ShiftedBrightnessMissesRows | src_threads/main.cpp:115-119 | rows before row 50 and rows from `(numThreads-1)*(height/numThreads)` on are never brightened, whatever the completion order |
| ThreadFilters.OneThreadShiftedBrightness | src_threads/main.cpp:115-119 | with one thread the brightness stage writes nothing: the output is the sharpen output unchanged |
| ThreadFilters.ShiftedBrightnessDependsOnOrder | src_threads/main.cpp:115-119 | with three threads and 153 rows a colour byte of row 50 ends up shifted by 153 when thread 2 finishes last and by 102 when thread 1 does; these differ whenever the input byte is below 153 |
| ThreadFilters.BrightnessCoversImage | src_threads/main.cpp:36-47 | brightness over all rows, which `RunParallel` gives for any completion order, overwrites every byte with its brightened value, so nothing of the previous buffer survives |
| ThreadFilters.BrightnessAt | src_threads/main.cpp:40-43 | at pixel `(x, y)`: in the rows, channel 3 is the input and every other channel is `Clamp(input + value)`; outside the rows, the previous byte |
| ThreadFilters.KernelAt | src_threads/main.cpp:55-70 | at pixel `(x, y)` in the rows: a border byte is the input byte, an interior colour byte is the saturated sum, and interior alpha with four channels is the input byte; outside the rows, the previous byte |
| ThreadFilters.FlatThroughKernel | src_threads/main.cpp:55-84 | blur and sharpen map a flat image to itself at every colour and alpha byte they write |
| ThreadFilters.EdgeAt | src_threads/main.cpp:94-107 | border bytes and bytes outside the rows keep the previous byte; interior colour bytes get the magnitude; interior alpha with four channels is 255 |
| ThreadFilters.FlatEdgeIsBlack | src_threads/main.cpp:95-105 | on a flat image every interior colour byte of the edge output is 0 |
| ThreadFilters.GrayscaleNoOp | src_threads/main.cpp:22 | with fewer than three channels grayscale changes nothing |
| ThreadFilters.GrayscaleAt | src_threads/main.cpp:23-30 | in the rows, bytes 0..2 of a pixel all equal the luma of its original (r, g, b); bytes from 3 on are kept; rows outside the range are kept |
| OmpFilters.GrayPlane | src_openmp/main.cpp:27-31 | the gray plane has one byte per pixel, `width*height` in all |
| OmpFilters.ApplyGrayscale | src_openmp/main.cpp:24-33 | with fewer than three channels nothing is written; otherwise the output is exactly the `width*height` gray plane; the input is unchanged |
| OmpFilters.GrayPlaneLocal | src_openmp/main.cpp:28-31 | gray byte `i` depends only on input bytes `i*channels .. i*channels+2` |
| OmpFilters.Convolution | src_openmp/main.cpp:36-53 | the convolution output keeps the buffer's length (the per-byte meaning is in `ConvolutionAt`) |
| OmpFilters.ApplyConvolution | src_openmp/main.cpp:36-53 | every channel of every interior pixel gets `Clamp(trunc(sum / divisor))`, and border bytes keep what the output held |
| OmpFilters.ApplyBlur | src_openmp/main.cpp:56-63 | the convolution with the blur weights over 16 |
| OmpFilters.ApplySharpen | src_openmp/main.cpp:66-73 | the convolution with the sharpen weights |
| OmpFilters.Edge | src_openmp/main.cpp:76-99 | the edge output keeps the buffer's length (the per-byte meaning is in `EdgeAt`) |
| OmpFilters.ApplyEdge | src_openmp/main.cpp:76-99 | every channel of every interior pixel, alpha included, gets the Sobel magnitude, and border bytes keep what the output held |
| OmpFilters.BrightnessPlane | src_openmp/main.cpp:104-106 | brightness keeps the buffer's length |
| OmpFilters.ApplyBrightness | src_openmp/main.cpp:102-108 | every byte, alpha included, becomes `Clamp(input + value)`; `input` and `output` may be the same buffer |
| OmpFilters.BrightnessSaturates | src_openmp/main.cpp:105-106 | a shifted byte is 255 at or above 255, 0 at or below 0, and exact in between |
| OmpFilters.ConvolutionAt | src_openmp/main.cpp:38-49 | at pixel `(x, y)`: interior bytes are `TruncateThenClamp` of the weighted sum; border bytes keep the previous byte |
| OmpFilters.SmallImageUntouched | src_openmp/main.cpp:38-39 | on an image narrower or shorter than three pixels the convolution and the edge filter write nothing |
| OmpFilters.FlatThroughConvolution | src_openmp/main.cpp:57-72 | blur and sharpen map a flat colour to itself at every interior byte, alpha included |
| OmpFilters.EdgeAt | src_openmp/main.cpp:82-95 | interior bytes get the magnitude and border bytes keep the previous byte |
| OmpFilters.FlatEdgeIsBlack | src_openmp/main.cpp:78-95 | on a flat image every interior byte of the edge output, alpha included, is 0 |
| Agreement.BrightnessVersions | src_threads/main.cpp:40-43 | `filterBrightness` over all rows and the OpenMP brightness agree on every byte except channel 3, where only the threaded filter copies the input (the threaded `main` does not make that call; its stage is `RunParallelShiftedBrightness`) |
| Agreement.ConvolutionVersions | src_openmp/main.cpp:48-49 | at interior colour bytes both versions' blur and sharpen give the same byte; at border bytes the threaded version gives the input and the OpenMP version the previous output |
| Agreement.EdgeVersions | src_threads/main.cpp:107 | from the same output buffer, the two edge filters differ only at interior alpha: 255 in the threaded version, the magnitude in the OpenMP version |
| Agreement.GrayLayouts | src_openmp/main.cpp:27-31 | with the same luma, gray byte `y*width+x` of the OpenMP plane is what the threaded version writes into bytes 0..2 of pixel `(x, y)` |
| Stages.ThreadedImage | src_threads/main.cpp:159-178 | the gray buffer is a copy of the image grayscaled in place; blur, edge and sharpen each read the original image and overwrite the shared output buffer in that order, whatever the workers' completion order; the brightness stage is `ShiftedBrightness` of the sharpen output for its workers' completion order, as the arguments at line 177 bind; the image is unchanged |
| Stages.ThreadedOutputsDefined | src_threads/main.cpp:165-173 | for three or four channels, the border bytes of the blur, edge and sharpen outputs are the input's border bytes, and interior alpha is the input in blur and sharpen and 255 in edge |
| Stages.OmpImage | src_openmp/main.cpp:155-173 | grayscale into the plane, then blur, edge, sharpen and brightness, each reading the original image and overwriting the shared output buffer; the image is unchanged |
| Stages.OmpBordersKeepAllocation | src_openmp/main.cpp:152-168 | the border bytes of the blur, edge and sharpen outputs are whatever the output buffer held when it was allocated |

## Left out

- Thread creation and joining (`std::thread`), the OpenMP pragmas and `omp_set_num_threads`. Concurrency is modelled by its meaning: the grayscale, blur, edge and sharpen workers write disjoint rows, read only the unchanged input, and may complete in any order (`order` in `RunParallel`). Byte-level interleaving between workers is not modelled.
- ThreadFilters.RunParallelShiftedBrightness: the brightness workers as bound write overlapping rows at the same time, a data race. The model runs them one after another in an arbitrary completion order; interleavings of their byte writes within one row are not modelled.
- Image decode and encode (`stbi_load`, `stbi_write_jpg`), `malloc`/`free`, directory iteration and extension filtering, folder creation, timing and console output. The buffers `main` allocates are method parameters, and their initial contents are arbitrary.
- The benchmark driver that builds and times both programs is not part of this model.
- The float luma weights are not modelled. Each version's weighting is the parameter `luma`. Properties that hold only up to float rounding, such as grayscale being nearly idempotent, are not stated.
- The `kSize` parameter of `applyKernel` is modelled only at its one value, 3.
- 32-bit `int` overflow of offsets and sums is not modelled. The integers are unbounded, which is faithful for any image whose byte count fits in an `int`.
- ThreadFilters.ApplyKernel: requires at least three channels. With fewer, the source's `c < 3` loop writes the neighbouring pixel's bytes and reads past the end of the buffer.
- ThreadFilters.FilterEdge: requires at least three channels, for the same reason.
- Stages.ThreadedImage: requires at least three channels, because it runs the threaded blur, edge and sharpen. It uses one completion order for the grayscale, blur, edge and sharpen stages, whose results do not depend on it, and a separate `brightOrder` for the brightness stage, whose result does.
- ThreadFilters.ApplyKernel: requires `input` and `output` to be different buffers, as every caller passes them.
- ThreadFilters.FilterEdge: requires different buffers, for the same reason.
- OmpFilters.ApplyConvolution: requires different buffers, for the same reason.
- OmpFilters.ApplyEdge: requires different buffers, for the same reason.
- RowPartition.RowRanges: requires `numThreads >= 1`. With zero threads the source divides by zero.

## Findings

| source | as written | input that shows it | evidently intended | confidence | as-written member | corrected member |
|---|---|---|---|---|---|---|
| src_threads/main.cpp:177 | `runParallel` appends `start, end` after the bound arguments (line 119), so the trailing `50` lands in `startRow` and the range in `endRow` and `value` of `filterBrightness` (line 36): worker `i` brightens rows `[50, start_i)` by `end_i` | one thread: nothing is written and the brightness output equals the sharpen output (`OneThreadShiftedBrightness`); any thread count: rows before row 50 and the last range are never brightened (`ShiftedBrightnessMissesRows`); three threads and 153 rows: row 50 is shifted by 153 or by 102 depending on which worker finishes last (`ShiftedBrightnessDependsOnOrder`) | every worker brightens its own range `[start_i, end_i)` by 50, so the whole image is brightened whatever the order | not executed | ThreadFilters.RunParallelShiftedBrightness | ThreadFilters.BrightnessCoversImage |
