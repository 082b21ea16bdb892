# pyfastblur blur engine in Dafny

This project models the blur engine of pyfastblur and proves properties about it. The engine is the
"fastest Gaussian blur" box-filter technique, and it is built from these parts:

- `boxes_for_gauss` turns an integer standard deviation into odd box widths.
- `box_blur_horizontal` is an edge-clamped, sliding-window row mean.
- `box_blur_total` is nominally the column pass.
- `box_blur_full` and `gaussian_blur` chain the passes, ping-ponging between a channel plane and
  one scratch plane.
- The planar part of `process` splits the decoded interleaved rows into one byte plane per
  channel. It blurs each plane against a shared scratch plane and interleaves the planes back.

Modules, one per file:

- `Numeric` (`numeric.dfy`): the byte type and the integer stand-ins for the source's floating
  point and C++ division. `IntSqrt` replaces `floor(sqrt(..))`, `TruncDiv` is C++ `/`, and
  `RoundMean` is `round(val * iarr)`. The module also holds the row-major index lemmas.
- `BoxPlanner` (`box_planner.dfy`): `boxes_for_gauss`. `BoxWidths` is its specification and
  `BoxesForGauss` the method that fills the array.
- `BoxBlur` (`box_blur.dfy`): `box_blur_horizontal`, `box_blur_total` and `box_blur_full` as
  methods over `array<Byte>`. Each is proved against a specification function on `seq<int>`
  (`HorizontalBlur`, `TotalTopRow`, `FullTarget`). Each loop of the source is its own helper
  method with its own invariants.
- `Gaussian` (`gaussian.dfy`): `gaussian_blur`. `GaussianResult` gives what it leaves in both
  buffers.
- `Process` (`process.dfy`): the planar part of `process`, over `pixel_data` as an
  `array2<Byte>` of `height` rows of `width * channels` bytes. It covers buffer sizing, the unpack
  loop, the per-channel blur loop, the repack loop and the early return on a bad signature.

The model follows the code where the function names or the blur technique suggest otherwise:

- `box_blur_total` never advances `ti`, `li` or `ri`. For column `i`, every one of its writes
  goes to `tcl[i]`, and every update drops `scl[i]`. The first `r + 1 + max(0, h - 2r - 1)`
  updates all add `scl[i + r*w]` (the sample at `ri`), and the last `r` updates add `last_val`.
  So it rewrites only the top row of `tcl`, with the value `TotalTopRow` describes (see
  `ColumnAccumulator`), and leaves rows `1 .. h - 1` unchanged. It is not a vertical blur. Its
  reads stay in bounds when `r < h`.
- Because the cursors stay put, the accumulator drifts by `scl[i + r*w] - scl[i]` on each of
  the leading updates (`ColumnAccumulatorClosed`). On a column whose sample at row `r` differs
  from its top sample, the value narrowed into a `png_byte` soon leaves 0..255.
  `TotalNarrowingOutOfRange` shows a five-sample column where the written value reaches 340.
  The model states the range as the precondition `TotalInRange`.
- The Python wrapper turns a radius of 0 into 1, and `boxes_for_gauss(1, 3)` is `[1, 3, 3]`, so
  without the stronger blur the single pass has radius 0. The image is written back unchanged
  (`ProcessRadiusOneIsIdentity`).
- `process` repacks `in_channels`, not `buffer_channel`. So the image written back is what
  `box_blur_full` leaves in its first argument: the horizontal blur of the last pass's input.
  `ProcessResult` states this.
- C++ `/` truncates toward zero. `boxes_for_gauss(1, 3)` is `[1, 3, 3]` because `-12 / -8` is
  1 there; Euclidean division (Dafny's `/`) would give 2.

## Model

| member | source | states |
|---|---|---|
| Numeric.IntSqrt | pyfastblur/src/blur.h:7-8 | the result `r` satisfies `r*r <= n < (r+1)*(r+1)`, i.e. it is the floor of the square root |
| Numeric.IntSqrtUnique | pyfastblur/src/blur.h:7-8 | any `r` with `r*r <= n < (r+1)*(r+1)` is `IntSqrt(n)` |
| Numeric.TruncDiv | pyfastblur/src/blur.h:14 | C++ `a / b`: `q * b` lies between 0 and `a`, less than `abs(b)` from `a` |
| Numeric.TruncDivUnique | pyfastblur/src/blur.h:14 | any `q` meeting those inequalities is the truncated quotient |
| Numeric.RoundMean | pyfastblur/src/blur.h:25 | `round(val * iarr)` with `iarr = 1/(2r+1)`: the halves-up rounded quotient of `abs(val)` by `2r+1`, with the sign of `val`; not negative for `val >= 0` and not positive for `val < 0` (its nearest-integer property is `RoundMeanNearest`) |
| Numeric.RoundMeanNearest | pyfastblur/src/blur.h:25 | `round(val * iarr)` is within half of the divisor of `val / (2r+1)`, and not negative for `val >= 0` |
| Numeric.RoundMeanUnique | pyfastblur/src/blur.h:38 | the nearest integer to `val / (2r+1)` is unique |
| Numeric.RoundMeanExact | pyfastblur/src/blur.h:38 | the mean of `2r+1` copies of `v` rounds to `v` |
| Numeric.RoundMeanByte | pyfastblur/src/blur.h:38 | the rounded mean of `2r+1` bytes is a byte |
| BoxPlanner.SmallWidth | pyfastblur/src/blur.h:7-9 | `wfloor` is odd and at least 1 |
| BoxPlanner.SmallCount | pyfastblur/src/blur.h:12-15 | `med_round`, the truncated quotient `const_a / const_b`, always lies in `0 .. num`, so it counts leading boxes |
| BoxPlanner.BoxWidths | pyfastblur/src/blur.h:6-22 | exactly `num` widths, each odd and at least 1, non-decreasing by index, spread by at most 2 |
| BoxPlanner.BoxesForGauss | pyfastblur/src/blur.h:6-22 | returns a fresh array holding `BoxWidths(sigma, num)` |
| BoxPlanner.HalfWidthExact | pyfastblur/src/blur.h:88-91 | `(boxes[k] - 1) / 2` is a non-negative radius with `2r + 1 == boxes[k]` |
| BoxPlanner.ZeroSigmaWidths | pyfastblur/src/blur.h:7-15 | with sigma 0, every width is 1 |
| BoxPlanner.WidthsForSigmaOne | pyfastblur/src/blur.h:7-15 | `boxes_for_gauss(1, 3)` is `[1, 3, 3]` |
| BoxPlanner.ThreeSmallWidth | pyfastblur/src/blur.h:7-9 | for three boxes and `sigma != 0`, `wfloor` is `2*abs(sigma) - 1` |
| BoxPlanner.ThreeSmallCount | pyfastblur/src/blur.h:12-15 | for three boxes and `sigma != 0`, `med_round` is 1 |
| BoxPlanner.WidthsForThree | pyfastblur/src/blur.h:6-22 | `boxes_for_gauss(sigma, 3)` is `[1, 1, 1]` for sigma 0, otherwise `[2a-1, 2a+1, 2a+1]` with `a = abs(sigma)` |
| BoxPlanner.WidthsMonotoneInSigma | pyfastblur/src/blur.h:6-22 | for three boxes, each width is non-decreasing in sigma |
| BoxBlur.RowWindowSum | pyfastblur/src/blur.h:33-47 | the clamped window sum of bytes lies in `0 .. 255 * n` |
| BoxBlur.WindowSlide | pyfastblur/src/blur.h:37-45 | moving the window one column adds the clamped entering sample and drops the clamped leaving one |
| BoxBlur.WindowLeftEdge | pyfastblur/src/blur.h:33-35 | a window at or left of column 0 sums `n` copies of the first sample (the initial `val`) |
| BoxBlur.HorizontalCell | pyfastblur/src/blur.h:36-47 | the blurred cell of a byte row is a byte |
| BoxBlur.HorizontalBlur | pyfastblur/src/blur.h:24-48 | the plane `box_blur_horizontal` writes, of the input's length: each cell is the rounded mean of the `2r+1` samples around it in its row, with the row's end samples replicated past its edges |
| BoxBlur.HorizontalBlurAt | pyfastblur/src/blur.h:27-47 | cell `i*w + c` of the horizontal blur is the rounded clamped-window mean of row `i` at column `c` |
| BoxBlur.HorizontalBlurBytes | pyfastblur/src/blur.h:24-48 | the horizontal blur of a byte plane is a byte plane |
| BoxBlur.HorizontalBlurZero | pyfastblur/src/blur.h:24-48 | with radius 0, the horizontal blur is an exact copy |
| BoxBlur.HorizontalBlurUniform | pyfastblur/src/blur.h:24-48 | a plane of equal samples is its own horizontal blur |
| BoxBlur.SlideWrite | pyfastblur/src/blur.h:36-47 | one sweep step turns the window sum at `j - 1` into the one at `j`, and the rounded value written is the blurred cell, a byte |
| BoxBlur.RowPrime | pyfastblur/src/blur.h:31-35 | the initial `val` is the clamped window sum ending just before column 0 |
| BoxBlur.SweepEntering | pyfastblur/src/blur.h:36-39 | first write loop: `val` tracks the window sum and `tcl[ti..]` receives the blurred cells `0 .. r` |
| BoxBlur.SweepSliding | pyfastblur/src/blur.h:40-43 | middle write loop: cells `r+1 .. w-r-1`, same invariant |
| BoxBlur.SweepLeaving | pyfastblur/src/blur.h:44-47 | last write loop: cells `w-r .. w-1`, same invariant |
| BoxBlur.BoxBlurRow | pyfastblur/src/blur.h:27-47 | one row sweep writes exactly the row's `w` blurred cells into `tcl` and nothing else |
| BoxBlur.PlaneWrittenStep | pyfastblur/src/blur.h:26-27 | sweeping row `i` (at `ti = i*w`) extends the blurred prefix of `tcl` by one row |
| BoxBlur.BoxBlurHorizontal | pyfastblur/src/blur.h:24-49 | `tcl` becomes `HorizontalBlur(scl)`, all `w*h` cells, and `scl` is only read |
| BoxBlur.ColumnAccumulator | pyfastblur/src/blur.h:58-74 | the value of `val` for a column after `k` updates: `(r+1)` top samples plus the first `r`, then each update adds the sample at `ri` (or `last_val` in the third loop) and drops the top sample |
| BoxBlur.ColumnAccumulatorClosed | pyfastblur/src/blur.h:60-74 | the non-advancing cursors make the `k`-th accumulator the initial one plus `k` (up to the leading count) times `scl[ri] - scl[li]`, then `last_val - scl[li]` per later update |
| BoxBlur.ColumnResult | pyfastblur/src/blur.h:63-74 | the value the last write leaves in the column's top cell; a byte whenever every narrowed value of the column is in range |
| BoxBlur.TotalTopRow | pyfastblur/src/blur.h:51-76 | the top row `box_blur_total` leaves: one cell per column, `w` cells, all bytes when `TotalInRange` holds |
| BoxBlur.TotalNarrowingOutOfRange | pyfastblur/src/blur.h:60-74 | on the column `0, 255, 255, 255, 255` with radius 1 the fourth write narrows 340, so `TotalInRange` fails |
| BoxBlur.ColumnUniform | pyfastblur/src/blur.h:53-74 | on a column of equal bytes, every write is a byte and the top cell keeps its value |
| BoxBlur.ColumnZero | pyfastblur/src/blur.h:53-74 | with radius 0, the top cell of a column keeps its value |
| BoxBlur.TotalUniform | pyfastblur/src/blur.h:51-76 | on a plane of equal bytes, `box_blur_total` is defined and writes the top row back unchanged |
| BoxBlur.TotalZero | pyfastblur/src/blur.h:51-76 | with radius 0, `box_blur_total` writes the top row back unchanged (`tcl[i] == scl[i]`) |
| BoxBlur.ColumnPrime | pyfastblur/src/blur.h:58-62 | the initial column accumulator is `(r+1)` top samples plus the first `r` samples of the column |
| BoxBlur.ColumnEntering | pyfastblur/src/blur.h:63-66 | `r + 1` updates, each written to `tcl[ti]` only |
| BoxBlur.ColumnSliding | pyfastblur/src/blur.h:67-70 | `h - 2r - 1` more updates (if any), each written to `tcl[ti]` only |
| BoxBlur.ColumnLeaving | pyfastblur/src/blur.h:71-74 | `r` more updates with `last_val` entering, each written to `tcl[ti]` only |
| BoxBlur.BoxBlurColumn | pyfastblur/src/blur.h:53-74 | column `i` leaves `ColumnResult` in `tcl[i]` and changes no other cell |
| BoxBlur.BoxBlurTotal | pyfastblur/src/blur.h:51-76 | `tcl` becomes `TotalTopRow(scl)` followed by its own old rows `1 .. h-1` |
| BoxBlur.FullTarget | pyfastblur/src/blur.h:78-84 | the plane `box_blur_full` leaves in `tcl` has the plane's length |
| BoxBlur.BoxBlurFull | pyfastblur/src/blur.h:78-84 | `scl` becomes the horizontal blur of the old `scl`; `tcl` becomes the old `scl` with the top row from `box_blur_total`, whatever `tcl` held before |
| BoxBlur.FullPassUniform | pyfastblur/src/blur.h:78-84 | a plane of equal bytes comes out of `box_blur_full` unchanged in both buffers |
| BoxBlur.FullPassZero | pyfastblur/src/blur.h:78-84 | with radius 0, `box_blur_full` leaves a byte plane unchanged in both buffers |
| Gaussian.PassRadius | pyfastblur/src/blur.h:88-91 | the radius of pass `k` is non-negative and `2r + 1` is box `k`'s width |
| Gaussian.GaussianResult | pyfastblur/src/blur.h:86-94 | both result planes have the input's length |
| Gaussian.GaussianBlur | pyfastblur/src/blur.h:86-94 | one pass at `(boxes[0]-1)/2`, or three passes ping-ponging `scl`/`tcl` when `sb != 0`; the buffers end as `GaussianResult` says |
| Gaussian.GaussianUniform | pyfastblur/src/blur.h:86-93 | a plane of equal bytes stays unchanged in both buffers, with one pass or three, when the radius of every pass that runs fits the plane |
| Gaussian.GaussianZeroSigma | pyfastblur/src/blur.h:86-93 | with sigma 0, both buffers end equal to the input plane |
| Process.Unpacked | pyfastblur/src/blur.cpp:83-94 | plane `k` has `height * width` cells |
| Process.UnpackAll | pyfastblur/src/blur.cpp:83-94 | the `channels` planes the unpack loop fills, each of `height * width` cells |
| Process.UnpackedAt | pyfastblur/src/blur.cpp:86-90 | `in_channels[k][i*width + c] == pixel_data[i][c*channels + k]` |
| Process.Repacked | pyfastblur/src/blur.cpp:105-116 | the repacked rows have `height` rows of `width * channels` bytes |
| Process.RepackedAt | pyfastblur/src/blur.cpp:108-112 | `pixel_data[i][c*channels + k]` is written from `in_channels[k][i*width + c]` |
| Process.RepackUnpack | pyfastblur/src/blur.cpp:84-116 | repacking unchanged planes gives back every byte of `pixel_data` |
| Process.UnpackRepack | pyfastblur/src/blur.cpp:84-116 | unpacking repacked rows gives back every plane |
| Process.BlurredPlanes | pyfastblur/src/blur.cpp:97-99 | one blurred plane per channel, each of `width * height` cells |
| Process.ProcessResult | pyfastblur/src/blur.cpp:97-116 | the rows written back are interleaved `height` rows of `width * channels` bytes |
| Process.ProcessRadiusOneIsIdentity | pyfastblur/blur.py:36-39 | with the normalised radius 1 and no stronger blur, the written image equals the decoded one |
| Process.ProcessZeroSigmaIsIdentity | pyfastblur/src/blur.cpp:97-116 | with sigma 0, the written image equals the decoded one, with or without the stronger blur |
| Process.AllocatePlanes | pyfastblur/src/blur.cpp:58-67 | four fresh, distinct planes and a fresh scratch plane; planes 0-2 and the scratch plane have `width*height` bytes, the alpha plane has that many only for 4 channels |
| Process.UnpackChannels | pyfastblur/src/blur.cpp:83-94 | plane `k` becomes `Unpacked(pixel_data, k)` for every `k < channels` |
| Process.UnpackRow | pyfastblur/src/blur.cpp:84-93 | row `i` (with `counter == i*width` and `j == c*channels`) fills cells `counter .. counter+width-1` |
| Process.UnpackCells | pyfastblur/src/blur.cpp:85-91 | bytes `j .. j+channels-1` of row `i` are cell `counter + c` of the unpacked planes, and in bounds |
| Process.UnpackPixel | pyfastblur/src/blur.cpp:86-91 | one pixel writes cell `n` of planes `0 .. channels-1` and nothing else |
| Process.BlurChannels | pyfastblur/src/blur.cpp:97-99 | every plane `k < channels` becomes `GaussianResult(..).channel` of its old contents |
| Process.RepackChannels | pyfastblur/src/blur.cpp:105-116 | `pixel_data` becomes `Repacked` of the current `in_channels` |
| Process.RepackRow | pyfastblur/src/blur.cpp:106-115 | row `i` is rewritten to its repacked bytes, and earlier rows stay done |
| Process.RepackCells | pyfastblur/src/blur.cpp:107-112 | bytes `j .. j+channels-1` of repacked row `i` are cell `counter + c` of the planes |
| Process.RepackPixel | pyfastblur/src/blur.cpp:108-112 | one pixel writes bytes `j .. j+channels-1` of row `i` and nothing else |
| Process.Process | pyfastblur/src/blur.cpp:23-116 | returns 0 with the rows untouched on a bad signature; otherwise returns 1 and the rows become `ProcessResult` of the decoded rows |

## Left out

- libpng: decoding, encoding, the read and write structs, `setjmp`/`longjmp` cleanup and
  compression are foreign I/O. `process` starts from the decoded rows, and `validate` (the
  signature check) is the boolean parameter `valid`.
- The failure returns after the signature check (a read or info struct that cannot be created, a
  `longjmp` from libpng) belong to libpng and are not modelled. `Process` returns 1 once the
  signature is valid.
- The timing with `std::chrono` and the console output are side effects only.
- The Python C-API glue and the Python wrapper are not modelled. The wrapper's radius
  normalisation (negative to positive, 0 to 1) appears only in `ProcessRadiusOneIsIdentity`.
- Floating point: `sqrt`, `iarr` and `round` are replaced by their exact integer equivalents
  (`IntSqrt`, `RoundMean`). The divisor `2r + 1` is odd, so no rounding ties occur.
  Single-precision error in `val * iarr` is not modelled.
- Out-of-range narrowing in `box_blur_total`: a value outside 0..255 stored into a `png_byte` is not
  modelled. Every written value being a byte is the precondition `TotalInRange` (carried in
  `FullPassDefined` and `GaussianDefined`).
- Integer overflow: `12 * sigma * sigma` and the `const_a` terms are bounded by `NoOverflow`, and
  `width * height` by `Int32Max`. Within those bounds, no 32-bit wrap-around is modelled.
- Memory management: `new`/`delete[]` and allocation failure are not modelled. The planes are
  fresh Dafny arrays.
- Radius bounds: `box_blur_horizontal` needs `2r + 1 <= w` and `box_blur_total` needs `r < h`
  (`BoxBlurHorizontal`, `BoxBlurTotal`, `FullPassDefined`, `GaussianDefined`). The source does not
  check them; outside them it reads past the plane (`scl[ti + 2r]` in the last row, `scl[i + r*w]`).
  That is undefined behaviour, and the model does not describe it. `process` reaches it, for
  example with radius 2 (pass radius 1) on an image 2 pixels wide.
- Bit depth 8 only: `process` is modelled over rows of exactly `width * channels` bytes. A 16-bit
  image read with `PNG_TRANSFORM_IDENTITY` has rows of `2 * width * channels` bytes. The source's
  loops then treat the first half of each row as 8-bit samples and leave the rest as it was. The
  model does not describe those images.
- `channels` is restricted to 3 or 4, because the unpack and repack loops access bytes `j + 1` and
  `j + 2` unconditionally.
- Process.Process: does not state that no plane is allocated before the early return, because
  allocation is not observable in the model beyond `fresh`.
