# Depth post-processing of the IntelPXCTest capture loop

The capture program opens a colour stream and a depth stream from a
depth camera and runs a frame loop. On every 150th frame it saves two
files. `color_<n>.bin` holds the raw colour plane with three bytes per
pixel. `depth_<n>.bin` holds the depth plane after a range filter: every
sample in the inclusive range [150, 2000] is kept, and every other sample
becomes the sentinel -1. The file number `<n>` is the decimal text of
`i / 150`, where `i` is the frame counter. Both files have the same
layout: a width field, a height field, then `width * height * depth`
buffer elements.

A second branch of the code is compiled only when `MAP_TO_COLOR` is
defined. In that branch a grid of points is laid down, one point per
colour pixel. A calibrated projection (vendor code) then overwrites each
point with a position in the depth image. Each colour pixel takes the
filtered depth sample at that position, or -1 when the position fails a
bounds test. That branch would not compile as written: inside the save
block, the `stringstream ss` of main.cpp:46 hides the session pointer `ss`
of main.cpp:33, so the call `ss->DynamicCast` at main.cpp:124 does not
resolve.

This project models those parts as stand-alone operations over integer
buffers:

- `Grid` holds the row-major index arithmetic. Pixel (row `i`, column
  `j`) of an image `w` pixels wide is at index `i * w + j`.
- `DepthFilter` holds the range filter and the native-resolution loop.
  The loop is the compiled branch. It uses nested row and column loops
  with a running index and a read position that advances once per sample.
- `Projection` holds the grid initialisation and the colour-aligned
  lookup. There are two versions of the lookup: the one the code contains
  (`ProjectDepth`) and a corrected one (`ProjectDepthChecked`). See
  "## Findings".
- `FrameDump` holds the logical layout `dump2file` writes. `Undump` is a
  reader for that layout, and two lemmas show the layout round-trips in
  both directions.
- `Capture` holds the save cadence, the decimal index text and the file
  names. It also has one loop iteration (`CaptureFrame`) and the frame
  loop over a finite sequence of acquired frames (`CaptureSession`). The
  loop never reuses a file name.

Some things the code does not do, so the model does not do them either:

- There are no hole-filling passes.
- There is no minimum-depth collision resolution. The depth-to-colour
  scatter is compiled out (`#if 0`), and in it the last write wins.
- The only invalid-cell marker is exactly -1, and the usable range is
  [150, 2000]. No other value (such as 0) marks a cell as invalid.
- The dimension fields are written as native `int`s, in no specified
  byte order.

The planes the code acquires with read access (the colour bytes and the
depth samples) are sequence values, because the code only reads them.
The buffers the code allocates and fills (the depth image and the grid
of points) are arrays, written in place.

Depth samples are 16-bit signed integers (`int16`). The output buffers in
the source are `float`s, but every value stored there is a whole number:
either a 16-bit sample or -1. The model therefore stores them as `int`,
and it is exact.

## Model

| member | source | states |
|---|---|---|
| DepthFilter.RangeFilter | IntelPerceptualTest/IntelPerceptualTest/main.cpp:178-183 | the result is -1 or lies in [150, 2000]; a sample in that range passes unchanged; any other sample becomes -1 (the range test `InRange` uses the thresholds of lines 88-89 and the comparison of line 180) |
| DepthFilter.FilterSample | IntelPerceptualTest/IntelPerceptualTest/main.cpp:178-183 | the loop body for one sample (widen, then the range test) computes exactly the range filter of that sample |
| DepthFilter.FilterRow | IntelPerceptualTest/IntelPerceptualTest/main.cpp:177-188 | one pass of the inner loop: the cells of row i, which still hold -1, get the filtered samples at the same indices; the read position advances by exactly one row; every later cell still holds -1 |
| DepthFilter.FilteredFrame | IntelPerceptualTest/IntelPerceptualTest/main.cpp:176-190 | the filtered frame has one cell per sample; cell k is the filter applied to sample k and to no other sample |
| DepthFilter.FilteredFrameCells | IntelPerceptualTest/IntelPerceptualTest/main.cpp:171-190 | every filtered cell is -1 or an in-range depth; a cell is -1 exactly when its sample is out of range; otherwise it equals its sample |
| DepthFilter.FilteredFrameOf | IntelPerceptualTest/IntelPerceptualTest/main.cpp:176-189 | a buffer whose every cell is the filter applied to the sample at the same index is the filtered frame |
| DepthFilter.RangeFilterIdempotent | IntelPerceptualTest/IntelPerceptualTest/main.cpp:148-158 | filtering a filtered value changes nothing, so the -1 set for a point that fails the bounds test stays -1 through the range test |
| DepthFilter.FilterDepth | IntelPerceptualTest/IntelPerceptualTest/main.cpp:171-190 | the output buffer is new and has exactly width*height cells; the row loop keeps every cell it has not reached at -1, the initial value of line 171, and keeps the read position equal to i*width; at the end the buffer equals the filtered frame of the first width*height samples, and every cell is -1 or in [150, 2000] |
| Grid.RowMajorInside | IntelPerceptualTest/IntelPerceptualTest/main.cpp:176-177 | an index i*width + j with i < height and j < width lies inside a buffer of width*height cells |
| Grid.RowMajorSplit | IntelPerceptualTest/IntelPerceptualTest/main.cpp:129-130 | the row-major index i*width + j gives back row i and column j by division and remainder |
| Projection.GridPoint | IntelPerceptualTest/IntelPerceptualTest/main.cpp:131-133 | the grid point for index k is a column in [0, width) and a row whose row-major index is k again |
| Projection.GridPointRowMajor | IntelPerceptualTest/IntelPerceptualTest/main.cpp:129-135 | for every colour pixel (i, j), index i*width + j is inside the grid and holds the point (x = j, y = i) |
| Projection.InitGrid | IntelPerceptualTest/IntelPerceptualTest/main.cpp:128-135 | the grid is new, has width*height points, and every point holds its own column and row before the projection call at line 140 overwrites it in place |
| Projection.LookedUp | IntelPerceptualTest/IntelPerceptualTest/main.cpp:145-162 | a mapped point with x < 0, y < 0, x >= colour width or y >= colour height - 1 yields -1; any other point yields sample y*depthWidth + x when it is in range and -1 when it is not; the result is always -1 or in [150, 2000] (the bounds test of line 148 is `ColorGuard`, the read index of line 152 is `DepthIndex`) |
| Projection.LookUpPixel | IntelPerceptualTest/IntelPerceptualTest/main.cpp:145-158 | the as-written loop body for one colour pixel (bounds test, read, range test) computes exactly the as-written per-point lookup |
| Projection.ProjectDepth | IntelPerceptualTest/IntelPerceptualTest/main.cpp:143-163 | the lookup loop as written: a new buffer with one cell per colour pixel, cell k is what mapped point k yields, every cell is -1 or in range; the loops keep every cell not reached yet at -1, the initial value of line 93; an explicit precondition requires every point that passes the colour bounds test to read inside the depth buffer |
| Projection.ColorGuardOverrunsDepthBuffer | IntelPerceptualTest/IntelPerceptualTest/main.cpp:148-153 | whenever the colour image is wider and taller than the depth image, the point (colour width - 1, depth height - 1) passes the bounds test and reads at or past the end of the depth buffer |
| Projection.DepthGuardReadsInside | IntelPerceptualTest/IntelPerceptualTest/main.cpp:148-153 | with the test taken against the depth dimensions, every point that passes reads inside the depth buffer |
| Projection.LookedUpChecked | IntelPerceptualTest/IntelPerceptualTest/main.cpp:145-162 | the corrected per-point lookup: -1 for a point outside the depth grid (its last row excluded, as in the source); otherwise the filtered sample at an index proved inside the buffer |
| Projection.LookedUpCheckedAgrees | IntelPerceptualTest/IntelPerceptualTest/main.cpp:148-153 | when the colour and depth grids have the same size, the as-written lookup reads inside the buffer and agrees with the corrected one |
| Projection.LookUpPixelChecked | IntelPerceptualTest/IntelPerceptualTest/main.cpp:145-158 | the corrected loop body for one colour pixel computes exactly the corrected per-point lookup; it needs only a depth buffer of depthW*depthH samples, whatever the point |
| Projection.ProjectDepthChecked | IntelPerceptualTest/IntelPerceptualTest/main.cpp:143-163 | the corrected lookup loop: a new buffer with one cell per colour pixel, cell k is the corrected lookup of mapped point k, every cell is -1 or in range, cells not reached yet stay at -1 (line 93), and no read leaves the depth buffer whatever points the projection returned |
| FrameDump.Elems | IntelPerceptualTest/IntelPerceptualTest/main.cpp:22 | the buffer elements are written one item per element, in buffer order |
| FrameDump.Dump | IntelPerceptualTest/IntelPerceptualTest/main.cpp:17-24 | a dump is the width field, the height field, then exactly width*height*depth items that are the buffer's first elements in order, and nothing after them |
| FrameDump.UnElemsElems | IntelPerceptualTest/IntelPerceptualTest/main.cpp:22 | reading back the written elements gives the elements |
| FrameDump.ElemsUnElems | IntelPerceptualTest/IntelPerceptualTest/main.cpp:22 | a readable run of element items is exactly the run written for the elements it reads as |
| FrameDump.UndumpDump | IntelPerceptualTest/IntelPerceptualTest/main.cpp:18-22 | reading a dump with the same depth gives back its width, its height and the dumped elements |
| FrameDump.DumpUndump | IntelPerceptualTest/IntelPerceptualTest/main.cpp:18-22 | every readable dump is exactly the dump of what it reads as: the layout has no other encoding and no trailing items |
| Capture.Digit | IntelPerceptualTest/IntelPerceptualTest/main.cpp:47 | one decimal digit character has the digit's value |
| Capture.Decimal | IntelPerceptualTest/IntelPerceptualTest/main.cpp:46-49 | the index text is non-empty, made of decimal digits only, and has no leading zero unless the number is zero |
| Capture.ParseDecimalInverts | IntelPerceptualTest/IntelPerceptualTest/main.cpp:46-49 | the index text reads back as the number it was written from |
| Capture.DecimalInjective | IntelPerceptualTest/IntelPerceptualTest/main.cpp:46-49 | different file indices give different index texts |
| Capture.NameDeterminesIndex | IntelPerceptualTest/IntelPerceptualTest/main.cpp:73 | a name of the form prefix + text + ".bin" determines its text |
| Capture.CaptureNamesDistinct | IntelPerceptualTest/IntelPerceptualTest/main.cpp:45-49 | two different saved frames never share a colour file name or a depth file name, and no colour file name is a depth file name (the saved test `ShouldCapture` is line 45; the index `FileIndex` is i / 150 of line 47, written as text by `IndexString` at lines 46-49; `ColorFileName` is the name of line 73 and `DepthFileName` the name of line 192) |
| Capture.CapturesBeforeCount | IntelPerceptualTest/IntelPerceptualTest/main.cpp:39-45 | among the frames 0 .. n-1, exactly ceil(n / 150) are saved |
| Capture.FileIndexCountsCaptures | IntelPerceptualTest/IntelPerceptualTest/main.cpp:45-47 | a saved frame's file index i / 150 equals the number of frames saved before it, so the saved files are numbered 0, 1, 2, ... without gaps |
| Capture.SavedAs | IntelPerceptualTest/IntelPerceptualTest/main.cpp:69-73 | frame i is saved under the names color_<i/150>.bin and depth_<i/150>.bin, as the dump of its colour plane with 3 elements per pixel and the dump of its range-filtered depth plane with 1 (depth dump at lines 171-192) |
| Capture.SavedAsReadsBack | IntelPerceptualTest/IntelPerceptualTest/main.cpp:69-73 | the saved colour file reads back as the colour plane's first width*height*3 bytes with its dimensions, and the saved depth file as the range-filtered depth plane with its dimensions |
| Capture.CaptureFrame | IntelPerceptualTest/IntelPerceptualTest/main.cpp:45-73 | frame i produces files exactly when it passes `ShouldCapture`, i % 150 == 0 (line 45), and then exactly the pair SavedAs describes (filter and depth dump at lines 171-192) |
| Capture.CaptureSession | IntelPerceptualTest/IntelPerceptualTest/main.cpp:39-49 | over n acquired frames, ceil(n / 150) pairs are saved; the k-th comes from frame 150*k; no two saved files share a name |
| Capture.SavedNamesDistinct | IntelPerceptualTest/IntelPerceptualTest/main.cpp:45-49 | pairs saved from frames 0, 150, 300, ... never share a colour or depth file name |

## Findings

| source | as written | input that shows it | evidently intended | confidence | as-written member | corrected member |
|---|---|---|---|---|---|---|
| IntelPerceptualTest/IntelPerceptualTest/main.cpp:148-153 | the test on a mapped point uses the colour width and the colour height less one, but the read indexes the depth buffer with `y * depthWidth + x` | colour 4x4, depth 2x2, mapped point (3, 1): the point passes the test and the code reads sample 1*2 + 3 = 5 of a 4-sample buffer | test the point against the depth dimensions the read uses | not executed; medium (the branch is compiled out, the projection it follows is unimplemented, and the branch would not compile as written because the `stringstream ss` of line 46 hides the session pointer used at line 124, so the overrun cannot occur in any build) | Projection.ColorGuardOverrunsDepthBuffer | Projection.ProjectDepthChecked |

`Projection.ProjectDepth` is the code as written. It can only be stated
with a precondition that rules out such reads. `Projection.ProjectDepthChecked`
is the model's colour-aligned lookup and needs no precondition on the
points. It keeps the source's exclusion of the last row, which may be
deliberate.

## Left out

- Device and session setup, frame acquisition and release, and the
  busy-wait `AcquireAccess` retries (main.cpp:28-42, 58-60, 75, 81-83,
  195, 201-203) are vendor I/O and blocking calls. `CaptureSession` takes
  the acquired frames as a finite sequence.
- The two `RenderFrame` calls that can also end the loop (main.cpp:36-37,
  198-199) are left out. They do not affect what a processed frame
  saves. The progress output (main.cpp:51, 164) is left out too.
- The format assertions (main.cpp:57, 80) are left out: they check the
  vendor's pixel formats.
- File creation and the byte-level writes (main.cpp:19-23) are left out.
  The model keeps only the logical layout: two dimension fields, then the
  elements. It does not model native byte order, element sizes or OS file
  behaviour.
- The serializable projection and `MapColorCoordinatesToDepth`
  (main.cpp:118-140) are vendor calls, and the source marks the latter as
  unimplemented. Their output, the overwritten points, is the `posd` input
  of the lookup methods.
- The float representation of points and the float-to-int truncation of
  mapped coordinates (main.cpp:131-133, 146) are left out. The points are
  integers here.
- The compiled-out scatter loop (main.cpp:94-116) and the compiled-out
  row-by-row colour copy (main.cpp:64-67) are dead code. The colour copy
  that is compiled (main.cpp:69) is modelled as taking the first
  width*height*3 bytes of the colour plane.
- The single `depth.bin` save of the projected branch (main.cpp:169) is
  not composed into `CaptureFrame`. That branch is not compiled, and
  `CaptureFrame` models the branch that is.
- The frame counter is a 32-bit `int` and would overflow after about
  2^31 frames. The model's counter is unbounded.
- FilterDepth: the samples are a sequence value, so "the samples are
  never written" holds by construction and is not stated as an `ensures`.
  The model does not capture the pointer aliasing of the source.
- ProjectDepth: it requires every point that passes the colour bounds
  test to read inside the depth buffer. The source performs no such check
  and reads out of bounds otherwise (see "## Findings").
