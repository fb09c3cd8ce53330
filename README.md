# Adaptive block-quantisation compressor — Dafny model

The image compressor's GUI hands a decoded RGB image to a block filter. The
filter is the only real computation in the program, and it appears twice,
once in each GUI script: `code.py:180-213` and, line for line,
`together_new.py:173-206` (each line of the second is the same line of the
first shifted up by seven). The filter works in these steps:

1. It widens the 8-bit samples to floating point.
2. It crops the H×W×3 buffer down to whole multiples of the block size.
3. It copies the cropped buffer into an output buffer.
4. It walks the non-overlapping bs×bs blocks in row-major order with two
   nested loops. For each block it takes the population variance of all
   bs·bs·3 samples together.
5. When that variance is strictly below the threshold, it overwrites the
   block in the output with the block's per-channel mean colour. Otherwise
   the block stays as copied.
6. After each row-band of blocks it reports the progress value
   `int(100 * i / H)`. After saving it reports 100.
7. It casts the output buffer to 8 bits.

The model follows the program's own structure:

- `Arithmetic` holds `AlignDown(x, bs) = x - x % bs`. This is the cropped
  size, and it is also the top-left corner of the block that holds a pixel.
- `Grids` holds the H×W×C buffers and the crop.
- `Statistics` holds the mean and the population variance (ddof = 0) over
  exact reals.
- `Quantizer` states, as pure functions, what the filter computes:
  - the block slice;
  - its joint variance and per-channel mean colour;
  - the output pixel;
  - the whole output buffer, `Quantize`.
- `BlockScan` describes the order of the two nested loops (`Scan`, `Band`).
- `Progress` describes the progress values the loops send.
- `Pipeline` is the whole compression as a function of the 8-bit input,
  `Compress`, with its 8-bit cast.
- `Compressor` is the program as it runs. The output buffer is an
  `array3<real>`:
  - `CopyToBuffer` fills it from the input, like `np.copy`.
  - `ProcessBlock` overwrites one block by slice assignment.
  - The loops of `ProcessBand` (inner) and `QuantizeInPlace` (outer) visit
    the blocks and collect the progress values.
  - `CastToUint8` produces the 8-bit array.
  - Each method is proved against the functions above. The final buffer is
    `Quantize` of the input, the visited blocks are `Scan`, the progress
    values are `BandReports`, and `CompressImage` returns exactly
    `Compress(img)` with the progress list `Reported`.

A block's collapse decision reads only the cropped input `g`, never the
output buffer. Processing one block changes no sample outside it
(`ProcessBlock`).

Re-applying the filter changes nothing, and the reason is not that a
collapsed block has variance 0. The joint variance of a one-colour block
mixes its three channel values, so it is the variance of those three values
and is usually positive. Instead, each block of an output is a fixed point
of both branches:
- a collapsed block has one colour, so its mean colour is itself;
- a block left as copied still has the variance that kept it.

So the property holds for every threshold, on the real-valued buffer
(`Quantize`) and on the 8-bit image the program saves (`Compress`).

## Model

| member | source | states |
|---|---|---|
| Arithmetic.AlignDown | code.py:185-186 | `H - H % bs` is a multiple of bs, at most H, and more than H - bs (together_new.py:178-179) |
| Grids.Crop | code.py:185-187 | the cropped buffer has AlignDown(H) rows, AlignDown(W) columns and three samples per pixel, and is the top-left part of the input, pixel for pixel (together_new.py:178-180) |
| Pipeline.Widen | code.py:181 | the float32 buffer has the input's shape and holds each 8-bit sample's exact value (together_new.py:174) |
| Pipeline.Cropped | code.py:181-187 | the buffer the filter works on has whole blocks in both directions, samples in [0, 255], the cropped shape, and the widened input's pixels (together_new.py:174-180) |
| Quantizer.BlockAt | code.py:195 | the slice `img_array[i:i+bs, j:j+bs, :]` is bs×bs, and its pixel (t, u) is input pixel (i+t, j+u) (together_new.py:188) |
| Quantizer.Samples | code.py:196 | the samples `np.var` takes one variance over: every sample of every pixel and channel of the block, |b|·Width(b)·3 of them (bs·bs·3 for a block), at least one for a non-empty block (together_new.py:189) |
| Quantizer.BlockVariance | code.py:196 | the joint population variance (divisor = sample count, ddof = 0) of all bs·bs·3 samples of the block, one number for all channels, never negative (together_new.py:189) |
| Quantizer.Collapses | code.py:198 | the collapse test is variance strictly below the integer threshold; since no variance is negative, only a positive threshold collapses anything (together_new.py:191) |
| Quantizer.MeanColour | code.py:201 | `np.mean(block, axis=(0, 1))`: one mean per channel over all pixels of the block, three values (together_new.py:194) |
| Quantizer.QuantizedPixel | code.py:198-208 | the output pixel at (r, c) has three channels: the mean colour of the block holding (r, c) when that block collapses, the input pixel otherwise (together_new.py:191-201) |
| Quantizer.OriginOf | code.py:193-195 | the block that holds pixel (r, c) starts at (AlignDown(r), AlignDown(c)) and lies inside the cropped buffer |
| Quantizer.Quantize | code.py:190-208 | the output buffer of the filter has the input's shape and whole blocks (together_new.py:183-201) |
| Quantizer.CollapsedBlock | code.py:196-205 | a block whose joint variance over all bs·bs·3 samples is below the threshold has every output pixel equal to its per-channel mean colour (together_new.py:189-198) |
| Quantizer.PassedBlock | code.py:198 | a block whose variance is at or above the threshold, equality included, is identical in the output to the input block (together_new.py:191, 200-201) |
| Quantizer.MeanColourWithin | code.py:201 | each per-channel mean of samples in [lo, hi] lies in [lo, hi] (together_new.py:194) |
| Quantizer.QuantizeWithin | code.py:201-205 | if every input sample lies in [lo, hi], so does every output sample, so [0, 255] is kept |
| Quantizer.UniformMean | code.py:201 | the mean colour of a one-colour block is that colour |
| Quantizer.SettledIsFixed | code.py:196-208 | a buffer whose every block is one colour or not below the threshold is left unchanged by the filter |
| Quantizer.QuantizeSettles | code.py:196-208 | every block of the filter's output is one colour or not below the threshold |
| Quantizer.QuantizeIdempotent | code.py:190-208 | filtering the filtered buffer again gives the same buffer, for every threshold |
| Quantizer.NonPositiveThresholdKeepsAll | code.py:198 | with a threshold of 0 or less no block collapses and the output equals the input |
| Statistics.MeanWithin | code.py:201 | the mean of samples in [lo, hi] lies in [lo, hi] |
| Statistics.MeanOfConstant | code.py:201 | the mean of samples all equal to v is v |
| Statistics.VarianceNonNegative | code.py:196 | the population variance is never negative (together_new.py:189) |
| BlockScan.Band | code.py:194 | the inner loop `for j in range(0, W, bs)` for row-band i: the origins (i, 0), (i, bs), ... in order, all in row i and columns below W (together_new.py:187) |
| BlockScan.Scan | code.py:193-194 | the two nested loops: the bands of the rows i = 0, bs, ... below H, one after another, every origin in rows below H and columns below W (together_new.py:186-187) |
| BlockScan.ScanRowMajor | code.py:193-194 | the nested loops visit block origins in strictly increasing row-major order, so no block twice (together_new.py:186-187) |
| BlockScan.ScanCovers | code.py:193-194 | the loops visit exactly the origins (x, y) with x < H, y < W on the block grid: both directions of the iff (together_new.py:186-187) |
| BlockScan.OneBlockPerPixel | code.py:195 | a visited block contains pixel (r, c) exactly when it is the block at (AlignDown(r), AlignDown(c)), so blocks do not overlap |
| BlockScan.PixelBlockVisited | code.py:193-195 | the block that contains any pixel of the cropped buffer is visited |
| Progress.BandReports | code.py:193-209 | the value `int(100*i/H)` sent after each row-band i = start, start + bs, ... below H, in loop order; each lies in [0, 100) and is at least the value for the first band (together_new.py:186-202) |
| Progress.Reported | code.py:209-218 | everything the progress bar receives: the per-band values, then 100 as the last value (together_new.py:202-211) |
| Progress.BandReportsNonDecreasing | code.py:209-210 | the per-band values never decrease (together_new.py:202-203) |
| Progress.ReportedProgress | code.py:218 | everything the progress bar gets lies in [0, 100], never decreases and ends with 100; with no band the 100 is the only value, once the save has succeeded (together_new.py:211) |
| Pipeline.ToUint8 | code.py:213 | the cast of a sample in [0, 256) is an integer in [0, 255] at most the sample and more than the sample minus 1: truncation without wrap-around (together_new.py:206) |
| Pipeline.Narrow | code.py:213 | the cast buffer has the same shape and every sample is the truncated float sample |
| Pipeline.NarrowWiden | code.py:181 | casting a widened 8-bit image back to 8 bits gives the same image |
| Pipeline.Compress | code.py:180-213 | the 8-bit output has shape (H - H % bs, W - W % bs, 3) with samples in [0, 255] (together_new.py:173-206) |
| Pipeline.CompressCollapsed | code.py:198-213 | in the 8-bit output a collapsed block holds, at every pixel, the truncated per-channel mean of the input block |
| Pipeline.CompressPassed | code.py:207-213 | in the 8-bit output a block not below the threshold equals the input block byte for byte |
| Pipeline.CompressCollapsedUniform | code.py:205-213 | in the 8-bit output every pixel of a collapsed block has the same colour |
| Pipeline.CompressedBlockSettled | code.py:196-213 | every block of the widened 8-bit output is one colour or not below the threshold |
| Pipeline.CompressIdempotent | code.py:180-213 | compressing the 8-bit output again gives the same 8-bit output, for every threshold |
| Pipeline.SmallImageIsEmpty | code.py:185-193 | an image smaller than one block in either direction gives an output without pixels, and no block is visited (together_new.py:178-186) |
| Compressor.CopyToBuffer | code.py:190 | the fresh output buffer has the cropped shape and holds the input sample by sample (together_new.py:183) |
| Compressor.ProcessBlock | code.py:195-205 | after one iteration of the inner loop, the block at (i, j) holds the filter's output and every sample outside it is unchanged (together_new.py:188-198) |
| Compressor.ProcessBand | code.py:194-208 | after the inner loop for row-band i, the band holds the filter's output, rows outside the band are unchanged, and the blocks visited are the band's origins left to right (together_new.py:187-201) |
| Compressor.QuantizeInPlace | code.py:193-210 | after the nested loops the buffer equals the filter's output, the blocks visited are exactly `Scan`, and the progress values are `int(100*i/H)` per band (together_new.py:186-203) |
| Compressor.CastToUint8 | code.py:213 | the fresh 8-bit array has the buffer's shape and holds each sample truncated (together_new.py:206) |
| Compressor.CompressImage | code.py:180-218 | the array handed to the encoder is, sample by sample, `Compress` of the input, with the cropped shape; the progress bar gets the per-band values and then 100 (together_new.py:173-211) |

The block size and the threshold come from the GUI: the block sizes 2, 4,
8, 16 and 32 (`code.py:34`) and an integer slider value from 100 to 2500
(`code.py:36-37`, `code.py:165`). The model allows any block size above 0
and any integer threshold. Every property above holds at that generality.

## Left out

- The GUI is not modelled: the window, the event loop, the image preview,
  the overwrite dialog, status text and button states. It is user-interface
  plumbing around the filter.
- Image decoding and encoding are not modelled: `Image.open(...).convert("RGB")`,
  `Image.fromarray` and the JPEG save with quality 50. They are calls into
  an external library. The model starts from the decoded 8-bit RGB pixels
  (`Pipeline.Raster`) and ends with the 8-bit array given to the encoder.
- File sizes, the compression percentage and the timer are not modelled.
  They are file-system I/O, a clock, and floating-point reporting.
- The exception handler is not modelled, including the `total_time` it may
  reference before assignment. Any exception raised in the compression block
  (code.py:176-232) jumps to it (code.py:233-234). That skips the rest of
  the block, including the final progress value and the size report.
- Compressor.CompressImage: treats the JPEG save (code.py:214-217,
  together_new.py:207-210) as always succeeding, so its progress list
  always ends with 100. In the program the final 100 (code.py:218,
  together_new.py:211) is sent only when `Image.fromarray` and `save` do not
  raise. When the encoder refuses the output, for instance one without
  pixels, the bar gets no 100. Progress.ReportedProgress's clause for an
  image with no row-band rests on the same assumption.
- Float32 rounding is not modelled. numpy computes the mean and the
  variance in float32, while the model uses exact reals. Near the
  threshold, a block whose rounded float32 variance lands on the other side
  of it is decided differently. A mean colour whose float32 value rounds
  across an integer truncates differently too.
- Pipeline.ToUint8: requires its sample to lie in [0, 256). The samples that
  reach the cast always do (Quantizer.QuantizeWithin). The out-of-range
  wrap-around of `astype(np.uint8)` is therefore not modelled.
- Progress.BandReports: the program computes the progress value
  `int(100 * i / H)` with float division; the model uses integer division. The two agree because the
  dividend is not negative and, for heights far below 2^53, the float
  quotient is never rounded across an integer.
- The progress bar's own display is a GUI call, so the model records the
  values it receives as a sequence.
- The visited-block list of Compressor.QuantizeInPlace and
  Compressor.ProcessBand is a ghost result. The program has no such list;
  the order is that of its two `for` loops.
