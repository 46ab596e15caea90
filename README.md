# maskfill, modelled in Dafny

maskfill fills the masked (bad) pixels of a 2D image. The masked pixels are set to NaN. Every NaN pixel that has a valid neighbour is then replaced by the median or mean of the valid values in the square window around it. This repeats, layer by layer, until no NaN is left. An optional last pass replaces every masked pixel by the mean of its window in the filled image.

The repository has two implementations, and they behave differently. This project models each one as written:

- **The package function**, `maskfill/maskfill.py`:
  - `find_nan_indices` finds the boundary cells.
  - `process_masked_pixels` updates a buffer in place, reading from a NaN-padded snapshot.
  - `maskfill` selects the operator, runs the fill loop and the smoothing pass, and returns the pair of outputs.
- **The original script**, root `maskfill.py`:
  - `nan_filter` writes a fresh copy.
  - `main` runs the fill loop against the initial image and pastes the result back into the original image.

The model is split into four files:

- `pixels.dfy` (module `Pixels`):
  - A pixel is `Cell = NaN | Val(v: real)`.
  - It defines numpy's `nanmean` and `nanmedian` over the valid values of a window. The median is the middle sorted value, or the average of the two middle values when the count is even.
  - `Reduce` gives the operator's value, or NaN for an empty window.
- `grids.dfy` (module `Grids`):
  - Grids are `seq<seq<Cell>>`. Off-grid positions read as NaN, which is what the NaN padding does.
  - Windows, and the convolution count of valid neighbours.
  - `argwhere` in row-major order.
  - The connectivity lemma that keeps the fill loops going.
  - The bridge between an `array2<Cell>` and its contents.
- `maskfill.dfy` (module `MaskFill`): the package version.
  - The reducer is a method on an `array2`. It is proved against the function `Processed`.
  - The fill loop is a `while` loop proved against the recursive specification `Fill`. `Fill` terminates on the number of NaN cells.
- `legacy.dfy` (module `LegacyScript`): the script.
  - `nan_filter` is a method with nested `for` loops over a fresh `array2`. It is proved against `Filtered`.
  - `main`'s loop is a method proved against `LegacyLoop`.

Where the code and its description disagree, the model follows the code:

- Neither version detects a lack of progress or caps the number of iterations. An image whose unmasked part has no valid pixel makes both loops run forever. The model therefore requires such a pixel (`Seeded`).
- Neither version rejects an even size. Window width `2*(size//2)+1` makes an even size behave as the next odd one.
- When a mask is given, `process_masked_pixels` rewrites every mask-true cell, NaN or not. A target whose window holds no valid value is written as NaN; the guard against that is commented out.
- The script is not equivalent to the package. Each pass of `nan_filter` also re-filters every pixel that was never masked (maskfill.py:31), and those smoothed values feed the windows of later passes. Only the final paste restores them.

## Model

| member | source | states |
|---|---|---|
| Pixels.MeanOf | maskfill.py:32 | nanmean: the sum of the valid values over their count; values that are all the same give that value. |
| Pixels.Sort | maskfill/maskfill.py:72-75 | The values nanmedian orders: the result is sorted and a permutation of the input. |
| Pixels.MedianOf | maskfill.py:32 | nanmedian: the middle sorted value, or the mean of the two middle values; values that are all the same give that value. |
| Pixels.Reduce | maskfill/maskfill.py:72-75 | The operator gives a value exactly when the window holds at least one valid value, and NaN otherwise (nanmean/nanmedian of an all-NaN window). |
| Pixels.MeanWithin | maskfill.py:32 | The mean of the valid values lies between any lower and upper bound of those values. |
| Pixels.MedianWithin | maskfill.py:32 | The median, including the average of the two middle values, lies between any bounds of the values. |
| Pixels.ReduceWithin | maskfill/maskfill.py:72-75 | Whatever the operator, a non-empty window yields a value within the bounds of its valid values; a window of equal values yields that value. |
| Pixels.MedianOrderFree | maskfill/maskfill.py:72-75 | The median depends only on the multiset of window values, not on the order in which the window is flattened. |
| Pixels.MedianOfSorted | maskfill/maskfill.py:72-75 | For values already in order the median is the middle value, or the average of the two middle values when the count is even. |
| Pixels.PairExample | tests/test_maskfill.py:173-189 | The median of two values a <= b is their average, and so is their mean (so [1, 3] gives 2). |
| Grids.At | maskfill/maskfill.py:63 | The NaN padding: every position off the grid reads as NaN. |
| Grids.Masked | maskfill/maskfill.py:148 | `output[mask] = np.nan` on a copy (and the script's `np.where(mask, np.nan, im)`, maskfill.py:54): the image's shape, with every mask-true pixel NaN and the rest unchanged. |
| Grids.WindowValues | maskfill/maskfill.py:71-73 | The valid values of the (2h+1)-square window of the padded image centred on a cell (its meaning is stated by WindowCount and WindowMembers). |
| Grids.WindowCount | maskfill/maskfill.py:71-75 | The window hands the operator exactly as many values as there are valid cells within Chebyshev distance h, the centre included: one value per cell, none for padding. |
| Grids.BlockCellsOrdered | maskfill/maskfill.py:71-73 | The cells of a window, flattened row by row, are exactly its valid in-grid cells, in strictly increasing row-major order. |
| Grids.RowMajorSize | maskfill/maskfill.py:71-73 | A list of cells in strictly increasing row-major order has no repeats: its set of cells is as large as the list. |
| Grids.NeighbourCount | maskfill/maskfill.py:27-31 | The convolution with a ones kernel whose centre is zero; never negative. |
| Grids.NeighbourCountIs | maskfill/maskfill.py:26-31 | The convolution count at a cell is exactly the number of valid cells within distance h other than the cell itself, with off-grid cells (fillvalue 0) counting as invalid. |
| Grids.IsFrontier | maskfill/maskfill.py:33-34 | A NaN cell with a positive neighbour count; its window always holds a valid value, so the operator fills it. |
| Grids.WindowMembers | maskfill/maskfill.py:63-73 | A value is in a cell's window exactly when some cell within Chebyshev distance h, the centre included, holds it; off-grid (padding) cells hold nothing. |
| Grids.WindowNonEmpty | maskfill/maskfill.py:72-75 | A window is non-empty exactly when some cell within distance h is valid. |
| Grids.WindowWidens | maskfill.py:21-28 | A window that holds a valid value still holds one when it is widened, so any size of at least 2 sees every valid 8-neighbour. |
| Grids.FrontierIff | maskfill/maskfill.py:24-34 | A cell counts as a boundary cell exactly when it is NaN and some other cell within distance h is valid: the convolution count excludes the centre and treats off-grid cells as NaN. |
| Grids.CellsWhere | maskfill/maskfill.py:34 | The cells listed are exactly the in-grid cells satisfying the predicate, in strictly increasing row-major order (argwhere's order, no repeats). |
| Grids.FewerNaNs | maskfill/maskfill.py:153-156 | A pass that keeps every valid cell valid and fills one NaN cell strictly lowers the number of NaN cells. |
| Grids.ReachAll | maskfill/maskfill.py:153-156 | In a grid with a valid cell every cell lies within Chebyshev distance max(H, W) - 1 of a valid cell. |
| Grids.ReachShrinks | maskfill/maskfill.py:153-156 | A pass that keeps valid cells valid and fills every NaN cell with a valid 8-neighbour brings every cell one step closer to a valid cell. |
| Grids.FrontierCell | maskfill/maskfill.py:153-156 | A grid with both a NaN cell and a valid cell has a NaN cell with a valid 8-neighbour, so the fill loops always make progress. |
| Grids.FromGrid | maskfill/maskfill.py:147 | A fresh array holding exactly the given grid (np.copy). |
| MaskFill.ParseOperator | maskfill/maskfill.py:126-131 | "median" selects the median, "mean" the mean, and every other string is an error. |
| MaskFill.MaskIndices | maskfill/maskfill.py:64-65 | Exactly the mask-true cells, in row-major order. |
| MaskFill.FindNanIndices | maskfill/maskfill.py:8-36 | Exactly the in-grid cells that are NaN and have a valid cell other than themselves within window_size//2, in row-major order without repeats. |
| MaskFill.CornerExample | tests/test_maskfill.py:27-38 | In a 3x3 grid whose only valid pixel, of any value, is the top-left corner, window 3 returns exactly [(0, 1), (1, 0), (1, 1)]. |
| MaskFill.CornerWideExample | tests/test_maskfill.py:41-58 | With window 5, or any larger odd window, the same grid gives exactly its eight NaN cells in row-major order, [(0, 1), (0, 2), (1, 0), (1, 1), (1, 2), (2, 0), (2, 1), (2, 2)]. |
| MaskFill.Targets | maskfill/maskfill.py:64-67 | The cells to rewrite are in the grid: the mask-true cells with a mask, otherwise the boundary cells at window 3, whatever the padding width later used. |
| MaskFill.Processed | maskfill/maskfill.py:63-75 | The buffer after one call: each target rewritten from the padded snapshot; the grid's shape is kept. |
| MaskFill.ProcessedAt | maskfill/maskfill.py:68-75 | After the pass, a target holds the operator over the valid values of its window in the snapshot; every other cell is unchanged. |
| MaskFill.WriteTargets | maskfill/maskfill.py:68-75 | The loop writes, at each target, the operator over its window in the snapshot, and leaves every other cell as it was. |
| MaskFill.ProcessMaskedPixels | maskfill/maskfill.py:39-77 | The buffer itself is updated to the targets' values computed from the NaN-padded snapshot taken before any write, so no target sees another's new value. |
| MaskFill.Step | maskfill/maskfill.py:156 | One pass of the loop: the call without a mask, on the boundary cells at window 3; the grid's shape is kept. |
| MaskFill.StepEffect | maskfill/maskfill.py:63-75 | A pass without a mask keeps every valid cell, fills every NaN cell that has a valid 8-neighbour, and leaves every other NaN cell NaN: exactly one layer is filled. |
| MaskFill.StepProgress | maskfill/maskfill.py:153-156 | While NaN and valid cells both exist, a pass strictly lowers the number of NaN cells and keeps a valid cell. |
| MaskFill.Fill | maskfill/maskfill.py:153-156 | Passes until no NaN is left; the result has no NaN cell. |
| MaskFill.FillComplete | maskfill/maskfill.py:147-156 | The fill loop ends with the grid's shape, no NaN cell, and every originally valid cell unchanged. |
| MaskFill.Passes | maskfill/maskfill.py:153-162 | The number of passes the while loop makes (the final value of `counter`, less one): none exactly when the masked image has no NaN. |
| MaskFill.PassesClear | maskfill/maskfill.py:153-156 | When every cell is within distance d of a valid cell, at most d passes lead to a grid without NaN. |
| MaskFill.PassesAlong | maskfill/maskfill.py:153-162 | Along passes that end without NaN, the loop started at any grid of the sequence stops by its last grid. |
| MaskFill.PassesBound | maskfill/maskfill.py:153-162 | The loop makes at most max(H, W) passes, and fewer than max(H, W) when there is anything to fill. |
| MaskFill.StepWithin | maskfill/maskfill.py:63-75 | A pass writes only values within the bounds of the values already present. |
| MaskFill.FillWithin | maskfill/maskfill.py:153-156 | Every filled value lies between the smallest and the largest valid input value. |
| MaskFill.SmoothEffect | maskfill/maskfill.py:169 | Smoothing a filled image replaces each mask-true cell by the mean of its window, keeps every other cell, and leaves no NaN. |
| MaskFill.BlankMasked | maskfill/maskfill.py:148 | The buffer becomes the image with every mask-true pixel set to NaN. |
| MaskFill.FilledOutcome | maskfill/maskfill.py:147-156 | The unsmoothed output has the image's shape, no NaN, and the original value at every valid unmasked pixel. |
| MaskFill.SmoothedOutcome | maskfill/maskfill.py:165-169 | The smoothed output has no NaN and agrees with the unsmoothed copy outside the mask. |
| MaskFill.FillLoop | maskfill/maskfill.py:153-156 | The while loop leaves the buffer holding the recursive fill of its initial contents. |
| MaskFill.SmoothingKeeps | maskfill/maskfill.py:165-169 | Smoothing a filled grid with no NaN keeps its shape, leaves no NaN, and changes no unmasked pixel, so the image's valid unmasked pixels survive it. |
| MaskFill.FillResult | maskfill/maskfill.py:147-192 | The returned pair: its first grid has the image's shape, and the second grid is present, with the image's shape, exactly when smoothing is on. |
| MaskFill.FillResultOutcome | maskfill/maskfill.py:147-192 | The first grid of the pair has no NaN and the original value at every valid unmasked pixel; with smoothing the two grids agree outside the mask. |
| MaskFill.FilledBuffer | maskfill/maskfill.py:147-156 | A fresh buffer of the image's dimensions holding the recursive fill of the image with its masked pixels set to NaN. |
| MaskFill.FillAndSmooth | maskfill/maskfill.py:147-192 | The pair computed on the buffer is FillResult's: (smoothed, unsmoothed) with smoothing and (unsmoothed, None) without, the smoothing pass reading the filled buffer and rewriting only mask-true pixels. |
| MaskFill.MaskFill | maskfill/maskfill.py:126-192 | An operator other than mean or median is an error before anything else; otherwise the result is FillResult's pair, whose first grid has the image's shape, no NaN and every valid unmasked pixel, and which agrees with the unsmoothed grid outside the mask when smoothing. |
| LegacyScript.OperatorOf | maskfill.py:32 | The mean exactly when the operator is "mean", otherwise the median. |
| LegacyScript.FilteredCell | maskfill.py:26-32 | The value `nan_filter` writes at one pixel: the operator over its window when the window holds a value and the pixel is NaN or was valid in orgimage, else the pixel as it was; a valid pixel stays valid. |
| LegacyScript.Filtered | maskfill.py:19-34 | The copy `nan_filter` returns, every pixel computed from the input image; the input's shape is kept. |
| LegacyScript.FilteredAt | maskfill.py:26-32 | A cell is rewritten to the operator over its window exactly when the window holds a valid value and the cell is NaN now or was valid in orgimage; otherwise it keeps its value. |
| LegacyScript.EvenSizeAsOdd | maskfill.py:21-28 | An even size filters exactly as the next odd size. |
| LegacyScript.FilterRow | maskfill.py:27-32 | The inner loop rewrites row i from the snapshot and touches no other row. |
| LegacyScript.NanFilter | maskfill.py:6-34 | A fresh array holding the scan of the input, with every window read from the input rather than from the copy being written; neither input array is modified. |
| LegacyScript.FilterEffect | maskfill.py:31 | A scan keeps valid cells valid, fills every NaN cell with a valid 8-neighbour, and never changes a cell that was NaN in orgimage and has been filled. |
| LegacyScript.FilterProgress | maskfill.py:73-77 | While NaN and valid cells both exist, a scan strictly lowers the number of NaN cells and keeps a valid cell. |
| LegacyScript.LegacyLoop | maskfill.py:73-77 | The loop's result has the input's shape and no NaN cell. |
| LegacyScript.LegacyLoopComplete | maskfill.py:26-77 | Through the eligibility rule of maskfill.py:31, a pixel that was masked in the initial image keeps the first value it was filled with through all later scans. |
| LegacyScript.Scans | maskfill.py:73-82 | The number of scans `main`'s while loop makes: none exactly when the masked image has no NaN. |
| LegacyScript.ScansClear | maskfill.py:73-77 | When every cell is within distance d of a valid cell, at most d scans lead to a grid without NaN. |
| LegacyScript.ScansAlong | maskfill.py:73-82 | Along scans that end without NaN, the loop started at any grid of the sequence stops by its last grid. |
| LegacyScript.ScansBound | maskfill.py:73-82 | The loop makes at most max(H, W) scans, and fewer than max(H, W) when there is anything to fill. |
| LegacyScript.FilterWithin | maskfill.py:31-32 | A scan writes only values within the bounds of the values present. |
| LegacyScript.LegacyLoopWithin | maskfill.py:73-77 | Every value the loop produces lies between the smallest and the largest valid input value. |
| LegacyScript.SmoothingScan | maskfill.py:26-34 | As called at maskfill.py:91, with the image as its own orgimage and the mean, every cell whose window holds a value becomes its window mean; a valid cell's window always holds a value. |
| LegacyScript.Unsmoothed | maskfill.py:72-85 | The corrected paste of `main`'s output without smoothing (see Findings): the loop's result selected into the masked pixels of the original image; the image's shape. |
| LegacyScript.Smoothed | maskfill.py:88-92 | The corrected paste of `main`'s output with smoothing (see Findings): the mean scan of the unsmoothed image selected into the masked pixels; the image's shape. |
| LegacyScript.Blend | maskfill.py:85-92 | The filled pixel under the mask and the original pixel elsewhere (the corrected paste). |
| LegacyScript.Times | maskfill.py:85 | The product as numpy takes it: a value exactly when both operands are values, NaN otherwise. |
| LegacyScript.Plus | maskfill.py:85 | The sum as numpy takes it: a value exactly when both operands are values, NaN otherwise. |
| LegacyScript.ArithmeticBlend | maskfill.py:85-92 | The paste as written, as floating-point arithmetic with the mask as 1 or 0; it has the image's shape. |
| LegacyScript.ArithmeticBlendAgrees | maskfill.py:85-92 | Where the filled and the original pixel are both valid, the arithmetic paste equals the select. |
| LegacyScript.ArithmeticBlendLosesFill | maskfill.py:85 | A masked pixel whose original value is NaN comes out NaN from the arithmetic paste, but keeps its filled value under the select. |
| LegacyScript.ArithmeticPasteLosesFill | maskfill.py:72-85 | On the 1x2 image [[NaN, v]] with the left pixel masked, an input `main` accepts for every size of at least 2, the loop ends and the arithmetic paste leaves pixel (0, 0) NaN, while the select gives it a value. |
| LegacyScript.UnsmoothedOutcome | maskfill.py:72-85 | Under the corrected paste (see Findings), without smoothing, unmasked pixels keep their original value and every masked pixel holds the valid value the loop settled on. |
| LegacyScript.SmoothedOutcome | maskfill.py:88-92 | Under the corrected paste (see Findings), with smoothing, unmasked pixels keep their original value and every masked pixel is the mean of its window in the unsmoothed image. |
| LegacyScript.FilterLoop | maskfill.py:72-77 | The while loop returns the contents the recursive loop specification gives. |
| LegacyScript.LegacyFill | maskfill.py:54-92 | The output is the smoothed or the unsmoothed image as specified; it has the image's shape, keeps every unmasked pixel, and holds a valid value at every masked pixel. |

## Findings

| source | as written | input that shows it | evidently intended | confidence | as-written member | corrected member |
|---|---|---|---|---|---|---|
| maskfill.py:85-92 | The filled image is pasted back as `im_masked * mask + (1 - mask) * im`. Under the mask this adds `0 * im`, which is NaN when the original pixel is NaN. | im = [[NaN, 5]], mask = [[1, 0]]: the loop fills pixel (0, 0) from its neighbour, and the paste writes NaN back there. | Every masked pixel takes its filled value (a select, as the package version does by filling the buffer itself). | medium, not executed | LegacyScript.ArithmeticBlend (LegacyScript.ArithmeticBlendLosesFill, LegacyScript.ArithmeticPasteLosesFill) | LegacyScript.Blend (LegacyScript.Unsmoothed, LegacyScript.Smoothed, LegacyScript.UnsmoothedOutcome, LegacyScript.SmoothedOutcome, LegacyScript.LegacyFill) |

## Left out

- FITS reading and writing, the `.fits` suffixing, headers and HDU lists, the `writesteps` snapshots, verbose printing, the printing of the iteration counter (its final value is `Passes` or `Scans` plus one), and both command-line front ends, including `main`'s size and operator defaults. These are I/O and user-interface plumbing, so images and options are parameters.
- The library internals of `convolve2d`, `nanmean` and `nanmedian`. They are specified by their results: the neighbour count, the mean, and the median over the valid values.
- Floating-point arithmetic: values are `real`, so there is no rounding and no infinity. The paste's NaN behaviour is kept only in `ArithmeticBlend`.
- MaskFill.FindNanIndices: only odd window sizes are modelled. The code only calls it with 3, and an even kernel's off-centre alignment in `convolve2d` is not captured.
- MaskFill.MaskFill: with a valid operator it requires a size of at least 2 and, when some pixel is NaN after masking, a valid pixel. The loop never ends on an image that is NaN after masking and has no valid pixel, and never ends on a NaN pixel when the size is 0 or 1 (window 1 sees only the pixel itself). Two cases the source does end on are not modelled: a negative size raises ValueError in `np.pad` (maskfill/maskfill.py:63) as soon as the loop or the smoothing pass runs, and with size 0 or 1 and no NaN after masking the loop never runs and `maskfill` returns normally.
- LegacyScript.LegacyFill: requires a size of at least 2 and, when some pixel is NaN after masking, a valid pixel, for the same reasons (`main` itself always uses a size of at least 3). It pastes with the corrected select (see Findings) and treats the mask as boolean, where the script multiplies by the mask's numeric values.
- A mask or image that is not a rectangle, or a mask whose shape differs from the image's: the model requires matching shapes. The package raises there (`output[mask] = np.nan` at maskfill/maskfill.py:148 is an IndexError on a shape mismatch). The script does not: `np.where` (maskfill.py:54) and the paste (maskfill.py:85) broadcast a mask of broadcastable shape, such as a single row as wide as the image, and the model does not capture that broadcasting.
- LegacyScript.Unsmoothed, LegacyScript.Smoothed, LegacyScript.UnsmoothedOutcome, LegacyScript.SmoothedOutcome: these use the corrected select paste (see Findings), so a masked pixel whose original value is NaN comes out filled, where `main`'s paste at maskfill.py:85 and 92 writes NaN.
- Aliasing: the package's smoothing pass rewrites the same array that becomes its first result. The model returns the array's contents as a value.
