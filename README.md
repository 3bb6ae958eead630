# subimg-search: the search engine, modelled in Dafny

`subimg-search` looks for a template image (the "subimage") inside a larger
source image. It slides a template-sized window over every offset of a search
region. It scores each window by a root-mean-square colour error in which
black template pixels do not take part. It writes the confidence byte
`255 - rmse` at the window's centre in a gray confidence map. When at least
four template heights fit in the image height less four border widths, and
there are at least two CPUs, the region is cut into horizontal strips that
overlap by one template height. Each strip is scanned into its own partial
map, and the partial maps are merged into the final map by saturating
addition.

The model covers the engine of `src/main.rs`:

- `calc_root_error_squares_mean_full`;
- the strip partition arithmetic of `do_search`;
- the per-strip scan, the merge loop and the single-thread scan.

It has seven modules:

- `Arith` (`arith.dfy`): one fact about multiplication the solver needs.
- `Pixels` (`pixels.dfy`): bytes, the clamp to 255, RGB pixels and images held as values.
- `Metric` (`metric.dfy`) covers the window error:
  - the accumulator as a specification (`WindowError`);
  - the source's nested loop as a method proved equal to it;
  - the square-root step with the saturating `as u8` cast;
  - the lemmas about the mask, zero error and monotonicity.
- `Partition` (`partition.dfy`), pure arithmetic:
  - `subqty`, the worker count `thrqty`, `piw` and `pih`;
  - each strip's start row `ty` and height `th`;
  - the lemmas on overlap, coverage, ownership and size.
- `Scan` (`scan.dfy`): the strip scan and the single-thread scan as loops over
  `array2<byte>` maps. Both are specified by `CentreValue`, the value a map
  holds at a pixel once every window in a range has written its centre.
- `Merge` (`merge.dfy`) covers composing the partial maps:
  - the saturating merge loop in place on the final map;
  - merged values as a function over part values (`Overlaid`), with its
    closed form and order independence.
- `Search` (`search.dfy`) is `do_search` from the partition to the finished
  map:
  - it scans the strips in index order and merges them, or runs the single
    scan;
  - it proves that the final map holds, at the centre of every window the
    chosen path scans, that window's confidence, and 0 everywhere else.

Maps are gray: the source always writes one value to all three channels, so
each map pixel is one `byte`. The source image and the template are read-only
values (`Image`); the maps the source allocates and writes are `array2<byte>`.
The map pixels and the window corners share one coordinate system, the source
image's: in the source, the merge writes partial-map pixel `(xi, yi)` of the
strip at `(skip_border, ty)` to `(xi + skip_border, ty + yi)` of the final
map.

Behaviours a reader may not expect, all of them in the code as written:

- **The single and multi-strip paths scan different ranges when a border is
  skipped.** Let b = `skip_border`, W × H the source size and sw × sh the
  template size. The border is subtracted from `iw`/`ih` and then again in
  `subqty`/`piw`/`pih`, but only once in the single path's row bound. The two
  paths scan these window ranges:
  - single-thread path: lefts `[b, W-4b-sw)`, tops `[b, H-2b-sh)`;
  - multi-strip path: lefts `[b, W-3b-sw)`, tops `[b, H-3b-sh)`.

  So the multi path's column range ends b later and its row range ends b
  earlier (`Search.PathsAgreeWithoutBorder`). With b = 0 the ranges, and so the
  maps, are the same. With b > 0 the single path's row range reaches
  further, and the row with top `ih-b-sh` lies in its range only; the single
  path scans windows in that row exactly when W > sw + 5b, and none at all
  otherwise. When W >= sw + 5b the column with left `iw-sw-2b` lies in the
  multi path's column range only, and the multi path scans windows in it
  (`Search.PathsDifferWithBorder`). The maps can then differ, unless
  every window in the difference scores 0.
- **Scan ranges are half-open.** The loops run over `0..th-sh` and
  `0..piw-sw`, so the offsets `th-sh` and `piw-sw` are never scanned.
- **The single path's column bound `iw-sw-2*skip_border` is computed inside
  the row loop.** It is evaluated only when some row is scanned. An admissible
  image with no room for a row below the borders (H <= sh + 3b) never
  evaluates this bound: it scans no window and saves an all-zero map
  (`Search.BorderLeavesNoRows`). Admissible means that main's assertions hold
  and the subtractions `do_search` does evaluate, such as `ih-2*skip_border`,
  do not underflow (`Partition.Admissible`).
- **The divisor is the template width**, not its pixel count (line 135).
- **Overlapping strips are merged by saturating addition.**
  The saturation never changes a value (`Search.MergedStripsShowCentres`):
  each window top belongs to exactly one strip, so a pixel gets a non-zero
  contribution from at most one strip.

## Model

| member | source | states |
|---|---|---|
| Pixels.Clamp | src/main.rs:243-244 | the merge's clamp and, at lines 228 and 257, the saturating `as u8` of a non-negative value and the merge's `if psumm <= 255 { psumm } else { 255 }` (a definition; Confidence and OverlaidClosedForm state its use) |
| Metric.Term | src/main.rs:139-155 | what one template pixel adds to `acc`: nothing when it is black, else the three squared channel differences (a definition; TermZeroIff and MaskExclusion state its properties) |
| Metric.WindowError | src/main.rs:137-158 | `acc` after both loops: the terms summed over all template pixels (the reference RootErrorSquaresMeanFull is proved equal to) |
| Metric.Score | src/main.rs:228 | the confidence byte of the window at (ox, oy): Confidence of its WindowError over the template width (ExactMatchScoresFull and MaskExclusion state its properties) |
| Metric.RootErrorSquaresMeanFull | src/main.rs:127-160 | the nested loop over the template, skipping black template pixels, accumulates exactly `WindowError` (the sum of the three squared channel differences over the non-black template pixels); it returns the truncated root of that error divided by 3 × template width |
| Metric.ISqrt | src/main.rs:159 | the truncated square root: the largest r with r·r ≤ n |
| Metric.Rmse | src/main.rs:159 | for a template width q > 0: r²·3q ≤ acc < (r+1)²·3q, i.e. r is the integer part of sqrt(acc / q / 3); for q = 0 it is 0 exactly when acc = 0 (NaN casts to 0, +∞ saturates) |
| Metric.Confidence | src/main.rs:228 | the confidence byte `255 - (rmse as u8)` lies in 0..255. It is 255 when acc = 0. For q > 0 it is 255 exactly when acc < 3q, and 0 exactly when acc ≥ 255²·3q (where the cast saturates) |
| Metric.RmseExtremes | src/main.rs:159 | for q > 0 the root is 0 exactly when acc < 3q, and reaches 255 exactly when acc ≥ 255²·3q |
| Metric.ConfidenceAntitone | src/main.rs:159 | more accumulated error never yields a higher confidence |
| Metric.IsBlack | src/main.rs:140 | a template pixel is skipped exactly when all three of its channels are 0 (a definition; TermZeroIff and MaskExclusion state its use) |
| Metric.PixelError | src/main.rs:153-155 | the three squared differences of the channels of the template and window pixels, summed (a definition; TermZeroIff states when it is 0) |
| Metric.TermZeroIff | src/main.rs:139-155 | a pixel's contribution is zero exactly when the template pixel is black or the window pixel equals it |
| Metric.RowErrorZeroIff | src/main.rs:138-158 | one template row adds nothing exactly when every pixel term of the row is zero |
| Metric.RowsErrorZeroIff | src/main.rs:137-158 | the first m rows add nothing exactly when every pixel term in them is zero |
| Metric.WindowErrorZeroIff | src/main.rs:137-158 | the accumulator is 0 exactly when the window equals the template on every non-black template pixel |
| Metric.ExactMatchScoresFull | src/main.rs:228 | a window that matches the template on its non-black pixels scores 255 |
| Metric.RowErrorIgnoresMask | src/main.rs:140-143 | two windows that agree on the non-black template pixels have the same row errors |
| Metric.RowsErrorIgnoresMask | src/main.rs:140-143 | two windows that agree on the non-black template pixels have the same partial accumulators |
| Metric.MaskExclusion | src/main.rs:140-143 | changing the window's pixels under black template pixels changes neither the accumulator nor the score |
| Partition.Admissible | src/main.rs:183-200 | the measurements for which main's assertions (lines 50-51) hold and no `u32` subtraction `do_search` evaluates underflows, no division is by zero (a definition; `Search.Search` requires it) |
| Partition.Iw | src/main.rs:183 | `iw = width - 2*skip_border` (a definition) |
| Partition.Ih | src/main.rs:184 | `ih = height - 2*skip_border` (a definition) |
| Partition.SubQty | src/main.rs:195 | `subqty` is the number of full template heights in `ih - 2*skip_border`: subqty·sh <= ih-2b < (subqty+1)·sh |
| Partition.Thr | src/main.rs:196-198 | `thrqty` for the image's measurements (a definition through ThreadCount) |
| Partition.Piw | src/main.rs:200 | `piw = iw - 2*skip_border` (a definition; StripFits states `piw >= sw` on the multi path) |
| Partition.Pih | src/main.rs:200 | `pih` is the floor of `(ih - 2*skip_border) / thrqty`: pih·thrqty <= ih-2b < pih·thrqty + thrqty |
| Partition.StripTop | src/main.rs:214 | the strip descriptor's start row `ty = t*pih + skip_border` (a definition; StripsOverlap and StripFits state its properties) |
| Partition.StripHeight | src/main.rs:216-219 | the strip descriptor's height `th`: `(ih-skip_border)-ty` for the last strip, `pih+sh` otherwise (a definition; StripsOverlap and StripFits state its properties) |
| Partition.MultiPathFits | src/main.rs:195-200 | with two or more workers, 4·sh <= ih-2b, so H > sh + 3b and `piw - sw` does not underflow |
| Partition.MultiPathNeedsRows | src/main.rs:195-198 | only an image with room for a scanned row below the borders takes the multi-strip path |
| Partition.SmallBorderedImageAdmitted | src/main.rs:183-200 | the 4 × 4 image with a 1 × 1 template and border 1 runs without a panic on the single path |
| Partition.ThreadCount | src/main.rs:195-198 | `thrqty` is at least 1 and at most the CPU count; it is 1 when `subqty < 4`, otherwise `min(cpus, subqty)`; it is at least 2 exactly when `subqty >= 4` and there are at least 2 CPUs |
| Partition.BasesFit | src/main.rs:195-200 | the `thrqty` base strips of height `pih` fit in `ih - 2*skip_border` |
| Partition.BaseStripFitsTemplate | src/main.rs:195-200 | `pih >= sh` whenever `thrqty <= subqty` |
| Partition.StripsOverlap | src/main.rs:214-219 | adjacent strip starts differ by `pih`; every strip but the last runs exactly `sh` rows into the next; the last strip ends at row `ih - skip_border` |
| Partition.StripFits | src/main.rs:214-226 | with two or more workers every strip has `th >= sh` (so `th - sh` does not underflow), starts no earlier than row `skip_border` and ends by row `ih - skip_border`, inside the source image; `piw >= sw` and the strip width fits the final map and the source |
| Partition.StripRowsFit | src/main.rs:214-219 | the row half of StripFits: `th >= sh` and `ty + th <= ih - skip_border` |
| Partition.OwnsTop | src/main.rs:214-225 | strip t scans the window tops `[ty, ty + th - sh)` (a definition; StripOf and OwnedOnce state its properties) |
| Partition.StripOf | src/main.rs:214-225 | every window top in `[skip_border, ih - skip_border - sh)` is scanned by some strip |
| Partition.OwnerIndex | src/main.rs:214-219 | the index `min(r / pih, thrqty - 1)` names a strip whose rows reach row r, the last strip taking the rest |
| Partition.OwnedOnce | src/main.rs:214-225 | no window top is scanned by two strips |
| Partition.StripsCoverRows | src/main.rs:214-219 | the strips together cover every row of `[skip_border, ih - skip_border)`, with no gap |
| Scan.CentreValue | src/main.rs:225-231 | the value a zero map holds at a pixel after a scan of a window-corner range wrote every window's confidence at its centre (the reference ScanStrip and ScanSingle are proved equal to) |
| Scan.CentreValueSplit | src/main.rs:225-231 | a scan of window tops `[y0, ym)` followed by one of `[ym, y1)` leaves the map a scan of `[y0, y1)` leaves: no pixel is written by both |
| Scan.CentresCarryScores | src/main.rs:227-229 | for every scanned offset (x, y) the window lies inside the image and pixel `(x+sw/2, y+sh/2)` holds that window's confidence |
| Scan.NonCentresStayZero | src/main.rs:223-231 | a pixel that no scanned window is centred on stays 0 |
| Scan.ExactMatchShowsAtCentre | src/main.rs:227-229 | a scanned window that matches the template on the mask puts 255 at its centre |
| Scan.ScanStrip | src/main.rs:221-232 | the fresh `piw × th` partial map holds, at every pixel, the value a scan of the offsets `0..piw-sw × 0..th-sh` of the view at `(skip_border, ty)` leaves there; all view and `put_pixel` accesses are in bounds |
| Scan.ScanSingle | src/main.rs:254-260 | the zero final map ends holding, at every pixel, the value a scan of the offsets `skip_border..iw-sw-2*skip_border × skip_border..ih-sh` of the whole image leaves there; the column bound is evaluated, and needs to be non-negative, only once a row is scanned; all accesses are in bounds |
| Merge.SatAdd | src/main.rs:243-244 | `min(pbase[0] + pover[0], 255)` (a definition; MergeInto and OverlaidClosedForm state its use) |
| Merge.Compose | src/main.rs:241-245 | one merge step at a pixel: the saturating sum inside the partial map's rectangle, no change outside it (a definition; MergeInto and Overlaid are built on it) |
| Merge.Overlaid | src/main.rs:237-248 | the value at one pixel after composing the partial maps in order (the reference MergeAll is proved equal to; OverlaidClosedForm and OverlaidOrderIndependent state its properties) |
| Merge.MergeInto | src/main.rs:239-247 | each final-map pixel inside the partial map's rectangle at `(skip_border, y)` becomes `min(base + over, 255)`; every other pixel is unchanged |
| Merge.MergeAll | src/main.rs:237-248 | after the merge loop, every final-map pixel is its old value with the partial maps composed onto it in order |
| Merge.OverlaidClosedForm | src/main.rs:237-248 | the merged pixel is the base plus the sum of all partial maps' values there, clamped once at 255 |
| Merge.TotalAppend | src/main.rs:237-248 | the sum of contributions over two runs of parts is the sum of their sums |
| Merge.TotalRemove | src/main.rs:237-248 | removing one part takes its contribution out of the sum |
| Merge.TotalPermutation | src/main.rs:237-248 | any permutation of the partial maps has the same sum of contributions |
| Merge.TotalSwapLast | src/main.rs:237-248 | if ps without its last part and qs without part k sum alike, and part k of qs is the last part of ps, the whole sequences sum alike |
| Merge.OverlaidOrderIndependent | src/main.rs:237-248 | merging the partial maps in any order gives the same final map |
| Search.PathsAgreeWithoutBorder | src/main.rs:207-260 | the multi-strip path's window-column range ends `skip_border` later and its window-row range ends `skip_border` earlier than the single path's; the two range ends coincide exactly when `skip_border == 0` |
| Search.PathsDifferWithBorder | src/main.rs:207-260 | with `skip_border` = b > 0 on the multi-strip path's inputs, both row ranges are non-empty and the single path's reaches further, so the row with top `ih-b-sh` lies in the single path's row range only; the single path scans any window exactly when W > sw + 5b; when W >= sw + 5b the column with left `iw-sw-2b` lies in the multi-strip path's column range only |
| Search.BorderLeavesNoRows | src/main.rs:254-255 | when the height leaves no room for a scanned row (H <= sh + 3b) the single path runs and the final map is all zero |
| Search.MultiLeftEnd | src/main.rs:221-226 | the multi path's window lefts run to `skip_border + piw - sw`, since each strip view starts at column `skip_border` and x runs over `0..piw-sw`; every such window fits the source image width |
| Search.MultiTopEnd | src/main.rs:214-225 | the last strip's window tops end at `ty + th - sh = ih - skip_border - sh` (a definition; PathsAgreeWithoutBorder, PathsDifferWithBorder and CoveredTop state its properties) |
| Search.SingleTopEnd | src/main.rs:254 | the single path's window tops end at `ih - sh` (a definition; PathsAgreeWithoutBorder and PathsDifferWithBorder state its properties) |
| Search.ScanLeftEnd | src/main.rs:207-255 | the window-left end of the path that `thrqty >= 2` selects (a definition; Search's ensures are written through it) |
| Search.ScanTopEnd | src/main.rs:207-254 | the window-top end of the path that `thrqty >= 2` selects (a definition; Search's ensures are written through it) |
| Search.SingleLeftEnd | src/main.rs:255 | the single path's column bound `iw-sw-2*skip_border` (taken as an empty range when no row is scanned) keeps every window inside the source image |
| Search.StripPart | src/main.rs:221-232 | the value of strip t's partial map: at pixel (xx, yy) what the strip scan leaves at source pixel `(skip_border+xx, ty+yy)` (a definition, used by ScanStrips and MergedStripsShowCentres) |
| Search.StripParts | src/main.rs:211-233 | the collected strip results, in index order, are the strips' partial maps |
| Search.CoveredTop | src/main.rs:214-219 | the window tops scanned by strips `0..k` end inside `[skip_border, ih - skip_border - sh]` |
| Search.StripScanEnd | src/main.rs:225 | the end of strip t's window-top range is not before its start and keeps every window inside the source image |
| Search.StripContribution | src/main.rs:237-248 | merging strip t's partial map into a pixel adds what a scan of that strip's window tops writes there, which is 0 outside the strip's rectangle |
| Search.MergedStripsShowCentres | src/main.rs:207-248 | after merging strips `0..k` into the zero map, every pixel holds exactly what one scan of all their window tops leaves there: the saturating sums never add two non-zero values |
| Search.ScanStrips | src/main.rs:211-233 | the `thrqty` results, in index order, carry start row `ty = t*pih + skip_border`, a fresh `piw × th` map, and that strip's partial scan |
| Search.SearchStrips | src/main.rs:205-248 | the multi-thread path returns a fresh `iw × ih` map holding, at every pixel, the value a scan of window lefts `[skip_border, piw+skip_border-sw)` and tops `[skip_border, ih-skip_border-sh)` leaves there in a zero map |
| Search.Search | src/main.rs:183-261 | the final `iw × ih` map holds, at the centre of every window the chosen path scans, that window's confidence, and 0 at every other pixel |

## Left out

- Command-line parsing, logging, `read_image`, `as_rgb8`, `img_final.save` and `calc_new_name`: these are I/O and path handling through other crates. The images arrive as values and the final map is returned.
- Parallelism: `into_par_iter` runs the strips independently and `collect` keeps index order, so the strips are scanned one after another in index order. `num_cpus::get()` becomes the parameter `cpus`.
- Panics become preconditions (`Partition.Admissible`): the two assertions in `main`, the `u32` subtractions, the division by `sh`, and out-of-bounds `view`/`put_pixel`. The model states when none of them happens. A `u32` underflow panics only in a debug build; a release build wraps around and goes on with a huge bound, which the model does not follow.
- `skip_border*2` overflowing `u32`: the border is an unbounded natural number.
- Metric.Rmse: `acc / qty / 3.0` and `powf(0.5)` are computed in `f32`. The model takes them in exact real arithmetic, truncated as the `as u8` cast does. It does not model `f32` rounding, which can move the result by one near a perfect square.
- Metric.RootErrorSquaresMeanFull: `acc` is an `f32` in the source and an unbounded integer here. The two agree while the sum stays below 2^24.
- Search.Search: it does not state that the exact match is the map's unique maximum. Other windows can also score 255, because of the mask and because the divisor is the template width.
- The commented-out diagonal metric and `do_map_at_pixel`/`do_map_at` are dead code.
- The source's map pixels are RGB with three equal channels. The model keeps one gray byte per pixel, and the merge's saturating sum of channel 0 is that byte.
