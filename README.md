# outguess-image-compare, modelled in Dafny

outguess-image-compare is a small C tool. It decides whether two JPEG files
could have been produced by Outguess from the same source image. It runs two
tests:

- **Metadata test** (`check_image_metadata`). The tool infers the IJG quality
  factor from the file's quantization tables. It re-encodes the DCT
  coefficients at that quality. Then it compares the original and re-encoded
  files byte for byte.
- **Invariant test** (`check_invariant`). Both images must be three-component
  4:2:0 YCbCr with identical block grids. Then every pair of co-located DCT
  blocks must have equal histograms of `128 + (c >> 1)`. That histogram does
  not see the lowest bit of a coefficient, which is the bit Outguess embeds in.

This project models the integer and sequence logic of both tests. libjpeg is
abstracted away: quantization tables, sampling factors, block grids and
coefficients are plain immutable inputs.

| file | module | models |
|---|---|---|
| `quality.dfy` | `Quality` | `detect_quality_table` (a loop method proved against a search function) and `detect_quality` (a guard chain) |
| `histogram.dfy` | `Histogram` | the histogram bins and the per-block histogram fill and compare loops |
| `invariant.dfy` | `Invariant` | the image record, the shape guards, `min`, and the MCU / sub-block enumeration of `check_invariant` |
| `metadata.dfy` | `Metadata` | the `fgetc` byte-compare loop of `check_image_metadata` |
| `arith.dfy` | `Arithmetic` | small facts about products and floor division used by the proofs |
| `wrappers.dfy` | `Wrappers` | `Option`, which models a quantization table slot that may be NULL |

How the source maps onto the model:

- **Base tables.** These are Tables K.1 and K.2 of Annex K of ITU-T T.81.
- **Quality scaling.** The scaling and clamping are IJG libjpeg 6b's
  convention. The scaling is `5000 / q` below 50 and `200 - 2q` from 50 up.
  Each entry is then rounded by `(b*s + 50) / 100` and clamped to [1, 255].
- **`QualityOf`.** This is the specification of the search: the least
  quality in 1..100 whose generated table equals the observed one, or -1.
  `DetectQualityTable` holds the source's quality loop with its early
  return. `MatchesQuality` holds the inner entry loop, with its
  `found_quality` flag and `break`. `DetectQualityTable` is proved equal to
  `QualityOf`.
- **The invariant test.** `check_invariant` becomes several methods that
  keep the source's own loops:
  - `CheckInvariant` holds the guards and the `by`/`bx` loops;
  - `CompareMcu` holds the `plane` loop;
  - `ComparePlane` holds the `sub_by`/`sub_bx` loops;
  - `BlocksMatch` allocates the two histogram arrays; `FillHistograms` holds
    the fill loop, and `SameCounts` the compare loop.
- **The specification of the invariant test.** `InvariantHolds` is the
  specification. It is then shown equivalent to "every block pair of the
  scanned area passes". From that follow symmetry, reflexivity, and the
  fact that LSB-only changes always pass.

## Specification and code disagree

- **Round trip of the quality.** A table generated at quality q need not be
  detected as q. The loop returns the *smallest* matching quality. The
  model follows the code:
  - `GeneratedTableRoundTrip` proves only that the result q' satisfies
    1 <= q' <= q and generates the same table;
  - `ChrominanceLowQualitiesCollapse` shows that the chrominance tables
    of qualities 1, 2 and 3 coincide;
  - `StandardPairAtLowQualityRejected` shows that a genuine standard pair
    generated at quality 2 or 3 is rejected by `detect_quality`, with -1;
  - `StandardPairDetected` shows that these are the only failures: for
    every other quality in 1..100 the pair is detected exactly.
- **The repeated guard.** Lines 257-259 of `main.c` repeat the test of
  image 1 instead of testing image 2. `ShapeGuardsPass` models the lines as
  written. Its contract shows that image 2 is still forced to 4:2:0 by the
  equality guards at lines 270-275, so the verdict is the intended one.

## Model

| member | source | states |
|---|---|---|
| `Quality.PercentageScaling` | main.c:12 | the scaling lies in [0, 5000]; it is 0 exactly at quality 100; it exceeds 100 below quality 50 and is at most 100 from 50 up |
| `Quality.ExpectedValue` | main.c:16-20 | every expected entry, after the clamps, lies in [1, 255]; at quality 100 it is 1 |
| `Quality.Generated` | main.c:15-20 | the generated table has 64 entries, each in [1, 255] |
| `Quality.FirstMatchFrom` | main.c:11-32 | the search from a start quality returns -1 or a matching quality at or above the start, and no quality between the start and the result (or up to 100, on -1) matches |
| `Quality.QualityOf` | main.c:10-33 | the result is -1 exactly when no quality in 1..100 matches; otherwise it is the least matching quality, and it is the only quality with that property |
| `Quality.MatchesQuality` | main.c:12-26 | the inner loop over the 64 entries, with its flag and break, reports a match exactly when the table generated at that quality equals the observed one |
| `Quality.DetectQualityTable` | main.c:10-33 | the quality loop with its early return returns exactly `QualityOf` of the observed and base tables |
| `Quality.StandardTablesAreBaseTables` | main.c:45-54 | both standard tables have 64 entries that are non-negative and produce no 32-bit overflow in the scaling product |
| `Quality.DetectQuality` | main.c:35-93 | the result is -1 or a quality in [1, 100] |
| `Quality.DetectQualityAccepts` | main.c:35-93 | `detect_quality` returns quality q exactly when slot 0 is present with least match q for luminance, slot 1 is present with least match q for chrominance, and slot 2 is absent |
| `Quality.StandardSlots` | main.c:39-90 | the four slots holding the standard pair generated at a quality form well-formed table slots |
| `Quality.GeneratedTableRoundTrip` | main.c:11-29 | for a table generated at q, the detected quality q' satisfies 1 <= q' <= q and generates the same table |
| `Quality.OutOfRangeEntryUndetermined` | main.c:16-22 | an observed table with an entry below 1 or above 255 yields -1 |
| `Quality.ChrominanceLowQualitiesCollapse` | main.c:69-80 | with the chrominance base, qualities 1, 2 and 3 all generate the all-255 table, which is detected as quality 1 |
| `Quality.StandardPairAtLowQualityRejected` | main.c:56-84 | a genuine standard pair generated at quality 2 or 3 gives luminance quality q but chrominance quality 1, so `detect_quality` returns -1 |
| `Quality.LowQualityScalingAtLeast` | main.c:12 | below quality 50 the scaling is at least 102 |
| `Quality.ScalingGap` | main.c:12 | the scaling strictly decreases with quality, by at least 2 per step |
| `Quality.LowScalingStep` | main.c:12 | below quality 19 one quality step lowers the scaling by at least 13 |
| `Quality.LowScalingGap` | main.c:12 | up to quality 19 any two qualities scale by at least 13 apart |
| `Quality.LowQualityEntriesDiffer` | main.c:12-20 | up to quality 19 a base entry of at least 8 that stays below the clamp yields a strictly larger entry at the lower quality |
| `Quality.StandardTableRoundTripExact` | main.c:11-29 | the luminance table generated at any q in 1..100, and the chrominance table at any q in 1..100 other than 2 and 3, is detected as exactly q |
| `Quality.StandardPairDetected` | main.c:35-93 | for q in 1..100 a genuine standard pair generated at q is detected as q exactly when q is neither 2 nor 3 |
| `Histogram.ShiftRight1` | main.c:319-320 | `c >> 1` is the floor of c / 2: 2s <= c <= 2s + 1 |
| `Histogram.Bin` | main.c:319-320 | the bin `128 + (c >> 1)` is a valid index into the 256 bins exactly when c is in [-256, 255] |
| `Histogram.FlipLsb` | main.c:319-320 | flipping the lowest bit changes c by one and changes its parity, and keeps it in the same bin |
| `Histogram.HalvesAppend` | main.c:318-321 | shifting distributes over concatenation of coefficient sequences |
| `Histogram.Histogram` | main.c:315-321 | a block histogram has 256 bins |
| `Histogram.HistogramStep` | main.c:318-321 | adding the next coefficient to a prefix histogram increments exactly its own bin |
| `Histogram.HistogramsDecide` | main.c:315-326 | for in-range blocks the two histograms are equal exactly when the multisets of shifted coefficients are equal |
| `Histogram.AddCoefficient` | main.c:319-320 | one increment raises the coefficient's own bin by one and changes no other bin |
| `Histogram.FillHistograms` | main.c:315-321 | the fill loop leaves each zeroed histogram holding exactly its block's bin counts |
| `Histogram.SameCounts` | main.c:323-326 | the compare loop, with its early return, reports agreement exactly when the two 256-bin histograms are equal |
| `Histogram.BlocksMatch` | main.c:315-326 | the fill and compare loops accept a block pair exactly when the multisets of shifted coefficients are equal |
| `Histogram.LsbFlipsPass` | main.c:319-320 | a block whose coefficients are each kept or LSB-flipped passes against the original |
| `Histogram.MultisetHalvesAppend` | main.c:318-321 | the multiset of shifted coefficients is additive over concatenation |
| `Histogram.RemoveAt` | main.c:318-321 | removing one coefficient removes it, and its shift, from the block's multisets |
| `Histogram.PermutationPasses` | main.c:315-326 | a reordering of a block passes against it: the comparison ignores coefficient order |
| `Invariant.Min` | main.c:223-225 | `min` returns the smaller argument: it is at most both, and equal to one of them |
| `Invariant.ShapeGuardsPass` | main.c:246-276 | the guards pass exactly when both images are 3-component 4:2:0 YCbCr and agree on every component's block grid and sampling factors, although lines 257-259 never test image 2 |
| `Invariant.McuBlockInGrid` | main.c:305-309 | every sub-block of an MCU, clipped by `min`, lies inside the component's block grid |
| `Invariant.ComparePlane` | main.c:299-328 | the `sub_by`/`sub_bx` loops accept exactly when every block pair of that component's MCU passes |
| `Invariant.CompareMcu` | main.c:298-329 | the plane loop accepts exactly when all three components' block pairs of the MCU pass |
| `Invariant.CheckInvariant` | main.c:246-333 | `check_invariant` returns true exactly when the shape guards pass and every MCU of the chroma grid passes; it asks only that the blocks the loops reach, up to the first failing pair, have in-range coefficients |
| `Invariant.InRangeImagesAreSafe` | main.c:315-320 | when every coefficient of both images lies in [-256, 255], no block pair the loops reach indexes outside the histograms |
| `Invariant.AxisMcuUnique` | main.c:305-306 | along one axis a block index lies in at most one MCU's sub-block range |
| `Invariant.McuVisitsDisjoint` | main.c:281-306 | distinct MCU positions never visit the same block |
| `Invariant.McuInScannedArea` | main.c:281-306 | every block an MCU visits lies in the clipped scanned rectangle of its component |
| `Invariant.ScannedBlockHasMcu` | main.c:281-306 | every block of the scanned rectangle is visited, by MCU (r / v, c / h) |
| `Invariant.InvariantIffScannedBlocksPass` | main.c:281-333 | once the guards pass, `check_invariant` holds exactly when every block pair of every component's scanned area passes |
| `Invariant.InvariantSymmetric` | main.c:246-333 | `check_invariant` gives the same verdict with its two images swapped |
| `Invariant.InvariantReflexive` | main.c:246-333 | an image compared with itself passes exactly when it is 3-component 4:2:0 YCbCr |
| `Invariant.LsbVariantPasses` | main.c:246-333 | a 4:2:0 YCbCr image and a copy differing only in coefficient lowest bits always pass |
| `Metadata.CompareFiles` | main.c:181-189 | the do-while `fgetc` loop ends with true exactly when the two byte sequences are equal, as a proper prefix gives false |

## Left out

- All libjpeg calls are left out: header and coefficient reading, `access_virt_barray`, `jpeg_set_defaults`, `jpeg_set_quality`, `jpeg_write_coefficients`. Tables, sampling factors, grids and coefficients are inputs instead. This is foreign code whose behaviour is not visible here.
- The re-encode step of `check_image_metadata` (main.c:156-175) is left out. Its output is produced entirely by libjpeg. `CompareFiles` receives the two files' bytes as inputs. The source passes the quality even when it is -1; the model adds no guard there.
- File I/O is left out. In `CompareFiles`, `fgetc` becomes `Fgetc` on a byte sequence: the byte, or -1 past the end. This covers `fopen`, `rewind`, the time-based temporary file name and its removal, the text/binary open modes, and the `exit(1)` and `abort()` paths.
- The error callbacks `on_error_exit` and `on_output_message`, and the shared static `jerr`, are left out. They are plumbing into the foreign library.
- `main` is left out: its usage message, printing and exit codes. It is glue that runs the metadata test on each argument, then the invariant test.
- The console messages of `detect_quality` are left out; only its returned value is modelled.
- The fourth quantization table slot is carried but never read. `SlotsWellFormed` and `StandardSlots` hold all four slots (NUM_QUANT_TBLS), and `DetectQuality` reads only slots 0 to 2, as the source does.
- Histogram.BlocksMatch: requires every coefficient of the pair to be in [-256, 255]. Outside that range the C code writes outside its 256-entry arrays, which is undefined behaviour. Real files can contain such coefficients: a flat white block at quality 90 has a luminance DC divisor of 3 and a DC coefficient near 339, whose bin is 297. The model does not define a result for those pairs. `CheckInvariant` carries the requirement (as `InvariantSafe`) exactly for the block pairs the loops reach, up to and including the first failing pair.
- Coefficients are unbounded integers rather than 16-bit JCOEF values. The 16-bit limit does not matter inside the bin range that the model requires.
- The histogram counters are unbounded naturals rather than `unsigned`. A block of 64 coefficients cannot make them wrap.
