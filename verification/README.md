# Cloud-shadow operator of the Sentinel-2 pixel classification, in Dafny

This project models the orchestration layer of `S2IdepixCloudShadowOp`, the
operator that turns a Sentinel-2 pixel classification into a cloud-shadow flag
band. It proves properties of that model.

- **Scene set-up (`initialize`).** The operator searches for a source tile size
  per raster dimension (`determineSourceTileSize`). It then decides whether the
  scene is a single tile, which also drops the search border. Last, it selects
  the analysis mode from the `mode` parameter; an unknown value is an error.
- **Per-tile run (`computeTileStack`).** The source rectangle is the target
  rectangle grown by the search border radius. The helper stages run in order.
  Mountain shadow is optional. The shadow stages run only when the cloud
  segmentation finds clusters.
- **Writing results (`makeFilledBand`).** The padded per-tile arrays are
  cropped back onto the target tile.
- **Flag layout.** The seven category codes are bit indices of the flag coding
  on the output band.

Files:

- `int32.dfy`: Java `int` range and wrap-around.
- `tile_size.dfy`: the tile-size search.
- `geometry.dfy`: rectangles and row-major layout.
- `filled_band.dfy`: the crop.
- `analysis_mode.dfy`: the mode switch.
- `cloud_flags.dfy`: categories and bit masks.
- `tiling.dfy`: the scene plan.
- `tile_stack.dfy`: one tile.
- `wrappers.dfy`: `Option` and `Result`.

Properties of the code that the model establishes:

- **The search is exhaustive.** `determineSourceTileSize` stops early when a
  divisor is strictly worse than the best one so far. Yet it still returns the
  divisor-based tile size nearest the image's tile size over every tile count
  from `minNumTiles` on, the smaller one on a tie. The reason is that quotients
  fall as the tile count grows and their distance to the preferred size is
  V-shaped. So once a candidate is worse, every later one is worse too.
- **Where the loop ends.** The Java loop `for (i = minNumTiles; i >= 1; i++)`
  usually ends at its `break`. Its condition `i >= 1` fails only when `i`
  overflows, so without a `break` the loop runs on to `Integer.MAX_VALUE`. The
  reference model scans up to `Integer.MAX_VALUE` with the same `break`. The method loops only up to `rasterSize`, and a lemma
  shows nothing beyond the raster size changes the outcome.
- **The bound is not a guarantee.** The search starts at the floor of
  `rasterSize / maxTileSize`, not the ceiling. So the tile size it returns can
  exceed `maxTileSize`; `TileSize.ResultMayExceedBound` gives an instance.
  Where the search starts also decides what it finds. In
  `TileSize.SearchStartsAtFloor`, starting at three tiles misses a divisor that
  is nearer the preferred size.
- **Negative bounds.** A search border radius from 701 up to 1073742524 makes
  `1400 - 2r` negative, so the bound is negative. The loop body then never
  runs, and the negative bound is returned as the tile size, which `initialize`
  sets as the preferred tile size. `TileSize.NegativeBoundAbove700` shows radius
  701 giving tile size -2. Above 1073742524 the 32-bit subtraction wraps round
  to a positive value again (see "Wrap-around"). A radius of exactly 700 gives
  a zero bound, which throws (see "## Left out").
- **Wrap-around.** `1400 - b1 - b2` is computed in 32-bit arithmetic. With a
  border of `Integer.MAX_VALUE` (sun at the horizon) it wraps.
- **Single-tile decision.** The scene is one tile when the raster fits the
  computed tile size in both dimensions. The comparison is against the search's
  result, not against the bound.
- **Cloud-free tiles.** A tile where the segmentation finds no cloud gets no
  `setSample` call on the flag band at all. It is not filled with a copy of the
  prepared flags.

## Model

| member | source | states |
|---|---|---|
| TileSize.MaxTileSize | s2tbx-s2msi-idepix/src/main/java/org/esa/s2tbx/s2msi/idepix/operators/cloudshadow/S2IdepixCloudShadowOp.java:197 | The bound is the smaller of `1400 - b1 - b2` and `2 * tileSize`, each wrapped to 32 bits; it is always a Java int and equals the plain minimum when nothing overflows. |
| TileSize.MinNumTiles | s2tbx-s2msi-idepix/src/main/java/org/esa/s2tbx/s2msi/idepix/operators/cloudshadow/S2IdepixCloudShadowOp.java:198 | `minNumTiles` is Java's quotient truncated toward zero. For a positive bound `m` it is the `n` with `n * m <= rasterSize < (n + 1) * m`. For a negative bound it is minus the quotient by `-m`. It is at least one exactly when the bound lies in `(0, rasterSize]`, and it never exceeds the raster size. |
| TileSize.Scan | s2tbx-s2msi-idepix/src/main/java/org/esa/s2tbx/s2msi/idepix/operators/cloudshadow/S2IdepixCloudShadowOp.java:201-210 | The loop never makes the best distance so far worse: the state it ends in is at most as far from the preferred size as the one it started with. |
| TileSize.SourceTileSize | s2tbx-s2msi-idepix/src/main/java/org/esa/s2tbx/s2msi/idepix/operators/cloudshadow/S2IdepixCloudShadowOp.java:196-215 | `determineSourceTileSize` as written, its loop running to `Integer.MAX_VALUE`: a bound outside `(0, rasterSize]` is returned as it is; otherwise the result is an exact divisor of the raster between 1 and `rasterSize`. |
| TileSize.ScanStopsAtRaster | s2tbx-s2msi-idepix/src/main/java/org/esa/s2tbx/s2msi/idepix/operators/cloudshadow/S2IdepixCloudShadowOp.java:201-210 | Running the loop up to `Integer.MAX_VALUE` gives the same search state as running it only up to `rasterSize`: no tile count beyond the raster size divides it. |
| TileSize.BreakIsFinal | s2tbx-s2msi-idepix/src/main/java/org/esa/s2tbx/s2msi/idepix/operators/cloudshadow/S2IdepixCloudShadowOp.java:202-206 | When a divisor is strictly farther from the preferred size than the best so far, the best so far already beats every divisor still to come, so the `break` loses nothing. |
| TileSize.SourceTileSizeSpec | s2tbx-s2msi-idepix/src/main/java/org/esa/s2tbx/s2msi/idepix/operators/cloudshadow/S2IdepixCloudShadowOp.java:196-215 | If the bound is not in `(0, rasterSize]` the bound is returned. Otherwise the result divides the raster, lies in `[1, rasterSize]`, and is nearer the preferred tile size than the quotient for any other tile count `>= minNumTiles` that divides the raster; a tie goes to the smaller size. |
| TileSize.BestDivisorUnique | s2tbx-s2msi-idepix/src/main/java/org/esa/s2tbx/s2msi/idepix/operators/cloudshadow/S2IdepixCloudShadowOp.java:202-209 | At most one tile size meets that best-divisor description, so it determines the search's result completely. |
| TileSize.BestIsDivisor | s2tbx-s2msi-idepix/src/main/java/org/esa/s2tbx/s2msi/idepix/operators/cloudshadow/S2IdepixCloudShadowOp.java:202-208 | A best divisor in the search's sense is a tile size between 1 and the raster size that divides the raster exactly. |
| TileSize.DetermineSourceTileSize | s2tbx-s2msi-idepix/src/main/java/org/esa/s2tbx/s2msi/idepix/operators/cloudshadow/S2IdepixCloudShadowOp.java:196-215 | The bounded loop with its `break` returns what the overflow-terminated loop returns, and meets the same bound / divisor guarantees. |
| TileSize.HorizonBorderWraps | s2tbx-s2msi-idepix/src/main/java/org/esa/s2tbx/s2msi/idepix/operators/cloudshadow/S2IdepixCloudShadowOp.java:197 | For border radius `Integer.MAX_VALUE` on both sides, `1400 - b1 - b2` wraps to 1402, which becomes the bound for a 1000-pixel image tile. |
| TileSize.ZeroBoundAtBorder700 | s2tbx-s2msi-idepix/src/main/java/org/esa/s2tbx/s2msi/idepix/operators/cloudshadow/S2IdepixCloudShadowOp.java:197-198 | With a border of 700 on both sides and any image tile size below 2^30, the bound is 0, so the division at line 198 would throw and the arguments fall outside what the search accepts. |
| TileSize.NegativeBoundAbove700 | s2tbx-s2msi-idepix/src/main/java/org/esa/s2tbx/s2msi/idepix/operators/cloudshadow/S2IdepixCloudShadowOp.java:197-214 | With borders of 701 and image tile 512 the bound is -2. For raster 10980, `minNumTiles` is then negative, the loop body never runs, and -2 is returned as the tile size. |
| TileSize.TieGoesToSmallerTile | s2tbx-s2msi-idepix/src/main/java/org/esa/s2tbx/s2msi/idepix/operators/cloudshadow/S2IdepixCloudShadowOp.java:203-208 | For raster 12 and preferred size 5, sizes 6 and 4 are equally near; the later one, 4, is returned, because only a strictly worse distance stops the loop. |
| TileSize.ResultMayExceedBound | s2tbx-s2msi-idepix/src/main/java/org/esa/s2tbx/s2msi/idepix/operators/cloudshadow/S2IdepixCloudShadowOp.java:197-212 | For raster 150, image tile 1000 and borders 650 the bound is 100, yet the result is 150: starting at the floor of `150 / 100` admits a tile larger than the bound. |
| TileSize.SearchStartsAtFloor | s2tbx-s2msi-idepix/src/main/java/org/esa/s2tbx/s2msi/idepix/operators/cloudshadow/S2IdepixCloudShadowOp.java:197-214 | For raster 1000, image tile 600 and borders 550, the bound is 300 and the search starts at 3 tiles, so it returns 250. Scanning from one tile on would have found 500, nearer to 600. |
| Geometry.Grow | s2tbx-s2msi-idepix/src/main/java/org/esa/s2tbx/s2msi/idepix/operators/cloudshadow/S2IdepixCloudShadowOp.java:250-251 | Growing by `h` and `v` moves the near edges in by `h` and `v` and the far edges out by `h` and `v`, and a non-negative growth keeps every pixel of the rectangle inside. |
| Geometry.GrowMatchesPadding | s2tbx-s2msi-idepix/src/main/java/org/esa/s2tbx/s2msi/idepix/operators/cloudshadow/S2IdepixCloudShadowOp.java:250-257 | The source rectangle `grow(r, r)` is `w + 2r` by `h + 2r` and holds every target pixel; target pixel `(x + a, y + b)` has row-major index `(b + r)(w + 2r) + (a + r)` in it. |
| FilledBand.WritesCoverTargetOnce | s2tbx-s2msi-idepix/src/main/java/org/esa/s2tbx/s2msi/idepix/operators/cloudshadow/S2IdepixCloudShadowOp.java:403-405 | The `setSample` calls of `makeFilledBand` number `w * h`, hit exactly the pixels of the target rectangle, and never hit the same pixel twice. |
| FilledBand.Writes | s2tbx-s2msi-idepix/src/main/java/org/esa/s2tbx/s2msi/idepix/operators/cloudshadow/S2IdepixCloudShadowOp.java:403-405 | The `setSample` calls number `w * h`. Call `k` writes pixel `(x + k mod w, y + k div w)` with input entry `(k div w + mkr)(w + 2mkr) + (k mod w + mkr)`. |
| FilledBand.PlainCopyWithoutBorder | s2tbx-s2msi-idepix/src/main/java/org/esa/s2tbx/s2msi/idepix/operators/cloudshadow/S2IdepixCloudShadowOp.java:399-405 | With border 0 the crop writes the input in order: call `k` carries input entry `k`, and there is one call per entry. |
| FilledBand.FilledBand | s2tbx-s2msi-idepix/src/main/java/org/esa/s2tbx/s2msi/idepix/operators/cloudshadow/S2IdepixCloudShadowOp.java:395-408 | After the crop the tile holds its old samples plus the whole target rectangle. Pixels outside the target keep their samples. Target pixel `(x + a, y + b)` holds input entry `(b + mkr)(w + 2mkr) + (a + mkr)`, and that index is inside the input. |
| FilledBand.MakeFilledBand | s2tbx-s2msi-idepix/src/main/java/org/esa/s2tbx/s2msi/idepix/operators/cloudshadow/S2IdepixCloudShadowOp.java:395-408 | The two nested loops make exactly the sequence of `setSample` calls the crop describes, in row-major order, and leave the tile as `FilledBand` describes. |
| FilledBand.CropReadsSamePixel | s2tbx-s2msi-idepix/src/main/java/org/esa/s2tbx/s2msi/idepix/operators/cloudshadow/S2IdepixCloudShadowOp.java:250-257 | Cropping an array laid out over `grow(r, r)` with border `r` gives each target pixel the array entry for that same pixel. |
| TileStack.Blank | s2tbx-s2msi-idepix/src/main/java/org/esa/s2tbx/s2msi/idepix/operators/cloudshadow/S2IdepixCloudShadowOp.java:257-264 | The working arrays start with one entry per pixel of the source rectangle, every entry zero. |
| TileStack.BeforeSegmentation | s2tbx-s2msi-idepix/src/main/java/org/esa/s2tbx/s2msi/idepix/operators/cloudshadow/S2IdepixCloudShadowOp.java:288-299 | After flag preparation and, when asked for, the mountain shadow stage, the working arrays still have one entry per source pixel. |
| TileStack.ShadowStages | s2tbx-s2msi-idepix/src/main/java/org/esa/s2tbx/s2msi/idepix/operators/cloudshadow/S2IdepixCloudShadowOp.java:316-329 | Cast shadow, shadow identification and shadow growing, run in that order, hand back arrays of the length they were given. |
| TileStack.Crop | s2tbx-s2msi-idepix/src/main/java/org/esa/s2tbx/s2msi/idepix/operators/cloudshadow/S2IdepixCloudShadowOp.java:298 | Cropping a source-rectangle array onto a tile fills the target rectangle pixel for pixel and leaves the rest of the tile alone. |
| TileStack.ComputeTileStack | s2tbx-s2msi-idepix/src/main/java/org/esa/s2tbx/s2msi/idepix/operators/cloudshadow/S2IdepixCloudShadowOp.java:292-336 | The working arrays keep the source rectangle's size throughout. A tile whose cluster count is zero leaves the flag band untouched; otherwise each target pixel of the flag band gets the final flag entry for that pixel, and the rest of the band is kept. The mountain shadow band is written only when asked for, from the mountain shadow array, pixel for pixel. |
| TileStack.TileStackRunsStages | s2tbx-s2msi-idepix/src/main/java/org/esa/s2tbx/s2msi/idepix/operators/cloudshadow/S2IdepixCloudShadowOp.java:288-336 | The stages run in the source's order. Preparation comes first, then mountain shadow when asked for, then segmentation, whose count is the tile's cluster count. With clouds, cast shadow, shadow identification and shadow growing follow on the segmented arrays; without clouds, the arrays stay as segmentation left them. The mountain band is the crop of the mountain shadow array. |
| TileStack.CloudFreeTileSkipsShadowStages | s2tbx-s2msi-idepix/src/main/java/org/esa/s2tbx/s2msi/idepix/operators/cloudshadow/S2IdepixCloudShadowOp.java:292-336 | Changing the three shadow stages never changes the cluster count, the mountain shadow array or the mountain shadow band, and on a cloud-free tile it changes nothing at all. |
| AnalysisMode.ParseMode | s2tbx-s2msi-idepix/src/main/java/org/esa/s2tbx/s2msi/idepix/operators/cloudshadow/S2IdepixCloudShadowOp.java:157-169 | `mode` selects a mode exactly when it is one of `LandWater`, `MultiBand`, `SingleBand`, and the mode selected is the one of that name. Every other value fails with the operator's error message. |
| AnalysisMode.ParseName | s2tbx-s2msi-idepix/src/main/java/org/esa/s2tbx/s2msi/idepix/operators/cloudshadow/S2IdepixCloudShadowOp.java:157-166 | Each mode is selected by its own name and by no other string. |
| CloudFlags.Code | s2tbx-s2msi-idepix/src/main/java/org/esa/s2tbx/s2msi/idepix/operators/cloudshadow/S2IdepixCloudShadowOp.java:104-110 | The category codes lie in `0 .. 6`. |
| CloudFlags.CategoryOf | s2tbx-s2msi-idepix/src/main/java/org/esa/s2tbx/s2msi/idepix/operators/cloudshadow/S2IdepixCloudShadowOp.java:104-110 | A code denotes a category exactly when it lies in `0 .. 6`. |
| CloudFlags.CodeRoundTrip | s2tbx-s2msi-idepix/src/main/java/org/esa/s2tbx/s2msi/idepix/operators/cloudshadow/S2IdepixCloudShadowOp.java:104-110 | Decoding a category's code gives the category back, and no other code decodes to it: the codes are distinct. |
| CloudFlags.Mask | s2tbx-s2msi-idepix/src/main/java/org/esa/s2tbx/s2msi/idepix/operators/cloudshadow/S2IdepixCloudShadowOp.java:341-347 | Each mask registered by the flag coding is a single non-zero bit. |
| CloudFlags.MaskBit | s2tbx-s2msi-idepix/src/main/java/org/esa/s2tbx/s2msi/idepix/operators/cloudshadow/S2IdepixCloudShadowOp.java:341-347 | The mask of a category has bit `i` set exactly when `i` is the category's code. |
| CloudFlags.MasksDisjoint | s2tbx-s2msi-idepix/src/main/java/org/esa/s2tbx/s2msi/idepix/operators/cloudshadow/S2IdepixCloudShadowOp.java:341-347 | Two categories' masks share no bit exactly when the categories differ. |
| CloudFlags.FlagCoding | s2tbx-s2msi-idepix/src/main/java/org/esa/s2tbx/s2msi/idepix/operators/cloudshadow/S2IdepixCloudShadowOp.java:340-347 | The coding has seven entries, and entry `i` is the category with code `i`. |
| CloudFlags.FlagCodingOnePerCategory | s2tbx-s2msi-idepix/src/main/java/org/esa/s2tbx/s2msi/idepix/operators/cloudshadow/S2IdepixCloudShadowOp.java:340-347 | Each category sits at its code's position, and the entries have pairwise distinct names and pairwise disjoint masks. |
| Tiling.DecideTiling | s2tbx-s2msi-idepix/src/main/java/org/esa/s2tbx/s2msi/idepix/operators/cloudshadow/S2IdepixCloudShadowOp.java:149-156 | The preferred tile never exceeds the raster. It equals the raster exactly when the raster fits the computed tile in both dimensions. The search border becomes zero exactly in that case or when the radius was already zero. Otherwise each preferred dimension is the smaller of raster and computed tile, and the radius is kept. |
| Tiling.DecideTilingIsMinimum | s2tbx-s2msi-idepix/src/main/java/org/esa/s2tbx/s2msi/idepix/operators/cloudshadow/S2IdepixCloudShadowOp.java:149-156 | In both branches each preferred dimension is the minimum of raster and computed tile, and the radius is kept exactly when the raster exceeds the tile in some dimension, else reset to 0. |
| Tiling.Initialize | s2tbx-s2msi-idepix/src/main/java/org/esa/s2tbx/s2msi/idepix/operators/cloudshadow/S2IdepixCloudShadowOp.java:141-172 | For a scene whose search bounds are non-zero, initialisation succeeds exactly when the mode parameter is valid, and otherwise fails with the operator's error message. On success the plan holds the named mode, the mountain shadow switch, the searched tile size per dimension, and the tiling decided from raster, tile sizes and radius. |
| Tiling.SmallSceneIsOneTile | s2tbx-s2msi-idepix/src/main/java/org/esa/s2tbx/s2msi/idepix/operators/cloudshadow/S2IdepixCloudShadowOp.java:143-156 | A raster smaller than the search bound in both dimensions becomes a single tile with search border 0. |

## Left out

- `determineSearchBorderRadius` and `determineSourceResolution`: floating point and product metadata. The search border radius enters the model as an integer parameter.
- Source product access: the band lookups, `getSourceTile`, sample reading, the `NaN` padding outside the scene, and the `FlagDetector` set-up.
- The helper stages (`PreparationMaskBand`, `MountainShadowAreasPathCentralPixel`, `SegmentationCloud`, `PotentialCloudShadowAreasPathCentralPixel`, `CloudShadowIDAnalyzer`, `GrowingCloudShadow`). They are not part of this model and enter `TileStack.ComputeTileStack` as function-valued parameters that only have to keep the array lengths.
- The commented-out haze detection and the debug bands (test A to D) of `computeTileStack`.
- `setupBitmasks` and the registration of masks and flag coding with the product: display colours and band-maths expressions are metadata. Only the bit layout is modelled.
- `BitSetter.setFlag` is not part of this model. `CloudFlags.SetFlag` assumes it ORs in bit `bitIndex` of a 32-bit int.
- The static `searchBorderRadius` and `spatialResolution` fields that all tiles share, and any concurrency between tile computations.
- The target tile of the flag band is assumed to cover `targetRectangle`: `targetTileCloudShadow.getRectangle()` is taken to be the target rectangle.
- `java.awt.Rectangle.grow` clamps on overflow, and `sourceRectangle.width * sourceRectangle.height` and `y * inputDataWidth + x` can overflow. All three are modelled in unbounded integers, assuming tiles are small enough that none overflows.
- TileSize.SourceTileSizeSpec: requires a raster size `>= 0`, an image tile size `>= 1` and a non-zero bound. A zero bound makes Java throw `ArithmeticException`, and that exception is not modelled.
- Tiling.Initialize: a `null` mode string (a `NullPointerException` in the `switch`) is not modelled.
- Tiling.Initialize: requires both search bounds to be non-zero. A search border radius of exactly 700 makes `1400 - r - r` zero, so the bound is zero for any image tile size below 2^30 (`TileSize.ZeroBoundAtBorder700`). Java then throws `ArithmeticException` at the division of line 198, before the mode is read. That exception is not modelled.
- TileStack.ComputeTileStack: requires a non-negative search border radius and a non-negative target size. It does not model exceptions thrown by the stages.
