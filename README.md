# clms-nvlcc raster helpers in Dafny

This project models the logic-bearing core of the `clms-nvlcc` notebook helpers,
which prepare and analyse imperviousness (IMD) and land-surface-temperature (LST)
rasters for a set of regions:

- **Template reprojection** (`reproject_by_template`): the template's bounds are
  normalised to `xmin ymin xmax ymax`, and an argument list for `gdalwarp` is
  assembled. That list holds the user's extra tokens, the optional nodata pairs,
  resolution, extent, CRS, resampling method and LZW-compressed GeoTIFF output.
- **Shapefile rasterisation** (`rasterize_shapefile`): the pixel counts are the
  truncated quotients of the layer extent by the resolution. They go into a
  `gdal_rasterize` argument list with a byte raster, initial value 0 and burn
  value 1.
- **Region clipping batch** (the script part of `image_preparation.py`): each
  region shapefile gets an output name made from the raster stem and the region
  tag. A clip is run only when that output does not yet exist.
- **Substring file filter** (`list_filepaths`): directory entries containing all
  (or any) inclusion patterns and no exclusion pattern, joined to the directory,
  in listing order.
- **Raster reader** (`read_image`): the code picks the region's dataset file, turns
  nodata into NaN and reports the bounds in `[[south, west], [north, east]]`
  order. It also reports the NaN-ignoring minimum and maximum and the upper-cased
  CRS. It can also mask the pixels below a threshold and return their positions.
- **Array reconciliation** (`match_array_shape` and the analysis functions):
  - the NaN↔255 sentinel round trip on the resampled IMD grid;
  - `np.repeat` of the LST grid on both axes;
  - the cells handed to the statistics;
  - the grouping of LST cells by distinct IMD value;
  - the paired exclusion loop;
  - the `mask_by` dispatch and the in-place masking of both grids.

Pixels are `Cell = NaN | Val(v: real)` with IEEE comparison semantics (`Eq`, `Below`).
Grids are rectangular `seq<seq<Cell>>`.

Where the code changes an array in place, the model is a method on an `array2<Cell>`.
Its `modifies` clause names that array, and its postconditions relate every cell to
the cell before the call. Where the code is a pure expression, the model is a
function. Lemmas then state the promised properties about it.

Modules: `Outcomes` (Option, Result, Python exceptions), `Seqs` (filter, kept
indices, zip), `Text` (substring test, `split`, `str(int)`, `upper`), `OsPath`
(`join`, `basename`), `Rasters` (cells, grids, raster metadata, element-wise
in-place update), `Utils`, `ImagePreparation`, `Images`, `Analysis`.

External collaborators are parameters:

- the directory listing is a `seq<string>`;
- the files the raster library can open are a `map<string, RasterFile>`;
- the paths that already exist are a `set<string>`;
- the region lookup table is a `map<string, seq<RegionField>>`;
- the vector layer's extent is a `LayerExtent`;
- `str()` of a float is a function `fmt: real -> string`;
- `np.nanmean` is a function `seq<Cell> -> Cell`;
- the array `scipy.ndimage.zoom` returns is an `array2<Cell>` of the target shape.

## Behaviour followed where the code and its descriptions differ

- `read_image` is described as resolving a *unique* matching file. The code takes
  element `[0]` of the matches, so several matches are not an error
  (`Images.SelectDataset`, `Images.SelectDatasetIsFirstMatch`).
- The rasterised pixel counts are described as a floor. The code uses `int()`,
  which truncates toward zero; `Rasters.TruncTowardZero` models that. The two agree
  for ordered extents and positive resolutions (`ImagePreparation.PixelCountsFit`).
- A region descriptor is described as a triple (centre, zoom, label). The code
  reads field index 3 as the label. The model therefore raises `IndexError` for a
  descriptor with three or fewer fields (`Images.ImageField`).

## Model

| member | source | states |
|---|---|---|
| Utils.ListFilepaths | modules/utils.py:8-34 | the warning is printed exactly when the result is empty and `print_warning` holds; the result is never longer than the listing |
| Utils.ListFilepathsExact | modules/utils.py:29 | the result is exactly `join(dir, name)` for the accepted names, at strictly increasing listing positions: a name's position is kept iff it passes both predicates |
| Utils.ListFilepathsSound | modules/utils.py:19-29 | every returned path is `join(dir, n)` of a listed `n` that contains all (all-mode) or some (any-mode) inclusion pattern and no exclusion pattern |
| Utils.ListFilepathsComplete | modules/utils.py:29 | every listed name passing both predicates is returned |
| Utils.EmptyPatternLists | modules/utils.py:19-27 | empty `patterns_in` accepts every name in all-mode and none in any-mode; empty `patterns_out` excludes nothing |
| Utils.AnyModeWithoutPatterns | modules/utils.py:22-34 | any-mode with no inclusion pattern returns the empty list, not an error, and warns iff asked to |
| Utils.WarningDoesNotChangeResult | modules/utils.py:31-34 | `print_warning` does not change the returned list |
| Seqs.Filter | modules/utils.py:29 | the comprehension keeps only elements of the input that satisfy the condition |
| Seqs.FilterSelects | modules/utils.py:29 | the comprehension is the subsequence at the positions whose element satisfies the condition, in order |
| Text.ContainsIffOccurs | modules/utils.py:21 | `p in s` holds iff `p` occurs at some position of `s` |
| Text.Split | image_preparation.py:38 | `split(' ')` gives at least one piece and no piece contains the separator |
| Text.JoinSplit | image_preparation.py:38 | joining the pieces of `split(c)` with `c` gives the string back |
| Text.SplitJoin | image_preparation.py:38 | splitting the join of separator-free pieces gives the pieces back |
| Text.SplitCount | image_preparation.py:38 | `split(c)` has one piece more than there are `c` characters, so repeated spaces give empty tokens |
| Text.SplitNoSeparator | image_preparation.py:200-201 | a string without the separator splits into itself |
| Text.SplitAtSeparator | image_preparation.py:200-201 | splitting `a + c + b` is the split of `a` followed by the split of `b` |
| Text.BeforeFirst | image_preparation.py:200 | `split('.')[0]` is a prefix without '.', followed in the string by '.' when shorter |
| Text.AfterLast | image_preparation.py:201 | `split('_')[-1]` is a suffix without '_', preceded in the string by '_' when shorter |
| Text.NatToDecimal | image_preparation.py:85 | `str(n)` is a non-empty digit string without a leading zero unless `n` is 0 |
| Text.IntDecimalRoundTrip | image_preparation.py:85 | `int(str(i)) == i` for every integer |
| Text.Upper | modules/images.py:78 | `.upper()` keeps the length, turns each lower-case ASCII letter into its upper-case letter (code point minus 32), leaves no lower-case ASCII letter and changes no other character |
| Text.UpperIdempotent | modules/images.py:78 | upper-casing twice is upper-casing once |
| OsPath.Join | modules/utils.py:29 | `os.path.join(a, b)` is `b` for an absolute `b`, otherwise `a + b` or `a + '/' + b` |
| OsPath.BaseName | image_preparation.py:200 | `basename` is the suffix after the last '/': it holds no '/' and is preceded in the path by '/' when shorter |
| OsPath.BaseNameOfJoin | image_preparation.py:201-202 | the basename of `join(dir, name)` is `name` for a name without '/' |
| ImagePreparation.NormalizeExtent | image_preparation.py:31-34 | `ulx <= lrx` and `lry <= uly`, each pair being the template's own pair of coordinates |
| ImagePreparation.NormalizeIgnoresAxisOrder | image_preparation.py:31-34 | swapping left/right or bottom/top in the template does not change the extent |
| ImagePreparation.NormalizeCoversBounds | image_preparation.py:31-34 | a coordinate lies in the normalised extent iff it lies between the template's two coordinates |
| ImagePreparation.NormalizeIdempotent | image_preparation.py:31-34 | normalising a normalised extent changes nothing |
| ImagePreparation.UserTokens | image_preparation.py:37-40 | no tokens for the empty string; otherwise one token more than there are spaces, none containing a space, joining back to the argument string |
| ImagePreparation.NodataText | image_preparation.py:43 | `str(src_no_data)` is `None` without a nodata value, `nan` for a NaN one, and the formatted number otherwise |
| ImagePreparation.NodataArguments | image_preparation.py:42-46 | `-srcnodata str(nodata)` is present iff `use_src_nodata`, `-dstnodata str(target)` iff a target is given, source pair first |
| ImagePreparation.WarpOptions | image_preparation.py:51-56 | `-tr` gets the resolution twice, `-te` gets xmin ymin xmax ymax of the normalised extent, then `-t_srs` CRS, `-r` method, `-of GTiff`, `-co compress=LZW` |
| ImagePreparation.ReprojectCommand | image_preparation.py:24-58 | the command is `gdalwarp`, then the user tokens, then the nodata pairs, then the fixed options, then input and output |
| Rasters.TruncTowardZero | image_preparation.py:79-80 | `int(x)` lies within 1 of `x` on the side of zero |
| ImagePreparation.PixelCounts | image_preparation.py:79-80 | a zero resolution raises `ZeroDivisionError`, and only then |
| ImagePreparation.PixelCountsFit | image_preparation.py:79-80 | for a positive resolution the counts are the whole pixels that fit, and 0 exactly when the resolution exceeds the extent |
| ImagePreparation.WholePixels | image_preparation.py:79 | `n * res <= w < (n + 1) * res` for `n = int(w / res)` |
| ImagePreparation.SquareLayerPixelCounts | image_preparation.py:79-80 | a 100 by 100 layer at resolution 10 gives 10 by 10 pixels |
| ImagePreparation.RasterizeCommand | image_preparation.py:82-92 | 21 tokens: `gdal_rasterize`, `-te` xmin ymin xmax ymax, `-ts` with the pixel counts as `str(int)` decimals (sign, then digits without a leading zero) that read back as those counts, byte type, GeoTIFF, LZW, `-init 0`, `-burn 1`, input, output |
| ImagePreparation.LayerName | image_preparation.py:200 | the layer name is the base name of the shapefile up to its first '.', with no '.' or '/' |
| ImagePreparation.RegionTagIsLastPiece | image_preparation.py:201 | `RegionTag` is the text after the last '_' of the layer name, with no '_' or '.' |
| ImagePreparation.ClipCommandTokens | image_preparation.py:207-212 | `ClipCommand` is `gdalwarp -overwrite -t_srs <proj> -of GTiff -cutline <shp> -cl <layer> -crop_to_cutline -co compress=LZW <raster> <output>` |
| ImagePreparation.ClipOutputName | image_preparation.py:200-201 | the output name starts with the raster stem and '_', ends with '.tif' and has no '/' |
| ImagePreparation.ClipOutputNameParts | image_preparation.py:200-201 | the output name is exactly `<raster stem> + '_' + RegionTag(shp) + '.tif'`, the raster stem being its basename up to the first '.' |
| ImagePreparation.ClipOutputInFolder | image_preparation.py:201-202 | the output path's basename is the output name |
| ImagePreparation.Steps | image_preparation.py:197-219 | the loop yields one step per shapefile |
| ImagePreparation.StepsAt | image_preparation.py:205-219 | for any naming of outputs, an item is clipped iff its output neither existed nor belongs to an earlier item; the clip uses that output; otherwise the output is reported |
| ImagePreparation.ClipPlan | image_preparation.py:197-219 | one step per shapefile |
| ImagePreparation.ClipPlanStep | image_preparation.py:205-219 | a shapefile is clipped iff its output neither existed nor was written for an earlier shapefile; the clip command names that output; otherwise the existing output is reported |
| ImagePreparation.ClipOutputsFreshAndDistinct | image_preparation.py:205-212 | no clip overwrites a pre-existing file and no two clips write the same output |
| ImagePreparation.ClipToRegions | image_preparation.py:192-219 | the batch over the `.shp` (not `.aux`) files of the folder performs exactly the planned steps |
| ImagePreparation.ClipEach | image_preparation.py:197-219 | the loop with its growing set of existing files performs exactly the planned steps |
| Images.ImageField | modules/images.py:62 | `KeyError` exactly for a missing region, `IndexError` exactly for a descriptor of three or fewer fields; otherwise field 3, whatever it holds |
| Images.SelectDataset | modules/images.py:62-65 | lookup errors propagate; with a text label, `IndexError` exactly when no listed name has all four patterns and no `.aux`; with a non-text field 3, `TypeError` exactly when some listed name contains the dataset label (the `all` stops at the first pattern otherwise), else `IndexError` |
| Images.NoMatchIffEmpty | modules/images.py:65 | the filtered listing is empty iff no name matches |
| Images.SelectDatasetIsFirstMatch | modules/images.py:65 | the chosen path is `join(dir, n)` for the first listed name `n` that matches |
| Images.AuxSidecarSkipped | modules/images.py:65 | with `X.tif.aux.xml` listed before the dataset file `X.tif`, and `X.tif` itself free of `.aux`, the `.tif` is chosen |
| Images.DatasetFileMatches | modules/images.py:63-65 | a file named `<label>_<region>_4326.tif` is selected for its labels exactly when the name holds no `.aux` |
| Images.NodataCellMeaning | modules/images.py:73 | a cell becomes NaN iff it is NaN or equals the nodata value; no nodata or a NaN nodata changes nothing |
| Images.MaskCellMeaning | modules/images.py:88-89 | a cell becomes NaN iff it is NaN or below the threshold; masking twice is masking once |
| Images.NanMin | modules/images.py:84 | NaN iff all cells are NaN; otherwise a number of the array not above any number in it |
| Images.NanMax | modules/images.py:85 | NaN iff all cells are NaN; otherwise a number of the array not below any number in it |
| Images.MinAtMostMax | modules/images.py:84-85 | with one number present, `nanmin <= nanmax` |
| Images.NanMinMax | modules/images.py:84-85 | an array without cells raises `ValueError`; otherwise the row-major pass yields `nanmin` and `nanmax` of the cells |
| Images.ScanRow | modules/images.py:84-85 | one row of the pass turns the minimum and maximum of the cells before the row into those of the cells up to its end |
| Images.RowBelow | modules/images.py:88 | every listed position of the row holds a cell below the threshold |
| Images.BelowMask | modules/images.py:88 | every listed position is in the grid and holds a cell below the threshold |
| Images.BelowMaskComplete | modules/images.py:88 | every cell below the threshold is listed |
| Images.BelowMaskOrdered | modules/images.py:88 | positions are listed in strictly increasing row-major order |
| Images.MaskBelow | modules/images.py:87-89 | returns exactly the positions below the threshold and turns exactly those cells into NaN |
| Images.MaskRow | modules/images.py:88-89 | one row of the above; other rows unchanged |
| Images.OverlayBounds | modules/images.py:82 | two (latitude, longitude) corners from which left, bottom, right, top are read back |
| Images.Unmasked | modules/images.py:71-73 | the nodata-masked band has the band's shape |
| Images.ReadImage | modules/images.py:56-96 | lookup, selection, open and zero-size errors as in the code; otherwise a fresh array, overlay bounds, upper-cased CRS, min/max after nodata and before threshold masking, and the mask iff a threshold is given |
| Images.ReportedRangeOrdered | modules/images.py:84-85 | with one non-NaN pixel after nodata masking, the reported minimum does not exceed the maximum |
| Images.MaskedArrayMeaning | modules/images.py:87-94 | after masking no pixel is below the threshold, a position is in the mask iff its pixel was below, and unmasked pixels keep their value |
| Rasters.FromGrid | modules/images.py:71 | a fresh array holding the band's cells |
| Rasters.MapInPlace | modules/images.py:73 | every cell is replaced by the function of its old value |
| Rasters.FlattenAt | modules/analysis.py:193 | `flatten()` puts cell (i, j) at `i * width + j` |
| Analysis.SentinelCell | modules/analysis.py:93-98 | NaN iff the input is NaN or truncates to 255; otherwise an integer other than 255 within 1 of the input on the side of zero |
| Analysis.SentinelIdempotent | modules/analysis.py:93-98 | a second round trip changes nothing |
| Analysis.RepeatEach | modules/analysis.py:102 | `np.repeat(xs, s)` has `s * len(xs)` elements, all from `xs` |
| Analysis.RepeatEachAt | modules/analysis.py:102 | element `i` fills positions `s*i` to `s*i + s - 1` |
| Analysis.RepeatEachCell | modules/analysis.py:102 | position `p` holds element `p / s` |
| Analysis.RepeatGrid | modules/analysis.py:102 | the repeated grid has shape `(s*h, s*w)` |
| Analysis.RepeatGridAt | modules/analysis.py:102 | `out[s*i+a][s*j+b] == lst[i][j]` for `a, b < s` |
| Analysis.RepeatGridCell | modules/analysis.py:102 | every `out[p][q]` is `lst[p/s][q/s]` |
| Analysis.MatchArrayShape | modules/analysis.py:79-104 | an IMD grid without rows or columns raises `ZeroDivisionError` before any change; otherwise every zoomed cell gets the sentinel round trip and the LST result is the repeated grid |
| Analysis.StatisticsInput | modules/analysis.py:193 | only non-excluded cells of the grid reach the statistics |
| Analysis.StatisticsInputExact | modules/analysis.py:193 | the statistics see exactly the non-excluded cells, NaN included, in row-major order |
| Analysis.StatisticsInputComplete | modules/analysis.py:193 | every non-excluded cell reaches the statistics |
| Analysis.NothingExcluded | modules/analysis.py:193 | with nothing excluded the statistics see the flattened grid |
| Analysis.Numbers | modules/analysis.py:128 | `arr[~isnan(arr)]` holds exactly the numbers of the array |
| Analysis.Insert | modules/analysis.py:128 | inserting keeps a sequence strictly increasing and adds exactly the new value |
| Analysis.Unique | modules/analysis.py:128 | `np.unique` is strictly increasing with the same values as its input |
| Analysis.IncreasingUnique | modules/analysis.py:128 | two strictly increasing sequences with the same values are equal, so `np.unique` is determined |
| Analysis.ImdValues | modules/analysis.py:128 | the plotted IMD values are ascending and are exactly the numbers occurring in the IMD grid |
| Analysis.GroupExact | modules/analysis.py:135 | `lst[imd == v]` is the LST cells, row-major, at exactly the positions where IMD equals `v` |
| Analysis.GroupNonEmpty | modules/analysis.py:132-135 | every plotted IMD value has at least one LST cell |
| Analysis.ScatterGroups | modules/analysis.py:127-142 | `IndexError` when there is a value to look up and the shapes differ; otherwise one entry per distinct IMD value, ascending, each paired with the mean of its group |
| Analysis.ExcludeValues | modules/analysis.py:169-172 | the loop leaves exactly the pairs whose IMD value is not excluded, aligned and in order |
| Analysis.ExcludeStep | modules/analysis.py:170-172 | one iteration filters the pairs kept so far by one more value |
| Analysis.ExclusionMeaning | modules/analysis.py:169-172 | no remaining IMD value is excluded; pairs stay aligned, in order; a pair is dropped iff its IMD value is excluded |
| Analysis.ParseMaskBy | modules/analysis.py:241-246 | `'LST'` and `'IMD'` select their mode; anything else raises `ValueError` with the code's message |
| Analysis.MaskedMeaning | modules/analysis.py:241-244 | `Masked`: in LST mode a pixel is masked iff its LST value is a number below the threshold; in IMD mode iff its IMD cell is NaN, below the threshold or 255 |
| Analysis.ImdMaskAfterSentinel | modules/analysis.py:244 | after the sentinel round trip the `== 255` clause of the IMD mask never fires |
| Analysis.MaskArea | modules/analysis.py:241-249 | an invalid `mask_by` raises before any change; otherwise a pixel is masked in both grids iff the mode's condition holds on the old cells, and every other pixel is unchanged |

## Left out

- Running `gdalwarp` and `gdal_rasterize` (`subprocess.run`, `capture_output`) is
  left out, along with opening rasters and layers (`rasterio.open`, `ogr.Open`),
  `os.listdir`, `os.path.exists`, `os.makedirs` and every `print`. They are foreign
  processes and I/O. Their results are parameters.
- The module-level hard-coded paths and the commented-out rasterise loop of
  `image_preparation.py` are left out. They are configuration, not logic.
- `str()` of a float is the parameter `fmt`. Python's shortest-repr float formatting
  is not reproduced. `fmt` also stands for `str()` of a Python number that may be an
  `int`: the script passes `target_res=70`, which prints as `70`, while a float
  bound of 70.0 prints as `70.0`; the model does not tell the two apart.
- ImagePreparation.PixelCounts: the extent arithmetic `(x_max - x_min) / target_res`
  is exact on reals, not IEEE double. The program's count can be one lower when
  the double quotient rounds just below an integer (0.3 / 0.1 gives
  2.9999999999999996, so 2 pixels, where the model gives 3). `PixelCountsFit` and
  `WholePixels` hold for the exact quotient only.
- Float32 precision and the `astype(np.float32)` cast are left out. Cells are exact
  reals, so a nodata value that is not representable in float32 compares as in
  exact arithmetic.
- Overflow of `astype(int)` and infinite cells are left out. `TruncTowardZero` is
  exact on unbounded integers.
- `scipy.ndimage.zoom` (bilinear resampling) is left out; it is foreign
  floating-point numerics. Its result is the `zoomed` array parameter.
- The statistics values (`np.nanmean`, `np.nanmedian`, `np.nanpercentile`) are
  left out. So is the interquartile-range outlier filter of
  `generate_scatter_plot` (modules/analysis.py:149-165). They are float numerics
  with numpy's interpolation rules. Only which values feed them is modelled;
  `np.nanmean` is a parameter.
- `calculate_statistics` (modules/analysis.py:12-33) is left out, and so are the
  `read_image(region, label)` calls at modules/analysis.py:48, 116, 119, 233 and
  236. As written they pass two arguments to a function that needs at least three,
  which raises `TypeError`. The model covers the array steps that follow, on grids
  passed as parameters.
- Rendering and widgets are left out: the matplotlib, PIL, folium and ipywidgets
  plumbing. This covers `plot_histograms`, `visualize_datasets`, `save_as_png`,
  `save_as_png_test`, the map part of `analyze_masked_area`, `define_colormap`,
  `choose_region`, `choose_lower_bound` and modules/maps.py.
- `regions_dict` (modules/regions_dict.py) is not part of this model. It is the
  `Regions` parameter, and only field 3 of a descriptor is read.
- Text.Upper: models ASCII upper-casing only. CRS strings are ASCII; Unicode case
  mapping is not modelled.
- A grid with no rows has width 0 in the model, so shapes `(0, w)` and `(0, 0)`
  cannot be told apart.
- Analysis.MatchArrayShape: takes a `nat` scaling factor, so negative factors are
  not modelled. It requires `zoomed` to have shape `(s·h, s·w)`, which is what the
  zoom factors ask of the resampler; the resampler itself is not modelled.
- Images.MaskBelow: `np.where` returns a tuple of row and column index arrays. The
  model returns the same positions as a sequence of (row, column) pairs, in the
  same order.
- Analysis.MaskArea: requires two distinct arrays of equal shape, as
  `match_array_shape` produces them. The numpy `IndexError` for mismatched shapes
  is not modelled.
- Analysis.ExcludeValues: requires the IMD and LST lists to have equal length, as
  `Analysis.ScatterGroups` guarantees. The `IndexError` for unequal lengths is not
  modelled.
- OsPath.Join: states only that the result is `b` for an absolute `b`, or
  otherwise `a + b` or `a + '/' + b`. Which of the two applies is not stated in the
  contract; the lemma `OsPath.BaseNameOfJoin` covers what the model needs.
- ImagePreparation.ClipPlan: assumes that each clip creates its output file, so a
  later shapefile with the same output name is skipped. A failing `gdalwarp` run
  is not modelled.
- The unused reads in `reproject_by_template` (`src.res`) and
  `rasterize_shapefile` (`GetSpatialRef`) are left out; they do not affect the
  result.
