/** image_preparation.py: the argument lists handed to `gdalwarp` and
    `gdal_rasterize`, and the batch loop that clips a raster to every region
    shapefile of a folder. The tools themselves are not modelled; `fmt` stands for
    Python's `str()` of a float, which the model does not reproduce. */
module ImagePreparation {
  import opened Outcomes
  import opened Text
  import opened OsPath
  import opened Rasters
  import Utils

  // ---------------------------------------------------------------------------
  // reproject_by_template
  // ---------------------------------------------------------------------------

  /** The target extent of `gdalwarp -te`: upper-left x, lower-right y, lower-right x, upper-left y. */
  datatype Extent = Extent(ulx: real, lry: real, lrx: real, uly: real)

  function Min(a: real, b: real): real { if a <= b then a else b }
  function Max(a: real, b: real): real { if a <= b then b else a }

  /** Extent normalisation: whichever way round the template stores its axes,
      `ulx <= lrx` and `lry <= uly`, and each pair is the template's own pair of coordinates. */
  function NormalizeExtent(b: Bounds): (e: Extent)
    ensures e.ulx <= e.lrx && e.lry <= e.uly
    ensures (e.ulx == b.left && e.lrx == b.right) || (e.ulx == b.right && e.lrx == b.left)
    ensures (e.lry == b.bottom && e.uly == b.top) || (e.lry == b.top && e.uly == b.bottom)
  {
    Extent(Min(b.left, b.right), Min(b.bottom, b.top), Max(b.left, b.right), Max(b.bottom, b.top))
  }

  /** Swapping the two x coordinates, or the two y coordinates, of the template does not change the extent. */
  lemma NormalizeIgnoresAxisOrder(b: Bounds)
    ensures NormalizeExtent(Bounds(b.right, b.bottom, b.left, b.top)) == NormalizeExtent(b)
    ensures NormalizeExtent(Bounds(b.left, b.top, b.right, b.bottom)) == NormalizeExtent(b)
  {
  }

  /** The normalised extent covers exactly the points between the template's coordinates. */
  lemma NormalizeCoversBounds(b: Bounds, x: real, y: real)
    ensures var e := NormalizeExtent(b);
      (e.ulx <= x <= e.lrx <==> (b.left <= x <= b.right || b.right <= x <= b.left))
      && (e.lry <= y <= e.uly <==> (b.bottom <= y <= b.top || b.top <= y <= b.bottom))
  {
  }

  /** Normalising an extent that is already normalised changes nothing. */
  lemma NormalizeIdempotent(b: Bounds)
    ensures var e := NormalizeExtent(b); NormalizeExtent(Bounds(e.ulx, e.lry, e.lrx, e.uly)) == e
  {
  }

  /** `additional_arguments.split(' ')`, or no tokens for the empty string. Repeated
      spaces give empty tokens, which are kept; joining the tokens with single
      spaces gives back the argument string. */
  function UserTokens(additional: string): (r: seq<string>)
    ensures |additional| == 0 ==> r == []
    ensures |additional| > 0 ==> |r| == multiset(additional)[' '] + 1 && JoinWith(r, ' ') == additional
    ensures forall k :: 0 <= k < |r| ==> ' ' !in r[k]
  {
    if |additional| > 0 then
      JoinSplit(additional, ' ');
      SplitCount(additional, ' ');
      Split(additional, ' ')
    else []
  }

  /** Python's `str(src.nodata)`: `'None'` when the template has no nodata value. */
  function NodataText(nodata: Option<Cell>, fmt: real -> string): (r: string)
    ensures nodata.None? ==> r == "None"
    ensures nodata == Some(NaN) ==> r == "nan"
    ensures nodata.Some? && nodata.value.Val? ==> r == fmt(nodata.value.v)
  {
    match nodata
    case None => "None"
    case Some(NaN) => "nan"
    case Some(Val(v)) => fmt(v)
  }

  /** The optional nodata pairs: `-srcnodata` iff `use_src_nodata`, `-dstnodata` iff
      a target nodata value is given, the source pair first. */
  function NodataArguments(useSrcNodata: bool, srcNodata: Option<Cell>, targetNodata: Option<real>,
                           fmt: real -> string): (r: seq<string>)
    ensures |r| == (if useSrcNodata then 2 else 0) + (if targetNodata.Some? then 2 else 0)
    ensures useSrcNodata ==> r[..2] == ["-srcnodata", NodataText(srcNodata, fmt)]
    ensures targetNodata.Some? ==> r[|r| - 2..] == ["-dstnodata", fmt(targetNodata.value)]
  {
    (if useSrcNodata then ["-srcnodata", NodataText(srcNodata, fmt)] else [])
      + (if targetNodata.Some? then ["-dstnodata", fmt(targetNodata.value)] else [])
  }

  /** The fixed warp options: the resolution twice, the normalised extent as
      xmin ymin xmax ymax, the template's CRS, the resampling method, LZW-compressed GeoTIFF. */
  function WarpOptions(template: RasterFile, targetRes: real, resamplingMethod: string,
                       fmt: real -> string): (r: seq<string>)
    ensures |r| == 16
    ensures var e := NormalizeExtent(template.bounds);
      && r[..3] == ["-tr", fmt(targetRes), fmt(targetRes)]
      && r[3..8] == ["-te", fmt(e.ulx), fmt(e.lry), fmt(e.lrx), fmt(e.uly)]
      && r[8..12] == ["-t_srs", template.crs, "-r", resamplingMethod]
      && r[12..] == ["-of", "GTiff", "-co", "compress=LZW"]
  {
    var e := NormalizeExtent(template.bounds);
    ["-tr", fmt(targetRes), fmt(targetRes),
     "-te", fmt(e.ulx), fmt(e.lry), fmt(e.lrx), fmt(e.uly),
     "-t_srs", template.crs,
     "-r", resamplingMethod,
     "-of", "GTiff",
     "-co", "compress=LZW"]
  }

  /** `reproject_by_template`'s command: `gdalwarp`, the user's tokens, the optional
      nodata pairs, the fixed options, then input and output. `template` is what the
      raster library reports about the template file. */
  method ReprojectCommand(rasterIn: string, template: RasterFile, rasterOut: string, targetRes: real,
                          resamplingMethod: string, useSrcNodata: bool, targetNodata: Option<real>,
                          additionalArguments: string, fmt: real -> string)
    returns (cmd: seq<string>)
    ensures cmd == ["gdalwarp"] + UserTokens(additionalArguments)
                 + NodataArguments(useSrcNodata, template.nodata, targetNodata, fmt)
                 + WarpOptions(template, targetRes, resamplingMethod, fmt)
                 + [rasterIn, rasterOut]
  {
    var e := NormalizeExtent(template.bounds);
    var extra: seq<string>;
    if |additionalArguments| > 0 {
      extra := Split(additionalArguments, ' ');
    } else {
      extra := [];
    }
    ghost var user := extra;
    assert user == UserTokens(additionalArguments);
    if useSrcNodata {
      extra := extra + ["-srcnodata", NodataText(template.nodata, fmt)];
    }
    if targetNodata.Some? {
      extra := extra + ["-dstnodata", fmt(targetNodata.value)];
    }
    assert extra == user + NodataArguments(useSrcNodata, template.nodata, targetNodata, fmt);
    var options := [
      "-tr", fmt(targetRes), fmt(targetRes),
      "-te", fmt(e.ulx), fmt(e.lry), fmt(e.lrx), fmt(e.uly),
      "-t_srs", template.crs,
      "-r", resamplingMethod,
      "-of", "GTiff",
      "-co", "compress=LZW"];
    assert options == WarpOptions(template, targetRes, resamplingMethod, fmt);
    cmd := ["gdalwarp"] + extra + options + [rasterIn, rasterOut];
  }

  // ---------------------------------------------------------------------------
  // rasterize_shapefile
  // ---------------------------------------------------------------------------

  /** A vector layer's extent in the order `GetExtent()` returns it. */
  datatype LayerExtent = LayerExtent(xMin: real, xMax: real, yMin: real, yMax: real)

  /** The `-ts` pixel counts `int((x_max - x_min) / target_res)` and
      `int((y_max - y_min) / target_res)`; a zero resolution raises. */
  function PixelCounts(ext: LayerExtent, targetRes: real): (r: Result<(int, int)>)
    ensures r.Err? <==> targetRes == 0.0
    ensures r.Err? ==> r.error == ZeroDivisionError
  {
    if targetRes == 0.0 then Err(ZeroDivisionError)
    else Ok((TruncTowardZero((ext.xMax - ext.xMin) / targetRes),
             TruncTowardZero((ext.yMax - ext.yMin) / targetRes)))
  }

  /** For a positive resolution and an ordered extent, the count is the number of
      whole pixels that fit: `n * res <= width < (n + 1) * res`; it is 0 exactly
      when the resolution exceeds the width. */
  lemma PixelCountsFit(ext: LayerExtent, targetRes: real)
    requires targetRes > 0.0 && ext.xMin <= ext.xMax && ext.yMin <= ext.yMax
    ensures var r := PixelCounts(ext, targetRes);
      var w, h := ext.xMax - ext.xMin, ext.yMax - ext.yMin;
      && r.Ok? && r.value.0 >= 0 && r.value.1 >= 0
      && r.value.0 as real * targetRes <= w < (r.value.0 as real + 1.0) * targetRes
      && r.value.1 as real * targetRes <= h < (r.value.1 as real + 1.0) * targetRes
      && (r.value.0 == 0 <==> w < targetRes)
      && (r.value.1 == 0 <==> h < targetRes)
  {
    var w, h := ext.xMax - ext.xMin, ext.yMax - ext.yMin;
    WholePixels(w, targetRes);
    WholePixels(h, targetRes);
  }

  lemma WholePixels(w: real, res: real)
    requires res > 0.0 && w >= 0.0
    ensures var n := TruncTowardZero(w / res);
      n >= 0 && n as real * res <= w < (n as real + 1.0) * res && (n == 0 <==> w < res)
  {
    var q := w / res;
    assert q * res == w;
    assert q >= 0.0;
    var n := TruncTowardZero(q);
    var m := n as real;
    var below, above := q - m, m + 1.0 - q;
    assert below >= 0.0 && above > 0.0;
    PositiveProduct(below, res);
    PositiveProduct(above, res);
    assert below * res == w - m * res;
    assert above * res == (m + 1.0) * res - w;
    assert w < (m + 1.0) * res;
  }

  lemma PositiveProduct(a: real, b: real)
    requires a >= 0.0 && b > 0.0
    ensures a * b >= 0.0 && (a > 0.0 ==> a * b > 0.0)
  {
  }

  /** A 100 x 100 layer rasterised at resolution 10 gives a 10 x 10 grid. */
  lemma SquareLayerPixelCounts()
    ensures PixelCounts(LayerExtent(0.0, 100.0, 0.0, 100.0), 10.0) == Ok((10, 10))
  {
    assert 100.0 / 10.0 == 10.0;
  }

  /** `rasterize_shapefile`'s command: `-te x_min y_min x_max y_max`, `-ts` with the
      pixel counts as decimal integers, a byte raster initialised to 0 with 1 burnt
      into the shapes, then input and output. */
  function RasterizeCommand(inputImage: string, outputImage: string, ext: LayerExtent,
                            targetRes: real, fmt: real -> string): (r: Result<seq<string>>)
    ensures r.Err? <==> targetRes == 0.0
    ensures r.Ok? ==> var c := r.value;
      && |c| == 21
      && c[0] == "gdal_rasterize"
      && c[1..6] == ["-te", fmt(ext.xMin), fmt(ext.yMin), fmt(ext.xMax), fmt(ext.yMax)]
      && c[6] == "-ts"
      && c[7..9] == [IntToDecimal(PixelCounts(ext, targetRes).value.0),
                     IntToDecimal(PixelCounts(ext, targetRes).value.1)]
      && ParseInt(c[7]) == PixelCounts(ext, targetRes).value.0
      && ParseInt(c[8]) == PixelCounts(ext, targetRes).value.1
      && c[9..19] == ["-ot", "Byte", "-of", "GTiff", "-co", "COMPRESS=LZW", "-init", "0", "-burn", "1"]
      && c[19..] == [inputImage, outputImage]
  {
    var counts := PixelCounts(ext, targetRes);
    if counts.Err? then Err(counts.error)
    else
      var xRes, yRes := counts.value.0, counts.value.1;
      IntDecimalRoundTrip(xRes);
      IntDecimalRoundTrip(yRes);
      var head := ["gdal_rasterize",
                   "-te", fmt(ext.xMin), fmt(ext.yMin), fmt(ext.xMax), fmt(ext.yMax),
                   "-ts", IntToDecimal(xRes), IntToDecimal(yRes)];
      var options := ["-ot", "Byte", "-of", "GTiff", "-co", "COMPRESS=LZW", "-init", "0", "-burn", "1"];
      var c := head + options + [inputImage, outputImage];
      assert c[1..6] == head[1..6];
      assert c[9..19] == options;
      Ok(c)
  }

  // ---------------------------------------------------------------------------
  // The clip batch: one `gdalwarp -cutline` per region shapefile
  // ---------------------------------------------------------------------------

  /** `shp_files = list_filepaths(folder, ['.shp'], ['.aux'])`. */
  function ShapefilePaths(folder: string, names: seq<string>): seq<string> {
    Utils.ListFilepaths(folder, names, [".shp"], [".aux"], true, true).paths
  }

  /** `shp_filename`: the shapefile's base name up to its first '.', used as the cutline layer. */
  function LayerName(shp: string): (r: string)
    ensures '.' !in r && '/' !in r && IsPrefix(r, BaseName(shp))
    ensures |r| < |BaseName(shp)| ==> BaseName(shp)[|r|] == '.'
  {
    NotInPrefix('/', BeforeFirst(BaseName(shp), '.'), BaseName(shp));
    BeforeFirst(BaseName(shp), '.')
  }

  /** The region tag, `shp_filename.split('_')[-1]`. */
  function RegionTag(shp: string): string {
    AfterLast(LayerName(shp), '_')
  }

  /** The region tag is the text after the last '_' of the layer name, and holds no '.'. */
  lemma RegionTagIsLastPiece(shp: string)
    ensures var r, l := RegionTag(shp), LayerName(shp);
      && '_' !in r && '.' !in r
      && |r| <= |l| && l[|l| - |r|..] == r
      && (|r| < |l| ==> l[|l| - |r| - 1] == '_')
  {
    NotInSuffix('.', RegionTag(shp), LayerName(shp));
  }

  /** `output_name`: the raster's base name up to its first '.', '_', the region tag and '.tif'.
      It has no '/', so it names a file directly inside the output folder. */
  function ClipOutputName(rasterPath: string, shp: string): (name: string)
    ensures IsPrefix(BeforeFirst(BaseName(rasterPath), '.') + "_", name)
    ensures |name| >= 5 && name[|name| - 4..] == ".tif"
    ensures '/' !in name
  {
    var stem := BeforeFirst(BaseName(rasterPath), '.');
    var tag := RegionTag(shp);
    NotInPrefix('/', stem, BaseName(rasterPath));
    NotInSuffix('/', tag, LayerName(shp));
    NotInPrefix('/', LayerName(shp), BaseName(shp));
    var name := stem + "_" + tag + ".tif";
    assert name[..|stem| + 1] == stem + "_";
    name
  }

  /** The output name is exactly the raster stem, '_', the shapefile's region tag and '.tif'. */
  lemma ClipOutputNameParts(rasterPath: string, shp: string)
    ensures ClipOutputName(rasterPath, shp) == BeforeFirst(BaseName(rasterPath), '.') + "_" + RegionTag(shp) + ".tif"
  {
  }

  lemma NotInPrefix(c: char, p: string, s: string)
    requires c !in s && IsPrefix(p, s)
    ensures c !in p
  {
    assert forall k :: 0 <= k < |p| ==> p[k] == s[k];
  }

  lemma NotInSuffix(c: char, t: string, s: string)
    requires c !in s && |t| <= |s| && s[|s| - |t|..] == t
    ensures c !in t
  {
    assert forall k :: 0 <= k < |t| ==> t[k] == s[|s| - |t| + k];
  }

  /** The clip output lands in the output folder under its output name. */
  lemma ClipOutputInFolder(rasterPath: string, outputFolder: string, shp: string)
    ensures BaseName(ClipOutputPath(rasterPath, outputFolder, shp)) == ClipOutputName(rasterPath, shp)
  {
    BaseNameOfJoin(outputFolder, ClipOutputName(rasterPath, shp));
  }

  function ClipOutputPath(rasterPath: string, outputFolder: string, shp: string): string {
    Join(outputFolder, ClipOutputName(rasterPath, shp))
  }

  /** The clip command: reproject to the target CRS and crop to the shapefile's cutline. */
  function ClipCommand(rasterPath: string, shp: string, outputPath: string, targetProj: string): seq<string> {
    ["gdalwarp", "-overwrite",
     "-t_srs", targetProj,
     "-of", "GTiff",
     "-cutline", shp, "-cl", LayerName(shp), "-crop_to_cutline",
     "-co", "compress=LZW",
     rasterPath, outputPath]
  }

  /** The clip command's tokens: reprojection to the target CRS as an overwriting
      GeoTIFF, cut to the shapefile with its base name as layer, LZW-compressed. */
  lemma ClipCommandTokens(rasterPath: string, shp: string, outputPath: string, targetProj: string)
    ensures var r := ClipCommand(rasterPath, shp, outputPath, targetProj);
      && |r| == 15 && r[..2] == ["gdalwarp", "-overwrite"]
      && r[2..6] == ["-t_srs", targetProj, "-of", "GTiff"]
      && r[6..11] == ["-cutline", shp, "-cl", LayerName(shp), "-crop_to_cutline"]
      && r[11..13] == ["-co", "compress=LZW"] && r[13..] == [rasterPath, outputPath]
  {
  }

  /** One iteration of the batch: the clip that was run, or the existing output that was skipped. */
  datatype ClipStep = Clip(command: seq<string>) | AlreadyExists(outputPath: string)

  /** The batch loop for any naming of outputs and commands: each item is clipped
      unless its output is already among `existing`; a clip creates its output. */
  function Steps(outputOf: string -> string, commandOf: (string, string) -> seq<string>,
                 shps: seq<string>, existing: set<string>): (plan: seq<ClipStep>)
    ensures |plan| == |shps|
    decreases |shps|
  {
    if shps == [] then []
    else
      var out := outputOf(shps[0]);
      var step := if out in existing then AlreadyExists(out) else Clip(commandOf(shps[0], out));
      [step] + Steps(outputOf, commandOf, shps[1..], existing + {out})
  }

  /** Step `k` clips exactly when its output neither existed beforehand nor is the
      output of an earlier item; otherwise it reports that output as existing. */
  lemma {:induction false} StepsAt(outputOf: string -> string, commandOf: (string, string) -> seq<string>,
                                   shps: seq<string>, existing: set<string>, k: nat)
    requires k < |shps|
    ensures var plan := Steps(outputOf, commandOf, shps, existing);
      var out := outputOf(shps[k]);
      && (plan[k].Clip? <==> out !in existing && forall j :: 0 <= j < k ==> outputOf(shps[j]) != out)
      && (plan[k].Clip? ==> plan[k].command == commandOf(shps[k], out))
      && (plan[k].AlreadyExists? ==> plan[k].outputPath == out)
    decreases k
  {
    if k > 0 {
      var rest := shps[1..];
      StepsAt(outputOf, commandOf, rest, existing + {outputOf(shps[0])}, k - 1);
      assert rest[k - 1] == shps[k];
      assert forall j :: 0 <= j < k - 1 ==> rest[j] == shps[j + 1];
      assert forall j :: 0 < j < k ==> shps[j] == rest[j - 1];
    }
  }

  /** What the clip batch does for `shps`, given the paths that exist before it starts. */
  function ClipPlan(rasterPath: string, outputFolder: string, targetProj: string,
                    shps: seq<string>, existing: set<string>): (plan: seq<ClipStep>)
    ensures |plan| == |shps|
  {
    Steps(s => ClipOutputPath(rasterPath, outputFolder, s),
          (s, o) => ClipCommand(rasterPath, s, o, targetProj), shps, existing)
  }

  /** Step `k` of the batch clips exactly when its output neither existed beforehand nor
      was produced for an earlier shapefile; otherwise it reports that output as existing. */
  lemma ClipPlanStep(rasterPath: string, outputFolder: string, targetProj: string,
                     shps: seq<string>, existing: set<string>, k: nat)
    requires k < |shps|
    ensures var plan := ClipPlan(rasterPath, outputFolder, targetProj, shps, existing);
      var out := ClipOutputPath(rasterPath, outputFolder, shps[k]);
      && (plan[k].Clip? <==>
           out !in existing && forall j :: 0 <= j < k ==> ClipOutputPath(rasterPath, outputFolder, shps[j]) != out)
      && (plan[k].Clip? ==> plan[k].command == ClipCommand(rasterPath, shps[k], out, targetProj))
      && (plan[k].AlreadyExists? ==> plan[k].outputPath == out)
  {
    StepsAt(s => ClipOutputPath(rasterPath, outputFolder, s),
            (s, o) => ClipCommand(rasterPath, s, o, targetProj), shps, existing, k);
  }

  /** The first step of the batch, followed by the batch over the rest with that output existing. */
  lemma ClipPlanUnfold(rasterPath: string, outputFolder: string, targetProj: string,
                       shps: seq<string>, existing: set<string>)
    requires shps != []
    ensures var out := ClipOutputPath(rasterPath, outputFolder, shps[0]);
      ClipPlan(rasterPath, outputFolder, targetProj, shps, existing)
      == [if out in existing then AlreadyExists(out) else Clip(ClipCommand(rasterPath, shps[0], out, targetProj))]
         + ClipPlan(rasterPath, outputFolder, targetProj, shps[1..], existing + {out})
  {
  }

  /** No clip overwrites a file that existed before the batch, and no two clips write the same output. */
  lemma ClipOutputsFreshAndDistinct(rasterPath: string, outputFolder: string, targetProj: string,
                                    shps: seq<string>, existing: set<string>, k: nat, l: nat)
    requires k < l < |shps|
    ensures var plan := ClipPlan(rasterPath, outputFolder, targetProj, shps, existing);
      plan[l].Clip? ==>
        && ClipOutputPath(rasterPath, outputFolder, shps[l]) !in existing
        && ClipOutputPath(rasterPath, outputFolder, shps[l]) != ClipOutputPath(rasterPath, outputFolder, shps[k])
  {
    ClipPlanStep(rasterPath, outputFolder, targetProj, shps, existing, l);
  }

  /** The clip batch of image_preparation.py: list the shapefiles, then for each one
      run the clip unless its output already exists. `existing` is the set of paths
      that exist before the loop; a clip is taken to create its output. */
  method ClipToRegions(rasterPath: string, shapefileFolder: string, shapefileNames: seq<string>,
                       outputFolder: string, targetProj: string, existing: set<string>)
    returns (steps: seq<ClipStep>)
    ensures steps == ClipPlan(rasterPath, outputFolder, targetProj,
                              ShapefilePaths(shapefileFolder, shapefileNames), existing)
  {
    var shpFiles := ShapefilePaths(shapefileFolder, shapefileNames);
    steps := ClipEach(rasterPath, shpFiles, outputFolder, targetProj, existing);
  }

  /** The `for shp in shp_files` loop. */
  method ClipEach(rasterPath: string, shpFiles: seq<string>, outputFolder: string,
                  targetProj: string, existing: set<string>)
    returns (steps: seq<ClipStep>)
    ensures steps == ClipPlan(rasterPath, outputFolder, targetProj, shpFiles, existing)
  {
    var onDisk := existing;
    steps := [];
    for i := 0 to |shpFiles|
      invariant steps + ClipPlan(rasterPath, outputFolder, targetProj, shpFiles[i..], onDisk)
             == ClipPlan(rasterPath, outputFolder, targetProj, shpFiles, existing)
    {
      var shp := shpFiles[i];
      var outputPath := ClipOutputPath(rasterPath, outputFolder, shp);
      var step;
      if outputPath !in onDisk {
        step := Clip(ClipCommand(rasterPath, shp, outputPath, targetProj));
      } else {
        step := AlreadyExists(outputPath);
      }
      assert shpFiles[i..][0] == shp && shpFiles[i..][1..] == shpFiles[i + 1..];
      ClipPlanUnfold(rasterPath, outputFolder, targetProj, shpFiles[i..], onDisk);
      steps := steps + [step];
      onDisk := onDisk + {outputPath};
    }
    assert shpFiles[|shpFiles|..] == [];
  }
}
