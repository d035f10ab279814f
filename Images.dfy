/** `read_image` (modules/images.py): choose the dataset file of a region, read its
    band as floats with nodata turned into NaN, report its bounds in overlay corner
    order, its NaN-ignoring minimum and maximum and its CRS, and optionally mask the
    pixels below a threshold. */
module Images {
  import opened Outcomes
  import opened Text
  import opened OsPath
  import opened Rasters
  import Utils
  import Seqs

  // ---------------------------------------------------------------------------
  // Choosing the file
  // ---------------------------------------------------------------------------

  /** One field of a region descriptor tuple; only text fields can serve as patterns. */
  datatype RegionField = TextField(text: string) | OtherField

  /** The region lookup table: region name to its descriptor tuple. */
  type Regions = map<string, seq<RegionField>>

  const TargetProjection: string := "4326"

  /** `regions_dict[chosen_region][3]`: a missing region is a `KeyError` and a
      tuple of three or fewer fields an `IndexError`; the field itself is returned
      whatever it holds. */
  function ImageField(regions: Regions, region: string): (r: Result<RegionField>)
    ensures r == Err(KeyError) <==> region !in regions
    ensures r == Err(IndexError) <==> region in regions && |regions[region]| <= 3
    ensures r.Ok? ==> region in regions && |regions[region]| > 3 && r.value == regions[region][3]
  {
    if region !in regions then Err(KeyError)
    else if |regions[region]| <= 3 then Err(IndexError)
    else Ok(regions[region][3])
  }

  /** The inclusion patterns of the dataset file. */
  function DatasetPatterns(datasetLabel: string, imageLabel: string): seq<string> {
    [datasetLabel, imageLabel, ".tif", TargetProjection]
  }

  predicate IsDataset(name: string, datasetLabel: string, imageLabel: string) {
    Utils.Accepted(name, DatasetPatterns(datasetLabel, imageLabel), [".aux"], true)
  }

  /** Element 0 of the listing filtered by the dataset patterns; an empty listing
      is an `IndexError`. When field 3 is not text, the comprehension's `all` tests
      `dataset_label in name` first and stops at the first name lacking it, so the
      `TypeError` of `image_label in name` is raised only once some name contains
      the dataset label; otherwise the listing is empty. */
  function SelectDataset(rastersDir: string, names: seq<string>, regions: Regions,
                         region: string, datasetLabel: string): (r: Result<string>)
    ensures ImageField(regions, region).Err? ==> r == Err(ImageField(regions, region).error)
    ensures ImageField(regions, region).Ok? && ImageField(regions, region).value.TextField? ==>
      var imageLabel := ImageField(regions, region).value.text;
      && (r.Err? ==> r == Err(IndexError))
      && (r == Err(IndexError) <==> forall j :: 0 <= j < |names| ==> !IsDataset(names[j], datasetLabel, imageLabel))
    ensures ImageField(regions, region) == Ok(OtherField) ==>
      && r.Err?
      && (r == Err(TypeError) <==> exists j :: 0 <= j < |names| && Contains(names[j], datasetLabel))
      && (r == Err(IndexError) <==> forall j :: 0 <= j < |names| ==> !Contains(names[j], datasetLabel))
  {
    match ImageField(regions, region)
    case Err(e) => Err(e)
    case Ok(OtherField) =>
      if exists j :: 0 <= j < |names| && Contains(names[j], datasetLabel) then Err(TypeError) else Err(IndexError)
    case Ok(TextField(imageLabel)) =>
      var paths := Utils.ListFilepaths(rastersDir, names, DatasetPatterns(datasetLabel, imageLabel), [".aux"], true, true).paths;
      NoMatchIffEmpty(rastersDir, names, datasetLabel, imageLabel);
      if |paths| == 0 then Err(IndexError) else Ok(paths[0])
  }

  lemma NoMatchIffEmpty(rastersDir: string, names: seq<string>, datasetLabel: string, imageLabel: string)
    ensures Utils.ListFilepaths(rastersDir, names, DatasetPatterns(datasetLabel, imageLabel), [".aux"], true, true).paths == []
        <==> forall j :: 0 <= j < |names| ==> !IsDataset(names[j], datasetLabel, imageLabel)
  {
    var pin := DatasetPatterns(datasetLabel, imageLabel);
    var paths := Utils.ListFilepaths(rastersDir, names, pin, [".aux"], true, true).paths;
    if paths == [] {
      forall j | 0 <= j < |names|
        ensures !IsDataset(names[j], datasetLabel, imageLabel)
      {
        if IsDataset(names[j], datasetLabel, imageLabel) {
          Utils.ListFilepathsComplete(rastersDir, names, pin, [".aux"], true, true, j);
        }
      }
    } else {
      Utils.ListFilepathsSound(rastersDir, names, pin, [".aux"], true, true, 0);
    }
  }

  /** The chosen file is the first listed name that matches every pattern and not `.aux`. */
  lemma {:induction false} SelectDatasetIsFirstMatch(rastersDir: string, names: seq<string>, regions: Regions,
                                                     region: string, datasetLabel: string)
    requires SelectDataset(rastersDir, names, regions, region, datasetLabel).Ok?
    ensures ImageField(regions, region).Ok? && ImageField(regions, region).value.TextField?
    ensures var imgLabel := ImageField(regions, region).value.text;
      exists j :: 0 <= j < |names|
        && SelectDataset(rastersDir, names, regions, region, datasetLabel).value == Join(rastersDir, names[j])
        && IsDataset(names[j], datasetLabel, imgLabel)
        && (forall i :: 0 <= i < j ==> !IsDataset(names[i], datasetLabel, imgLabel))
  {
    var imgLabel := ImageField(regions, region).value.text;
    var pin := DatasetPatterns(datasetLabel, imgLabel);
    Utils.ListFilepathsExact(rastersDir, names, pin, [".aux"], true, true);
    var idx := Seqs.KeptIndices(Utils.Acceptor(pin, [".aux"], true), names);
    var j := idx[0];
    assert j in idx;
    forall i | 0 <= i < j
      ensures !IsDataset(names[i], datasetLabel, imgLabel)
    {
      assert forall k :: 0 <= k < |idx| ==> idx[k] >= j;
      assert i !in idx;
    }
  }

  /** `p` occurs in `s` when `s` splits as `a + p + b`. */
  lemma ContainsAt(s: string, a: string, p: string, b: string)
    requires s == a + p + b
    ensures Contains(s, p)
  {
    assert OccursAt(s, p, |a|) by {
      assert s[|a|..|a| + |p|] == p;
    }
    ContainsIffOccurs(s, p);
  }

  /** A dataset file named `<label>_<region>_4326.tif`. */
  function DatasetFileName(datasetLabel: string, imageLabel: string): string {
    datasetLabel + "_" + imageLabel + "_" + TargetProjection + ".tif"
  }

  /** The dataset's own file is selected for its labels exactly when its name holds
      no `.aux`: it always has every inclusion pattern. */
  lemma DatasetFileMatches(datasetLabel: string, imageLabel: string)
    ensures IsDataset(DatasetFileName(datasetLabel, imageLabel), datasetLabel, imageLabel)
        <==> !Contains(DatasetFileName(datasetLabel, imageLabel), ".aux")
  {
    DatasetFileHasPatterns(datasetLabel, imageLabel);
    var out := [".aux"];
    assert out[0] == ".aux";
  }

  lemma DatasetFileHasPatterns(datasetLabel: string, imageLabel: string)
    ensures Utils.PatternsInOk(DatasetFileName(datasetLabel, imageLabel), DatasetPatterns(datasetLabel, imageLabel), true)
  {
    var tif := DatasetFileName(datasetLabel, imageLabel);
    var tail := "_" + TargetProjection + ".tif";
    ContainsAt(tif, "", datasetLabel, "_" + imageLabel + tail);
    ContainsAt(tif, datasetLabel + "_", imageLabel, tail);
    ContainsAt(tif, datasetLabel + "_" + imageLabel + "_", TargetProjection, ".tif");
    ContainsAt(tif, datasetLabel + "_" + imageLabel + "_" + TargetProjection, ".tif", "");
  }

  lemma SidecarDoesNotMatch(tif: string, datasetLabel: string, imageLabel: string)
    ensures !IsDataset(tif + ".aux.xml", datasetLabel, imageLabel)
  {
    ContainsAt(tif + ".aux.xml", tif, ".aux", ".xml");
    var out := [".aux"];
    assert out[0] == ".aux";
    assert !Utils.PatternsOutOk(tif + ".aux.xml", out);
  }

  /** The side-car `.aux.xml` file of a GeoTIFF is skipped although it matches
      every inclusion pattern, so the GeoTIFF listed after it is chosen. */
  lemma {:induction false} AuxSidecarSkipped(dir: string, regions: Regions, region: string,
                                             datasetLabel: string, imageLabel: string)
    requires ImageField(regions, region) == Ok(TextField(imageLabel))
    requires !Contains(DatasetFileName(datasetLabel, imageLabel), ".aux")
    ensures var tif := DatasetFileName(datasetLabel, imageLabel);
      SelectDataset(dir, [tif + ".aux.xml", tif], regions, region, datasetLabel) == Ok(Join(dir, tif))
  {
    var tif := DatasetFileName(datasetLabel, imageLabel);
    DatasetFileMatches(datasetLabel, imageLabel);
    SidecarDoesNotMatch(tif, datasetLabel, imageLabel);
    var names := [tif + ".aux.xml", tif];
    var accept := Utils.Acceptor(DatasetPatterns(datasetLabel, imageLabel), [".aux"], true);
    assert names[..1] == [tif + ".aux.xml"] && [tif + ".aux.xml"][..0] == [];
    assert Seqs.Filter(accept, names) == [tif];
  }

  // ---------------------------------------------------------------------------
  // Cells
  // ---------------------------------------------------------------------------

  /** `arr[arr == nodata] = nan` at one cell: with numpy's comparison a missing
      nodata value and a NaN nodata value match no cell. */
  function NodataCell(nodata: Option<Cell>): Cell -> Cell {
    c => if nodata.Some? && Eq(c, nodata.value) then NaN else c
  }

  lemma NodataCellMeaning(nodata: Option<Cell>, c: Cell)
    ensures NodataCell(nodata)(c).NaN? <==> c.NaN? || (nodata.Some? && Eq(c, nodata.value))
    ensures !NodataCell(nodata)(c).NaN? ==> NodataCell(nodata)(c) == c
    ensures nodata.None? || nodata == Some(NaN) ==> NodataCell(nodata)(c) == c
  {
  }

  /** `arr[np.where(arr < t)] = nan` at one cell. */
  function MaskCell(t: real): Cell -> Cell {
    c => if Below(c, t) then NaN else c
  }

  lemma MaskCellMeaning(t: real, c: Cell)
    ensures MaskCell(t)(c).NaN? <==> c.NaN? || c.v < t
    ensures !Below(c, t) ==> MaskCell(t)(c) == c
    ensures MaskCell(t)(MaskCell(t)(c)) == MaskCell(t)(c)
  {
  }

  // ---------------------------------------------------------------------------
  // NaN-ignoring minimum and maximum
  // ---------------------------------------------------------------------------

  /** The smaller of two cells, ignoring NaN (numpy's `fmin`). */
  function FMin(a: Cell, b: Cell): Cell {
    if a.NaN? then b else if b.NaN? then a else if b.v < a.v then b else a
  }

  /** The larger of two cells, ignoring NaN (numpy's `fmax`). */
  function FMax(a: Cell, b: Cell): Cell {
    if a.NaN? then b else if b.NaN? then a else if b.v > a.v then b else a
  }

  /** `np.nanmin` of a non-empty array: NaN when every cell is NaN. */
  function NanMin(s: seq<Cell>): (r: Cell)
    ensures r.NaN? <==> forall k :: 0 <= k < |s| ==> s[k].NaN?
    ensures r.Val? ==> r in s && forall k :: 0 <= k < |s| && s[k].Val? ==> r.v <= s[k].v
  {
    if s == [] then NaN else FMin(NanMin(s[..|s| - 1]), s[|s| - 1])
  }

  /** `np.nanmax` of a non-empty array: NaN when every cell is NaN. */
  function NanMax(s: seq<Cell>): (r: Cell)
    ensures r.NaN? <==> forall k :: 0 <= k < |s| ==> s[k].NaN?
    ensures r.Val? ==> r in s && forall k :: 0 <= k < |s| && s[k].Val? ==> s[k].v <= r.v
  {
    if s == [] then NaN else FMax(NanMax(s[..|s| - 1]), s[|s| - 1])
  }

  /** With one number present, the minimum does not exceed the maximum. */
  lemma MinAtMostMax(s: seq<Cell>)
    requires exists k :: 0 <= k < |s| && s[k].Val?
    ensures NanMin(s).Val? && NanMax(s).Val? && NanMin(s).v <= NanMax(s).v
  {
    var m := NanMin(s);
    var k :| 0 <= k < |s| && s[k] == m;
  }

  lemma NanStep(s: seq<Cell>, c: Cell)
    ensures NanMin(s + [c]) == FMin(NanMin(s), c) && NanMax(s + [c]) == FMax(NanMax(s), c)
  {
    assert (s + [c])[..|s|] == s;
  }

  lemma FlattenStep(g: Grid, i: nat)
    requires i < |g|
    ensures Flatten(g[..i + 1]) == Flatten(g[..i]) + g[i]
  {
    assert g[..i + 1][..i] == g[..i];
  }

  const ZeroSizeMessage: string := "zero-size array to reduction operation fmin which has no identity"

  /** `np.nanmin(arr)` and `np.nanmax(arr)` in one row-major pass; an array without
      cells raises `ValueError`. */
  method NanMinMax(arr: array2<Cell>) returns (r: Result<(Cell, Cell)>)
    ensures arr.Length0 == 0 || arr.Length1 == 0 ==> r == Err(ValueError(ZeroSizeMessage))
    ensures arr.Length0 > 0 && arr.Length1 > 0 ==>
      r == Ok((NanMin(Flatten(Cells(arr))), NanMax(Flatten(Cells(arr)))))
  {
    if arr.Length0 == 0 || arr.Length1 == 0 {
      return Err(ValueError(ZeroSizeMessage));
    }
    ghost var g := Cells(arr);
    var lo, hi := NaN, NaN;
    for i := 0 to arr.Length0
      invariant lo == NanMin(Flatten(g[..i])) && hi == NanMax(Flatten(g[..i]))
    {
      lo, hi := ScanRow(arr, i, Flatten(g[..i]), lo, hi);
      FlattenStep(g, i);
    }
    assert g[..arr.Length0] == g;
    return Ok((lo, hi));
  }

  /** One row of the pass: from the minimum and maximum of the cells before row `i`
      to those of the cells up to and including it. */
  method ScanRow(arr: array2<Cell>, i: nat, ghost done: seq<Cell>, lo0: Cell, hi0: Cell)
    returns (lo: Cell, hi: Cell)
    requires i < arr.Length0
    requires lo0 == NanMin(done) && hi0 == NanMax(done)
    ensures lo == NanMin(done + Cells(arr)[i]) && hi == NanMax(done + Cells(arr)[i])
  {
    ghost var row := Cells(arr)[i];
    lo, hi := lo0, hi0;
    assert done + row[..0] == done;
    for j := 0 to arr.Length1
      invariant lo == NanMin(done + row[..j]) && hi == NanMax(done + row[..j])
    {
      assert row[j] == arr[i, j];
      assert done + row[..j + 1] == (done + row[..j]) + [row[j]];
      NanStep(done + row[..j], row[j]);
      lo := FMin(lo, arr[i, j]);
      hi := FMax(hi, arr[i, j]);
    }
    assert row[..arr.Length1] == row;
  }

  // ---------------------------------------------------------------------------
  // Nodata and threshold masking
  // ---------------------------------------------------------------------------

  /** A pixel position (row, column). */
  type Pos = (nat, nat)

  /** Row-major order, the order of `np.where`'s result. */
  predicate RowMajorBefore(p: Pos, q: Pos) {
    p.0 < q.0 || (p.0 == q.0 && p.1 < q.1)
  }

  /** The positions in row `i` (holding `row`) of the cells below `t`. */
  function RowBelow(row: seq<Cell>, i: nat, t: real): (r: seq<Pos>)
    ensures forall k :: 0 <= k < |r| ==> r[k].0 == i && r[k].1 < |row| && Below(row[r[k].1], t)
  {
    if row == [] then []
    else RowBelow(row[..|row| - 1], i, t) + (if Below(row[|row| - 1], t) then [(i, |row| - 1)] else [])
  }

  /** `np.where(arr < t)`: the positions of the cells below `t`, row by row. */
  function BelowMask(g: seq<seq<Cell>>, t: real): (r: seq<Pos>)
    ensures forall k :: 0 <= k < |r| ==> r[k].0 < |g| && r[k].1 < |g[r[k].0]| && Below(g[r[k].0][r[k].1], t)
  {
    if g == [] then []
    else BelowMask(g[..|g| - 1], t) + RowBelow(g[|g| - 1], |g| - 1, t)
  }

  lemma {:induction false} RowBelowComplete(row: seq<Cell>, i: nat, t: real, j: nat)
    requires j < |row| && Below(row[j], t)
    ensures (i, j) in RowBelow(row, i, t)
  {
    if j < |row| - 1 {
      RowBelowComplete(row[..|row| - 1], i, t, j);
    }
  }

  lemma {:induction false} RowBelowOrdered(row: seq<Cell>, i: nat, t: real)
    ensures forall k, l :: 0 <= k < l < |RowBelow(row, i, t)| ==> RowBelow(row, i, t)[k].1 < RowBelow(row, i, t)[l].1
  {
    if row != [] {
      RowBelowOrdered(row[..|row| - 1], i, t);
    }
  }

  /** Every cell below the threshold is in the mask. */
  lemma {:induction false} BelowMaskComplete(g: seq<seq<Cell>>, t: real, i: nat, j: nat)
    requires i < |g| && j < |g[i]| && Below(g[i][j], t)
    ensures (i, j) in BelowMask(g, t)
  {
    if i < |g| - 1 {
      BelowMaskComplete(g[..|g| - 1], t, i, j);
    } else {
      RowBelowComplete(g[i], i, t, j);
    }
  }

  /** The mask lists its positions in strictly increasing row-major order. */
  lemma {:induction false} BelowMaskOrdered(g: seq<seq<Cell>>, t: real)
    ensures forall k, l :: 0 <= k < l < |BelowMask(g, t)| ==> RowMajorBefore(BelowMask(g, t)[k], BelowMask(g, t)[l])
  {
    if g != [] {
      BelowMaskOrdered(g[..|g| - 1], t);
      RowBelowOrdered(g[|g| - 1], |g| - 1, t);
    }
  }

  /** `mask = np.where(arr < t); arr[mask] = nan`: returns the positions below `t`
      and turns exactly those cells into NaN. */
  method MaskBelow(arr: array2<Cell>, t: real) returns (mask: seq<Pos>)
    modifies arr
    ensures mask == BelowMask(old(Cells(arr)), t)
    ensures forall i, j :: 0 <= i < arr.Length0 && 0 <= j < arr.Length1 ==>
      arr[i, j] == MaskCell(t)(old(arr[i, j]))
  {
    ghost var g := Cells(arr);
    mask := [];
    for i := 0 to arr.Length0
      invariant mask == BelowMask(g[..i], t)
      invariant forall p, q :: 0 <= p < arr.Length0 && 0 <= q < arr.Length1 ==>
        arr[p, q] == if p < i then MaskCell(t)(g[p][q]) else g[p][q]
    {
      assert Cells(arr)[i] == g[i] by {
        assert forall q :: 0 <= q < arr.Length1 ==> Cells(arr)[i][q] == g[i][q];
      }
      var rowMask := MaskRow(arr, t, i);
      mask := mask + rowMask;
      assert g[..i + 1][..i] == g[..i];
    }
    assert g[..arr.Length0] == g;
  }

  /** The masking of row `i`. */
  method MaskRow(arr: array2<Cell>, t: real, i: nat) returns (rowMask: seq<Pos>)
    requires i < arr.Length0
    modifies arr
    ensures rowMask == RowBelow(old(Cells(arr))[i], i, t)
    ensures forall p, q :: 0 <= p < arr.Length0 && 0 <= q < arr.Length1 ==>
      arr[p, q] == if p == i then MaskCell(t)(old(arr[p, q])) else old(arr[p, q])
  {
    ghost var row := Cells(arr)[i];
    rowMask := [];
    for j := 0 to arr.Length1
      invariant rowMask == RowBelow(row[..j], i, t)
      invariant forall p, q :: 0 <= p < arr.Length0 && 0 <= q < arr.Length1 ==>
        arr[p, q] == if p == i && q < j then MaskCell(t)(old(arr[p, q])) else old(arr[p, q])
    {
      assert row[..j + 1][..j] == row[..j];
      if Below(arr[i, j], t) {
        rowMask := rowMask + [(i, j)];
        arr[i, j] := NaN;
      }
    }
    assert row[..arr.Length1] == row;
  }

  // ---------------------------------------------------------------------------
  // read_image
  // ---------------------------------------------------------------------------

  /** `[[bottom, left], [top, right]]`: south-west then north-east corner, each as
      (latitude, longitude); the library's bounds can be read back from it. */
  function OverlayBounds(b: Bounds): (r: seq<seq<real>>)
    ensures |r| == 2 && |r[0]| == 2 && |r[1]| == 2
    ensures Bounds(r[0][1], r[0][0], r[1][1], r[1][0]) == b
  {
    [[b.bottom, b.left], [b.top, b.right]]
  }

  /** The dictionary `read_image` returns; `arr` is the `'array'` key, `mask` the `'mask'` key (`None` when absent). */
  datatype ImageOutput = ImageOutput(arr: array2<Cell>, bounds: seq<seq<real>>, minValue: Cell,
                                     maxValue: Cell, crs: string, mask: Option<seq<Pos>>)

  /** A band without cells, on which `np.nanmin` raises. */
  predicate NoCells(g: Grid) {
    |g| == 0 || Width(g) == 0
  }

  /** The band of `f` with its nodata cells turned into NaN. */
  function Unmasked(f: RasterFile): (g: Grid)
    ensures |g| == |f.band| && Width(g) == Width(f.band)
  {
    MapCells(NodataCell(f.nodata), f.band)
  }

  /** What `read_image` hands back for the raster `f`: bounds and CRS from the file,
      minimum and maximum of the band after nodata masking and before threshold
      masking, the threshold mask exactly when a threshold is given, and the
      array with the threshold applied. */
  ghost predicate ReadsAs(out: ImageOutput, f: RasterFile, maskBelow: Option<real>)
    reads out.arr
  {
    var g := Unmasked(f);
    && out.bounds == OverlayBounds(f.bounds)
    && out.crs == Upper(f.crs)
    && out.minValue == NanMin(Flatten(g)) && out.maxValue == NanMax(Flatten(g))
    && (out.mask.Some? <==> maskBelow.Some?)
    && (maskBelow.None? ==> Cells(out.arr) == g)
    && (maskBelow.Some? ==> out.mask.value == BelowMask(g, maskBelow.value)
                            && Cells(out.arr) == MapCells(MaskCell(maskBelow.value), g))
  }

  /** `read_image(rasters_dir, chosen_region, dataset_label, mask_below)`, where `names`
      is the listing of `rasters_dir`, `disk` maps each readable path to what the
      raster library reports about it, and `regions` is the region lookup table. */
  method ReadImage(rastersDir: string, names: seq<string>, disk: map<string, RasterFile>, regions: Regions,
                   chosenRegion: string, datasetLabel: string, maskBelow: Option<real>)
    returns (r: Result<ImageOutput>)
    ensures var sel := SelectDataset(rastersDir, names, regions, chosenRegion, datasetLabel);
      && (sel.Err? ==> r == Err(sel.error))
      && (sel.Ok? && sel.value !in disk ==> r == Err(RasterOpenError))
      && (sel.Ok? && sel.value in disk && NoCells(disk[sel.value].band) ==> r == Err(ValueError(ZeroSizeMessage)))
      && (sel.Ok? && sel.value in disk && !NoCells(disk[sel.value].band) ==>
            r.Ok? && fresh(r.value.arr) && ReadsAs(r.value, disk[sel.value], maskBelow))
  {
    var sel := SelectDataset(rastersDir, names, regions, chosenRegion, datasetLabel);
    if sel.Err? {
      return Err(sel.error);
    }
    if sel.value !in disk {
      return Err(RasterOpenError);
    }
    var f := disk[sel.value];
    var arr := FromGrid(f.band, Width(f.band));
    MapInPlace(arr, NodataCell(f.nodata));
    ghost var g := Unmasked(f);
    CellsAre(arr, g);
    var crs := Upper(f.crs);
    var bounds := OverlayBounds(f.bounds);
    var range := NanMinMax(arr);
    if range.Err? {
      return Err(range.error);
    }
    var mask: Option<seq<Pos>> := None;
    if maskBelow.Some? {
      var m := MaskBelow(arr, maskBelow.value);
      CellsAre(arr, MapCells(MaskCell(maskBelow.value), g));
      mask := Some(m);
    }
    return Ok(ImageOutput(arr, bounds, range.value.0, range.value.1, crs, mask));
  }

  /** The reported minimum does not exceed the reported maximum once one pixel of the
      band is a number after nodata masking. */
  lemma {:induction false} ReportedRangeOrdered(out: ImageOutput, f: RasterFile, maskBelow: Option<real>, i: nat, j: nat)
    requires ReadsAs(out, f, maskBelow)
    requires InGrid(f.band, i, j) && Unmasked(f)[i][j].Val?
    ensures out.minValue.Val? && out.maxValue.Val? && out.minValue.v <= out.maxValue.v
  {
    var g := Unmasked(f);
    FlattenAt(g, i, j);
    MinAtMostMax(Flatten(g));
  }

  /** After threshold masking the array holds no number below the threshold, and
      exactly the masked positions changed. */
  lemma {:induction false} MaskedArrayMeaning(out: ImageOutput, f: RasterFile, t: real, i: nat, j: nat)
    requires ReadsAs(out, f, Some(t))
    requires InGrid(f.band, i, j)
    ensures !Below(Cells(out.arr)[i][j], t)
    ensures (i, j) in out.mask.value <==> Below(Unmasked(f)[i][j], t)
    ensures (i, j) !in out.mask.value ==> Cells(out.arr)[i][j] == Unmasked(f)[i][j]
  {
    var g := Unmasked(f);
    if Below(g[i][j], t) {
      BelowMaskComplete(g, t, i, j);
    }
  }
}
