/** The array steps of modules/analysis.py: reconciling the IMD and LST grids
    (`match_array_shape`), the values handed to the statistics, the grouping and
    exclusion steps of the scatter plot, and the masking of `analyze_masked_area`. */
module Analysis {
  import opened Outcomes
  import opened Rasters
  import Seqs

  // ---------------------------------------------------------------------------
  // match_array_shape
  // ---------------------------------------------------------------------------

  predicate IsInteger(x: real) {
    x.Floor as real == x
  }

  /** The sentinel round trip on one resampled IMD cell: NaN becomes 255, the cell
      is truncated to an integer and back to float, and 255 becomes NaN. */
  function SentinelCell(c: Cell): (r: Cell)
    ensures r.NaN? <==> c.NaN? || TruncTowardZero(c.v) == 255
    ensures r.Val? ==> IsInteger(r.v) && r.v != 255.0
    ensures r.Val? && c.v >= 0.0 ==> r.v <= c.v < r.v + 1.0
    ensures r.Val? && c.v < 0.0 ==> r.v - 1.0 < c.v <= r.v
  {
    var filled := if c.NaN? then 255.0 else c.v;
    var asFloat := TruncTowardZero(filled) as real;
    if asFloat == 255.0 then NaN else Val(asFloat)
  }

  /** Applying the round trip again changes nothing. */
  lemma SentinelIdempotent(c: Cell)
    ensures SentinelCell(SentinelCell(c)) == SentinelCell(c)
  {
    var r := SentinelCell(c);
    if r.Val? {
      TruncOfInteger(r.v);
    }
  }

  lemma TruncOfInteger(x: real)
    requires IsInteger(x)
    ensures TruncTowardZero(x) as real == x
  {
    var n := x.Floor;
    assert -x == (-n) as real;
    assert (-x).Floor == -n;
  }

  /** `s` copies of `x`. */
  function Copies<T>(x: T, s: nat): (r: seq<T>)
    ensures |r| == s && forall k :: 0 <= k < s ==> r[k] == x
  {
    seq(s, _ => x)
  }

  /** `np.repeat(xs, s)`: every element `s` times in a row. */
  function RepeatEach<T>(xs: seq<T>, s: nat): (r: seq<T>)
    ensures |r| == s * |xs|
    ensures forall y :: y in r ==> y in xs
  {
    if xs == [] then []
    else
      var init := RepeatEach(xs[..|xs| - 1], s);
      assert |init| + s == s * |xs| by { MulSucc(s, |xs| - 1); }
      init + Copies(xs[|xs| - 1], s)
  }

  lemma MulSucc(s: nat, n: nat)
    ensures s * n + s == s * (n + 1)
  {
  }

  /** Element `i` of `xs` fills positions `s * i` to `s * i + s - 1` of the repetition. */
  lemma {:induction false} RepeatEachAt<T>(xs: seq<T>, s: nat, i: nat, a: nat)
    requires i < |xs| && a < s
    ensures s * i + a < |RepeatEach(xs, s)| && RepeatEach(xs, s)[s * i + a] == xs[i]
  {
    var n := |xs| - 1;
    var init := RepeatEach(xs[..n], s);
    MulSucc(s, n);
    if i < n {
      RepeatEachAt(xs[..n], s, i, a);
    } else {
      assert RepeatEach(xs, s)[s * i + a] == Copies(xs[n], s)[a];
    }
  }

  /** Position `p` of the repetition holds element `p / s`. */
  lemma RepeatEachCell<T>(xs: seq<T>, s: nat, p: nat)
    requires p < |RepeatEach(xs, s)|
    ensures s > 0 && p / s < |xs| && RepeatEach(xs, s)[p] == xs[p / s]
  {
    var n := |xs|;
    assert p < s * n;
    DivBelow(p, s, n);
    DivMod(p, s);
    var i, a := p / s, p % s;
    assert s * i + a == p;
    RepeatEachAt(xs, s, i, a);
  }

  lemma DivMod(p: nat, s: nat)
    requires s > 0
    ensures s * (p / s) + p % s == p && p % s < s
  {
  }

  lemma DivBelow(p: nat, s: nat, n: nat)
    requires p < s * n
    ensures s > 0 && p / s < n
  {
    assert s * (p / s) <= p;
  }

  /** `np.repeat(np.repeat(g, s, axis=0), s, axis=1)`. */
  function RepeatGrid(g: Grid, s: nat): (r: Grid)
    ensures |r| == s * |g| && Width(r) == s * Width(g)
  {
    var rows := Seqs.Map(row => RepeatEach(row, s), g);
    var r := RepeatEach(rows, s);
    assert forall k :: 0 <= k < |r| ==> r[k] in rows;
    assert forall k :: 0 <= k < |rows| ==> |rows[k]| == s * Width(g);
    r
  }

  /** Cell (i, j) of the LST grid fills the `s` by `s` block at (s·i, s·j). */
  lemma RepeatGridAt(g: Grid, s: nat, i: nat, j: nat, a: nat, b: nat)
    requires InGrid(g, i, j) && a < s && b < s
    ensures InGrid(RepeatGrid(g, s), s * i + a, s * j + b)
    ensures RepeatGrid(g, s)[s * i + a][s * j + b] == g[i][j]
  {
    var rows := Seqs.Map(row => RepeatEach(row, s), g);
    RepeatEachAt(rows, s, i, a);
    RepeatEachAt(g[i], s, j, b);
  }

  /** Every cell of the repeated grid comes from the LST cell `(p / s, q / s)`. */
  lemma RepeatGridCell(g: Grid, s: nat, p: nat, q: nat)
    requires InGrid(RepeatGrid(g, s), p, q)
    ensures s > 0 && InGrid(g, p / s, q / s) && RepeatGrid(g, s)[p][q] == g[p / s][q / s]
  {
    var rows := Seqs.Map(row => RepeatEach(row, s), g);
    RepeatEachCell(rows, s, p);
    var i := p / s;
    assert RepeatGrid(g, s)[p] == RepeatEach(g[i], s);
    RepeatEachCell(g[i], s, q);
  }

  /** `match_array_shape(imd_arr, lst_arr, scaling_factor)`. `zoomed` is the array
      `scipy.ndimage.zoom` returns for the zoom factors, of shape (s·h, s·w) for an
      LST grid of shape (h, w); its cells get the sentinel round trip in place.
      The zoom factors divide by the IMD shape, so an IMD grid without rows or
      columns raises before anything is computed. */
  method MatchArrayShape(imd: Grid, lst: Grid, scalingFactor: nat, zoomed: array2<Cell>)
    returns (r: Result<Grid>)
    requires zoomed.Length0 == scalingFactor * |lst| && zoomed.Length1 == scalingFactor * Width(lst)
    modifies zoomed
    ensures |imd| == 0 || Width(imd) == 0 ==> r == Err(ZeroDivisionError) && unchanged(zoomed)
    ensures |imd| > 0 && Width(imd) > 0 ==> r == Ok(RepeatGrid(lst, scalingFactor))
    ensures |imd| > 0 && Width(imd) > 0 ==> forall i, j :: 0 <= i < zoomed.Length0 && 0 <= j < zoomed.Length1 ==>
      zoomed[i, j] == SentinelCell(old(zoomed[i, j]))
  {
    if |imd| == 0 || Width(imd) == 0 {
      return Err(ZeroDivisionError);
    }
    MapInPlace(zoomed, SentinelCell);
    return Ok(RepeatGrid(lst, scalingFactor));
  }

  // ---------------------------------------------------------------------------
  // calculate_statistics_masked
  // ---------------------------------------------------------------------------

  /** `np.isin(c, exclude_values)`: equality with one of the values, so NaN is never excluded. */
  predicate Excluded(c: Cell, exclude: seq<real>) {
    c.Val? && c.v in exclude
  }

  function NotExcluded(exclude: seq<real>): Cell -> bool {
    c => !Excluded(c, exclude)
  }

  /** `arr[~np.isin(arr, exclude_values)].flatten()`: what the mean, median and
      90th percentile are computed from. */
  function StatisticsInput(g: Grid, exclude: seq<real>): (r: seq<Cell>)
    ensures |r| <= |g| * Width(g)
    ensures forall c :: c in r ==> c in Flatten(g) && !Excluded(c, exclude)
  {
    FlattenLength(g);
    Seqs.Filter(NotExcluded(exclude), Flatten(g))
  }

  /** The statistics see exactly the non-excluded cells, NaNs included, in row-major
      order: the `k`-th value is the cell at flat position `idx[k]`, where `idx` lists
      every position whose cell is not excluded, in increasing order. */
  lemma StatisticsInputExact(g: Grid, exclude: seq<real>)
    ensures var r := StatisticsInput(g, exclude);
      var idx := Seqs.KeptIndices(NotExcluded(exclude), Flatten(g));
      && |r| == |idx| && Seqs.StrictlyIncreasing(idx)
      && (forall k :: 0 <= k < |idx| ==> r[k] == Flatten(g)[idx[k]])
      && (forall p :: 0 <= p < |Flatten(g)| ==> (p in idx <==> !Excluded(Flatten(g)[p], exclude)))
  {
    Seqs.FilterSelects(NotExcluded(exclude), Flatten(g));
  }

  /** A cell at (i, j) that is not excluded reaches the statistics. */
  lemma StatisticsInputComplete(g: Grid, exclude: seq<real>, i: nat, j: nat)
    requires InGrid(g, i, j) && !Excluded(g[i][j], exclude)
    ensures g[i][j] in StatisticsInput(g, exclude)
  {
    FlattenAt(g, i, j);
    Seqs.FilterComplete(NotExcluded(exclude), Flatten(g), i * Width(g) + j);
  }

  /** With nothing to exclude, the statistics see every cell. */
  lemma {:induction false} NothingExcluded(g: Grid)
    ensures StatisticsInput(g, []) == Flatten(g)
  {
    Seqs.FilterAll(NotExcluded([]), Flatten(g));
  }

  // ---------------------------------------------------------------------------
  // generate_scatter_plot: grouping by distinct IMD value
  // ---------------------------------------------------------------------------

  /** `arr[~np.isnan(arr)]` of a flattened array: its numbers, in order. */
  function Numbers(cells: seq<Cell>): (r: seq<real>)
    ensures forall x :: x in r <==> Val(x) in cells
  {
    if cells == [] then []
    else
      var last := cells[|cells| - 1];
      assert cells == cells[..|cells| - 1] + [last];
      Numbers(cells[..|cells| - 1]) + (if last.Val? then [last.v] else [])
  }

  predicate Increasing(xs: seq<real>) {
    forall k, l :: 0 <= k < l < |xs| ==> xs[k] < xs[l]
  }

  /** `x` added to an increasing sequence, unless already present. */
  function Insert(xs: seq<real>, x: real): (r: seq<real>)
    requires Increasing(xs)
    ensures Increasing(r)
    ensures forall y :: y in r <==> y in xs || y == x
  {
    if xs == [] then [x]
    else if x < xs[0] then [x] + xs
    else if x == xs[0] then xs
    else
      var rest := Insert(xs[1..], x);
      assert forall k :: 0 <= k < |rest| ==> xs[0] < rest[k] by {
        forall k | 0 <= k < |rest|
          ensures xs[0] < rest[k]
        {
          assert rest[k] in rest;
          if rest[k] != x {
            var m :| 0 <= m < |xs[1..]| && xs[1..][m] == rest[k];
            assert xs[m + 1] == rest[k];
          }
        }
      }
      [xs[0]] + rest
  }

  /** `np.unique`: the distinct values, in ascending order. */
  function Unique(xs: seq<real>): (r: seq<real>)
    ensures Increasing(r)
    ensures forall y :: y in r <==> y in xs
  {
    if xs == [] then []
    else
      assert xs == xs[..|xs| - 1] + [xs[|xs| - 1]];
      Insert(Unique(xs[..|xs| - 1]), xs[|xs| - 1])
  }

  /** An increasing sequence is determined by its elements, so `Unique` is the only
      sorted duplicate-free listing of the values. */
  lemma {:induction false} IncreasingUnique(a: seq<real>, b: seq<real>)
    requires Increasing(a) && Increasing(b)
    requires forall y :: y in a <==> y in b
    ensures a == b
  {
    assert a == [] <==> b == [] by {
      assert a != [] ==> a[0] in a;
      assert b != [] ==> b[0] in b;
    }
    if a != [] {
      assert a[0] == b[0] by {
        assert a[0] in a && b[0] in b;
        assert a[0] in b && b[0] in a;
        LeastOfIncreasing(a, b[0]);
        LeastOfIncreasing(b, a[0]);
      }
      forall y
        ensures y in a[1..] <==> y in b[1..]
      {
        TailMembers(a, y);
        TailMembers(b, y);
      }
      IncreasingUnique(a[1..], b[1..]);
    }
  }

  lemma LeastOfIncreasing(a: seq<real>, y: real)
    requires Increasing(a) && y in a
    ensures a[0] <= y
  {
  }

  lemma TailMembers(a: seq<real>, y: real)
    requires Increasing(a) && a != []
    ensures y in a[1..] <==> y in a && y != a[0]
  {
    if y in a && y != a[0] {
      var k :| 0 <= k < |a| && a[k] == y;
      assert a[1..][k - 1] == y;
    }
  }

  /** The IMD values shown on the scatter plot. */
  function ImdValues(imd: Grid): (r: seq<real>)
    ensures Increasing(r)
    ensures forall x :: x in r <==> exists i, j :: InGrid(imd, i, j) && imd[i][j] == Val(x)
  {
    var r := Unique(Numbers(Flatten(imd)));
    forall x
      ensures x in r <==> exists i, j :: InGrid(imd, i, j) && imd[i][j] == Val(x)
    {
      FlattenCells(imd, Val(x));
    }
    r
  }

  /** Position `p` of the flattening is cell `(p / width, p % width)`. */
  lemma FlattenPosition(g: Grid, p: nat)
    requires p < |Flatten(g)|
    ensures Width(g) > 0 && InGrid(g, p / Width(g), p % Width(g))
    ensures Flatten(g)[p] == g[p / Width(g)][p % Width(g)]
  {
    FlattenLength(g);
    var w := Width(g);
    DivBelow(p, w, |g|);
    DivMod(p, w);
    var i, j := p / w, p % w;
    assert i * w + j == p;
    FlattenAt(g, i, j);
  }

  /** A cell value occurs in the flattening iff it occurs at some position of the grid. */
  lemma FlattenCells(g: Grid, c: Cell)
    ensures c in Flatten(g) <==> exists i, j :: InGrid(g, i, j) && g[i][j] == c
  {
    if c in Flatten(g) {
      var p :| 0 <= p < |Flatten(g)| && Flatten(g)[p] == c;
      FlattenPosition(g, p);
      var i, j := p / Width(g), p % Width(g);
      assert InGrid(g, i, j) && g[i][j] == c;
    }
    if exists i, j :: InGrid(g, i, j) && g[i][j] == c {
      var i, j :| InGrid(g, i, j) && g[i][j] == c;
      FlattenAt(g, i, j);
    }
  }

  /** Pairs (IMD cell, LST cell) matching IMD value `v`. */
  function Matches(v: real): ((Cell, Cell)) -> bool {
    (p: (Cell, Cell)) => Eq(p.0, Val(v))
  }

  /** `lst_arr[imd_arr == v]`: the LST cells, row-major, where the IMD cell equals `v`. */
  function Group(imd: Grid, lst: Grid, v: real): (r: seq<Cell>)
    requires SameShape(imd, lst)
  {
    FlattenLength(imd);
    FlattenLength(lst);
    Seqs.Seconds(Seqs.Filter(Matches(v), Seqs.Zip(Flatten(imd), Flatten(lst))))
  }

  /** The group of `v` is the subsequence of the LST cells at exactly the flat
      positions where the IMD cell equals `v`. */
  lemma GroupExact(imd: Grid, lst: Grid, v: real)
    requires SameShape(imd, lst)
    ensures |Flatten(imd)| == |Flatten(lst)|
    ensures var r := Group(imd, lst, v);
      var idx := Seqs.KeptIndices(Matches(v), Seqs.Zip(Flatten(imd), Flatten(lst)));
      && |r| == |idx| && Seqs.StrictlyIncreasing(idx)
      && (forall k :: 0 <= k < |idx| ==> idx[k] < |Flatten(lst)| && r[k] == Flatten(lst)[idx[k]])
      && (forall p :: 0 <= p < |Flatten(imd)| ==> (p in idx <==> Flatten(imd)[p] == Val(v)))
  {
    FlattenLength(imd);
    FlattenLength(lst);
    Seqs.FilterSelects(Matches(v), Seqs.Zip(Flatten(imd), Flatten(lst)));
  }

  /** Every plotted IMD value has at least one LST cell to average. */
  lemma GroupNonEmpty(imd: Grid, lst: Grid, v: real)
    requires SameShape(imd, lst) && v in ImdValues(imd)
    ensures |Group(imd, lst, v)| > 0
  {
    var i, j :| InGrid(imd, i, j) && imd[i][j] == Val(v);
    FlattenAt(imd, i, j);
    FlattenLength(imd);
    FlattenLength(lst);
    var z := Seqs.Zip(Flatten(imd), Flatten(lst));
    Seqs.FilterComplete(Matches(v), z, i * Width(imd) + j);
  }

  /** The loop of `generate_scatter_plot` over `np.unique(imd_arr[~np.isnan(imd_arr)])`:
      the plotted IMD values and, for each, `np.nanmean` (a parameter) of its group.
      When there is a value to look up and the grids differ in shape, the boolean
      index raises `IndexError`. */
  method ScatterGroups(imd: Grid, lst: Grid, nanmean: seq<Cell> -> Cell)
    returns (r: Result<(seq<real>, seq<Cell>)>)
    ensures ImdValues(imd) != [] && !SameShape(imd, lst) ==> r == Err(IndexError)
    ensures ImdValues(imd) == [] || SameShape(imd, lst) ==>
      && r.Ok? && r.value.0 == ImdValues(imd) && |r.value.1| == |r.value.0|
      && forall k :: 0 <= k < |r.value.0| ==> r.value.1[k] == nanmean(Group(imd, lst, r.value.0[k]))
  {
    var unique := Unique(Numbers(Flatten(imd)));
    if unique != [] && !SameShape(imd, lst) {
      return Err(IndexError);
    }
    var imdValues: seq<real> := [];
    var lstMeanValues: seq<Cell> := [];
    for k := 0 to |unique|
      invariant imdValues == unique[..k] && |lstMeanValues| == k
      invariant forall m :: 0 <= m < k ==> lstMeanValues[m] == nanmean(Group(imd, lst, unique[m]))
    {
      var corresponding := Group(imd, lst, unique[k]);
      imdValues := imdValues + [unique[k]];
      lstMeanValues := lstMeanValues + [nanmean(corresponding)];
    }
    assert unique[..|unique|] == unique;
    return Ok((imdValues, lstMeanValues));
  }

  // ---------------------------------------------------------------------------
  // generate_scatter_plot: the exclusion loop
  // ---------------------------------------------------------------------------

  /** An (IMD value, LST mean) pair whose IMD value is none of `exclude`. */
  function NotAmong(exclude: seq<real>): ((real, Cell)) -> bool {
    (p: (real, Cell)) => p.0 !in exclude
  }

  /** `filtered_imd_values != mask_value` for one pair. */
  function Differs(maskValue: real): ((real, Cell)) -> bool {
    (p: (real, Cell)) => p.0 != maskValue
  }

  /** The loop `for mask_value in exclude_values`, which indexes both arrays with the
      same boolean mask on the IMD values. `imdValues` and `lstMeanValues` are the
      paired arrays the loop starts from. */
  method ExcludeValues(imdValues: seq<real>, lstMeanValues: seq<Cell>, exclude: seq<real>)
    returns (filteredImd: seq<real>, filteredLst: seq<Cell>)
    requires |imdValues| == |lstMeanValues|
    ensures |filteredImd| == |filteredLst|
    ensures Seqs.Zip(filteredImd, filteredLst) == Seqs.Filter(NotAmong(exclude), Seqs.Zip(imdValues, lstMeanValues))
  {
    var pairs := Seqs.Zip(imdValues, lstMeanValues);
    filteredImd, filteredLst := imdValues, lstMeanValues;
    Seqs.FilterAll(NotAmong([]), pairs);
    assert exclude[..0] == [];
    for k := 0 to |exclude|
      invariant |filteredImd| == |filteredLst|
      invariant Seqs.Zip(filteredImd, filteredLst) == Seqs.Filter(NotAmong(exclude[..k]), pairs)
    {
      var maskValue := exclude[k];
      var kept := Seqs.Filter(Differs(maskValue), Seqs.Zip(filteredImd, filteredLst));
      filteredImd := Seqs.Firsts(kept);
      filteredLst := Seqs.Seconds(kept);
      Seqs.ZipUnzip(kept);
      ExcludeStep(pairs, exclude, k);
    }
    assert exclude[..|exclude|] == exclude;
  }

  /** Excluding one more value filters the pairs kept so far. */
  lemma ExcludeStep(pairs: seq<(real, Cell)>, exclude: seq<real>, k: nat)
    requires k < |exclude|
    ensures Seqs.Filter(Differs(exclude[k]), Seqs.Filter(NotAmong(exclude[..k]), pairs))
         == Seqs.Filter(NotAmong(exclude[..k + 1]), pairs)
  {
    Seqs.FilterFilter(NotAmong(exclude[..k]), Differs(exclude[k]), pairs);
    assert exclude[..k + 1] == exclude[..k] + [exclude[k]];
    Seqs.FilterExtensional(Seqs.Both(NotAmong(exclude[..k]), Differs(exclude[k])), NotAmong(exclude[..k + 1]), pairs);
  }

  /** After the loop no IMD value is an excluded one; the pairs stay aligned and in
      order; and exactly the pairs with an excluded IMD value are dropped. */
  lemma ExclusionMeaning(imdValues: seq<real>, lstMeanValues: seq<Cell>, exclude: seq<real>)
    requires |imdValues| == |lstMeanValues|
    ensures var r := Seqs.Filter(NotAmong(exclude), Seqs.Zip(imdValues, lstMeanValues));
      var idx := Seqs.KeptIndices(NotAmong(exclude), Seqs.Zip(imdValues, lstMeanValues));
      && (forall k :: 0 <= k < |r| ==> r[k].0 !in exclude)
      && |r| == |idx| && Seqs.StrictlyIncreasing(idx)
      && (forall k :: 0 <= k < |idx| ==> idx[k] < |imdValues| && r[k] == (imdValues[idx[k]], lstMeanValues[idx[k]]))
      && (forall p :: 0 <= p < |imdValues| ==> (p in idx <==> imdValues[p] !in exclude))
  {
    Seqs.FilterSelects(NotAmong(exclude), Seqs.Zip(imdValues, lstMeanValues));
  }

  // ---------------------------------------------------------------------------
  // analyze_masked_area
  // ---------------------------------------------------------------------------

  datatype MaskBy = ByLst | ByImd

  const InvalidMaskByMessage: string := "Invalid mask_by argument. Choose from \"LST\" or \"IMD\"."

  /** The `mask_by` dispatch: `'LST'` or `'IMD'`, anything else a `ValueError`. */
  function ParseMaskBy(maskBy: string): (r: Result<MaskBy>)
    ensures r == Ok(ByLst) <==> maskBy == "LST"
    ensures r == Ok(ByImd) <==> maskBy == "IMD"
    ensures r.Err? <==> maskBy != "LST" && maskBy != "IMD"
    ensures r.Err? ==> r.error == ValueError(InvalidMaskByMessage)
  {
    if maskBy == "LST" then Ok(ByLst)
    else if maskBy == "IMD" then Ok(ByImd)
    else Err(ValueError(InvalidMaskByMessage))
  }

  /** Whether a pixel is masked: LST below the threshold, or in IMD mode IMD below
      the threshold, NaN, or 255. */
  predicate Masked(mode: MaskBy, imdCell: Cell, lstCell: Cell, maskBelow: real) {
    match mode
    case ByLst => Below(lstCell, maskBelow)
    case ByImd => Below(imdCell, maskBelow) || imdCell.NaN? || Eq(imdCell, Val(255.0))
  }

  /** The mask in numpy's terms: a NaN compares false, so in LST mode a NaN pixel is
      never masked, while in IMD mode it always is. */
  lemma MaskedMeaning(mode: MaskBy, imdCell: Cell, lstCell: Cell, maskBelow: real)
    ensures mode == ByLst ==> (Masked(mode, imdCell, lstCell, maskBelow) <==> lstCell.Val? && lstCell.v < maskBelow)
    ensures mode == ByImd ==> (Masked(mode, imdCell, lstCell, maskBelow)
                               <==> imdCell.NaN? || imdCell.v < maskBelow || imdCell.v == 255.0)
  {
  }

  /** After the sentinel round trip no IMD cell is 255, so in IMD mode the mask is
      "below the threshold or NaN". */
  lemma ImdMaskAfterSentinel(c: Cell, lstCell: Cell, maskBelow: real)
    ensures Masked(ByImd, SentinelCell(c), lstCell, maskBelow)
        <==> Below(SentinelCell(c), maskBelow) || SentinelCell(c).NaN?
  {
  }

  /** The masking step of `analyze_masked_area` on the grids `match_array_shape`
      returned: the mask is computed from both arrays before either changes, and
      every masked pixel becomes NaN in both. */
  method MaskArea(imd: array2<Cell>, lst: array2<Cell>, maskBy: string, maskBelow: real)
    returns (r: Result<MaskBy>)
    requires imd != lst && imd.Length0 == lst.Length0 && imd.Length1 == lst.Length1
    modifies imd, lst
    ensures r == ParseMaskBy(maskBy)
    ensures r.Err? ==> unchanged(imd) && unchanged(lst)
    ensures r.Ok? ==> forall i, j :: 0 <= i < imd.Length0 && 0 <= j < imd.Length1 ==>
      if Masked(r.value, old(imd[i, j]), old(lst[i, j]), maskBelow)
      then imd[i, j] == NaN && lst[i, j] == NaN
      else imd[i, j] == old(imd[i, j]) && lst[i, j] == old(lst[i, j])
  {
    r := ParseMaskBy(maskBy);
    if r.Err? {
      return;
    }
    var mode := r.value;
    for i := 0 to imd.Length0
      invariant forall p, q :: 0 <= p < imd.Length0 && 0 <= q < imd.Length1 ==>
        if p < i && Masked(mode, old(imd[p, q]), old(lst[p, q]), maskBelow)
        then imd[p, q] == NaN && lst[p, q] == NaN
        else imd[p, q] == old(imd[p, q]) && lst[p, q] == old(lst[p, q])
    {
      for j := 0 to imd.Length1
        invariant forall p, q :: 0 <= p < imd.Length0 && 0 <= q < imd.Length1 ==>
          if (p < i || (p == i && q < j)) && Masked(mode, old(imd[p, q]), old(lst[p, q]), maskBelow)
          then imd[p, q] == NaN && lst[p, q] == NaN
          else imd[p, q] == old(imd[p, q]) && lst[p, q] == old(lst[p, q])
      {
        if Masked(mode, imd[i, j], lst[i, j], maskBelow) {
          lst[i, j] := NaN;
          imd[i, j] := NaN;
        }
      }
    }
  }
}
