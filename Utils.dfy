/** `list_filepaths` (modules/utils.py; an identical copy lives in image_preparation.py):
    the entries of a directory whose names contain all (or any) of the inclusion
    patterns and none of the exclusion patterns, joined to the directory. */
module Utils {
  import opened Text
  import opened OsPath
  import Seqs

  /** The `patterns_in_bool` closure: all patterns (`include_all_patterns`) or any pattern. */
  predicate PatternsInOk(name: string, patternsIn: seq<string>, includeAll: bool) {
    if includeAll then forall k :: 0 <= k < |patternsIn| ==> Contains(name, patternsIn[k])
    else exists k :: 0 <= k < |patternsIn| && Contains(name, patternsIn[k])
  }

  /** The `patterns_out_bool` closure: no exclusion pattern occurs in the name. */
  predicate PatternsOutOk(name: string, patternsOut: seq<string>) {
    forall k :: 0 <= k < |patternsOut| ==> !Contains(name, patternsOut[k])
  }

  predicate Accepted(name: string, patternsIn: seq<string>, patternsOut: seq<string>, includeAll: bool) {
    PatternsInOk(name, patternsIn, includeAll) && PatternsOutOk(name, patternsOut)
  }

  /** The comprehension's condition as a value, so that every use names the same predicate. */
  function Acceptor(patternsIn: seq<string>, patternsOut: seq<string>, includeAll: bool): string -> bool {
    name => Accepted(name, patternsIn, patternsOut, includeAll)
  }

  function Joiner(dir: string): string -> string {
    name => Join(dir, name)
  }

  /** What `list_filepaths` hands back: the list it returns, and whether it printed its warning. */
  datatype Listing = Listing(paths: seq<string>, warned: bool)

  /** `list_filepaths(dir, patterns_in, patterns_out, include_all_patterns, print_warning)`
      where `names` is what `os.listdir(dir)` returned. An empty result is returned,
      not raised; the warning is printed exactly when the result is empty and
      `print_warning` holds. */
  function ListFilepaths(dir: string, names: seq<string>, patternsIn: seq<string>,
                         patternsOut: seq<string>, includeAll: bool, printWarning: bool): (r: Listing)
    ensures r.warned <==> printWarning && r.paths == []
    ensures |r.paths| <= |names|
  {
    var kept := Seqs.Filter(Acceptor(patternsIn, patternsOut, includeAll), names);
    var paths := Seqs.Map(Joiner(dir), kept);
    Listing(paths, printWarning && paths == [])
  }

  /** Soundness, completeness and order: the result is exactly the accepted names,
      each joined to `dir`, in listing order (`idx` are their positions in the listing). */
  lemma ListFilepathsExact(dir: string, names: seq<string>, patternsIn: seq<string>,
                           patternsOut: seq<string>, includeAll: bool, printWarning: bool)
    ensures var r := ListFilepaths(dir, names, patternsIn, patternsOut, includeAll, printWarning).paths;
      var idx := Seqs.KeptIndices(Acceptor(patternsIn, patternsOut, includeAll), names);
      && |r| == |idx|
      && Seqs.StrictlyIncreasing(idx)
      && (forall k :: 0 <= k < |idx| ==> idx[k] < |names| && r[k] == Join(dir, names[idx[k]]))
      && (forall j :: 0 <= j < |names| ==> (j in idx <==> Accepted(names[j], patternsIn, patternsOut, includeAll)))
  {
    Seqs.FilterSelects(Acceptor(patternsIn, patternsOut, includeAll), names);
  }

  /** Every returned path comes from a listed name that passes both predicates:
      all inclusion patterns (or at least one, when `includeAll` is false) and no exclusion pattern. */
  lemma ListFilepathsSound(dir: string, names: seq<string>, patternsIn: seq<string>,
                           patternsOut: seq<string>, includeAll: bool, printWarning: bool, k: nat)
    requires k < |ListFilepaths(dir, names, patternsIn, patternsOut, includeAll, printWarning).paths|
    ensures exists j :: (
      && 0 <= j < |names|
      && ListFilepaths(dir, names, patternsIn, patternsOut, includeAll, printWarning).paths[k] == Join(dir, names[j])
      && (includeAll ==> forall q :: 0 <= q < |patternsIn| ==> Contains(names[j], patternsIn[q]))
      && (!includeAll ==> exists q :: 0 <= q < |patternsIn| && Contains(names[j], patternsIn[q]))
      && (forall q :: 0 <= q < |patternsOut| ==> !Contains(names[j], patternsOut[q])))
  {
    ListFilepathsExact(dir, names, patternsIn, patternsOut, includeAll, printWarning);
    var idx := Seqs.KeptIndices(Acceptor(patternsIn, patternsOut, includeAll), names);
    var j := idx[k];
    assert j in idx;
    assert Accepted(names[j], patternsIn, patternsOut, includeAll);
  }

  /** Every listed name that passes both predicates is returned. */
  lemma ListFilepathsComplete(dir: string, names: seq<string>, patternsIn: seq<string>,
                              patternsOut: seq<string>, includeAll: bool, printWarning: bool, j: nat)
    requires j < |names| && Accepted(names[j], patternsIn, patternsOut, includeAll)
    ensures Join(dir, names[j]) in ListFilepaths(dir, names, patternsIn, patternsOut, includeAll, printWarning).paths
  {
    ListFilepathsExact(dir, names, patternsIn, patternsOut, includeAll, printWarning);
    var idx := Seqs.KeptIndices(Acceptor(patternsIn, patternsOut, includeAll), names);
    assert j in idx;
    var k :| 0 <= k < |idx| && idx[k] == j;
    assert ListFilepaths(dir, names, patternsIn, patternsOut, includeAll, printWarning).paths[k] == Join(dir, names[j]);
  }

  /** With no inclusion patterns, all-mode accepts every name and any-mode accepts none;
      with no exclusion patterns, nothing is excluded. */
  lemma EmptyPatternLists(name: string, patternsIn: seq<string>, patternsOut: seq<string>, includeAll: bool)
    ensures patternsIn == [] ==> (PatternsInOk(name, patternsIn, includeAll) <==> includeAll)
    ensures patternsOut == [] ==> (Accepted(name, patternsIn, patternsOut, includeAll) <==> PatternsInOk(name, patternsIn, includeAll))
  {
  }

  /** With no inclusion patterns in any-mode the result is empty, and the warning
      is printed iff it was asked for. */
  lemma AnyModeWithoutPatterns(dir: string, names: seq<string>, patternsOut: seq<string>, printWarning: bool)
    ensures ListFilepaths(dir, names, [], patternsOut, false, printWarning) == Listing([], printWarning)
  {
    Seqs.FilterNone(Acceptor([], patternsOut, false), names);
  }

  /** Whether the warning is printed does not change the returned list. */
  lemma WarningDoesNotChangeResult(dir: string, names: seq<string>, patternsIn: seq<string>,
                                   patternsOut: seq<string>, includeAll: bool)
    ensures ListFilepaths(dir, names, patternsIn, patternsOut, includeAll, true).paths
         == ListFilepaths(dir, names, patternsIn, patternsOut, includeAll, false).paths
    ensures !ListFilepaths(dir, names, patternsIn, patternsOut, includeAll, false).warned
  {
  }
}
