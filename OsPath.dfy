/** POSIX path helpers: `os.path.join` with two arguments and `os.path.basename`. */
module OsPath {
  import opened Text

  /** `os.path.join(a, b)` on POSIX. */
  function Join(a: string, b: string): (r: string)
    ensures |b| > 0 && b[0] == '/' ==> r == b
    ensures !(|b| > 0 && b[0] == '/') ==> r == a + b || r == a + "/" + b
  {
    if |b| > 0 && b[0] == '/' then b
    else if a == [] || a[|a| - 1] == '/' then a + b
    else a + "/" + b
  }

  /** `os.path.basename(p)`: the text after the last `/`. */
  function BaseName(p: string): (r: string)
    ensures '/' !in r
    ensures |r| <= |p| && p[|p| - |r|..] == r
    ensures |r| < |p| ==> p[|p| - |r| - 1] == '/'
  {
    AfterLast(p, '/')
  }

  /** The base name of a directory entry joined to its directory is the entry's name. */
  lemma BaseNameOfJoin(dir: string, name: string)
    requires '/' !in name
    ensures BaseName(Join(dir, name)) == name
  {
    SplitNoSeparator(name, '/');
    if dir == [] {
      assert Join(dir, name) == name;
    } else if dir[|dir| - 1] == '/' {
      var d := dir[..|dir| - 1];
      assert Join(dir, name) == d + ['/'] + name;
      SplitAtSeparator(d, '/', name);
    } else {
      assert Join(dir, name) == dir + ['/'] + name;
      SplitAtSeparator(dir, '/', name);
    }
  }
}
