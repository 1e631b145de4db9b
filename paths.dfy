/** The parts of System.IO.Path the core relies on, with the separators of
    .NET on Windows: both '/' and '\' end a path segment. */
module Paths {

  /** Path.DirectorySeparatorChar or Path.AltDirectorySeparatorChar. */
  predicate IsDirectorySeparator(c: char) {
    c == '/' || c == '\\'
  }

  /** Path.GetFileName: the longest suffix of `path` without a separator,
      that is, everything after the last separator. */
  function FileName(path: string): (r: string)
    ensures |r| <= |path| && r == path[|path| - |r|..]
    ensures forall c :: c in r ==> !IsDirectorySeparator(c)
    ensures |r| < |path| ==> IsDirectorySeparator(path[|path| - |r| - 1])
    decreases |path|
  {
    if path == [] then []
    else if IsDirectorySeparator(path[|path| - 1]) then []
    else
      var front := FileName(path[..|path| - 1]);
      assert path[..|path| - 1][|path| - 1 - |front|..] == front;
      front + [path[|path| - 1]]
  }

  /** Whatever precedes the last separator does not matter to the file name. */
  lemma {:induction false} FileNameAfterSeparator(dir: string, name: string)
    requires forall c :: c in name ==> !IsDirectorySeparator(c)
    ensures FileName(dir + "/" + name) == name
    decreases |name|
  {
    var path := dir + "/" + name;
    if name != [] {
      var last := name[|name| - 1];
      assert last in name;
      assert path[..|path| - 1] == dir + "/" + name[..|name| - 1];
      FileNameAfterSeparator(dir, name[..|name| - 1]);
      assert name == name[..|name| - 1] + [last];
    }
  }

  /** Example: directory parts of an uploaded name are dropped, `..` included. */
  lemma FileNameDropsDirectories()
    ensures FileName("/../../x.png") == "x.png"
  {
    assert "/../../x.png" == "/../.." + "/" + "x.png";
    FileNameAfterSeparator("/../..", "x.png");
  }
}
