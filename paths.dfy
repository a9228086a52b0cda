/** The two `os.path` operations the scripts use, on POSIX paths and URLs. */
module Paths {

  /** Where an artifact is fetched from and the local name it is saved under. */
  datatype Artifact = Artifact(url: string, filename: string)

  /** `os.path.basename`: the text after the last '/'. */
  function Basename(path: string): (name: string)
    ensures |name| <= |path| && name == path[|path| - |name|..]
    ensures '/' !in name
    ensures |name| < |path| ==> path[|path| - |name| - 1] == '/'
  {
    if path == [] || path[|path| - 1] == '/' then []
    else Basename(path[..|path| - 1]) + [path[|path| - 1]]
  }

  /** `os.path.join(a, b)` on POSIX: an absolute `b` replaces `a`, otherwise one '/' separates them. */
  function Join(a: string, b: string): string {
    if |b| > 0 && b[0] == '/' then b
    else if a == [] || a[|a| - 1] == '/' then a + b
    else a + "/" + b
  }

  /** The base name of `dir/name` is `name` whenever `name` holds no '/'. */
  lemma {:induction false} BasenameAfterSlash(dir: string, name: string)
    requires '/' !in name
    ensures Basename(dir + "/" + name) == name
    decreases |name|
  {
    var path := dir + "/" + name;
    if name != [] {
      var init := name[..|name| - 1];
      assert path[..|path| - 1] == dir + "/" + init;
      assert name == init + [name[|name| - 1]];
      BasenameAfterSlash(dir, init);
    }
  }
}
