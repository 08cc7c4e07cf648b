/** The crypto helper's directory layout under Chef's file cache and the classpath
    that `javac` and `java` are given. */
module CryptoPaths {
  import opened Text

  /** `dir` without its trailing run of `/`. */
  function TrimTrailingSlashes(dir: string): (r: string)
    ensures r <= dir
    ensures r == [] || r[|r| - 1] != '/'
    ensures forall k :: |r| <= k < |dir| ==> dir[k] == '/'
  {
    if dir != [] && dir[|dir| - 1] == '/' then TrimTrailingSlashes(dir[..|dir| - 1]) else dir
  }

  /** Two-argument `File.join`: one `/` between the parts, unless `dir` already ends in one;
      a `name` starting with `/` replaces the trailing separators of `dir`. */
  function Join(dir: string, name: string): string {
    if name != [] && name[0] == '/' then TrimTrailingSlashes(dir) + name
    else if dir != [] && dir[|dir| - 1] == '/' then dir + name
    else dir + "/" + name
  }

  /** The joined path is `dir` without its trailing slashes, then only slashes (the
      directory's own trailing ones, or one added when there are none), then `name`. */
  lemma JoinShape(dir: string, name: string)
    ensures var r, t := Join(dir, name), TrimTrailingSlashes(dir);
            && t <= r && |name| <= |r| && r[|r| - |name|..] == name
            && |t| <= |r| - |name| <= |dir| + 1
            && (forall k :: |t| <= k < |r| - |name| ==> r[k] == '/')
            && ((dir == [] || dir[|dir| - 1] != '/') && (name == [] || name[0] != '/')
                ==> |r| == |dir| + 1 + |name|)
  {
    var r, t := Join(dir, name), TrimTrailingSlashes(dir);
    if !(name != [] && name[0] == '/') && dir != [] && dir[|dir| - 1] == '/' {
      forall k | |t| <= k < |r| - |name| ensures r[k] == '/' {
        assert r[k] == dir[k];
      }
    }
  }

  lemma JoinKeepsOut(c: char, dir: string, name: string)
    requires c != '/' && c !in dir && c !in name
    ensures c !in Join(dir, name)
  {
    var t := TrimTrailingSlashes(dir);
    assert t == dir[..|t|];
  }

  function RootDir(cacheRoot: string): string { Join(cacheRoot, "crypto") }
  function TmpDir(cacheRoot: string): string { Join(RootDir(cacheRoot), "tmp") }
  function AemDir(cacheRoot: string): string { Join(Join(RootDir(cacheRoot), "libs"), "aem") }
  function LogDir(cacheRoot: string): string { Join(Join(RootDir(cacheRoot), "libs"), "log") }

  /** `crypto_classpath`: the current dir, the tmp dir (the master key is loaded from the
      classpath), then every AEM jar and every log jar. */
  function Classpath(cacheRoot: string): string {
    JoinWith(':', [".", TmpDir(cacheRoot), Join(AemDir(cacheRoot), "*"), Join(LogDir(cacheRoot), "*")])
  }

  /** Whatever the cache root, the classpath starts with the current dir and then the tmp
      dir, so the master key written there is found first. */
  lemma ClasspathStartsWithTmp(cacheRoot: string)
    ensures "." + ":" + TmpDir(cacheRoot) + ":" <= Classpath(cacheRoot)
  {
    var tmp := TmpDir(cacheRoot);
    var parts := [".", tmp, Join(AemDir(cacheRoot), "*"), Join(LogDir(cacheRoot), "*")];
    var tail := JoinWith(':', parts[2..]);
    assert parts[1..][1..] == parts[2..];
    assert JoinWith(':', parts[1..]) == tmp + [':'] + tail;
    assert JoinWith(':', parts) == "." + [':'] + (tmp + [':'] + tail);
    assert JoinWith(':', parts) == ("." + ":" + tmp + ":") + tail;
  }

  /** Read back the way the JVM reads it, the classpath is exactly four entries, in this
      order, so the tmp dir is searched before both library globs. */
  lemma {:induction false} ClasspathEntries(cacheRoot: string)
    requires ':' !in cacheRoot
    ensures Split(':', Classpath(cacheRoot))
         == [".", TmpDir(cacheRoot), Join(AemDir(cacheRoot), "*"), Join(LogDir(cacheRoot), "*")]
  {
    JoinKeepsOut(':', cacheRoot, "crypto");
    var root := RootDir(cacheRoot);
    JoinKeepsOut(':', root, "tmp");
    JoinKeepsOut(':', root, "libs");
    JoinKeepsOut(':', Join(root, "libs"), "aem");
    JoinKeepsOut(':', Join(root, "libs"), "log");
    JoinKeepsOut(':', AemDir(cacheRoot), "*");
    JoinKeepsOut(':', LogDir(cacheRoot), "*");
    var parts := [".", TmpDir(cacheRoot), Join(AemDir(cacheRoot), "*"), Join(LogDir(cacheRoot), "*")];
    SplitJoin(':', parts);
  }
}
