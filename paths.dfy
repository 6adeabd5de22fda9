/** The `posixpath` functions the core uses: `basename` (also `split(p)[1]`),
    `splitext(p)[0]` and two-argument `join`. */
module PosixPath {

  /** `s.rfind(c)`: the last index holding c, or -1. */
  function RFind(s: string, c: char): (i: int)
    ensures -1 <= i < |s|
    ensures i >= 0 ==> s[i] == c
    ensures forall k :: i < k < |s| ==> s[k] != c
  {
    if s == [] then -1 else if s[|s| - 1] == c then |s| - 1 else RFind(s[..|s| - 1], c)
  }

  /** `os.path.basename(p)`, which is also `os.path.split(p)[1]`: everything after
      the last slash. */
  function Basename(p: string): (b: string)
    ensures |b| <= |p| && b == p[|p| - |b|..]
    ensures forall k :: 0 <= k < |b| ==> b[k] != '/'
    ensures |b| < |p| ==> p[|p| - |b| - 1] == '/'
  {
    var i := RFind(p, '/');
    p[i + 1..]
  }

  /** `os.path.join(a, b)` for two components. */
  function Join(a: string, b: string): (r: string)
  {
    if b != [] && b[0] == '/' then b
    else if a == [] || a[|a| - 1] == '/' then a + b
    else a + "/" + b
  }

  /** `os.path.splitext(p)[0]`: drop the text from the last dot of the last path
      component, unless every character before that dot in the component is a dot
      (so `".bashrc"` and `"..x"` keep their name). */
  function StripExtension(p: string): (root: string)
    ensures |root| <= |p| && root == p[..|root|]
    ensures root != p ==> p[|root|] == '.'
    ensures root != p ==> forall k :: |root| < k < |p| ==> p[k] != '.' && p[k] != '/'
  {
    var sepIndex := RFind(p, '/');
    var dotIndex := RFind(p, '.');
    if dotIndex > sepIndex && exists k :: sepIndex < k < dotIndex && p[k] != '.' then
      p[..dotIndex]
    else
      p
  }

  lemma BasenameAfterSeparator(pre: string, name: string)
    requires '/' !in name
    requires pre == [] || pre[|pre| - 1] == '/'
    ensures Basename(pre + name) == name
  {
    var j := pre + name;
    var i := RFind(j, '/');
    assert forall k :: |pre| <= k < |j| ==> j[k] == name[k - |pre|];
    if pre != [] {
      assert j[|pre| - 1] == '/';
    }
    assert i == |pre| - 1;
    assert j[i + 1..] == name;
  }

  /** The name listed in a directory comes back out of the joined path. */
  lemma BasenameOfJoin(dir: string, name: string)
    requires '/' !in name
    ensures Basename(Join(dir, name)) == name
  {
    assert name == [] || name[0] != '/';
    if dir == [] || dir[|dir| - 1] == '/' {
      BasenameAfterSeparator(dir, name);
    } else {
      assert Join(dir, name) == (dir + "/") + name;
      BasenameAfterSeparator(dir + "/", name);
    }
  }

  /** Removing the extension of `name + "." + ext` gives `name` back, provided `name`
      is a single component that is not made of dots only. */
  lemma {:induction false} StripExtensionOf(name: string, ext: string)
    requires '/' !in name && '/' !in ext && '.' !in ext
    requires exists k :: 0 <= k < |name| && name[k] != '.'
    ensures StripExtension(name + "." + ext) == name
  {
    var p := name + "." + ext;
    assert p[|name|] == '.';
    assert forall k :: |name| < k < |p| ==> p[k] == ext[k - |name| - 1];
    var dotIndex := RFind(p, '.');
    var sepIndex := RFind(p, '/');
    assert dotIndex == |name|;
    assert forall k :: 0 <= k < |name| ==> p[k] == name[k];
    assert sepIndex == -1;
    var k :| 0 <= k < |name| && name[k] != '.';
    assert sepIndex < k < dotIndex && p[k] != '.';
    assert p[..dotIndex] == name;
  }

  /** A dot file keeps its whole name. */
  lemma StripExtensionDotFile()
    ensures StripExtension(".bashrc") == ".bashrc"
    ensures StripExtension("a/report.v2.pdf") == "a/report.v2"
  {
    var d := ".bashrc";
    assert forall k :: 0 < k < |d| ==> d[k] != '.' && d[k] != '/';
    assert d[0] != '/';
    var p := "a/report.v2.pdf";
    assert forall k :: 1 < k < |p| ==> p[k] != '/';
    assert forall k :: 11 < k < |p| ==> p[k] != '.';
    assert p[0] != '/' && p[1] == '/' && p[11] == '.';
    assert RFind(p, '/') == 1;
    assert RFind(p, '.') == 11;
    assert p[2] != '.';
    assert p[..11] == "a/report.v2";
  }
}
