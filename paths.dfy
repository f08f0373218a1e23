/** POSIX path helpers as Python's posixpath computes them: basename,
    dirname, join and splitext. Paths are plain strings; nothing here
    touches a file system. */
module Paths {
  import opened Text

  /** str.rfind(c): the index of the last occurrence of c in s, or -1. */
  function RFind(s: string, c: char): (i: int)
    ensures -1 <= i < |s|
    ensures i == -1 ==> c !in s
    ensures i >= 0 ==> s[i] == c && forall j :: i < j < |s| ==> s[j] != c
  {
    if s == [] then -1
    else if s[|s| - 1] == c then |s| - 1
    else RFind(s[..|s| - 1], c)
  }

  /** os.path.basename: everything after the last '/'. */
  function Basename(p: string): (b: string)
    ensures '/' !in b
    ensures EndsWith(p, b)
    ensures |b| == |p| || p[|p| - |b| - 1] == '/'
  {
    p[RFind(p, '/') + 1..]
  }

  /** os.path.dirname: everything before the last '/', with trailing
      slashes removed unless the head is made only of slashes. */
  function Dirname(p: string): string {
    var head := p[..RFind(p, '/') + 1];
    if head != [] && head != Repeat('/', |head|) then RStripSlashes(head) else head
  }

  /** str.rstrip('/'). */
  function RStripSlashes(s: string): (r: string)
    ensures |r| <= |s| && r == s[..|r|]
    ensures forall i :: |r| <= i < |s| ==> s[i] == '/'
    ensures r == [] || r[|r| - 1] != '/'
  {
    if s != [] && s[|s| - 1] == '/' then RStripSlashes(s[..|s| - 1]) else s
  }

  /** os.path.join(a, b) for two components. */
  function PathJoin(a: string, b: string): string {
    if StartsWith(b, "/") then b
    else if a == [] || EndsWith(a, "/") then a + b
    else a + "/" + b
  }

  /** os.path.splitext: the root and the extension, where the extension
      starts at the last '.' of the last component, provided some
      character of that component before the dot is not itself a dot. */
  function Splitext(p: string): (parts: (string, string))
    ensures parts.0 + parts.1 == p
    ensures parts.1 == [] || (parts.1[0] == '.' && '/' !in parts.1 && '.' !in parts.1[1..])
    ensures parts.1 != [] ==> ExtensionDot(p, |parts.0|)
    ensures (exists j :: ExtensionDot(p, j)) ==> parts.1 != []
  {
    var sep := RFind(p, '/');
    var dot := RFind(p, '.');
    if dot > sep && HasNonDot(p, sep + 1, dot) then
      assert p == p[..dot] + p[dot..];
      (p[..dot], p[dot..])
    else (p, [])
  }

  /** Position j of p is a dot in the last component with a non-dot
      before it in that component: a dot splitext may cut at. */
  predicate ExtensionDot(p: string, j: int) {
    RFind(p, '/') < j < |p| && p[j] == '.' && HasNonDot(p, RFind(p, '/') + 1, j)
  }

  /** Some character of p in [lo, hi) is not a dot. */
  predicate HasNonDot(p: string, lo: nat, hi: nat)
    requires lo <= hi <= |p|
  {
    exists i :: lo <= i < hi && p[i] != '.'
  }

  /** The root splitext gives a path ending in ".mkv" whose character before
      the extension is neither '.' nor '/': the path minus its ".mkv". */
  lemma SplitextMkv(p: string)
    requires EndsWith(p, ".mkv") && |p| >= 5
    requires p[|p| - 5] != '.' && p[|p| - 5] != '/'
    ensures Splitext(p) == (p[..|p| - 4], ".mkv")
  {
    var n := |p|;
    var sep := RFind(p, '/');
    var dot := RFind(p, '.');
    assert p[n - 4..] == ".mkv";
    assert p[n - 4] == '.' && p[n - 3] == 'm' && p[n - 2] == 'k' && p[n - 1] == 'v';
    assert dot == n - 4;
    assert sep < n - 5;
    assert HasNonDot(p, sep + 1, dot) by {
      assert p[n - 5] != '.';
    }
  }

  /** Joining a directory with a name that has no '/' yields that name as basename. */
  lemma BasenameOfJoin(dir: string, name: string)
    requires name != [] && '/' !in name
    ensures Basename(PathJoin(dir, name)) == name
  {
    var p := PathJoin(dir, name);
    assert !StartsWith(name, "/") by {
      assert name[0] in name;
    }
    var pre := if dir == [] || EndsWith(dir, "/") then dir else dir + "/";
    assert p == pre + name;
    forall j | |pre| <= j < |p| ensures p[j] != '/' {
      assert p[j] == name[j - |pre|];
      assert name[j - |pre|] in name;
    }
    var i := RFind(p, '/');
    if pre != [] {
      assert p[|pre| - 1] == '/';
      assert i == |pre| - 1;
    } else {
      assert i == -1;
    }
  }
}
