/**
 * The three `os.path` operations the utilities use, as POSIX Python defines
 * them: `join` of two components, `basename`, and `splitext`.
 */
module PosixPath {

  const Sep: char := '/'
  const ExtSep: char := '.'

  /** `s.rfind(c)`: the last index holding `c`, or -1. */
  function LastIndex(s: string, c: char): (r: int)
    ensures -1 <= r < |s|
    ensures r >= 0 ==> s[r] == c
    ensures forall k :: r < k < |s| ==> s[k] != c
  {
    if s == [] then -1
    else if s[|s| - 1] == c then |s| - 1
    else LastIndex(s[..|s| - 1], c)
  }

  /** `os.path.join(a, b)`: an absolute `b` replaces `a`; otherwise one separator between them. */
  function Join(a: string, b: string): string
  {
    if |b| > 0 && b[0] == Sep then b
    else if a == [] || a[|a| - 1] == Sep then a + b
    else a + [Sep] + b
  }

  /** `os.path.basename(p)`: the longest suffix of `p` without a separator. */
  function Basename(p: string): (r: string)
    ensures Sep !in r
    ensures |r| <= |p| && p[|p| - |r|..] == r
    ensures |r| < |p| ==> p[|p| - |r| - 1] == Sep
  {
    p[LastIndex(p, Sep) + 1..]
  }

  /**
   * `os.path.splitext(p)`: the extension is the part from the last dot of the
   * last path component, provided some character before that dot in the
   * component is not a dot (so `.bashrc` and `..` have no extension).
   */
  function SplitExt(p: string): (r: (string, string))
    ensures r.0 + r.1 == p
    ensures r.1 == [] || (r.1[0] == ExtSep && ExtSep !in r.1[1..] && Sep !in r.1)
  {
    var sepIndex := LastIndex(p, Sep);
    var dotIndex := LastIndex(p, ExtSep);
    if dotIndex > sepIndex && exists k :: sepIndex < k < dotIndex && p[k] != ExtSep then
      assert p[..dotIndex] + p[dotIndex..] == p;
      (p[..dotIndex], p[dotIndex..])
    else
      (p, [])
  }

  /**
   * `splitext` keeps leading dots in the root: it splits only at a dot that
   * follows some other character of the last path component, and then the
   * root's last component holds such a character.
   */
  lemma SplitExtLeadingDots(p: string)
    ensures var sep := LastIndex(p, Sep);
            var r := SplitExt(p);
            && (r.1 != [] ==> exists k :: sep < k < |r.0| && r.0[k] != ExtSep)
            && (r.1 == [] <==> !exists i, k :: sep < k < i < |p| && p[k] != ExtSep && p[i] == ExtSep)
  {
    var sep := LastIndex(p, Sep);
    var dot := LastIndex(p, ExtSep);
    var r := SplitExt(p);
    if dot > sep && exists k :: sep < k < dot && p[k] != ExtSep {
      var k :| sep < k < dot && p[k] != ExtSep;
      assert r.0 == p[..dot] && r.0[k] == p[k];
      assert p[dot] == ExtSep;
    } else {
      assert r.1 == [];
      forall i, k | sep < k < i < |p| && p[k] != ExtSep
        ensures p[i] != ExtSep
      {
        if i > dot {
        } else if i < dot {
        }
      }
    }
  }

  /** A hidden file such as `.bashrc` has no extension. */
  lemma HiddenFileHasNoExtension(p: string)
    requires p == ".bashrc"
    ensures SplitExt(p) == (p, [])
  {
    SplitExtLeadingDots(p);
    assert LastIndex(p, Sep) == -1;
    forall i, k | -1 < k < i < |p| && p[k] != ExtSep
      ensures p[i] != ExtSep
    {
      assert k >= 1;
    }
  }

  /** `os.path.splitext(p)[0]`. */
  function Root(p: string): string
  {
    SplitExt(p).0
  }

  /** Joining a relative path onto a directory keeps the directory as a prefix. */
  lemma JoinKeepsDirectory(dir: string, name: string)
    requires name == [] || name[0] != Sep
    ensures |dir| <= |Join(dir, name)| && Join(dir, name)[..|dir|] == dir
  {
    var p := Join(dir, name);
    if dir == [] || dir[|dir| - 1] == Sep {
      assert p == dir + name;
    } else {
      assert p == dir + [Sep] + name;
    }
  }

  /** Joining a plain file name onto a directory and taking the basename gives the name back. */
  lemma BasenameOfJoin(dir: string, name: string)
    requires name != [] && Sep !in name
    ensures Basename(Join(dir, name)) == name
  {
    var p := Join(dir, name);
    var prefix := p[..|p| - |name|];
    assert p == prefix + name;
    assert prefix == [] || prefix[|prefix| - 1] == Sep;
    var r := Basename(p);
    if |r| > |name| {
      assert false;
    } else if |r| < |name| {
      assert false;
    }
  }

  /** A name with at least one non-dot character and no separator, followed by `.ext`, splits back into the two. */
  lemma SplitExtOfAddedExt(name: string, ext: string)
    requires Sep !in name && ExtSep !in ext && Sep !in ext
    requires exists k :: 0 <= k < |name| && name[k] != ExtSep
    ensures SplitExt(name + [ExtSep] + ext) == (name, [ExtSep] + ext)
  {
    var p := name + [ExtSep] + ext;
    var dotIndex := LastIndex(p, ExtSep);
    assert p[|name|] == ExtSep;
    if dotIndex > |name| {
      assert false;
    }
    var sepIndex := LastIndex(p, Sep);
    if sepIndex >= 0 {
      assert false;
    }
    var k :| 0 <= k < |name| && name[k] != ExtSep;
    assert p[k] == name[k];
    assert p[..dotIndex] == name;
    assert p[dotIndex..] == [ExtSep] + ext;
  }
}
