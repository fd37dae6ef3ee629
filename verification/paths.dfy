/**
 The POSIX path helpers the preprocessing step relies on: `os.path.join`,
 `os.path.basename`, `os.path.splitext` and the `Prefix*.svg` glob pattern.
 */
module Paths {
  import opened Wrappers

  /** The position of the last `c` in `s`, as `str.rfind` finds it. */
  function LastIndexOf(s: string, c: char): (r: Option<nat>)
    ensures r.None? ==> c !in s
    ensures r.Some? ==> r.value < |s| && s[r.value] == c && forall j :: r.value < j < |s| ==> s[j] != c
    decreases |s|
  {
    if |s| == 0 then None
    else if s[|s| - 1] == c then Some(|s| - 1)
    else LastIndexOf(s[..|s| - 1], c)
  }

  /** `os.path.join(dir, name)` for a relative `name`. */
  function Join(dir: string, name: string): string
  {
    if |dir| == 0 || dir[|dir| - 1] == '/' then dir + name else dir + "/" + name
  }

  /** `os.path.basename`: what follows the last `/`. */
  function Basename(p: string): (r: string)
    ensures '/' !in r
    ensures |r| <= |p| && r == p[|p| - |r|..]
    ensures '/' !in p ==> r == p
  {
    match LastIndexOf(p, '/')
    case None => p
    case Some(i) => p[i + 1..]
  }

  /** The base name is exactly what follows the last `/`: when it is
      shorter than the path, a `/` precedes it. */
  lemma BasenameAfterLastSlash(p: string)
    ensures '/' in p <==> |Basename(p)| < |p|
    ensures |Basename(p)| < |p| ==> p[|p| - |Basename(p)| - 1] == '/'
    ensures |Basename(p)| < |p| ==> LastIndexOf(p, '/') == Some(|p| - |Basename(p)| - 1)
  {
    match LastIndexOf(p, '/')
    case None =>
      assert Basename(p) == p;
    case Some(i) =>
      assert '/' in p by {
        assert p[i] == '/';
      }
      assert Basename(p) == p[i + 1..];
      assert |Basename(p)| == |p| - i - 1;
  }

  /** Whether some character before position `d` is not a dot. */
  predicate HasNonDotBefore(b: string, d: nat)
    requires d <= |b|
  {
    exists k :: 0 <= k < d && b[k] != '.'
  }

  /** `os.path.splitext(b)[0]` of a base name: the last `.` starts the
      extension, unless only dots precede it (as in `.bashrc`). */
  function Stem(b: string): string
  {
    match LastIndexOf(b, '.')
    case None => b
    case Some(d) => if HasNonDotBefore(b, d) then b[..d] else b
  }

  /** The cache key of a file: its base name with the extension stripped. */
  function Key(path: string): string
  {
    Stem(Basename(path))
  }

  const SvgSuffix := ".svg"

  /** `fnmatch(name, prefix + '*.svg')`, case-sensitive as on POSIX. */
  predicate GlobMatches(name: string, prefix: string)
  {
    && |name| >= |prefix| + |SvgSuffix|
    && name[..|prefix|] == prefix
    && name[|name| - |SvgSuffix|..] == SvgSuffix
  }

  /** A character absent from the tail does not move the last occurrence. */
  lemma {:induction false} LastIndexOfAppend(s: string, t: string, c: char)
    requires c !in t
    ensures LastIndexOf(s + t, c) == LastIndexOf(s, c)
    decreases |t|
  {
    if |t| == 0 {
      assert s + t == s;
    } else {
      assert (s + t)[..|s + t| - 1] == s + t[..|t| - 1];
      LastIndexOfAppend(s, t[..|t| - 1], c);
    }
  }

  /** Joining a directory and a plain name and taking the base name gives
      the name back. */
  lemma BasenameOfJoin(dir: string, name: string)
    requires '/' !in name
    ensures Basename(Join(dir, name)) == name
  {
    var front := if |dir| == 0 || dir[|dir| - 1] == '/' then dir else dir + "/";
    assert Join(dir, name) == front + name;
    LastIndexOfAppend(front, name, '/');
    if |front| > 0 {
      assert front[|front| - 1] == '/';
      assert LastIndexOf(front, '/') == Some(|front| - 1);
      assert (front + name)[|front|..] == name;
    } else {
      assert front + name == name;
    }
  }

  /** The stem of a name found by the glob is the name without `.svg`. */
  lemma StemOfGlobMatch(name: string, prefix: string)
    requires GlobMatches(name, prefix)
    requires |prefix| > 0 && prefix[0] != '.'
    ensures Stem(name) == name[..|name| - |SvgSuffix|]
  {
    var d := |name| - |SvgSuffix|;
    assert name[d..] == SvgSuffix;
    assert name[d] == '.';
    assert forall j :: d < j < |name| ==> name[j] != '.' by {
      assert forall j :: d < j < |name| ==> name[j] == SvgSuffix[j - d];
    }
    assert name[..|prefix|][0] == name[0];
    assert HasNonDotBefore(name, d);
    match LastIndexOf(name, '.')
    case None =>
      assert false;
    case Some(e) =>
      assert e == d;
  }

  /** The key of a file found by the glob is its name without `.svg`, so
      it still starts with the glob's prefix. */
  lemma KeyOfGlobMatch(dir: string, name: string, prefix: string)
    requires GlobMatches(name, prefix)
    requires '/' !in name
    requires |prefix| > 0 && prefix[0] != '.'
    ensures Key(Join(dir, name)) == name[..|name| - |SvgSuffix|]
    ensures |Key(Join(dir, name))| >= |prefix| && Key(Join(dir, name))[..|prefix|] == prefix
  {
    BasenameOfJoin(dir, name);
    StemOfGlobMatch(name, prefix);
  }

  /** Different names found by the glob give different keys. */
  lemma GlobKeysInjective(dir: string, n1: string, n2: string, prefix: string)
    requires GlobMatches(n1, prefix) && GlobMatches(n2, prefix)
    requires '/' !in n1 && '/' !in n2
    requires |prefix| > 0 && prefix[0] != '.'
    requires Key(Join(dir, n1)) == Key(Join(dir, n2))
    ensures n1 == n2
  {
    KeyOfGlobMatch(dir, n1, prefix);
    KeyOfGlobMatch(dir, n2, prefix);
    SameStemSameName(n1, n2, prefix);
  }

  /** Two names ending in `.svg` that agree before it are equal. */
  lemma SameStemSameName(n1: string, n2: string, prefix: string)
    requires GlobMatches(n1, prefix) && GlobMatches(n2, prefix)
    requires n1[..|n1| - |SvgSuffix|] == n2[..|n2| - |SvgSuffix|]
    ensures n1 == n2
  {
    assert n1 == n1[..|n1| - |SvgSuffix|] + n1[|n1| - |SvgSuffix|..];
    assert n2 == n2[..|n2| - |SvgSuffix|] + n2[|n2| - |SvgSuffix|..];
  }
}
