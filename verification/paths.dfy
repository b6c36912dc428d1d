/** File-system path strings: the separator, prefix tests, joining a directory
    with an entry name, and the basename. */
module Paths {

  /** The platform separator (`path.sep`); the model fixes the POSIX one. */
  const Sep: char := '/'

  predicate StartsWith(s: string, prefix: string) {
    |prefix| <= |s| && s[..|prefix|] == prefix
  }

  /** `p` ends in the separator, as the file-system root `/` does. */
  predicate EndsWithSep(p: string) {
    |p| > 0 && p[|p| - 1] == Sep
  }

  /** `p` starts with `dir` followed by a separator: the text test the
      shadowing rule of the code performs. */
  predicate Below(p: string, dir: string) {
    StartsWith(p, dir + [Sep])
  }

  /** No two separators stand next to each other in `s`, as in every path
      `path.join` or the editor produces. */
  predicate NoDoubleSep(s: string) {
    forall i :: 0 <= i < |s| - 1 ==> !(s[i] == Sep && s[i + 1] == Sep)
  }

  /** The prefix every path inside `dir` starts with: `dir` itself when it
      already ends in the separator, `dir` and a separator otherwise. */
  function DirPrefix(dir: string): (prefix: string)
    ensures EndsWithSep(prefix)
    ensures StartsWith(prefix, dir) && |prefix| <= |dir| + 1
    ensures !EndsWithSep(dir) ==> prefix == dir + [Sep]
    ensures EndsWithSep(dir) ==> prefix == dir
  {
    if EndsWithSep(dir) then dir else dir + [Sep]
  }

  /** `p` lies inside directory `dir` (or is `dir` itself when it ends in the
      separator). */
  predicate Inside(p: string, dir: string) {
    StartsWith(p, DirPrefix(dir))
  }

  /** For a directory not ending in the separator, which is every directory
      but the root, the two prefix tests agree. */
  lemma InsideIsBelowOffRoot(p: string, dir: string)
    requires !EndsWithSep(dir)
    ensures Inside(p, dir) <==> Below(p, dir)
  {
  }

  /** `path.join(dir, name)` for a directory path and a plain entry name: no
      second separator is added after a directory that already ends in one. */
  function Join(dir: string, name: string): (p: string)
    ensures Inside(p, dir)
    ensures p[|DirPrefix(dir)|..] == name
    ensures !EndsWithSep(dir) ==> p == dir + [Sep] + name
    ensures EndsWithSep(dir) ==> p == dir + name
  {
    DirPrefix(dir) + name
  }

  /** `path.basename`: the longest separator-free suffix of `p`, that is, the
      text after the last separator (all of `p` when it has none). */
  function Basename(p: string): (b: string)
    ensures Sep !in b
    ensures |b| <= |p| && p[|p| - |b|..] == b
    ensures |b| < |p| ==> p[|p| - |b| - 1] == Sep
  {
    if p == [] || p[|p| - 1] == Sep then []
    else Basename(p[..|p| - 1]) + [p[|p| - 1]]
  }

  /** The basename of a joined path is the entry name it was joined with. */
  lemma {:induction false} BasenameOfJoin(dir: string, name: string)
    requires Sep !in name
    ensures Basename(Join(dir, name)) == name
  {
    var p := Join(dir, name);
    if name == [] {
      assert p[|p| - 1] == Sep;
    } else {
      var init := name[..|name| - 1];
      assert p[..|p| - 1] == Join(dir, init);
      assert p[|p| - 1] == name[|name| - 1];
      assert Sep !in init by {
        forall i | 0 <= i < |init| ensures init[i] != Sep {
          assert init[i] == name[i];
        }
      }
      BasenameOfJoin(dir, init);
      assert init + [name[|name| - 1]] == name;
    }
  }

  /** Joining is injective on plain names: the last separator of a joined path
      tells both the directory prefix and the name back. */
  lemma JoinInjective(a: string, x: string, b: string, y: string)
    requires Sep !in x && Sep !in y
    requires Join(a, x) == Join(b, y)
    ensures DirPrefix(a) == DirPrefix(b) && x == y
  {
    BasenameOfJoin(a, x);
    BasenameOfJoin(b, y);
    assert DirPrefix(a) == Join(a, x)[..|DirPrefix(a)|];
    assert DirPrefix(b) == Join(b, y)[..|DirPrefix(b)|];
  }

  /** Directories with different prefixes never produce the same joined path
      from plain names. */
  lemma JoinsDiffer(a: string, x: string, b: string, y: string)
    requires Sep !in x && Sep !in y
    requires DirPrefix(a) != DirPrefix(b)
    ensures Join(a, x) != Join(b, y)
  {
    if Join(a, x) == Join(b, y) {
      JoinInjective(a, x, b, y);
    }
  }

  /** Two different directories share a prefix only as `d` and `d` plus a
      separator, and then the longer lies inside the shorter. */
  lemma SamePrefix(a: string, b: string)
    requires a != b && DirPrefix(a) == DirPrefix(b)
    ensures (!EndsWithSep(a) && b == a + [Sep] && Inside(b, a))
         || (!EndsWithSep(b) && a == b + [Sep] && Inside(a, b))
  {
  }
}
