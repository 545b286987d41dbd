/**
 Paths as the program builds them: `filepath.Join(root, rel)` to form the full
 path of a walked file under a source or target root, and `filepath.Dir` for
 the directory a move must create first.  Join is modelled as concatenation
 with the separator (an empty root contributes nothing, as in Go); the lexical
 clean-up Go performs on the result is not modelled.
 */
module Paths {

  import opened Wrappers

  const Separator: char := '/'

  /** `filepath.Join(root, rel)` for the relative paths a directory walk
      reports. */
  function Join(root: string, rel: string): string
  {
    if root == "" then rel else root + [Separator] + rel
  }

  /** The partner of Join: the path relative to `root`, or None when `path`
      does not lie under `root`. */
  function StripRoot(root: string, path: string): (rel: Option<string>)
    ensures rel.Some? ==> |rel.value| <= |path|
  {
    if root == "" then Some(path)
    else if |path| > |root| && path[..|root|] == root && path[|root|] == Separator then Some(path[|root| + 1..])
    else None
  }

  /** Stripping a root from a path joined under it gives back the relative
      path. */
  lemma StripJoin(root: string, rel: string)
    ensures StripRoot(root, Join(root, rel)) == Some(rel)
  {
    if root != "" {
      var p := root + [Separator] + rel;
      assert p[..|root|] == root;
      assert p[|root| + 1..] == rel;
    }
  }

  /** Joining a root with what stripping it left gives back the path. */
  lemma JoinStrip(root: string, path: string, rel: string)
    requires StripRoot(root, path) == Some(rel)
    ensures Join(root, rel) == path
  {
    if root != "" {
      assert path == path[..|root|] + [path[|root|]] + path[|root| + 1..];
    }
  }

  /** Distinct relative paths give distinct full paths under one root. */
  lemma JoinInjective(root: string, a: string, b: string)
    requires Join(root, a) == Join(root, b)
    ensures a == b
  {
    StripJoin(root, a);
    StripJoin(root, b);
  }

  /** The index of the last separator in `p`, if any. */
  function LastSeparator(p: string): (r: Option<nat>)
    ensures r.Some? ==> r.value < |p| && p[r.value] == Separator
    ensures r.Some? ==> forall k :: r.value < k < |p| ==> p[k] != Separator
    ensures r.None? ==> forall k :: 0 <= k < |p| ==> p[k] != Separator
    decreases |p|
  {
    if p == [] then None
    else if p[|p| - 1] == Separator then Some(|p| - 1)
    else LastSeparator(p[..|p| - 1])
  }

  /** `filepath.Dir`: everything before the last separator; "/" when that is
      the first character, "." when there is no separator. */
  function Dir(p: string): string
  {
    match LastSeparator(p)
    case None => "."
    case Some(i) => if i == 0 then [Separator] else p[..i]
  }

  /** The directory a move creates for `Join(root, rel)` is `root` itself, or
      `root` joined with the directory part of `rel`: the relative directory
      structure is mirrored under the root. */
  lemma DirOfJoin(root: string, rel: string)
    ensures root == "" ==> Dir(Join(root, rel)) == Dir(rel)
    ensures root != "" && LastSeparator(rel).None? ==> Dir(Join(root, rel)) == root
    ensures root != "" && LastSeparator(rel).Some? ==>
              Dir(Join(root, rel)) == Join(root, rel[..LastSeparator(rel).value])
  {
    if root != "" {
      match LastSeparator(rel)
      case None => DirOfJoinFile(root, rel);
      case Some(i) => DirOfJoinNested(root, rel, i);
    }
  }

  lemma DirOfJoinFile(root: string, rel: string)
    requires root != ""
    requires forall k :: 0 <= k < |rel| ==> rel[k] != Separator
    ensures Dir(Join(root, rel)) == root
  {
    var p := root + [Separator] + rel;
    forall k | |root| < k < |p| ensures p[k] != Separator {
      assert p[k] == rel[k - |root| - 1];
    }
    LastSeparatorIs(p, |root|);
    assert p[..|root|] == root;
  }

  lemma DirOfJoinNested(root: string, rel: string, i: nat)
    requires root != ""
    requires i < |rel| && rel[i] == Separator
    requires forall k :: i < k < |rel| ==> rel[k] != Separator
    ensures Dir(Join(root, rel)) == Join(root, rel[..i])
  {
    var n := |root| + 1;
    var p := root + [Separator] + rel;
    assert p[n + i] == rel[i];
    forall k | n + i < k < |p| ensures p[k] != Separator {
      assert p[k] == rel[k - n];
    }
    LastSeparatorIs(p, n + i);
    assert p[..n + i] == root + [Separator] + rel[..i];
  }

  /** LastSeparator finds the separator that no later one follows. */
  lemma LastSeparatorIs(p: string, i: nat)
    requires i < |p| && p[i] == Separator
    requires forall k :: i < k < |p| ==> p[k] != Separator
    ensures LastSeparator(p) == Some(i)
  {
  }

}
