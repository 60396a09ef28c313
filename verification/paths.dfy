/** Directory paths as sequences of components, and the ancestor chain that
    both lookups of the projector walk. */
module Paths {
  import opened Optional

  /** A directory path as the component list `Path::components` yields, the
      filesystem root being `[]`. That list already omits repeated and
      trailing separators and every `.` except a leading one; `..` is kept
      as an ordinary component, since nothing resolves it. */
  type Path = seq<string>

  const Root: Path := []

  /** `a` is `p` itself or one of its ancestors, i.e. a prefix of `p`. */
  predicate IsAncestor(a: Path, p: Path) {
    |a| <= |p| && p[..|a|] == a
  }

  /** `Path::parent`: drops the last component; the root has no parent. */
  function Parent(p: Path): (r: Option<Path>)
    ensures r.None? <==> p == Root
    ensures r.Some? ==> |r.value| + 1 == |p| && IsAncestor(r.value, p)
  {
    if p == [] then None else Some(p[..|p| - 1])
  }

  /** `paths` lists `p` and its ancestors nearest first: `p` at index 0, the
      root last, each entry the parent of the one before. */
  ghost predicate IsChainOf(paths: seq<Path>, p: Path) {
    && |paths| == |p| + 1
    && forall i :: 0 <= i < |paths| ==> paths[i] == p[..|p| - i]
  }

  /** The upward walk of both lookups: record the current path, move to its
      parent, and stop after recording the root. */
  method AncestorChain(pwd: Path) returns (paths: seq<Path>)
    ensures IsChainOf(paths, pwd)
    ensures paths[0] == pwd && paths[|paths| - 1] == Root
  {
    var curr: Option<Path> := Some(pwd);
    paths := [];
    while curr.Some?
      invariant |paths| <= |pwd| + 1
      invariant curr.Some? ==> |paths| <= |pwd| && curr.value == pwd[..|pwd| - |paths|]
      invariant curr.None? ==> |paths| == |pwd| + 1
      invariant forall i :: 0 <= i < |paths| ==> paths[i] == pwd[..|pwd| - i]
      decreases |pwd| + 1 - |paths|
    {
      var p := curr.value;
      paths := paths + [p];
      curr := Parent(p);
    }
  }

  /** The chain holds exactly the ancestors of `p` (`p` included); for the
      root it is the single element `[Root]`. */
  lemma ChainMembers(paths: seq<Path>, p: Path)
    requires IsChainOf(paths, p)
    ensures forall a :: a in paths <==> IsAncestor(a, p)
    ensures p == Root ==> paths == [Root]
  {
    forall a
      ensures a in paths <==> IsAncestor(a, p)
    {
      if IsAncestor(a, p) {
        assert paths[|p| - |a|] == a;
      }
    }
  }
}
