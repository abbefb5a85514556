/** `SubdirFilesystem`: the paths of a directory of another filesystem, as paths of its own. */
module Subdir {
  import opened Paths

  class SubdirFilesystem {
    const path: VFSPath

    constructor (path: VFSPath)
      ensures this.path == path
    {
      this.path := path;
    }

    method ToParent(p: VFSPath) returns (r: VFSPath)
      ensures r == ToParentOf(path, p)
    {
      var c := CollapseRelativeParents(p);
      r := Slash(path, c);
    }

    method FromParent(p: VFSPath) returns (r: VFSPath)
      ensures r == FromParentOf(path, p)
    {
      var newPath := [];
      if |p.path| >= |path.path| {
        for i := |path.path| to |p.path|
          invariant newPath == p.path[|path.path|..i]
        {
          newPath := newPath + [p.path[i]];
        }
        assert p.path[|path.path|..|p.path|] == p.path[|path.path|..];
      }
      r := VFSPath(false, newPath);
    }
  }

  function ToParentOf(dir: VFSPath, p: VFSPath): VFSPath {
    Slash(dir, Collapsed(p))
  }

  function FromParentOf(dir: VFSPath, p: VFSPath): VFSPath {
    VFSPath(false, if |p.path| >= |dir.path| then p.path[|dir.path|..] else [])
  }

  /** Translating a path out and back collapses it; its result is absolute. */
  lemma TranslateRoundTrip(dir: VFSPath, p: VFSPath)
    ensures FromParentOf(dir, ToParentOf(dir, p)) == VFSPath(false, Collapsed(p).path)
  {
    hide Fold;
  }

  /** No path leads out of the directory: a translated path stays below it when collapsed again. */
  lemma Confined(dir: VFSPath, p: VFSPath)
    requires Clean(dir.path)
    ensures var r := Collapsed(ToParentOf(dir, p));
            r == ToParentOf(dir, p) && |dir.path| <= |r.path| && r.path[..|dir.path|] == dir.path
  {
    hide Fold;
    CollapseIsClean(p);
    CollapseFixesClean(ToParentOf(dir, p));
  }

  /**
   * A subdirectory inside a subdirectory translates every path as the one combined
   * subdirectory does, exactly when the inner path is already collapsed.
   */
  lemma NestedSubdirs(a: VFSPath, b: VFSPath)
    ensures (forall p :: ToParentOf(a, ToParentOf(b, p)) == ToParentOf(Slash(a, b), p)) <==> Collapsed(b) == b
  {
    hide Fold;
    if Collapsed(b) == b {
      forall p
        ensures ToParentOf(a, ToParentOf(b, p)) == ToParentOf(Slash(a, b), p)
      {
        NestedSame(a, b, p);
      }
    } else {
      NestedRoot(a, b);
    }
  }

  lemma NestedSame(a: VFSPath, b: VFSPath, p: VFSPath)
    requires Collapsed(b) == b
    ensures ToParentOf(a, ToParentOf(b, p)) == ToParentOf(Slash(a, b), p)
  {
    hide Fold;
    CollapseFixesClean(b);
    Confined(b, p);
    assert a.path + (b.path + Collapsed(p).path) == a.path + b.path + Collapsed(p).path;
  }

  /** The two translate the root to `a/collapse(b)` and `a/b`. */
  lemma NestedRoot(a: VFSPath, b: VFSPath)
    requires Collapsed(b) != b
    ensures var root := VFSPath(false, []);
            ToParentOf(a, ToParentOf(b, root)) != ToParentOf(Slash(a, b), root)
  {
    var root := VFSPath(false, []);
    var nested, combined := ToParentOf(a, ToParentOf(b, root)), ToParentOf(Slash(a, b), root);
    assert Collapsed(root).path == [];
    hide Fold;
    assert b.path + [] == b.path && a.path + b.path + [] == a.path + b.path;
    assert nested.path[|a.path|..] == Collapsed(b).path;
    assert combined.path[|a.path|..] == b.path;
  }
}
