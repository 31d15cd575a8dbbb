/** What a finished breadth-first scan guarantees about the order of the list. */
module ScanOrder {
  import opened Bytes
  import opened Records
  import opened SourceTree
  import opened Scan
  import opened Build

  /** A finished scan: nothing is queued any more. */
  ghost predicate ScanDone(root: Node, rootName: Name, ds: seq<DirItem>) {
    && ValidTree(root)
    && Scanned(root, rootName, ds, [])
  }

  lemma DonePaths(root: Node, rootName: Name, ds: seq<DirItem>)
    requires ScanDone(root, rootName, ds)
    ensures AllDirs(root, PathsOf(ds)) && Distinct(PathsOf(ds))
    ensures PathsOf(ds) == [[]] + Pushed(root, PathsOf(ds))
    ensures |Parents(root, PathsOf(ds))| == |ds| - 1
  {
    assert PathsOf(ds) + [] == PathsOf(ds);
  }

  lemma PushedBefore(root: Node, rootName: Name, ds: seq<DirItem>)
    requires ScanDone(root, rootName, ds)
    ensures AllDirs(root, PathsOf(ds))
    ensures forall i :: 0 <= i < |Parents(root, PathsOf(ds))| ==> Parents(root, PathsOf(ds))[i] <= i
  {
  }

  lemma RootHasNoParent(root: Node, rootName: Name, ds: seq<DirItem>)
    requires ScanDone(root, rootName, ds)
    ensures ds != [] && ds[0].path == [] && ParentIdx(ds, 0) == -1
  {
    DonePaths(root, rootName, ds);
    hide Scanned, ScanDone, ParentIdx, Pushed, AllDirs;
    assert PathsOf(ds)[0] == [];
  }

  /** The parent found by searching the list is the directory that pushed the item. */
  lemma ParentIsPusher(root: Node, rootName: Name, ds: seq<DirItem>, d: nat)
    requires ScanDone(root, rootName, ds) && 0 < d < |ds|
    ensures AllDirs(root, PathsOf(ds)) && |Parents(root, PathsOf(ds))| == |ds| - 1
    ensures ParentIdx(ds, d) == Parents(root, PathsOf(ds))[d - 1] < d
  {
    var ps := PathsOf(ds);
    DonePaths(root, rootName, ds);
    PushedBefore(root, rootName, ds);
    PushedParent(root, ps);
    hide Scanned, ScanDone, Parents, Pushed, AllDirs, ParentIdx, Distinct;
    assert ps[d] == Pushed(root, ps)[d - 1];
    ParentUnique(ds, d, Parents(root, ps)[d - 1]);
  }

  lemma ParentUnique(ds: seq<DirItem>, d: nat, k: nat)
    requires Distinct(PathsOf(ds)) && d < |ds| && k < |ds| && IsDirectChild(ds[d].path, ds[k].path)
    ensures ParentIdx(ds, d) == k
  {
    var p := ParentIdx(ds, d);
    assert PathsOf(ds)[p] == PathsOf(ds)[k];
  }

  /** Parents come before their children, and only the root has none. */
  lemma DoneOrdered(root: Node, rootName: Name, ds: seq<DirItem>)
    requires ScanDone(root, rootName, ds)
    ensures ds != [] && Ordered(ds)
  {
    DonePaths(root, rootName, ds);
    RootHasNoParent(root, rootName, ds);
    forall d | 0 < d < |ds| ensures 0 <= ParentIdx(ds, d) < d {
      ParentIsPusher(root, rootName, ds, d);
    }
  }

  /** Later directories never have an earlier parent. */
  lemma ParentsNonDecreasing(root: Node, rootName: Name, ds: seq<DirItem>, i: nat, j: nat)
    requires ScanDone(root, rootName, ds) && 0 < i <= j < |ds|
    ensures ParentIdx(ds, i) <= ParentIdx(ds, j)
  {
    DonePaths(root, rootName, ds);
    ParentIsPusher(root, rootName, ds, i);
    ParentIsPusher(root, rootName, ds, j);
    ParentsMonotone(root, PathsOf(ds));
  }

  /** Directories are listed level by level. */
  lemma {:induction false} LevelsNonDecreasing(root: Node, rootName: Name, ds: seq<DirItem>, i: nat, j: nat)
    requires ScanDone(root, rootName, ds) && i <= j < |ds|
    ensures |ds[i].path| <= |ds[j].path|
    decreases j
  {
    RootHasNoParent(root, rootName, ds);
    if i > 0 {
      ParentIsPusher(root, rootName, ds, i);
      ParentIsPusher(root, rootName, ds, j);
      ParentsNonDecreasing(root, rootName, ds, i, j);
      LevelsNonDecreasing(root, rootName, ds, ParentIdx(ds, i), ParentIdx(ds, j));
    }
  }

  // ----- the subdirectories of one item

  /** The paths among `ps` that are directly below `p`. */
  function Select(ps: seq<Path>, p: Path): seq<Path> {
    if ps == [] then []
    else
      var q := ps[|ps| - 1];
      Select(ps[..|ps| - 1], p) + if IsDirectChild(q, p) then [q] else []
  }

  lemma {:induction false} SelectConcat(a: seq<Path>, b: seq<Path>, p: Path)
    ensures Select(a + b, p) == Select(a, p) + Select(b, p)
  {
    if b == [] {
      assert a + b == a;
    } else {
      SelectConcat(a, b[..|b| - 1], p);
      assert (a + b)[..|a + b| - 1] == a + b[..|b| - 1];
    }
  }

  lemma {:induction false} SelectAllOrNone(ps: seq<Path>, p: Path, q: Path)
    requires forall r :: r in ps ==> IsDirectChild(r, q)
    ensures Select(ps, p) == if p == q then ps else []
  {
    if ps != [] {
      SelectAllOrNone(ps[..|ps| - 1], p, q);
      assert ps[|ps| - 1] in ps;
      assert ps == ps[..|ps| - 1] + [ps[|ps| - 1]];
    }
  }

  lemma {:induction false} SelectPushed(root: Node, ps: seq<Path>, p: Path)
    requires ValidTree(root) && AllDirs(root, ps) && Distinct(ps)
    ensures p !in ps ==> Select(Pushed(root, ps), p) == []
    ensures p in ps ==> Select(Pushed(root, ps), p) == SubPaths(root, p)
  {
    if ps != [] {
      hide SubPaths, Select, IsDirAt, IsDirectChild;
      var q, before := ps[|ps| - 1], ps[..|ps| - 1];
      assert ps == before + [q];
      SelectPushed(root, before, p);
      SubPathsAreDirs(root, q);
      SelectAllOrNone(SubPaths(root, q), p, q);
      SelectConcat(Pushed(root, before), SubPaths(root, q), p);
      if p in before {
        assert p != q;
      }
    }
  }

  function PathsAt(ds: seq<DirItem>, ks: seq<nat>): (r: seq<Path>)
    requires forall k :: k in ks ==> k < |ds|
    ensures |r| == |ks|
    ensures forall i :: 0 <= i < |ks| ==> ks[i] in ks && r[i] == ds[ks[i]].path
  {
    seq(|ks|, i requires 0 <= i < |ks| => assert ks[i] in ks; ds[ks[i]].path)
  }

  lemma {:induction false} KidsAreSelected(ds: seq<DirItem>, p: Path, n: nat)
    requires n <= |ds| && (n > 0 ==> ds[0].path == [])
    ensures PathsAt(ds, KidsUpTo(ds, p, n)) == Select(PathsOf(ds[..n]), p)
  {
    if n > 0 {
      KidsAreSelected(ds, p, n - 1);
      assert PathsOf(ds[..n])[..n - 1] == PathsOf(ds[..n - 1]);
    }
  }

  /** The child records of a directory are exactly its subdirectories, in the
      sorted order of the enumeration. */
  lemma KidsAreSubPaths(root: Node, rootName: Name, ds: seq<DirItem>, d: nat)
    requires ScanDone(root, rootName, ds) && d < |ds|
    ensures IsDirAt(root, ds[d].path)
    ensures PathsAt(ds, Kids(ds, d)) == SubPaths(root, ds[d].path)
  {
    var ps := PathsOf(ds);
    DonePaths(root, rootName, ds);
    assert ps[d] in ps;
    assert ps[0] == [];
    KidsAreSelected(ds, ds[d].path, |ds|);
    assert ds[..|ds|] == ds;
    SelectConcat([[]], Pushed(root, ps), ds[d].path);
    SelectPushed(root, ps, ds[d].path);
    assert Select([[]], ds[d].path) == [];
  }
}
