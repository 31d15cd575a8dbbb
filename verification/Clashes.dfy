/** When the links of an image are right, said about the directory tree it is made of. */
module Clashes {
  import opened Wrappers
  import opened Bytes
  import opened Sectors
  import opened Records
  import opened SourceTree
  import opened Scan
  import opened ScanOrder
  import opened Build
  import opened Links

  /** The identifier that an entry gets in a hierarchy. */
  function Spelled(e: Entry, nm: Naming, joliet: bool): Identifier {
    nm.Of(if e.node.DirNode? then e.name else e.name + VERSION_SUFFIX, joliet)
  }

  /** No subdirectory is spelled like '.', '..' or another entry of its directory. */
  predicate Apart(es: seq<Entry>, nm: Naming, joliet: bool) {
    forall e :: e in es && e.node.DirNode? ==>
      && Spelled(e, nm, joliet) != DOT && Spelled(e, nm, joliet) != DOT_DOT
      && forall f :: f in es && f != e ==> Spelled(f, nm, joliet) != Spelled(e, nm, joliet)
  }

  /** The same in every directory of a tree. */
  ghost predicate Unambiguous(n: Node, nm: Naming, joliet: bool) {
    n.DirNode? ==>
      && Apart(n.entries, nm, joliet)
      && forall e :: e in n.entries ==> Unambiguous(e.node, nm, joliet)
  }

  // ----- from trees to paths

  ghost predicate ApartAt(root: Node, p: Path, nm: Naming, joliet: bool)
    requires IsDirAt(root, p)
  {
    Apart(Lookup(root, p).value.entries, nm, joliet)
  }

  lemma {:induction false} UnambiguousAt(n: Node, p: Path, nm: Naming, joliet: bool)
    requires Unambiguous(n, nm, joliet) && IsDirAt(n, p)
    ensures ApartAt(n, p, nm, joliet)
    decreases |p|
  {
    if p != [] {
      ChildIsEntry(n.entries, p[0]);
      UnambiguousAt(Child(n.entries, p[0]).value, p[1..], nm, joliet);
    }
  }

  lemma {:induction false} ApartEverywhere(n: Node, nm: Naming, joliet: bool)
    requires ValidTree(n)
    requires forall p :: IsDirAt(n, p) ==> ApartAt(n, p, nm, joliet)
    ensures Unambiguous(n, nm, joliet)
    decreases n
  {
    if n.DirNode? {
      assert IsDirAt(n, []) && ApartAt(n, [], nm, joliet);
      forall e | e in n.entries ensures Unambiguous(e.node, nm, joliet) {
        var k :| 0 <= k < |n.entries| && n.entries[k] == e;
        ChildFound(n.entries, k);
        forall p | IsDirAt(e.node, p) ensures ApartAt(e.node, p, nm, joliet) {
          assert ([e.name] + p)[1..] == p;
          assert IsDirAt(n, [e.name] + p) && ApartAt(n, [e.name] + p, nm, joliet);
        }
        ApartEverywhere(e.node, nm, joliet);
      }
    }
  }

  // ----- a scan lists every directory

  lemma {:induction false} FrontIsDir(n: Node, p: Path)
    requires p != [] && Lookup(n, p).Some?
    ensures IsDirAt(n, p[..|p| - 1])
    decreases |p|
  {
    if |p| > 1 {
      FrontIsDir(Child(n.entries, p[0]).value, p[1..]);
      assert p[1..][..|p| - 2] == p[..|p| - 1][1..];
    }
  }

  lemma {:induction false} EntryListed(es: seq<Entry>, e: Entry)
    requires e in es
    ensures e.node.FileNode? ==> e in FilesOf(es)
    ensures e.node.DirNode? ==> e in DirsOf(es)
  {
    if es[0] != e {
      EntryListed(es[1..], e);
    }
  }

  /** The enumeration of a directory has the directory's entries, once each. */
  lemma ListingIs(root: Node, p: Path)
    requires ValidTree(root) && IsDirAt(root, p)
    ensures DistinctNames(Listing(root, p))
    ensures forall e :: e in Listing(root, p) <==> e in Lookup(root, p).value.entries
    ensures DistinctNames(DirsOf(Listing(root, p)))
    ensures forall e :: e in Lookup(root, p).value.entries ==>
              if e.node.FileNode? then e in FilesOf(Listing(root, p)) else e in DirsOf(Listing(root, p))
    ensures forall e :: e in DirsOf(Listing(root, p)) || e in FilesOf(Listing(root, p)) ==> e in Lookup(root, p).value.entries
  {
    hide SortByName, FilesOf, DirsOf, Lookup, DistinctNames;
    LookupValid(root, p);
    SiblingsDistinct(Lookup(root, p).value);
    SortKeepsEntries(Lookup(root, p).value.entries);
    DirsOfDistinct(Listing(root, p));
    forall e | e in Lookup(root, p).value.entries
      ensures if e.node.FileNode? then e in FilesOf(Listing(root, p)) else e in DirsOf(Listing(root, p))
    {
      EntryListed(Listing(root, p), e);
    }
  }

  lemma SiblingsDistinct(n: Node)
    requires ValidTree(n) && n.DirNode?
    ensures DistinctNames(n.entries)
  {
  }

  lemma SubPathListed(root: Node, p: Path, name: Name)
    requires ValidTree(root) && IsDirAt(root, p) && IsDirAt(root, p + [name])
    ensures p + [name] in SubPaths(root, p)
  {
    hide Lookup, Listing, DirsOf, FilesOf;
    ListingIs(root, p);
    LookupSnoc(root, p, name);
    ChildIsEntry(Lookup(root, p).value.entries, name);
    var e :| e in Lookup(root, p).value.entries && e.name == name && e.node == Lookup(root, p + [name]).value;
    var ds := DirsOf(Listing(root, p));
    assert e in ds;
    var k :| 0 <= k < |ds| && ds[k] == e;
    assert SubPaths(root, p)[k] == p + [name];
  }

  /** The scan reaches every directory of the tree. */
  lemma {:induction false} EveryDirListed(root: Node, rootName: Name, ds: seq<DirItem>, p: Path) returns (d: nat)
    requires ScanDone(root, rootName, ds) && IsDirAt(root, p)
    ensures d < |ds| && ds[d].path == p
    decreases |p|
  {
    hide SubPaths, IsDirAt, Scanned, Kids;
    if p == [] {
      RootHasNoParent(root, rootName, ds);
      d := 0;
    } else {
      DirIsSome(root, p);
      FrontIsDir(root, p);
      var front, name := p[..|p| - 1], p[|p| - 1];
      assert p == front + [name];
      var u := EveryDirListed(root, rootName, ds, front);
      SubPathListed(root, front, name);
      KidsAreSubPaths(root, rootName, ds, u);
      var i :| 0 <= i < |SubPaths(root, front)| && SubPaths(root, front)[i] == p;
      d := Kids(ds, u)[i];
      assert d in Kids(ds, u);
    }
  }

  lemma DirIsSome(n: Node, p: Path)
    requires IsDirAt(n, p)
    ensures Lookup(n, p).Some?
  {
  }

  // ----- the identifiers of one directory

  lemma {:induction false} FileIdents(fs: seq<DirFile>, nm: Naming, joliet: bool, i: nat) returns (k: nat)
    requires i < |AllFileRecs(fs, nm, joliet)|
    ensures k < |fs| && AllFileRecs(fs, nm, joliet)[i].ident == nm.Of(fs[k].name + VERSION_SUFFIX, joliet)
  {
    if i < |FileRecs(fs[0], nm, joliet)| {
      k := 0;
    } else {
      k := FileIdents(fs[1..], nm, joliet, i - |FileRecs(fs[0], nm, joliet)|);
      k := k + 1;
    }
  }

  lemma {:induction false} FileHasIdent(fs: seq<DirFile>, nm: Naming, joliet: bool, k: nat) returns (i: nat)
    requires k < |fs|
    ensures i < |AllFileRecs(fs, nm, joliet)|
    ensures AllFileRecs(fs, nm, joliet)[i].ident == nm.Of(fs[k].name + VERSION_SUFFIX, joliet)
  {
    if k == 0 {
      i := 0;
    } else {
      i := FileHasIdent(fs[1..], nm, joliet, k - 1);
      i := i + |FileRecs(fs[0], nm, joliet)|;
    }
  }

  lemma {:induction false} PlacedNames(dir: Path, es: seq<Entry>, lba: nat, k: nat)
    requires forall e :: e in es ==> e.node.FileNode?
    requires k < |es|
    ensures PlaceFiles(dir, es, lba)[k].name == es[k].name
  {
    if k > 0 {
      PlacedNames(dir, es[1..], lba + CeilSectors(|es[0].node.data|), k - 1);
    }
  }

  lemma ScannedItem(root: Node, rootName: Name, ds: seq<DirItem>, d: nat)
    requires ScanDone(root, rootName, ds) && d < |ds|
    ensures IsDirAt(root, ds[d].path)
    ensures ds[d].files == PlaceFiles(ds[d].path, FilesOf(Listing(root, ds[d].path)), TotalSectors(ds[..d]))
    ensures ds[d].path != [] ==> ds[d].name == ds[d].path[|ds[d].path| - 1]
  {
    assert PathsOf(ds)[d] in PathsOf(ds);
  }

  /** The files and the subdirectories of item `d`, as the tree has them. */
  lemma ItemEntries(root: Node, rootName: Name, ds: seq<DirItem>, d: nat)
    requires ScanDone(root, rootName, ds) && d < |ds|
    ensures IsDirAt(root, ds[d].path)
    ensures var fs := FilesOf(Listing(root, ds[d].path));
      |ds[d].files| == |fs| && forall k :: 0 <= k < |fs| ==> ds[d].files[k].name == fs[k].name
    ensures var es := DirsOf(Listing(root, ds[d].path));
      |Kids(ds, d)| == |es| && forall i :: 0 <= i < |es| ==> Kids(ds, d)[i] < |ds| && ds[Kids(ds, d)[i]].name == es[i].name
  {
    hide ScanDone, Kids, IsDirAt, Listing, FilesOf, DirsOf, PlaceFiles, TotalSectors;
    ScannedItem(root, rootName, ds, d);
    KidsAreSubPaths(root, rootName, ds, d);
    var p, ks := ds[d].path, Kids(ds, d);
    var fs, es := FilesOf(Listing(root, p)), DirsOf(Listing(root, p));
    forall k | 0 <= k < |fs| ensures ds[d].files[k].name == fs[k].name {
      PlacedNames(p, fs, TotalSectors(ds[..d]), k);
    }
    assert SubPaths(root, p) == PathsUnder(p, es);
    forall i | 0 <= i < |es| ensures ks[i] < |ds| && ds[ks[i]].name == es[i].name {
      assert ks[i] in ks;
      assert ds[ks[i]].path == p + [es[i].name];
      ScannedItem(root, rootName, ds, ks[i]);
    }
  }

  /** No subdirectory record of item `d` repeats an earlier identifier. */
  ghost predicate ClashFreeAt(ds: seq<DirItem>, d: nat, nm: Naming, joliet: bool)
    requires d < |ds|
  {
    forall q, r :: 0 <= q < r < |Skeleton(ds, d, nm, joliet)| && r >= FirstKid(ds, d, nm, joliet) ==>
      Skeleton(ds, d, nm, joliet)[q].ident != Skeleton(ds, d, nm, joliet)[r].ident
  }

  lemma ClashFreeByItem(ds: seq<DirItem>, nm: Naming, joliet: bool)
    ensures ClashFree(ds, nm, joliet) <==> forall d :: 0 <= d < |ds| ==> ClashFreeAt(ds, d, nm, joliet)
  {
    hide Skeleton, FirstKid;
    if forall d :: 0 <= d < |ds| ==> ClashFreeAt(ds, d, nm, joliet) {
      forall d, q, r | 0 <= d < |ds| && 0 <= q < r < |Skeleton(ds, d, nm, joliet)| && r >= FirstKid(ds, d, nm, joliet)
        ensures Skeleton(ds, d, nm, joliet)[q].ident != Skeleton(ds, d, nm, joliet)[r].ident
      {
        assert ClashFreeAt(ds, d, nm, joliet);
      }
    }
  }

  /** The identifiers of a record list, in the terms of its parts. */
  lemma SkeletonIdents(ds: seq<DirItem>, d: nat, nm: Naming, joliet: bool)
    requires d < |ds|
    ensures var s, fs := Skeleton(ds, d, nm, joliet), AllFileRecs(ds[d].files, nm, joliet);
      && |s| == 2 + |fs| + |Kids(ds, d)| && FirstKid(ds, d, nm, joliet) == 2 + |fs|
      && s[0].ident == DOT && s[1].ident == DOT_DOT
      && (forall i :: 0 <= i < |fs| ==> s[2 + i].ident == fs[i].ident)
      && forall i :: 0 <= i < |Kids(ds, d)| ==>
           (Kids(ds, d)[i] < |ds| && s[2 + |fs| + i].ident == nm.Of(ds[Kids(ds, d)[i]].name, joliet))
  {
    hide Kids, AllFileRecs;
    forall i | 0 <= i < |Kids(ds, d)| ensures Kids(ds, d)[i] < |ds| {
      assert Kids(ds, d)[i] in Kids(ds, d);
    }
  }

  lemma ApartIsClashFree(root: Node, rootName: Name, ds: seq<DirItem>, d: nat, nm: Naming, joliet: bool)
    requires ScanDone(root, rootName, ds) && d < |ds|
    requires IsDirAt(root, ds[d].path) && ApartAt(root, ds[d].path, nm, joliet)
    ensures ClashFreeAt(ds, d, nm, joliet)
  {
    hide ScanDone, IsDirAt, Listing, FilesOf, DirsOf, Kids, AllFileRecs, Skeleton, FirstKid, Lookup;
    var p := ds[d].path;
    var s, recs := Skeleton(ds, d, nm, joliet), AllFileRecs(ds[d].files, nm, joliet);
    DoneIsValid(root, rootName, ds);
    ListingIs(root, p);
    ItemEntries(root, rootName, ds, d);
    SkeletonIdents(ds, d, nm, joliet);
    var fs, es := FilesOf(Listing(root, p)), DirsOf(Listing(root, p));
    forall q, r | 0 <= q < r < |s| && r >= 2 + |recs| ensures s[q].ident != s[r].ident {
      var e := es[r - 2 - |recs|];
      assert e in es && s[r].ident == Spelled(e, nm, joliet);
      if 2 <= q < 2 + |recs| {
        var k := FileIdents(ds[d].files, nm, joliet, q - 2);
        assert fs[k] in fs && s[q].ident == Spelled(fs[k], nm, joliet);
      } else if q >= 2 {
        var f := es[q - 2 - |recs|];
        assert f in es && s[q].ident == Spelled(f, nm, joliet);
        assert f.name != e.name;
      }
    }
  }

  lemma DoneIsValid(root: Node, rootName: Name, ds: seq<DirItem>)
    requires ScanDone(root, rootName, ds)
    ensures ValidTree(root)
  {
  }

  /** The record that carries the identifier of a file. */
  lemma FileHasRecord(root: Node, rootName: Name, ds: seq<DirItem>, d: nat, f: Entry, nm: Naming, joliet: bool) returns (q: nat)
    requires ScanDone(root, rootName, ds) && d < |ds| && f.node.FileNode?
    requires IsDirAt(root, ds[d].path) && f in Lookup(root, ds[d].path).value.entries
    ensures 2 <= q < FirstKid(ds, d, nm, joliet) <= |Skeleton(ds, d, nm, joliet)|
    ensures Skeleton(ds, d, nm, joliet)[q].ident == Spelled(f, nm, joliet)
  {
    hide ScanDone, Listing, FilesOf, DirsOf, Kids, AllFileRecs, Skeleton, FirstKid;
    var p := ds[d].path;
    DoneIsValid(root, rootName, ds);
    ListingIs(root, p);
    ItemEntries(root, rootName, ds, d);
    SkeletonIdents(ds, d, nm, joliet);
    var fs := FilesOf(Listing(root, p));
    var k :| 0 <= k < |fs| && fs[k] == f;
    q := FileHasIdent(ds[d].files, nm, joliet, k);
    q := q + 2;
  }

  /** The record of the `k`-th subdirectory. */
  lemma KidIdent(root: Node, rootName: Name, ds: seq<DirItem>, d: nat, k: nat, nm: Naming, joliet: bool)
    requires ScanDone(root, rootName, ds) && d < |ds|
    requires IsDirAt(root, ds[d].path) && k < |DirsOf(Listing(root, ds[d].path))|
    ensures 2 <= FirstKid(ds, d, nm, joliet) <= FirstKid(ds, d, nm, joliet) + k < |Skeleton(ds, d, nm, joliet)|
    ensures Skeleton(ds, d, nm, joliet)[FirstKid(ds, d, nm, joliet) + k].ident
            == nm.Of(DirsOf(Listing(root, ds[d].path))[k].name, joliet)
  {
    hide ScanDone, IsDirAt, Listing, DirsOf, Kids, AllFileRecs, Skeleton, FirstKid, Lookup;
    ItemEntries(root, rootName, ds, d);
    SkeletonIdents(ds, d, nm, joliet);
  }

  /** The record that carries the identifier of a subdirectory. */
  lemma DirHasRecord(root: Node, rootName: Name, ds: seq<DirItem>, d: nat, e: Entry, nm: Naming, joliet: bool) returns (k: nat)
    requires ScanDone(root, rootName, ds) && d < |ds| && e.node.DirNode?
    requires IsDirAt(root, ds[d].path) && e in Lookup(root, ds[d].path).value.entries
    ensures k < |DirsOf(Listing(root, ds[d].path))| && DirsOf(Listing(root, ds[d].path))[k] == e
    ensures 2 <= FirstKid(ds, d, nm, joliet) <= FirstKid(ds, d, nm, joliet) + k < |Skeleton(ds, d, nm, joliet)|
    ensures Skeleton(ds, d, nm, joliet)[FirstKid(ds, d, nm, joliet) + k].ident == Spelled(e, nm, joliet)
  {
    hide ScanDone, Listing, FilesOf, DirsOf, Skeleton, FirstKid;
    DoneIsValid(root, rootName, ds);
    ListingIs(root, ds[d].path);
    var es := DirsOf(Listing(root, ds[d].path));
    k :| 0 <= k < |es| && es[k] == e;
    KidIdent(root, rootName, ds, d, k, nm, joliet);
  }

  lemma ClashFreeIsApart(root: Node, rootName: Name, ds: seq<DirItem>, d: nat, nm: Naming, joliet: bool)
    requires ScanDone(root, rootName, ds) && d < |ds|
    requires IsDirAt(root, ds[d].path) && ClashFreeAt(ds, d, nm, joliet)
    ensures ApartAt(root, ds[d].path, nm, joliet)
  {
    hide ScanDone, Listing, DirsOf, Kids, AllFileRecs, Skeleton, FirstKid, Lookup;
    SkeletonIdents(ds, d, nm, joliet);
    var all := Lookup(root, ds[d].path).value.entries;
    forall e | e in all && e.node.DirNode?
      ensures Spelled(e, nm, joliet) != DOT && Spelled(e, nm, joliet) != DOT_DOT
      ensures forall f :: f in all && f != e ==> Spelled(f, nm, joliet) != Spelled(e, nm, joliet)
    {
      var r := DirHasRecord(root, rootName, ds, d, e, nm, joliet);
      forall f | f in all && f != e ensures Spelled(f, nm, joliet) != Spelled(e, nm, joliet) {
        if f.node.FileNode? {
          var _ := FileHasRecord(root, rootName, ds, d, f, nm, joliet);
        } else {
          var q := DirHasRecord(root, rootName, ds, d, f, nm, joliet);
          assert q != r;
        }
      }
    }
  }

  /** Identifiers clash in the records exactly when they clash in the tree. */
  lemma ClashFreeIffUnambiguous(root: Node, rootName: Name, ds: seq<DirItem>, nm: Naming, joliet: bool)
    requires ScanDone(root, rootName, ds)
    ensures ClashFree(ds, nm, joliet) <==> Unambiguous(root, nm, joliet)
  {
    hide ScanDone, ClashFree, ClashFreeAt, ApartAt, IsDirAt, Unambiguous;
    DoneIsValid(root, rootName, ds);
    ClashFreeByItem(ds, nm, joliet);
    if Unambiguous(root, nm, joliet) {
      forall d | 0 <= d < |ds| ensures ClashFreeAt(ds, d, nm, joliet) {
        ScannedItem(root, rootName, ds, d);
        UnambiguousAt(root, ds[d].path, nm, joliet);
        ApartIsClashFree(root, rootName, ds, d, nm, joliet);
      }
    }
    if ClashFree(ds, nm, joliet) {
      forall p | IsDirAt(root, p) ensures ApartAt(root, p, nm, joliet) {
        var d := EveryDirListed(root, rootName, ds, p);
        ClashFreeIsApart(root, rootName, ds, d, nm, joliet);
      }
      ApartEverywhere(root, nm, joliet);
    }
  }

  /** After a pass every child record agrees with the child's own '.' exactly when no
      subdirectory of the tree is spelled like '.', '..' or one of its siblings. */
  lemma LinksHoldIffUnambiguous(root: Node, rootName: Name, ds: seq<DirItem>, nm: Naming, joliet: bool)
    requires ScanDone(root, rootName, ds)
    ensures Ordered(ds)
    ensures LinksHold(ds, BuildPass(ds, |ds|, nm, joliet), nm, joliet) <==> Unambiguous(root, nm, joliet)
  {
    hide ScanDone, LinksHold, BuildPass, ClashFree, Unambiguous, Ordered;
    DoneOrdered(root, rootName, ds);
    ClashFreeIffUnambiguous(root, rootName, ds, nm, joliet);
    LinksHoldIffClashFree(ds, nm, joliet);
  }

  // ----- a tree whose links come out wrong

  const LOWER_A: Name := [0x61]
  const UPPER_A: Name := [0x41]

  /** Two empty sibling directories "A" and "a". */
  function TwoSpellings(stamp: Stamp): Node {
    DirNode(stamp, [Entry(UPPER_A, DirNode(stamp, [])), Entry(LOWER_A, DirNode(stamp, []))])
  }

  /** With identifiers in upper case, the second directory's location is patched into the
      record of the first: however this tree is scanned, the links do not hold. */
  lemma ClashExample(stamp: Stamp, rootName: Name, ds: seq<DirItem>, nm: Naming, joliet: bool)
    requires ScanDone(TwoSpellings(stamp), rootName, ds)
    requires nm.Of(LOWER_A, joliet) == nm.Of(UPPER_A, joliet)
    ensures Ordered(ds) && !LinksHold(ds, BuildPass(ds, |ds|, nm, joliet), nm, joliet)
  {
    var es := TwoSpellings(stamp).entries;
    assert es[0] in es && es[1] in es && es[0] != es[1] by {
      assert UPPER_A[0] != LOWER_A[0];
    }
    assert Spelled(es[0], nm, joliet) == Spelled(es[1], nm, joliet);
    assert !Unambiguous(TwoSpellings(stamp), nm, joliet);
    hide ScanDone, Ordered, LinksHold, BuildPass, Unambiguous;
    LinksHoldIffUnambiguous(TwoSpellings(stamp), rootName, ds, nm, joliet);
  }
}
