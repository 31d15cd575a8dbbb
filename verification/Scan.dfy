/** The breadth-first scan that turns a directory tree into the list of directories
    of the image and places the files one after another. */
module Scan {
  import opened Wrappers
  import opened Bytes
  import opened Sectors
  import opened Records
  import opened SourceTree

  /** `directoryFile`; `rLBA` counts sectors from the first file of the image. */
  datatype DirFile = DirFile(path: Path, name: Name, size: nat, rLBA: nat, stamp: Stamp)

  /** `dirItem`, without its two record lists. */
  datatype DirItem = DirItem(path: Path, name: Name, stamp: Stamp, files: seq<DirFile>)

  /** `isDirectChild`: the relative path from `child` to `parent` is "..". */
  predicate IsDirectChild(child: Path, parent: Path) {
    child != [] && child[..|child| - 1] == parent
  }

  /** The files of one enumerated directory, placed from sector `lba` on. */
  function PlaceFiles(dir: Path, files: seq<Entry>, lba: nat): (r: seq<DirFile>)
    requires forall e :: e in files ==> e.node.FileNode?
    ensures |r| == |files|
  {
    if files == [] then []
    else
      var e := files[0];
      [DirFile(dir + [e.name], e.name, |e.node.data|, lba, e.node.stamp)]
      + PlaceFiles(dir, files[1..], lba + CeilSectors(|e.node.data|))
  }

  function SectorsOf(fs: seq<DirFile>): nat {
    if fs == [] then 0 else CeilSectors(fs[0].size) + SectorsOf(fs[1..])
  }

  function TotalSectors(ds: seq<DirItem>): nat {
    if ds == [] then 0 else SectorsOf(ds[0].files) + TotalSectors(ds[1..])
  }

  /** The sorted enumeration of the directory at `p`. */
  function Listing(root: Node, p: Path): seq<Entry>
    requires IsDirAt(root, p)
  {
    SortByName(Lookup(root, p).value.entries)
  }

  /** What processing the directory at `p` appends to the list. */
  function ItemAt(root: Node, rootName: Name, p: Path, lba: nat): DirItem
    requires IsDirAt(root, p)
  {
    DirItem(p, if p == [] then rootName else p[|p| - 1], Lookup(root, p).value.stamp,
            PlaceFiles(p, FilesOf(Listing(root, p)), lba))
  }

  /** What it appends to the queue. */
  function SubPaths(root: Node, p: Path): seq<Path>
    requires IsDirAt(root, p)
  {
    PathsUnder(p, DirsOf(Listing(root, p)))
  }

  function PathsUnder(p: Path, es: seq<Entry>): (r: seq<Path>)
    ensures |r| == |es|
    ensures forall i :: 0 <= i < |es| ==> r[i] == p + [es[i].name]
  {
    seq(|es|, i requires 0 <= i < |es| => p + [es[i].name])
  }

  function PathsOf(ds: seq<DirItem>): (r: seq<Path>)
    ensures |r| == |ds|
    ensures forall i :: 0 <= i < |ds| ==> r[i] == ds[i].path
  {
    seq(|ds|, i requires 0 <= i < |ds| => ds[i].path)
  }

  predicate AllDirs(root: Node, ps: seq<Path>) {
    forall p :: p in ps ==> IsDirAt(root, p)
  }

  /** Every path ever pushed below the root: the subdirectories of the listed
      directories, in their order. */
  function Pushed(root: Node, ps: seq<Path>): seq<Path>
    requires AllDirs(root, ps)
  {
    if ps == [] then []
    else Pushed(root, ps[..|ps| - 1]) + SubPaths(root, ps[|ps| - 1])
  }

  /** For every pushed path, the list position of the directory that pushed it. */
  function Parents(root: Node, ps: seq<Path>): seq<nat>
    requires AllDirs(root, ps)
  {
    if ps == [] then []
    else Parents(root, ps[..|ps| - 1]) + seq(|SubPaths(root, ps[|ps| - 1])|, _ => |ps| - 1)
  }

  predicate Distinct<T(==)>(s: seq<T>) {
    forall i, j :: 0 <= i < j < |s| ==> s[i] != s[j]
  }

  /** The scan after the directories `done` with `queue` still waiting. */
  ghost predicate Scanned(root: Node, rootName: Name, done: seq<DirItem>, queue: seq<Path>) {
    var ps := PathsOf(done);
    && AllDirs(root, ps + queue)
    && AllDirs(root, ps)
    && ps + queue == [[]] + Pushed(root, ps)
    && Distinct(ps + queue)
    && |Parents(root, ps)| == |Pushed(root, ps)|
    && (forall i :: 0 <= i < |Parents(root, ps)| ==> Parents(root, ps)[i] <= i)
    && forall i :: 0 <= i < |done| ==>
         done[i] == ItemAt(root, rootName, done[i].path, TotalSectors(done[..i]))
  }

  lemma PushedSnoc(root: Node, ps: seq<Path>, p: Path)
    requires AllDirs(root, ps) && IsDirAt(root, p)
    ensures AllDirs(root, ps + [p])
    ensures Pushed(root, ps + [p]) == Pushed(root, ps) + SubPaths(root, p)
    ensures Parents(root, ps + [p]) == Parents(root, ps) + seq(|SubPaths(root, p)|, _ => |ps|)
  {
    assert (ps + [p])[..|ps|] == ps;
  }

  lemma {:induction false} TotalSnoc(ds: seq<DirItem>, d: DirItem)
    ensures TotalSectors(ds + [d]) == TotalSectors(ds) + SectorsOf(d.files)
  {
    if ds != [] {
      TotalSnoc(ds[1..], d);
      assert (ds + [d])[1..] == ds[1..] + [d];
    } else {
      assert (ds + [d])[1..] == [];
    }
  }

  /** Every pushed path has its parent among the scanned directories. */
  lemma {:induction false} PushedParent(root: Node, ps: seq<Path>)
    requires AllDirs(root, ps)
    ensures |Parents(root, ps)| == |Pushed(root, ps)|
    ensures forall i :: 0 <= i < |Pushed(root, ps)| ==>
              && Parents(root, ps)[i] < |ps|
              && IsDirectChild(Pushed(root, ps)[i], ps[Parents(root, ps)[i]])
  {
    if ps != [] {
      PushedParent(root, ps[..|ps| - 1]);
    }
  }

  lemma {:induction false} ParentsMonotone(root: Node, ps: seq<Path>)
    requires AllDirs(root, ps)
    ensures forall i, j :: 0 <= i <= j < |Parents(root, ps)| ==> Parents(root, ps)[i] <= Parents(root, ps)[j]
  {
    PushedParent(root, ps);
    if ps != [] {
      ParentsMonotone(root, ps[..|ps| - 1]);
      PushedParent(root, ps[..|ps| - 1]);
    }
  }

  lemma SubPathsAreDirs(root: Node, p: Path)
    requires ValidTree(root) && IsDirAt(root, p)
    ensures AllDirs(root, SubPaths(root, p))
    ensures Distinct(SubPaths(root, p))
    ensures forall q :: q in SubPaths(root, p) ==> IsDirectChild(q, p)
  {
    var es := Lookup(root, p).value.entries;
    LookupValid(root, p);
    SortKeepsEntries(es);
    var ds := DirsOf(SortByName(es));
    DirsOfDistinct(SortByName(es));
    forall i | 0 <= i < |ds| ensures IsDirAt(root, p + [ds[i].name]) {
      assert ds[i] in es;
      var k :| 0 <= k < |es| && es[k] == ds[i];
      ChildFound(es, k);
      LookupSnoc(root, p, ds[i].name);
    }
    var sub := SubPaths(root, p);
    forall i, j | 0 <= i < j < |sub| ensures sub[i] != sub[j] {
      assert sub[i][|p|] == ds[i].name && sub[j][|p|] == ds[j].name;
    }
  }

  lemma ScanStart(root: Node, rootName: Name)
    requires root.DirNode?
    ensures Scanned(root, rootName, [], [[]])
  {
  }

  /** One turn of the scan loop. */
  lemma ScanStep(root: Node, rootName: Name, done: seq<DirItem>, queue: seq<Path>)
    requires ValidTree(root) && Scanned(root, rootName, done, queue) && queue != []
    ensures IsDirAt(root, queue[0])
    ensures Scanned(root, rootName, done + [ItemAt(root, rootName, queue[0], TotalSectors(done))],
                    queue[1..] + SubPaths(root, queue[0]))
  {
    hide ItemAt, SubPaths, IsDirAt, Pushed, Parents, TotalSectors;
    var ps, p := PathsOf(done), queue[0];
    assert p in ps + queue;
    var item := ItemAt(root, rootName, p, TotalSectors(done));
    var done', queue' := done + [item], queue[1..] + SubPaths(root, p);
    ItemPath(root, rootName, p, TotalSectors(done));
    var ps' := PathsOf(done');
    assert ps' == ps + [p];
    PushedSnoc(root, ps, p);
    SubPathsAreDirs(root, p);
    NewPathsAreNew(root, rootName, done, queue);
    assert ps' + queue' == ps + queue + SubPaths(root, p);
    assert [[]] + Pushed(root, ps') == [[]] + Pushed(root, ps) + SubPaths(root, p);
    assert forall i :: 0 <= i < |Parents(root, ps')| ==> Parents(root, ps')[i] <= i by {
      assert |Parents(root, ps)| == |ps + queue| - 1;
    }
    ItemsListed(root, rootName, done, queue);
  }

  lemma ItemsListed(root: Node, rootName: Name, done: seq<DirItem>, queue: seq<Path>)
    requires Scanned(root, rootName, done, queue) && queue != [] && IsDirAt(root, queue[0])
    ensures var done' := done + [ItemAt(root, rootName, queue[0], TotalSectors(done))];
      forall i :: 0 <= i < |done'| ==>
        IsDirAt(root, done'[i].path) && done'[i] == ItemAt(root, rootName, done'[i].path, TotalSectors(done'[..i]))
  {
    hide ItemAt, IsDirAt, Pushed, Parents, TotalSectors, Distinct;
    var p := queue[0];
    var done' := done + [ItemAt(root, rootName, p, TotalSectors(done))];
    ItemPath(root, rootName, p, TotalSectors(done));
    forall i | 0 <= i < |done'|
      ensures IsDirAt(root, done'[i].path) && done'[i] == ItemAt(root, rootName, done'[i].path, TotalSectors(done'[..i]))
    {
      assert done'[..i] == done[..i];
      if i < |done| {
        assert PathsOf(done)[i] in PathsOf(done);
      }
    }
  }

  lemma ItemPath(root: Node, rootName: Name, p: Path, lba: nat)
    requires IsDirAt(root, p)
    ensures ItemAt(root, rootName, p, lba).path == p
  {
  }

  lemma NewPathsAreNew(root: Node, rootName: Name, done: seq<DirItem>, queue: seq<Path>)
    requires ValidTree(root) && Scanned(root, rootName, done, queue) && queue != []
    requires IsDirAt(root, queue[0])
    ensures Distinct(PathsOf(done) + queue + SubPaths(root, queue[0]))
  {
    var ps, p := PathsOf(done), queue[0];
    var all, sub := ps + queue, SubPaths(root, p);
    SubPathsAreDirs(root, p);
    PushedParent(root, ps);
    forall i, j | 0 <= i < |all| && 0 <= j < |sub| ensures all[i] != sub[j] {
      assert IsDirectChild(sub[j], p);
      if i > 0 {
        assert all[i] == Pushed(root, ps)[i - 1];
        var k := Parents(root, ps)[i - 1];
        assert IsDirectChild(all[i], ps[k]);
        assert all[k] == ps[k] && all[|ps|] == p;
      }
    }
  }

  // ----- termination: the weight of the subtrees still queued

  ghost function Weight(n: Node): nat
    decreases n, 0
  {
    if n.FileNode? then 0 else 1 + WeightAll(n.entries)
  }

  ghost function WeightAll(es: seq<Entry>): nat
    decreases es, 0
  {
    if es == [] then 0 else Weight(es[0].node) + WeightAll(es[1..])
  }

  ghost function QueueWeight(root: Node, queue: seq<Path>): nat {
    if queue == [] then 0
    else (if IsDirAt(root, queue[0]) then Weight(Lookup(root, queue[0]).value) else 0) + QueueWeight(root, queue[1..])
  }

  lemma {:induction false} QueueWeightAppend(root: Node, a: seq<Path>, b: seq<Path>)
    ensures QueueWeight(root, a + b) == QueueWeight(root, a) + QueueWeight(root, b)
  {
    if a == [] {
      assert a + b == b;
    } else {
      QueueWeightAppend(root, a[1..], b);
      assert (a + b)[1..] == a[1..] + b;
    }
  }

  lemma {:induction false} WeightOfInsert(e: Entry, es: seq<Entry>)
    ensures WeightAll(InsertByName(e, es)) == Weight(e.node) + WeightAll(es)
  {
    if es != [] && !LexLeq(e.name, es[0].name) {
      WeightOfInsert(e, es[1..]);
    }
  }

  lemma {:induction false} WeightOfSort(es: seq<Entry>)
    ensures WeightAll(SortByName(es)) == WeightAll(es)
  {
    if es != [] {
      WeightOfSort(es[1..]);
      WeightOfInsert(es[0], SortByName(es[1..]));
    }
  }

  lemma {:induction false} WeightOfDirs(es: seq<Entry>)
    ensures WeightAll(DirsOf(es)) == WeightAll(es)
  {
    if es != [] {
      WeightOfDirs(es[1..]);
      if es[0].node.DirNode? {
        assert DirsOf(es)[1..] == DirsOf(es[1..]);
      } else {
        assert DirsOf(es) == DirsOf(es[1..]);
      }
    }
  }

  lemma {:induction false} WeightOfPaths(root: Node, p: Path, es: seq<Entry>)
    requires forall e :: e in es ==> Lookup(root, p + [e.name]) == Some(e.node) && e.node.DirNode?
    ensures QueueWeight(root, PathsUnder(p, es)) == WeightAll(es)
  {
    if es != [] {
      WeightOfPaths(root, p, es[1..]);
      assert PathsUnder(p, es)[1..] == PathsUnder(p, es[1..]);
      assert es[0] in es;
    }
  }

  lemma EntryLookup(root: Node, p: Path, e: Entry)
    requires ValidTree(root) && IsDirAt(root, p) && e in Listing(root, p)
    ensures Lookup(root, p + [e.name]) == Some(e.node)
  {
    var es := Lookup(root, p).value.entries;
    LookupValid(root, p);
    SortKeepsEntries(es);
    var k :| 0 <= k < |es| && es[k] == e;
    ChildFound(es, k);
    LookupSnoc(root, p, e.name);
  }

  /** Replacing a directory by its subdirectories lightens the queue by one. */
  lemma QueueShrinks(root: Node, queue: seq<Path>)
    requires ValidTree(root) && queue != [] && IsDirAt(root, queue[0])
    ensures QueueWeight(root, queue[1..] + SubPaths(root, queue[0])) == QueueWeight(root, queue) - 1
  {
    var p := queue[0];
    var es := Listing(root, p);
    QueueWeightAppend(root, queue[1..], SubPaths(root, p));
    WeightOfSort(Lookup(root, p).value.entries);
    WeightOfDirs(es);
    forall e | e in DirsOf(es) ensures Lookup(root, p + [e.name]) == Some(e.node) {
      EntryLookup(root, p, e);
    }
    WeightOfPaths(root, p, DirsOf(es));
  }
}
