/** An ISO 9660 reader that knows nothing about how the image was built, and the
    theorem that it recovers the source tree from either hierarchy. */
module Walk {
  import opened Wrappers
  import opened Bytes
  import opened Sectors
  import opened Records
  import opened SourceTree
  import opened Scan
  import opened ScanOrder
  import opened Build
  import opened Links
  import opened Blocks
  import opened Layout
  import opened Volumes
  import opened Positions

  /** What a reader sees in a directory: identifiers, timestamps, contents. */
  datatype View = View(files: seq<FileView>, dirs: seq<DirView>)
  datatype FileView = FileView(ident: Identifier, stamp: Stamp, data: seq<Byte>)
  datatype DirView = DirView(ident: Identifier, stamp: Stamp, view: View)

  // ----- the reader

  function Cut(image: seq<Byte>, from: int, len: int): Option<seq<Byte>> {
    if 0 <= from && 0 <= len && from + len <= |image| then Some(image[from..from + len]) else None
  }

  /** The data of the file whose first record is `rs[0]`, and how many records it has. */
  function ReadExtents(image: seq<Byte>, rs: seq<Rec>): (r: Option<(seq<Byte>, nat)>)
    ensures r.Some? ==> 0 < r.value.1 <= |rs|
  {
    if rs == [] then None
    else
      match Cut(image, rs[0].loc * SECTOR_SIZE, rs[0].len)
      case None => None
      case Some(piece) =>
        if !rs[0].MoreExtents() then Some((piece, 1))
        else
          match ReadExtents(image, rs[1..])
          case None => None
          case Some((rest, used)) => Some((piece + rest, used + 1))
  }

  /** The records after '.' and '..'. `depth` bounds the nesting that is followed. */
  function ReadEntries(image: seq<Byte>, rs: seq<Rec>, depth: nat): Option<View>
    decreases depth, |rs|
  {
    if rs == [] then Some(View([], []))
    else if rs[0].IsDir() then
      match (ReadDirectory(image, rs[0].loc, rs[0].len, depth), ReadEntries(image, rs[1..], depth))
      case (Some(sub), Some(rest)) => Some(View(rest.files, [DirView(rs[0].ident, rs[0].stamp, sub)] + rest.dirs))
      case _ => None
    else
      match ReadExtents(image, rs)
      case None => None
      case Some((data, used)) =>
        match ReadEntries(image, rs[used..], depth)
        case None => None
        case Some(rest) => Some(View([FileView(rs[0].ident, rs[0].stamp, data)] + rest.files, rest.dirs))
  }

  function ReadDirectory(image: seq<Byte>, loc: int, len: int, depth: nat): Option<View>
    decreases depth, 0
  {
    if depth == 0 then None
    else
      match Cut(image, loc * SECTOR_SIZE, len)
      case None => None
      case Some(extent) =>
        match ParseExtent(0, extent)
        case None => None
        case Some(rs) => if |rs| < 2 then None else ReadEntries(image, rs[2..], depth - 1)
  }

  /** Start from the primary or the supplementary volume descriptor. */
  function ReadVolume(image: seq<Byte>, joliet: bool, depth: nat): Option<View> {
    match Cut(image, (if joliet then 17 else 16) * SECTOR_SIZE, SECTOR_SIZE)
    case None => None
    case Some(sector) =>
      if sector[0] != (if joliet then 2 else 1) || sector[1..6] != CD001 then None
      else
        match DecodeRec(sector[156..190])
        case None => None
        case Some(root) => ReadDirectory(image, root.loc, root.len, depth)
  }

  // ----- what it ought to see

  function FileViews(fs: seq<Entry>, nm: Naming, joliet: bool): seq<FileView>
    requires forall e :: e in fs ==> e.node.FileNode?
  {
    seq(|fs|, i requires 0 <= i < |fs| =>
      assert fs[i] in fs;
      FileView(nm.Of(fs[i].name + VERSION_SUFFIX, joliet), fs[i].node.stamp, fs[i].node.data))
  }

  /** The directory `n` in the spelling of a hierarchy. */
  ghost function Denote(n: Node, nm: Naming, joliet: bool): View
    requires ValidTree(n) && n.DirNode?
    decreases Height(n), 1, 0
  {
    SortKeepsEntries(n.entries);
    HeightsBelow(n);
    var es := SortByName(n.entries);
    View(FileViews(FilesOf(es), nm, joliet), DenoteDirs(DirsOf(es), Height(n), nm, joliet))
  }

  ghost function DenoteDirs(es: seq<Entry>, bound: nat, nm: Naming, joliet: bool): (r: seq<DirView>)
    requires forall e :: e in es ==> e.node.DirNode? && ValidTree(e.node) && Height(e.node) < bound
    ensures |r| == |es|
    ensures forall i :: 0 <= i < |es| ==> es[i] in es
    ensures forall i :: 0 <= i < |es| ==>
      r[i] == DirView(nm.Of(es[i].name, joliet), es[i].node.stamp, Denote(es[i].node, nm, joliet))
    decreases bound, 0, |es|
  {
    if es == [] then []
    else
      [DirView(nm.Of(es[0].name, joliet), es[0].node.stamp, Denote(es[0].node, nm, joliet))]
      + DenoteDirs(es[1..], bound, nm, joliet)
  }

  lemma HeightsBelow(n: Node)
    requires n.DirNode?
    ensures forall e :: e in n.entries ==> Height(e.node) < Height(n)
  {
    forall e | e in n.entries ensures Height(e.node) < Height(n) {
      HeightBelow(n.entries, e);
    }
  }

  // ----- the limits of the format

  /** Identifiers short enough for the one-byte record length; every directory below
      4 GiB, and the volume below 2^31 sectors. */
  ghost predicate FitsFormat(v: Volume, joliet: bool)
    requires v.Valid()
  {
    && (forall d, r :: 0 <= d < |v.ds| && r in Skeleton(v.ds, d, v.nm, joliet) ==> |r.ident| <= 215)
    && (forall d :: 0 <= d < |v.ds| ==> LenOf(v.ds, d, v.nm, joliet) < TWO_TO_THE_32)
    && v.VolumeSectors() < 0x8000_0000
  }

  // ----- files

  /** The records of a file, relocated. */
  function PlacedRecs(f: DirFile, filesLBA: nat, nm: Naming, joliet: bool): (rs: seq<Rec>)
    ensures |rs| == Parts(f.size)
  {
    FixLBA(FileRecs(f, nm, joliet), 0, filesLBA)
  }

  lemma CutWithin(image: seq<Byte>, from: nat, data: seq<Byte>, at: nat, len: nat)
    requires from + |data| <= |image| && image[from..from + |data|] == data && at + len <= |data|
    ensures Cut(image, from + at, len) == Some(data[at..at + len])
  {
    SliceOfSlice(image, from, from + |data|, at, at + len);
  }

  lemma PlacedRecAt(f: DirFile, filesLBA: nat, i: nat, nm: Naming, joliet: bool)
    requires i < Parts(f.size)
    ensures |PlacedRecs(f, filesLBA, nm, joliet)| == Parts(f.size)
    ensures i * MULTI_EXTENT_PART_SIZE <= f.size
    ensures var r := PlacedRecs(f, filesLBA, nm, joliet)[i];
      && r.loc * SECTOR_SIZE == (filesLBA + f.rLBA) * SECTOR_SIZE + i * MULTI_EXTENT_PART_SIZE
      && r.len == (if i < Parts(f.size) - 1 then MULTI_EXTENT_PART_SIZE else f.size - i * MULTI_EXTENT_PART_SIZE)
      && (r.MoreExtents() <==> i < Parts(f.size) - 1) && !r.IsDir()
      && r.ident == nm.Of(f.name + VERSION_SUFFIX, joliet) && r.stamp == f.stamp
      && r.loc == filesLBA + FileRec(f, i, nm, joliet).loc && 0 <= r.len < TWO_TO_THE_32
  {
    ExtentsTile(f, nm, joliet, i);
  }

  lemma {:induction false} ReadFileFrom(image: seq<Byte>, f: DirFile, data: seq<Byte>, filesLBA: nat, i: nat, tail: seq<Rec>, nm: Naming, joliet: bool)
    requires |data| == f.size && i < Parts(f.size)
    requires var from := (filesLBA + f.rLBA) * SECTOR_SIZE;
      from + f.size <= |image| && image[from..from + f.size] == data
    ensures i * MULTI_EXTENT_PART_SIZE <= f.size
    ensures |PlacedRecs(f, filesLBA, nm, joliet)| == Parts(f.size)
    ensures ReadExtents(image, PlacedRecs(f, filesLBA, nm, joliet)[i..] + tail)
            == Some((data[i * MULTI_EXTENT_PART_SIZE..], Parts(f.size) - i))
    decreases Parts(f.size) - i
  {
    hide PlacedRecs, Parts, Cut, FileRec, Rec.MoreExtents, Rec.IsDir;
    PlacedRecAt(f, filesLBA, i, nm, joliet);
    var recs := PlacedRecs(f, filesLBA, nm, joliet);
    var rs := recs[i..] + tail;
    var r := recs[i];
    assert rs[0] == r;
    var at := i * MULTI_EXTENT_PART_SIZE;
    if i < Parts(f.size) - 1 {
      PlacedRecAt(f, filesLBA, i + 1, nm, joliet);
    }
    CutWithin(image, (filesLBA + f.rLBA) * SECTOR_SIZE, data, at, r.len);
    if i < Parts(f.size) - 1 {
      ReadFileFrom(image, f, data, filesLBA, i + 1, tail, nm, joliet);
      assert rs[1..] == recs[i + 1..] + tail;
      assert data[at..at + MULTI_EXTENT_PART_SIZE] + data[at + MULTI_EXTENT_PART_SIZE..] == data[at..];
    } else {
      assert data[at..at + r.len] == data[at..];
    }
  }

  function PlacedAll(fs: seq<DirFile>, filesLBA: nat, nm: Naming, joliet: bool): seq<Rec> {
    if fs == [] then [] else PlacedRecs(fs[0], filesLBA, nm, joliet) + PlacedAll(fs[1..], filesLBA, nm, joliet)
  }

  /** `f` lies in the image with the contents of `e`. */
  ghost predicate Served(image: seq<Byte>, f: DirFile, e: Entry, filesLBA: nat) {
    var from := (filesLBA + f.rLBA) * SECTOR_SIZE;
    && e.node.FileNode? && f.name == e.name && f.stamp == e.node.stamp && f.size == |e.node.data|
    && from + f.size <= |image| && image[from..from + f.size] == e.node.data
  }

  function Prepend(fs: seq<FileView>, v: Option<View>): Option<View> {
    match v case None => None case Some(w) => Some(View(fs + w.files, w.dirs))
  }

  lemma {:induction false} ReadFiles(image: seq<Byte>, fs: seq<DirFile>, es: seq<Entry>, filesLBA: nat, tail: seq<Rec>, depth: nat, nm: Naming, joliet: bool)
    requires |fs| == |es| && forall k :: 0 <= k < |fs| ==> es[k].node.FileNode? && Served(image, fs[k], es[k], filesLBA)
    requires forall e :: e in es ==> e.node.FileNode?
    ensures ReadEntries(image, PlacedAll(fs, filesLBA, nm, joliet) + tail, depth)
            == Prepend(FileViews(es, nm, joliet), ReadEntries(image, tail, depth))
  {
    hide ReadEntries, Served, PlacedRecs;
    if fs == [] {
      assert PlacedAll(fs, filesLBA, nm, joliet) + tail == tail;
      assert forall w: View :: FileViews(es, nm, joliet) + w.files == w.files;
    } else {
      var recs, rest := PlacedRecs(fs[0], filesLBA, nm, joliet), PlacedAll(fs[1..], filesLBA, nm, joliet) + tail;
      assert PlacedAll(fs, filesLBA, nm, joliet) + tail == recs + rest;
      ReadFiles(image, fs[1..], es[1..], filesLBA, tail, depth, nm, joliet);
      ReadOneFile(image, fs[0], es[0], filesLBA, rest, depth, nm, joliet);
      var first := [FileView(nm.Of(es[0].name + VERSION_SUFFIX, joliet), es[0].node.stamp, es[0].node.data)];
      assert FileViews(es, nm, joliet) == first + FileViews(es[1..], nm, joliet);
      PrependTwice(first, FileViews(es[1..], nm, joliet), ReadEntries(image, tail, depth));
    }
  }

  lemma PrependTwice(a: seq<FileView>, b: seq<FileView>, v: Option<View>)
    ensures Prepend(a, Prepend(b, v)) == Prepend(a + b, v)
  {
    if v.Some? {
      assert a + (b + v.value.files) == a + b + v.value.files;
    }
  }

  lemma ReadOneFile(image: seq<Byte>, f: DirFile, e: Entry, filesLBA: nat, rest: seq<Rec>, depth: nat, nm: Naming, joliet: bool)
    requires Served(image, f, e, filesLBA)
    ensures ReadEntries(image, PlacedRecs(f, filesLBA, nm, joliet) + rest, depth)
            == Prepend([FileView(nm.Of(e.name + VERSION_SUFFIX, joliet), e.node.stamp, e.node.data)], ReadEntries(image, rest, depth))
  {
    var recs := PlacedRecs(f, filesLBA, nm, joliet);
    ReadFileFrom(image, f, e.node.data, filesLBA, 0, rest, nm, joliet);
    assert recs[0..] == recs;
    ExtentsTile(f, nm, joliet, 0);
    assert (recs + rest)[|recs|..] == rest;
    assert (recs + rest)[0] == recs[0];
    assert e.node.data[0..] == e.node.data;
  }

  // ----- subdirectories

  lemma {:induction false} ReadKids(image: seq<Byte>, rs: seq<Rec>, views: seq<DirView>, depth: nat)
    requires |rs| == |views|
    requires forall i :: 0 <= i < |rs| ==> rs[i].IsDir() && rs[i].ident == views[i].ident && rs[i].stamp == views[i].stamp
    requires forall i :: 0 <= i < |rs| ==> ReadDirectory(image, rs[i].loc, rs[i].len, depth) == Some(views[i].view)
    ensures ReadEntries(image, rs, depth) == Some(View([], views))
  {
    if rs != [] {
      ReadKids(image, rs[1..], views[1..], depth);
      assert views == [views[0]] + views[1..];
    }
  }

  /** A directory whose extent holds the given files and subdirectories is read as such. */
  lemma ReadListing(image: seq<Byte>, loc: int, len: int, recs: seq<Rec>,
                    fs: seq<DirFile>, es: seq<Entry>, kids: seq<Rec>, views: seq<DirView>,
                    filesLBA: nat, depth: nat, nm: Naming, joliet: bool)
    requires Cut(image, loc * SECTOR_SIZE, len) == Some(Extent(recs))
    requires |recs| >= 2 && recs[2..] == PlacedAll(fs, filesLBA, nm, joliet) + kids
    requires forall r :: r in recs ==> Representable(r)
    requires |fs| == |es| && forall k :: 0 <= k < |fs| ==> es[k].node.FileNode? && Served(image, fs[k], es[k], filesLBA)
    requires forall e :: e in es ==> e.node.FileNode?
    requires |kids| == |views| && depth > 0
    requires forall i :: 0 <= i < |kids| ==> kids[i].IsDir() && kids[i].ident == views[i].ident && kids[i].stamp == views[i].stamp
    requires forall i :: 0 <= i < |kids| ==> ReadDirectory(image, kids[i].loc, kids[i].len, depth - 1) == Some(views[i].view)
    ensures ReadDirectory(image, loc, len, depth) == Some(View(FileViews(es, nm, joliet), views))
  {
    hide ReadEntries, ParseExtent, Extent, Cut, PlacedAll, Served, Representable, FileViews;
    ExtentRoundTrip(recs);
    ReadFiles(image, fs, es, filesLBA, kids, depth - 1, nm, joliet);
    ReadKids(image, kids, views, depth - 1);
    assert FileViews(es, nm, joliet) + [] == FileViews(es, nm, joliet);
  }

  // ----- the final records of one directory

  lemma VolumeFacts(v: Volume)
    requires v.Valid()
    ensures ScanDone(v.root, v.rootName, v.ds) && |v.ds| > 0 && Ordered(v.ds)
  {
  }

  lemma {:induction false} FixedFiles(fs: seq<DirFile>, dirLBA: nat, filesLBA: nat, nm: Naming, joliet: bool)
    ensures FixLBA(AllFileRecs(fs, nm, joliet), dirLBA, filesLBA) == PlacedAll(fs, filesLBA, nm, joliet)
  {
    if fs != [] {
      FixedFiles(fs[1..], dirLBA, filesLBA, nm, joliet);
      var a, b := FileRecs(fs[0], nm, joliet), AllFileRecs(fs[1..], nm, joliet);
      FixConcat(a, b, dirLBA, filesLBA);
      forall i | 0 <= i < |a| ensures !a[i].IsDir() {
        ExtentsTile(fs[0], nm, joliet, i);
      }
      assert FixLBA(a, dirLBA, filesLBA) == PlacedRecs(fs[0], filesLBA, nm, joliet);
    }
  }

  lemma FixConcat(a: seq<Rec>, b: seq<Rec>, dirLBA: nat, filesLBA: nat)
    ensures FixLBA(a + b, dirLBA, filesLBA) == FixLBA(a, dirLBA, filesLBA) + FixLBA(b, dirLBA, filesLBA)
  {
  }

  ghost function FinalKids(v: Volume, joliet: bool, d: nat): (rs: seq<Rec>)
    requires v.Valid() && d < |v.ds|
    ensures |rs| == |Kids(v.ds, d)|
  {
    FixLBA(KidRecs(v.ds, Kids(v.ds, d), |v.ds|, v.nm, joliet), v.DirLBA(joliet), v.FilesLBA())
  }

  lemma FinalKidAt(v: Volume, joliet: bool, d: nat, i: nat)
    requires v.Valid() && d < |v.ds| && i < |Kids(v.ds, d)|
    ensures var k := Kids(v.ds, d)[i];
      && k < |v.ds|
      && FinalKids(v, joliet, d)[i]
         == Rec(FLAG_DIR, v.DirLBA(joliet) + LocOf(v.ds, k, v.nm, joliet), LenOf(v.ds, k, v.nm, joliet),
                v.ds[k].stamp, v.nm.Of(v.ds[k].name, joliet))
  {
    hide Volume.Valid, Volume.DirLBA, Volume.FilesLBA, LocOf, LenOf, Kids;
    assert Kids(v.ds, d)[i] in Kids(v.ds, d);
  }

  /** With every link right, the final records are '.', '..', the files, the children. */
  lemma FinalShape(v: Volume, joliet: bool, d: nat)
    requires v.Valid() && d < |v.ds| && ClashFree(v.ds, v.nm, joliet)
    ensures |v.Recs(joliet)| == |v.ds|
    ensures v.Recs(joliet)[d] == FixLBA(Heads(v.ds, d, v.nm, joliet), v.DirLBA(joliet), v.FilesLBA())
              + (PlacedAll(v.ds[d].files, v.FilesLBA(), v.nm, joliet) + FinalKids(v, joliet, d))
  {
    FinalIsLinked(v, joliet, d);
    FixLinked(v.ds, d, v.DirLBA(joliet), v.FilesLBA(), v.nm, joliet);
    hide Volume.Valid, Volume.DirLBA, Volume.FilesLBA, Volume.Recs, Linked, Kids, ClashFree, FixLBA, KidRecs, Heads;
  }

  lemma FixLinked(ds: seq<DirItem>, d: nat, dirLBA: nat, filesLBA: nat, nm: Naming, joliet: bool)
    requires d < |ds|
    ensures FixLBA(Linked(ds, d, nm, joliet), dirLBA, filesLBA)
            == FixLBA(Heads(ds, d, nm, joliet), dirLBA, filesLBA)
               + (PlacedAll(ds[d].files, filesLBA, nm, joliet)
                  + FixLBA(KidRecs(ds, Kids(ds, d), |ds|, nm, joliet), dirLBA, filesLBA))
  {
    hide LocOf, LenOf, Kids, FixLBA, KidRecs, Heads;
    var files, kids := AllFileRecs(ds[d].files, nm, joliet), KidRecs(ds, Kids(ds, d), |ds|, nm, joliet);
    FixedFiles(ds[d].files, dirLBA, filesLBA, nm, joliet);
    FixConcat(files, kids, dirLBA, filesLBA);
    FixConcat(Heads(ds, d, nm, joliet), files + kids, dirLBA, filesLBA);
    assert Linked(ds, d, nm, joliet) == Heads(ds, d, nm, joliet) + (files + kids);
  }

  lemma FinalIsLinked(v: Volume, joliet: bool, d: nat)
    requires v.Valid() && d < |v.ds| && ClashFree(v.ds, v.nm, joliet)
    ensures |v.Recs(joliet)| == |v.ds|
    ensures v.Recs(joliet)[d] == FixLBA(Linked(v.ds, d, v.nm, joliet), v.DirLBA(joliet), v.FilesLBA())
  {
    hide Linked, LinkedUpTo, Skeleton, ClashFree, FixLBA, Volume.Valid, Volume.DirLBA, Volume.FilesLBA, ScanDone, Ordered, BuildPass;
    VolumeFacts(v);
    PassLinks(v.ds, |v.ds|, v.nm, joliet);
    assert Linked(v.ds, d, v.nm, joliet) == LinkedUpTo(v.ds, d, |v.ds|, v.nm, joliet) by { LinkedIs(v.ds, d, v.nm, joliet); }
  }

  lemma LinkedIs(ds: seq<DirItem>, d: nat, nm: Naming, joliet: bool)
    requires d < |ds|
    ensures Linked(ds, d, nm, joliet) == LinkedUpTo(ds, d, |ds|, nm, joliet)
  {
  }

  // ----- everything fits its field

  lemma {:induction false} FileIndex(ds: seq<DirItem>, d: nat, k: nat) returns (m: nat)
    requires d < |ds| && k < |ds[d].files|
    ensures m < |AllFiles(ds)| && AllFiles(ds)[m] == ds[d].files[k]
  {
    if d == 0 {
      m := k;
    } else {
      m := FileIndex(ds[1..], d - 1, k);
      m := m + |ds[0].files|;
    }
  }

  lemma {:induction false} PlacedMember(fs: seq<DirFile>, r: Rec, filesLBA: nat, nm: Naming, joliet: bool) returns (k: nat, i: nat)
    requires r in PlacedAll(fs, filesLBA, nm, joliet)
    ensures k < |fs| && i < Parts(fs[k].size) && r == PlacedRecs(fs[k], filesLBA, nm, joliet)[i]
  {
    hide PlacedRecs, Parts;
    var first := PlacedRecs(fs[0], filesLBA, nm, joliet);
    if r in first {
      k, i :| k == 0 && 0 <= i < |first| && first[i] == r;
    } else {
      k, i := PlacedMember(fs[1..], r, filesLBA, nm, joliet);
      k := k + 1;
    }
  }

  lemma {:induction false} LocMonotone(ds: seq<DirItem>, a: nat, b: nat, nm: Naming, joliet: bool)
    requires a <= b <= |ds|
    ensures LocOf(ds, a, nm, joliet) <= LocOf(ds, b, nm, joliet)
    decreases b
  {
    hide LenOf;
    if a < b {
      LocMonotone(ds, a, b - 1, nm, joliet);
    }
  }

  lemma DirectoryBelowFiles(v: Volume, joliet: bool, d: nat)
    requires v.Valid() && d < |v.ds|
    ensures v.DirLBA(joliet) + LocOf(v.ds, d, v.nm, joliet) <= v.FilesLBA() <= v.VolumeSectors()
  {
    hide LocOf, Volume.Valid, Volume.TableSectors;
    LocMonotone(v.ds, d, |v.ds|, v.nm, joliet);
  }

  /** The location and length fields of the final records are in range. */
  lemma FinalFieldsFit(v: Volume, joliet: bool, d: nat, r: Rec)
    requires v.Valid() && v.Encodable() && d < |v.ds| && ClashFree(v.ds, v.nm, joliet) && FitsFormat(v, joliet)
    requires |v.Recs(joliet)| == |v.ds| && r in v.Recs(joliet)[d]
    ensures 0 <= r.loc < TWO_TO_THE_32 && 0 <= r.len < TWO_TO_THE_32
  {
    FinalShape(v, joliet, d);
    hide Volume.Valid, Volume.Encodable, Volume.DirLBA, Volume.FilesLBA, Volume.Recs, Volume.VolumeSectors;
    hide ClashFree, LocOf, LenOf, Kids, Heads, PlacedAll, FinalKids;
    if r in PlacedAll(v.ds[d].files, v.FilesLBA(), v.nm, joliet) {
      FileFieldsFit(v, joliet, d, r);
    } else if r in FinalKids(v, joliet, d) {
      var i :| 0 <= i < |FinalKids(v, joliet, d)| && FinalKids(v, joliet, d)[i] == r;
      FinalKidAt(v, joliet, d, i);
      DirectoryBelowFiles(v, joliet, Kids(v.ds, d)[i]);
    } else {
      HeadFieldsFit(v, joliet, d, r);
    }
  }

  lemma HeadFieldsFit(v: Volume, joliet: bool, d: nat, r: Rec)
    requires v.Valid() && d < |v.ds| && FitsFormat(v, joliet)
    requires r in FixLBA(Heads(v.ds, d, v.nm, joliet), v.DirLBA(joliet), v.FilesLBA())
    ensures 0 <= r.loc < TWO_TO_THE_32 && 0 <= r.len < TWO_TO_THE_32
  {
    hide Volume.Valid, Volume.DirLBA, Volume.FilesLBA, Volume.VolumeSectors, LocOf, LenOf;
    DirectoryBelowFiles(v, joliet, d);
    DirectoryBelowFiles(v, joliet, Up(v.ds, d));
  }

  lemma FileFieldsFit(v: Volume, joliet: bool, d: nat, r: Rec)
    requires v.Valid() && v.Encodable() && d < |v.ds| && v.VolumeSectors() < 0x8000_0000
    requires r in PlacedAll(v.ds[d].files, v.FilesLBA(), v.nm, joliet)
    ensures 0 <= r.loc < TWO_TO_THE_32 && 0 <= r.len < TWO_TO_THE_32
  {
    hide Volume.Valid, Volume.Encodable, Volume.FilesLBA, Volume.Image, PlacedRecs;
    var k, i := PlacedMember(v.ds[d].files, r, v.FilesLBA(), v.nm, joliet);
    var f := v.ds[d].files[k];
    PlacedRecAt(f, v.FilesLBA(), i, v.nm, joliet);
    var m := FileIndex(v.ds, d, k);
    FileInImage(v, m);
  }

  lemma FinalRepresentable(v: Volume, joliet: bool, d: nat)
    requires v.Valid() && v.Encodable() && d < |v.ds| && ClashFree(v.ds, v.nm, joliet) && FitsFormat(v, joliet)
    ensures |v.Recs(joliet)| == |v.ds|
    ensures forall r :: r in v.Recs(joliet)[d] ==> Representable(r)
  {
    hide Volume.Valid, Volume.Encodable, Volume.Recs, Skeleton, ClashFree, Representable, BuiltTo, LenOf;
    BuiltSize(v.ds, v.Recs(joliet), |v.ds|, v.nm, joliet);
    BuiltIdents(v.ds, v.Recs(joliet), |v.ds|, d, v.nm, joliet);
    var rs := v.Recs(joliet)[d];
    forall r | r in rs ensures Representable(r) {
      var i :| 0 <= i < |rs| && rs[i] == r;
      assert Skeleton(v.ds, d, v.nm, joliet)[i] in Skeleton(v.ds, d, v.nm, joliet);
      FinalFieldsFit(v, joliet, d, r);
      ShortIdentifier(r);
    }
  }

  lemma ShortIdentifier(r: Rec)
    requires 0 <= r.loc < TWO_TO_THE_32 && 0 <= r.len < TWO_TO_THE_32
    ensures Representable(r) <==> |r.ident| <= 215
  {
  }

  // ----- the theorem

  /** What makes a hierarchy of an image readable: nothing panics while encoding,
      identifiers do not clash, and everything fits the format. */
  ghost predicate Readable(v: Volume, joliet: bool) {
    && v.Valid() && v.Encodable()
    && ClashFree(v.ds, v.nm, joliet)
    && FitsFormat(v, joliet)
  }

  lemma ReadableIs(v: Volume, joliet: bool)
    requires Readable(v, joliet)
    ensures v.Valid() && v.Encodable() && ClashFree(v.ds, v.nm, joliet) && FitsFormat(v, joliet)
    ensures v.VolumeSectors() < 0x8000_0000
  {
    hide Volume.Valid, Volume.Encodable, ClashFree, Volume.VolumeSectors;
  }

  /** The source tree's files and subdirectories behind item `d`. */
  ghost function SourceFiles(v: Volume, d: nat): (es: seq<Entry>)
    requires v.Valid() && d < |v.ds|
    ensures |es| == |v.ds[d].files|
    ensures forall e :: e in es ==> e.node.FileNode?
  {
    ItemIsDir(v, d);
    FilesOf(Listing(v.root, v.ds[d].path))
  }

  ghost function SourceDirs(v: Volume, d: nat): (es: seq<Entry>)
    requires v.Valid() && d < |v.ds|
    ensures |es| == |Kids(v.ds, d)|
    ensures forall e :: e in es ==> e.node.DirNode?
  {
    ItemIsDir(v, d);
    KidsAreSubPaths(v.root, v.rootName, v.ds, d);
    DirsOf(Listing(v.root, v.ds[d].path))
  }

  lemma ItemIsDir(v: Volume, d: nat)
    requires v.Valid() && d < |v.ds|
    ensures IsDirAt(v.root, v.ds[d].path)
    ensures v.ds[d] == ItemAt(v.root, v.rootName, v.ds[d].path, TotalSectors(v.ds[..d]))
    ensures |FilesOf(Listing(v.root, v.ds[d].path))| == |v.ds[d].files|
  {
    assert PathsOf(v.ds)[d] in PathsOf(v.ds) + [];
  }

  /** A scanned file is the source tree's file. */
  lemma FileIsEntry(v: Volume, d: nat, k: nat)
    requires v.Valid() && d < |v.ds| && k < |v.ds[d].files|
    ensures var f, e := v.ds[d].files[k], SourceFiles(v, d)[k];
      && f.name == e.name && f.stamp == e.node.stamp && f.size == |e.node.data|
      && FileData(v.root, f.path) == e.node.data
  {
    ItemFile(v.root, v.rootName, v.ds, d, k);
  }

  lemma DirFileInImage(v: Volume, d: nat, k: nat)
    requires v.Valid() && v.Encodable() && d < |v.ds| && k < |v.ds[d].files|
    ensures var f := v.ds[d].files[k];
      var from := (v.FilesLBA() + f.rLBA) * SECTOR_SIZE;
      && from + AlignUp(f.size) <= |v.Image()|
      && v.Image()[from..from + AlignUp(f.size)] == PadSector(FileData(v.root, f.path))
  {
    hide Volume.Valid, Volume.Encodable, Volume.Image, Volume.FilesLBA, FileData, AlignUp, PadSector;
    var m := FileIndex(v.ds, d, k);
    FileInImage(v, m);
  }

  lemma ServedFiles(v: Volume, d: nat, k: nat)
    requires v.Valid() && v.Encodable() && d < |v.ds| && k < |v.ds[d].files|
    ensures Served(v.Image(), v.ds[d].files[k], SourceFiles(v, d)[k], v.FilesLBA())
  {
    hide Volume.Valid, Volume.Encodable, Volume.Image, Volume.FilesLBA, FileData, SourceFiles, Served, AlignUp, PadSector;
    FileIsEntry(v, d, k);
    DirFileInImage(v, d, k);
    PaddedIsServed(v.Image(), v.ds[d].files[k], SourceFiles(v, d)[k], v.FilesLBA());
  }

  lemma PaddedIsServed(image: seq<Byte>, f: DirFile, e: Entry, filesLBA: nat)
    requires e.node.FileNode? && f.name == e.name && f.stamp == e.node.stamp && f.size == |e.node.data|
    requires var from := (filesLBA + f.rLBA) * SECTOR_SIZE;
      from + AlignUp(f.size) <= |image| && image[from..from + AlignUp(f.size)] == PadSector(e.node.data)
    ensures Served(image, f, e, filesLBA)
  {
    var from := (filesLBA + f.rLBA) * SECTOR_SIZE;
    SliceOfSlice(image, from, from + AlignUp(f.size), 0, f.size);
  }

  /** A child item is the corresponding subdirectory of the source tree. */
  lemma KidIsEntry(v: Volume, d: nat, i: nat)
    requires v.Valid() && d < |v.ds| && i < |Kids(v.ds, d)|
    ensures var e, k := SourceDirs(v, d)[i], Kids(v.ds, d)[i];
      && k < |v.ds|
      && Lookup(v.root, v.ds[k].path) == Some(e.node)
      && v.ds[k].name == e.name && v.ds[k].stamp == e.node.stamp
  {
    KidsAreSubPaths(v.root, v.rootName, v.ds, d);
    var p := v.ds[d].path;
    var es, k := SourceDirs(v, d), Kids(v.ds, d)[i];
    assert PathsAt(v.ds, Kids(v.ds, d))[i] == SubPaths(v.root, p)[i] == p + [es[i].name];
    assert es[i] in es;
    EntryLookup(v.root, p, es[i]);
    ItemIsDir(v, k);
  }

  /** The extent of `d` and the records in it, as `ReadListing` wants them. */
  lemma DirectoryCut(v: Volume, joliet: bool, d: nat)
    requires v.Valid() && v.Encodable() && d < |v.ds|
    ensures |v.Recs(joliet)| == |v.ds|
    ensures Cut(v.Image(), LocIn(v, joliet, d) * SECTOR_SIZE, LenOf(v.ds, d, v.nm, joliet)) == Some(Extent(v.Recs(joliet)[d]))
  {
    hide Volume.Valid, Volume.Encodable, Volume.Image, Volume.DirLBA, Volume.FilesLBA, Volume.Recs, LocOf, LenOf, Extent;
    DirectoryInImage(v, joliet, d);
  }

  lemma DirectoryRecords(v: Volume, joliet: bool, d: nat)
    requires v.Valid() && d < |v.ds| && ClashFree(v.ds, v.nm, joliet)
    ensures |v.Recs(joliet)| == |v.ds| && |v.Recs(joliet)[d]| >= 2
    ensures v.Recs(joliet)[d][2..] == PlacedAll(v.ds[d].files, v.FilesLBA(), v.nm, joliet) + FinalKids(v, joliet, d)
  {
    hide Volume.Valid, Volume.DirLBA, Volume.FilesLBA, Volume.Recs, ClashFree, FinalKids, Heads, PlacedAll;
    FinalShape(v, joliet, d);
    HeadsSize(v.ds, d, v.nm, joliet);
  }

  /** The final location of directory `d`. */
  ghost function LocIn(v: Volume, joliet: bool, d: nat): nat
    requires v.Valid() && d < |v.ds|
  {
    v.DirLBA(joliet) + LocOf(v.ds, d, v.nm, joliet)
  }

  /** Directory `d` reads back as its part of the source tree. */
  ghost predicate ReadsAs(v: Volume, joliet: bool, d: nat, depth: nat)
    requires v.Valid() && v.Encodable() && d < |v.ds|
  {
    ReadDirectory(v.Image(), LocIn(v, joliet, d), LenOf(v.ds, d, v.nm, joliet), depth)
    == Some(Denote(NodeAt(v, d), v.nm, joliet))
  }

  ghost function NodeAt(v: Volume, d: nat): (n: Node)
    requires v.Valid() && d < |v.ds|
    ensures n.DirNode? && ValidTree(n) && Lookup(v.root, v.ds[d].path) == Some(n)
  {
    ItemIsDir(v, d);
    LookupValid(v.root, v.ds[d].path);
    Lookup(v.root, v.ds[d].path).value
  }

  lemma SourceDirsBelow(v: Volume, d: nat)
    requires v.Valid() && d < |v.ds|
    ensures forall e :: e in SourceDirs(v, d) ==> e.node.DirNode? && ValidTree(e.node) && Height(e.node) < Height(NodeAt(v, d))
    ensures Denote(NodeAt(v, d), v.nm, true) ==
            View(FileViews(SourceFiles(v, d), v.nm, true), DenoteDirs(SourceDirs(v, d), Height(NodeAt(v, d)), v.nm, true))
    ensures Denote(NodeAt(v, d), v.nm, false) ==
            View(FileViews(SourceFiles(v, d), v.nm, false), DenoteDirs(SourceDirs(v, d), Height(NodeAt(v, d)), v.nm, false))
  {
    hide Volume.Valid;
    var n := NodeAt(v, d);
    SortKeepsEntries(n.entries);
    HeightsBelow(n);
  }

  ghost function SourceViews(v: Volume, joliet: bool, d: nat): (views: seq<DirView>)
    requires v.Valid() && d < |v.ds|
    ensures |views| == |Kids(v.ds, d)|
  {
    SourceDirsBelow(v, d);
    DenoteDirs(SourceDirs(v, d), Height(NodeAt(v, d)), v.nm, joliet)
  }

  lemma KidReads(v: Volume, joliet: bool, d: nat, i: nat, depth: nat)
    requires v.Valid() && v.Encodable() && d < |v.ds| && i < |Kids(v.ds, d)|
    requires Kids(v.ds, d)[i] < |v.ds| && ReadsAs(v, joliet, Kids(v.ds, d)[i], depth)
    ensures var r, view := FinalKids(v, joliet, d)[i], SourceViews(v, joliet, d)[i];
      && r.IsDir() && r.ident == view.ident && r.stamp == view.stamp
      && ReadDirectory(v.Image(), r.loc, r.len, depth) == Some(view.view)
  {
    hide Volume.Valid, Volume.Encodable, Volume.Image, Volume.DirLBA, LocOf, LenOf, Kids;
    hide ReadDirectory, Denote, FinalKids, SourceViews, NodeAt, Height;
    FinalKidAt(v, joliet, d, i);
    KidView(v, joliet, d, i);
  }

  lemma KidView(v: Volume, joliet: bool, d: nat, i: nat)
    requires v.Valid() && d < |v.ds| && i < |Kids(v.ds, d)|
    ensures var k, view := Kids(v.ds, d)[i], SourceViews(v, joliet, d)[i];
      && k < |v.ds| && view.ident == v.nm.Of(v.ds[k].name, joliet) && view.stamp == v.ds[k].stamp
      && view.view == Denote(NodeAt(v, k), v.nm, joliet)
  {
    hide Volume.Valid, Kids, Denote, SourceDirs, NodeAt, Height;
    KidIsEntry(v, d, i);
    SourceDirsBelow(v, d);
    assert SourceDirs(v, d)[i] in SourceDirs(v, d);
    assert NodeAt(v, Kids(v.ds, d)[i]) == SourceDirs(v, d)[i].node;
  }

  lemma DirectoryReads(v: Volume, joliet: bool, d: nat, depth: nat)
    requires Readable(v, joliet) && d < |v.ds|
    requires forall k :: k in Kids(v.ds, d) ==> ReadsAs(v, joliet, k, depth)
    ensures ReadsAs(v, joliet, d, depth + 1)
  {
    DirectoryCut(v, joliet, d);
    DirectoryRecords(v, joliet, d);
    FinalRepresentable(v, joliet, d);
    var es, kids, views := SourceFiles(v, d), FinalKids(v, joliet, d), SourceViews(v, joliet, d);
    forall k | 0 <= k < |es| ensures es[k].node.FileNode? && Served(v.Image(), v.ds[d].files[k], es[k], v.FilesLBA()) {
      assert es[k] in es;
      ServedFiles(v, d, k);
    }
    forall i | 0 <= i < |kids|
      ensures kids[i].IsDir() && kids[i].ident == views[i].ident && kids[i].stamp == views[i].stamp
      ensures ReadDirectory(v.Image(), kids[i].loc, kids[i].len, depth) == Some(views[i].view)
    {
      assert Kids(v.ds, d)[i] in Kids(v.ds, d);
      KidReads(v, joliet, d, i, depth);
    }
    hide Readable, Volume.Valid, Volume.Encodable, Volume.Image, Volume.DirLBA, Volume.FilesLBA, Volume.Recs, LocOf, LenOf, Kids;
    hide ReadDirectory, Denote, FinalKids, SourceFiles, NodeAt, FileViews, Extent, Served, LocIn, Representable, PlacedAll;
    ReadListing(v.Image(), LocIn(v, joliet, d), LenOf(v.ds, d, v.nm, joliet), v.Recs(joliet)[d],
                v.ds[d].files, es, kids, views, v.FilesLBA(), depth + 1, v.nm, joliet);
    SourceDirsBelow(v, d);
  }

  /** Reading directory `d` of the image gives back its part of the source tree. */
  lemma {:induction false} ReadsBack(v: Volume, joliet: bool, d: nat, depth: nat)
    requires Readable(v, joliet) && d < |v.ds| && Height(NodeAt(v, d)) <= depth
    ensures ReadsAs(v, joliet, d, depth)
    decreases depth
  {
    hide Volume.Valid, Volume.Encodable, ReadsAs, Height, NodeAt, Kids, ClashFree, FitsFormat;
    forall k | k in Kids(v.ds, d) ensures depth > 0 && ReadsAs(v, joliet, k, depth - 1) {
      KidIsLower(v, d, k);
      ReadsBack(v, joliet, k, depth - 1);
    }
    PositiveHeight(NodeAt(v, d));
    DirectoryReads(v, joliet, d, depth - 1);
  }

  lemma KidIsLower(v: Volume, d: nat, k: nat)
    requires v.Valid() && d < |v.ds| && k in Kids(v.ds, d)
    ensures k < |v.ds| && Height(NodeAt(v, k)) < Height(NodeAt(v, d))
  {
    hide Volume.Valid, Height, SourceDirs;
    SourceDirsBelow(v, d);
    var i :| 0 <= i < |Kids(v.ds, d)| && Kids(v.ds, d)[i] == k;
    KidIsEntry(v, d, i);
    assert SourceDirs(v, d)[i] in SourceDirs(v, d);
  }

  lemma PositiveHeight(n: Node)
    requires n.DirNode?
    ensures Height(n) > 0
  {
  }

  lemma RootIsFirst(v: Volume)
    requires v.Valid()
    ensures v.root.DirNode? && NodeAt(v, 0) == v.root
  {
    RootHasNoParent(v.root, v.rootName, v.ds);
    hide Volume.Valid;
    assert Lookup(v.root, v.ds[0].path) == Some(v.root);
    var n := NodeAt(v, 0);
  }

  lemma RootIsFirstRecord(v: Volume, joliet: bool)
    requires v.Valid()
    ensures |v.Recs(joliet)| == |v.ds| > 0 && |v.Recs(joliet)[0]| > 0
    ensures v.Root(joliet) == v.Recs(joliet)[0][0]
  {
  }

  lemma RootIsDot(v: Volume, joliet: bool)
    requires v.Valid() && ClashFree(v.ds, v.nm, joliet)
    ensures |v.Recs(joliet)| == |v.ds| > 0 && v.Root(joliet) in v.Recs(joliet)[0]
    ensures v.Root(joliet) == Dot(v.ds[0], LocIn(v, joliet, 0), LenOf(v.ds, 0, v.nm, joliet))
  {
    RootIsFirstRecord(v, joliet);
    FirstIsDot(v, joliet);
    hide Volume.Valid, Volume.Recs, Volume.Root, LocIn, LenOf, ClashFree;
  }

  lemma FirstIsDot(v: Volume, joliet: bool)
    requires v.Valid() && ClashFree(v.ds, v.nm, joliet)
    ensures |v.Recs(joliet)| == |v.ds| > 0 && |v.Recs(joliet)[0]| > 0
    ensures v.Recs(joliet)[0][0] == Dot(v.ds[0], LocIn(v, joliet, 0), LenOf(v.ds, 0, v.nm, joliet))
  {
    hide Volume.Valid, Volume.Recs, Volume.DirLBA, Volume.FilesLBA, LocOf, LenOf, ClashFree, FinalKids, PlacedAll, Heads, FixLBA;
    hide ScanDone, Ordered;
    VolumeFacts(v);
    FinalShape(v, joliet, 0);
    FixedDot(v.ds, 0, v.DirLBA(joliet), v.FilesLBA(), v.nm, joliet);
  }

  lemma FixedDot(ds: seq<DirItem>, d: nat, dirLBA: nat, filesLBA: nat, nm: Naming, joliet: bool)
    requires d < |ds|
    ensures |FixLBA(Heads(ds, d, nm, joliet), dirLBA, filesLBA)| > 0
    ensures FixLBA(Heads(ds, d, nm, joliet), dirLBA, filesLBA)[0]
            == Dot(ds[d], dirLBA + LocOf(ds, d, nm, joliet), LenOf(ds, d, nm, joliet))
  {
    hide LocOf, LenOf;
    assert Heads(ds, d, nm, joliet)[0].IsDir();
  }

  /** The root record seen through the descriptor's pointer. */
  lemma RootRecord(v: Volume, joliet: bool)
    requires Readable(v, joliet)
    ensures var r := v.Root(joliet);
      && r.ident == DOT && r.loc == LocIn(v, joliet, 0) && r.len == LenOf(v.ds, 0, v.nm, joliet)
      && 0 <= r.loc < TWO_TO_THE_32 && 0 <= r.len < TWO_TO_THE_32
  {
    RootIsDot(v, joliet);
    hide Volume.Valid, Volume.Encodable, Volume.Recs, Volume.Root, LocIn, LenOf, ClashFree, FitsFormat;
    FinalFieldsFit(v, joliet, 0, v.Root(joliet));
  }

  lemma DescriptorFields(d: Descriptor, root: Rec)
    requires DescriptorFits(d) && |root.ident| == 1
    ensures var b := DescriptorBytes(d, root);
      b[0] == d.typ && b[1..6] == CD001 && b[156..190] == RootBytes(root)
  {
    var b := DescriptorBytes(d, root);
    hide RootBytes, DescriptorTail, LE32, BE32, LE16, BE16, PadTo;
    assert b[..6] == DescriptorHead(d)[..6] == [d.typ] + CD001;
  }

  lemma DescriptorReads(v: Volume, joliet: bool)
    requires v.Valid() && v.Encodable()
    ensures var b := v.DescriptorBlock(joliet);
      && b[0] == (if joliet then 2 else 1) && b[1..6] == CD001
      && b[156..190] == RootBytes(v.Root(joliet))
  {
    hide Volume.Valid, Volume.Root, DescriptorBytes, RootBytes, Volume.VolumeSectors, Volume.TableLBA, Volume.Table;
    CfgValid(v);
    DescriptorFields(v.DescriptorOf(joliet), v.Root(joliet));
  }

  lemma VolumeReads(image: seq<Byte>, joliet: bool, sector: seq<Byte>, root: Rec, depth: nat)
    requires Cut(image, (if joliet then 17 else 16) * SECTOR_SIZE, SECTOR_SIZE) == Some(sector)
    requires sector[0] == (if joliet then 2 else 1) && sector[1..6] == CD001
    requires sector[156..190] == RootBytes(root) && DecodeRec(RootBytes(root)) == Some(root)
    ensures ReadVolume(image, joliet, depth) == ReadDirectory(image, root.loc, root.len, depth)
  {
    hide RootBytes, DecodeRec, ReadDirectory, Cut;
  }

  /** The headline: for every source tree and both hierarchies, an independent reader
      that starts from the volume descriptor recovers the whole tree, every file
      byte for byte. */
  lemma ImageRecoversTree(v: Volume, joliet: bool, depth: nat)
    requires Readable(v, joliet)
    requires Height(v.root) <= depth
    ensures v.root.DirNode?
    ensures ReadVolume(v.Image(), joliet, depth) == Some(Denote(v.root, v.nm, joliet))
  {
    assert v.Valid() && v.Encodable();
    hide Readable, Volume.Valid, Volume.Encodable, Volume.Image, Volume.DescriptorBlock, Volume.Root, LocIn, LenOf, NodeAt;
    hide ReadDirectory, Denote, Height, RootBytes, DecodeRec, ReadVolume;
    RootIsFirst(v);
    ReadsBack(v, joliet, 0, depth);
    RootRecord(v, joliet);
    VolumeStartsAtRoot(v, joliet, depth);
  }

  lemma NamesOfVolumeFit(v: Volume)
    requires v.Valid() && v.Encodable()
    ensures |v.cfg.isoVolume| <= 32 && |v.cfg.jolietVolume| <= 32
  {
    hide Volume.Valid;
  }

  lemma VolumeStartsAtRoot(v: Volume, joliet: bool, depth: nat)
    requires v.Valid() && v.Encodable()
    requires 0 <= v.Root(joliet).loc < TWO_TO_THE_32 && 0 <= v.Root(joliet).len < TWO_TO_THE_32
    ensures ReadVolume(v.Image(), joliet, depth)
            == ReadDirectory(v.Image(), v.Root(joliet).loc, v.Root(joliet).len, depth)
  {
    hide Volume.Valid, Volume.Encodable, Volume.Image, Volume.DescriptorBlock, Volume.Root;
    hide ReadDirectory, RootBytes, DecodeRec, ReadVolume;
    DescriptorInImage(v, joliet);
    DescriptorReads(v, joliet);
    RootRoundTrip(v.Root(joliet));
    assert |v.cfg.isoVolume| <= 32 && |v.cfg.jolietVolume| <= 32 by { NamesOfVolumeFit(v); }
    VolumeReads(v.Image(), joliet, v.DescriptorBlock(joliet), v.Root(joliet), depth);
  }

  // ----- the two hierarchies

  /** A view without its spelling. */
  function Strip(w: View): View {
    View(StripFiles(w.files), StripDirs(w.dirs))
  }

  function StripFiles(fs: seq<FileView>): seq<FileView> {
    seq(|fs|, i requires 0 <= i < |fs| => fs[i].(ident := []))
  }

  function StripDirs(ds: seq<DirView>): seq<DirView> {
    if ds == [] then [] else [DirView([], ds[0].stamp, Strip(ds[0].view))] + StripDirs(ds[1..])
  }

  /** A tree denotes the same files in both hierarchies, up to spelling. */
  lemma {:induction false} SpellingsAgree(n: Node, nm: Naming)
    requires ValidTree(n) && n.DirNode?
    ensures Strip(Denote(n, nm, false)) == Strip(Denote(n, nm, true))
    decreases Height(n), 1, 0
  {
    SortKeepsEntries(n.entries);
    HeightsBelow(n);
    var es := SortByName(n.entries);
    hide Height, ValidTree, SortByName;
    DirsAgree(DirsOf(es), Height(n), nm);
    assert StripFiles(FileViews(FilesOf(es), nm, false)) == StripFiles(FileViews(FilesOf(es), nm, true));
  }

  lemma {:induction false} DirsAgree(es: seq<Entry>, bound: nat, nm: Naming)
    requires forall e :: e in es ==> e.node.DirNode? && ValidTree(e.node) && Height(e.node) < bound
    ensures StripDirs(DenoteDirs(es, bound, nm, false)) == StripDirs(DenoteDirs(es, bound, nm, true))
    decreases bound, 0, |es|
  {
    if es != [] {
      hide Height, ValidTree, Denote;
      assert es[0] in es;
      SpellingsAgree(es[0].node, nm);
      DirsAgree(es[1..], bound, nm);
    }
  }

  /** What the reader finds in the two hierarchies of one image is the same, up to spelling. */
  lemma HierarchiesAgree(v: Volume, depth: nat)
    requires Readable(v, false) && Readable(v, true)
    requires Height(v.root) <= depth
    ensures var iso, joliet := ReadVolume(v.Image(), false, depth), ReadVolume(v.Image(), true, depth);
      iso.Some? && joliet.Some? && Strip(iso.value) == Strip(joliet.value)
  {
    assert v.Valid() && ValidTree(v.root);
    hide Readable, Volume.Valid, Volume.Encodable, Volume.Image, ReadVolume, Denote, Strip, Height, ValidTree;
    ImageRecoversTree(v, false, depth);
    ImageRecoversTree(v, true, depth);
    SpellingsAgree(v.root, v.nm);
  }
}
