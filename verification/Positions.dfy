/** Every structure lies in the image where the sizes computed beforehand put it. */
module Positions {
  import opened Wrappers
  import opened Bytes
  import opened Sectors
  import opened Records
  import opened SourceTree
  import opened Scan
  import opened ScanOrder
  import opened Build
  import opened Links
  import opened Blocks
  import opened Layout
  import opened Volumes

  // ----- path tables

  lemma FixedEntrySize(e: PathEntry, dirLBA: nat)
    ensures PathEntrySize(e.(loc := e.loc + dirLBA)) == PathEntrySize(e)
  {
  }

  lemma {:induction false} FixedTableLength(t: seq<PathEntry>, dirLBA: nat)
    ensures PathTableSize(FixTable(t, dirLBA)) == PathTableSize(t)
  {
    hide PathEntrySize;
    var f := FixTable(t, dirLBA);
    if t != [] {
      FixedEntrySize(t[|t| - 1], dirLBA);
      FixedTableLength(t[..|t| - 1], dirLBA);
      assert f[..|t| - 1] == FixTable(t[..|t| - 1], dirLBA);
    }
  }

  lemma FixedTableSize(t: seq<PathEntry>, dirLBA: nat)
    ensures PathTableSize(FixTable(t, dirLBA)) == PathTableSize(t)
    ensures PathTableFits(FixTable(t, dirLBA)) <==> PathTableFits(t)
  {
    hide PathTableSize;
    FixedTableLength(t, dirLBA);
    var f := FixTable(t, dirLBA);
    assert forall i :: 0 <= i < |t| ==> f[i].ident == t[i].ident && f[i] in f && t[i] in t;
  }

  lemma TableBlockSize(v: Volume, joliet: bool, little: bool)
    requires v.Valid() && v.Encodable()
    ensures |PathTableBytes(v.FinalTable(joliet), little)| == PathTableSize(v.Table(joliet))
    ensures |v.TableBlock(joliet, little)| == v.TableSectors(joliet) * SECTOR_SIZE
  {
    FixedTableSize(v.Table(joliet), v.DirLBA(joliet));
    PathTableSizes(v.FinalTable(joliet), little);
  }

  // ----- the blocks before the directories

  /** The predicted first sector of the `k`-th of these blocks. */
  ghost function HeadLBA(v: Volume, k: nat): nat
    requires v.Valid() && k <= 9
  {
    match k
    case 0 => 0
    case 1 => SYSTEM_AREA_SECTORS
    case 2 => SYSTEM_AREA_SECTORS + 1
    case 3 => SYSTEM_AREA_SECTORS + 2
    case 4 => SYSTEM_AREA_SECTORS + VOLUME_DESCRIPTORS
    case 5 => v.TableLBA(false, true)
    case 6 => v.TableLBA(false, false)
    case 7 => v.TableLBA(true, true)
    case 8 => v.TableLBA(true, false)
    case _ => v.DirLBA(false)
  }

  lemma HeadBlockSize(v: Volume, k: nat)
    requires v.Valid() && v.Encodable() && k < 9
    ensures |v.HeadBlocks()[k]| == (HeadLBA(v, k + 1) - HeadLBA(v, k)) * SECTOR_SIZE
  {
    hide Volume.Valid, Volume.Encodable, Volume.HeadBlocks, HeadLBA;
    if k >= 5 {
      TableBlockLies(v, k);
    } else {
      FixedBlockLies(v, k);
    }
  }

  lemma FirstBlocks(v: Volume)
    requires v.Valid() && v.Encodable()
    ensures |v.HeadBlocks()[0]| == SYSTEM_AREA_SECTORS * SECTOR_SIZE
    ensures |v.HeadBlocks()[1]| == |v.HeadBlocks()[2]| == |v.HeadBlocks()[3]| == |v.HeadBlocks()[4]| == SECTOR_SIZE
  {
    hide Volume.Valid, Volume.Encodable, Volume.TableBlock, Volume.DescriptorBlock, Volume.SystemArea, Terminator;
  }

  lemma FixedBlockLies(v: Volume, k: nat)
    requires v.Valid() && v.Encodable() && k < 5
    ensures |v.HeadBlocks()[k]| == (HeadLBA(v, k + 1) - HeadLBA(v, k)) * SECTOR_SIZE
  {
    hide Volume.Valid, Volume.Encodable, Volume.HeadBlocks, Volume.TableSectors;
    FirstBlocks(v);
  }

  lemma HeadTables(v: Volume)
    requires v.Valid() && v.Encodable()
    ensures v.HeadBlocks()[5] == v.TableBlock(false, true)
    ensures v.HeadBlocks()[6] == v.TableBlock(false, false)
    ensures v.HeadBlocks()[7] == v.TableBlock(true, true)
    ensures v.HeadBlocks()[8] == v.TableBlock(true, false)
  {
    hide Volume.Valid, Volume.Encodable, Volume.TableBlock, Volume.DescriptorBlock, Volume.SystemArea, Terminator, Zeros;
  }

  lemma TableBlockLies(v: Volume, k: nat)
    requires v.Valid() && v.Encodable() && 5 <= k < 9
    ensures |v.HeadBlocks()[k]| == (HeadLBA(v, k + 1) - HeadLBA(v, k)) * SECTOR_SIZE
  {
    hide Volume.Valid, Volume.Encodable, Volume.HeadBlocks, Volume.TableBlock, Volume.TableSectors;
    HeadTables(v);
    match k {
      case 5 => TableBlockSize(v, false, true);
      case 6 => TableBlockSize(v, false, false);
      case 7 => TableBlockSize(v, true, true);
      case _ => TableBlockSize(v, true, false);
    }
  }

  lemma {:induction false} HeadOffset(v: Volume, k: nat)
    requires v.Valid() && v.Encodable() && k <= 9
    ensures Offset(v.HeadBlocks(), k) == HeadLBA(v, k) * SECTOR_SIZE
  {
    hide Volume.Valid, Volume.Encodable, Volume.HeadBlocks, HeadLBA, Offset;
    if k == 0 {
      NothingBefore(v, v.HeadBlocks());
    } else {
      HeadOffset(v, k - 1);
      OffsetNext(v.HeadBlocks(), k - 1);
      HeadBlockSize(v, k - 1);
    }
  }

  lemma NothingBefore(v: Volume, bs: seq<seq<Byte>>)
    requires v.Valid()
    ensures Offset(bs, 0) == 0 && HeadLBA(v, 0) == 0
  {
    hide Volume.Valid;
    assert bs[..0] == [];
  }

  // ----- directories

  lemma ExtentLength(v: Volume, joliet: bool, d: nat)
    requires v.Valid() && d < |v.ds|
    ensures |v.Recs(joliet)| == |v.ds|
    ensures |Extent(v.Recs(joliet)[d])| == LenOf(v.ds, d, v.nm, joliet)
  {
    ExtentSize(v.Recs(joliet)[d]);
    BuiltIdents(v.ds, v.Recs(joliet), |v.ds|, d, v.nm, joliet);
    SizeByIdents(0, v.Recs(joliet)[d], Skeleton(v.ds, d, v.nm, joliet));
  }

  lemma {:induction false} ExtentOffset(v: Volume, joliet: bool, d: nat)
    requires v.Valid() && d <= |v.ds|
    ensures |v.Recs(joliet)| == |v.ds|
    ensures Offset(Extents(v.Recs(joliet)), d) == LocOf(v.ds, d, v.nm, joliet) * SECTOR_SIZE
  {
    hide Volume.Valid, Volume.Recs, Extent, LenOf;
    if d > 0 {
      ExtentOffset(v, joliet, d - 1);
      ExtentLength(v, joliet, d - 1);
      OffsetNext(Extents(v.Recs(joliet)), d - 1);
    }
  }

  lemma WholeOffset(bs: seq<seq<Byte>>)
    ensures Offset(bs, |bs|) == |Flatten(bs)|
  {
    assert bs[..|bs|] == bs;
  }

  /** Where directory `d` of a hierarchy starts among the encoded blocks. */
  lemma DirectoryOffset(v: Volume, joliet: bool, d: nat)
    requires v.Valid() && v.Encodable() && d < |v.ds|
    ensures |v.Recs(false)| == |v.Recs(true)| == |v.ds|
    ensures var k := 9 + (if joliet then |v.ds| else 0) + d;
      && k < |v.FsBlocks()|
      && v.FsBlocks()[k] == Extent(v.Recs(joliet)[d])
      && Offset(v.FsBlocks(), k) == (v.DirLBA(joliet) + LocOf(v.ds, d, v.nm, joliet)) * SECTOR_SIZE
  {
    hide Volume.Valid, Volume.Encodable, Volume.HeadBlocks, Volume.Recs, Volume.DirLBA, Offset, Flatten, Extent, LocOf;
    RecsCount(v);
    HeadEnds(v);
    ExtentOffset(v, joliet, d);
    if joliet {
      ExtentOffset(v, false, |v.ds|);
      WholeOffset(Extents(v.Recs(false)));
      OffsetInThird(v.HeadBlocks(), Extents(v.Recs(false)), Extents(v.Recs(true)), d);
    } else {
      OffsetInSecond(v.HeadBlocks(), Extents(v.Recs(false)), Extents(v.Recs(true)), d);
    }
  }

  lemma OffsetInThird(a: seq<seq<Byte>>, b: seq<seq<Byte>>, c: seq<seq<Byte>>, k: nat)
    requires k <= |c|
    ensures Offset(a + b + c, |a| + |b| + k) == |Flatten(a)| + |Flatten(b)| + Offset(c, k)
  {
    hide Flatten, Offset;
    FlattenConcat(a, b);
    OffsetInConcat(a + b, c, k);
  }

  lemma OffsetInSecond(a: seq<seq<Byte>>, b: seq<seq<Byte>>, c: seq<seq<Byte>>, k: nat)
    requires k <= |b|
    ensures Offset(a + b + c, |a| + k) == |Flatten(a)| + Offset(b, k)
  {
    hide Flatten, Offset;
    OffsetInConcat(a, b + c, k);
    assert a + (b + c) == a + b + c;
    OffsetInFirst(b, c, k);
  }

  lemma OffsetInFirst(a: seq<seq<Byte>>, b: seq<seq<Byte>>, k: nat)
    requires k <= |a|
    ensures Offset(a + b, k) == Offset(a, k)
  {
    assert (a + b)[..k] == a[..k];
  }

  lemma RecsCount(v: Volume)
    requires v.Valid()
    ensures |v.Recs(false)| == |v.Recs(true)| == |v.ds|
  {
    hide Volume.Valid, Volume.Built, Volume.DirLBA, Volume.FilesLBA;
  }

  /** The directories begin where the other structures end, the Joliet ones behind. */
  lemma HeadEnds(v: Volume)
    requires v.Valid() && v.Encodable()
    ensures |Flatten(v.HeadBlocks())| == v.DirLBA(false) * SECTOR_SIZE
    ensures v.DirLBA(true) == v.DirLBA(false) + LocOf(v.ds, |v.ds|, v.nm, false)
  {
    hide Volume.Valid, Volume.Encodable, Volume.HeadBlocks, Flatten, LocOf, Volume.TableSectors;
    HeadOffset(v, 9);
    WholeOffset(v.HeadBlocks());
  }

  /** The encoded structures end exactly where the files are expected to begin. */
  lemma FsSize(v: Volume)
    requires v.Valid() && v.Encodable()
    ensures |Flatten(v.FsBlocks())| == v.FilesLBA() * SECTOR_SIZE
  {
    hide Volume.Valid, Volume.Encodable, Volume.HeadBlocks, Volume.Recs, Flatten, Extent, LocOf, Volume.TableSectors;
    var head, iso, jol := v.HeadBlocks(), Extents(v.Recs(false)), Extents(v.Recs(true));
    HeadOffset(v, 9);
    WholeOffset(head);
    ExtentOffset(v, false, |v.ds|);
    ExtentOffset(v, true, |v.ds|);
    WholeOffset(iso);
    WholeOffset(jol);
    FlattenConcat(head, iso);
    FlattenConcat(head + iso, jol);
  }

  // ----- files

  /** The files are placed one after another, and each one is in the source tree. */
  ghost predicate Placed(root: Node, fs: seq<DirFile>) {
    forall k :: 0 <= k < |fs| ==>
      && fs[k].rLBA == SectorsOf(fs[..k])
      && fs[k].size == |FileData(root, fs[k].path)|
  }

  lemma {:induction false} SectorsConcat(a: seq<DirFile>, b: seq<DirFile>)
    ensures SectorsOf(a + b) == SectorsOf(a) + SectorsOf(b)
  {
    if a == [] {
      assert a + b == b;
    } else {
      SectorsConcat(a[1..], b);
      assert (a + b)[1..] == a[1..] + b;
    }
  }

  lemma {:induction false} AllFilesSnoc(ds: seq<DirItem>, d: DirItem)
    ensures AllFiles(ds + [d]) == AllFiles(ds) + d.files
  {
    if ds == [] {
      assert (ds + [d])[1..] == [];
    } else {
      AllFilesSnoc(ds[1..], d);
      assert (ds + [d])[1..] == ds[1..] + [d];
    }
  }

  lemma {:induction false} AllFilesSectors(ds: seq<DirItem>)
    ensures SectorsOf(AllFiles(ds)) == TotalSectors(ds)
  {
    if ds != [] {
      AllFilesSectors(ds[1..]);
      SectorsConcat(ds[0].files, AllFiles(ds[1..]));
    }
  }

  lemma {:induction false} PlacedFiles(dir: Path, es: seq<Entry>, lba: nat, k: nat)
    requires forall e :: e in es ==> e.node.FileNode?
    requires k < |es|
    ensures var fs := PlaceFiles(dir, es, lba);
      && fs[k].rLBA == lba + SectorsOf(fs[..k])
      && fs[k].path == dir + [es[k].name] && fs[k].name == es[k].name
      && fs[k].size == |es[k].node.data| && fs[k].stamp == es[k].node.stamp
  {
    if k > 0 {
      var e := es[0];
      PlacedFiles(dir, es[1..], lba + CeilSectors(|e.node.data|), k - 1);
      var fs := PlaceFiles(dir, es, lba);
      assert fs[1..] == PlaceFiles(dir, es[1..], lba + CeilSectors(|e.node.data|));
      assert fs[..k][1..] == fs[1..][..k - 1];
      assert e in es;
    }
  }

  lemma {:induction false} ScanPlaces(root: Node, rootName: Name, ds: seq<DirItem>, n: nat)
    requires ScanDone(root, rootName, ds) && n <= |ds|
    ensures Placed(root, AllFiles(ds[..n]))
  {
    hide ScanDone, FileData, TotalSectors, SectorsOf;
    if n > 0 {
      hide Placed, AllFiles;
      var d := ds[n - 1];
      ScanPlaces(root, rootName, ds, n - 1);
      assert ds[..n] == ds[..n - 1] + [d];
      AllFilesSnoc(ds[..n - 1], d);
      AllFilesSectors(ds[..n - 1]);
      ItemFiles(root, rootName, ds, n - 1);
      PlacedConcat(root, AllFiles(ds[..n - 1]), d.files);
    }
  }

  lemma ItemFiles(root: Node, rootName: Name, ds: seq<DirItem>, d: nat)
    requires ScanDone(root, rootName, ds) && d < |ds|
    ensures var fs := ds[d].files;
      forall k :: 0 <= k < |fs| ==>
        fs[k].rLBA == TotalSectors(ds[..d]) + SectorsOf(fs[..k]) && fs[k].size == |FileData(root, fs[k].path)|
  {
    hide ScanDone, FileData, TotalSectors, SectorsOf, Listing, IsDirAt;
    forall k | 0 <= k < |ds[d].files|
      ensures ds[d].files[k].rLBA == TotalSectors(ds[..d]) + SectorsOf(ds[d].files[..k])
      ensures ds[d].files[k].size == |FileData(root, ds[d].files[k].path)|
    {
      ItemFile(root, rootName, ds, d, k);
    }
  }

  lemma PlacedConcat(root: Node, a: seq<DirFile>, b: seq<DirFile>)
    requires Placed(root, a)
    requires forall k :: 0 <= k < |b| ==>
      b[k].rLBA == SectorsOf(a) + SectorsOf(b[..k]) && b[k].size == |FileData(root, b[k].path)|
    ensures Placed(root, a + b)
  {
    hide FileData;
    forall k | 0 <= k < |a + b|
      ensures (a + b)[k].rLBA == SectorsOf((a + b)[..k]) && (a + b)[k].size == |FileData(root, (a + b)[k].path)|
    {
      if k < |a| {
        assert (a + b)[..k] == a[..k];
      } else {
        SectorsConcat(a, b[..k - |a|]);
        assert (a + b)[..k] == a + b[..k - |a|];
        assert (a + b)[k] == b[k - |a|];
      }
    }
  }

  /** A scanned file is the source tree's file, placed after its predecessors. */
  lemma ItemFile(root: Node, rootName: Name, ds: seq<DirItem>, d: nat, k: nat)
    requires ScanDone(root, rootName, ds) && d < |ds| && k < |ds[d].files|
    ensures IsDirAt(root, ds[d].path)
    ensures var es := FilesOf(Listing(root, ds[d].path));
      var f := ds[d].files[k];
      && |es| == |ds[d].files|
      && f.rLBA == TotalSectors(ds[..d]) + SectorsOf(ds[d].files[..k])
      && f.name == es[k].name && f.stamp == es[k].node.stamp && es[k].node.FileNode?
      && FileData(root, f.path) == es[k].node.data
      && f.size == |es[k].node.data|
  {
    var p := ds[d].path;
    assert PathsOf(ds)[d] == p && p in PathsOf(ds) + [];
    assert ds[d] == ItemAt(root, rootName, p, TotalSectors(ds[..d]));
    hide Scanned;
    var es := FilesOf(Listing(root, p));
    PlacedFiles(p, es, TotalSectors(ds[..d]), k);
    assert es[k] in es;
    EntryLookup(root, p, es[k]);
  }

  lemma {:induction false} FileOffset(root: Node, fs: seq<DirFile>, k: nat)
    requires Placed(root, fs) && k <= |fs|
    ensures Offset(FileBlocks(root, fs), k) == SectorsOf(fs[..k]) * SECTOR_SIZE
  {
    hide FileData, CeilSectors, FloorSectors;
    if k > 0 {
      FileOffset(root, fs, k - 1);
      OffsetNext(FileBlocks(root, fs), k - 1);
      assert fs[..k] == fs[..k - 1] + [fs[k - 1]];
      SectorsConcat(fs[..k - 1], [fs[k - 1]]);
      assert [fs[k - 1]][1..] == [];
    }
  }

  // ----- the image

  /** A block of the encoded structures is found in the image at its own position. */
  lemma FsBlockInImage(v: Volume, k: nat)
    requires v.Valid() && v.Encodable() && k < |v.FsBlocks()|
    ensures var from := Offset(v.FsBlocks(), k);
      && from + |v.FsBlocks()[k]| <= |v.Image()|
      && v.Image()[from..from + |v.FsBlocks()[k]|] == v.FsBlocks()[k]
  {
    hide Volume.Valid, Volume.Encodable, Volume.FsBlocks, Flatten, FileBlocks;
    var fs, rest := v.FsBlocks(), FileBlocks(v.root, AllFiles(v.ds)) + [Zeros(v.PadSectors() * SECTOR_SIZE)];
    assert fs + rest == fs + FileBlocks(v.root, AllFiles(v.ds)) + [Zeros(v.PadSectors() * SECTOR_SIZE)];
    BlockAt(fs + rest, k);
    assert (fs + rest)[..k] == fs[..k];
  }

  /** Every directory lies at its '.' location and decodes from exactly its records. */
  lemma DirectoryInImage(v: Volume, joliet: bool, d: nat)
    requires v.Valid() && v.Encodable() && d < |v.ds|
    ensures |v.Recs(joliet)| == |v.ds|
    ensures var from := (v.DirLBA(joliet) + LocOf(v.ds, d, v.nm, joliet)) * SECTOR_SIZE;
      && from + LenOf(v.ds, d, v.nm, joliet) <= |v.Image()|
      && v.Image()[from..from + LenOf(v.ds, d, v.nm, joliet)] == Extent(v.Recs(joliet)[d])
  {
    hide Volume.Valid, Volume.Encodable, Volume.FsBlocks, Volume.Image, Volume.Recs, Volume.DirLBA, LocOf, LenOf, Extent, Offset;
    var k := 9 + (if joliet then |v.ds| else 0) + d;
    DirectoryOffset(v, joliet, d);
    ExtentLength(v, joliet, d);
    FsBlockInImage(v, k);
  }

  lemma HeadBlockInImage(v: Volume, k: nat)
    requires v.Valid() && v.Encodable() && k < 9
    ensures var from := HeadLBA(v, k) * SECTOR_SIZE;
      && from + |v.HeadBlocks()[k]| <= |v.Image()|
      && v.Image()[from..from + |v.HeadBlocks()[k]|] == v.HeadBlocks()[k]
  {
    hide Volume.Valid, Volume.Encodable, Volume.HeadBlocks, Volume.Image, Volume.Recs, HeadLBA, Flatten;
    HeadOffset(v, k);
    FsBlockInImage(v, k);
    assert v.FsBlocks()[..k] == v.HeadBlocks()[..k];
  }

  /** The descriptors are in sectors 16 and 17. */
  lemma DescriptorInImage(v: Volume, joliet: bool)
    requires v.Valid() && v.Encodable()
    ensures var from := (SYSTEM_AREA_SECTORS + if joliet then 1 else 0) * SECTOR_SIZE;
      && from + SECTOR_SIZE <= |v.Image()|
      && v.Image()[from..from + SECTOR_SIZE] == v.DescriptorBlock(joliet)
  {
    hide Volume.Valid, Volume.Encodable, Volume.HeadBlocks, Volume.Image, Volume.DescriptorBlock;
    HeadDescriptors(v);
    if joliet {
      HeadBlockInImage(v, 2);
    } else {
      HeadBlockInImage(v, 1);
    }
  }

  lemma HeadDescriptors(v: Volume)
    requires v.Valid() && v.Encodable()
    ensures v.HeadBlocks()[1] == v.DescriptorBlock(false)
    ensures v.HeadBlocks()[2] == v.DescriptorBlock(true)
  {
    hide Volume.Valid, Volume.Encodable, Volume.TableBlock, Volume.DescriptorBlock, Volume.SystemArea, Terminator, Zeros;
  }

  /** Each path table lies where the descriptors say, in both byte orders. */
  lemma TableInImage(v: Volume, joliet: bool, little: bool)
    requires v.Valid() && v.Encodable()
    ensures var from := v.TableLBA(joliet, little) * SECTOR_SIZE;
      && from + PathTableSize(v.Table(joliet)) <= |v.Image()|
      && v.Image()[from..from + PathTableSize(v.Table(joliet))] == PathTableBytes(v.FinalTable(joliet), little)
  {
    hide Volume.Valid, Volume.Encodable, Volume.Image, Volume.Table, Volume.FinalTable;
    TableBlockInImage(v, joliet, little);
    TableBlockSize(v, joliet, little);
    var from := v.TableLBA(joliet, little) * SECTOR_SIZE;
    var block, size := v.TableBlock(joliet, little), PathTableSize(v.Table(joliet));
    assert v.Image()[from..from + |block|][..size] == v.Image()[from..from + size];
  }

  lemma TableBlockInImage(v: Volume, joliet: bool, little: bool)
    requires v.Valid() && v.Encodable()
    ensures var from := v.TableLBA(joliet, little) * SECTOR_SIZE;
      && from + |v.TableBlock(joliet, little)| <= |v.Image()|
      && v.Image()[from..from + |v.TableBlock(joliet, little)|] == v.TableBlock(joliet, little)
  {
    hide Volume.Valid, Volume.Encodable, Volume.HeadBlocks, Volume.Image, Volume.TableBlock, Volume.TableLBA;
    HeadTables(v);
    if joliet {
      if little { HeadBlockInImage(v, 7); } else { HeadBlockInImage(v, 8); }
    } else {
      if little { HeadBlockInImage(v, 5); } else { HeadBlockInImage(v, 6); }
    }
  }

  lemma FilesPlaced(v: Volume)
    requires v.Valid()
    ensures Placed(v.root, AllFiles(v.ds))
    ensures SectorsOf(AllFiles(v.ds)) == TotalSectors(v.ds)
  {
    ScanPlaces(v.root, v.rootName, v.ds, |v.ds|);
    assert v.ds[..|v.ds|] == v.ds;
    AllFilesSectors(v.ds);
  }

  /** Every file lies whole at the sector it was given, from the first file sector on. */
  lemma FileInImage(v: Volume, k: nat)
    requires v.Valid() && v.Encodable() && k < |AllFiles(v.ds)|
    ensures var f := AllFiles(v.ds)[k];
      var from := (v.FilesLBA() + f.rLBA) * SECTOR_SIZE;
      && f.size == |FileData(v.root, f.path)|
      && from + AlignUp(f.size) <= v.UsedSectors() * SECTOR_SIZE <= |v.Image()|
      && v.Image()[from..from + AlignUp(f.size)] == PadSector(FileData(v.root, f.path))
  {
    hide Volume.Valid, Volume.Encodable, Volume.FsBlocks, Flatten, FileData, Volume.FilesLBA, AlignUp, SectorsOf;
    var fs, files, pad := v.FsBlocks(), FileBlocks(v.root, AllFiles(v.ds)), [Zeros(v.PadSectors() * SECTOR_SIZE)];
    FilesPlaced(v);
    FsSize(v);
    FileOffset(v.root, AllFiles(v.ds), k);
    OffsetInConcat(fs, files + pad, k);
    assert fs + (files + pad) == fs + files + pad;
    assert (files + pad)[..k] == files[..k];
    BlockAt(fs + files + pad, |fs| + k);
    ImageSize(v);
    WithinFiles(AllFiles(v.ds), k);
  }

  lemma WithinFiles(fs: seq<DirFile>, k: nat)
    requires k < |fs|
    ensures SectorsOf(fs[..k]) * SECTOR_SIZE + AlignUp(fs[k].size) <= SectorsOf(fs) * SECTOR_SIZE
  {
    SectorsConcat(fs[..k], fs[k..]);
    assert fs == fs[..k] + fs[k..];
  }

  lemma ImageSize(v: Volume)
    requires v.Valid() && v.Encodable()
    ensures |v.Image()| == v.VolumeSectors() * SECTOR_SIZE
  {
    hide Volume.Valid, Volume.Encodable, Volume.FsBlocks, Flatten, FileData, Volume.FilesLBA;
    var fs, files, pad := v.FsBlocks(), FileBlocks(v.root, AllFiles(v.ds)), Zeros(v.PadSectors() * SECTOR_SIZE);
    FilesPlaced(v);
    FsSize(v);
    FileOffset(v.root, AllFiles(v.ds), |AllFiles(v.ds)|);
    assert AllFiles(v.ds)[..|AllFiles(v.ds)|] == AllFiles(v.ds);
    WholeOffset(files);
    FlattenConcat(fs, files);
    FlattenSnoc(fs + files, pad);
  }

  /** At least 32 sectors of padding, up to a multiple of 32. */
  lemma Padding(v: Volume)
    requires v.Valid()
    ensures 32 <= v.PadSectors() < 64 && v.VolumeSectors() % 32 == 0
    ensures v.UsedSectors() == v.FilesLBA() + SectorsOf(AllFiles(v.ds))
  {
    hide Volume.Valid, Volume.FilesLBA, AllFiles, SectorsOf, TotalSectors, PadSectorsFor;
    FilesPlaced(v);
    PaddingOf(v.UsedSectors());
  }

  lemma PaddingOf(used: nat)
    ensures 32 <= PadSectorsFor(used) < 64 && (used + PadSectorsFor(used)) % 32 == 0
  {
  }
}
