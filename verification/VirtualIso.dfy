/** The on-the-fly disk image: its construction from a directory and its reads. */
module VirtualIso {
  import opened Wrappers
  import opened Bytes
  import opened Sectors
  import opened Records
  import opened Encoding
  import opened SourceTree
  import opened Scan
  import opened ScanOrder
  import opened Build
  import opened Links
  import opened Blocks
  import opened Layout
  import opened Volumes
  import opened Positions
  import opened Serving
  import opened Files

  class VirtualISO {
    const root: Node        // the file system below the image's root directory
    const rootName: Name
    const nm: Naming
    const cfg: Config

    var rootDir: seq<DirItem>
    var dirEntry: seq<seq<Rec>>        // records of each item, ISO hierarchy
    var dirEntryJoliet: seq<seq<Rec>>  // records of each item, Joliet hierarchy
    var filesSizeSectors: nat
    var pathTable: seq<PathEntry>
    var pathTableJoliet: seq<PathEntry>
    var descriptors: seq<Descriptor>   // primary, supplementary
    var volumeSizeSectors: nat
    var totalSize: nat
    var padAreaStart: nat
    var padAreaSize: nat
    const fsBuf: Encoder
    var files: seq<FileItem>
    var offset: nat
    var isClosed: bool
    ghost var vol: Volume              // the specification of the image built so far
    ghost var image: seq<Byte>         // the flat image that is served

    constructor (root: Node, rootName: Name, nm: Naming, cfg: Config)
      ensures this.root == root && this.rootName == rootName && this.nm == nm && this.cfg == cfg
      ensures rootDir == [] && dirEntry == [] && dirEntryJoliet == [] && filesSizeSectors == 0
      ensures fresh(fsBuf) && fsBuf.buf == []
    {
      this.root, this.rootName, this.nm, this.cfg := root, rootName, nm, cfg;
      rootDir, dirEntry, dirEntryJoliet, filesSizeSectors := [], [], [], 0;
      pathTable, pathTableJoliet, descriptors, volumeSizeSectors := [], [], [], 0;
      totalSize, padAreaStart, padAreaSize, files := 0, 0, 0, [];
      offset, isClosed := 0, false;
      vol, image := Volume(root, rootName, [], nm, cfg), [];
      fsBuf := new Encoder();
    }

    // ----- scanning

    /** The entries of one directory: files are placed, subdirectories are queued. */
    method PlaceEntries(path: Path, items: seq<Entry>, queue: seq<Path>) returns (files: seq<DirFile>, queue': seq<Path>)
      modifies this`filesSizeSectors
      ensures files == PlaceFiles(path, FilesOf(items), old(filesSizeSectors))
      ensures filesSizeSectors == old(filesSizeSectors) + SectorsOf(files)
      ensures queue' == queue + PathsUnder(path, DirsOf(items))
    {
      hide Placing, PathsUnder, CeilSectors;
      files, queue' := [], queue;
      ghost var lba, added: seq<Path> := filesSizeSectors, [];
      PlacingStarts(path, lba);
      assert items[..0] == [] && queue + added == queue;
      for i := 0 to |items|
        invariant Placing(path, items[..i], lba, files, filesSizeSectors, added)
        invariant queue' == queue + added
      {
        var item := items[i];
        var fullPath := path + [item.name];
        assert items[..i + 1] == items[..i] + [item];
        PlacingStep(path, items[..i], item, lba, files, filesSizeSectors, added);
        if item.node.DirNode? {
          queue' := queue' + [fullPath];
          assert queue + added + [fullPath] == queue + (added + [fullPath]);
          added := added + [fullPath];
        } else {
          var fi := DirFile(fullPath, item.name, |item.node.data|, filesSizeSectors, item.node.stamp);
          files := files + [fi];
          filesSizeSectors := filesSizeSectors + CeilSectors(fi.size);
        }
      }
      assert items[..|items|] == items;
      PlacingIs(path, items, lba, files, filesSizeSectors, added);
    }

    /** One directory of the scan. */
    method ProcessDirectory(path: Path, queue: seq<Path>) returns (queue': seq<Path>)
      requires ValidTree(root) && IsDirAt(root, path)
      requires filesSizeSectors == TotalSectors(rootDir)
      modifies this`rootDir, this`filesSizeSectors
      ensures rootDir == old(rootDir) + [ItemAt(root, rootName, path, old(filesSizeSectors))]
      ensures filesSizeSectors == TotalSectors(rootDir)
      ensures queue' == queue + SubPaths(root, path)
    {
      hide FilesOf, DirsOf, SortByName, TotalSectors, PlaceFiles, SectorsOf, PathsUnder, ValidTree, ItemAt;
      var dir := Lookup(root, path).value;
      var items := SortByName(dir.entries);
      var files;
      files, queue' := PlaceEntries(path, items, queue);
      var item := DirItem(path, if path == [] then rootName else path[|path| - 1], dir.stamp, files);
      ItemIs(root, rootName, path, files, old(filesSizeSectors));
      TotalSnoc(rootDir, item);
      rootDir := rootDir + [item];
    }

    /** Breadth first, so that the files of an image lie in scan order. */
    method ScanDirectory()
      requires ValidTree(root) && root.DirNode?
      requires rootDir == [] && filesSizeSectors == 0
      modifies this`rootDir, this`filesSizeSectors
      ensures ScanDone(root, rootName, rootDir)
      ensures filesSizeSectors == TotalSectors(rootDir)
    {
      var queue: seq<Path> := [[]];
      ScanStart(root, rootName);
      while queue != []
        invariant Scanned(root, rootName, rootDir, queue)
        invariant filesSizeSectors == TotalSectors(rootDir)
        decreases QueueWeight(root, queue)
      {
        hide Scanned, ValidTree, IsDirAt;
        ScanStep(root, rootName, rootDir, queue);
        QueueShrinks(root, queue);
        var dir := queue[0];
        queue := ProcessDirectory(dir, queue[1..]);
      }
    }

    // ----- building the directory records

    function Entries(joliet: bool): seq<seq<Rec>>
      reads this
    {
      if joliet then dirEntryJoliet else dirEntry
    }

    /** The extents of one file; a file that no 32-bit length can hold gets several. */
    method FileExtents(f: DirFile, joliet: bool, recs: seq<Rec>, totalSize: nat) returns (recs': seq<Rec>, totalSize': nat)
      requires totalSize == PredictSize(0, recs)
      ensures recs' == recs + FileRecs(f, nm, joliet)
      ensures totalSize' == PredictSize(0, recs')
    {
      hide PredictSize, AddSize, RecSize, FileRec;
      recs', totalSize' := recs, totalSize;
      var parts, lba := 1, f.rLBA;
      if f.size > MAX_PART_SIZE {
        parts := f.size / MULTI_EXTENT_PART_SIZE;
        if f.size % MULTI_EXTENT_PART_SIZE > 0 {
          parts := parts + 1;
        }
      }
      for i := 0 to parts
        invariant parts == Parts(f.size)
        invariant i < parts ==> lba == f.rLBA + i * (MULTI_EXTENT_PART_SIZE / SECTOR_SIZE)
        invariant recs' == recs + FileRecs(f, nm, joliet)[..i]
        invariant totalSize' == PredictSize(0, recs')
      {
        var entry := Rec(0, lba, 0, f.stamp, nm.Of(f.name + VERSION_SUFFIX, joliet));
        if parts == 1 {
          entry := entry.(len := f.size);
        } else if i == parts - 1 {
          entry := entry.(len := f.size - i * MULTI_EXTENT_PART_SIZE);
        } else {
          entry := entry.(len := MULTI_EXTENT_PART_SIZE, flags := FLAG_MULTI_EXTENT);
          lba := lba + MULTI_EXTENT_PART_SIZE / SECTOR_SIZE;
        }
        FileEntryIs(f, i, nm, joliet, entry);
        assert FileRecs(f, nm, joliet)[..i + 1] == FileRecs(f, nm, joliet)[..i] + [entry];
        PredictSnoc(0, recs', entry);
        recs' := recs' + [entry];
        totalSize' := AddSize(RecSize(entry), totalSize');
      }
      assert FileRecs(f, nm, joliet)[..parts] == FileRecs(f, nm, joliet);
    }

    /** The records of the files of one directory. */
    method FileEntries(files: seq<DirFile>, joliet: bool, recs: seq<Rec>, totalSize: nat) returns (recs': seq<Rec>, totalSize': nat)
      requires totalSize == PredictSize(0, recs)
      ensures recs' == recs + AllFileRecs(files, nm, joliet)
      ensures totalSize' == PredictSize(0, recs')
    {
      hide PredictSize, FileRecs;
      recs', totalSize' := recs, totalSize;
      for k := 0 to |files|
        invariant recs' == recs + AllFileRecs(files[..k], nm, joliet)
        invariant totalSize' == PredictSize(0, recs')
      {
        recs', totalSize' := FileExtents(files[k], joliet, recs', totalSize');
        assert files[..k + 1] == files[..k] + [files[k]];
        AllFileRecsSnoc(files[..k], files[k], nm, joliet);
      }
      assert files[..|files|] == files;
    }

    /** The records of the direct subdirectories, not linked yet. */
    method ChildEntries(i: nat, joliet: bool, recs: seq<Rec>, totalSize: nat) returns (recs': seq<Rec>, totalSize': nat)
      requires i < |rootDir|
      requires totalSize == PredictSize(0, recs)
      ensures recs' == recs + UnlinkedKids(rootDir, Kids(rootDir, i), nm, joliet)
      ensures totalSize' == PredictSize(0, recs')
    {
      hide PredictSize, AddSize, RecSize, KidsListed;
      recs', totalSize' := recs, totalSize;
      ghost var listed: seq<Rec> := [];
      KidsStart(rootDir, rootDir[i].path, nm, joliet);
      for k := 1 to |rootDir|
        invariant KidsListed(rootDir, rootDir[i].path, k, nm, joliet, listed)
        invariant recs' == recs + listed && totalSize' == PredictSize(0, recs')
      {
        var d := rootDir[k];
        KidsStep(rootDir, rootDir[i].path, k, nm, joliet, listed);
        if IsDirectChild(d.path, rootDir[i].path) {
          var entry := ChildRec(d, 0, 0, nm, joliet);
          PredictSnoc(0, recs', entry);
          assert recs + listed + [entry] == recs + (listed + [entry]);
          recs' := recs' + [entry];
          totalSize' := AddSize(RecSize(entry), totalSize');
          listed := listed + [entry];
        }
      }
      KidsAre(rootDir, i, nm, joliet, listed);
    }

    /** The records of item `i`, and the links between it and its parent. */
    method MakeDirEntries(i: nat, joliet: bool)
      requires i < |rootDir| && Ordered(rootDir)
      requires BuiltTo(rootDir, Entries(joliet), i, nm, joliet)
      modifies this`dirEntry, this`dirEntryJoliet
      ensures ParentIdx(rootDir, i) < i
      ensures ParentIdx(rootDir, i) >= 0 ==> old(Entries(joliet))[ParentIdx(rootDir, i)] != []
      ensures Entries(joliet) == BuildStep(rootDir, old(Entries(joliet)), i, nm, joliet)
      ensures Entries(!joliet) == old(Entries(!joliet))
    {
      hide Ordered, BuiltTo, ListSize, PredictSize, AddSize, RecSize, ParentIdx, AllFileRecs, Kids, UnlinkedKids;
      var item, es := rootDir[i], Entries(joliet);
      OrderedAt(rootDir, i);
      StepBuilds(rootDir, es, i, nm, joliet);
      BuiltSize(rootDir, es, i, nm, joliet);

      var dot := Dot(item, CeilSectors(ListSize(es)), 0);
      var dotDot := DotDot(item, 0, 0);
      var parent := ParentIdx(rootDir, i);
      if parent >= 0 {
        dotDot := DotDot(rootDir[parent], es[parent][0].loc, es[parent][0].len);
      }
      var totalSize := AddSize(RecSize(dot), 0);
      totalSize := AddSize(RecSize(dotDot), totalSize);
      PredictTwo(dot, dotDot);
      var recs := [dot, dotDot];
      recs, totalSize := FileEntries(item.files, joliet, recs, totalSize);
      recs, totalSize := ChildEntries(i, joliet, recs, totalSize);
      assert recs == [dot, dotDot] + (AllFileRecs(item.files, nm, joliet) + UnlinkedKids(rootDir, Kids(rootDir, i), nm, joliet));
      SkeletonSize(rootDir, i, recs, nm, joliet);
      totalSize := AlignUp(totalSize);
      recs := recs[0 := recs[0].(len := totalSize)];
      if parent < 0 {
        recs := recs[1 := recs[1].(loc := recs[0].loc, len := recs[0].len)];
      }
      assert recs == FreshRecs(rootDir, es, i, nm, joliet);
      es := es[i := recs];
      if parent >= 0 {
        var childRecord := FindEntry(es[parent], nm.Of(item.name, joliet));
        if childRecord.Some? {
          var k := childRecord.value;
          es := es[parent := es[parent][k := es[parent][k].(loc := recs[0].loc, len := recs[0].len)]];
        }
      }
      if joliet {
        dirEntryJoliet := es;
      } else {
        dirEntry := es;
      }
    }

    /** Both passes over the directories; the lists start out empty. */
    method MakeAllDirEntries(joliet: bool)
      requires Ordered(rootDir)
      requires Entries(joliet) == Unbuilt(|rootDir|)
      modifies this`dirEntry, this`dirEntryJoliet
      ensures Entries(joliet) == BuildPass(rootDir, |rootDir|, nm, joliet)
      ensures Entries(!joliet) == old(Entries(!joliet))
    {
      hide Ordered, BuildStep, BuildPass, BuiltTo, ParentIdx;
      PassStart(rootDir, nm, joliet);
      for i := 0 to |rootDir|
        invariant Entries(joliet) == BuildPass(rootDir, i, nm, joliet)
        invariant Entries(!joliet) == old(Entries(!joliet))
      {
        PassStep(rootDir, i, nm, joliet);
        MakeDirEntries(i, joliet);
      }
    }

    /** One entry per directory, as far as the table's limit allows. */
    method MakePathTable(joliet: bool) returns (t: seq<PathEntry>)
      requires Ordered(rootDir) && BuiltTo(rootDir, Entries(joliet), |rootDir|, nm, joliet)
      ensures |Entries(joliet)| == |rootDir| && forall d :: 0 <= d < |rootDir| ==> Entries(joliet)[d] != []
      ensures t == TableOf(rootDir, Entries(joliet), nm, joliet)
    {
      hide BuiltTo, Skeleton, TableOf, PathEntryOf, ParentIdx, Ordered, ToInt16;
      BuiltDots(rootDir, Entries(joliet), nm, joliet);
      ghost var whole := TableOf(rootDir, Entries(joliet), nm, joliet);
      t := [];
      var i := 0;
      while i < |rootDir| && i < PATH_TABLE_ITEMS_LIMIT
        invariant 0 <= i <= |rootDir| && i <= PATH_TABLE_ITEMS_LIMIT
        invariant t == whole[..i]
      {
        TableEntryIs(rootDir, Entries(joliet), i, nm, joliet);
        var entry := PathEntry(0, 1, DOT);
        if i > 0 {
          var parentIdx := ParentIdx(rootDir, i);
          entry := PathEntry(0, ToInt16(parentIdx + 1), nm.Of(rootDir[i].name, joliet));
        }
        entry := entry.(loc := Entries(joliet)[i][0].loc);
        assert whole[..i + 1] == whole[..i] + [entry];
        t := t + [entry];
        i := i + 1;
      }
    }

    /** Positions and sizes in sectors and bytes. */
    method CalculateSizes(filesLBA: nat)
      modifies this`volumeSizeSectors, this`totalSize, this`padAreaStart, this`padAreaSize
      ensures var used := filesLBA + filesSizeSectors;
        && volumeSizeSectors == used + PadSectorsFor(used)
        && volumeSizeSectors % BASE_PAD_SECTORS == 0
        && totalSize == volumeSizeSectors * SECTOR_SIZE
        && padAreaStart == used * SECTOR_SIZE
        && padAreaSize == PadSectorsFor(used) * SECTOR_SIZE
    {
      var volumeSize := filesLBA + filesSizeSectors;
      var padSectors := BASE_PAD_SECTORS;
      var extraPad := volumeSize % BASE_PAD_SECTORS;
      if extraPad > 0 {
        padSectors := padSectors + BASE_PAD_SECTORS - extraPad;
      }
      volumeSizeSectors := volumeSize + padSectors;
      totalSize := volumeSizeSectors * SECTOR_SIZE;
      padAreaStart := volumeSize * SECTOR_SIZE;
      padAreaSize := padSectors * SECTOR_SIZE;
    }

    /** The descriptors point to the root records; they do not copy them. */
    method MakeVolumeDescriptors()
      modifies this`descriptors
      ensures descriptors == DescriptorsFor(cfg, PathTableSize(pathTable), PathTableSize(pathTableJoliet), volumeSizeSectors)
    {
      var pathTableLLBA := SYSTEM_AREA_SECTORS + VOLUME_DESCRIPTORS + 1;
      var pathTableMLBA := pathTableLLBA + CeilSectors(PathTableSize(pathTable));
      var pathTableJolietLLBA := pathTableMLBA + CeilSectors(PathTableSize(pathTable));
      var pathTableJolietMLBA := pathTableJolietLLBA + CeilSectors(PathTableSize(pathTableJoliet));
      descriptors :=
        [Descriptor(1, 0x20, cfg.isoVolume, [], cfg.created, volumeSizeSectors, PathTableSize(pathTable),
                    pathTableLLBA, pathTableMLBA, IsoRoot),
         Descriptor(2, 0, cfg.jolietVolume, [0x25, 0x2F, 0x40], cfg.created, volumeSizeSectors, PathTableSize(pathTableJoliet),
                    pathTableJolietLLBA, pathTableJolietMLBA, JolietRoot)];
    }

    /** Shift every location behind the structures that precede it. */
    method FixAllLBA(isoLBA: nat, jolietLBA: nat, filesLBA: nat)
      requires |dirEntry| == |dirEntryJoliet| == |rootDir|
      modifies this`rootDir, this`dirEntry, this`dirEntryJoliet
      ensures dirEntry == FixAll(old(dirEntry), isoLBA, filesLBA)
      ensures dirEntryJoliet == FixAll(old(dirEntryJoliet), jolietLBA, filesLBA)
      ensures rootDir == ShiftItems(old(rootDir), filesLBA)
    {
      for i := 0 to |rootDir|
        invariant |rootDir| == |dirEntry| == |dirEntryJoliet| == old(|rootDir|)
        invariant forall k :: 0 <= k < i ==>
          && dirEntry[k] == FixLBA(old(dirEntry)[k], isoLBA, filesLBA)
          && dirEntryJoliet[k] == FixLBA(old(dirEntryJoliet)[k], jolietLBA, filesLBA)
          && rootDir[k] == old(rootDir)[k].(files := ShiftFiles(old(rootDir)[k].files, filesLBA))
        invariant forall k :: i <= k < |rootDir| ==>
          dirEntry[k] == old(dirEntry)[k] && dirEntryJoliet[k] == old(dirEntryJoliet)[k] && rootDir[k] == old(rootDir)[k]
      {
        var fixed := FixDirLBA(dirEntry[i], isoLBA, filesLBA);
        dirEntry := dirEntry[i := fixed];
        fixed := FixDirLBA(dirEntryJoliet[i], jolietLBA, filesLBA);
        dirEntryJoliet := dirEntryJoliet[i := fixed];
        var files := rootDir[i].files;
        for j := 0 to |files|
          invariant |files| == |old(rootDir)[i].files|
          invariant forall k :: 0 <= k < |files| ==>
            files[k] == old(rootDir)[i].files[k].(rLBA := old(rootDir)[i].files[k].rLBA + if k < j then filesLBA else 0)
        {
          files := files[j := files[j].(rLBA := files[j].rLBA + filesLBA)];
        }
        assert files == ShiftFiles(old(rootDir)[i].files, filesLBA);
        rootDir := rootDir[i := rootDir[i].(files := files)];
      }
    }

    method FixTableLBA(t: seq<PathEntry>, dirLBA: nat) returns (r: seq<PathEntry>)
      ensures r == FixTable(t, dirLBA)
    {
      r := t;
      for i := 0 to |t|
        invariant |r| == |t|
        invariant forall k :: 0 <= k < |t| ==> r[k] == if k < i then FixTable(t, dirLBA)[k] else t[k]
      {
        r := r[i := r[i].(loc := r[i].loc + dirLBA)];
      }
    }

    /** The flat list of files; the scan order is already the order of locations. */
    method CollectFiles() returns (r: seq<FileItem>)
      ensures r == SortByLocation(ItemsOf(AllFiles(rootDir)))
    {
      r := [];
      for i := 0 to |rootDir|
        invariant r == ItemsOf(AllFiles(rootDir[..i]))
      {
        assert rootDir[..i + 1] == rootDir[..i] + [rootDir[i]];
        AllFilesSnoc(rootDir[..i], rootDir[i]);
        ghost var before := r;
        for j := 0 to |rootDir[i].files|
          invariant r == before + ItemsOf(rootDir[i].files[..j])
        {
          var file := rootDir[i].files[j];
          r := r + [FileItem(file.path, file.size, file.rLBA)];
        }
        assert rootDir[i].files[..|rootDir[i].files|] == rootDir[i].files;
      }
      assert rootDir[..|rootDir|] == rootDir;
      r := SortByLocation(r);
    }

    /** The fields agree with the specification of the image. */
    ghost predicate Built()
      reads this`vol, this`descriptors, this`volumeSizeSectors, this`totalSize, this`padAreaStart, this`padAreaSize,
            this`dirEntry, this`dirEntryJoliet, this`pathTable, this`pathTableJoliet, this`files
    {
      && vol == Volume(root, rootName, vol.ds, nm, cfg)
      && vol.Valid()
      && Sized()
      && Located()
    }

    /** Sizes and descriptors are final. */
    ghost predicate Sized()
      requires vol.Valid()
      reads this`vol, this`descriptors, this`volumeSizeSectors, this`totalSize, this`padAreaStart, this`padAreaSize
    {
      && descriptors == [vol.DescriptorOf(false), vol.DescriptorOf(true)]
      && volumeSizeSectors == vol.VolumeSectors() && totalSize == vol.VolumeSectors() * SECTOR_SIZE
      && padAreaStart == vol.UsedSectors() * SECTOR_SIZE && padAreaSize == vol.PadSectors() * SECTOR_SIZE
    }

    /** All locations are final. */
    ghost predicate Located()
      requires vol.Valid()
      reads this`vol, this`dirEntry, this`dirEntryJoliet, this`pathTable, this`pathTableJoliet, this`files
    {
      && dirEntry == vol.Recs(false) && dirEntryJoliet == vol.Recs(true)
      && pathTable == vol.FinalTable(false) && pathTableJoliet == vol.FinalTable(true)
      && files == ImageFiles(vol)
    }

    /** Records and path tables exist, but locations are still relative. */
    ghost predicate Mapped()
      reads this
    {
      && vol == Volume(root, rootName, rootDir, nm, cfg)
      && vol.Valid()
      && dirEntry == vol.Built(false) && dirEntryJoliet == vol.Built(true)
      && pathTable == vol.Table(false) && pathTableJoliet == vol.Table(true)
      && filesSizeSectors == TotalSectors(rootDir)
    }

    /** Scan, then both passes, then both path tables. */
    method MapTree()
      requires ValidTree(root) && root.DirNode? && cfg.Valid()
      requires rootDir == [] && dirEntry == [] && dirEntryJoliet == [] && filesSizeSectors == 0
      modifies this
      ensures Mapped()
    {
      hide ScanDone, Ordered, BuildPass, BuiltTo, ValidTree, Volume.Built, Volume.Table, Volume.Valid;
      ScanDirectory();
      DoneOrdered(root, rootName, rootDir);
      dirEntry := Unbuilt(|rootDir|);
      dirEntryJoliet := Unbuilt(|rootDir|);
      MakeAllDirEntries(false);
      MakeAllDirEntries(true);
      vol := Volume(root, rootName, rootDir, nm, cfg);
      pathTable := MakePathTable(false);
      pathTableJoliet := MakePathTable(true);
      BuiltState(vol, dirEntry, dirEntryJoliet, pathTable, pathTableJoliet);
    }

    /** Compute the positions of everything. */
    method Locate() returns (isoLBA: nat, jolietLBA: nat, filesLBA: nat)
      requires Mapped()
      modifies this`descriptors, this`volumeSizeSectors, this`totalSize, this`padAreaStart, this`padAreaSize
      ensures isoLBA == vol.DirLBA(false) && jolietLBA == vol.DirLBA(true) && filesLBA == vol.FilesLBA()
      ensures Sized()
    {
      hide Volume.Valid, Volume.Built, Volume.Table, Volume.Recs, Volume.FinalTable, PathTableSize, ListSize, CeilSectors;
      hide Volume.DirLBA, Volume.FilesLBA, Volume.UsedSectors, Volume.PadSectors, Volume.VolumeSectors, Volume.DescriptorOf;
      hide DescriptorsFor, TotalSectors, PadSectorsFor;
      MappedSizes(vol);
      isoLBA := SYSTEM_AREA_SECTORS + VOLUME_DESCRIPTORS + 1
        + CeilSectors(PathTableSize(pathTable)) * 2
        + CeilSectors(PathTableSize(pathTableJoliet)) * 2;
      jolietLBA := isoLBA + CeilSectors(ListSize(dirEntry));
      filesLBA := jolietLBA + CeilSectors(ListSize(dirEntryJoliet));
      CalculateSizes(filesLBA);
      MakeVolumeDescriptors();
      DescriptorsAre(vol);
    }

    /** Make all locations absolute. */
    method Shift(isoLBA: nat, jolietLBA: nat, filesLBA: nat)
      requires Mapped()
      requires isoLBA == vol.DirLBA(false) && jolietLBA == vol.DirLBA(true) && filesLBA == vol.FilesLBA()
      modifies this`rootDir, this`dirEntry, this`dirEntryJoliet, this`pathTable, this`pathTableJoliet, this`files
      ensures Located()
    {
      hide Volume.Valid, Volume.Built, Volume.Table, Volume.Recs, Volume.FinalTable, Volume.DirLBA, Volume.FilesLBA;
      hide ImageFiles, SortByLocation, AllFiles;
      RecsAreFixed(vol);
      MappedSizes(vol);
      CollectedInOrder(vol);
      FixAllLBA(isoLBA, jolietLBA, filesLBA);
      pathTable := FixTableLBA(pathTable, isoLBA);
      pathTableJoliet := FixTableLBA(pathTableJoliet, jolietLBA);
      files := CollectFiles();
    }

    method BuildFSStructures()
      requires ValidTree(root) && root.DirNode? && cfg.Valid()
      requires rootDir == [] && dirEntry == [] && dirEntryJoliet == [] && filesSizeSectors == 0
      modifies this
      ensures Built()
    {
      hide Sized, Located, Volume.Valid, Volume.Built, Volume.Table;
      MapTree();
      var isoLBA, jolietLBA, filesLBA := Locate();
      Shift(isoLBA, jolietLBA, filesLBA);
    }

    // ----- encoding

    /** `PathTableEntry.EncodeOrdered` for a whole table; not ok is a panic. */
    method EncodePathTable(t: seq<PathEntry>, little: bool) returns (ok: bool)
      modifies fsBuf
      ensures ok <==> PathTableFits(t)
      ensures ok ==> fsBuf.buf == old(fsBuf.buf) + PathTableBytes(t, little)
    {
      hide PathEntryBytes, PathEntrySize, PathTableBytes;
      ghost var encoded := PathTableBytes([], little);
      NoPathEntries(little);
      for i := 0 to |t|
        invariant encoded == PathTableBytes(t[..i], little)
        invariant fsBuf.buf == old(fsBuf.buf) + encoded
        invariant forall k :: 0 <= k < i ==> |t[k].ident| < 256
      {
        hide PathTableFits;
        var e := t[i];
        assert t[..i + 1] == t[..i] + [e];
        PathTableSnoc(t[..i], e, little);
        EntryFits(e, little);
        var start := fsBuf.Size();
        fsBuf.AppendBytes(PathEntryBytes(e, little));
        if PathEntrySize(e) != fsBuf.Size() - start {
          assert e in t && |e.ident| >= 256;
          TooLong(t, e);
          return false;
        }
        encoded := encoded + PathEntryBytes(e, little);
      }
      assert t[..|t|] == t;
      return true;
    }

    /** The two sectors that only PS3 discs have. */
    method EncodePs3Sectors(p: Ps3) returns (ok: bool)
      requires |p.info| == 0x1B0 && |p.hash| == 0x10
      modifies fsBuf
      ensures ok <==> p.Fits()
      ensures ok ==> fsBuf.buf == old(fsBuf.buf) + DiscRanges(volumeSizeSectors) + DiscInfo(p)
    {
      hide BE32, PadTo;
      fsBuf.AppendBytes(PadTo(BE32(1) + Zeros(4) + BE32(0) + BE32(volumeSizeSectors - 1), SECTOR_SIZE, 0));
      if |p.gameCode| < 4 {
        return false;
      }
      ghost var before := fsBuf.buf;
      ok := fsBuf.AppendString(CONSOLE_ID, 16, 0);
      ok := fsBuf.AppendString(p.gameCode[..4] + [0x2D] + p.gameCode[4..], 32, 0x20);
      if !ok {
        return;
      }
      var rest := Zeros(16) + p.info + p.hash;
      fsBuf.AppendBytes(rest);
      fsBuf.AppendZeroes(SECTOR_SIZE - 512);
      InfoSector(p, before, fsBuf.buf);
    }

    /** A descriptor with the root record it points to. */
    method EncodeDescriptor(d: Descriptor, root: Rec) returns (ok: bool)
      requires |d.escapes| <= 32 && |d.created| == 17 && |root.ident| == 1
      modifies fsBuf
      ensures ok <==> DescriptorFits(d)
      ensures ok ==> fsBuf.buf == old(fsBuf.buf) + DescriptorBytes(d, root)
    {
      if |d.volumeId| > 32 {
        return false;
      }
      fsBuf.AppendBytes(DescriptorHead(d));
      fsBuf.EncodeRoot(root);
      fsBuf.AppendBytes(DescriptorTail(d));
      return true;
    }

    /** Encode everything in front of the files; not ok is a panic. */
    method WriteFSStructures() returns (ok: bool)
      requires Built() && fsBuf.buf == []
      modifies fsBuf
      ensures Built()
      ensures ok <==> Buildable()
      ensures ok ==> Encoded()
    {
      hide Built, BuiltTo, Volume.Valid, Volume.Encodable, Volume.HeadBlocks, Volume.FsBlocks, Flatten, Volume.Recs;
      BuiltRecs();
      ok := EncodeHead();
      if ok {
        HeadIsAligned(vol);
        EncodeDirectories(dirEntry);
        EncodeDirectories(dirEntryJoliet);
        FsIsConcat(vol);
      }
    }

    method EncodeDirectories(es: seq<seq<Rec>>)
      requires |fsBuf.buf| % SECTOR_SIZE == 0
      modifies fsBuf
      ensures fsBuf.buf == old(fsBuf.buf) + Flatten(Extents(es))
      ensures |fsBuf.buf| % SECTOR_SIZE == 0
    {
      hide Flatten, Extent, AlignUp, PredictSize;
      ghost var blocks := Extents(es);
      FlattenNone();
      for i := 0 to |es|
        invariant fsBuf.buf == old(fsBuf.buf) + Flatten(blocks[..i])
        invariant |fsBuf.buf| % SECTOR_SIZE == 0
      {
        ExtentSize(es[i]);
        fsBuf.EncodeDirectory(es[i]);
        assert blocks[..i + 1] == blocks[..i] + [blocks[i]];
        FlattenSnoc(blocks[..i], blocks[i]);
      }
      assert blocks[..|es|] == blocks;
    }

    method EncodeSystemArea() returns (ok: bool)
      requires Built()
      modifies fsBuf
      ensures ok <==> (cfg.ps3.Some? ==> cfg.ps3.value.Fits())
      ensures ok ==> fsBuf.buf == old(fsBuf.buf) + vol.SystemArea()
    {
      hide Volume.Valid, Located, DiscRanges, DiscInfo, Zeros, Volume.VolumeSectors, Volume.UsedSectors;
      CfgValid(vol);
      var emptySectorsNeeded := SYSTEM_AREA_SECTORS;
      if cfg.ps3.Some? {
        emptySectorsNeeded := emptySectorsNeeded - 2;
        ok := EncodePs3Sectors(cfg.ps3.value);
        if !ok {
          return;
        }
      }
      fsBuf.AppendZeroes(emptySectorsNeeded * SECTOR_SIZE);
      ok := true;
    }

    /** Each descriptor takes its root record through its pointer, so it sees the
        location that was fixed after the descriptor had been made. */
    method EncodeDescriptors() returns (ok: bool)
      requires Built()
      modifies fsBuf
      ensures ok <==> |cfg.isoVolume| <= 32 && |cfg.jolietVolume| <= 32
      ensures ok ==> fsBuf.buf == old(fsBuf.buf) + vol.DescriptorBlock(false) + vol.DescriptorBlock(true) + Terminator() + Zeros(SECTOR_SIZE)
    {
      hide Volume.Valid, Volume.Recs, DescriptorBytes, Terminator, Zeros, Volume.VolumeSectors, Volume.TableLBA, Volume.Table;
      CfgValid(vol);
      RootsAre(vol);
      ok := EncodeDescriptor(descriptors[0], Deref(descriptors[0].root));
      if ok {
        ok := EncodeDescriptor(descriptors[1], Deref(descriptors[1].root));
        if ok {
          fsBuf.AppendBytes(Terminator());
          fsBuf.AppendZeroes(SECTOR_SIZE);
        }
      }
    }

    /** The record a descriptor points to. */
    function Deref(p: RootPointer): Rec
      requires |dirEntry| > 0 && |dirEntry[0]| > 0 && |dirEntryJoliet| > 0 && |dirEntryJoliet[0]| > 0
      reads this
    {
      match p
      case IsoRoot => dirEntry[0][0]
      case JolietRoot => dirEntryJoliet[0][0]
    }

    method EncodePaddedTable(t: seq<PathEntry>, little: bool) returns (ok: bool)
      requires |fsBuf.buf| % SECTOR_SIZE == 0
      modifies fsBuf
      ensures ok <==> PathTableFits(t)
      ensures ok ==> fsBuf.buf == old(fsBuf.buf) + PadSector(PathTableBytes(t, little))
      ensures ok ==> |fsBuf.buf| % SECTOR_SIZE == 0
    {
      ok := EncodePathTable(t, little);
      if ok {
        AlignUpShift(old(|fsBuf.buf|), |PathTableBytes(t, little)|);
        fsBuf.PadLastSector();
      }
    }

    method EncodePathTables() returns (ok: bool)
      requires Built() && |fsBuf.buf| % SECTOR_SIZE == 0
      modifies fsBuf
      ensures ok <==> PathTableFits(vol.Table(false)) && PathTableFits(vol.Table(true))
      ensures ok ==> fsBuf.buf == old(fsBuf.buf) + vol.TableBlock(false, true) + vol.TableBlock(false, false)
                                  + vol.TableBlock(true, true) + vol.TableBlock(true, false)
    {
      hide Volume.Valid, Volume.Recs, PathTableFits, PathTableBytes, Volume.DirLBA, PadSector;
      FixedTableSize(vol.Table(false), vol.DirLBA(false));
      FixedTableSize(vol.Table(true), vol.DirLBA(true));
      ok := EncodePaddedTable(pathTable, true);
      if ok {
        ok := EncodePaddedTable(pathTable, false);
        if ok {
          ok := EncodePaddedTable(pathTableJoliet, true);
          if ok {
            ok := EncodePaddedTable(pathTableJoliet, false);
          }
        }
      }
    }

    /** System area, descriptors, an empty sector, path tables. */
    method EncodeHead() returns (ok: bool)
      requires Built() && fsBuf.buf == []
      modifies fsBuf
      ensures ok <==> vol.Encodable()
      ensures ok ==> fsBuf.buf == Flatten(vol.HeadBlocks())
    {
      hide Volume.Valid, Volume.DescriptorOf, Volume.DescriptorBlock, Volume.TableBlock, Volume.SystemArea, Terminator, Zeros;
      hide Sized, Located, PathTableFits, Ps3.Fits, Volume.Table, Volume.HeadBlocks;
      ok := EncodeSystemArea();
      if ok {
        ok := EncodeDescriptors();
        if ok {
          ok := EncodePathTables();
          if ok {
            HeadIsConcat(vol);
          }
        }
      }
    }

    /** `NewVirtualISO`. It refuses anything but a directory, and panics exactly when
        something in front of the files does not fit its field. */
    method Init() returns (res: Outcome)
      requires ValidTree(root) && cfg.Valid() && fsBuf.buf == []
      requires rootDir == [] && dirEntry == [] && dirEntryJoliet == [] && filesSizeSectors == 0
      modifies this, fsBuf
      ensures res in {Invalid, OutOfRange, Done}
      ensures res == Invalid <==> !root.DirNode?
      ensures root.DirNode? ==> Built()
      ensures res == Done <==> root.DirNode? && Buildable()
      ensures res == Done ==> Serving() && !isClosed && offset == 0
    {
      if !root.DirNode? {
        return Invalid;
      }
      hide Built, Buildable, Encoded, Serving;
      BuildFSStructures();
      var ok := WriteFSStructures();
      if !ok {
        return OutOfRange;
      }
      Publish();
      res := Done;
    }

    /** Nothing in front of the files is too big for its field. */
    ghost predicate Buildable()
      reads this`vol, this`descriptors, this`volumeSizeSectors, this`totalSize, this`padAreaStart, this`padAreaSize,
            this`dirEntry, this`dirEntryJoliet, this`pathTable, this`pathTableJoliet, this`files
    {
      Built() && vol.Encodable()
    }

    ghost predicate Encoded()
      reads this, fsBuf
    {
      Buildable() && fsBuf.buf == Flatten(vol.FsBlocks())
    }

    /** Reads are served from the flat image of the specification. */
    ghost predicate Serving()
      reads this, fsBuf
    {
      Buildable() && image == vol.Image() && Ready()
    }

    /** Start serving what has been built. */
    method Publish()
      requires Encoded()
      modifies this`image, this`offset, this`isClosed
      ensures Serving() && !isClosed && offset == 0
    {
      hide Built, Flat, ImageFiles, Volume.Valid, Volume.Encodable, Volume.Image, Volume.FsBlocks, Volume.VolumeSectors, Volume.UsedSectors, Volume.PadSectors;
      BuiltFields();
      VolumeIsFlat(vol);
      image := vol.Image();
      offset, isClosed := 0, false;
    }

    lemma BuiltRecs()
      requires Built()
      ensures vol.Valid() && dirEntry == vol.Recs(false) && dirEntryJoliet == vol.Recs(true)
    {
      hide Volume.Valid, Volume.Recs, Volume.FinalTable, Volume.DescriptorOf, Sized, ImageFiles;
    }

    lemma BuiltFields()
      requires Built()
      ensures vol.Valid()
      ensures files == ImageFiles(vol) && root == vol.root
      ensures totalSize == vol.VolumeSectors() * SECTOR_SIZE && padAreaStart == vol.UsedSectors() * SECTOR_SIZE
      ensures padAreaSize == vol.PadSectors() * SECTOR_SIZE
      ensures vol.VolumeSectors() == vol.UsedSectors() + vol.PadSectors()
    {
      hide Volume.Valid;
    }

    // ----- serving

    /** What a read relies on: a flat image behind the encoded bytes and the file list. */
    ghost predicate Ready()
      reads this`image, this`files, this`totalSize, this`padAreaStart, this`padAreaSize, fsBuf
    {
      && Flat(image, fsBuf.buf, root, files, padAreaStart)
      && |fsBuf.buf| % SECTOR_SIZE == 0 && padAreaStart % SECTOR_SIZE == 0
      && padAreaStart < totalSize == |image| && padAreaSize == totalSize - padAreaStart
    }

    /** The part of a read at image position `off` that one file delivers, into the
        buffer from `pos` on. The padding is always written as a whole tail. */
    method ServeFile(buf: array<Byte>, pos: nat, off: nat, file: FileItem) returns (n: nat, res: Outcome)
      requires FileLies(image, root, file) && pos <= buf.Length && pos <= off
      modifies buf
      ensures forall k :: 0 <= k < pos ==> buf[k] == old(buf[k])
      ensures FileAnswer(image, file, off, buf[pos..], n, res)
    {
      hide FileItem.End, FileLies;
      n := 0;
      if off < file.Start() || off >= file.End() {
        return 0, Failed;
      }
      TailSize(file);
      n := ServeContents(buf, pos, off, file);
      ghost var served := n;
      var remain := buf.Length - pos - n;
      if file.size % SECTOR_SIZE > 0 && remain > 0 {
        var toWrite := SECTOR_SIZE - file.size % SECTOR_SIZE;
        if remain < toWrite {
          remain := toWrite;
        }
        if pos + n + toWrite > buf.Length {
          return n, OutOfRange;
        }
        ZeroOut(buf, pos + n, toWrite);
        n := n + toWrite;
        if off <= file.Eof() {
          EndsInImage(image, root, file);
          forall q | pos + served <= q < pos + n ensures buf[q] == image[off - pos + q] {
            PaddingIsZero(image, root, file, off - pos + q);
          }
        }
      }
      return n, Done;
    }

    /** The part of the contents that a read at `off` asks for. */
    method ServeContents(buf: array<Byte>, pos: nat, off: nat, file: FileItem) returns (n: nat)
      requires FileLies(image, root, file) && pos <= buf.Length && file.Start() <= off < file.End()
      modifies buf
      ensures forall k :: 0 <= k < pos ==> buf[k] == old(buf[k])
      ensures n == if off >= file.Eof() then 0 else if buf.Length - pos < file.Eof() - off then buf.Length - pos else file.Eof() - off
      ensures off + n <= |image| && forall q :: pos <= q < pos + n ==> buf[q] == image[off - pos + q]
    {
      hide FileItem.End;
      n := 0;
      var remain := buf.Length - pos;
      var fileOffset := off - file.Start();
      if fileOffset < file.size {
        var data := FileData(root, file.path);
        n := if remain < file.size - fileOffset then remain else file.size - fileOffset;
        CopyInto(buf, pos, data[fileOffset..fileOffset + n]);
        SliceOfSlice(image, file.Start(), file.Eof(), fileOffset, fileOffset + n);
        assert data[fileOffset..fileOffset + n] == image[off..off + n];
      }
    }

    /** The file that owns a position in the files zone. */
    method FindOwner(p: nat) returns (i: nat)
      requires Ready() && |fsBuf.buf| <= p < padAreaStart
      ensures Contiguous(files, |fsBuf.buf|, padAreaStart)
      ensures i < |files| && files[i].Start() <= p < files[i].End()
      ensures forall k :: 0 <= k < |files| ==> FileLies(image, root, files[k])
    {
      hide FileItem.Start, FileItem.End, FileItem.Eof, Flat, FileLies, Contiguous;
      FlatParts(image, fsBuf.buf, root, files, padAreaStart);
      var found;
      i, found := FindFile(files, FloorSectors(p), |fsBuf.buf|, padAreaStart);
      OwnerExists(files, |fsBuf.buf|, padAreaStart, FloorSectors(p) * SECTOR_SIZE);
      assert found;
      OwnerOfFloor(files[i], p);
    }

    /** The files zone of a read that began at `s` and has filled `pos` bytes. */
    method ServeFiles(buf: array<Byte>, pos: nat, s: nat) returns (pos': nat, res: Outcome)
      requires Ready() && pos < buf.Length
      requires |fsBuf.buf| <= s + pos < padAreaStart
      modifies buf
      ensures buf[..pos] == old(buf[..pos]) && pos <= pos' <= buf.Length
      ensures res == LeadOutcome(files, Owner(files, 0, s + pos), LeadAt(files, s + pos), s + buf.Length)
      ensures res == Done ==>
        && (pos' == buf.Length || s + pos' >= padAreaStart)
        && ShownBut(image, files, Owner(files, 0, s + pos), LeadAt(files, s + pos), s + pos, buf[pos..pos'])
    {
      hide FileItem.Start, FileItem.End, Contiguous, LeadOutcome, ShownBut, Owner, LeadAt, Ready;
      var i := FindOwner(s + pos);
      OwnerIs(files, |fsBuf.buf|, padAreaStart, i, s + pos);
      LeadIs(files, s + pos);
      pos', res := ServeFrom(buf, pos, s, i, LeadAt(files, s + pos));
    }

    /** The same, once the file is found that owns the position, which is `c` bytes into it. */
    method ServeFrom(buf: array<Byte>, pos: nat, s: nat, first: nat, ghost c: nat) returns (pos': nat, res: Outcome)
      requires Ready() && pos < buf.Length
      requires first < |files| && s + pos == files[first].Start() + c
      modifies buf
      ensures buf[..pos] == old(buf[..pos]) && pos <= pos' <= buf.Length
      ensures res == LeadOutcome(files, first, c, s + buf.Length)
      ensures res == Done ==>
        (pos' == buf.Length || s + pos' >= padAreaStart) && ShownBut(image, files, first, c, s + pos, buf[pos..pos'])
    {
      hide FileItem.Start, FileItem.End, OnTrack, Boundary, Next, LeadOutcome, ShownBut, Ready;
      ghost var to, e := padAreaStart, s + buf.Length;
      pos' := pos;
      var i, toRead: int, p := first, buf.Length - pos, s + pos;
      ghost var d: nat := c;
      TrackStarts(image, files, to, first, c, s + pos, e);
      assert buf[pos..pos'] == [];
      while i < |files| && toRead > 0
        invariant first <= i <= |files| && pos <= pos' <= buf.Length
        invariant forall k :: 0 <= k < pos ==> buf[k] == old(buf[k])
        invariant ShownBut(image, files, first, c, s + pos, buf[pos..pos'])
        invariant toRead <= 0 ==> pos' == buf.Length && LeadOutcome(files, first, c, e) == Done
        invariant toRead > 0 ==>
          && toRead == e - p && Boundary(files, to, i) <= p && (i > first ==> p == Boundary(files, to, i))
          && s + pos' == Boundary(files, to, i) + d
          && OnTrack(files, to, first, c, i, d, e)
        decreases |files| - i
      {
        var n;
        n, res := ServeNext(buf, pos, pos', s, i, first, c, d);
        if res != Done {
          return pos', res;
        }
        d := Next(files[i], d);
        pos' := pos' + n;
        var read := files[i].End() - p;
        toRead := toRead - read;
        p := p + read;
        i := i + 1;
      }
      if toRead > 0 {
        TrackEnds(files, to, first, c, d, e);
      }
      return pos', Done;
    }

    /** File `i` of such a read, which has filled the buffer up to `pos'`. */
    method ServeNext(buf: array<Byte>, ghost pos: nat, pos': nat, s: nat, i: nat, ghost first: nat, ghost c: nat, ghost d: nat)
      returns (n: nat, res: Outcome)
      requires Ready() && first <= i < |files| && pos <= pos' <= buf.Length
      requires var start := Boundary(files, padAreaStart, i); start + d == s + pos' && start < s + buf.Length
      requires ShownBut(image, files, first, c, s + pos, buf[pos..pos'])
      requires OnTrack(files, padAreaStart, first, c, i, d, s + buf.Length)
      modifies buf
      ensures forall k :: 0 <= k < pos ==> buf[k] == old(buf[k])
      ensures Boundary(files, padAreaStart, i + 1) == files[i].End() >= Boundary(files, padAreaStart, i)
      ensures res != Done ==> LeadOutcome(files, first, c, s + buf.Length) == res
      ensures res == Done ==> pos' + n <= buf.Length && ShownBut(image, files, first, c, s + pos, buf[pos..pos' + n])
      ensures res == Done && s + buf.Length <= files[i].End() ==>
        pos' + n == buf.Length && LeadOutcome(files, first, c, s + buf.Length) == Done
      ensures res == Done && s + buf.Length > files[i].End() ==>
        && s + pos' + n == Boundary(files, padAreaStart, i + 1) + Next(files[i], d)
        && OnTrack(files, padAreaStart, first, c, i + 1, Next(files[i], d), s + buf.Length)
    {
      hide FileItem.Start, FileItem.End, FileItem.Eof, FileItem.InTail, FileAnswer, Flat, FileLies, Contiguous, Next, OnTrack, Boundary;
      hide LeadOutcome, ShownBut, Extended;
      FlatParts(image, fsBuf.buf, root, files, padAreaStart);
      ZerosBehind(image, fsBuf.buf, root, files, padAreaStart);
      ghost var done := buf[pos..pos'];
      n, res := ServeFile(buf, pos', s + pos', files[i]);
      assert buf[pos..pos'] == done;
      FileStep(image, root, files, |fsBuf.buf|, padAreaStart, first, c, i, d, s + pos, done, buf[pos'..], n, res);
      if res == Done {
        assert buf[pos'..][..n] == buf[pos'..pos' + n];
        assert buf[pos..pos' + n] == buf[pos..pos'] + buf[pos'..pos' + n];
      }
    }

    /** The part of a read at `s` that comes from the encoded structures. */
    method ServeFs(buf: array<Byte>, s: nat) returns (read: nat)
      requires Ready()
      modifies buf
      ensures read == if s >= |fsBuf.buf| then 0 else if buf.Length < |fsBuf.buf| - s then buf.Length else |fsBuf.buf| - s
      ensures Shown(image, s, buf[..read])
    {
      hide Flat;
      FsIsFirst(image, fsBuf.buf, root, files, padAreaStart);
      read := 0;
      if s < fsBuf.Size() {
        var end := if s + buf.Length < fsBuf.Size() then s + buf.Length else fsBuf.Size();
        CopyInto(buf, 0, fsBuf.buf[s..end]);
        read := end - s;
        forall q | 0 <= q < read ensures buf[q] == Extended(image, s + q) {
          assert buf[q] == fsBuf.buf[s + q] == image[s + q];
        }
      }
    }

    /** Zeros up to the end of the buffer, however far that is behind the image. */
    method ServePad(buf: array<Byte>, read: nat, s: nat)
      requires Ready() && read <= buf.Length && s + read >= padAreaStart
      modifies buf
      ensures buf[..read] == old(buf[..read]) && Shown(image, s + read, buf[read..])
    {
      hide Flat;
      ZerosBehind(image, fsBuf.buf, root, files, padAreaStart);
      ZeroOut(buf, read, buf.Length - read);
    }

    /** The files and the padding, for a read at `s` that has filled `buf[..read]`. */
    method ServeRest(buf: array<Byte>, read: nat, s: nat) returns (read': nat, res: Outcome)
      requires Ready() && read < buf.Length && |fsBuf.buf| <= s + read < totalSize
      modifies buf
      ensures buf[..read] == old(buf[..read])
      ensures res == LeadOutcome(files, Owner(files, 0, s + read), LeadAt(files, s + read), s + buf.Length)
      ensures res == Done ==>
        && read' == buf.Length
        && ShownBut(image, files, Owner(files, 0, s + read), LeadAt(files, s + read), s + read, buf[read..])
    {
      hide FileItem.Start, FileItem.End, Contiguous, FileLies, Flat, Shown, ShownBut, Extended, Owner, LeadAt, LeadOutcome;
      FlatParts(image, fsBuf.buf, root, files, padAreaStart);
      ghost var p, before := s + read, buf[..read];
      ghost var k, d := Owner(files, 0, p), LeadAt(files, p);
      read' := read;
      if s + read < padAreaStart {
        read', res := ServeFiles(buf, read, s);
        if res != Done {
          return;
        }
        if s + read' < padAreaStart {
          assert buf[read..read'] == buf[read..];
          return;
        }
      } else {
        NoOwner(files, |fsBuf.buf|, padAreaStart, p);
        LeadDone(files, d, s + buf.Length);
        NothingShownBut(image, files, k, d, p);
        assert buf[read..read'] == [];
      }
      ghost var done, all := buf[read..read'], buf[..read'];
      assert all[..read] == before && all[read..] == done;
      ServePad(buf, read', s);
      assert buf[read..] == done + buf[read'..];
      assert buf[..read] == all[..read];
      ZerosBehind(image, fsBuf.buf, root, files, padAreaStart);
      ZerosShownBut(image, files, padAreaStart, k, d, s + read', buf[read'..]);
      ShownButConcat(image, files, k, d, p, done, buf[read'..]);
      return buf.Length, Done;
    }

    /** A read at `s` from all zones that it comes to. */
    method ServeAll(buf: array<Byte>, s: nat) returns (read: nat, res: Outcome)
      requires Ready() && s < totalSize && buf.Length > 0
      modifies buf
      ensures res == ServeOutcome(files, |fsBuf.buf|, s, s + buf.Length)
      ensures res == Done ==> read == buf.Length && ServedRight(image, files, |fsBuf.buf|, s, s + buf.Length, buf[..])
    {
      hide Contiguous, FileLies, Flat, Shown, ShownBut, Owner, LeadAt, LeadOutcome, ServedRight, ServeOutcome;
      FlatParts(image, fsBuf.buf, root, files, padAreaStart);
      ghost var e := s + buf.Length;
      read := ServeFs(buf, s);
      assert s + read == TakeOver(|fsBuf.buf|, s, e);
      ghost var done := buf[..read];
      if s + read < totalSize && read < buf.Length {
        var read';
        read', res := ServeRest(buf, read, s);
        RestDecides(files, |fsBuf.buf|, s, e);
        if res != Done {
          return;
        }
        assert buf[..] == done + buf[read..];
        read := read';
      } else {
        FsDecides(files, |fsBuf.buf|, s, e);
        assert buf[..] == done + buf[read..] && buf[read..] == [];
        NothingShownBut(image, files, Owner(files, 0, e), LeadAt(files, e), e);
        res := Done;
      }
      IsServedRight(image, files, |fsBuf.buf|, padAreaStart, s, e, done, buf[|done|..]);
    }

    /** Reads at the current offset: it ends as `ServeOutcome` says and delivers what
        `ServedRight` says. As long as it does not start inside the padding of a file, this
        means that it fails exactly when it would cross an empty file, panics exactly when
        it would end inside the padding of a file, and otherwise fills the buffer with the
        image, followed by zeros when the buffer reaches beyond its end. */
    method Read(buf: array<Byte>) returns (read: nat, res: Outcome)
      requires Ready()
      modifies buf, this`offset
      ensures Ready()
      ensures isClosed ==> res == Closed
      ensures !isClosed && (old(offset) >= totalSize || buf.Length == 0) ==> res == EndOfFile
      ensures res in {Closed, EndOfFile} ==> read == 0
      ensures offset == if res == Done then old(offset) + read else old(offset)
      ensures !isClosed && old(offset) < totalSize && buf.Length > 0 ==>
        var s, e := old(offset), old(offset) + buf.Length;
        && res == ServeOutcome(files, |fsBuf.buf|, s, e)
        && (res == Done ==> read == buf.Length && ServedRight(image, files, |fsBuf.buf|, s, e, buf[..]))
        && (!InSomeTail(files, s) ==>
              && (res == Failed <==> CrossesEmpty(files, |fsBuf.buf|, s, e))
              && (res == OutOfRange <==> !CrossesEmpty(files, |fsBuf.buf|, s, e) && InSomeTail(files, e))
              && (res == Done <==> !CrossesEmpty(files, |fsBuf.buf|, s, e) && !InSomeTail(files, e))
              && (res == Done ==> Shown(image, s, buf[..])))
    {
      hide InSomeTail, CrossesEmpty, Contiguous, FileLies, Flat, Shown, ServedRight, ServeOutcome;
      FlatParts(image, fsBuf.buf, root, files, padAreaStart);
      OutcomeIs(files, |fsBuf.buf|, offset, offset + buf.Length);
      if isClosed {
        return 0, Closed;
      }
      if offset >= totalSize || buf.Length == 0 {
        return 0, EndOfFile;
      }
      read, res := ServeAll(buf, offset);
      IfClean(image, files, |fsBuf.buf|, padAreaStart, offset, offset + buf.Length, buf[..], res);
      if res == Done {
        offset := offset + read;
      }
    }

    method Seek(position: int, whence: Whence) returns (newOffset: nat, res: Outcome)
      modifies this`offset
      ensures isClosed ==> res == Closed
      ensures !isClosed ==>
        var target := SeekTarget(position, whence, old(offset), totalSize);
        && res == (if target.Some? then Done else Invalid)
        && (res == Done ==> offset == newOffset == target.value)
      ensures res != Done ==> offset == old(offset)
    {
      if isClosed {
        return 0, Closed;
      }
      var target := position;
      match whence {
        case SeekStart =>
        case SeekCurrent => target := target + offset;
        case SeekEnd => target := totalSize + target;
        case OtherWhence => return 0, Invalid;
      }
      if target < 0 || target > totalSize {
        return 0, Invalid;
      }
      offset := target;
      return target, Done;
    }

    method Close()
      modifies this`isClosed
      ensures isClosed
    {
      isClosed := true;
    }
  }

  lemma NothingShownBut(image: seq<Byte>, files: seq<FileItem>, i: nat, d: nat, s: nat)
    requires i <= |files|
    ensures ShownBut(image, files, i, d, s, [])
  {
  }

  lemma ZerosShownBut(image: seq<Byte>, files: seq<FileItem>, to: nat, i: nat, d: nat, s: nat, part: seq<Byte>)
    requires i <= |files| && s >= to && (forall q :: q >= to ==> Extended(image, q) == 0)
    requires Shown(image, s, part)
    ensures ShownBut(image, files, i, d, s, part)
  {
    hide Masked, Extended;
  }

  /** Where nothing is lost in front of the files, that part is as it should be. */
  lemma {:induction false} NotMaskedInFront(files: seq<FileItem>, from: nat, to: nat, i: nat, d: nat, q: nat)
    requires Contiguous(files, from, to) && i <= |files| && q < from
    ensures !Masked(files, i, d, q)
    decreases |files| - i
  {
    if i < |files| {
      hide FileItem.Start, FileItem.End;
      FilesAfter(files, from, to, i);
      if d > files[i].size {
        NotMaskedInFront(files, from, to, i + 1, d - files[i].size, q);
      }
    }
  }

  lemma {:induction false} LeadOutcomes(files: seq<FileItem>, i: nat, d: nat, e: nat)
    requires i <= |files|
    ensures LeadOutcome(files, i, d, e) in {Done, Failed, OutOfRange}
    decreases |files| - i
  {
    hide FileItem.Start, FileItem.End, FileItem.Eof, EmptyBetween, InSomeTail;
    if i < |files| && d > files[i].size {
      LeadOutcomes(files, i + 1, d - files[i].size, e);
    }
  }

  lemma OutcomeIs(files: seq<FileItem>, fsEnd: nat, s: nat, e: nat)
    ensures ServeOutcome(files, fsEnd, s, e) in {Done, Failed, OutOfRange}
  {
    hide LeadOutcome, Owner;
    var p := TakeOver(fsEnd, s, e);
    LeadOutcomes(files, Owner(files, 0, p), LeadAt(files, p), e);
  }

  lemma RestDecides(files: seq<FileItem>, fsEnd: nat, s: nat, e: nat)
    requires TakeOver(fsEnd, s, e) != e
    ensures var p := TakeOver(fsEnd, s, e);
      ServeOutcome(files, fsEnd, s, e) == LeadOutcome(files, Owner(files, 0, p), LeadAt(files, p), e)
  {
  }

  lemma FsDecides(files: seq<FileItem>, fsEnd: nat, s: nat, e: nat)
    requires TakeOver(fsEnd, s, e) == e
    ensures ServeOutcome(files, fsEnd, s, e) == Done
  {
  }

  lemma IsServedRight(image: seq<Byte>, files: seq<FileItem>, from: nat, to: nat, s: nat, e: nat, a: seq<Byte>, b: seq<Byte>)
    requires Contiguous(files, from, to) && s + |a| == TakeOver(from, s, e) && |a| + |b| == e - s && Shown(image, s, a)
    requires a != [] ==> s + |a| <= from
    requires var p := TakeOver(from, s, e); ShownBut(image, files, Owner(files, 0, p), LeadAt(files, p), p, b)
    ensures ServedRight(image, files, from, s, e, a + b)
  {
    hide Contiguous, Owner, LeadAt, Masked, Extended;
    var p := TakeOver(from, s, e);
    var k, d := Owner(files, 0, p), LeadAt(files, p);
    forall q | 0 <= q < |a| ensures a[q] == if Masked(files, k, d, s + q) then 0 else Extended(image, s + q) {
      NotMaskedInFront(files, from, to, k, d, s + q);
    }
    assert ShownBut(image, files, k, d, s, a);
    ShownButConcat(image, files, k, d, s, a, b);
  }

  lemma IfClean(image: seq<Byte>, files: seq<FileItem>, from: nat, to: nat, s: nat, e: nat, part: seq<Byte>, res: Outcome)
    requires Contiguous(files, from, to) && s < e && from <= to && res == ServeOutcome(files, from, s, e)
    requires res == Done ==> ServedRight(image, files, from, s, e, part)
    ensures !InSomeTail(files, s) ==>
      && (res == Failed <==> CrossesEmpty(files, from, s, e))
      && (res == OutOfRange <==> !CrossesEmpty(files, from, s, e) && InSomeTail(files, e))
      && (res == Done <==> !CrossesEmpty(files, from, s, e) && !InSomeTail(files, e))
      && (res == Done ==> Shown(image, s, part))
  {
    hide Contiguous, Owner, LeadAt, Masked, Extended, ServeOutcome, InSomeTail, CrossesEmpty;
    if !InSomeTail(files, s) {
      CleanReads(files, from, to, s, e);
    }
  }

  lemma LeadIs(files: seq<FileItem>, p: nat)
    requires Owner(files, 0, p) < |files|
    ensures LeadAt(files, p) == p - files[Owner(files, 0, p)].Start()
  {
  }

  lemma LeadDone(files: seq<FileItem>, d: nat, e: nat)
    ensures LeadOutcome(files, |files|, d, e) == Done
  {
  }

  lemma TrackStarts(image: seq<Byte>, files: seq<FileItem>, to: nat, i: nat, d: nat, s: nat, e: nat)
    requires i < |files|
    ensures Boundary(files, to, i) == files[i].Start() && OnTrack(files, to, i, d, i, d, e)
    ensures ShownBut(image, files, i, d, s, [])
  {
    hide Masked, LeadOutcome;
  }

  lemma TrackEnds(files: seq<FileItem>, to: nat, i: nat, c: nat, d: nat, e: nat)
    requires i <= |files| && OnTrack(files, to, i, c, |files|, d, e)
    ensures LeadOutcome(files, i, c, e) == Done && Boundary(files, to, |files|) == to
  {
    LeadDone(files, d, e);
    hide LeadOutcome;
  }

  lemma ZerosBehind(image: seq<Byte>, fs: seq<Byte>, root: Node, files: seq<FileItem>, padStart: nat)
    requires Flat(image, fs, root, files, padStart)
    ensures forall p :: padStart <= p ==> Extended(image, p) == 0
  {
  }

  lemma EndsInImage(image: seq<Byte>, root: Node, f: FileItem)
    requires FileLies(image, root, f)
    ensures f.End() <= |image|
  {
  }

  lemma FsIsFirst(image: seq<Byte>, fs: seq<Byte>, root: Node, files: seq<FileItem>, padStart: nat)
    requires Flat(image, fs, root, files, padStart)
    ensures |fs| <= |image| && forall p :: 0 <= p < |fs| ==> image[p] == fs[p]
  {
  }

  lemma PaddingIsZero(image: seq<Byte>, root: Node, f: FileItem, p: nat)
    requires FileLies(image, root, f) && f.Eof() <= p < f.End()
    ensures p < |image| && image[p] == 0
  {
  }

  /** The length of the padding that follows the contents. */
  lemma TailSize(f: FileItem)
    ensures f.End() - f.Eof() == if f.size % SECTOR_SIZE > 0 then SECTOR_SIZE - f.size % SECTOR_SIZE else 0
  {
  }

  // ----- the image of a volume is what reads rely on

  lemma ItemLies(v: Volume, k: nat)
    requires v.Valid() && v.Encodable() && k < |ImageFiles(v)|
    ensures FileLies(v.Image(), v.root, ImageFiles(v)[k])
    ensures |AllFiles(v.ds)| == |ImageFiles(v)|
    ensures ImageFiles(v)[k].rLBA == v.FilesLBA() + SectorsOf(AllFiles(v.ds)[..k])
    ensures ImageFiles(v)[k].size == AllFiles(v.ds)[k].size
  {
    hide Volume.Valid, Volume.Encodable, Volume.Image, Volume.FilesLBA, FileData, SectorsOf, Placed, AlignUp;
    FileInImage(v, k);
    FilesPlaced(v);
    PlacedAt(v.root, AllFiles(v.ds), k);
    PaddedLies(v.Image(), v.root, ImageFiles(v)[k]);
  }

  lemma PlacedAt(root: Node, fs: seq<DirFile>, k: nat)
    requires Placed(root, fs) && k < |fs|
    ensures fs[k].rLBA == SectorsOf(fs[..k]) && fs[k].size == |FileData(root, fs[k].path)|
  {
  }

  lemma PaddedLies(image: seq<Byte>, root: Node, f: FileItem)
    requires f.size == |FileData(root, f.path)|
    requires f.Start() + AlignUp(f.size) <= |image|
    requires image[f.Start()..f.Start() + AlignUp(f.size)] == PadSector(FileData(root, f.path))
    ensures FileLies(image, root, f)
  {
    var padded := PadSector(FileData(root, f.path));
    SliceOfSlice(image, f.Start(), f.End(), 0, f.size);
    assert padded[0..f.size] == FileData(root, f.path);
    forall p | f.Eof() <= p < f.End() ensures image[p] == 0 {
      assert image[p] == padded[p - f.Start()];
    }
  }

  lemma FilesContiguous(v: Volume)
    requires v.Valid()
    ensures Contiguous(ImageFiles(v), v.FilesLBA() * SECTOR_SIZE, v.UsedSectors() * SECTOR_SIZE)
  {
    hide Volume.Valid, Volume.FilesLBA, Contiguous, AllFiles;
    FilesPlaced(v);
    ItemsContiguous(v.root, AllFiles(v.ds), v.FilesLBA());
  }

  lemma ItemsContiguous(root: Node, fs: seq<DirFile>, base: nat)
    requires Placed(root, fs)
    ensures Contiguous(ItemsOf(ShiftFiles(fs, base)), base * SECTOR_SIZE, (base + SectorsOf(fs)) * SECTOR_SIZE)
  {
    hide Placed, FileData, SectorsOf, FileItem.Start, FileItem.End;
    var items := ItemsOf(ShiftFiles(fs, base));
    NothingListed([], 0);
    if fs != [] {
      ItemPlaced(root, fs, base, 0);
      ItemPlaced(root, fs, base, |fs| - 1);
      assert fs[..0] == [] && fs[..|fs|] == fs;
    }
    forall k | 0 <= k < |items| - 1 ensures items[k].End() == items[k + 1].Start() {
      ItemPlaced(root, fs, base, k);
      ItemPlaced(root, fs, base, k + 1);
    }
  }

  lemma ItemPlaced(root: Node, fs: seq<DirFile>, base: nat, k: nat)
    requires Placed(root, fs) && k < |fs|
    ensures var item := ItemsOf(ShiftFiles(fs, base))[k];
      && item.Start() == (base + SectorsOf(fs[..k])) * SECTOR_SIZE
      && item.End() == (base + SectorsOf(fs[..k + 1])) * SECTOR_SIZE
  {
    hide Placed, SectorsOf, CeilSectors;
    PlacedAt(root, fs, k);
    assert fs[..k + 1] == fs[..k] + [fs[k]];
    SectorsSnoc(fs[..k], fs[k]);
    ItemBounds(ItemsOf(ShiftFiles(fs, base))[k]);
  }

  lemma ItemBounds(f: FileItem)
    ensures f.Start() == f.rLBA * SECTOR_SIZE && f.End() == (f.rLBA + CeilSectors(f.size)) * SECTOR_SIZE
  {
  }

  /** The flat image of the specification is the encoded structures, the padded files
      in the order of the list, and zeros. */
  lemma VolumeIsFlat(v: Volume)
    requires v.Valid() && v.Encodable()
    ensures Flat(v.Image(), Flatten(v.FsBlocks()), v.root, ImageFiles(v), v.UsedSectors() * SECTOR_SIZE)
    ensures |Flatten(v.FsBlocks())| % SECTOR_SIZE == 0
    ensures |v.Image()| == v.VolumeSectors() * SECTOR_SIZE && v.PadSectors() > 0
  {
    hide Volume.Valid, Volume.Encodable, Volume.FsBlocks, Flatten, FileLies, ImageFiles, Volume.FilesLBA;
    FsSize(v);
    ImageSize(v);
    FilesContiguous(v);
    ImageParts(v);
    forall k | 0 <= k < |ImageFiles(v)| ensures FileLies(v.Image(), v.root, ImageFiles(v)[k]) {
      ItemLies(v, k);
    }
  }

  lemma ImageParts(v: Volume)
    requires v.Valid() && v.Encodable()
    ensures |Flatten(v.FsBlocks())| <= v.UsedSectors() * SECTOR_SIZE <= |v.Image()|
    ensures v.Image()[..|Flatten(v.FsBlocks())|] == Flatten(v.FsBlocks())
    ensures forall p :: v.UsedSectors() * SECTOR_SIZE <= p < |v.Image()| ==> v.Image()[p] == 0
  {
    hide Volume.Valid, Volume.Encodable, Volume.FsBlocks, Flatten, FileData, Volume.FilesLBA, AllFiles;
    var fs, fileBlocks, pad := v.FsBlocks(), FileBlocks(v.root, AllFiles(v.ds)), Zeros(v.PadSectors() * SECTOR_SIZE);
    FsSize(v);
    ImageSize(v);
    FlattenConcat(fs, fileBlocks);
    FlattenSnoc(fs + fileBlocks, pad);
  }

  lemma HeadIsAligned(v: Volume)
    requires v.Valid() && v.Encodable()
    ensures |Flatten(v.HeadBlocks())| % SECTOR_SIZE == 0
  {
    hide Volume.Valid, Volume.Encodable, Volume.HeadBlocks, Flatten, HeadLBA;
    HeadOffset(v, 9);
    WholeOffset(v.HeadBlocks());
  }

  lemma FsIsConcat(v: Volume)
    requires v.Valid() && v.Encodable()
    ensures Flatten(v.FsBlocks()) == Flatten(v.HeadBlocks()) + Flatten(Extents(v.Recs(false))) + Flatten(Extents(v.Recs(true)))
  {
    hide Volume.Valid, Volume.Encodable, Volume.HeadBlocks, Flatten, Volume.Recs;
    FlattenConcat(v.HeadBlocks(), Extents(v.Recs(false)));
    FlattenConcat(v.HeadBlocks() + Extents(v.Recs(false)), Extents(v.Recs(true)));
  }

  lemma RootsAre(v: Volume)
    requires v.Valid()
    ensures |v.Recs(false)| > 0 && |v.Recs(false)[0]| > 0 && v.Recs(false)[0][0] == v.Root(false)
    ensures |v.Recs(true)| > 0 && |v.Recs(true)[0]| > 0 && v.Recs(true)[0][0] == v.Root(true)
  {
    hide Volume.Recs;
  }

  lemma HeadIsConcat(v: Volume)
    requires v.Valid() && v.Encodable()
    ensures Flatten(v.HeadBlocks()) ==
      [] + v.SystemArea()
      + v.DescriptorBlock(false) + v.DescriptorBlock(true) + Terminator() + Zeros(SECTOR_SIZE)
      + v.TableBlock(false, true) + v.TableBlock(false, false) + v.TableBlock(true, true) + v.TableBlock(true, false)
  {
    FlattenNine(v.SystemArea(), v.DescriptorBlock(false), v.DescriptorBlock(true), Terminator(), Zeros(SECTOR_SIZE),
                v.TableBlock(false, true), v.TableBlock(false, false), v.TableBlock(true, true), v.TableBlock(true, false));
    hide Volume.Valid, Volume.Encodable, Volume.TableBlock, Volume.DescriptorBlock, Volume.SystemArea, Terminator, Zeros, Flatten;
  }

  lemma FlattenNine(a: seq<Byte>, b: seq<Byte>, c: seq<Byte>, d: seq<Byte>, e: seq<Byte>,
                    f: seq<Byte>, g: seq<Byte>, h: seq<Byte>, i: seq<Byte>)
    ensures Flatten([a, b, c, d, e, f, g, h, i]) == [] + a + b + c + d + e + f + g + h + i
  {
    hide Flatten;
    FlattenSnoc([a, b, c, d, e, f, g, h], i);
    FlattenSnoc([a, b, c, d, e, f, g], h);
    FlattenSnoc([a, b, c, d, e, f], g);
    FlattenSnoc([a, b, c, d, e], f);
    FlattenSnoc([a, b, c, d], e);
    FlattenSnoc([a, b, c], d);
    FlattenSnoc([a, b], c);
    FlattenSnoc([a], b);
    FlattenSnoc([], a);
    assert [] + [a] == [a] && [a] + [b] == [a, b] && [a, b] + [c] == [a, b, c];
    assert [a, b, c] + [d] == [a, b, c, d] && [a, b, c, d] + [e] == [a, b, c, d, e];
    assert [a, b, c, d, e] + [f] == [a, b, c, d, e, f] && [a, b, c, d, e, f] + [g] == [a, b, c, d, e, f, g];
    assert [a, b, c, d, e, f, g] + [h] == [a, b, c, d, e, f, g, h];
    assert [a, b, c, d, e, f, g, h] + [i] == [a, b, c, d, e, f, g, h, i];
    assert Flatten([]) == [] by { FlattenNone(); }
  }

  lemma FlattenNone()
    ensures Flatten([]) == []
  {
  }

  lemma TableEntryIs(ds: seq<DirItem>, es: seq<seq<Rec>>, i: nat, nm: Naming, joliet: bool)
    requires |es| == |ds| && forall d :: 0 <= d < |ds| ==> es[d] != []
    requires i < |ds| && i < PATH_TABLE_ITEMS_LIMIT
    ensures var t := TableOf(ds, es, nm, joliet);
      && i < |t|
      && t[i] == if i == 0 then PathEntry(es[i][0].loc, 1, DOT)
                 else PathEntry(es[i][0].loc, ToInt16(ParentIdx(ds, i) + 1), nm.Of(ds[i].name, joliet))
  {
    hide ParentIdx, ToInt16;
  }

  lemma NoPathEntries(little: bool)
    ensures PathTableBytes([], little) == []
  {
  }

  lemma PathTableSnoc(t: seq<PathEntry>, e: PathEntry, little: bool)
    ensures PathTableBytes(t + [e], little) == PathTableBytes(t, little) + PathEntryBytes(e, little)
  {
    assert (t + [e])[..|t|] == t;
  }

  /** The panic of `EncodeOrdered`: the size in a byte is wrong. */
  lemma EntryFits(e: PathEntry, little: bool)
    ensures PathEntrySize(e) == |PathEntryBytes(e, little)| <==> |e.ident| < 256
  {
  }

  lemma TooLong(t: seq<PathEntry>, e: PathEntry)
    requires e in t && |e.ident| >= 256
    ensures !PathTableFits(t)
  {
  }

  lemma InfoSector(p: Ps3, before: seq<Byte>, after: seq<Byte>)
    requires p.Fits()
    requires after == before + PadTo(CONSOLE_ID, 16, 0) + PadTo(p.gameCode[..4] + [0x2D] + p.gameCode[4..], 32, 0x20)
                      + (Zeros(16) + p.info + p.hash) + Zeros(SECTOR_SIZE - 512)
    ensures after == before + DiscInfo(p)
  {
    var a, b := PadTo(CONSOLE_ID, 16, 0), PadTo(p.gameCode[..4] + [0x2D] + p.gameCode[4..], 32, 0x20);
    var body := a + b + Zeros(16) + p.info + p.hash;
    assert PadTo(body, SECTOR_SIZE, 0) == body + Zeros(SECTOR_SIZE - 512);
  }

  /** `listed` are the records of the subdirectories among the first `n` items. */
  ghost predicate KidsListed(ds: seq<DirItem>, p: Path, n: nat, nm: Naming, joliet: bool, listed: seq<Rec>) {
    n <= |ds| && listed == UnlinkedKids(ds, KidsUpTo(ds, p, n), nm, joliet)
  }

  lemma KidsStart(ds: seq<DirItem>, p: Path, nm: Naming, joliet: bool)
    requires |ds| > 0
    ensures KidsListed(ds, p, 1, nm, joliet, [])
  {
  }

  lemma KidsStep(ds: seq<DirItem>, p: Path, k: nat, nm: Naming, joliet: bool, listed: seq<Rec>)
    requires 0 < k < |ds| && KidsListed(ds, p, k, nm, joliet, listed)
    ensures KidsListed(ds, p, k + 1, nm, joliet,
                       if IsDirectChild(ds[k].path, p) then listed + [ChildRec(ds[k], 0, 0, nm, joliet)] else listed)
  {
    hide ChildRec, IsDirectChild;
    UnlinkedSnoc(ds, KidsUpTo(ds, p, k), k, nm, joliet);
  }

  lemma KidsAre(ds: seq<DirItem>, i: nat, nm: Naming, joliet: bool, listed: seq<Rec>)
    requires i < |ds| && KidsListed(ds, ds[i].path, |ds|, nm, joliet, listed)
    ensures listed == UnlinkedKids(ds, Kids(ds, i), nm, joliet)
  {
  }

  lemma UnlinkedSnoc(ds: seq<DirItem>, ks: seq<nat>, k: nat, nm: Naming, joliet: bool)
    requires k < |ds| && forall x :: x in ks ==> x < |ds|
    ensures UnlinkedKids(ds, ks + [k], nm, joliet) == UnlinkedKids(ds, ks, nm, joliet) + [ChildRec(ds[k], 0, 0, nm, joliet)]
  {
  }

  /** Both descriptors, given the sizes of the path tables. */
  function DescriptorsFor(cfg: Config, isoTable: nat, jolietTable: nat, sectors: nat): seq<Descriptor> {
    var first := SYSTEM_AREA_SECTORS + VOLUME_DESCRIPTORS + 1;
    var iso, jol := CeilSectors(isoTable), CeilSectors(jolietTable);
    [Descriptor(1, 0x20, cfg.isoVolume, [], cfg.created, sectors, isoTable, first, first + iso, IsoRoot),
     Descriptor(2, 0, cfg.jolietVolume, [0x25, 0x2F, 0x40], cfg.created, sectors, jolietTable,
                first + 2 * iso, first + 2 * iso + jol, JolietRoot)]
  }

  lemma DescriptorsAre(v: Volume)
    requires v.Valid()
    ensures DescriptorsFor(v.cfg, PathTableSize(v.Table(false)), PathTableSize(v.Table(true)), v.VolumeSectors())
            == [v.DescriptorOf(false), v.DescriptorOf(true)]
  {
    hide Volume.Valid, Volume.Table, PathTableSize, CeilSectors, Volume.VolumeSectors;
  }

  lemma RecsAreFixed(v: Volume)
    requires v.Valid()
    ensures v.Recs(false) == FixAll(v.Built(false), v.DirLBA(false), v.FilesLBA())
    ensures v.Recs(true) == FixAll(v.Built(true), v.DirLBA(true), v.FilesLBA())
    ensures v.FinalTable(false) == FixTable(v.Table(false), v.DirLBA(false))
    ensures v.FinalTable(true) == FixTable(v.Table(true), v.DirLBA(true))
  {
    hide Volume.Valid, Volume.Built, Volume.Table, Volume.DirLBA, Volume.FilesLBA;
  }

  lemma MappedSizes(v: Volume)
    requires v.Valid()
    ensures |v.Built(false)| == |v.Built(true)| == |v.ds|
    ensures v.DirLBA(false) == SYSTEM_AREA_SECTORS + VOLUME_DESCRIPTORS + 1
              + CeilSectors(PathTableSize(v.Table(false))) * 2 + CeilSectors(PathTableSize(v.Table(true))) * 2
    ensures v.DirLBA(true) == v.DirLBA(false) + CeilSectors(ListSize(v.Built(false)))
    ensures v.FilesLBA() == v.DirLBA(true) + CeilSectors(ListSize(v.Built(true)))
    ensures v.UsedSectors() == v.FilesLBA() + TotalSectors(v.ds)
    ensures v.PadSectors() == PadSectorsFor(v.UsedSectors()) && v.VolumeSectors() == v.UsedSectors() + v.PadSectors()
  {
    hide Volume.Valid, Volume.Built, ListSize, LocOf, BuiltTo;
    BuiltSize(v.ds, v.Built(false), |v.ds|, v.nm, false);
    BuiltSize(v.ds, v.Built(true), |v.ds|, v.nm, true);
    StepLocation(v.ds, v.Built(false), |v.ds|, v.nm, false);
    StepLocation(v.ds, v.Built(true), |v.ds|, v.nm, true);
  }

  /** The intermediate results are those of the specification. */
  lemma BuiltState(v: Volume, iso: seq<seq<Rec>>, jol: seq<seq<Rec>>, t: seq<PathEntry>, tj: seq<PathEntry>)
    requires ScanDone(v.root, v.rootName, v.ds) && v.ds != [] && Ordered(v.ds) && v.cfg.Valid()
    requires iso == BuildPass(v.ds, |v.ds|, v.nm, false) && jol == BuildPass(v.ds, |v.ds|, v.nm, true)
    requires |iso| == |jol| == |v.ds|
    requires forall d :: 0 <= d < |v.ds| ==> iso[d] != [] && jol[d] != []
    requires t == TableOf(v.ds, iso, v.nm, false) && tj == TableOf(v.ds, jol, v.nm, true)
    ensures v.Valid()
    ensures iso == v.Built(false) && jol == v.Built(true)
    ensures t == v.Table(false) && tj == v.Table(true)
  {
    hide ScanDone, Ordered, BuildPass;
  }

  lemma {:induction false} ShiftedFiles(ds: seq<DirItem>, filesLBA: nat)
    ensures AllFiles(ShiftItems(ds, filesLBA)) == ShiftFiles(AllFiles(ds), filesLBA)
  {
    if ds != [] {
      ShiftedFiles(ds[1..], filesLBA);
      assert ShiftItems(ds, filesLBA)[1..] == ShiftItems(ds[1..], filesLBA);
    }
  }

  lemma CollectedInOrder(v: Volume)
    requires v.Valid()
    ensures SortByLocation(ItemsOf(AllFiles(ShiftItems(v.ds, v.FilesLBA())))) == ImageFiles(v)
  {
    hide Volume.Valid, Volume.FilesLBA, SortByLocation, AllFiles, SectorsOf;
    ShiftedFiles(v.ds, v.FilesLBA());
    FilesPlaced(v);
    var fs := AllFiles(v.ds);
    forall i, j | 0 <= i < j < |fs| ensures fs[i].rLBA <= fs[j].rLBA {
      SectorsConcat(fs[..i], fs[i..j]);
      assert fs[..j] == fs[..i] + fs[i..j];
    }
    AlreadySorted(ImageFiles(v));
  }

  /** The files of an image with their final locations. */
  ghost function ImageFiles(v: Volume): seq<FileItem>
    requires v.Valid()
  {
    ItemsOf(ShiftFiles(AllFiles(v.ds), v.FilesLBA()))
  }

  /** `fixDirLBA`: directories move by one offset, files by another. */
  method FixDirLBA(entries: seq<Rec>, dirLBA: nat, filesLBA: nat) returns (r: seq<Rec>)
    ensures r == FixLBA(entries, dirLBA, filesLBA)
  {
    r := entries;
    for i := 0 to |entries|
      invariant |r| == |entries|
      invariant forall k :: 0 <= k < |entries| ==> r[k] == if k < i then FixLBA(entries, dirLBA, filesLBA)[k] else entries[k]
    {
      if r[i].IsDir() {
        r := r[i := r[i].(loc := r[i].loc + dirLBA)];
      } else {
        r := r[i := r[i].(loc := r[i].loc + filesLBA)];
      }
    }
  }

  function ShiftFiles(fs: seq<DirFile>, filesLBA: nat): (r: seq<DirFile>)
    ensures |r| == |fs|
    ensures forall i :: 0 <= i < |fs| ==> r[i] == fs[i].(rLBA := fs[i].rLBA + filesLBA)
  {
    seq(|fs|, i requires 0 <= i < |fs| => fs[i].(rLBA := fs[i].rLBA + filesLBA))
  }

  function ShiftItems(ds: seq<DirItem>, filesLBA: nat): (r: seq<DirItem>)
    ensures |r| == |ds|
    ensures forall i :: 0 <= i < |ds| ==> r[i] == ds[i].(files := ShiftFiles(ds[i].files, filesLBA))
  {
    seq(|ds|, i requires 0 <= i < |ds| => ds[i].(files := ShiftFiles(ds[i].files, filesLBA)))
  }

  function ItemsOf(fs: seq<DirFile>): (r: seq<FileItem>)
    ensures |r| == |fs|
    ensures forall i :: 0 <= i < |fs| ==> r[i] == FileItem(fs[i].path, fs[i].size, fs[i].rLBA)
  {
    seq(|fs|, i requires 0 <= i < |fs| => FileItem(fs[i].path, fs[i].size, fs[i].rLBA))
  }

  function InsertByLocation(f: FileItem, fs: seq<FileItem>): seq<FileItem> {
    if fs == [] || f.rLBA <= fs[0].rLBA then [f] + fs else [fs[0]] + InsertByLocation(f, fs[1..])
  }

  /** `slices.SortFunc` by `rLBA`. */
  function SortByLocation(fs: seq<FileItem>): seq<FileItem> {
    if fs == [] then [] else InsertByLocation(fs[0], SortByLocation(fs[1..]))
  }

  /** Sorting has nothing to do: files are collected in the order of their locations. */
  lemma {:induction false} AlreadySorted(fs: seq<FileItem>)
    requires forall i, j :: 0 <= i < j < |fs| ==> fs[i].rLBA <= fs[j].rLBA
    ensures SortByLocation(fs) == fs
  {
    if fs != [] {
      AlreadySorted(fs[1..]);
      assert |fs| > 1 ==> fs[0].rLBA <= fs[1..][0].rLBA;
      assert fs == [fs[0]] + fs[1..];
    }
  }

  lemma PassStart(ds: seq<DirItem>, nm: Naming, joliet: bool)
    requires Ordered(ds)
    ensures BuildPass(ds, 0, nm, joliet) == Unbuilt(|ds|)
  {
  }

  lemma FileEntryIs(f: DirFile, i: nat, nm: Naming, joliet: bool, entry: Rec)
    requires i < Parts(f.size)
    requires entry.loc == f.rLBA + i * (MULTI_EXTENT_PART_SIZE / SECTOR_SIZE)
    requires entry.stamp == f.stamp && entry.ident == nm.Of(f.name + VERSION_SUFFIX, joliet)
    requires Parts(f.size) == 1 ==> entry.len == f.size
    requires i == Parts(f.size) - 1 > 0 ==> entry.len == f.size - i * MULTI_EXTENT_PART_SIZE
    requires i < Parts(f.size) - 1 ==> entry.len == MULTI_EXTENT_PART_SIZE && entry.flags == FLAG_MULTI_EXTENT
    requires i == Parts(f.size) - 1 ==> entry.flags == 0
    ensures entry == FileRec(f, i, nm, joliet)
  {
  }

  lemma {:induction false} PredictSnoc(pos: nat, rs: seq<Rec>, r: Rec)
    ensures PredictSize(pos, rs + [r]) == AddSize(RecSize(r), PredictSize(pos, rs))
    decreases |rs|
  {
    if rs == [] {
      assert (rs + [r])[1..] == [];
    } else {
      PredictSnoc(AddSize(RecSize(rs[0]), pos), rs[1..], r);
      assert (rs + [r])[1..] == rs[1..] + [r];
    }
  }

  lemma PredictTwo(a: Rec, b: Rec)
    ensures PredictSize(0, [a, b]) == AddSize(RecSize(b), AddSize(RecSize(a), 0))
  {
    PredictSnoc(0, [a], b);
    PredictSnoc(0, [], a);
    assert [] + [a] == [a] && [a] + [b] == [a, b];
  }

  lemma {:induction false} AllFileRecsSnoc(fs: seq<DirFile>, f: DirFile, nm: Naming, joliet: bool)
    ensures AllFileRecs(fs + [f], nm, joliet) == AllFileRecs(fs, nm, joliet) + FileRecs(f, nm, joliet)
  {
    hide FileRecs, AllFileRecs;
    AllFileRecsUnfold(fs, nm, joliet);
    AllFileRecsUnfold(fs + [f], nm, joliet);
    if fs == [] {
      assert (fs + [f])[1..] == [];
      AllFileRecsUnfold([], nm, joliet);
    } else {
      AllFileRecsSnoc(fs[1..], f, nm, joliet);
      assert (fs + [f])[1..] == fs[1..] + [f];
    }
  }

  lemma AllFileRecsUnfold(fs: seq<DirFile>, nm: Naming, joliet: bool)
    ensures AllFileRecs(fs, nm, joliet) == if fs == [] then [] else FileRecs(fs[0], nm, joliet) + AllFileRecs(fs[1..], nm, joliet)
  {
  }

  lemma SkeletonSize(ds: seq<DirItem>, i: nat, recs: seq<Rec>, nm: Naming, joliet: bool)
    requires i < |ds| && |recs| >= 2 && recs[0].ident == DOT && recs[1].ident == DOT_DOT
    requires recs[2..] == AllFileRecs(ds[i].files, nm, joliet) + UnlinkedKids(ds, Kids(ds, i), nm, joliet)
    ensures PredictSize(0, recs) == PredictSize(0, Skeleton(ds, i, nm, joliet))
    ensures recs[2..] == Skeleton(ds, i, nm, joliet)[2..]
  {
    SkeletonTail(ds, i, nm, joliet);
    var sk := Skeleton(ds, i, nm, joliet);
    forall k | 0 <= k < |recs| ensures |recs| == |sk| && recs[k].ident == sk[k].ident {
      if k >= 2 {
        assert recs[k] == recs[2..][k - 2] && sk[k] == sk[2..][k - 2];
      }
    }
    SizeByIdents(0, recs, sk);
  }

  lemma ItemIs(root: Node, rootName: Name, path: Path, files: seq<DirFile>, lba: nat)
    requires IsDirAt(root, path)
    requires files == PlaceFiles(path, FilesOf(SortByName(Lookup(root, path).value.entries)), lba)
    ensures ItemAt(root, rootName, path, lba)
            == DirItem(path, if path == [] then rootName else path[|path| - 1], Lookup(root, path).value.stamp, files)
  {
  }

  /** The entries `es` of a directory have been placed: the files from sector `lba` on, up
      to sector `end`, and the subdirectories in the queue. */
  ghost predicate Placing(path: Path, es: seq<Entry>, lba: nat, files: seq<DirFile>, end: nat, added: seq<Path>) {
    && files == PlaceFiles(path, FilesOf(es), lba)
    && end == lba + SectorsOf(files)
    && added == PathsUnder(path, DirsOf(es))
  }

  lemma PlacingStarts(path: Path, lba: nat)
    ensures Placing(path, [], lba, [], lba, [])
  {
  }

  lemma PlacingIs(path: Path, es: seq<Entry>, lba: nat, files: seq<DirFile>, end: nat, added: seq<Path>)
    requires Placing(path, es, lba, files, end, added)
    ensures files == PlaceFiles(path, FilesOf(es), lba) && end == lba + SectorsOf(files)
    ensures added == PathsUnder(path, DirsOf(es))
  {
  }

  /** One more entry. */
  lemma PlacingStep(path: Path, es: seq<Entry>, e: Entry, lba: nat, files: seq<DirFile>, end: nat, added: seq<Path>)
    requires Placing(path, es, lba, files, end, added)
    ensures if e.node.DirNode? then Placing(path, es + [e], lba, files, end, added + [path + [e.name]])
            else var fi := DirFile(path + [e.name], e.name, |e.node.data|, end, e.node.stamp);
              Placing(path, es + [e], lba, files + [fi], end + CeilSectors(fi.size), added)
  {
    hide FilesOf, DirsOf, PlaceFiles, SectorsOf, PathsUnder, CeilSectors;
    ListedSnoc(es, e);
    if e.node.DirNode? {
      PathsUnderSnoc(path, DirsOf(es), e);
    } else {
      PlaceSnoc(path, FilesOf(es), e, lba);
      SectorsSnoc(files, DirFile(path + [e.name], e.name, |e.node.data|, end, e.node.stamp));
    }
  }

  lemma NothingListed(path: Path, lba: nat)
    ensures FilesOf([]) == [] && DirsOf([]) == []
    ensures PlaceFiles(path, [], lba) == [] && SectorsOf([]) == 0 && PathsUnder(path, []) == []
  {
  }

  lemma SectorsSnoc(fs: seq<DirFile>, f: DirFile)
    ensures SectorsOf(fs + [f]) == SectorsOf(fs) + CeilSectors(f.size)
  {
    SectorsConcat(fs, [f]);
    assert [f][1..] == [];
  }

  lemma PathsUnderSnoc(path: Path, es: seq<Entry>, e: Entry)
    ensures PathsUnder(path, es + [e]) == PathsUnder(path, es) + [path + [e.name]]
  {
  }

  lemma ListedCons(x: Entry, es: seq<Entry>)
    ensures FilesOf([x] + es) == (if x.node.FileNode? then [x] else []) + FilesOf(es)
    ensures DirsOf([x] + es) == (if x.node.DirNode? then [x] else []) + DirsOf(es)
  {
    assert ([x] + es)[1..] == es;
  }

  lemma {:induction false} ListedSnoc(es: seq<Entry>, e: Entry)
    ensures FilesOf(es + [e]) == if e.node.FileNode? then FilesOf(es) + [e] else FilesOf(es)
    ensures DirsOf(es + [e]) == if e.node.DirNode? then DirsOf(es) + [e] else DirsOf(es)
  {
    hide FilesOf, DirsOf;
    if es == [] {
      NothingListed([], 0);
      ListedCons(e, []);
      assert es + [e] == [e] + [];
    } else {
      var x, rest := es[0], es[1..];
      ListedSnoc(rest, e);
      ListedCons(x, rest);
      ListedCons(x, rest + [e]);
      assert es == [x] + rest && es + [e] == [x] + (rest + [e]);
    }
  }

  lemma {:induction false} PlaceSnoc(dir: Path, es: seq<Entry>, e: Entry, lba: nat)
    requires forall x :: x in es ==> x.node.FileNode?
    requires e.node.FileNode?
    ensures PlaceFiles(dir, es + [e], lba) == PlaceFiles(dir, es, lba)
            + [DirFile(dir + [e.name], e.name, |e.node.data|, lba + SectorsOf(PlaceFiles(dir, es, lba)), e.node.stamp)]
  {
    if es == [] {
      assert (es + [e])[1..] == [];
    } else {
      assert (es + [e])[1..] == es[1..] + [e];
      PlaceSnoc(dir, es[1..], e, lba + CeilSectors(|es[0].node.data|));
    }
  }
}
