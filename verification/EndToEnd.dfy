/** What a client that reads the served image finds in it. */
module EndToEnd {
  import opened Wrappers
  import opened Arithmetic
  import opened Bytes
  import opened Sectors
  import opened Records
  import opened SourceTree
  import opened Scan
  import opened ScanOrder
  import opened Build
  import opened Links
  import opened Clashes
  import opened Blocks
  import opened Layout
  import opened Volumes
  import opened Files
  import opened Positions
  import opened Walk
  import opened Serving
  import opened VirtualIso
  import opened Recovery

  /** An image that is being served shows exactly the source tree to an independent
      reader, in each hierarchy that tells all subdirectories from their siblings and
      fits the format. */
  lemma ServedImageRecoversTree(viso: VirtualISO, joliet: bool, depth: nat)
    requires viso.Serving()
    requires Unambiguous(viso.root, viso.nm, joliet)
    requires viso.vol.Valid() && FitsFormat(viso.vol, joliet)
    requires Height(viso.root) <= depth
    ensures viso.root.DirNode?
    ensures ReadVolume(viso.image, joliet, depth) == Some(Denote(viso.root, viso.nm, joliet))
  {
    hide VirtualISO.Sized, VirtualISO.Located, VirtualISO.Ready, Volume.Valid, Volume.Encodable, Volume.Image;
    hide ClashFree, Unambiguous, ScanDone, FitsFormat, ReadVolume, Denote, Height;
    VolumeFacts(viso.vol);
    ClashFreeIffUnambiguous(viso.root, viso.rootName, viso.vol.ds, viso.nm, joliet);
    ImageRecoversTree(viso.vol, joliet, depth);
  }

  /** A client that goes to a sector and reads on from there, a chosen number of sectors at
      a time: the pieces make up the image, however they are cut. */
  method ReadRun(viso: VirtualISO, first: nat, counts: seq<nat>) returns (got: seq<Byte>)
    requires viso.Ready() && !viso.isClosed
    requires forall f :: f in viso.files ==> f.size > 0
    requires (first + Sum(counts)) * SECTOR_SIZE <= |viso.image|
    modifies viso`offset
    ensures viso.Ready()
    ensures got == viso.image[first * SECTOR_SIZE..(first + Sum(counts)) * SECTOR_SIZE]
  {
    hide VirtualISO.Ready;
    var _, _ := viso.Seek(first * SECTOR_SIZE, SeekStart);
    ReadySize(viso);
    got := [];
    for k := 0 to |counts|
      invariant viso.Ready() && first + Sum(counts[..k]) <= first + Sum(counts)
      invariant viso.offset == (first + Sum(counts[..k])) * SECTOR_SIZE
      invariant got == viso.image[first * SECTOR_SIZE..viso.offset]
    {
      assert counts[..k + 1][..k] == counts[..k];
      SumPrefix(counts, k + 1);
      ghost var from := viso.offset;
      var piece := ReadPiece(viso, first + Sum(counts[..k]), counts[k]);
      SliceOnward(viso.image, first * SECTOR_SIZE, from, viso.offset);
      got := got + piece;
    }
    assert counts[..|counts|] == counts;
  }

  lemma SliceOnward(s: seq<Byte>, a: nat, b: nat, c: nat)
    requires a <= b <= c <= |s|
    ensures s[a..b] + s[b..c] == s[a..c]
  {
  }

  lemma ReadySize(viso: VirtualISO)
    requires viso.Ready()
    ensures viso.totalSize == |viso.image|
  {
  }

  /** One read of whole sectors. */
  method ReadPiece(viso: VirtualISO, first: nat, count: nat) returns (piece: seq<Byte>)
    requires viso.Ready() && !viso.isClosed && viso.offset == first * SECTOR_SIZE
    requires forall f :: f in viso.files ==> f.size > 0
    requires (first + count) * SECTOR_SIZE <= |viso.image|
    modifies viso`offset
    ensures viso.Ready() && viso.offset == (first + count) * SECTOR_SIZE
    ensures piece == viso.image[first * SECTOR_SIZE..(first + count) * SECTOR_SIZE]
  {
    hide VirtualISO.Ready, InSomeTail, CrossesEmpty, Shown;
    ReadySize(viso);
    ghost var s, e := first * SECTOR_SIZE, (first + count) * SECTOR_SIZE;
    AlignedReadsAreClean(viso.files, |viso.fsBuf.buf|, s, e);
    var buf := new Byte[count * SECTOR_SIZE];
    var read, res := viso.Read(buf);
    piece := buf[..];
    if count > 0 {
      ShownIsSlice(viso.image, s, piece);
    }
  }

  lemma ShownIsSlice(image: seq<Byte>, s: nat, part: seq<Byte>)
    requires Shown(image, s, part) && s + |part| <= |image|
    ensures part == image[s..s + |part|]
  {
  }

  lemma ServingIsReady(viso: VirtualISO)
    requires viso.Serving()
    ensures viso.Ready()
  {
    hide VirtualISO.Buildable, VirtualISO.Ready;
  }

  /** What such a client has read of the whole volume is the source tree if that is
      unambiguous, and cannot be read as a volume if it is not. */
  method ReadTree(viso: VirtualISO, counts: seq<nat>, joliet: bool, depth: nat) returns (got: seq<Byte>)
    requires viso.Serving() && !viso.isClosed
    requires forall f :: f in viso.files ==> f.size > 0
    requires Sum(counts) * SECTOR_SIZE == |viso.image|
    requires viso.vol.Valid() && FitsFormat(viso.vol, joliet) && NoDots(viso.vol.ds, viso.nm, joliet)
    requires Height(viso.root) <= depth
    modifies viso`offset
    ensures got == viso.image
    ensures viso.root.DirNode? && ValidTree(viso.root)
    ensures ReadVolume(got, joliet, depth)
            == if Unambiguous(viso.root, viso.nm, joliet) then Some(Denote(viso.root, viso.nm, joliet)) else None
  {
    hide VirtualISO.Serving, VirtualISO.Ready, Unambiguous, Volume.Valid, FitsFormat, NoDots, ReadVolume, Denote, Height, ValidTree;
    ServesVolume(viso);
    RecoveredIffUnambiguous(viso.vol, joliet, depth);
    ServingIsReady(viso);
    got := ReadRun(viso, 0, counts);
    assert viso.image[0..|viso.image|] == viso.image;
  }

  lemma ServesVolume(viso: VirtualISO)
    requires viso.Serving()
    ensures viso.vol.Valid() && viso.vol.Encodable() && viso.image == viso.vol.Image()
    ensures viso.vol.root == viso.root && viso.vol.nm == viso.nm
  {
    hide VirtualISO.Sized, VirtualISO.Located, VirtualISO.Ready, Volume.Valid, Volume.Encodable, Volume.Image;
  }

  // ----- PS3 discs

  /** The same volume without the PS3 sectors. */
  function Plain(v: Volume): Volume {
    v.(cfg := v.cfg.(ps3 := None))
  }

  /** PS3 mode moves nothing. */
  lemma SamePositions(v: Volume, joliet: bool, little: bool)
    requires v.Valid() && Plain(v).Valid()
    ensures v.Table(joliet) == Plain(v).Table(joliet) && v.TableLBA(joliet, little) == Plain(v).TableLBA(joliet, little)
    ensures v.DirLBA(joliet) == Plain(v).DirLBA(joliet) && v.FilesLBA() == Plain(v).FilesLBA()
    ensures v.VolumeSectors() == Plain(v).VolumeSectors() && v.PadSectors() == Plain(v).PadSectors()
  {
    hide Volume.Valid, BuildPass, TableOf, PathTableSize, LocOf, TotalSectors, CeilSectors;
  }

  lemma SameRecords(v: Volume, joliet: bool)
    requires v.Valid() && Plain(v).Valid()
    ensures v.Recs(joliet) == Plain(v).Recs(joliet) && v.FinalTable(joliet) == Plain(v).FinalTable(joliet)
    ensures v.Root(joliet) == Plain(v).Root(joliet)
  {
    hide Volume.Valid, BuildPass, Volume.Table, Volume.DirLBA, Volume.FilesLBA;
    SamePositions(v, joliet, true);
  }

  lemma SameBlocks(v: Volume, joliet: bool, little: bool)
    requires v.Valid() && Plain(v).Valid() && |v.cfg.isoVolume| <= 32 && |v.cfg.jolietVolume| <= 32
    ensures v.DescriptorBlock(joliet) == Plain(v).DescriptorBlock(joliet)
    ensures v.TableBlock(joliet, little) == Plain(v).TableBlock(joliet, little)
  {
    hide Volume.Valid, Volume.Recs, Volume.FinalTable, Volume.Root, Volume.Table, Volume.TableLBA, Volume.VolumeSectors;
    SamePositions(v, joliet, true);
    SamePositions(v, joliet, false);
    SameRecords(v, joliet);
  }

  lemma PlainIsValid(v: Volume)
    requires v.Valid() && v.Encodable()
    ensures Plain(v).Valid() && Plain(v).Encodable()
    ensures v.cfg.Valid() && (v.cfg.ps3.Some? ==> v.cfg.ps3.value.Fits())
    ensures |v.cfg.isoVolume| <= 32 && |v.cfg.jolietVolume| <= 32
  {
  }

  /** The blocks between the system area and the directories. */
  ghost function Middle(v: Volume): seq<seq<Byte>>
    requires v.Valid() && |v.cfg.isoVolume| <= 32 && |v.cfg.jolietVolume| <= 32
  {
    [v.DescriptorBlock(false), v.DescriptorBlock(true), Terminator(), Zeros(SECTOR_SIZE),
     v.TableBlock(false, true), v.TableBlock(false, false), v.TableBlock(true, true), v.TableBlock(true, false)]
  }

  ghost function Rest(v: Volume): seq<seq<Byte>>
    requires v.Valid()
  {
    Extents(v.Recs(false)) + Extents(v.Recs(true)) + FileBlocks(v.root, AllFiles(v.ds)) + [Zeros(v.PadSectors() * SECTOR_SIZE)]
  }

  lemma ImageIs(v: Volume)
    requires v.Valid() && v.Encodable() && (v.cfg.ps3.Some? ==> v.cfg.ps3.value.Fits())
    requires |v.cfg.isoVolume| <= 32 && |v.cfg.jolietVolume| <= 32
    ensures v.Image() == v.SystemArea() + Flatten(Middle(v) + Rest(v))
  {
    hide Volume.Valid, Volume.Encodable, Volume.HeadBlocks, Volume.SystemArea, Volume.Recs, Middle, Flatten, Zeros;
    HeadIs(v);
    Regroup(v.SystemArea(), Middle(v), Extents(v.Recs(false)), Extents(v.Recs(true)), FileBlocks(v.root, AllFiles(v.ds)),
            Zeros(v.PadSectors() * SECTOR_SIZE));
    FirstBlock(v.SystemArea(), Middle(v) + Rest(v));
  }

  lemma HeadIs(v: Volume)
    requires v.Valid() && v.Encodable() && (v.cfg.ps3.Some? ==> v.cfg.ps3.value.Fits())
    requires |v.cfg.isoVolume| <= 32 && |v.cfg.jolietVolume| <= 32
    ensures v.HeadBlocks() == [v.SystemArea()] + Middle(v)
  {
    hide Volume.Valid, Volume.Encodable, Volume.SystemArea, Volume.DescriptorBlock, Volume.TableBlock, Terminator, Zeros;
  }

  lemma Regroup(a: seq<Byte>, m: seq<seq<Byte>>, e: seq<seq<Byte>>, f: seq<seq<Byte>>, g: seq<seq<Byte>>, z: seq<Byte>)
    ensures ([a] + m) + e + f + g + [z] == [a] + (m + (e + f + g + [z]))
  {
  }

  lemma FirstBlock(b: seq<Byte>, bs: seq<seq<Byte>>)
    ensures Flatten([b] + bs) == b + Flatten(bs)
  {
    assert ([b] + bs)[1..] == bs;
  }

  lemma SameBehind(v: Volume)
    requires v.Valid() && Plain(v).Valid() && |v.cfg.isoVolume| <= 32 && |v.cfg.jolietVolume| <= 32
    ensures Middle(v) == Middle(Plain(v)) && Rest(v) == Rest(Plain(v))
  {
    hide Volume.Valid, Volume.DescriptorBlock, Volume.TableBlock, Volume.Recs, Volume.PadSectors, Terminator, Zeros;
    SameBlocks(v, false, true);
    SameBlocks(v, false, false);
    SameBlocks(v, true, true);
    SameBlocks(v, true, false);
    SameRecords(v, false);
    SameRecords(v, true);
    SamePositions(v, false, false);
  }

  lemma SystemAreasAgree(v: Volume)
    requires v.Valid() && v.cfg.ps3.Some? && v.cfg.ps3.value.Fits() && Plain(v).Valid()
    ensures v.SystemArea()[2 * SECTOR_SIZE..] == Plain(v).SystemArea()[2 * SECTOR_SIZE..]
  {
    hide Volume.Valid, DiscRanges, DiscInfo, Volume.VolumeSectors;
  }

  lemma DropWithin(a: seq<Byte>, b: seq<Byte>, n: nat)
    requires n <= |a|
    ensures (a + b)[n..] == a[n..] + b
  {
  }

  /** PS3 mode changes the first two sectors and nothing else: every structure keeps its
      position and its contents. */
  lemma Ps3ChangesTwoSectors(v: Volume)
    requires v.Valid() && v.Encodable() && v.cfg.ps3.Some?
    ensures Plain(v).Valid() && Plain(v).Encodable()
    ensures |Plain(v).Image()| == |v.Image()| >= 2 * SECTOR_SIZE
    ensures v.Image()[2 * SECTOR_SIZE..] == Plain(v).Image()[2 * SECTOR_SIZE..]
  {
    hide Volume.Valid, Volume.Encodable, Volume.Image, Volume.SystemArea, Middle, Rest, Flatten;
    PlainIsValid(v);
    ImageIs(v);
    ImageIs(Plain(v));
    SameBehind(v);
    SystemAreasAgree(v);
    DropWithin(v.SystemArea(), Flatten(Middle(v) + Rest(v)), 2 * SECTOR_SIZE);
    DropWithin(Plain(v).SystemArea(), Flatten(Middle(v) + Rest(v)), 2 * SECTOR_SIZE);
  }
}
