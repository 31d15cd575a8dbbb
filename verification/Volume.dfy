/** The image as a function of the scanned directories: predicted positions,
    encoded blocks, and the proof that the two agree. */
module Volumes {
  import opened Wrappers
  import opened Bytes
  import opened Sectors
  import opened Records
  import opened SourceTree
  import opened Scan
  import opened ScanOrder
  import opened Build
  import opened Links
  import opened Blocks
  import opened Layout

  const SYSTEM_AREA_SECTORS: nat := 16
  const VOLUME_DESCRIPTORS: nat := 3
  const BASE_PAD_SECTORS: nat := 0x20

  /** "PlayStation3" */
  const CONSOLE_ID: seq<Byte> := [0x50, 0x6C, 0x61, 0x79, 0x53, 0x74, 0x61, 0x74, 0x69, 0x6F, 0x6E, 0x33]

  /** The game code and the random contents of sector 1. */
  datatype Ps3 = Ps3(gameCode: seq<Byte>, info: seq<Byte>, hash: seq<Byte>) {
    /** Slicing and padding the game code does not panic. */
    predicate Fits() {
      4 <= |gameCode| <= 31 && |info| == 0x1B0 && |hash| == 0x10
    }
  }

  datatype Config = Config(ps3: Option<Ps3>, isoVolume: seq<Byte>, jolietVolume: seq<Byte>, created: seq<Byte>) {
    /** The clock and the random source deliver what is asked of them. */
    predicate Valid() {
      |created| == 17 && (ps3.Some? ==> |ps3.value.info| == 0x1B0 && |ps3.value.hash| == 0x10)
    }
  }

  function FixLBA(rs: seq<Rec>, dirLBA: nat, filesLBA: nat): (r: seq<Rec>)
    ensures |r| == |rs|
    ensures forall i :: 0 <= i < |rs| ==>
              r[i] == rs[i].(loc := rs[i].loc + if rs[i].IsDir() then dirLBA else filesLBA)
    ensures SameIdents(r, rs)
  {
    seq(|rs|, i requires 0 <= i < |rs| => rs[i].(loc := rs[i].loc + if rs[i].IsDir() then dirLBA else filesLBA))
  }

  function FixTable(t: seq<PathEntry>, dirLBA: nat): (r: seq<PathEntry>)
    ensures |r| == |t|
    ensures forall i :: 0 <= i < |t| ==> r[i] == t[i].(loc := t[i].loc + dirLBA)
  {
    seq(|t|, i requires 0 <= i < |t| => t[i].(loc := t[i].loc + dirLBA))
  }

  /** Sector 0 of a PS3 disc: one range that covers the whole volume. */
  function DiscRanges(sectors: nat): (b: seq<Byte>)
    ensures |b| == SECTOR_SIZE
  {
    PadTo(BE32(1) + Zeros(4) + BE32(0) + BE32(sectors - 1), SECTOR_SIZE, 0)
  }

  /** Sector 1 of a PS3 disc. */
  function DiscInfo(p: Ps3): (b: seq<Byte>)
    requires p.Fits()
    ensures |b| == SECTOR_SIZE
  {
    PadTo(PadTo(CONSOLE_ID, 16, 0) + PadTo(p.gameCode[..4] + [0x2D] + p.gameCode[4..], 32, 0x20)
          + Zeros(16) + p.info + p.hash, SECTOR_SIZE, 0)
  }

  /** The contents of the file at `p`. */
  function FileData(root: Node, p: Path): seq<Byte> {
    match Lookup(root, p)
    case Some(FileNode(_, data)) => data
    case _ => []
  }

  function FileBlocks(root: Node, fs: seq<DirFile>): (bs: seq<seq<Byte>>)
    ensures |bs| == |fs|
    ensures forall i :: 0 <= i < |fs| ==> bs[i] == PadSector(FileData(root, fs[i].path))
  {
    seq(|fs|, i requires 0 <= i < |fs| => PadSector(FileData(root, fs[i].path)))
  }

  /** All files of the image in the order in which they were placed. */
  function AllFiles(ds: seq<DirItem>): seq<DirFile> {
    if ds == [] then [] else ds[0].files + AllFiles(ds[1..])
  }

  function Extents(es: seq<seq<Rec>>): (bs: seq<seq<Byte>>)
    ensures |bs| == |es|
    ensures forall d :: 0 <= d < |es| ==> bs[d] == Extent(es[d])
  {
    seq(|es|, d requires 0 <= d < |es| => Extent(es[d]))
  }

  datatype Volume = Volume(root: Node, rootName: Name, ds: seq<DirItem>, nm: Naming, cfg: Config) {

    ghost predicate Valid() {
      && ScanDone(root, rootName, ds)
      && ds != [] && Ordered(ds)
      && cfg.Valid()
    }

    /** The record lists after one build pass. */
    ghost function Built(joliet: bool): (es: seq<seq<Rec>>)
      requires Valid()
      ensures BuiltTo(ds, es, |ds|, nm, joliet)
    {
      BuildPass(ds, |ds|, nm, joliet)
    }

    /** `makePathTable`, before the LBA fix. */
    ghost function Table(joliet: bool): (t: seq<PathEntry>)
      requires Valid()
    {
      BuiltDots(ds, Built(joliet), nm, joliet);
      TableOf(ds, Built(joliet), nm, joliet)
    }

    ghost function TableSectors(joliet: bool): nat
      requires Valid()
    {
      CeilSectors(PathTableSize(Table(joliet)))
    }

    ghost function DirSectors(joliet: bool): nat {
      LocOf(ds, |ds|, nm, joliet)
    }

    /** The first sector of the directories of a hierarchy. */
    ghost function DirLBA(joliet: bool): nat
      requires Valid()
    {
      SYSTEM_AREA_SECTORS + VOLUME_DESCRIPTORS + 1 + 2 * TableSectors(false) + 2 * TableSectors(true)
      + if joliet then DirSectors(false) else 0
    }

    ghost function FilesLBA(): nat
      requires Valid()
    {
      DirLBA(true) + DirSectors(true)
    }

    /** Sectors in front of the padding. */
    ghost function UsedSectors(): nat
      requires Valid()
    {
      FilesLBA() + TotalSectors(ds)
    }

    ghost function PadSectors(): nat
      requires Valid()
    {
      PadSectorsFor(UsedSectors())
    }

    ghost function VolumeSectors(): nat
      requires Valid()
    {
      UsedSectors() + PadSectors()
    }

    /** The final record lists. */
    ghost function Recs(joliet: bool): (es: seq<seq<Rec>>)
      requires Valid()
      ensures BuiltTo(ds, es, |ds|, nm, joliet)
    {
      FixedIsBuilt(ds, Built(joliet), DirLBA(joliet), FilesLBA(), nm, joliet);
      FixAll(Built(joliet), DirLBA(joliet), FilesLBA())
    }

    ghost function FinalTable(joliet: bool): seq<PathEntry>
      requires Valid()
    {
      FixTable(Table(joliet), DirLBA(joliet))
    }

    /** First sector of a path table: little-endian first, Joliet tables last. */
    ghost function TableLBA(joliet: bool, little: bool): nat
      requires Valid()
    {
      SYSTEM_AREA_SECTORS + VOLUME_DESCRIPTORS + 1
      + (if joliet then 2 * TableSectors(false) else 0)
      + (if little then 0 else TableSectors(joliet))
    }

    ghost function DescriptorOf(joliet: bool): Descriptor
      requires Valid()
    {
      Descriptor(if joliet then 2 else 1, if joliet then 0 else 0x20,
                 if joliet then cfg.jolietVolume else cfg.isoVolume,
                 if joliet then [0x25, 0x2F, 0x40] else [],
                 cfg.created, VolumeSectors(), PathTableSize(Table(joliet)),
                 TableLBA(joliet, true), TableLBA(joliet, false),
                 if joliet then JolietRoot else IsoRoot)
    }

    /** Nothing panics while the image is encoded. */
    ghost predicate Encodable()
      requires Valid()
    {
      && |cfg.isoVolume| <= 32 && |cfg.jolietVolume| <= 32
      && PathTableFits(Table(false)) && PathTableFits(Table(true))
      && (cfg.ps3.Some? ==> cfg.ps3.value.Fits())
    }

    ghost function SystemArea(): (b: seq<Byte>)
      requires Valid() && (cfg.ps3.Some? ==> cfg.ps3.value.Fits())
      ensures |b| == SYSTEM_AREA_SECTORS * SECTOR_SIZE
    {
      match cfg.ps3
      case Some(p) => DiscRanges(VolumeSectors()) + DiscInfo(p) + Zeros((SYSTEM_AREA_SECTORS - 2) * SECTOR_SIZE)
      case None => Zeros(SYSTEM_AREA_SECTORS * SECTOR_SIZE)
    }

    ghost function Root(joliet: bool): (r: Rec)
      requires Valid()
      ensures r.ident == DOT
    {
      BuiltDots(ds, Recs(joliet), nm, joliet);
      Recs(joliet)[0][0]
    }

    /** The descriptor, whose root pointer sees the final '.' record. */
    ghost function DescriptorBlock(joliet: bool): (b: seq<Byte>)
      requires Valid() && |cfg.isoVolume| <= 32 && |cfg.jolietVolume| <= 32
      ensures |b| == SECTOR_SIZE
    {
      DescriptorBytes(DescriptorOf(joliet), Root(joliet))
    }

    ghost function TableBlock(joliet: bool, little: bool): seq<Byte>
      requires Valid()
    {
      PadSector(PathTableBytes(FinalTable(joliet), little))
    }

    ghost function HeadBlocks(): (bs: seq<seq<Byte>>)
      requires Valid() && Encodable()
      ensures |bs| == 9
    {
      [SystemArea(), DescriptorBlock(false), DescriptorBlock(true),
       Terminator(), Zeros(SECTOR_SIZE),
       TableBlock(false, true), TableBlock(false, false), TableBlock(true, true), TableBlock(true, false)]
    }

    /** Everything that `writeFSStructures` encodes. */
    ghost function FsBlocks(): seq<seq<Byte>>
      requires Valid() && Encodable()
    {
      HeadBlocks() + Extents(Recs(false)) + Extents(Recs(true))
    }

    /** The flat image. */
    ghost function Image(): seq<Byte>
      requires Valid() && Encodable()
    {
      Flatten(FsBlocks() + FileBlocks(root, AllFiles(ds)) + [Zeros(PadSectors() * SECTOR_SIZE)])
    }
  }

  lemma CfgValid(v: Volume)
    requires v.Valid()
    ensures v.cfg.Valid()
  {
  }

  /** `dirItemList.fixLBA` on the record lists of one hierarchy. */
  function FixAll(es: seq<seq<Rec>>, dirLBA: nat, filesLBA: nat): (r: seq<seq<Rec>>)
    ensures |r| == |es|
    ensures forall d :: 0 <= d < |es| ==> r[d] == FixLBA(es[d], dirLBA, filesLBA)
  {
    seq(|es|, d requires 0 <= d < |es| => FixLBA(es[d], dirLBA, filesLBA))
  }

  lemma FixedIsBuilt(ds: seq<DirItem>, es: seq<seq<Rec>>, dirLBA: nat, filesLBA: nat, nm: Naming, joliet: bool)
    requires BuiltTo(ds, es, |ds|, nm, joliet)
    ensures BuiltTo(ds, FixAll(es, dirLBA, filesLBA), |ds|, nm, joliet)
  {
    hide Skeleton;
    forall d | 0 <= d < |ds|
      ensures SameIdents(FixAll(es, dirLBA, filesLBA)[d], Skeleton(ds, d, nm, joliet))
    {
      assert SameIdents(es[d], Skeleton(ds, d, nm, joliet));
      assert SameIdents(FixLBA(es[d], dirLBA, filesLBA), es[d]);
    }
  }

  lemma BuiltDots(ds: seq<DirItem>, es: seq<seq<Rec>>, nm: Naming, joliet: bool)
    requires BuiltTo(ds, es, |ds|, nm, joliet)
    ensures |es| == |ds|
    ensures forall d :: 0 <= d < |ds| ==> es[d] != [] && es[d][0].ident == DOT
  {
    forall d | 0 <= d < |ds| ensures es[d] != [] && es[d][0].ident == DOT {
      assert SameIdents(es[d], Skeleton(ds, d, nm, joliet));
    }
  }

  function TableOf(ds: seq<DirItem>, es: seq<seq<Rec>>, nm: Naming, joliet: bool): (t: seq<PathEntry>)
    requires |es| == |ds| && forall d :: 0 <= d < |ds| ==> es[d] != []
    ensures |t| == if |ds| < PATH_TABLE_ITEMS_LIMIT then |ds| else PATH_TABLE_ITEMS_LIMIT
    ensures forall i :: 0 <= i < |t| ==> t[i] == PathEntryOf(ds, i, es[i][0], nm, joliet)
  {
    var n := if |ds| < PATH_TABLE_ITEMS_LIMIT then |ds| else PATH_TABLE_ITEMS_LIMIT;
    seq(n, i requires 0 <= i < n => PathEntryOf(ds, i, es[i][0], nm, joliet))
  }

  function PadSectorsFor(used: nat): nat {
    BASE_PAD_SECTORS + if used % BASE_PAD_SECTORS > 0 then BASE_PAD_SECTORS - used % BASE_PAD_SECTORS else 0
  }
}
