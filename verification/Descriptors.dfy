/** The volume descriptors as a reader of the image finds them, field by field at the byte
    positions of sections 8.4 and 8.5 of ECMA-119. */
module Descriptors {
  import opened Wrappers
  import opened Bytes
  import opened Sectors
  import opened Records
  import opened SourceTree
  import opened Scan
  import opened Build
  import opened Links
  import opened Blocks
  import opened Layout
  import opened Volumes
  import opened Positions
  import opened Walk

  /** The five groups of fields in front of the root record. */
  function Identity(d: Descriptor): (b: seq<Byte>)
    requires DescriptorFits(d)
    ensures |b| == 80
  {
    [d.typ] + CD001 + [1, 0] + PadTo([], 32, d.filler) + PadTo(d.volumeId, 32, d.filler) + Zeros(8)
  }

  function Numbers(d: Descriptor): (b: seq<Byte>)
    ensures |b| == 12
  {
    LE16(1) + BE16(1) + LE16(1) + BE16(1) + LE16(SECTOR_SIZE) + BE16(SECTOR_SIZE)
  }

  function Tables(d: Descriptor): (b: seq<Byte>)
    ensures |b| == 24
  {
    LE32(d.pathTableSize) + BE32(d.pathTableSize) + LE32(d.tableL) + LE32(0) + BE32(d.tableM) + BE32(0)
  }

  lemma HeadGroups(d: Descriptor)
    requires DescriptorFits(d)
    ensures var b := DescriptorHead(d);
      && b[0..80] == Identity(d) && b[80..84] == LE32(d.spaceSize) && b[84..88] == BE32(d.spaceSize)
      && b[88..120] == PadTo(d.escapes, 32, 0) && b[120..132] == Numbers(d) && b[132..156] == Tables(d)
  {
    hide LE32, BE32, LE16, BE16, PadTo, Zeros;
    var b, escapes := DescriptorHead(d), PadTo(d.escapes, 32, 0);
    assert b == Identity(d) + LE32(d.spaceSize) + BE32(d.spaceSize) + escapes + Numbers(d) + Tables(d);
    hide DescriptorHead, Identity, Numbers, Tables;
    assert b[0..80] == Identity(d);
    assert b[80..84] == LE32(d.spaceSize);
    assert b[84..88] == BE32(d.spaceSize);
    assert b[88..120] == escapes;
    assert b[120..132] == Numbers(d);
    assert b[132..156] == Tables(d);
  }

  lemma IdentityFields(d: Descriptor)
    requires DescriptorFits(d)
    ensures var b := Identity(d);
      b[0] == d.typ && b[1..6] == [0x43, 0x44, 0x30, 0x30, 0x31] && b[6] == 1
      && b[40..72] == PadTo(d.volumeId, 32, d.filler)
  {
    hide PadTo;
  }

  lemma NumberFields(d: Descriptor)
    ensures var b := Numbers(d);
      && b[0..2] == LE16(1) && b[2..4] == BE16(1) && b[4..6] == LE16(1) && b[6..8] == BE16(1)
      && b[8..10] == LE16(2048) && b[10..12] == BE16(2048)
  {
    hide LE16, BE16;
  }

  lemma TableFields(d: Descriptor)
    ensures var b := Tables(d);
      && b[0..4] == LE32(d.pathTableSize) && b[4..8] == BE32(d.pathTableSize)
      && b[8..12] == LE32(d.tableL) && b[12..16] == LE32(0) && b[16..20] == BE32(d.tableM) && b[20..24] == BE32(0)
  {
    hide LE32, BE32;
  }

  /** The fields of an encoded descriptor; numbers that do not fit are cut. */
  ghost predicate Tells(b: seq<Byte>, typ: Byte, spaceSize: int, tableSize: int, tableL: int, tableM: int)
  {
    && |b| == 2048 && b[0] == typ && b[1..6] == [0x43, 0x44, 0x30, 0x30, 0x31] && b[6] == 1
    && FromLE32(b[80..84]) == FromBE32(b[84..88]) == spaceSize
    && FromLE16(b[120..122]) == FromBE16(b[122..124]) == 1
    && FromLE16(b[124..126]) == FromBE16(b[126..128]) == 1
    && FromLE16(b[128..130]) == FromBE16(b[130..132]) == 2048
    && FromLE32(b[132..136]) == FromBE32(b[136..140]) == tableSize
    && FromLE32(b[140..144]) == tableL && FromLE32(b[144..148]) == 0
    && FromBE32(b[148..152]) == tableM && FromBE32(b[152..156]) == 0
  }

  lemma Small(x: int)
    ensures 0 <= x < TWO_TO_THE_32 ==> FromLE32(LE32(x)) == x && FromBE32(BE32(x)) == x
    ensures 0 <= x < TWO_TO_THE_16 ==> FromLE16(LE16(x)) == x && FromBE16(BE16(x)) == x
  {
    hide LE32, BE32, LE16, BE16, FromLE32, FromBE32, FromLE16, FromBE16;
    RoundTrip32(x);
    RoundTrip16(x);
  }

  /** The first 156 bytes of a sector that begins with a descriptor's head. */
  lemma HeadTells(b: seq<Byte>, d: Descriptor)
    requires DescriptorFits(d) && |b| == 2048 && b[..156] == DescriptorHead(d)
    requires 0 <= d.spaceSize < TWO_TO_THE_32 && 0 <= d.pathTableSize < TWO_TO_THE_32
    requires 0 <= d.tableL < TWO_TO_THE_32 && 0 <= d.tableM < TWO_TO_THE_32
    ensures Tells(b, d.typ, d.spaceSize, d.pathTableSize, d.tableL, d.tableM)
    ensures b[40..72] == PadTo(d.volumeId, 32, d.filler) && b[88..120] == PadTo(d.escapes, 32, 0)
  {
    HeadGroups(d);
    IdentityFields(d);
    NumberFields(d);
    TableFields(d);
    hide DescriptorHead, Identity, Numbers, Tables, LE32, BE32, LE16, BE16, FromLE32, FromBE32, FromLE16, FromBE16, PadTo;
    Small(1);
    Small(0);
    Small(2048);
    Small(d.spaceSize);
    Small(d.pathTableSize);
    Small(d.tableL);
    Small(d.tableM);
    var h := DescriptorHead(d);
    assert b[0] == b[..156][0] == h[0..80][0];
    assert b[6] == b[..156][6] == h[0..80][6];
    HeadSlice(b, h, 0, 80, 1, 6);
    HeadSlice(b, h, 0, 80, 40, 72);
    HeadSlice(b, h, 80, 84, 0, 4);
    HeadSlice(b, h, 84, 88, 0, 4);
    HeadSlice(b, h, 88, 120, 0, 32);
    HeadSlice(b, h, 120, 132, 0, 2);
    HeadSlice(b, h, 120, 132, 2, 4);
    HeadSlice(b, h, 120, 132, 4, 6);
    HeadSlice(b, h, 120, 132, 6, 8);
    HeadSlice(b, h, 120, 132, 8, 10);
    HeadSlice(b, h, 120, 132, 10, 12);
    HeadSlice(b, h, 132, 156, 0, 4);
    HeadSlice(b, h, 132, 156, 4, 8);
    HeadSlice(b, h, 132, 156, 8, 12);
    HeadSlice(b, h, 132, 156, 12, 16);
    HeadSlice(b, h, 132, 156, 16, 20);
    HeadSlice(b, h, 132, 156, 20, 24);
  }

  lemma HeadSlice(b: seq<Byte>, h: seq<Byte>, lo: nat, hi: nat, i: nat, j: nat)
    requires |h| == 156 <= |b| && b[..156] == h && lo <= hi <= 156 && i <= j <= hi - lo
    ensures b[lo + i..lo + j] == h[lo..hi][i..j]
  {
    SliceOfSlice(h, lo, hi, i, j);
    assert b[lo + i..lo + j] == b[..156][lo + i..lo + j];
  }

  // ----- in the image

  lemma {:induction false} TableSizeBound(t: seq<PathEntry>)
    ensures PathTableSize(t) <= |t| * 264
  {
    if t != [] {
      TableSizeBound(t[..|t| - 1]);
    }
  }

  lemma NumbersFit(v: Volume, joliet: bool)
    requires v.Valid() && v.Encodable() && v.VolumeSectors() < 0x8000_0000
    ensures 0 <= PathTableSize(v.Table(joliet)) < TWO_TO_THE_32
    ensures forall little :: 0 <= v.TableLBA(joliet, little) < v.VolumeSectors()
  {
    hide Volume.Valid, Volume.Encodable, BuildPass, PathTableSize, TotalSectors, LocOf;
    TableSizeBound(v.Table(joliet));
  }

  /** Sector 16 or 17. */
  ghost function DescriptorSector(v: Volume, joliet: bool): (b: seq<Byte>)
    requires v.Valid() && v.Encodable()
    ensures |b| == 2048
  {
    DescriptorInImage(v, joliet);
    v.Image()[(if joliet then 17 else 16) * 2048..(if joliet then 18 else 17) * 2048]
  }

  lemma SectorIsBlock(v: Volume, joliet: bool)
    requires v.Valid() && v.Encodable()
    ensures |v.cfg.isoVolume| <= 32 && |v.cfg.jolietVolume| <= 32
    ensures DescriptorSector(v, joliet) == v.DescriptorBlock(joliet)
    ensures Cut(v.Image(), (if joliet then 17 else 16) * 2048, 2048) == Some(DescriptorSector(v, joliet))
  {
    hide Volume.Valid, Volume.Encodable, Volume.Image, Volume.DescriptorBlock;
    NamesOfVolumeFit(v);
    DescriptorInImage(v, joliet);
  }

  /** What the descriptors in sectors 16 and 17 say: the size of the image in sectors of 2048
      bytes, the size of the hierarchy's path table, and where its two forms lie. */
  lemma DescriptorTells(v: Volume, joliet: bool)
    requires v.Valid() && v.Encodable() && v.VolumeSectors() < 0x8000_0000
    ensures Tells(DescriptorSector(v, joliet), if joliet then 2 else 1, |v.Image()| / 2048,
                  PathTableSize(v.Table(joliet)), v.TableLBA(joliet, true), v.TableLBA(joliet, false))
    ensures |v.Image()| % 2048 == 0
    ensures Names(DescriptorSector(v, joliet), joliet, if joliet then v.cfg.jolietVolume else v.cfg.isoVolume)
  {
    hide Volume.Valid, Volume.Encodable, Volume.Image, Volume.Table, Volume.TableLBA, Volume.VolumeSectors, Volume.Root, Tells, DescriptorHead;
    SectorIsBlock(v, joliet);
    NumbersFit(v, joliet);
    ImageSize(v);
    BlockBegins(v, joliet);
    var d, b := v.DescriptorOf(joliet), DescriptorSector(v, joliet);
    HeadTells(b, d);
    PaddedField(b, 40, 72, d.volumeId, d.filler);
    PaddedField(b, 88, 120, d.escapes, 0);
    assert !joliet ==> b[88..91] == [0, 0, 0];
  }

  /** The volume identifier and the escape sequences. */
  predicate Names(b: seq<Byte>, joliet: bool, name: seq<Byte>) {
    && |b| == 2048 && |name| <= 32 && b[40..40 + |name|] == name
    && (forall i :: 40 + |name| <= i < 72 ==> b[i] == if joliet then 0 else 0x20)
    && b[88..91] == (if joliet then [0x25, 0x2F, 0x40] else [0, 0, 0]) && (forall i :: 91 <= i < 120 ==> b[i] == 0)
  }

  lemma BlockBegins(v: Volume, joliet: bool)
    requires v.Valid() && |v.cfg.isoVolume| <= 32 && |v.cfg.jolietVolume| <= 32
    ensures DescriptorFits(v.DescriptorOf(joliet))
    ensures v.DescriptorBlock(joliet)[..156] == DescriptorHead(v.DescriptorOf(joliet))
  {
    hide Volume.Valid, Volume.Table, Volume.TableLBA, Volume.VolumeSectors, Volume.Root, DescriptorHead, DescriptorTail, RootBytes;
    CfgValid(v);
  }

  lemma PaddedField(b: seq<Byte>, lo: nat, hi: nat, s: seq<Byte>, filler: Byte)
    requires lo + |s| <= hi <= |b| && b[lo..hi] == PadTo(s, hi - lo, filler)
    ensures b[lo..lo + |s|] == s
    ensures forall i :: lo + |s| <= i < hi ==> b[i] == filler
  {
    assert b[lo..lo + |s|] == b[lo..hi][..|s|];
    forall i | lo + |s| <= i < hi ensures b[i] == filler {
      assert b[i] == b[lo..hi][i - lo];
    }
  }

  // ----- behind the root record

  lemma TailFields(d: Descriptor)
    requires DescriptorFits(d)
    ensures var b := DescriptorTail(d);
      && b[0..128] == PadTo(d.volumeId, 128, d.filler)
      && b[623..640] == d.created && b[640..657] == b[657..674] == b[674..691] == NoTime()
      && b[691] == 1 && b[692] == 0
  {
    hide PadTo, NoTime, Zeros;
    var name, empty, small := PadTo(d.volumeId, 128, d.filler), PadTo([], 128, d.filler), PadTo([], 37, d.filler);
    var strings := name + empty + empty + empty + small + small + small;
    var times := d.created + NoTime() + NoTime() + NoTime();
    assert |strings| == 623 && |times| == 68;
    var b := DescriptorTail(d);
    var rest := [1, 0] + Zeros(512) + Zeros(653);
    assert b == strings + times + rest;
    hide DescriptorTail;
    assert b[0..128] == strings[0..128] == name;
    assert b[623..691] == times;
    TimesAt(b, d.created);
    assert b[691..693] == rest[0..2] == [1, 0];
  }

  lemma TimesAt(b: seq<Byte>, created: seq<Byte>)
    requires |b| >= 691 && |created| == 17 && b[623..691] == created + NoTime() + NoTime() + NoTime()
    ensures b[623..640] == created && b[640..657] == b[657..674] == b[674..691] == NoTime()
  {
    hide NoTime;
    var times := created + NoTime() + NoTime() + NoTime();
    assert b[623..640] == times[0..17];
    assert b[640..657] == times[17..34];
    assert b[657..674] == times[34..51];
    assert b[674..691] == times[51..68];
  }

  /** The rest of a descriptor: the root record, the name again, the time of creation, no other
      times (sixteen digits zero), and version 1. */
  lemma DescriptorEnds(v: Volume, joliet: bool)
    requires v.Valid() && v.Encodable()
    ensures Ends(DescriptorSector(v, joliet), joliet, if joliet then v.cfg.jolietVolume else v.cfg.isoVolume,
                 RootBytes(v.Root(joliet)), v.cfg.created)
  {
    hide Volume.Valid, Volume.Encodable, Volume.Image, Volume.Table, Volume.TableLBA, Volume.VolumeSectors, Volume.Root, DescriptorTail, RootBytes;
    SectorIsBlock(v, joliet);
    BlockEnds(v, joliet);
    var d, b := v.DescriptorOf(joliet), DescriptorSector(v, joliet);
    TailFields(d);
    var t := DescriptorTail(d);
    assert b[190..318] == b[190..][0..128] && b[813..830] == b[190..][623..640] && b[830..847] == b[190..][640..657];
    assert b[881] == b[190..][691];
    PaddedField(b, 190, 318, d.volumeId, d.filler);
    forall i | 830 <= i < 847 ensures b[i] == NoTime()[i - 830] {
      assert b[i] == b[830..847][i - 830];
    }
  }

  predicate Ends(b: seq<Byte>, joliet: bool, name: seq<Byte>, root: seq<Byte>, created: seq<Byte>) {
    && |b| == 2048 && |name| <= 32 && b[156..190] == root
    && b[190..190 + |name|] == name && (forall i :: 190 + |name| <= i < 318 ==> b[i] == if joliet then 0 else 0x20)
    && b[813..830] == created
    && (forall i :: 830 <= i < 846 ==> b[i] == 0x30) && b[846] == 0
    && b[881] == 1
  }

  lemma BlockEnds(v: Volume, joliet: bool)
    requires v.Valid() && |v.cfg.isoVolume| <= 32 && |v.cfg.jolietVolume| <= 32
    ensures DescriptorFits(v.DescriptorOf(joliet))
    ensures v.DescriptorBlock(joliet)[156..190] == RootBytes(v.Root(joliet))
    ensures v.DescriptorBlock(joliet)[190..] == DescriptorTail(v.DescriptorOf(joliet))
  {
    hide Volume.Valid, Volume.Table, Volume.TableLBA, Volume.VolumeSectors, Volume.Root, DescriptorHead, DescriptorTail, RootBytes;
    CfgValid(v);
  }

  /** Sector 18 ends the descriptors. */
  lemma TerminatorInImage(v: Volume)
    requires v.Valid() && v.Encodable()
    ensures Cut(v.Image(), 18 * 2048, 2048) == Some(Terminator()) && IsTerminator(Terminator())
  {
    hide Volume.Valid, Volume.Encodable, Volume.HeadBlocks, Volume.Image;
    ThirdIsTerminator(v);
    HeadBlockInImage(v, 3);
  }

  predicate IsTerminator(b: seq<Byte>) {
    |b| == 2048 && b[0] == 255 && b[1..6] == [0x43, 0x44, 0x30, 0x30, 0x31] && forall i :: 6 <= i < 2048 ==> b[i] == 0
  }

  lemma ThirdIsTerminator(v: Volume)
    requires v.Valid() && v.Encodable()
    ensures v.HeadBlocks()[3] == Terminator()
  {
    hide Volume.Valid, Volume.SystemArea, Volume.DescriptorBlock, Volume.TableBlock, Volume.Encodable;
    NamesOfVolumeFit(v);
  }

  // ----- the system area

  /** One range, from sector 0 to the last sector of the image. */
  predicate OneRange(b: seq<Byte>, sectors: nat) {
    && |b| == 2048 && FromBE32(b[0..4]) == 1 && b[4..8] == [0, 0, 0, 0]
    && FromBE32(b[8..12]) == 0 && FromBE32(b[12..16]) == sectors - 1
    && forall i :: 16 <= i < 2048 ==> b[i] == 0
  }

  /** "PlayStation3", and the game code with a dash behind its fourth character. */
  predicate IsDiscInfo(b: seq<Byte>, p: Ps3) {
    var n := |p.gameCode|;
    && |b| == 2048 && 4 <= n <= 31
    && b[0..12] == [0x50, 0x6C, 0x61, 0x79, 0x53, 0x74, 0x61, 0x74, 0x69, 0x6F, 0x6E, 0x33] && b[12..16] == [0, 0, 0, 0]
    && b[16..20] == p.gameCode[..4] && b[20] == 0x2D && b[21..17 + n] == p.gameCode[4..]
    && (forall i :: 17 + n <= i < 48 ==> b[i] == 0x20) && (forall i :: 48 <= i < 64 ==> b[i] == 0)
    && b[64..496] == p.info && b[496..512] == p.hash && forall i :: 512 <= i < 2048 ==> b[i] == 0
  }

  lemma RangesRead(sectors: nat)
    requires 0 < sectors < TWO_TO_THE_32
    ensures OneRange(DiscRanges(sectors), sectors)
  {
    hide BE32, FromBE32, Zeros;
    Small(1);
    Small(0);
    Small(sectors - 1);
    var b, fields := DiscRanges(sectors), BE32(1) + Zeros(4) + BE32(0) + BE32(sectors - 1);
    PadToIs(fields, SECTOR_SIZE, 0);
    assert b[0..16] == fields;
    assert b[0..4] == fields[0..4] == BE32(1) && b[4..8] == fields[4..8] == Zeros(4) == [0, 0, 0, 0];
    assert b[8..12] == fields[8..12] == BE32(0) && b[12..16] == fields[12..16] == BE32(sectors - 1);
  }

  lemma InfoReads(p: Ps3)
    requires p.Fits()
    ensures IsDiscInfo(DiscInfo(p), p)
  {
    hide PadTo, Zeros;
    var product := p.gameCode[..4] + [0x2D] + p.gameCode[4..];
    PadToIs(CONSOLE_ID, 16, 0);
    PadToIs(product, 32, 0x20);
    var id, name := PadTo(CONSOLE_ID, 16, 0), PadTo(product, 32, 0x20);
    var fields := id + name + Zeros(16) + p.info + p.hash;
    PadToIs(fields, SECTOR_SIZE, 0);
    var b := DiscInfo(p);
    hide DiscInfo;
    assert b[..512] == fields;
    assert b[0..16] == fields[0..16] == id && b[16..48] == fields[16..48] == name;
    assert b[48..64] == fields[48..64] == Zeros(16);
    assert b[64..496] == fields[64..496] == p.info && b[496..512] == fields[496..512] == p.hash;
    InfoNames(b, id, name, p);
  }

  lemma PadToIs(s: seq<Byte>, n: nat, filler: Byte)
    requires |s| <= n
    ensures PadTo(s, n, filler)[..|s|] == s && forall i :: |s| <= i < n ==> PadTo(s, n, filler)[i] == filler
  {
  }

  lemma InfoNames(b: seq<Byte>, id: seq<Byte>, name: seq<Byte>, p: Ps3)
    requires |b| == 2048 && b[0..16] == id && b[16..48] == name && p.Fits()
    requires id[..12] == CONSOLE_ID && forall i :: 12 <= i < 16 ==> id[i] == 0
    requires var product := p.gameCode[..4] + [0x2D] + p.gameCode[4..];
      name[..|product|] == product && forall i :: |product| <= i < 32 ==> name[i] == 0x20
    ensures b[0..12] == CONSOLE_ID && b[12..16] == [0, 0, 0, 0]
    ensures b[16..20] == p.gameCode[..4] && b[20] == 0x2D && b[21..17 + |p.gameCode|] == p.gameCode[4..]
    ensures forall i :: 17 + |p.gameCode| <= i < 48 ==> b[i] == 0x20
  {
    var n := |p.gameCode|;
    var product := p.gameCode[..4] + [0x2D] + p.gameCode[4..];
    assert b[0..12] == b[0..16][..12] && b[12..16] == b[0..16][12..];
    assert |product| == 1 + n;
    assert b[16..17 + n] == b[16..48][..1 + n];
    assert name[..1 + n] == product;
    assert b[16..20] == product[0..4] && b[20] == product[4];
    assert b[21..17 + n] == product[5..1 + n];
    forall i | 17 + n <= i < 48 ensures b[i] == 0x20 {
      assert b[i] == b[16..48][i - 16];
    }
  }

  /** A PS3 image begins with a table of one range that covers it all and with the disc's name;
      the other sectors of the system area are empty, as is all of it in a plain image. */
  lemma SystemAreaTells(v: Volume)
    requires v.Valid() && v.Encodable() && v.VolumeSectors() < 0x8000_0000
    ensures Cut(v.Image(), 0, 16 * 2048).Some? && IsSystemArea(Cut(v.Image(), 0, 16 * 2048).value, v.cfg.ps3, |v.Image()| / 2048)
  {
    hide Volume.Valid, Volume.Encodable, Volume.HeadBlocks, Volume.Image, Volume.VolumeSectors, Volume.SystemArea, IsSystemArea;
    FirstIsSystemArea(v);
    HeadBlockInImage(v, 0);
    HeadStart(v);
    ImageSize(v);
    SystemAreaIs(v);
  }

  predicate IsSystemArea(b: seq<Byte>, ps3: Option<Ps3>, sectors: nat) {
    && |b| == 16 * 2048
    && (ps3.Some? ==> OneRange(b[..2048], sectors) && IsDiscInfo(b[2048..4096], ps3.value))
    && forall i :: (if ps3.Some? then 4096 else 0) <= i < |b| ==> b[i] == 0
  }

  lemma HeadStart(v: Volume)
    requires v.Valid()
    ensures HeadLBA(v, 0) == 0
  {
    hide Volume.Valid;
  }

  lemma FirstIsSystemArea(v: Volume)
    requires v.Valid() && v.Encodable()
    ensures (v.cfg.ps3.Some? ==> v.cfg.ps3.value.Fits()) && v.HeadBlocks()[0] == v.SystemArea()
  {
    hide Volume.Valid, Volume.SystemArea, Volume.DescriptorBlock, Volume.TableBlock, Terminator;
    NamesOfVolumeFit(v);
  }

  lemma SystemAreaIs(v: Volume)
    requires v.Valid() && (v.cfg.ps3.Some? ==> v.cfg.ps3.value.Fits()) && 0 < v.VolumeSectors() < TWO_TO_THE_32
    ensures IsSystemArea(v.SystemArea(), v.cfg.ps3, v.VolumeSectors())
  {
    hide Volume.Valid, Volume.VolumeSectors, DiscRanges, DiscInfo, OneRange, IsDiscInfo;
    match v.cfg.ps3
    case Some(p) =>
      RangesRead(v.VolumeSectors());
      InfoReads(p);
      assert v.SystemArea()[..2048] == DiscRanges(v.VolumeSectors()) && v.SystemArea()[2048..4096] == DiscInfo(p);
    case None =>
  }
}
