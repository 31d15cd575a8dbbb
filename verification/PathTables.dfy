/** Path tables as a reader of the image finds them. */
module PathTables {
  import opened Wrappers
  import opened Bytes
  import opened Sectors
  import opened Records
  import opened SourceTree
  import opened Scan
  import opened ScanOrder
  import opened Build
  import opened Links
  import opened Layout
  import opened Volumes
  import opened Positions
  import opened Walk
  import opened Consistency
  import opened Descriptors

  /** The first entry of a table: its length is in its first byte. */
  function DecodeEntry(b: seq<Byte>, little: bool): (r: Option<(PathEntry, seq<Byte>)>)
    ensures r.Some? ==> |r.value.1| < |b|
  {
    if |b| < 8 then None
    else
      var n: nat := b[0];
      if |b| < 8 + n + n % 2 then None
      else
        var loc := if little then FromLE32(b[2..6]) else FromBE32(b[2..6]);
        var parent := if little then FromLE16(b[6..8]) else FromBE16(b[6..8]);
        Some((PathEntry(loc, parent, b[8..8 + n]), b[8 + n + n % 2..]))
  }

  function DecodeTable(b: seq<Byte>, little: bool): Option<seq<PathEntry>> {
    if b == [] then Some([])
    else
      match DecodeEntry(b, little)
      case None => None
      case Some((e, rest)) =>
        match DecodeTable(rest, little)
        case None => None
        case Some(es) => Some([e] + es)
  }

  /** What the fields of an entry keep. */
  function AsRead(e: PathEntry): PathEntry {
    PathEntry(e.loc % TWO_TO_THE_32, e.parent % TWO_TO_THE_16, e.ident)
  }

  function AllAsRead(t: seq<PathEntry>): (r: seq<PathEntry>)
    ensures |r| == |t|
    ensures forall i :: 0 <= i < |t| ==> r[i] == AsRead(t[i])
  {
    seq(|t|, i requires 0 <= i < |t| => AsRead(t[i]))
  }

  lemma EntryReadsBack(e: PathEntry, rest: seq<Byte>, little: bool)
    requires |e.ident| < 256
    ensures DecodeEntry(PathEntryBytes(e, little) + rest, little) == Some((AsRead(e), rest))
  {
    hide FromLE32, FromBE32, FromLE16, FromBE16, LE32, BE32, LE16, BE16;
    RoundTrip32(e.loc);
    RoundTrip16(e.parent);
    var b := PathEntryBytes(e, little) + rest;
    assert b[2..6] == if little then LE32(e.loc) else BE32(e.loc);
    assert b[6..8] == if little then LE16(e.parent) else BE16(e.parent);
    assert b[8..8 + |e.ident|] == e.ident;
    assert b[8 + |e.ident| + |e.ident| % 2..] == rest;
  }

  lemma {:induction false} TableBytesCons(e: PathEntry, t: seq<PathEntry>, little: bool)
    ensures PathTableBytes([e] + t, little) == PathEntryBytes(e, little) + PathTableBytes(t, little)
  {
    hide PathEntryBytes;
    if t == [] {
      assert [e] + t == [] + [e];
      assert ([] + [e])[..0] == [];
    } else {
      var front := t[..|t| - 1];
      TableBytesCons(e, front, little);
      assert ([e] + t)[..|t|] == [e] + front;
    }
  }

  /** Decoding the encoded table gives its entries, as far as their fields keep them. */
  lemma {:induction false} TableReadsBack(t: seq<PathEntry>, little: bool)
    requires PathTableFits(t)
    ensures DecodeTable(PathTableBytes(t, little), little) == Some(AllAsRead(t))
    decreases |t|
  {
    if t != [] {
      hide DecodeEntry, PathEntryBytes, PathTableBytes, AsRead, AllAsRead, DecodeTable;
      var rest := t[1..];
      assert t == [t[0]] + rest;
      TableBytesCons(t[0], rest, little);
      EntryReadsBack(t[0], PathTableBytes(rest, little), little);
      TableReadsBack(rest, little);
      DecodeStep(PathTableBytes(t, little), little);
      AllAsReadCons(t[0], rest);
    }
  }

  lemma AllAsReadCons(e: PathEntry, rest: seq<PathEntry>)
    ensures AllAsRead([e] + rest) == [AsRead(e)] + AllAsRead(rest)
  {
    hide AsRead;
  }

  lemma DecodeStep(b: seq<Byte>, little: bool)
    requires DecodeEntry(b, little).Some? && DecodeTable(DecodeEntry(b, little).value.1, little).Some?
    ensures DecodeTable(b, little) == Some([DecodeEntry(b, little).value.0] + DecodeTable(DecodeEntry(b, little).value.1, little).value)
  {
    hide DecodeEntry;
  }

  /** What a reader of an image finds where its descriptor says that a path table lies: the
      little-endian form by the fields at 132 and 140, the big-endian form by those at 136
      and 148. */
  function TableFound(image: seq<Byte>, joliet: bool, little: bool): Option<seq<PathEntry>> {
    match Cut(image, (if joliet then 17 else 16) * 2048, 2048)
    case None => None
    case Some(b) =>
      var sector := if little then FromLE32(b[140..144]) else FromBE32(b[148..152]);
      var size := if little then FromLE32(b[132..136]) else FromBE32(b[136..140]);
      match Cut(image, sector * 2048, size)
      case None => None
      case Some(bytes) => DecodeTable(bytes, little)
  }

  lemma TablesFit(v: Volume, joliet: bool)
    requires v.Valid() && v.Encodable()
    ensures PathTableFits(v.FinalTable(joliet))
  {
    hide ScanDone, Ordered, BuildPass;
    forall e | e in v.FinalTable(joliet) ensures |e.ident| < 256 {
      var i :| 0 <= i < |v.FinalTable(joliet)| && v.FinalTable(joliet)[i] == e;
      assert v.Table(joliet)[i] in v.Table(joliet);
    }
  }

  lemma TableIsFound(v: Volume, joliet: bool, little: bool)
    requires v.Valid() && v.Encodable() && v.VolumeSectors() < 0x8000_0000
    ensures TableFound(v.Image(), joliet, little) == Some(AllAsRead(v.FinalTable(joliet)))
  {
    hide *;
    TableInImage(v, joliet, little);
    TablesFit(v, joliet);
    TableReadsBack(v.FinalTable(joliet), little);
    TableNumbers(v, joliet, little);
    SectorIsBlock(v, joliet);
    FoundByFields(v.Image(), joliet, little, DescriptorSector(v, joliet), v.TableLBA(joliet, little), PathTableSize(v.Table(joliet)));
  }

  /** The descriptor `b` says where a form of the table lies and how long it is. */
  predicate Points(b: seq<Byte>, little: bool, sector: nat, size: nat) {
    |b| == 2048 &&
    if little then FromLE32(b[140..144]) == sector && FromLE32(b[132..136]) == size
    else FromBE32(b[148..152]) == sector && FromBE32(b[136..140]) == size
  }

  lemma TableNumbers(v: Volume, joliet: bool, little: bool)
    requires v.Valid() && v.Encodable() && v.VolumeSectors() < 0x8000_0000
    ensures Points(DescriptorSector(v, joliet), little, v.TableLBA(joliet, little), PathTableSize(v.Table(joliet)))
  {
    hide Volume.Valid, Volume.Encodable, Volume.Image, Volume.Table, Volume.TableLBA, Volume.VolumeSectors;
    hide PathTableSize, DescriptorSector, FromLE32, FromBE32, FromLE16, FromBE16, Descriptors.Names;
    DescriptorTells(v, joliet);
  }

  lemma FoundByFields(image: seq<Byte>, joliet: bool, little: bool, b: seq<Byte>, sector: nat, size: nat)
    requires Cut(image, (if joliet then 17 else 16) * 2048, 2048) == Some(b) && Points(b, little, sector, size)
    requires sector * SECTOR_SIZE + size <= |image|
    ensures TableFound(image, joliet, little) == DecodeTable(image[sector * SECTOR_SIZE..sector * SECTOR_SIZE + size], little)
  {
    hide FromLE32, FromBE32, DecodeTable;
  }

  /** What the tables in the image say, in both byte orders: one entry for each of the first
      65536 directories, with the number of its parent's entry and the sector of its own
      '.' record; the root is its own parent, and every other parent comes before. */
  lemma ImageTableDescribesTree(v: Volume, joliet: bool, little: bool, i: nat)
    requires Readable(v, joliet)
    requires TableFound(v.Image(), joliet, little).Some? && i < |TableFound(v.Image(), joliet, little).value|
    ensures i < |v.ds| == |v.Recs(joliet)| && |v.Recs(joliet)[i]| > 0
    ensures var e := TableFound(v.Image(), joliet, little).value[i];
      && e.loc == v.Recs(joliet)[i][0].loc
      && e.parent == (if i == 0 then 1 else ParentIdx(v.ds, i) + 1) && 0 < e.parent <= i + 1 && (i > 0 ==> e.parent <= i)
      && e.ident == if i == 0 then DOT else v.nm.Of(v.ds[i].name, joliet)
  {
    hide Readable, Volume.Valid, Volume.Encodable, Volume.FinalTable, Volume.Table, Volume.Recs, Volume.Image, Volume.VolumeSectors, TableFound, ClashFree, ToInt16, AsRead, ParentIdx, FitsFormat;
    ReadableIs(v, joliet);
    TableIsFound(v, joliet, little);
    FinalEntry(v, joliet, i);
    FieldsKept(v.FinalTable(joliet)[i], if i == 0 then 1 else ParentIdx(v.ds, i) + 1);
  }

  lemma FinalEntry(v: Volume, joliet: bool, i: nat)
    requires Readable(v, joliet) && v.Valid() && i < |v.FinalTable(joliet)|
    ensures i < |v.ds| == |v.Recs(joliet)| && |v.Recs(joliet)[i]| > 0
    ensures var e, n := v.FinalTable(joliet)[i], if i == 0 then 1 else ParentIdx(v.ds, i) + 1;
      && e.loc == v.Recs(joliet)[i][0].loc && 0 <= e.loc < TWO_TO_THE_32
      && 0 < n < TWO_TO_THE_16 && n <= i + 1 && (i > 0 ==> n <= i) && e.parent == ToInt16(n)
      && e.ident == if i == 0 then DOT else v.nm.Of(v.ds[i].name, joliet)
  {
    hide Readable, Volume.Valid, Volume.Encodable, Volume.FinalTable, Volume.Recs, ClashFree, ParentIdx, FitsFormat;
    ReadableIs(v, joliet);
    PathTableDescribesTree(v, joliet, i, i);
    EntryIdent(v, joliet, i);
    LocationFits(v, joliet, i);
  }

  lemma FieldsKept(e: PathEntry, n: nat)
    requires 0 <= e.loc < TWO_TO_THE_32 && n < TWO_TO_THE_16 && e.parent == ToInt16(n)
    ensures AsRead(e) == PathEntry(e.loc, n, e.ident)
  {
  }

  lemma EntryIdent(v: Volume, joliet: bool, i: nat)
    requires v.Valid() && i < |v.FinalTable(joliet)|
    ensures i < |v.ds| && |v.FinalTable(joliet)| <= PATH_TABLE_ITEMS_LIMIT
    ensures v.FinalTable(joliet)[i].ident == if i == 0 then DOT else v.nm.Of(v.ds[i].name, joliet)
  {
    hide ScanDone, Ordered, BuildPass, ParentIdx, Volume.DirLBA, Volume.FilesLBA, ToInt16;
  }

  lemma LocationFits(v: Volume, joliet: bool, i: nat)
    requires Readable(v, joliet) && i < |v.ds|
    ensures |v.Recs(joliet)| == |v.ds| && |v.Recs(joliet)[i]| > 0
    ensures 0 <= v.Recs(joliet)[i][0].loc < TWO_TO_THE_32
  {
    hide Readable, Volume.Valid, Volume.Encodable, Volume.Recs, ClashFree, FitsFormat, LocIn, LenOf, Up;
    ReadableIs(v, joliet);
    FinalHeads(v, joliet, i);
    FinalRepresentable(v, joliet, i);
    assert v.Recs(joliet)[i][0] in v.Recs(joliet)[i];
  }
}
