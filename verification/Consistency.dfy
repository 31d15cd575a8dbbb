/** What a finished image promises about its own cross-references. */
module Consistency {
  import opened Wrappers
  import opened Bytes
  import opened Sectors
  import opened Records
  import opened SourceTree
  import opened Scan
  import opened ScanOrder
  import opened Build
  import opened Links
  import opened Layout
  import opened Volumes
  import opened Positions
  import opened Walk

  // ----- path tables (section 6.9.1 of ECMA-119)

  /** Sixteen bits keep every parent number up to the table's limit. */
  lemma ParentNumberEncoded(n: nat)
    requires n < 0x1_0000
    ensures LE16(ToInt16(n)) == LE16(n) && BE16(ToInt16(n)) == BE16(n)
    ensures FromLE16(LE16(ToInt16(n))) == n && FromBE16(BE16(ToInt16(n))) == n
    ensures ToInt16(n) == n <==> n < 0x8000
  {
    RoundTrip16(n);
    if n >= 0x8000 {
      assert ToInt16(n) == n - 0x1_0000;
    }
  }

  /** The '.' and '..' records of the finished image. */
  lemma FinalHeads(v: Volume, joliet: bool, d: nat)
    requires v.Valid() && d < |v.ds| && ClashFree(v.ds, v.nm, joliet)
    ensures |v.Recs(joliet)| == |v.ds| && |v.Recs(joliet)[d]| >= 2
    ensures v.Recs(joliet)[d][0] == Dot(v.ds[d], LocIn(v, joliet, d), LenOf(v.ds, d, v.nm, joliet))
    ensures var up := Up(v.ds, d);
      v.Recs(joliet)[d][1] == DotDot(v.ds[up], LocIn(v, joliet, up), LenOf(v.ds, up, v.nm, joliet))
  {
    hide Volume.Valid, Volume.Recs, Volume.DirLBA, Volume.FilesLBA, LocOf, LenOf, ClashFree, FinalKids, PlacedAll, FixLBA, Heads, Up;
    FinalShape(v, joliet, d);
    FixedHeads(v.ds, d, v.DirLBA(joliet), v.FilesLBA(), v.nm, joliet);
  }

  lemma FixedHeads(ds: seq<DirItem>, d: nat, dirLBA: nat, filesLBA: nat, nm: Naming, joliet: bool)
    requires d < |ds|
    ensures var up := Up(ds, d);
      FixLBA(Heads(ds, d, nm, joliet), dirLBA, filesLBA)
      == [Dot(ds[d], dirLBA + LocOf(ds, d, nm, joliet), LenOf(ds, d, nm, joliet)),
          DotDot(ds[up], dirLBA + LocOf(ds, up, nm, joliet), LenOf(ds, up, nm, joliet))]
  {
    hide LocOf, LenOf, Up;
  }

  lemma TableEntry(v: Volume, joliet: bool, i: nat)
    requires v.Valid() && i < |v.FinalTable(joliet)|
    ensures i < |v.ds| == |v.Built(joliet)| && |v.Built(joliet)[i]| > 0
    ensures v.FinalTable(joliet)[i].loc == v.Built(joliet)[i][0].loc + v.DirLBA(joliet)
    ensures v.FinalTable(joliet)[i].parent == if i == 0 then 1 else ToInt16(ParentIdx(v.ds, i) + 1)
  {
    hide ScanDone, Ordered, BuildPass, ParentIdx, Volume.DirLBA, Volume.FilesLBA, ToInt16;
    BuiltDots(v.ds, v.Built(joliet), v.nm, joliet);
  }

  lemma BuiltDot(v: Volume, joliet: bool, d: nat)
    requires v.Valid() && d < |v.ds| && ClashFree(v.ds, v.nm, joliet)
    ensures |v.Built(joliet)| == |v.ds| && |v.Built(joliet)[d]| > 0
    ensures v.Built(joliet)[d][0].loc == LocOf(v.ds, d, v.nm, joliet)
  {
    hide LocOf, LenOf, ClashFree, ScanDone, Ordered, BuildPass, Kids, KidRecs, AllFileRecs, Up;
    PassLinks(v.ds, |v.ds|, v.nm, joliet);
  }

  /** Path tables: the root is its own parent; every other entry has a smaller parent
      number; parent numbers and levels never decrease; and the location is that of
      the '.' record of its directory in the same hierarchy. */
  lemma PathTableDescribesTree(v: Volume, joliet: bool, i: nat, j: nat)
    requires v.Valid() && ClashFree(v.ds, v.nm, joliet)
    requires i <= j < |v.FinalTable(joliet)|
    ensures |v.Recs(joliet)| == |v.ds| && j < |v.ds| && |v.Recs(joliet)[i]| > 0
    ensures v.FinalTable(joliet)[i].loc == v.Recs(joliet)[i][0].loc
    ensures v.FinalTable(joliet)[i].parent == if i == 0 then 1 else ToInt16(ParentIdx(v.ds, i) + 1)
    ensures i > 0 ==> 0 < ParentIdx(v.ds, i) + 1 < i + 1
    ensures i > 0 ==> ParentIdx(v.ds, i) <= ParentIdx(v.ds, j)
    ensures |v.ds[i].path| <= |v.ds[j].path|
  {
    hide Volume.Valid, Volume.Recs, Volume.Built, Volume.FinalTable, LocOf, LenOf, Up, ClashFree, ScanDone, ParentIdx, ToInt16;
    TableEntry(v, joliet, j);
    TableEntry(v, joliet, i);
    FinalHeads(v, joliet, i);
    BuiltDot(v, joliet, i);
    VolumeFacts(v);
    LevelsNonDecreasing(v.root, v.rootName, v.ds, i, j);
    if i > 0 {
      OrderedAt(v.ds, i);
      ParentsNonDecreasing(v.root, v.rootName, v.ds, i, j);
    }
  }

  // ----- directory records

  /** A child record is the child's '.', and the child's '..' is the directory's '.'. */
  lemma DirectoriesCrossLink(v: Volume, joliet: bool, d: nat, i: nat)
    requires v.Valid() && ClashFree(v.ds, v.nm, joliet) && d < |v.ds| && i < |Kids(v.ds, d)|
    ensures |v.Recs(joliet)| == |v.ds|
    ensures var es, k, first := v.Recs(joliet), Kids(v.ds, d)[i], FirstKid(v.ds, d, v.nm, joliet);
      && k < |v.ds| && |es[d]| == first + |Kids(v.ds, d)| && |es[k]| >= 2 && |es[d]| >= 2
      && es[d][first + i].loc == es[k][0].loc && es[d][first + i].len == es[k][0].len
      && es[k][1].loc == es[d][0].loc && es[k][1].len == es[d][0].len
      && es[k][0].ident == [0] && es[k][1].ident == [1] && es[k][0].flags == es[k][1].flags == 2
      && es[k][0].stamp == v.ds[k].stamp && es[k][1].stamp == v.ds[d].stamp
  {
    hide Volume.Valid, Volume.Recs, Volume.DirLBA, Volume.FilesLBA, LocOf, LenOf;
    hide ClashFree, Kids, FinalKids, PlacedAll, AllFileRecs, ParentIdx, ScanDone, Ordered;
    var k := Kids(v.ds, d)[i];
    assert k in Kids(v.ds, d);
    VolumeFacts(v);
    KidParent(v.ds, d, k);
    FinalHeads(v, joliet, d);
    FinalHeads(v, joliet, k);
    DirectoryRecords(v, joliet, d);
    FinalKidAt(v, joliet, d, i);
    PlacedCount(v.ds[d].files, v.FilesLBA(), v.nm, joliet);
    var rs, first := v.Recs(joliet)[d], FirstKid(v.ds, d, v.nm, joliet);
    assert rs[first + i] == rs[2..][first - 2 + i] == FinalKids(v, joliet, d)[i];
  }

  /** The extent that '.' denotes decodes to exactly the directory's records. */
  lemma DotDecodes(v: Volume, joliet: bool, d: nat)
    requires Readable(v, joliet) && d < |v.ds|
    ensures v.Valid() && v.Encodable()
    ensures |v.Recs(joliet)| == |v.ds| && |v.Recs(joliet)[d]| > 0
    ensures var dot := v.Recs(joliet)[d][0];
      && 0 <= dot.loc && 0 <= dot.len && dot.loc * SECTOR_SIZE + dot.len <= |v.Image()|
      && ParseExtent(0, v.Image()[dot.loc * SECTOR_SIZE..dot.loc * SECTOR_SIZE + dot.len]) == Some(v.Recs(joliet)[d])
  {
    hide Readable, Volume.Valid, Volume.Encodable, Volume.Recs, Volume.Image, Volume.DirLBA, LocOf, LenOf;
    hide ClashFree, FitsFormat, Extent, ParseExtent, Representable, Up;
    ReadableFacts(v, joliet);
    FinalHeads(v, joliet, d);
    DirectoryInImage(v, joliet, d);
    FinalRepresentable(v, joliet, d);
    ExtentRoundTrip(v.Recs(joliet)[d]);
  }

  lemma ReadableFacts(v: Volume, joliet: bool)
    requires Readable(v, joliet)
    ensures v.Valid() && v.Encodable() && ClashFree(v.ds, v.nm, joliet) && FitsFormat(v, joliet)
  {
  }

  lemma {:induction false} PlacedCount(fs: seq<DirFile>, filesLBA: nat, nm: Naming, joliet: bool)
    ensures |PlacedAll(fs, filesLBA, nm, joliet)| == |AllFileRecs(fs, nm, joliet)|
  {
    if fs != [] {
      PlacedCount(fs[1..], filesLBA, nm, joliet);
    }
  }

  /** The root is its own parent. */
  lemma RootIsItsOwnParent(v: Volume, joliet: bool)
    requires v.Valid() && ClashFree(v.ds, v.nm, joliet)
    ensures |v.Recs(joliet)| == |v.ds| > 0 && |v.Recs(joliet)[0]| >= 2
    ensures v.Recs(joliet)[0][1].loc == v.Recs(joliet)[0][0].loc == v.Root(joliet).loc
    ensures v.Recs(joliet)[0][1].len == v.Recs(joliet)[0][0].len == v.Root(joliet).len
  {
    VolumeFacts(v);
    RootHasNoParent(v.root, v.rootName, v.ds);
    FinalHeads(v, joliet, 0);
    RootIsFirstRecord(v, joliet);
    hide Volume.Valid, Volume.Recs, Volume.Root, ClashFree, LocIn, LenOf, ScanDone;
  }
}
