/** The directory records of one hierarchy (ISO or Joliet) and the pass that fills
    them in, linking every directory with its parent as it goes. */
module Build {
  import opened Wrappers
  import opened Bytes
  import opened Sectors
  import opened Records
  import opened SourceTree
  import opened Scan

  const MULTI_EXTENT_PART_SIZE: nat := 0xFFFF_F800
  const MAX_PART_SIZE: nat := 0xFFFF_FFFF

  const DOT: Identifier := [0]
  const DOT_DOT: Identifier := [1]

  /** ";1" */
  const VERSION_SUFFIX: seq<Byte> := [0x3B, 0x31]

  /** How a hierarchy spells names (`makeIdentifier`); the spelling itself is not modelled. */
  datatype Naming = Naming(iso: Name -> Identifier, joliet: Name -> Identifier) {
    function Of(name: Name, inJoliet: bool): Identifier {
      if inJoliet then joliet(name) else iso(name)
    }
  }

  // ----- file records

  function Parts(size: nat): (n: nat)
    ensures n >= 1
  {
    if size > MAX_PART_SIZE
    then size / MULTI_EXTENT_PART_SIZE + if size % MULTI_EXTENT_PART_SIZE > 0 then 1 else 0
    else 1
  }

  /** The `i`-th extent of a file. */
  function FileRec(f: DirFile, i: nat, nm: Naming, joliet: bool): Rec
    requires i < Parts(f.size)
  {
    var last := i == Parts(f.size) - 1;
    Rec(if last then 0 else FLAG_MULTI_EXTENT,
        f.rLBA + i * (MULTI_EXTENT_PART_SIZE / SECTOR_SIZE),
        if last then f.size - i * MULTI_EXTENT_PART_SIZE else MULTI_EXTENT_PART_SIZE,
        f.stamp,
        nm.Of(f.name + VERSION_SUFFIX, joliet))
  }

  function FileRecs(f: DirFile, nm: Naming, joliet: bool): (rs: seq<Rec>)
    ensures |rs| == Parts(f.size)
  {
    seq(Parts(f.size), i requires 0 <= i < Parts(f.size) => FileRec(f, i, nm, joliet))
  }

  function AllFileRecs(fs: seq<DirFile>, nm: Naming, joliet: bool): seq<Rec> {
    if fs == [] then [] else FileRecs(fs[0], nm, joliet) + AllFileRecs(fs[1..], nm, joliet)
  }

  /** The extents of a file tile it: in order, without gap or overlap, from its
      first sector to its last byte; every length fits 32 bits; exactly the
      non-final records announce another extent. */
  lemma ExtentsTile(f: DirFile, nm: Naming, joliet: bool, i: nat)
    requires i < Parts(f.size)
    ensures var rs := FileRecs(f, nm, joliet);
      && rs[i].loc * SECTOR_SIZE == f.rLBA * SECTOR_SIZE + i * MULTI_EXTENT_PART_SIZE
      && 0 <= rs[i].len < TWO_TO_THE_32
      && (rs[i].MoreExtents() <==> i < |rs| - 1)
      && (i < |rs| - 1 ==> rs[i].len == MULTI_EXTENT_PART_SIZE)
      && (i == |rs| - 1 ==> i * MULTI_EXTENT_PART_SIZE + rs[i].len == f.size)
      && (f.size > 0 ==> rs[i].len > 0)
      && !rs[i].IsDir()
  {
  }

  // ----- the records of one directory

  function Dot(d: DirItem, loc: int, len: int): Rec {
    Rec(FLAG_DIR, loc, len, d.stamp, DOT)
  }

  function DotDot(d: DirItem, loc: int, len: int): Rec {
    Rec(FLAG_DIR, loc, len, d.stamp, DOT_DOT)
  }

  function ChildRec(d: DirItem, loc: int, len: int, nm: Naming, joliet: bool): Rec {
    Rec(FLAG_DIR, loc, len, d.stamp, nm.Of(d.name, joliet))
  }

  /** List positions of the direct subdirectories of `p` among the first `n` items;
      the root at position 0 is never one. */
  function KidsUpTo(ds: seq<DirItem>, p: Path, n: nat): (ks: seq<nat>)
    requires n <= |ds|
    ensures forall k :: k in ks <==> 0 < k < n && IsDirectChild(ds[k].path, p)
    ensures forall i, j :: 0 <= i < j < |ks| ==> ks[i] < ks[j]
  {
    if n <= 1 then []
    else
      var before := KidsUpTo(ds, p, n - 1);
      assert forall i :: 0 <= i < |before| ==> before[i] in before;
      before + if IsDirectChild(ds[n - 1].path, p) then [n - 1] else []
  }

  function Kids(ds: seq<DirItem>, d: nat): (ks: seq<nat>)
    requires d < |ds|
    ensures forall k :: k in ks <==> 0 < k < |ds| && IsDirectChild(ds[k].path, ds[d].path)
    ensures forall i, j :: 0 <= i < j < |ks| ==> ks[i] < ks[j]
  {
    KidsUpTo(ds, ds[d].path, |ds|)
  }

  function UnlinkedKids(ds: seq<DirItem>, ks: seq<nat>, nm: Naming, joliet: bool): (rs: seq<Rec>)
    requires forall k :: k in ks ==> k < |ds|
    ensures |rs| == |ks|
  {
    seq(|ks|, i requires 0 <= i < |ks| => assert ks[i] in ks; ChildRec(ds[ks[i]], 0, 0, nm, joliet))
  }

  /** The records of directory `d` before anything is known about locations. */
  function Skeleton(ds: seq<DirItem>, d: nat, nm: Naming, joliet: bool): (rs: seq<Rec>)
    requires d < |ds|
    ensures |rs| == FirstKid(ds, d, nm, joliet) + |Kids(ds, d)|
  {
    [Dot(ds[d], 0, 0), DotDot(ds[d], 0, 0)] + AllFileRecs(ds[d].files, nm, joliet)
    + UnlinkedKids(ds, Kids(ds, d), nm, joliet)
  }

  /** The position of the first subdirectory record. */
  function FirstKid(ds: seq<DirItem>, d: nat, nm: Naming, joliet: bool): nat
    requires d < |ds|
  {
    2 + |AllFileRecs(ds[d].files, nm, joliet)|
  }

  /** `dirItemList.parentIdx`, -1 when there is none. */
  function ParentFrom(ds: seq<DirItem>, p: Path, k: nat): (r: int)
    requires k <= |ds|
    ensures r == -1 || (k <= r < |ds| && IsDirectChild(p, ds[r].path))
    ensures r == -1 ==> forall i :: k <= i < |ds| ==> !IsDirectChild(p, ds[i].path)
    decreases |ds| - k
  {
    if k == |ds| then -1 else if IsDirectChild(p, ds[k].path) then k else ParentFrom(ds, p, k + 1)
  }

  function ParentIdx(ds: seq<DirItem>, d: nat): (r: int)
    requires d < |ds|
    ensures r == -1 || (0 <= r < |ds| && IsDirectChild(ds[d].path, ds[r].path))
  {
    ParentFrom(ds, ds[d].path, 0)
  }

  /** `dirItem.findDirEntry`: the first record with this identifier. */
  function FindEntry(rs: seq<Rec>, ident: Identifier): (r: Option<nat>)
    ensures r.Some? ==> r.value < |rs| && rs[r.value].ident == ident
    ensures r.Some? ==> forall i :: 0 <= i < r.value ==> rs[i].ident != ident
    ensures r.None? ==> forall i :: 0 <= i < |rs| ==> rs[i].ident != ident
  {
    if rs == [] then None
    else if rs[0].ident == ident then Some(0)
    else
      match FindEntry(rs[1..], ident)
      case None => None
      case Some(k) => Some(k + 1)
  }

  /** `dirItemList.size`. */
  function ListSize(es: seq<seq<Rec>>): nat {
    if es == [] then 0 else AlignUp(PredictSize(ListSize(es[..|es| - 1]), es[|es| - 1]))
  }

  /** What a scan guarantees: only the root has no parent, and parents come first. */
  predicate Ordered(ds: seq<DirItem>) {
    && Distinct(PathsOf(ds))
    && forall d :: 0 <= d < |ds| ==> ParentIdx(ds, d) < d && (d > 0 ==> ParentIdx(ds, d) >= 0)
  }

  /** The record lists while directories below `n` are built. */
  ghost predicate BuiltTo(ds: seq<DirItem>, es: seq<seq<Rec>>, n: nat, nm: Naming, joliet: bool) {
    && n <= |ds| == |es|
    && (forall d :: 0 <= d < n ==> SameIdents(es[d], Skeleton(ds, d, nm, joliet)))
    && forall d :: n <= d < |ds| ==> es[d] == []
  }

  predicate SameIdents(a: seq<Rec>, b: seq<Rec>) {
    |a| == |b| && forall i :: 0 <= i < |a| ==> a[i].ident == b[i].ident
  }

  /** Sizes depend on identifiers only. */
  lemma {:induction false} SizeByIdents(pos: nat, a: seq<Rec>, b: seq<Rec>)
    requires SameIdents(a, b)
    ensures PredictSize(pos, a) == PredictSize(pos, b)
    decreases |a|
  {
    if a != [] {
      SizeByIdents(AddSize(RecSize(a[0]), pos), a[1..], b[1..]);
    }
  }

  /** The records `makeDirEntries` appends for directory `i`, '.' already sized. */
  function FreshRecs(ds: seq<DirItem>, es: seq<seq<Rec>>, i: nat, nm: Naming, joliet: bool): (rs: seq<Rec>)
    requires i < |ds| == |es|
    requires ParentIdx(ds, i) >= 0 ==> es[ParentIdx(ds, i)] != []
    ensures SameIdents(rs, Skeleton(ds, i, nm, joliet))
  {
    var loc := CeilSectors(ListSize(es));
    var size := AlignUp(PredictSize(0, Skeleton(ds, i, nm, joliet)));
    var p := ParentIdx(ds, i);
    var dotDot :=
      if p >= 0 then DotDot(ds[p], es[p][0].loc, es[p][0].len) else DotDot(ds[i], loc, size);
    [Dot(ds[i], loc, size), dotDot] + Skeleton(ds, i, nm, joliet)[2..]
  }

  /** `makeDirEntries` for directory `i`: append its records and patch the record
      that points to it in its parent. */
  function BuildStep(ds: seq<DirItem>, es: seq<seq<Rec>>, i: nat, nm: Naming, joliet: bool): (r: seq<seq<Rec>>)
    requires i < |ds| == |es| && ParentIdx(ds, i) != i
    requires ParentIdx(ds, i) >= 0 ==> es[ParentIdx(ds, i)] != []
    ensures |r| == |es|
    ensures r[i] == FreshRecs(ds, es, i, nm, joliet)
  {
    var recs := FreshRecs(ds, es, i, nm, joliet);
    var p := ParentIdx(ds, i);
    if p < 0 then es[i := recs]
    else
      match FindEntry(es[p], nm.Of(ds[i].name, joliet))
      case None => es[i := recs]
      case Some(k) => es[i := recs][p := es[p][k := es[p][k].(loc := recs[0].loc, len := recs[0].len)]]
  }

  lemma StepBuilds(ds: seq<DirItem>, es: seq<seq<Rec>>, n: nat, nm: Naming, joliet: bool)
    requires Ordered(ds) && n < |ds| && BuiltTo(ds, es, n, nm, joliet)
    ensures ParentIdx(ds, n) >= 0 ==> es[ParentIdx(ds, n)] != []
    ensures BuiltTo(ds, BuildStep(ds, es, n, nm, joliet), n + 1, nm, joliet)
  {
    hide Skeleton, FreshRecs, ParentIdx, Distinct;
    assert ParentIdx(ds, n) < n;
    if ParentIdx(ds, n) >= 0 {
      assert SameIdents(es[ParentIdx(ds, n)], Skeleton(ds, ParentIdx(ds, n), nm, joliet));
      assert |Skeleton(ds, ParentIdx(ds, n), nm, joliet)| >= 2;
    }
  }

  /** No directory has records yet. */
  function Unbuilt(n: nat): (es: seq<seq<Rec>>)
    ensures |es| == n && forall d :: 0 <= d < n ==> es[d] == []
  {
    seq(n, _ => [])
  }

  /** The record lists after the first `n` directories. */
  ghost function BuildPass(ds: seq<DirItem>, n: nat, nm: Naming, joliet: bool): (es: seq<seq<Rec>>)
    requires Ordered(ds) && n <= |ds|
    ensures BuiltTo(ds, es, n, nm, joliet)
  {
    if n == 0 then Unbuilt(|ds|)
    else
      var es := BuildPass(ds, n - 1, nm, joliet);
      StepBuilds(ds, es, n - 1, nm, joliet);
      BuildStep(ds, es, n - 1, nm, joliet)
  }

  // ----- the numbers and strings of the format

  /** A file has one extent if its size fits 32 bits, and else as many as it takes, of a size
      that is the greatest number of whole sectors below 2^32. */
  lemma HowManyExtents(f: DirFile, nm: Naming, joliet: bool)
    ensures f.size < 0x1_0000_0000 ==> Parts(f.size) == 1
    ensures f.size >= 0x1_0000_0000 ==> Parts(f.size) >= 2 && (Parts(f.size) - 1) * 0xFFFF_F800 < f.size <= Parts(f.size) * 0xFFFF_F800
    ensures FileRec(f, 0, nm, joliet).len == if f.size < 0x1_0000_0000 then f.size else 0xFFFF_F800
    ensures forall i :: 0 <= i < Parts(f.size) ==> FileRec(f, i, nm, joliet).ident == nm.Of(f.name + [0x3B, 0x31], joliet)
  {
  }

  /** '.', '..' and the record of a subdirectory. */
  lemma DirectoryRecs(d: DirItem, loc: int, len: int, nm: Naming, joliet: bool)
    ensures Dot(d, loc, len) == Rec(2, loc, len, d.stamp, [0]) && DotDot(d, loc, len) == Rec(2, loc, len, d.stamp, [1])
    ensures ChildRec(d, loc, len, nm, joliet) == Rec(2, loc, len, d.stamp, if joliet then nm.joliet(d.name) else nm.iso(d.name))
  {
  }
}
