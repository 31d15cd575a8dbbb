/** What an independent reader finds when identifiers do clash: nothing, so that the source
    tree is recovered exactly when it is unambiguous. */
module Recovery {
  import opened Wrappers
  import opened Bytes
  import opened Sectors
  import opened Records
  import opened SourceTree
  import opened Scan
  import opened ScanOrder
  import opened Build
  import opened Links
  import opened Clashes
  import opened Blocks
  import opened Layout
  import opened Volumes
  import opened Positions
  import opened Walk

  // ----- what a pass leaves of each record, with or without clashes

  /** No directory is spelled like '.', which file systems do not allow in a name. */
  ghost predicate NoDots(ds: seq<DirItem>, nm: Naming, joliet: bool) {
    forall d :: 0 <= d < |ds| ==> nm.Of(ds[d].name, joliet) != DOT
  }

  /** Record `i` of directory `d` is the first with its identifier. */
  ghost predicate First(ds: seq<DirItem>, d: nat, i: nat, nm: Naming, joliet: bool)
    requires d < |ds| && i < |Skeleton(ds, d, nm, joliet)|
  {
    forall q :: 0 <= q < i ==> Skeleton(ds, d, nm, joliet)[q].ident != Skeleton(ds, d, nm, joliet)[i].ident
  }

  /** The record gives the extent of some directory. */
  ghost predicate Moved(ds: seq<DirItem>, r: Rec, nm: Naming, joliet: bool) {
    exists k :: 0 <= k < |ds| && r.loc == LocOf(ds, k, nm, joliet) && r.len == LenOf(ds, k, nm, joliet)
  }

  /** Record `i` of directory `d` after `n` directories: as it was made, or patched with the
      extent of some directory. A '.' is right; the record of a subdirectory is right if
      nothing clashes, and never filled in if it is not the first with its identifier. */
  ghost predicate RecordAt(ds: seq<DirItem>, rs: seq<Rec>, n: nat, d: nat, i: nat, nm: Naming, joliet: bool)
    requires d < |ds| && i < |rs| == |Skeleton(ds, d, nm, joliet)|
  {
    var r, made, first := rs[i], Skeleton(ds, d, nm, joliet)[i], FirstKid(ds, d, nm, joliet);
    && r.flags == made.flags && r.ident == made.ident
    && ((r.loc == made.loc && r.len == made.len) || Moved(ds, r, nm, joliet))
    && (i == 0 ==> r.loc == LocOf(ds, d, nm, joliet) && r.len == LenOf(ds, d, nm, joliet))
    && (i >= first && ClashFreeAt(ds, d, nm, joliet) && Kids(ds, d)[i - first] < n ==> Linked(ds, r, Kids(ds, d)[i - first], nm, joliet))
    && (i >= first && !First(ds, d, i, nm, joliet) ==> r.loc == 0 && r.len == 0)
  }

  ghost predicate Linked(ds: seq<DirItem>, r: Rec, k: nat, nm: Naming, joliet: bool) {
    k < |ds| && r.loc == LocOf(ds, k, nm, joliet) && r.len == LenOf(ds, k, nm, joliet)
  }

  ghost predicate ItemPassed(ds: seq<DirItem>, rs: seq<Rec>, n: nat, d: nat, nm: Naming, joliet: bool)
    requires d < |ds|
  {
    && |rs| == |Skeleton(ds, d, nm, joliet)|
    && forall i :: 0 <= i < |rs| ==> RecordAt(ds, rs, n, d, i, nm, joliet)
  }

  lemma KidMember(ds: seq<DirItem>, d: nat, i: nat)
    requires d < |ds| && i < |Kids(ds, d)|
    ensures 0 < Kids(ds, d)[i] < |ds|
  {
    assert Kids(ds, d)[i] in Kids(ds, d);
  }

  // ----- the records of the directory at hand

  lemma MadeTail(ds: seq<DirItem>, d: nat, i: nat, nm: Naming, joliet: bool)
    requires d < |ds| && FirstKid(ds, d, nm, joliet) <= i < |Skeleton(ds, d, nm, joliet)|
    ensures var k := Kids(ds, d)[i - FirstKid(ds, d, nm, joliet)];
      && 0 < k < |ds|
      && Skeleton(ds, d, nm, joliet)[i] == ChildRec(ds[k], 0, 0, nm, joliet)
  {
    hide Kids, AllFileRecs;
    KidMember(ds, d, i - FirstKid(ds, d, nm, joliet));
  }

  lemma FreshPassed(ds: seq<DirItem>, es: seq<seq<Rec>>, n: nat, nm: Naming, joliet: bool)
    requires Ordered(ds) && n < |ds| && BuiltTo(ds, es, n, nm, joliet)
    requires ParentIdx(ds, n) >= 0 ==> es[ParentIdx(ds, n)] != []
    requires ParentIdx(ds, n) >= 0 ==> ItemPassed(ds, es[ParentIdx(ds, n)], n, ParentIdx(ds, n), nm, joliet)
    ensures ItemPassed(ds, FreshRecs(ds, es, n, nm, joliet), n + 1, n, nm, joliet)
  {
    hide Ordered, BuiltTo, ItemPassed, RecordAt, ParentIdx, Skeleton, LocOf, LenOf, Kids, FirstKid;
    FreshShape(ds, es, n, nm, joliet);
    var rs, m := FreshRecs(ds, es, n, nm, joliet), n + 1;
    forall i | 0 <= i < |rs| ensures RecordAt(ds, rs, m, n, i, nm, joliet) {
      if i < 2 {
        FreshHead(ds, es, n, i, nm, joliet);
      } else {
        FreshTailAt(ds, es, n, i, nm, joliet);
      }
    }
    PassedIs(ds, rs, m, n, nm, joliet);
  }

  lemma PassedIs(ds: seq<DirItem>, rs: seq<Rec>, n: nat, d: nat, nm: Naming, joliet: bool)
    requires d < |ds| && |rs| == |Skeleton(ds, d, nm, joliet)|
    requires forall i :: 0 <= i < |rs| ==> RecordAt(ds, rs, n, d, i, nm, joliet)
    ensures ItemPassed(ds, rs, n, d, nm, joliet)
  {
  }

  lemma FreshShape(ds: seq<DirItem>, es: seq<seq<Rec>>, n: nat, nm: Naming, joliet: bool)
    requires n < |ds| && BuiltTo(ds, es, n, nm, joliet)
    requires ParentIdx(ds, n) >= 0 ==> es[ParentIdx(ds, n)] != []
    ensures |es| == |ds| && |FreshRecs(ds, es, n, nm, joliet)| == |Skeleton(ds, n, nm, joliet)| >= 2
    ensures FirstKid(ds, n, nm, joliet) >= 2
    ensures FreshRecs(ds, es, n, nm, joliet)[2..] == Skeleton(ds, n, nm, joliet)[2..]
    ensures FreshRecs(ds, es, n, nm, joliet)[0] == Dot(ds[n], LocOf(ds, n, nm, joliet), LenOf(ds, n, nm, joliet))
    ensures var p, r := ParentIdx(ds, n), FreshRecs(ds, es, n, nm, joliet)[1];
      && r.flags == FLAG_DIR && r.ident == DOT_DOT
      && (p >= 0 ==> r.loc == es[p][0].loc && r.len == es[p][0].len)
      && (p < 0 ==> r.loc == LocOf(ds, n, nm, joliet) && r.len == LenOf(ds, n, nm, joliet))
    ensures Skeleton(ds, n, nm, joliet)[0] == Dot(ds[n], 0, 0) && Skeleton(ds, n, nm, joliet)[1] == DotDot(ds[n], 0, 0)
  {
    hide PredictSize, AlignUp, ParentIdx, ListSize, AllFileRecs, Kids;
    StepLocation(ds, es, n, nm, joliet);
    FreshDot(ds, es, n, nm, joliet);
  }

  lemma FreshHead(ds: seq<DirItem>, es: seq<seq<Rec>>, n: nat, i: nat, nm: Naming, joliet: bool)
    requires Ordered(ds) && n < |ds| && BuiltTo(ds, es, n, nm, joliet) && i < 2
    requires ParentIdx(ds, n) >= 0 ==> es[ParentIdx(ds, n)] != []
    requires ParentIdx(ds, n) >= 0 ==> ItemPassed(ds, es[ParentIdx(ds, n)], n, ParentIdx(ds, n), nm, joliet)
    ensures |FreshRecs(ds, es, n, nm, joliet)| == |Skeleton(ds, n, nm, joliet)| >= 2
    ensures RecordAt(ds, FreshRecs(ds, es, n, nm, joliet), n + 1, n, i, nm, joliet)
  {
    FreshShape(ds, es, n, nm, joliet);
    hide Ordered, BuiltTo, ParentIdx, Skeleton, LocOf, LenOf, Kids, FirstKid, FreshRecs, Moved, Linked, First, ClashFreeAt;
    var p, r := ParentIdx(ds, n), FreshRecs(ds, es, n, nm, joliet)[i];
    if i == 1 && p >= 0 {
      assert RecordAt(ds, es[p], n, p, 0, nm, joliet);
      MovedTo(ds, r, p, nm, joliet);
    } else {
      MovedTo(ds, r, n, nm, joliet);
    }
  }

  lemma MovedTo(ds: seq<DirItem>, r: Rec, k: nat, nm: Naming, joliet: bool)
    requires k < |ds| && r.loc == LocOf(ds, k, nm, joliet) && r.len == LenOf(ds, k, nm, joliet)
    ensures Moved(ds, r, nm, joliet)
  {
    hide LocOf, LenOf;
  }

  lemma FreshTailAt(ds: seq<DirItem>, es: seq<seq<Rec>>, n: nat, i: nat, nm: Naming, joliet: bool)
    requires Ordered(ds) && n < |ds| && BuiltTo(ds, es, n, nm, joliet)
    requires ParentIdx(ds, n) >= 0 ==> es[ParentIdx(ds, n)] != []
    requires |FreshRecs(ds, es, n, nm, joliet)| == |Skeleton(ds, n, nm, joliet)|
    requires 2 <= i < |Skeleton(ds, n, nm, joliet)|
    ensures RecordAt(ds, FreshRecs(ds, es, n, nm, joliet), n + 1, n, i, nm, joliet)
  {
    hide Ordered, BuiltTo, ParentIdx, Skeleton, LocOf, LenOf, Kids, FirstKid, FreshRecs, RecordAt;
    FreshShape(ds, es, n, nm, joliet);
    var rs, made := FreshRecs(ds, es, n, nm, joliet), Skeleton(ds, n, nm, joliet);
    assert rs[i] == rs[2..][i - 2] == made[2..][i - 2] == made[i];
    var first := FirstKid(ds, n, nm, joliet);
    if i >= first {
      MadeTail(ds, n, i, nm, joliet);
      KidIsLater(ds, n, i - first);
    }
    RecordAsMade(ds, rs, n + 1, n, i, nm, joliet);
  }

  lemma RecordAsMade(ds: seq<DirItem>, rs: seq<Rec>, n: nat, d: nat, i: nat, nm: Naming, joliet: bool)
    requires d < |ds| && 0 < i < |rs| == |Skeleton(ds, d, nm, joliet)| && rs[i] == Skeleton(ds, d, nm, joliet)[i]
    requires i >= FirstKid(ds, d, nm, joliet) ==> rs[i].loc == 0 && rs[i].len == 0 && Kids(ds, d)[i - FirstKid(ds, d, nm, joliet)] >= n
    ensures RecordAt(ds, rs, n, d, i, nm, joliet)
  {
    hide Skeleton, LocOf, LenOf, Kids, FirstKid, Moved, Linked, First, ClashFreeAt;
  }

  lemma KidIsLater(ds: seq<DirItem>, d: nat, i: nat)
    requires Ordered(ds) && d < |ds| && i < |Kids(ds, d)|
    ensures d < Kids(ds, d)[i] < |ds|
  {
    hide Ordered, ParentIdx;
    assert Kids(ds, d)[i] in Kids(ds, d);
    KidParent(ds, d, Kids(ds, d)[i]);
    OrderedAt(ds, Kids(ds, d)[i]);
  }

  // ----- the records of the directories before it

  /** One record is patched, the others stay. */
  lemma StepAt(ds: seq<DirItem>, es: seq<seq<Rec>>, n: nat, d: nat, nm: Naming, joliet: bool)
    requires Ordered(ds) && d < n < |ds| && BuiltTo(ds, es, n, nm, joliet)
    requires ParentIdx(ds, n) >= 0 ==> es[ParentIdx(ds, n)] != []
    ensures |es| == |ds| && ParentIdx(ds, n) != n
    ensures var found := FindEntry(es[d], nm.Of(ds[n].name, joliet));
      BuildStep(ds, es, n, nm, joliet)[d]
      == if ParentIdx(ds, n) == d && found.Some?
         then es[d][found.value := es[d][found.value].(loc := LocOf(ds, n, nm, joliet), len := LenOf(ds, n, nm, joliet))]
         else es[d]
  {
    hide Ordered, FreshRecs, FindEntry, ParentIdx, BuiltTo, Skeleton, LocOf, LenOf;
    BuiltSize(ds, es, n, nm, joliet);
    OrderedAt(ds, n);
    FreshDot(ds, es, n, nm, joliet);
  }

  lemma StepPassed(ds: seq<DirItem>, es: seq<seq<Rec>>, n: nat, d: nat, nm: Naming, joliet: bool)
    requires Ordered(ds) && NoDots(ds, nm, joliet) && d < n < |ds| && BuiltTo(ds, es, n, nm, joliet)
    requires ParentIdx(ds, n) >= 0 ==> es[ParentIdx(ds, n)] != []
    requires ParentIdx(ds, n) != n && |es| == |ds|
    requires ItemPassed(ds, es[d], n, d, nm, joliet)
    ensures ItemPassed(ds, BuildStep(ds, es, n, nm, joliet)[d], n + 1, d, nm, joliet)
  {
    StepAt(ds, es, n, d, nm, joliet);
    var found := FindEntry(es[d], nm.Of(ds[n].name, joliet));
    if ParentIdx(ds, n) == d && found.Some? {
      KidParent(ds, d, n);
      PatchPassed(ds, es[d], n, d, found.value, nm, joliet);
    } else {
      OthersPassed(ds, es[d], n, d, nm, joliet);
    }
  }

  /** A directory that gets no patch is not the parent, or has no record to patch. */
  lemma OthersPassed(ds: seq<DirItem>, rs: seq<Rec>, n: nat, d: nat, nm: Naming, joliet: bool)
    requires Ordered(ds) && d < n < |ds| && ItemPassed(ds, rs, n, d, nm, joliet)
    requires ParentIdx(ds, n) != d || FindEntry(rs, nm.Of(ds[n].name, joliet)).None?
    ensures ItemPassed(ds, rs, n + 1, d, nm, joliet)
  {
    hide Ordered, ParentIdx, Skeleton, LocOf, LenOf, Kids, FirstKid, RecordAt;
    var m := n + 1;
    forall i | 0 <= i < |rs| ensures RecordAt(ds, rs, m, d, i, nm, joliet) {
      assert RecordAt(ds, rs, n, d, i, nm, joliet);
      OtherRecord(ds, rs, n, d, i, nm, joliet);
    }
  }

  lemma OtherRecord(ds: seq<DirItem>, rs: seq<Rec>, n: nat, d: nat, i: nat, nm: Naming, joliet: bool)
    requires Ordered(ds) && d < n < |ds| && i < |rs| == |Skeleton(ds, d, nm, joliet)| && RecordAt(ds, rs, n, d, i, nm, joliet)
    requires ParentIdx(ds, n) != d || FindEntry(rs, nm.Of(ds[n].name, joliet)).None?
    ensures RecordAt(ds, rs, n + 1, d, i, nm, joliet)
  {
    hide Ordered, ParentIdx, Skeleton, LocOf, LenOf, Kids, FirstKid, Moved, Linked, First, ClashFreeAt;
    var first := FirstKid(ds, d, nm, joliet);
    if i >= first {
      MadeTail(ds, d, i, nm, joliet);
      if Kids(ds, d)[i - first] == n {
        KidParentIs(ds, d, i - first);
      }
    }
  }

  lemma KidParentIs(ds: seq<DirItem>, d: nat, i: nat)
    requires Ordered(ds) && d < |ds| && i < |Kids(ds, d)|
    ensures Kids(ds, d)[i] < |ds| && ParentIdx(ds, Kids(ds, d)[i]) == d
  {
    hide Ordered, ParentIdx;
    assert Kids(ds, d)[i] in Kids(ds, d);
    KidParent(ds, d, Kids(ds, d)[i]);
  }

  /** Patching record `f`, the first with the identifier of `n`. */
  lemma PatchPassed(ds: seq<DirItem>, rs: seq<Rec>, n: nat, d: nat, f: nat, nm: Naming, joliet: bool)
    requires NoDots(ds, nm, joliet) && d < n < |ds| && ItemPassed(ds, rs, n, d, nm, joliet) && n in Kids(ds, d)
    requires FindEntry(rs, nm.Of(ds[n].name, joliet)) == Some(f)
    ensures f < |rs|
    ensures ItemPassed(ds, rs[f := rs[f].(loc := LocOf(ds, n, nm, joliet), len := LenOf(ds, n, nm, joliet))], n + 1, d, nm, joliet)
  {
    hide Ordered, NoDots, Skeleton, LocOf, LenOf, Kids, FirstKid, RecordAt, FindEntry;
    FoundIsFirst(ds, rs, n, d, f, nm, joliet);
    var rs' := rs[f := rs[f].(loc := LocOf(ds, n, nm, joliet), len := LenOf(ds, n, nm, joliet))];
    var m := n + 1;
    forall i | 0 <= i < |rs'| ensures RecordAt(ds, rs', m, d, i, nm, joliet) {
      assert RecordAt(ds, rs, n, d, i, nm, joliet);
      if i == f {
        PatchedRecord(ds, rs, n, d, f, nm, joliet);
      } else {
        UnpatchedRecord(ds, rs, rs', n, d, f, i, nm, joliet);
      }
    }
  }

  /** The record that is found is the first with its identifier, and no '.'. */
  lemma FoundIsFirst(ds: seq<DirItem>, rs: seq<Rec>, n: nat, d: nat, f: nat, nm: Naming, joliet: bool)
    requires n < |ds| && d < |ds| && ItemPassed(ds, rs, n, d, nm, joliet) && NoDots(ds, nm, joliet)
    requires FindEntry(rs, nm.Of(ds[n].name, joliet)) == Some(f)
    ensures f < |rs| == |Skeleton(ds, d, nm, joliet)| && First(ds, d, f, nm, joliet)
    ensures Skeleton(ds, d, nm, joliet)[f].ident == nm.Of(ds[n].name, joliet) && f > 0
  {
    hide FirstKid, Kids, LocOf, LenOf, Moved, Linked, ClashFreeAt, FindEntry, AllFileRecs, UnlinkedKids;
    assert RecordAt(ds, rs, n, d, f, nm, joliet);
    forall q | 0 <= q < f ensures Skeleton(ds, d, nm, joliet)[q].ident != Skeleton(ds, d, nm, joliet)[f].ident {
      assert RecordAt(ds, rs, n, d, q, nm, joliet);
    }
    assert Skeleton(ds, d, nm, joliet)[0].ident == DOT;
  }

  lemma PatchedRecord(ds: seq<DirItem>, rs: seq<Rec>, n: nat, d: nat, f: nat, nm: Naming, joliet: bool)
    requires d < n < |ds| && 0 < f < |rs| == |Skeleton(ds, d, nm, joliet)| && RecordAt(ds, rs, n, d, f, nm, joliet)
    requires First(ds, d, f, nm, joliet) && Skeleton(ds, d, nm, joliet)[f].ident == nm.Of(ds[n].name, joliet)
    requires n in Kids(ds, d)
    ensures RecordAt(ds, rs[f := rs[f].(loc := LocOf(ds, n, nm, joliet), len := LenOf(ds, n, nm, joliet))], n + 1, d, f, nm, joliet)
  {
    hide Skeleton, LocOf, LenOf, Kids, FirstKid, Moved, First, ClashFreeAt;
    MovedTo(ds, rs[f].(loc := LocOf(ds, n, nm, joliet), len := LenOf(ds, n, nm, joliet)), n, nm, joliet);
    if f >= FirstKid(ds, d, nm, joliet) && ClashFreeAt(ds, d, nm, joliet) {
      OwnRecord(ds, n, d, f, nm, joliet);
    }
  }

  /** Without clashes the record with the identifier of `n` is that of `n`. */
  lemma OwnRecord(ds: seq<DirItem>, n: nat, d: nat, f: nat, nm: Naming, joliet: bool)
    requires d < |ds| && n < |ds| && n in Kids(ds, d) && ClashFreeAt(ds, d, nm, joliet)
    requires f < |Skeleton(ds, d, nm, joliet)| && Skeleton(ds, d, nm, joliet)[f].ident == nm.Of(ds[n].name, joliet)
    ensures FirstKid(ds, d, nm, joliet) <= f && Kids(ds, d)[f - FirstKid(ds, d, nm, joliet)] == n
  {
    hide Skeleton, Kids, FirstKid;
    var t :| 0 <= t < |Kids(ds, d)| && Kids(ds, d)[t] == n;
    var own := FirstKid(ds, d, nm, joliet) + t;
    MadeTail(ds, d, own, nm, joliet);
    assert f == own;
  }

  lemma UnpatchedRecord(ds: seq<DirItem>, rs: seq<Rec>, rs': seq<Rec>, n: nat, d: nat, f: nat, i: nat, nm: Naming, joliet: bool)
    requires d < n < |ds| && f < |rs| == |rs'| == |Skeleton(ds, d, nm, joliet)| && i < |rs| && i != f && rs'[i] == rs[i]
    requires RecordAt(ds, rs, n, d, i, nm, joliet) && First(ds, d, f, nm, joliet)
    requires Skeleton(ds, d, nm, joliet)[f].ident == nm.Of(ds[n].name, joliet)
    ensures RecordAt(ds, rs', n + 1, d, i, nm, joliet)
  {
    hide Skeleton, LocOf, LenOf, Kids, FirstKid, Moved, Linked, First, ClashFreeAt;
    var first := FirstKid(ds, d, nm, joliet);
    if i >= first {
      MadeTail(ds, d, i, nm, joliet);
      if Kids(ds, d)[i - first] == n && ClashFreeAt(ds, d, nm, joliet) {
        KidMember(ds, d, i - first);
        assert n in Kids(ds, d);
        OwnRecord(ds, n, d, f, nm, joliet);
        assert false;
      }
    }
  }

  lemma {:induction false} PassPassed(ds: seq<DirItem>, n: nat, d: nat, nm: Naming, joliet: bool)
    requires Ordered(ds) && NoDots(ds, nm, joliet) && d < n <= |ds|
    ensures |BuildPass(ds, n, nm, joliet)| == |ds|
    ensures ItemPassed(ds, BuildPass(ds, n, nm, joliet)[d], n, d, nm, joliet)
    decreases n
  {
    hide Ordered, NoDots, BuildStep, BuiltTo, BuildPass, ItemPassed, ParentIdx;
    PassStep(ds, n - 1, nm, joliet);
    var es := BuildPass(ds, n - 1, nm, joliet);
    if d < n - 1 {
      PassPassed(ds, n - 1, d, nm, joliet);
      StepPassed(ds, es, n - 1, d, nm, joliet);
    } else {
      if ParentIdx(ds, d) >= 0 {
        PassPassed(ds, d, ParentIdx(ds, d), nm, joliet);
      }
      FreshPassed(ds, es, d, nm, joliet);
    }
  }

  // ----- the final records

  /** Where a record of the finished image lies. */
  ghost function Base(v: Volume, joliet: bool, made: Rec): nat
    requires v.Valid()
  {
    if made.IsDir() then v.DirLBA(joliet) else v.FilesLBA()
  }

  lemma FinalPassed(v: Volume, joliet: bool, d: nat)
    requires v.Valid() && NoDots(v.ds, v.nm, joliet) && d < |v.ds|
    ensures |v.Built(joliet)| == |v.ds| == |v.Recs(joliet)|
    ensures ItemPassed(v.ds, v.Built(joliet)[d], |v.ds|, d, v.nm, joliet)
    ensures v.Recs(joliet)[d] == FixLBA(v.Built(joliet)[d], v.DirLBA(joliet), v.FilesLBA())
  {
    hide ScanDone, Ordered, NoDots, ItemPassed, BuildPass, FixLBA, Volume.DirLBA, Volume.FilesLBA;
    VolumeFacts(v);
    PassPassed(v.ds, |v.ds|, d, v.nm, joliet);
  }

  /** What the finished records of directory `d` have in common with the records as made. */
  lemma FinalRecord(v: Volume, joliet: bool, d: nat, i: nat)
    requires v.Valid() && NoDots(v.ds, v.nm, joliet) && d < |v.ds|
    requires i < |Skeleton(v.ds, d, v.nm, joliet)|
    ensures |v.Built(joliet)| == |v.Recs(joliet)| == |v.ds|
    ensures |v.Recs(joliet)[d]| == |v.Built(joliet)[d]| == |Skeleton(v.ds, d, v.nm, joliet)|
    ensures var r, b, made := v.Recs(joliet)[d][i], v.Built(joliet)[d][i], Skeleton(v.ds, d, v.nm, joliet)[i];
      && r.flags == made.flags && r.ident == made.ident && r.len == b.len && r.loc == b.loc + Base(v, joliet, made)
      && RecordAt(v.ds, v.Built(joliet)[d], |v.ds|, d, i, v.nm, joliet)
  {
    hide Volume.Valid, Volume.Built, Volume.Recs, Volume.DirLBA, Volume.FilesLBA, NoDots, Skeleton, FirstKid, Kids, LocOf, LenOf, First, ClashFreeAt, Moved, Linked;
    FinalPassed(v, joliet, d);
    assert RecordAt(v.ds, v.Built(joliet)[d], |v.ds|, d, i, v.nm, joliet);
  }

  lemma MovedFits(v: Volume, joliet: bool, r: Rec, base: nat)
    requires v.Valid() && Moved(v.ds, r, v.nm, joliet) && FitsFormat(v, joliet) && base <= v.FilesLBA()
    ensures 0 <= r.loc + base < TWO_TO_THE_32 && 0 <= r.len < TWO_TO_THE_32
  {
    hide Volume.Valid, Volume.DirLBA, Volume.FilesLBA, Volume.VolumeSectors, LocOf, LenOf;
    var k :| 0 <= k < |v.ds| && r.loc == LocOf(v.ds, k, v.nm, joliet) && r.len == LenOf(v.ds, k, v.nm, joliet);
    DirectoryBelowFiles(v, joliet, k);
  }

  lemma BaseBelowFiles(v: Volume, joliet: bool, made: Rec)
    requires v.Valid()
    ensures Base(v, joliet, made) <= v.FilesLBA() <= v.VolumeSectors()
  {
    hide Volume.Valid, Volume.TableSectors, LocOf;
  }

  /** A record as it was made fits its fields. */
  lemma MadeFits(v: Volume, joliet: bool, d: nat, i: nat)
    requires v.Valid() && v.Encodable() && d < |v.ds| && v.VolumeSectors() < 0x8000_0000
    requires i < |Skeleton(v.ds, d, v.nm, joliet)|
    ensures var made := Skeleton(v.ds, d, v.nm, joliet)[i];
      0 <= made.loc + Base(v, joliet, made) < TWO_TO_THE_32 && 0 <= made.len < TWO_TO_THE_32
  {
    hide Volume.Valid, Volume.Encodable, Volume.DirLBA, Volume.FilesLBA, Volume.VolumeSectors, Kids, Base, AllFileRecs;
    var made, files := Skeleton(v.ds, d, v.nm, joliet)[i], AllFileRecs(v.ds[d].files, v.nm, joliet);
    BaseBelowFiles(v, joliet, made);
    if 2 <= i < 2 + |files| {
      assert made == files[i - 2];
      MadeFileFits(v, joliet, d, i - 2);
    } else if i >= 2 {
      MadeTail(v.ds, d, i, v.nm, joliet);
    }
  }

  lemma MadeFileFits(v: Volume, joliet: bool, d: nat, i: nat)
    requires v.Valid() && v.Encodable() && d < |v.ds| && v.VolumeSectors() < 0x8000_0000
    requires i < |AllFileRecs(v.ds[d].files, v.nm, joliet)|
    ensures var made := AllFileRecs(v.ds[d].files, v.nm, joliet)[i];
      0 <= made.loc + Base(v, joliet, made) < TWO_TO_THE_32 && 0 <= made.len < TWO_TO_THE_32
  {
    hide Volume.Valid, Volume.Encodable, Volume.DirLBA, Volume.FilesLBA, Volume.VolumeSectors, AllFileRecs, PlacedAll;
    var files := AllFileRecs(v.ds[d].files, v.nm, joliet);
    FixedFiles(v.ds[d].files, v.DirLBA(joliet), v.FilesLBA(), v.nm, joliet);
    var placed := FixLBA(files, v.DirLBA(joliet), v.FilesLBA());
    assert placed[i] in placed;
    FileFieldsFit(v, joliet, d, placed[i]);
  }

  /** Also with clashes every final record survives its fields. */
  lemma AlwaysRepresentable(v: Volume, joliet: bool, d: nat)
    requires v.Valid() && v.Encodable() && d < |v.ds| && NoDots(v.ds, v.nm, joliet) && FitsFormat(v, joliet)
    ensures |v.Recs(joliet)| == |v.ds|
    ensures forall r :: r in v.Recs(joliet)[d] ==> Representable(r)
  {
    hide Volume.Valid, Volume.Encodable, Volume.Recs, Volume.Built, Volume.DirLBA, Volume.FilesLBA, Volume.VolumeSectors;
    hide Skeleton, NoDots, Representable, LenOf, LocOf, Base, Moved, Linked, First, ClashFreeAt, Kids, FirstKid, ItemPassed;
    FinalPassed(v, joliet, d);
    FinalRecord(v, joliet, d, 0) by { SkeletonHas(v.ds, d, v.nm, joliet); }
    var rs, made := v.Recs(joliet)[d], Skeleton(v.ds, d, v.nm, joliet);
    forall r | r in rs ensures Representable(r) {
      var i :| 0 <= i < |rs| && rs[i] == r;
      FinalRecord(v, joliet, d, i);
      BaseBelowFiles(v, joliet, made[i]);
      MadeFits(v, joliet, d, i);
      if Moved(v.ds, v.Built(joliet)[d][i], v.nm, joliet) {
        MovedFits(v, joliet, v.Built(joliet)[d][i], Base(v, joliet, made[i]));
      }
      assert made[i] in made;
      ShortIdentifier(r);
    }
  }

  lemma SkeletonHas(ds: seq<DirItem>, d: nat, nm: Naming, joliet: bool)
    requires d < |ds|
    ensures |Skeleton(ds, d, nm, joliet)| >= 2
    ensures Skeleton(ds, d, nm, joliet)[0] == Dot(ds[d], 0, 0)
  {
    hide Kids, AllFileRecs;
  }

  /** The '.' of a directory gives its own extent. */
  lemma DotIsOwn(v: Volume, joliet: bool, d: nat)
    requires v.Valid() && NoDots(v.ds, v.nm, joliet) && d < |v.ds|
    ensures |v.Recs(joliet)| == |v.ds| && |v.Recs(joliet)[d]| >= 2
    ensures v.Recs(joliet)[d][0].loc == LocIn(v, joliet, d) && v.Recs(joliet)[d][0].len == LenOf(v.ds, d, v.nm, joliet)
    ensures v.Recs(joliet)[d][0].ident == DOT
  {
    hide Volume.Valid, Volume.Recs, Volume.Built, Volume.DirLBA, Volume.FilesLBA;
    hide Skeleton, NoDots, LenOf, LocOf, Moved, Linked, First, ClashFreeAt, Kids, FirstKid;
    SkeletonHas(v.ds, d, v.nm, joliet);
    FinalRecord(v, joliet, d, 0);
  }

  /** The record of a subdirectory in the finished image: right without clashes, empty if it
      is not the first with its identifier. */
  lemma FinalChild(v: Volume, joliet: bool, d: nat, i: nat)
    requires v.Valid() && NoDots(v.ds, v.nm, joliet) && d < |v.ds| && i < |Kids(v.ds, d)|
    ensures |v.Recs(joliet)| == |v.ds|
    ensures var first, k := FirstKid(v.ds, d, v.nm, joliet), Kids(v.ds, d)[i];
      && k < |v.ds|
      && |v.Recs(joliet)[d]| == |Skeleton(v.ds, d, v.nm, joliet)| == first + |Kids(v.ds, d)| && first >= 2
      && v.Recs(joliet)[d][first + i].IsDir()
      && (ClashFreeAt(v.ds, d, v.nm, joliet) ==>
            && v.Recs(joliet)[d][first + i].loc == LocIn(v, joliet, k)
            && v.Recs(joliet)[d][first + i].len == LenOf(v.ds, k, v.nm, joliet))
      && (!First(v.ds, d, first + i, v.nm, joliet) ==> v.Recs(joliet)[d][first + i].len == 0)
  {
    hide Volume.Valid, Volume.Recs, Volume.Built, Volume.DirLBA, Volume.FilesLBA;
    hide Skeleton, NoDots, LenOf, LocOf, Moved, First, ClashFreeAt, Kids, FirstKid;
    KidCount(v.ds, d, v.nm, joliet);
    MadeTail(v.ds, d, FirstKid(v.ds, d, v.nm, joliet) + i, v.nm, joliet);
    FinalRecord(v, joliet, d, FirstKid(v.ds, d, v.nm, joliet) + i);
  }

  lemma KidCount(ds: seq<DirItem>, d: nat, nm: Naming, joliet: bool)
    requires d < |ds|
    ensures |Skeleton(ds, d, nm, joliet)| == FirstKid(ds, d, nm, joliet) + |Kids(ds, d)| && FirstKid(ds, d, nm, joliet) >= 2
  {
    hide Kids, AllFileRecs;
  }

  // ----- reading

  predicate SameFlags(a: seq<Rec>, b: seq<Rec>) {
    |a| == |b| && forall i :: 0 <= i < |a| ==> a[i].flags == b[i].flags
  }

  /** However its records have been patched, a file takes up as many as it has. */
  lemma {:induction false} RunUsed(image: seq<Byte>, f: DirFile, rs: seq<Rec>, i: nat, rest: seq<Rec>, nm: Naming, joliet: bool)
    requires i < Parts(f.size) && SameFlags(rs, FileRecs(f, nm, joliet))
    requires ReadExtents(image, rs[i..] + rest).Some?
    ensures ReadExtents(image, rs[i..] + rest).value.1 == Parts(f.size) - i
    decreases Parts(f.size) - i
  {
    hide Parts, Cut;
    assert (rs[i..] + rest)[0] == rs[i];
    ExtentsTile(f, nm, joliet, i);
    if i < Parts(f.size) - 1 {
      assert (rs[i..] + rest)[1..] == rs[i + 1..] + rest;
      RunUsed(image, f, rs, i + 1, rest, nm, joliet);
    }
  }

  /** What reads as a whole reads behind its first file. */
  lemma FileSkipped(image: seq<Byte>, f: DirFile, rs: seq<Rec>, rest: seq<Rec>, depth: nat, nm: Naming, joliet: bool)
    requires SameFlags(rs, FileRecs(f, nm, joliet)) && ReadEntries(image, rs + rest, depth).Some?
    ensures ReadEntries(image, rest, depth).Some?
  {
    hide Parts, FileRec, ReadExtents;
    ExtentsTile(f, nm, joliet, 0);
    assert (rs + rest)[0] == rs[0] && rs[0..] + rest == rs + rest;
    RunUsed(image, f, rs, 0, rest, nm, joliet);
    assert (rs + rest)[|rs|..] == rest;
  }

  lemma {:induction false} FilesSkipped(image: seq<Byte>, fs: seq<DirFile>, rs: seq<Rec>, rest: seq<Rec>, depth: nat, nm: Naming, joliet: bool)
    requires SameFlags(rs, AllFileRecs(fs, nm, joliet)) && ReadEntries(image, rs + rest, depth).Some?
    ensures ReadEntries(image, rest, depth).Some?
  {
    hide FileRecs, ReadEntries;
    if fs == [] {
      assert rs + rest == rest;
    } else {
      var n := |FileRecs(fs[0], nm, joliet)|;
      assert rs + rest == rs[..n] + (rs[n..] + rest);
      FileSkipped(image, fs[0], rs[..n], rs[n..] + rest, depth, nm, joliet);
      FilesSkipped(image, fs[1..], rs[n..], rest, depth, nm, joliet);
    }
  }

  /** What reads as a whole reads in every subdirectory. */
  lemma {:induction false} KidsRead(image: seq<Byte>, rs: seq<Rec>, i: nat, depth: nat)
    requires i < |rs| && (forall j :: 0 <= j < |rs| ==> rs[j].IsDir()) && ReadEntries(image, rs, depth).Some?
    ensures ReadDirectory(image, rs[i].loc, rs[i].len, depth).Some?
  {
    hide ReadDirectory;
    if i > 0 {
      KidsRead(image, rs[1..], i - 1, depth);
    }
  }

  /** Nothing can be read from an empty extent. */
  lemma EmptyExtent(image: seq<Byte>, loc: int, depth: nat)
    ensures ReadDirectory(image, loc, 0, depth).None?
  {
    hide ReadEntries;
    assert Cut(image, loc * SECTOR_SIZE, 0).Some? ==> Cut(image, loc * SECTOR_SIZE, 0).value == [];
  }

  lemma EntriesRead(image: seq<Byte>, loc: int, len: int, rs: seq<Rec>, depth: nat)
    requires Cut(image, loc * SECTOR_SIZE, len) == Some(Extent(rs)) && (forall r :: r in rs ==> Representable(r))
    requires ReadDirectory(image, loc, len, depth).Some?
    ensures depth > 0 && |rs| >= 2 && ReadEntries(image, rs[2..], depth - 1).Some?
  {
    hide ReadEntries, ParseExtent, Extent, Cut, Representable;
    ExtentRoundTrip(rs);
  }

  lemma MadeFile(ds: seq<DirItem>, d: nat, i: nat, nm: Naming, joliet: bool)
    requires d < |ds| && i < |AllFileRecs(ds[d].files, nm, joliet)|
    ensures FirstKid(ds, d, nm, joliet) == 2 + |AllFileRecs(ds[d].files, nm, joliet)| <= |Skeleton(ds, d, nm, joliet)|
    ensures Skeleton(ds, d, nm, joliet)[2 + i] == AllFileRecs(ds[d].files, nm, joliet)[i]
  {
    hide Kids, AllFileRecs;
  }

  lemma FileFlags(v: Volume, joliet: bool, d: nat)
    requires v.Valid() && NoDots(v.ds, v.nm, joliet) && d < |v.ds|
    ensures var first := FirstKid(v.ds, d, v.nm, joliet);
      && |v.Recs(joliet)| == |v.ds| && 2 <= first <= |v.Recs(joliet)[d]|
      && SameFlags(v.Recs(joliet)[d][2..first], AllFileRecs(v.ds[d].files, v.nm, joliet))
  {
    hide Volume.Valid, Volume.Recs, Volume.Built, NoDots, AllFileRecs, RecordAt, Base, ItemPassed, Kids, Skeleton;
    KidCount(v.ds, d, v.nm, joliet);
    FinalRecord(v, joliet, d, 0);
    var rs, files := v.Recs(joliet)[d][2..FirstKid(v.ds, d, v.nm, joliet)], AllFileRecs(v.ds[d].files, v.nm, joliet);
    forall i | 0 <= i < |rs| ensures |rs| == |files| && rs[i].flags == files[i].flags {
      FinalRecord(v, joliet, d, 2 + i);
      MadeFile(v.ds, d, i, v.nm, joliet);
    }
  }

  /** A directory that can be read at all can be read from its first subdirectory on. */
  lemma KidsOfRead(v: Volume, joliet: bool, d: nat, depth: nat)
    requires v.Valid() && v.Encodable() && NoDots(v.ds, v.nm, joliet) && FitsFormat(v, joliet) && d < |v.ds|
    requires ReadDirectory(v.Image(), LocIn(v, joliet, d), LenOf(v.ds, d, v.nm, joliet), depth).Some?
    ensures |v.Recs(joliet)| == |v.ds| && FirstKid(v.ds, d, v.nm, joliet) <= |v.Recs(joliet)[d]| && depth > 0
    ensures ReadEntries(v.Image(), v.Recs(joliet)[d][FirstKid(v.ds, d, v.nm, joliet)..], depth - 1).Some?
  {
    hide Volume.Valid, Volume.Encodable, Volume.Image, Volume.Recs, NoDots, FitsFormat, LocIn, LenOf, Kids, FirstKid;
    hide ReadDirectory, ReadEntries, Extent, Cut, Representable, SameFlags;
    DirectoryCut(v, joliet, d);
    AlwaysRepresentable(v, joliet, d);
    var rs, first := v.Recs(joliet)[d], FirstKid(v.ds, d, v.nm, joliet);
    EntriesRead(v.Image(), LocIn(v, joliet, d), LenOf(v.ds, d, v.nm, joliet), rs, depth);
    FileFlags(v, joliet, d);
    assert rs[2..] == rs[2..first] + rs[first..];
    FilesSkipped(v.Image(), v.ds[d].files, rs[2..first], rs[first..], depth - 1, v.nm, joliet);
  }

  /** A directory that can be read at all can be read in every subdirectory record. */
  lemma ChildRecordReads(v: Volume, joliet: bool, d: nat, i: nat, depth: nat)
    requires v.Valid() && v.Encodable() && NoDots(v.ds, v.nm, joliet) && FitsFormat(v, joliet)
    requires d < |v.ds| && i < |Kids(v.ds, d)|
    requires ReadDirectory(v.Image(), LocIn(v, joliet, d), LenOf(v.ds, d, v.nm, joliet), depth).Some?
    ensures |v.Recs(joliet)| == |v.ds| && FirstKid(v.ds, d, v.nm, joliet) + i < |v.Recs(joliet)[d]| && depth > 0
    ensures var r := v.Recs(joliet)[d][FirstKid(v.ds, d, v.nm, joliet) + i];
      ReadDirectory(v.Image(), r.loc, r.len, depth - 1).Some?
  {
    hide Volume.Valid, Volume.Encodable, Volume.Image, Volume.Recs, NoDots, FitsFormat, LocIn, LenOf, Kids, FirstKid, Skeleton;
    hide ReadDirectory, ReadEntries, First, ClashFreeAt;
    KidsOfRead(v, joliet, d, depth);
    FinalChild(v, joliet, d, i);
    var kids := v.Recs(joliet)[d][FirstKid(v.ds, d, v.nm, joliet)..];
    forall j | 0 <= j < |kids| ensures kids[j].IsDir() {
      FinalChild(v, joliet, d, j);
    }
    KidsRead(v.Image(), kids, i, depth - 1);
  }

  /** A directory that can be read has no clashes. */
  lemma ReadsMeansClashFree(v: Volume, joliet: bool, d: nat, depth: nat)
    requires v.Valid() && v.Encodable() && NoDots(v.ds, v.nm, joliet) && FitsFormat(v, joliet) && d < |v.ds|
    requires ReadDirectory(v.Image(), LocIn(v, joliet, d), LenOf(v.ds, d, v.nm, joliet), depth).Some?
    ensures ClashFreeAt(v.ds, d, v.nm, joliet)
  {
    hide Volume.Valid, Volume.Encodable, Volume.Image, Volume.Recs, NoDots, FitsFormat, LocIn, LenOf, Kids, FirstKid, Skeleton, ReadDirectory;
    KidCount(v.ds, d, v.nm, joliet);
    var first := FirstKid(v.ds, d, v.nm, joliet);
    forall q, r | 0 <= q < r < |Skeleton(v.ds, d, v.nm, joliet)| && r >= first
      ensures Skeleton(v.ds, d, v.nm, joliet)[q].ident != Skeleton(v.ds, d, v.nm, joliet)[r].ident
    {
      ChildRecordReads(v, joliet, d, r - first, depth);
      FinalChild(v, joliet, d, r - first);
      EmptyExtent(v.Image(), v.Recs(joliet)[d][r].loc, depth - 1);
      assert First(v.ds, d, r, v.nm, joliet);
    }
  }

  /** If the root can be read, so can every directory. */
  lemma {:induction false} EveryDirReads(v: Volume, joliet: bool, top: nat, d: nat) returns (depth: nat)
    requires v.Valid() && v.Encodable() && NoDots(v.ds, v.nm, joliet) && FitsFormat(v, joliet) && d < |v.ds|
    requires ReadDirectory(v.Image(), LocIn(v, joliet, 0), LenOf(v.ds, 0, v.nm, joliet), top).Some?
    ensures ReadDirectory(v.Image(), LocIn(v, joliet, d), LenOf(v.ds, d, v.nm, joliet), depth).Some?
    decreases d
  {
    hide Volume.Valid, Volume.Encodable, Volume.Image, Volume.Recs, NoDots, FitsFormat, LocIn, LenOf, Kids, FirstKid, ReadDirectory;
    hide Ordered, ParentIdx, ClashFreeAt, First, Skeleton;
    if d == 0 {
      depth := top;
    } else {
      VolumeFacts(v);
      OrderedAt(v.ds, d);
      var p := ParentIdx(v.ds, d);
      KidParent(v.ds, p, d);
      var i :| 0 <= i < |Kids(v.ds, p)| && Kids(v.ds, p)[i] == d;
      var above := EveryDirReads(v, joliet, top, p);
      ReadsMeansClashFree(v, joliet, p, above);
      ChildRecordReads(v, joliet, p, i, above);
      FinalChild(v, joliet, p, i);
      depth := above - 1;
    }
  }

  /** The reader starts at the root directory, with or without clashes. */
  lemma StartsAtRoot(v: Volume, joliet: bool, depth: nat)
    requires v.Valid() && v.Encodable() && NoDots(v.ds, v.nm, joliet) && FitsFormat(v, joliet)
    ensures |v.ds| > 0
    ensures ReadVolume(v.Image(), joliet, depth)
            == ReadDirectory(v.Image(), LocIn(v, joliet, 0), LenOf(v.ds, 0, v.nm, joliet), depth)
  {
    hide Volume.Encodable, Volume.Image, Volume.Recs, Volume.Root, NoDots, FitsFormat, LocIn, LenOf, ReadDirectory, ReadVolume, ScanDone, Ordered;
    hide Volume.Valid;
    RootIsFirstRecord(v, joliet);
    DotIsOwn(v, joliet, 0);
    AlwaysRepresentable(v, joliet, 0);
    assert v.Root(joliet) in v.Recs(joliet)[0];
    VolumeStartsAtRoot(v, joliet, depth);
  }

  /** The reader recovers the source tree exactly when no subdirectory is spelled like '..' or
      one of its siblings; otherwise it finds nothing at all. */
  lemma RecoveredIffUnambiguous(v: Volume, joliet: bool, depth: nat)
    requires v.Valid() && v.Encodable() && FitsFormat(v, joliet) && NoDots(v.ds, v.nm, joliet)
    requires Height(v.root) <= depth
    ensures v.root.DirNode? && ValidTree(v.root)
    ensures ReadVolume(v.Image(), joliet, depth)
            == if Unambiguous(v.root, v.nm, joliet) then Some(Denote(v.root, v.nm, joliet)) else None
  {
    VolumeFacts(v);
    DoneIsValid(v.root, v.rootName, v.ds);
    RootIsFirst(v);
    hide Volume.Valid, Volume.Encodable, Volume.Image, NoDots, FitsFormat, LocIn, LenOf, ReadDirectory, ReadVolume, ScanDone, Ordered;
    hide ClashFree, ClashFreeAt, Unambiguous, Denote, Height, ValidTree;
    ClashFreeIffUnambiguous(v.root, v.rootName, v.ds, v.nm, joliet);
    if ClashFree(v.ds, v.nm, joliet) {
      ImageRecoversTree(v, joliet, depth);
    } else if ReadVolume(v.Image(), joliet, depth).Some? {
      StartsAtRoot(v, joliet, depth);
      forall d | 0 <= d < |v.ds| ensures ClashFreeAt(v.ds, d, v.nm, joliet) {
        var below := EveryDirReads(v, joliet, depth, d);
        ReadsMeansClashFree(v, joliet, d, below);
      }
      ClashFreeByItem(v.ds, v.nm, joliet);
    }
  }
}
