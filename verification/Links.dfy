/** Where the build pass leaves the links between directories, and exactly when
    they are right. */
module Links {
  import opened Wrappers
  import opened Bytes
  import opened Sectors
  import opened Records
  import opened SourceTree
  import opened Scan
  import opened Build

  /** The extent length of directory `d`. */
  function LenOf(ds: seq<DirItem>, d: nat, nm: Naming, joliet: bool): (n: nat)
    requires d < |ds|
    ensures n % SECTOR_SIZE == 0
  {
    AlignUp(PredictSize(0, Skeleton(ds, d, nm, joliet)))
  }

  /** The first sector of directory `d`, counted from the first directory. */
  function LocOf(ds: seq<DirItem>, d: nat, nm: Naming, joliet: bool): nat
    requires d <= |ds|
  {
    if d == 0 then 0 else LocOf(ds, d - 1, nm, joliet) + LenOf(ds, d - 1, nm, joliet) / SECTOR_SIZE
  }

  /** The directory that '..' of `d` denotes; the root is its own parent. */
  function Up(ds: seq<DirItem>, d: nat): nat
    requires d < |ds|
  {
    if ParentIdx(ds, d) >= 0 then ParentIdx(ds, d) else d
  }

  /** The '.' and '..' records of `d`. */
  function Heads(ds: seq<DirItem>, d: nat, nm: Naming, joliet: bool): seq<Rec>
    requires d < |ds|
  {
    [Dot(ds[d], LocOf(ds, d, nm, joliet), LenOf(ds, d, nm, joliet)),
     DotDot(ds[Up(ds, d)], LocOf(ds, Up(ds, d), nm, joliet), LenOf(ds, Up(ds, d), nm, joliet))]
  }

  function KidRecs(ds: seq<DirItem>, ks: seq<nat>, n: nat, nm: Naming, joliet: bool): (rs: seq<Rec>)
    requires forall k :: k in ks ==> k < |ds|
    ensures |rs| == |ks|
  {
    seq(|ks|, i requires 0 <= i < |ks| =>
      assert ks[i] in ks;
      if ks[i] < n then ChildRec(ds[ks[i]], LocOf(ds, ks[i], nm, joliet), LenOf(ds, ks[i], nm, joliet), nm, joliet)
      else ChildRec(ds[ks[i]], 0, 0, nm, joliet))
  }

  /** The records of `d` with correct links to every directory below `n`. */
  function LinkedUpTo(ds: seq<DirItem>, d: nat, n: nat, nm: Naming, joliet: bool): seq<Rec>
    requires d < |ds|
  {
    Heads(ds, d, nm, joliet)
    + AllFileRecs(ds[d].files, nm, joliet)
    + KidRecs(ds, Kids(ds, d), n, nm, joliet)
  }

  /** The records a correct image has for `d`: '.' is the directory itself, '..' its
      parent, and each subdirectory record is that subdirectory's '.'. */
  function Linked(ds: seq<DirItem>, d: nat, nm: Naming, joliet: bool): seq<Rec>
    requires d < |ds|
  {
    LinkedUpTo(ds, d, |ds|, nm, joliet)
  }

  /** No subdirectory identifier repeats one of an earlier record of its parent:
      not '.', not '..', not a file's, not another subdirectory's. */
  ghost predicate ClashFree(ds: seq<DirItem>, nm: Naming, joliet: bool) {
    forall d, q, r :: 0 <= d < |ds| && 0 <= q < r < |Skeleton(ds, d, nm, joliet)| && r >= FirstKid(ds, d, nm, joliet) ==>
      Skeleton(ds, d, nm, joliet)[q].ident != Skeleton(ds, d, nm, joliet)[r].ident
  }

  /** Every subdirectory record agrees with the '.' of that subdirectory. */
  ghost predicate LinksHold(ds: seq<DirItem>, es: seq<seq<Rec>>, nm: Naming, joliet: bool)
    requires BuiltTo(ds, es, |ds|, nm, joliet)
  {
    forall d, i :: 0 <= d < |ds| && 0 <= i < |Kids(ds, d)| ==>
      LinkHolds(ds, es, d, i, nm, joliet)
  }

  ghost predicate LinkHolds(ds: seq<DirItem>, es: seq<seq<Rec>>, d: nat, i: nat, nm: Naming, joliet: bool)
    requires BuiltTo(ds, es, |ds|, nm, joliet)
    requires d < |ds| && i < |Kids(ds, d)|
  {
    BuiltShape(ds, es, d, nm, joliet);
    var kid := Kids(ds, d)[i];
    assert kid in Kids(ds, d);
    BuiltShape(ds, es, kid, nm, joliet);
    var r := es[d][FirstKid(ds, d, nm, joliet) + i];
    r.loc == es[kid][0].loc && r.len == es[kid][0].len
  }

  lemma BuiltShape(ds: seq<DirItem>, es: seq<seq<Rec>>, d: nat, nm: Naming, joliet: bool)
    requires BuiltTo(ds, es, |ds|, nm, joliet) && d < |ds|
    ensures |es[d]| == FirstKid(ds, d, nm, joliet) + |Kids(ds, d)| >= 2
  {
  }

  // ----- sizes

  lemma PredictShift(base: nat, rs: seq<Rec>)
    requires base % SECTOR_SIZE == 0
    ensures AlignUp(PredictSize(base, rs)) == base + AlignUp(PredictSize(0, rs))
  {
    hide AlignUp, Pack, PredictSize;
    PackedSize(base, rs);
    PackedSize(0, rs);
    PackShift(base, 0, rs);
    AlignUpShift(base, |Pack(0, rs)|);
  }

  /** The running size of the list is the location of the next directory. */
  lemma {:induction false} ListSizeIs(ds: seq<DirItem>, es: seq<seq<Rec>>, n: nat, m: nat, nm: Naming, joliet: bool)
    requires BuiltTo(ds, es, n, nm, joliet) && m <= |ds|
    ensures ListSize(es[..m]) == LocOf(ds, if m < n then m else n, nm, joliet) * SECTOR_SIZE
  {
    if m > 0 {
      hide Skeleton, AlignUp;
      ListSizeIs(ds, es, n, m - 1, nm, joliet);
      assert es[..m][..m - 1] == es[..m - 1];
      var base := ListSize(es[..m - 1]);
      PredictShift(base, es[m - 1]);
      if m <= n {
        SizeByIdents(0, es[m - 1], Skeleton(ds, m - 1, nm, joliet));
      } else {
        assert es[m - 1] == [];
        assert AlignUp(0) == 0;
      }
    }
  }

  lemma StepLocation(ds: seq<DirItem>, es: seq<seq<Rec>>, n: nat, nm: Naming, joliet: bool)
    requires BuiltTo(ds, es, n, nm, joliet)
    ensures ListSize(es) == LocOf(ds, n, nm, joliet) * SECTOR_SIZE
    ensures CeilSectors(ListSize(es)) == LocOf(ds, n, nm, joliet)
  {
    ListSizeIs(ds, es, n, |ds|, nm, joliet);
    assert es[..|ds|] == es;
  }

  lemma BuiltSize(ds: seq<DirItem>, es: seq<seq<Rec>>, n: nat, nm: Naming, joliet: bool)
    requires BuiltTo(ds, es, n, nm, joliet)
    ensures |es| == |ds| && n <= |ds|
  {
  }

  // ----- without clashes, the pass links everything

  lemma KidParent(ds: seq<DirItem>, d: nat, k: nat)
    requires Ordered(ds) && d < |ds| && k < |ds|
    ensures k in Kids(ds, d) <==> k > 0 && ParentIdx(ds, k) == d
  {
    var p := ParentIdx(ds, k);
    if k in Kids(ds, d) {
      assert ds[p].path == ds[d].path;
      assert PathsOf(ds)[p] == PathsOf(ds)[d];
    }
  }

  lemma SkeletonTail(ds: seq<DirItem>, d: nat, nm: Naming, joliet: bool)
    requires d < |ds|
    ensures Skeleton(ds, d, nm, joliet)[2..] ==
            AllFileRecs(ds[d].files, nm, joliet) + UnlinkedKids(ds, Kids(ds, d), nm, joliet)
  {
  }

  lemma KidsComeLater(ds: seq<DirItem>, n: nat, nm: Naming, joliet: bool)
    requires Ordered(ds) && n < |ds|
    ensures KidRecs(ds, Kids(ds, n), n + 1, nm, joliet) == UnlinkedKids(ds, Kids(ds, n), nm, joliet)
  {
    hide Ordered, LocOf, LenOf, ParentIdx;
    var ks := Kids(ds, n);
    forall i | 0 <= i < |ks| ensures ks[i] > n {
      assert ks[i] in ks;
      KidParent(ds, n, ks[i]);
      OrderedAt(ds, ks[i]);
    }
  }

  lemma FreshHeads(ds: seq<DirItem>, es: seq<seq<Rec>>, n: nat, nm: Naming, joliet: bool)
    requires Ordered(ds) && n < |ds| && BuiltTo(ds, es, n, nm, joliet)
    requires forall d :: 0 <= d < n ==> es[d] == LinkedUpTo(ds, d, n, nm, joliet)
    requires ParentIdx(ds, n) >= 0 ==> es[ParentIdx(ds, n)] != []
    ensures FreshRecs(ds, es, n, nm, joliet) == Heads(ds, n, nm, joliet) + Skeleton(ds, n, nm, joliet)[2..]
  {
    StepLocation(ds, es, n, nm, joliet);
    hide Ordered, PredictSize, AlignUp, ParentIdx, ListSize, Kids, KidRecs, Skeleton, BuiltTo, LocOf;
    OrderedAt(ds, n);
    var p := ParentIdx(ds, n);
    if p >= 0 {
      assert es[p][0] == Heads(ds, p, nm, joliet)[0];
    }
  }

  lemma LinkedTail(ds: seq<DirItem>, n: nat, nm: Naming, joliet: bool)
    requires Ordered(ds) && n < |ds|
    ensures Heads(ds, n, nm, joliet) + Skeleton(ds, n, nm, joliet)[2..] == LinkedUpTo(ds, n, n + 1, nm, joliet)
  {
    hide Ordered, Kids, KidRecs, UnlinkedKids, Skeleton, Heads, AllFileRecs;
    SkeletonTail(ds, n, nm, joliet);
    KidsComeLater(ds, n, nm, joliet);
    var files, kids := AllFileRecs(ds[n].files, nm, joliet), KidRecs(ds, Kids(ds, n), n + 1, nm, joliet);
    assert Heads(ds, n, nm, joliet) + (files + kids) == LinkedUpTo(ds, n, n + 1, nm, joliet);
  }

  lemma OrderedAt(ds: seq<DirItem>, d: nat)
    requires Ordered(ds) && d < |ds|
    ensures ParentIdx(ds, d) < d && (d > 0 ==> ParentIdx(ds, d) >= 0)
  {
  }

  lemma FindOwn(rs: seq<Rec>, r: nat)
    requires r < |rs| && forall q :: 0 <= q < r ==> rs[q].ident != rs[r].ident
    ensures FindEntry(rs, rs[r].ident) == Some(r)
  {
  }

  lemma LinkedIdents(ds: seq<DirItem>, d: nat, n: nat, nm: Naming, joliet: bool)
    requires d < |ds|
    ensures SameIdents(LinkedUpTo(ds, d, n, nm, joliet), Skeleton(ds, d, nm, joliet))
    ensures |LinkedUpTo(ds, d, n, nm, joliet)| >= 2
  {
    hide PredictSize, AlignUp, ParentIdx, LocOf, LenOf, Kids;
  }

  /** Patching the parent's record of `n` links exactly that record. */
  lemma PatchIsLinked(ds: seq<DirItem>, p: nat, n: nat, nm: Naming, joliet: bool)
    requires Ordered(ds) && ClashFree(ds, nm, joliet) && n < |ds| && ParentIdx(ds, n) == p
    ensures var rs := LinkedUpTo(ds, p, n, nm, joliet);
      var found := FindEntry(rs, nm.Of(ds[n].name, joliet));
      && found.Some?
      && rs[found.value := rs[found.value].(loc := LocOf(ds, n, nm, joliet), len := LenOf(ds, n, nm, joliet))]
         == LinkedUpTo(ds, p, n + 1, nm, joliet)
  {
    hide PredictSize, AlignUp, ParentIdx, LocOf, LenOf, Kids, Ordered, Skeleton, LinkedUpTo, ClashFree;
    var rs := LinkedUpTo(ds, p, n, nm, joliet);
    var ks := Kids(ds, p);
    OrderedAt(ds, n);
    KidParent(ds, p, n);
    var t :| 0 <= t < |ks| && ks[t] == n;
    var r := FirstKid(ds, p, nm, joliet) + t;
    OwnRecordFirst(ds, p, t, n, nm, joliet);
    FindOwn(rs, r);
    LinkOne(ds, p, t, n, nm, joliet);
  }

  lemma OwnRecordFirst(ds: seq<DirItem>, p: nat, t: nat, n: nat, nm: Naming, joliet: bool)
    requires ClashFree(ds, nm, joliet) && p < |ds| && t < |Kids(ds, p)|
    ensures var rs := LinkedUpTo(ds, p, n, nm, joliet);
      var r := FirstKid(ds, p, nm, joliet) + t;
      && r < |rs|
      && Kids(ds, p)[t] < |ds|
      && rs[r].ident == nm.Of(ds[Kids(ds, p)[t]].name, joliet)
      && forall q :: 0 <= q < r ==> rs[q].ident != rs[r].ident
  {
    hide LocOf, LenOf, ParentIdx;
    var ks := Kids(ds, p);
    assert ks[t] in ks;
    LinkedIdents(ds, p, n, nm, joliet);
    var rs, sk := LinkedUpTo(ds, p, n, nm, joliet), Skeleton(ds, p, nm, joliet);
    var r := FirstKid(ds, p, nm, joliet) + t;
    assert sk[r] == UnlinkedKids(ds, ks, nm, joliet)[t];
    forall q | 0 <= q < r ensures rs[q].ident != rs[r].ident {
      assert sk[q].ident != sk[r].ident;
    }
  }

  lemma HeadsSize(ds: seq<DirItem>, d: nat, nm: Naming, joliet: bool)
    requires d < |ds|
    ensures |Heads(ds, d, nm, joliet)| == 2
  {
  }

  lemma LinkOne(ds: seq<DirItem>, p: nat, t: nat, n: nat, nm: Naming, joliet: bool)
    requires n < |ds| && p < |ds| && t < |Kids(ds, p)| && Kids(ds, p)[t] == n
    ensures var rs := LinkedUpTo(ds, p, n, nm, joliet);
      var r := FirstKid(ds, p, nm, joliet) + t;
      && r < |rs|
      && rs[r := rs[r].(loc := LocOf(ds, n, nm, joliet), len := LenOf(ds, n, nm, joliet))]
         == LinkedUpTo(ds, p, n + 1, nm, joliet)
  {
    hide LocOf, LenOf, ParentIdx, AllFileRecs, Heads, Kids;
    var ks := Kids(ds, p);
    HeadsSize(ds, p, nm, joliet);
    var before, after := KidRecs(ds, ks, n, nm, joliet), KidRecs(ds, ks, n + 1, nm, joliet);
    forall i | 0 <= i < |ks| && i != t ensures before[i] == after[i] {
      assert ks[i] != n;
    }
    assert before[t := before[t].(loc := LocOf(ds, n, nm, joliet), len := LenOf(ds, n, nm, joliet))] == after;
  }

  lemma OthersUnaffected(ds: seq<DirItem>, d: nat, n: nat, nm: Naming, joliet: bool)
    requires Ordered(ds) && d < |ds| && n < |ds| && (n == 0 || ParentIdx(ds, n) != d)
    ensures LinkedUpTo(ds, d, n, nm, joliet) == LinkedUpTo(ds, d, n + 1, nm, joliet)
  {
    hide PredictSize, AlignUp, ParentIdx, LocOf, LenOf, Ordered;
    var ks := Kids(ds, d);
    KidParent(ds, d, n);
    forall i | 0 <= i < |ks| ensures KidRecs(ds, ks, n, nm, joliet)[i] == KidRecs(ds, ks, n + 1, nm, joliet)[i] {
      assert ks[i] in ks;
    }
  }

  lemma PassStep(ds: seq<DirItem>, n: nat, nm: Naming, joliet: bool)
    requires Ordered(ds) && n < |ds|
    ensures var es := BuildPass(ds, n, nm, joliet);
      && |es| == |ds| && ParentIdx(ds, n) < n
      && (ParentIdx(ds, n) >= 0 ==> es[ParentIdx(ds, n)] != [])
      && BuildPass(ds, n + 1, nm, joliet) == BuildStep(ds, es, n, nm, joliet)
  {
    hide Ordered, BuildStep, BuiltTo, ParentIdx;
    OrderedAt(ds, n);
    StepBuilds(ds, BuildPass(ds, n, nm, joliet), n, nm, joliet);
    BuiltSize(ds, BuildPass(ds, n, nm, joliet), n, nm, joliet);
  }

  lemma {:induction false} PassLinks(ds: seq<DirItem>, n: nat, nm: Naming, joliet: bool)
    requires Ordered(ds) && ClashFree(ds, nm, joliet) && n <= |ds|
    ensures forall d :: 0 <= d < n ==> BuildPass(ds, n, nm, joliet)[d] == LinkedUpTo(ds, d, n, nm, joliet)
  {
    hide Ordered, ClashFree, LinkedUpTo, BuildStep, BuiltTo, BuildPass, ParentIdx;
    if n > 0 {
      PassStep(ds, n - 1, nm, joliet);
      PassLinks(ds, n - 1, nm, joliet);
      StepLinks(ds, BuildPass(ds, n - 1, nm, joliet), n - 1, nm, joliet);
    }
  }

  lemma StepLinks(ds: seq<DirItem>, es: seq<seq<Rec>>, n: nat, nm: Naming, joliet: bool)
    requires Ordered(ds) && ClashFree(ds, nm, joliet) && n < |ds| && BuiltTo(ds, es, n, nm, joliet)
    requires forall d :: 0 <= d < n ==> es[d] == LinkedUpTo(ds, d, n, nm, joliet)
    ensures ParentIdx(ds, n) < n
    ensures ParentIdx(ds, n) >= 0 ==> es[ParentIdx(ds, n)] != []
    ensures forall d :: 0 <= d <= n ==> BuildStep(ds, es, n, nm, joliet)[d] == LinkedUpTo(ds, d, n + 1, nm, joliet)
  {
    hide Ordered, ClashFree, FreshRecs, LinkedUpTo, FindEntry, ParentIdx, BuiltTo, Skeleton, Heads;
    BuiltSize(ds, es, n, nm, joliet);
    OrderedAt(ds, n);
    StepBuilds(ds, es, n, nm, joliet);
    FreshHeads(ds, es, n, nm, joliet);
    LinkedTail(ds, n, nm, joliet);
    FreshDot(ds, es, n, nm, joliet);
    forall d | 0 <= d < n
      ensures BuildStep(ds, es, n, nm, joliet)[d] == LinkedUpTo(ds, d, n + 1, nm, joliet)
    {
      StepLinksOne(ds, es, n, d, nm, joliet);
    }
  }

  lemma StepLinksOne(ds: seq<DirItem>, es: seq<seq<Rec>>, n: nat, d: nat, nm: Naming, joliet: bool)
    requires Ordered(ds) && ClashFree(ds, nm, joliet) && n < |ds| && BuiltTo(ds, es, n, nm, joliet)
    requires ParentIdx(ds, n) < n
    requires ParentIdx(ds, n) >= 0 ==> es[ParentIdx(ds, n)] != []
    requires d < n && es[d] == LinkedUpTo(ds, d, n, nm, joliet)
    ensures BuildStep(ds, es, n, nm, joliet)[d] == LinkedUpTo(ds, d, n + 1, nm, joliet)
  {
    hide Ordered, ClashFree, FreshRecs, LinkedUpTo, FindEntry, ParentIdx, BuiltTo, Skeleton, LocOf, LenOf;
    BuiltSize(ds, es, n, nm, joliet);
    FreshDot(ds, es, n, nm, joliet);
    var p := ParentIdx(ds, n);
    if d == p {
      PatchIsLinked(ds, p, n, nm, joliet);
    } else {
      OthersUnaffected(ds, d, n, nm, joliet);
    }
  }

  lemma FreshDot(ds: seq<DirItem>, es: seq<seq<Rec>>, n: nat, nm: Naming, joliet: bool)
    requires n < |ds| && BuiltTo(ds, es, n, nm, joliet)
    requires ParentIdx(ds, n) >= 0 ==> es[ParentIdx(ds, n)] != []
    ensures FreshRecs(ds, es, n, nm, joliet)[0] == Dot(ds[n], LocOf(ds, n, nm, joliet), LenOf(ds, n, nm, joliet))
  {
    hide PredictSize, AlignUp, ParentIdx, ListSize;
    StepLocation(ds, es, n, nm, joliet);
  }

  // ----- with a clash, some link is wrong

  /** `n` directories in, record `r` of `p` is still unlinked, and no '.' below the
      root claims the first sector. */
  ghost predicate Unlinked(ds: seq<DirItem>, es: seq<seq<Rec>>, n: nat, p: nat, r: nat)
    requires n <= |ds| == |es| && p < |ds|
  {
    && (forall d :: 0 < d < n ==> |es[d]| > 0 && es[d][0].loc > 0)
    && (p < n ==> r < |es[p]| && es[p][r].loc == 0)
  }

  lemma StepLeavesUnlinked(ds: seq<DirItem>, es: seq<seq<Rec>>, n: nat, p: nat, q: nat, r: nat, nm: Naming, joliet: bool)
    requires Ordered(ds) && n < |ds| && BuiltTo(ds, es, n, nm, joliet)
    requires p < |ds| && q < r < |Skeleton(ds, p, nm, joliet)| && r >= FirstKid(ds, p, nm, joliet)
    requires Skeleton(ds, p, nm, joliet)[q].ident == Skeleton(ds, p, nm, joliet)[r].ident
    requires Unlinked(ds, es, n, p, r)
    requires ParentIdx(ds, n) < n
    requires ParentIdx(ds, n) >= 0 ==> es[ParentIdx(ds, n)] != []
    ensures Unlinked(ds, BuildStep(ds, es, n, nm, joliet), n + 1, p, r)
  {
    hide Ordered, ParentIdx, Skeleton, FreshRecs, BuiltTo, FindEntry, FirstKid;
    FreshUnlinked(ds, es, n, p, r, nm, joliet);
    var up := ParentIdx(ds, n);
    var es': seq<seq<Rec>> := BuildStep(ds, es, n, nm, joliet);
    forall d | 0 < d < n ensures |es'[d]| > 0 && es'[d][0].loc > 0 {
      assert es[d][0].loc > 0;
    }
    if p < n && up == p {
      BuiltIdents(ds, es, n, p, nm, joliet);
      assert es[p][q].ident == es[p][r].ident;
    }
  }

  lemma FreshUnlinked(ds: seq<DirItem>, es: seq<seq<Rec>>, n: nat, p: nat, r: nat, nm: Naming, joliet: bool)
    requires n < |ds| && BuiltTo(ds, es, n, nm, joliet)
    requires p < |ds| && FirstKid(ds, p, nm, joliet) <= r < |Skeleton(ds, p, nm, joliet)|
    requires ParentIdx(ds, n) < n
    requires ParentIdx(ds, n) >= 0 ==> es[ParentIdx(ds, n)] != []
    ensures |es| == |ds| && |FreshRecs(ds, es, n, nm, joliet)| > 0
    ensures n > 0 ==> FreshRecs(ds, es, n, nm, joliet)[0].loc > 0
    ensures p == n ==> r < |FreshRecs(ds, es, n, nm, joliet)| && FreshRecs(ds, es, n, nm, joliet)[r].loc == 0
  {
    FreshDot(ds, es, n, nm, joliet);
    hide PredictSize, AlignUp, ParentIdx, LenOf, LocOf, FreshRecs;
    if n > 0 {
      LocPositive(ds, n, nm, joliet);
    }
    if p == n {
      FreshTail(ds, es, n, r, nm, joliet);
    }
  }

  lemma BuiltIdents(ds: seq<DirItem>, es: seq<seq<Rec>>, n: nat, d: nat, nm: Naming, joliet: bool)
    requires BuiltTo(ds, es, n, nm, joliet) && d < n
    ensures SameIdents(es[d], Skeleton(ds, d, nm, joliet))
  {
  }

  lemma FreshTail(ds: seq<DirItem>, es: seq<seq<Rec>>, n: nat, r: nat, nm: Naming, joliet: bool)
    requires n < |ds| == |es| && FirstKid(ds, n, nm, joliet) <= r < |Skeleton(ds, n, nm, joliet)|
    requires ParentIdx(ds, n) >= 0 ==> es[ParentIdx(ds, n)] != []
    ensures FreshRecs(ds, es, n, nm, joliet)[r].loc == 0
  {
    hide PredictSize, AlignUp, ParentIdx, ListSize, AllFileRecs, Kids;
    var i := r - FirstKid(ds, n, nm, joliet);
    assert Skeleton(ds, n, nm, joliet)[r] == UnlinkedKids(ds, Kids(ds, n), nm, joliet)[i];
    assert Kids(ds, n)[i] in Kids(ds, n);
  }

  lemma LocPositive(ds: seq<DirItem>, n: nat, nm: Naming, joliet: bool)
    requires 0 < n <= |ds|
    ensures LocOf(ds, n, nm, joliet) > 0
  {
    if n > 1 {
      LocPositive(ds, n - 1, nm, joliet);
    } else {
      var sk := Skeleton(ds, 0, nm, joliet);
      PackedSize(0, sk);
      assert |Pack(0, sk)| >= |PackOne(0, sk[0])| > 0;
    }
  }

  lemma {:induction false} PassLeavesUnlinked(ds: seq<DirItem>, n: nat, p: nat, q: nat, r: nat, nm: Naming, joliet: bool)
    requires Ordered(ds) && n <= |ds|
    requires p < |ds| && q < r < |Skeleton(ds, p, nm, joliet)| && r >= FirstKid(ds, p, nm, joliet)
    requires Skeleton(ds, p, nm, joliet)[q].ident == Skeleton(ds, p, nm, joliet)[r].ident
    ensures Unlinked(ds, BuildPass(ds, n, nm, joliet), n, p, r)
  {
    hide Ordered, Skeleton, BuildStep, BuildPass, BuiltTo, ParentIdx, FirstKid;
    if n > 0 {
      hide Unlinked;
      PassLeavesUnlinked(ds, n - 1, p, q, r, nm, joliet);
      PassStep(ds, n - 1, nm, joliet);
      StepLeavesUnlinked(ds, BuildPass(ds, n - 1, nm, joliet), n - 1, p, q, r, nm, joliet);
    }
  }

  /** The links between parents and children come out right exactly when no
      subdirectory identifier repeats an earlier one in its parent. */
  lemma LinksHoldIffClashFree(ds: seq<DirItem>, nm: Naming, joliet: bool)
    requires Ordered(ds)
    ensures LinksHold(ds, BuildPass(ds, |ds|, nm, joliet), nm, joliet) <==> ClashFree(ds, nm, joliet)
  {
    hide Ordered, ClashFree, BuildPass, LinksHold;
    var es := BuildPass(ds, |ds|, nm, joliet);
    if ClashFree(ds, nm, joliet) {
      PassLinks(ds, |ds|, nm, joliet);
      LinkedHolds(ds, es, nm, joliet);
    } else {
      ClashBreaks(ds, nm, joliet);
    }
  }

  lemma LinkedHolds(ds: seq<DirItem>, es: seq<seq<Rec>>, nm: Naming, joliet: bool)
    requires BuiltTo(ds, es, |ds|, nm, joliet)
    requires forall d :: 0 <= d < |ds| ==> es[d] == Linked(ds, d, nm, joliet)
    ensures LinksHold(ds, es, nm, joliet)
  {
    hide LinkHolds;
    forall d, i | 0 <= d < |ds| && 0 <= i < |Kids(ds, d)| ensures LinkHolds(ds, es, d, i, nm, joliet) {
      LinkedHoldsAt(ds, es, d, i, nm, joliet);
    }
  }

  lemma LinkedHoldsAt(ds: seq<DirItem>, es: seq<seq<Rec>>, d: nat, i: nat, nm: Naming, joliet: bool)
    requires BuiltTo(ds, es, |ds|, nm, joliet) && d < |ds| && i < |Kids(ds, d)|
    requires forall k :: 0 <= k < |ds| ==> es[k] == Linked(ds, k, nm, joliet)
    ensures LinkHolds(ds, es, d, i, nm, joliet)
  {
    hide Linked, Kids, BuiltTo, LocOf, LenOf, FirstKid;
    BuiltSize(ds, es, |ds|, nm, joliet);
    LinkedKid(ds, d, i, nm, joliet);
  }

  lemma ClashBreaks(ds: seq<DirItem>, nm: Naming, joliet: bool)
    requires Ordered(ds) && !ClashFree(ds, nm, joliet)
    ensures !LinksHold(ds, BuildPass(ds, |ds|, nm, joliet), nm, joliet)
  {
    hide Ordered, Skeleton, BuildPass, Kids, FirstKid;
    var es: seq<seq<Rec>> := BuildPass(ds, |ds|, nm, joliet);
    var p, q, r :| 0 <= p < |ds| && 0 <= q < r < |Skeleton(ds, p, nm, joliet)| && r >= FirstKid(ds, p, nm, joliet)
      && Skeleton(ds, p, nm, joliet)[q].ident == Skeleton(ds, p, nm, joliet)[r].ident;
    PassLeavesUnlinked(ds, |ds|, p, q, r, nm, joliet);
    var i := r - FirstKid(ds, p, nm, joliet);
    var kid := Kids(ds, p)[i];
    assert kid in Kids(ds, p);
    assert kid < |es|;
    assert es[kid][0].loc > 0 && es[p][r].loc == 0;
    assert !LinkHolds(ds, es, p, i, nm, joliet);
  }

  lemma LinkedKid(ds: seq<DirItem>, d: nat, i: nat, nm: Naming, joliet: bool)
    requires d < |ds| && i < |Kids(ds, d)|
    ensures var kid := Kids(ds, d)[i];
      && kid < |ds|
      && |Linked(ds, d, nm, joliet)| == FirstKid(ds, d, nm, joliet) + |Kids(ds, d)|
      && Linked(ds, d, nm, joliet)[FirstKid(ds, d, nm, joliet) + i]
         == ChildRec(ds[kid], LocOf(ds, kid, nm, joliet), LenOf(ds, kid, nm, joliet), nm, joliet)
      && Linked(ds, kid, nm, joliet)[0] == Dot(ds[kid], LocOf(ds, kid, nm, joliet), LenOf(ds, kid, nm, joliet))
  {
    hide LocOf, LenOf, Kids, AllFileRecs, Up;
    assert Kids(ds, d)[i] in Kids(ds, d);
  }
}
