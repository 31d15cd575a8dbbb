/** The commands of a session: what each is asked, what the file system answers to the calls
    it leads to, and what it makes of the session, of the file system and of the client. */
module Commands {
  import opened Wrappers
  import opened Bytes

  type Name = seq<Byte>

  /** Calls that change the file system. */
  datatype Change = Created(path: Name) | Written(handle: nat, data: seq<Byte>) | Removed(path: Name) | MadeDir(path: Name)

  // ----- CD sector sizes

  const SECTOR_SIZES: seq<nat> := [2048, 2328, 2336, 2340, 2352, 2368, 2448]
  const DEFAULT_SECTOR_SIZE: nat := 2352
  const PSX_PREFIX_SIZE: nat := 24
  const SYSTEM_AREA_SECTORS: nat := 16

  /** "\x01CD001" and "PLAYSTATION " */
  const MAGIC1: seq<Byte> := [1, 0x43, 0x44, 0x30, 0x30, 0x31]
  const MAGIC2: seq<Byte> := [0x50, 0x4C, 0x41, 0x59, 0x53, 0x54, 0x41, 0x54, 0x49, 0x4F, 0x4E, 0x20]

  const PROBE_SIZE: nat := 2448 - 2048 + 6 + 2 + 12

  /** Where the first volume descriptor of a disc with this sector size lies. */
  function DescriptorAt(size: nat): nat {
    PSX_PREFIX_SIZE + SYSTEM_AREA_SECTORS * size
  }

  /** The buffer shows one of the two magic strings where this sector size puts it. */
  predicate ShowsMagic(buf: seq<Byte>, size: nat)
    requires |buf| == PROBE_SIZE && 2048 <= size <= 2448
  {
    var at := size - 2048;
    buf[at..at + 6] == MAGIC1 || buf[at + 8..at + 20] == MAGIC2
  }

  /** What the detection reads. */
  function Probed(data: seq<Byte>): (buf: seq<Byte>)
    requires |data| >= DescriptorAt(2048) + PROBE_SIZE
    ensures |buf| == PROBE_SIZE
  {
    data[DescriptorAt(2048)..DescriptorAt(2048) + PROBE_SIZE]
  }

  /** The smallest sector size, from the `k`-th on, for which the probe shows a magic
      string, or -1. */
  function SmallestShown(buf: seq<Byte>, k: nat): (size: int)
    requires |buf| == PROBE_SIZE && k <= |SECTOR_SIZES|
    ensures size == -1 || (size in SECTOR_SIZES && ShowsMagic(buf, size))
    ensures size == -1 ==> forall j :: k <= j < |SECTOR_SIZES| ==> !ShowsMagic(buf, SECTOR_SIZES[j])
    decreases |SECTOR_SIZES| - k
  {
    if k == |SECTOR_SIZES| then -1
    else if ShowsMagic(buf, SECTOR_SIZES[k]) then SECTOR_SIZES[k]
    else SmallestShown(buf, k + 1)
  }

  /** One read that covers all candidates; the smallest size that shows a magic string. */
  method DetermineSectorSize(data: seq<Byte>) returns (size: int)
    ensures size == if |data| < DescriptorAt(2048) + PROBE_SIZE then -1 else SmallestShown(Probed(data), 0)
  {
    var from := DescriptorAt(SECTOR_SIZES[0]);
    if |data| < from + PROBE_SIZE {
      return -1;
    }
    var buf := data[from..from + PROBE_SIZE];
    for k := 0 to |SECTOR_SIZES|
      invariant SmallestShown(buf, 0) == SmallestShown(buf, k)
    {
      var candidate := SECTOR_SIZES[k];
      var idxMagic1 := candidate - SECTOR_SIZES[0];
      if buf[idxMagic1..idxMagic1 + |MAGIC1|] == MAGIC1 {
        return candidate;
      }
      var idxMagic2 := idxMagic1 + |MAGIC1| + 2;
      if buf[idxMagic2..idxMagic2 + |MAGIC2|] == MAGIC2 {
        return candidate;
      }
    }
    size := -1;
  }

  /** The files for which the detection is tried. */
  predicate IsProbed(data: seq<Byte>) {
    0x20_0000 <= |data| <= 0x3500_0000
  }

  /** The sector size that the session assumes for a file with these contents. */
  function AssumedSize(data: seq<Byte>): (size: nat)
    ensures size in SECTOR_SIZES
  {
    var shown := if IsProbed(data) then SmallestShown(Probed(data), 0) else -1;
    if shown > 0 then shown else DEFAULT_SECTOR_SIZE
  }

  /** The first volume descriptor of a disc with this sector size, in its place. */
  predicate HasDescriptor(data: seq<Byte>, size: nat) {
    MagicAt(data, 24 + 16 * size)
  }

  predicate MagicAt(data: seq<Byte>, at: nat) {
    && at + 20 <= |data|
    && (data[at..at + 6] == [1, 0x43, 0x44, 0x30, 0x30, 0x31]
        || data[at + 8..at + 20] == [0x50, 0x4C, 0x41, 0x59, 0x53, 0x54, 0x41, 0x54, 0x49, 0x4F, 0x4E, 0x20])
  }

  /** The probe shows no magic string but that of the descriptor. */
  predicate NothingElseShown(data: seq<Byte>, size: nat)
    requires |data| >= DescriptorAt(2048) + PROBE_SIZE
  {
    forall s :: s in SECTOR_SIZES && ShowsMagic(Probed(data), s) ==> DescriptorAt(2048) + (s - 2048) == DescriptorAt(size)
  }

  /** Among the discs of probed size with their descriptor in place and nothing that looks
      like one elsewhere, the session is right about two sector sizes only: about 2048,
      whose descriptor it finds, and about 2352, which it assumes when it finds none. It
      looks `size - 2048` bytes behind the first place, as if one sector and not sixteen
      lay in front of the descriptor. */
  lemma RightSizes(data: seq<Byte>, size: nat)
    requires size in {2048, 2328, 2336, 2340, 2352, 2368, 2448} && 0x20_0000 <= |data| <= 0x3500_0000
    requires HasDescriptor(data, size) && NothingElseShown(data, size)
    ensures AssumedSize(data) == size <==> size in {2048, 2352}
    ensures size != 2048 ==> AssumedSize(data) == 2352
  {
    if size == 2048 {
      DescriptorIsShown(data, 2048);
      assert SmallestShown(Probed(data), 0) == SECTOR_SIZES[0];
    } else {
      assert forall s :: s in SECTOR_SIZES ==> DescriptorAt(2048) + (s - 2048) < DescriptorAt(size);
    }
  }

  lemma DescriptorIsShown(data: seq<Byte>, size: nat)
    requires |data| >= DescriptorAt(2048) + PROBE_SIZE && 2048 <= size <= 2448
    ensures ShowsMagic(Probed(data), size) <==> MagicAt(data, 32792 + (size - 2048))
  {
    var at := size - 2048;
    SliceOfSlice(data, DescriptorAt(2048), DescriptorAt(2048) + PROBE_SIZE, at, at + 6);
    SliceOfSlice(data, DescriptorAt(2048), DescriptorAt(2048) + PROBE_SIZE, at + 8, at + 20);
  }

  /** The session takes the smallest size that shows a magic string that many bytes behind the
      place for 2048, and 2352 if none does or the file has another length than such discs have. */
  lemma DetectedSize(data: seq<Byte>, size: nat)
    requires size in SECTOR_SIZES
    ensures AssumedSize(data) == size
            <==> if |data| < 0x20_0000 || |data| > 0x3500_0000 then size == 2352
                 else if forall s :: s in SECTOR_SIZES ==> !MagicAt(data, 32792 + (s - 2048)) then size == 2352
                 else MagicAt(data, 32792 + (size - 2048))
                      && forall s :: s in SECTOR_SIZES && s < size ==> !MagicAt(data, 32792 + (s - 2048))
    ensures forall n: nat :: n in SECTOR_SIZES <==> n in {2048, 2328, 2336, 2340, 2352, 2368, 2448}
  {
    SizesAre();
    hide SECTOR_SIZES;
    if IsProbed(data) {
      hide ShowsMagic, MagicAt, Probed, SmallestShown;
      forall s | s in SECTOR_SIZES ensures ShowsMagic(Probed(data), s) <==> MagicAt(data, 32792 + (s - 2048)) {
        DescriptorIsShown(data, s);
      }
      SmallestShows(Probed(data), size);
    }
  }

  lemma SizesAre()
    ensures forall n: nat :: n in SECTOR_SIZES <==> n in {2048, 2328, 2336, 2340, 2352, 2368, 2448}
  {
  }

  lemma SmallestShows(buf: seq<Byte>, size: nat)
    requires |buf| == PROBE_SIZE && size in SECTOR_SIZES
    ensures SmallestShown(buf, 0) == -1 <==> forall s :: s in SECTOR_SIZES ==> !ShowsMagic(buf, s)
    ensures SmallestShown(buf, 0) == size <==> ShowsMagic(buf, size) && forall s :: s in SECTOR_SIZES && s < size ==> !ShowsMagic(buf, s)
  {
    hide ShowsMagic, SmallestShown;
    SmallestIs(buf, 0);
  }

  /** No size from the `k`-th on that is less than the one found shows a magic string. */
  lemma {:induction false} SmallestIs(buf: seq<Byte>, k: nat)
    requires |buf| == PROBE_SIZE && k <= |SECTOR_SIZES|
    ensures forall j :: k <= j < |SECTOR_SIZES| && SECTOR_SIZES[j] < SmallestShown(buf, k) ==> !ShowsMagic(buf, SECTOR_SIZES[j])
    decreases |SECTOR_SIZES| - k
  {
    hide ShowsMagic;
    if k < |SECTOR_SIZES| {
      SmallestIs(buf, k + 1);
    }
  }

  /** A disc that is empty but for its descriptor. */
  function EmptyDisc(size: nat): (data: seq<Byte>)
    ensures |data| == DescriptorAt(size) + 6 + 0x20_0000
    ensures forall q :: 0 <= q < DescriptorAt(size) ==> data[q] == 0
    ensures data[DescriptorAt(size)..DescriptorAt(size) + 6] == MAGIC1
    ensures forall q :: DescriptorAt(size) + 6 <= q < |data| ==> data[q] == 0
  {
    Zeros(DescriptorAt(size)) + MAGIC1 + Zeros(0x20_0000)
  }

  lemma ZerosShowNothing(buf: seq<Byte>, size: nat)
    requires |buf| == PROBE_SIZE && 2048 <= size <= 2448
    requires buf[size - 2048] == 0 && buf[size - 2048 + 8] == 0
    ensures !ShowsMagic(buf, size)
  {
    assert buf[size - 2048..size - 2048 + 6][0] == 0 != MAGIC1[0];
    assert buf[size - 2048 + 8..size - 2048 + 20][0] == 0 != MAGIC2[0];
  }

  /** A disc with its descriptor in place that the session gets wrong, for each of the five
      other sector sizes. */
  lemma MissedDisc(size: nat)
    requires size in SECTOR_SIZES && size !in {2048, 2352}
    ensures IsProbed(EmptyDisc(size)) && HasDescriptor(EmptyDisc(size), size)
    ensures AssumedSize(EmptyDisc(size)) == 2352 != size
  {
    hide EmptyDisc, SmallestShown, AssumedSize, ShowsMagic;
    var data := EmptyDisc(size);
    forall s | s in SECTOR_SIZES ensures !ShowsMagic(Probed(data), s) {
      ZerosShowNothing(Probed(data), s);
    }
    RightSizes(data, size);
  }

  // ----- what the file system answers

  datatype Listing = Unreadable | Entries(es: seq<Ent>)

  /** An entry whose Info or Stat fails is `Broken`. */
  datatype Ent = Broken | Plain(name: Name) | Directory(name: Name, openable: bool, sub: Listing)

  /** The names that a directory listing reports: with subdirectories, the files of two
      levels and no directories; without, files and directories of one. */
  function Listed(l: Listing, prefix: seq<Name>, level: nat, subdirs: bool): Option<seq<seq<Name>>>
    decreases level, 1, 0
  {
    if level == 0 then Some([])
    else if l.Unreadable? then None
    else ListedEntries(l.es, prefix, level, subdirs)
  }

  function ListedEntries(es: seq<Ent>, prefix: seq<Name>, level: nat, subdirs: bool): Option<seq<seq<Name>>>
    requires level > 0
    decreases level, 0, |es|
  {
    if es == [] then Some([])
    else
      var before, e := ListedEntries(es[..|es| - 1], prefix, level, subdirs), es[|es| - 1];
      if before.None? then None
      else
        match e
        case Broken => before
        case Plain(name) => Some(before.value + [prefix + [name]])
        case Directory(name, openable, sub) =>
          if !subdirs then Some(before.value + [prefix + [name]])
          else if !openable then None
          else
            var below := Listed(sub, prefix + [name], level - 1, subdirs);
            if below.None? then None else Some(before.value + below.value)
  }

  lemma ListedIs(l: Listing, prefix: seq<Name>, level: nat, subdirs: bool)
    ensures level == 0 ==> Listed(l, prefix, level, subdirs) == Some([])
    ensures level > 0 && l.Unreadable? ==> Listed(l, prefix, level, subdirs) == None
    ensures level > 0 && l.Entries? ==> Listed(l, prefix, level, subdirs) == ListedEntries(l.es, prefix, level, subdirs)
    ensures level > 0 ==> ListedEntries([], prefix, level, subdirs) == Some([])
  {
  }

  lemma ListedSnoc(es: seq<Ent>, e: Ent, prefix: seq<Name>, level: nat, subdirs: bool)
    requires level > 0 && ListedEntries(es, prefix, level, subdirs).Some?
    ensures var before := ListedEntries(es, prefix, level, subdirs).value;
      ListedEntries(es + [e], prefix, level, subdirs)
      == match e
         case Broken => Some(before)
         case Plain(name) => Some(before + [prefix + [name]])
         case Directory(name, openable, sub) =>
           if !subdirs then Some(before + [prefix + [name]])
           else if !openable || Listed(sub, prefix + [name], level - 1, subdirs).None? then None
           else Some(before + Listed(sub, prefix + [name], level - 1, subdirs).value)
  {
    assert (es + [e])[..|es|] == es;
  }

  /** A listing that fails at one entry fails as a whole. */
  lemma {:induction false} ListedStops(es: seq<Ent>, n: nat, prefix: seq<Name>, level: nat, subdirs: bool)
    requires level > 0 && n <= |es| && ListedEntries(es[..n], prefix, level, subdirs).None?
    ensures ListedEntries(es, prefix, level, subdirs).None?
    decreases |es|
  {
    if n == |es| {
      assert es[..n] == es;
    } else {
      assert es[..|es| - 1][..n] == es[..n];
      ListedStops(es[..|es| - 1], n, prefix, level, subdirs);
    }
  }

  /** One call of ReadDir(1) and the Stat that follows it. */
  datatype DirRead = Found(name: Name, statOk: bool) | AtEnd | ReadFailed

  datatype StatResult = IsDirectory | IsFile | DoesNotExist | StatFailed

  /** What GetDirSize walks over; the children of a directory are the entries that ReadDir
      delivers before it ends or fails, which makes no difference to the walk. */
  datatype Tree = Leaf(size: nat, statOk: bool) | Branch(openable: bool, children: seq<Tree>)

  /** "." and ".." */
  predicate IsDots(name: Name) {
    name == [0x2E] || name == [0x2E, 0x2E]
  }

  /** Entries that are passed over. */
  predicate Skipped(d: DirRead) {
    d.Found? && (IsDots(d.name) || !d.statOk)
  }

  /** What reading comes to: the first answer that is not passed over. */
  function FirstKept(answers: seq<DirRead>): (d: DirRead)
    ensures !Skipped(d)
    ensures d == AtEnd || d in answers
  {
    if answers == [] then AtEnd else if Skipped(answers[0]) then FirstKept(answers[1..]) else answers[0]
  }

  /** Passed over are "." and ".." and what Stat does not find; everything else counts. */
  lemma {:induction false} FirstKeptAt(answers: seq<DirRead>, i: nat)
    requires i <= |answers|
    requires forall j :: 0 <= j < i ==> answers[j].Found? && (answers[j].name in {[0x2E], [0x2E, 0x2E]} || !answers[j].statOk)
    requires i < |answers| && answers[i].Found? ==> answers[i].name !in {[0x2E], [0x2E, 0x2E]} && answers[i].statOk
    ensures FirstKept(answers) == if i < |answers| then answers[i] else AtEnd
  {
    if i > 0 {
      FirstKeptAt(answers[1..], i - 1);
    }
  }

  /** The files below the directories that can be opened, in the order of the walk. */
  function FilesBelow(tree: Tree): (fs: seq<Tree>)
    ensures forall f :: f in fs ==> f.Leaf?
  {
    match tree
    case Leaf(_, _) => [tree]
    case Branch(openable, children) => if openable then FilesBelowAll(children) else []
  }

  function FilesBelowAll(trees: seq<Tree>): (fs: seq<Tree>)
    ensures forall f :: f in fs ==> f.Leaf?
  {
    if trees == [] then [] else FilesBelowAll(trees[..|trees| - 1]) + FilesBelow(trees[|trees| - 1])
  }

  /** Which files a walk comes to, and in which order: directories that cannot be opened are
      passed over. */
  lemma {:induction false} BelowConcat(a: seq<Tree>, b: seq<Tree>)
    ensures FilesBelowAll(a + b) == FilesBelowAll(a) + FilesBelowAll(b)
  {
    hide FilesBelow;
    if b == [] {
      assert a + b == a;
    } else {
      BelowConcat(a, b[..|b| - 1]);
      assert (a + b)[..|a + b| - 1] == a + b[..|b| - 1];
    }
  }

  lemma BelowOne(tree: Tree)
    ensures FilesBelowAll([tree]) == match tree
                                     case Leaf(_, _) => [tree]
                                     case Branch(openable, children) => if openable then FilesBelowAll(children) else []
  {
  }

  /** The walk ends at the first file on which Stat fails. */
  lemma SizeStops(a: seq<Tree>, f: Tree, b: seq<Tree>)
    requires (forall x :: x in a + [f] + b ==> x.Leaf?) && !f.statOk
    ensures (forall x :: x in a ==> x.Leaf?) && SizeUpToFailure(a + [f] + b) == SizeUpToFailure(a)
  {
    var rest := [f] + b;
    assert a + [f] + b == a + rest && f in a + [f] + b;
    forall x | x in a || x in rest ensures x.Leaf? {
      assert x in a + [f] + b;
    }
    SizeConcat(a, rest);
    assert SizeUpToFailure(rest) == 0;
  }

  /** If Stat fails on no file, the size is that of all of them; one more file that can be
      reached adds its size, wherever it is. */
  lemma {:induction false} SizeOfAll(files: seq<Tree>, i: nat)
    requires (forall f :: f in files ==> f.Leaf?) && !StatsFail(files) && i < |files|
    ensures (forall f :: f in files[..i] + files[i + 1..] ==> f.Leaf?)
    ensures SizeUpToFailure(files) == SizeUpToFailure(files[..i] + files[i + 1..]) + files[i].size
  {
    var a, b := files[..i], files[i + 1..];
    assert files == a + ([files[i]] + b);
    SizeConcat(a, [files[i]] + b);
    SizeConcat([files[i]], b);
    SizeConcat(a, b);
    assert files[i] in files;
    assert [files[i]][1..] == [];
    assert SizeUpToFailure([files[i]]) == files[i].size;
  }

  predicate StatsFail(files: seq<Tree>)
    requires forall f :: f in files ==> f.Leaf?
  {
    exists f :: f in files && !f.statOk
  }

  /** The sizes of the files up to the first on which Stat fails. */
  function SizeUpToFailure(files: seq<Tree>): nat
    requires forall f :: f in files ==> f.Leaf?
  {
    if files == [] || !files[0].statOk then 0 else files[0].size + SizeUpToFailure(files[1..])
  }

  lemma {:induction false} SizeConcat(a: seq<Tree>, b: seq<Tree>)
    requires forall f :: f in a + b ==> f.Leaf?
    requires forall f :: f in a ==> f.Leaf?
    requires forall f :: f in b ==> f.Leaf?
    ensures StatsFail(a + b) <==> StatsFail(a) || StatsFail(b)
    ensures SizeUpToFailure(a + b) == SizeUpToFailure(a) + if StatsFail(a) then 0 else SizeUpToFailure(b)
  {
    if a == [] {
      assert a + b == b;
    } else {
      assert (a + b)[1..] == a[1..] + b;
      SizeConcat(a[1..], b);
      assert StatsFail(a) <==> !a[0].statOk || StatsFail(a[1..]) by {
        assert a == [a[0]] + a[1..];
      }
    }
  }

  /** A walk that has come to an end at one of the trees. */
  lemma {:induction false} WalkStops(trees: seq<Tree>, n: nat)
    requires n <= |trees| && StatsFail(FilesBelowAll(trees[..n]))
    ensures StatsFail(FilesBelowAll(trees))
    ensures SizeUpToFailure(FilesBelowAll(trees)) == SizeUpToFailure(FilesBelowAll(trees[..n]))
    decreases |trees|
  {
    if n == |trees| {
      assert trees[..n] == trees;
    } else {
      assert trees[..|trees| - 1][..n] == trees[..n];
      WalkStops(trees[..|trees| - 1], n);
      SizeConcat(FilesBelowAll(trees[..|trees| - 1]), FilesBelow(trees[|trees| - 1]));
    }
  }

  // ----- the commands

  /** A request, with what the file system answers to the calls it leads to. */
  datatype Command =
    | OpenDir(path: Name, openOk: bool, statOk: bool, isDir: bool, closeOk: bool)
    | ReadDirEntry(answers: seq<DirRead>, closeOk: bool)
    | ReadDir(listing: Listing)
    | StatFile(path: Name, stat: StatResult)
    | OpenFile(path: Name, openOk: bool, statOk: bool, data: seq<Byte>, closeOk: bool)
    | CloseFile(closeOk: bool)
    | ReadFile(limit: nat, at: nat)
    | ReadFileCritical(limit: nat, at: nat)
    | ReadCD2048Critical(startSector: nat, sectors: nat)
    | CreateFile(path: Name, stat: StatResult, createOk: bool, closeOk: bool)
    | WriteFile(payload: seq<Byte>, writeOk: bool)
    | DeleteFile(path: Name, removeOk: bool)
    | Mkdir(path: Name, mkdirOk: bool)
    | Rmdir(path: Name, removeOk: bool)
    | GetDirSize(tree: Tree)
    | UnknownCommand

  /** Stat works on a directory that has just been opened, and Close works where the
      session would keep the handle otherwise. */
  predicate Benign(cmd: Command) {
    match cmd
    case OpenDir(_, openOk, statOk, _, _) => openOk ==> statOk
    case ReadDirEntry(_, closeOk) => closeOk
    case CloseFile(closeOk) => closeOk
    case _ => true
  }

  /** What is sent back. The numbers are those of the results' fields; `Data` comes with its
      length and `Raw` without. */
  datatype Answer =
    | Nothing
    | DirOpened(isDir: bool)
    | NextEntry(entry: Option<Name>)
    | Names(names: seq<seq<Name>>)
    | FileStat(kind: Option<bool>)
    | FileOpened(fileSize: int)
    | Data(data: seq<Byte>)
    | Raw(data: seq<Byte>)
    | BytesWritten(n: int)
    | Result(code: int)
    | TreeSize(total: nat)

  /** What a session holds; `roData` are the contents of the file that is open for reading. */
  datatype Held = Held(cwd: Option<nat>, subdirs: bool, ro: Option<nat>, roData: seq<Byte>, cdSectorSize: int, wo: Option<nat>)

  /** What a command leads to: what is held then, the calls that change the file system, the
      answer, and whether the connection goes on. */
  datatype Effect = Effect(held: Held, changes: seq<Change>, answer: Answer, goOn: bool)

  const TWO_TO_THE_31: nat := 0x8000_0000
  const TWO_TO_THE_63: nat := 0x8000_0000_0000_0000

  /** A path that ends in "//" asks for the files of two levels. */
  predicate AsksForSubdirs(path: Name) {
    |path| >= 2 && path[|path| - 2..] == [0x2F, 0x2F]
  }

  /** What a file has from a position on, up to `limit` bytes. */
  function From(data: seq<Byte>, at: nat, limit: nat): (r: seq<Byte>)
    ensures |r| <= limit
  {
    if at >= |data| then [] else if |data| - at < limit then data[at..] else data[at..at + limit]
  }

  /** The first 2048 bytes behind the prefix of `sectors` sectors, up to the first that is not
      all there. */
  function SectorData(data: seq<Byte>, size: nat, start: nat, sectors: nat): (r: seq<Byte>)
    decreases sectors
  {
    if sectors == 0 then []
    else
      var before := SectorData(data, size, start, sectors - 1);
      if |before| < (sectors - 1) * 2048 then before
      else before + From(data, PSX_PREFIX_SIZE + (start + sectors - 1) * size, 2048)
  }

  /** What a command leads to; `next` is the handle that comes next. */
  function Meaning(cmd: Command, h: Held, allowWrite: bool, next: nat): Effect {
    match cmd
    case OpenDir(path, openOk, statOk, isDir, _) =>
      if !openOk || !statOk then Effect(h, [], Nothing, false)
      else Effect(h.(cwd := Some(next), subdirs := AsksForSubdirs(path)), [], DirOpened(isDir), true)
    case ReadDirEntry(answers, closeOk) =>
      if h.cwd.None? then Effect(h, [], NextEntry(None), true)
      else (
        match FirstKept(answers)
        case Found(name, _) => Effect(h, [], NextEntry(Some(name)), true)
        case ReadFailed => Effect(h, [], Nothing, false)
        case AtEnd =>
          if closeOk then Effect(h.(cwd := None, subdirs := false), [], NextEntry(None), true) else Effect(h, [], Nothing, false))
    case ReadDir(listing) =>
      if h.cwd.None? then Effect(h, [], Names([]), true)
      else
        var names := Listed(listing, [], if h.subdirs then 2 else 1, h.subdirs);
        Effect(h, [], if names.Some? then Names(names.value) else Nothing, names.Some?)
    case StatFile(_, stat) =>
      Effect(h, [], FileStat(if stat == IsDirectory then Some(true) else if stat == IsFile then Some(false) else None), true)
    case OpenFile(_, openOk, statOk, data, _) =>
      if !openOk then Effect(h.(ro := None, roData := []), [], FileOpened(-1), true)
      else if !statOk then Effect(h.(ro := Some(next), roData := data, cdSectorSize := DEFAULT_SECTOR_SIZE), [], FileOpened(-1), true)
      else Effect(h.(ro := Some(next), roData := data, cdSectorSize := AssumedSize(data)), [], FileOpened(|data|), true)
    case CloseFile(closeOk) =>
      Effect(if h.ro.Some? && closeOk then h.(ro := None, roData := [], cdSectorSize := 0) else h, [], FileOpened(0), true)
    case ReadFile(limit, at) =>
      var data := From(h.roData, at, limit);
      Effect(h, [],
             if h.ro.None? || at >= TWO_TO_THE_63 || |data| >= TWO_TO_THE_31 then Data([])
             else if data == [] then Nothing else Data(data), true)
    case ReadFileCritical(limit, at) =>
      if h.ro.None? || at >= TWO_TO_THE_63 then Effect(h, [], Nothing, false)
      else
        var data := From(h.roData, at, limit);
        Effect(h, [], Raw(data), |data| == limit)
    case ReadCD2048Critical(start, sectors) =>
      if h.ro.None? || h.cdSectorSize <= 0 then Effect(h, [], Nothing, false)
      else
        var data := SectorData(h.roData, h.cdSectorSize, start, sectors);
        Effect(h, [], Raw(data), |data| == sectors * 2048)
    case CreateFile(path, stat, createOk, _) =>
      if !allowWrite then Effect(h, [], Result(-1), true)
      else if stat == IsDirectory then Effect(h.(wo := None), [], Result(0), true)
      else if stat == StatFailed then Effect(h.(wo := None), [], Result(-1), true)
      else Effect(h.(wo := if createOk then Some(next) else None), [Created(path)], Result(if createOk then 0 else -1), true)
    case WriteFile(payload, writeOk) =>
      if !allowWrite || h.wo.None? then Effect(h, [], BytesWritten(-1), true)
      else Effect(h, [Written(h.wo.value, payload)], BytesWritten(if writeOk then ToInt32(|payload|) else -1), true)
    case DeleteFile(path, removeOk) =>
      Effect(h, if allowWrite then [Removed(path)] else [], Result(if allowWrite && removeOk then 0 else -1), true)
    case Mkdir(path, mkdirOk) =>
      Effect(h, if allowWrite then [MadeDir(path)] else [], Result(if allowWrite && mkdirOk then 0 else -1), true)
    case Rmdir(path, removeOk) =>
      Effect(h, if allowWrite then [Removed(path)] else [], Result(if allowWrite && removeOk then 0 else -1), true)
    case GetDirSize(tree) => Effect(h, [], TreeSize(SizeUpToFailure(FilesBelow(tree))), true)
    case UnknownCommand => Effect(h, [], Nothing, false)
  }

  /** The conversion `int32(x)`. */
  function ToInt32(x: nat): int {
    (x + 0x8000_0000) % TWO_TO_THE_32 - 0x8000_0000
  }

  // ----- the same, asked from the other side

  /** Which calls change the file system: one at most, none without write access, and each
      kind for the commands that are meant to make it. */
  lemma ChangesBy(cmd: Command, h: Held, allowWrite: bool, next: nat)
    ensures var cs := Meaning(cmd, h, allowWrite, next).changes;
      && |cs| <= 1 && (!allowWrite ==> cs == [])
      && (forall p :: MadeDir(p) in cs <==> allowWrite && cmd.Mkdir? && cmd.path == p)
      && (forall p :: Removed(p) in cs <==> allowWrite && (cmd.DeleteFile? || cmd.Rmdir?) && cmd.path == p)
      && (forall p :: Created(p) in cs <==>
            allowWrite && cmd.CreateFile? && cmd.path == p && cmd.stat != IsDirectory && cmd.stat != StatFailed)
      && (forall k: nat, d :: Written(k, d) in cs <==> allowWrite && cmd.WriteFile? && h.wo == Some(k) && cmd.payload == d)
  {
    hide Listed, FirstKept, AssumedSize, SectorData, From, SizeUpToFailure, FilesBelow;
  }

  /** What is held after a command: a directory since it was last opened and until it has been
      read to its end, ... */
  lemma CwdBy(cmd: Command, h: Held, allowWrite: bool, next: nat)
    ensures var h' := Meaning(cmd, h, allowWrite, next).held;
      && (h'.cwd != h.cwd || h'.subdirs != h.subdirs ==> cmd.OpenDir? || cmd.ReadDirEntry?)
      && (cmd.OpenDir? ==> if cmd.openOk && cmd.statOk
                           then h'.cwd == Some(next) && (h'.subdirs <==> exists dir :: cmd.path == dir + [0x2F, 0x2F])
                           else h'.cwd == h.cwd && h'.subdirs == h.subdirs)
      && (cmd.ReadDirEntry? && h.cwd.Some? ==> (h'.cwd == None <==> FirstKept(cmd.answers) == AtEnd && cmd.closeOk))
      && (cmd.ReadDirEntry? && h'.cwd != None ==> h'.cwd == h.cwd && h'.subdirs == h.subdirs)
      && (cmd.ReadDirEntry? && h'.cwd != h.cwd ==> !h'.subdirs)
  {
    hide Listed, FirstKept, AssumedSize, SectorData, From, SizeUpToFailure, FilesBelow;
    if cmd.OpenDir? {
      EndsInSlashes(cmd.path);
    }
  }

  lemma EndsInSlashes(path: Name)
    ensures AsksForSubdirs(path) <==> exists dir :: path == dir + [0x2F, 0x2F]
  {
    if AsksForSubdirs(path) {
      assert path == path[..|path| - 2] + [0x2F, 0x2F];
    }
    if dir :| path == dir + [0x2F, 0x2F] {
      assert path[|path| - 2..] == [0x2F, 0x2F];
    }
  }

  /** ... a file to read since it was last opened and until it is closed, with its contents
      and its sector size, ... */
  lemma RoBy(cmd: Command, h: Held, allowWrite: bool, next: nat)
    ensures var h' := Meaning(cmd, h, allowWrite, next).held;
      && (h'.ro != h.ro || h'.roData != h.roData || h'.cdSectorSize != h.cdSectorSize ==> cmd.OpenFile? || cmd.CloseFile?)
      && (cmd.OpenFile? ==> h'.ro == if cmd.openOk then Some(next) else None)
      && (cmd.OpenFile? && cmd.openOk ==> h'.roData == cmd.data)
      && (cmd.OpenFile? && cmd.openOk && cmd.statOk ==> h'.cdSectorSize == AssumedSize(cmd.data))
      && (cmd.OpenFile? && cmd.openOk && !cmd.statOk ==> h'.cdSectorSize == 2352)
      && (cmd.CloseFile? && h.ro.Some? ==> (h'.ro == None <==> cmd.closeOk))
      && (cmd.CloseFile? && h'.ro != h.ro ==> h'.cdSectorSize == 0)
  {
    hide Listed, FirstKept, AssumedSize, SectorData, From, SizeUpToFailure, FilesBelow;
  }

  /** ... and a file to write since it was created and until the next attempt to create one. */
  lemma WoBy(cmd: Command, h: Held, allowWrite: bool, next: nat)
    ensures var h' := Meaning(cmd, h, allowWrite, next).held;
      && (h'.wo != h.wo ==> cmd.CreateFile? && allowWrite)
      && (cmd.CreateFile? && allowWrite ==>
            h'.wo == if cmd.stat in {IsFile, DoesNotExist} && cmd.createOk then Some(next) else None)
  {
    hide Listed, FirstKept, AssumedSize, SectorData, From, SizeUpToFailure, FilesBelow;
  }

  /** Success is reported exactly of what has been done, and failure of the rest. */
  lemma AnswersBy(cmd: Command, h: Held, allowWrite: bool, next: nat)
    ensures var e := Meaning(cmd, h, allowWrite, next);
      && (e.answer == Result(0) <==>
            allowWrite && match cmd
                          case CreateFile(_, stat, createOk, _) => stat == IsDirectory || (stat != StatFailed && createOk)
                          case DeleteFile(_, removeOk) => removeOk
                          case Mkdir(_, mkdirOk) => mkdirOk
                          case Rmdir(_, removeOk) => removeOk
                          case _ => false)
      && (e.answer == Result(-1) <==> (cmd.CreateFile? || cmd.DeleteFile? || cmd.Mkdir? || cmd.Rmdir?) && e.answer != Result(0))
      && (cmd.WriteFile? && |cmd.payload| < 0x8000_0000 ==>
            e.answer == BytesWritten(if e.changes != [] && cmd.writeOk then |cmd.payload| else -1))
      && (cmd.OpenFile? ==> e.answer == FileOpened(if cmd.openOk && cmd.statOk then |cmd.data| else -1))
      && (cmd.CloseFile? ==> e.answer == FileOpened(0))
      && (cmd.OpenDir? && e.goOn ==> e.answer == DirOpened(cmd.isDir))
      && (cmd.StatFile? ==> e.answer == FileStat(match cmd.stat case IsDirectory => Some(true) case IsFile => Some(false) case _ => None))
  {
    hide Listed, FirstKept, AssumedSize, SectorData, From, SizeUpToFailure, FilesBelow, ToInt32;
    if cmd.WriteFile? && |cmd.payload| < 0x8000_0000 {
      SmallInt32(|cmd.payload|);
    }
  }

  lemma SmallInt32(x: nat)
    requires x < 0x8000_0000
    ensures ToInt32(x) == x
  {
  }

  /** What a read delivers lies in the open file where it was asked for, and is as long as
      asked or up to the end of the file. A buffered read answers nothing at all if there is
      nothing to deliver, and an empty result if the length does not fit the answer. */
  lemma ReadsBy(limit: nat, at: nat, h: Held, allowWrite: bool, next: nat)
    requires h.ro.Some? && at < 0x8000_0000_0000_0000
    ensures var data := Meaning(ReadFileCritical(limit, at), h, allowWrite, next).answer.data;
      && Meaning(ReadFileCritical(limit, at), h, allowWrite, next).answer.Raw?
      && (data != [] ==> at + |data| <= |h.roData| && data == h.roData[at..at + |data|])
      && (|data| < limit ==> at + |data| >= |h.roData|)
      && (Meaning(ReadFileCritical(limit, at), h, allowWrite, next).goOn <==> limit == 0 || at + limit <= |h.roData|)
      && Meaning(ReadFile(limit, at), h, allowWrite, next).answer
         == if data == [] then Nothing else if |data| >= 0x8000_0000 then Data([]) else Data(data)
  {
  }

  /** Exactly when a client that asks for part of a file gets no answer and goes on waiting: it asks
      for nothing, or for something behind the end. Every other buffered read is answered. */
  lemma UnansweredRead(limit: nat, at: nat, h: Held, allowWrite: bool, next: nat)
    ensures var e := Meaning(ReadFile(limit, at), h, allowWrite, next);
      && (e.answer == Nothing <==> h.ro.Some? && at < 0x8000_0000_0000_0000 && (limit == 0 || at >= |h.roData|))
      && (e.answer == Nothing || e.answer.Data?) && e.goOn
  {
  }

  /** A run of CD sectors is delivered whole exactly if the last is there; each is the first
      2048 bytes of its sector behind the prefix. */
  lemma {:induction false} SectorsBy(data: seq<Byte>, size: nat, start: nat, sectors: nat)
    requires size > 0
    ensures var sent := SectorData(data, size, start, sectors);
      && (|sent| == sectors * 2048 <==> sectors == 0 || 24 + (start + sectors - 1) * size + 2048 <= |data|)
      && |sent| <= sectors * 2048
      && forall i :: 0 <= i < sectors && (i + 1) * 2048 <= |sent| ==> SectorIs(data, size, start, sent, i)
    decreases sectors
  {
    if sectors > 0 {
      hide SectorData, From;
      SectorsBy(data, size, start, sectors - 1);
      OneMoreSector(data, size, start, sectors - 1);
      var before, sent := SectorData(data, size, start, sectors - 1), SectorData(data, size, start, sectors);
      assert (start + sectors - 1) * size == (start + (sectors - 1) - 1) * size + size;
      forall i | 0 <= i < sectors && (i + 1) * 2048 <= |sent| ensures SectorIs(data, size, start, sent, i) {
        if i < sectors - 1 {
          assert SectorIs(data, size, start, before, i);
          assert sent[i * 2048..(i + 1) * 2048] == before[i * 2048..(i + 1) * 2048];
        }
      }
    }
  }

  predicate SectorIs(data: seq<Byte>, size: nat, start: nat, sent: seq<Byte>, i: nat)
  {
    var at := 24 + (start + i) * size;
    && 0 <= at && at + 2048 <= |data| && (i + 1) * 2048 <= |sent|
    && sent[i * 2048..(i + 1) * 2048] == data[at..at + 2048]
  }

  lemma OneMoreSector(data: seq<Byte>, size: nat, start: nat, n: nat)
    ensures var before, sent, at := SectorData(data, size, start, n), SectorData(data, size, start, n + 1), 24 + (start + n) * size;
      && |before| <= |sent| && sent[..|before|] == before
      && (|before| < n * 2048 ==> sent == before)
      && (|before| == n * 2048 ==>
            && |sent| <= (n + 1) * 2048 && (|sent| == (n + 1) * 2048 <==> at + 2048 <= |data|)
            && (at + 2048 <= |data| ==> SectorIs(data, size, start, sent, n)))
  {
    var before := SectorData(data, size, start, n);
    var more := From(data, PSX_PREFIX_SIZE + (start + n) * size, 2048);
    assert (before + more)[|before|..] == more;
  }

  lemma {:induction false} SectorDataStops(data: seq<Byte>, size: nat, start: nat, n: nat, sectors: nat)
    requires n <= sectors && |SectorData(data, size, start, n)| < n * 2048
    ensures SectorData(data, size, start, sectors) == SectorData(data, size, start, n)
    ensures |SectorData(data, size, start, sectors)| < sectors * 2048
    decreases sectors
  {
    if n < sectors {
      SectorDataStops(data, size, start, n, sectors - 1);
    }
  }

  // ----- whole connections

  /** What is held before a command, and the handle that comes next. */
  datatype Turn = Turn(held: Held, next: nat)

  function EffectOf(cmds: seq<Command>, turns: seq<Turn>, allowWrite: bool, i: nat): Effect
    requires i < |turns| <= |cmds|
  {
    Meaning(cmds[i], turns[i].held, allowWrite, turns[i].next)
  }

  /** The commands are handled one after another from `first` on, each finding what the one
      before it has left, up to and including the first that ends the connection. */
  ghost predicate Turns(cmds: seq<Command>, turns: seq<Turn>, allowWrite: bool, first: Held) {
    && |turns| <= |cmds|
    && (turns != [] ==> turns[0].held == first)
    && (forall i :: 0 <= i < |turns| - 1 ==>
          EffectOf(cmds, turns, allowWrite, i).goOn && turns[i + 1].held == EffectOf(cmds, turns, allowWrite, i).held)
    && (|turns| < |cmds| ==> turns != [] && !EffectOf(cmds, turns, allowWrite, |turns| - 1).goOn)
  }

  /** The changes of all commands that were handled, in their order. */
  function ChangesOf(cmds: seq<Command>, turns: seq<Turn>, allowWrite: bool): seq<Change>
    requires |turns| <= |cmds|
  {
    if turns == [] then []
    else ChangesOf(cmds, turns[..|turns| - 1], allowWrite) + EffectOf(cmds, turns, allowWrite, |turns| - 1).changes
  }

  function AnswersOf(cmds: seq<Command>, turns: seq<Turn>, allowWrite: bool): (r: seq<Answer>)
    requires |turns| <= |cmds|
    ensures |r| == |turns|
  {
    seq(|turns|, i requires 0 <= i < |turns| => EffectOf(cmds, turns, allowWrite, i).answer)
  }

  /** All commands so far have gone on, and `last` is held now. */
  ghost predicate TurnsTo(cmds: seq<Command>, turns: seq<Turn>, allowWrite: bool, first: Held, last: Held) {
    && |turns| <= |cmds|
    && (if turns == [] then last == first else turns[0].held == first && last == EffectOf(cmds, turns, allowWrite, |turns| - 1).held)
    && (forall i :: 0 <= i < |turns| ==> EffectOf(cmds, turns, allowWrite, i).goOn)
    && (forall i :: 0 <= i < |turns| - 1 ==> turns[i + 1].held == EffectOf(cmds, turns, allowWrite, i).held)
  }

  lemma TurnsStart(cmds: seq<Command>, allowWrite: bool, first: Held)
    ensures TurnsTo(cmds, [], allowWrite, first, first)
    ensures ChangesOf(cmds, [], allowWrite) == [] && AnswersOf(cmds, [], allowWrite) == []
  {
  }

  /** One more command. */
  lemma TurnsNext(cmds: seq<Command>, turns: seq<Turn>, allowWrite: bool, first: Held, turn: Turn)
    requires TurnsTo(cmds, turns, allowWrite, first, turn.held) && |turns| < |cmds|
    ensures var e, turns' := Meaning(cmds[|turns|], turn.held, allowWrite, turn.next), turns + [turn];
      && ChangesOf(cmds, turns', allowWrite) == ChangesOf(cmds, turns, allowWrite) + e.changes
      && AnswersOf(cmds, turns', allowWrite) == AnswersOf(cmds, turns, allowWrite) + [e.answer]
      && (if e.goOn then TurnsTo(cmds, turns', allowWrite, first, e.held) else Turns(cmds, turns', allowWrite, first))
  {
    hide Meaning;
    var turns' := turns + [turn];
    assert turns'[..|turns|] == turns;
    assert EffectOf(cmds, turns', allowWrite, |turns|) == Meaning(cmds[|turns|], turn.held, allowWrite, turn.next);
    forall i | 0 <= i < |turns| ensures EffectOf(cmds, turns', allowWrite, i) == EffectOf(cmds, turns, allowWrite, i) {
    }
  }

  lemma TurnsEnd(cmds: seq<Command>, turns: seq<Turn>, allowWrite: bool, first: Held, last: Held)
    requires TurnsTo(cmds, turns, allowWrite, first, last) && |turns| == |cmds|
    ensures Turns(cmds, turns, allowWrite, first)
  {
    hide Meaning;
  }

  /** Data that a client writes go to the file that it has created last. */
  lemma {:induction false} WritesGoToCreated(cmds: seq<Command>, turns: seq<Turn>, allowWrite: bool, first: Held, i: nat, k: nat)
    requires Turns(cmds, turns, allowWrite, first) && i < |turns| && first.wo == None && allowWrite
    requires turns[i].held.wo == Some(k)
    ensures exists j :: 0 <= j < i && cmds[j].CreateFile? && turns[j].next == k
              && forall m :: j < m < i ==> !cmds[m].CreateFile?
    decreases i
  {
    hide Meaning;
    assert i > 0 && turns[i].held == EffectOf(cmds, turns, allowWrite, i - 1).held;
    WoBy(cmds[i - 1], turns[i - 1].held, allowWrite, turns[i - 1].next);
    if !cmds[i - 1].CreateFile? {
      WritesGoToCreated(cmds, turns, allowWrite, first, i - 1, k);
      var j :| 0 <= j < i - 1 && cmds[j].CreateFile? && turns[j].next == k && forall m :: j < m < i - 1 ==> !cmds[m].CreateFile?;
      assert forall m :: j < m < i ==> !cmds[m].CreateFile?;
    }
  }

  // ----- what directory listings report

  /** The names of a listing without subdirectories: those of all entries that are not broken,
      files and directories alike. */
  lemma {:induction false} ListedOne(es: seq<Ent>, prefix: seq<Name>)
    ensures var r := ListedEntries(es, prefix, 1, false);
      && r.Some? && |r.value| <= |es|
      && forall p :: p in r.value <==> exists e :: e in es && !e.Broken? && p == prefix + [e.name]
  {
    if es != [] {
      var front, e := es[..|es| - 1], es[|es| - 1];
      ListedOne(front, prefix);
      assert es == front + [e];
    }
  }

  /** The names of a listing with subdirectories: the files of the directory, and those of its
      subdirectories behind their names; no directories. It fails exactly if a subdirectory cannot
      be opened or read, or one in a subdirectory cannot be opened. */
  lemma {:induction false} ListedTwo(es: seq<Ent>)
    ensures var r := ListedEntries(es, [], 2, true);
      && (r.Some? <==> forall e :: e in es && e.Directory? ==> e.openable && e.sub.Entries? && InnerOpenable(e.sub.es))
      && (r.Some? ==> forall p :: p in r.value <==> InFirst(es, p) || InSecond(es, p))
  {
    if es != [] {
      var front, e := es[..|es| - 1], es[|es| - 1];
      ListedTwo(front);
      assert es == front + [e];
      if !e.Broken? {
        assert [] + [e.name] == [e.name];
      }
      if e.Directory? && e.sub.Entries? {
        ListedInner(e.sub.es, [e.name]);
      }
    }
  }

  predicate InnerOpenable(es: seq<Ent>) {
    forall e :: e in es && e.Directory? ==> e.openable
  }

  predicate InFirst(es: seq<Ent>, p: seq<Name>) {
    exists e :: e in es && e.Plain? && p == [e.name]
  }

  predicate InSecond(es: seq<Ent>, p: seq<Name>) {
    exists e, f :: e in es && e.Directory? && e.sub.Entries? && f in e.sub.es && f.Plain? && p == [e.name, f.name]
  }

  lemma {:induction false} ListedInner(es: seq<Ent>, prefix: seq<Name>)
    ensures var r := ListedEntries(es, prefix, 1, true);
      && (r.Some? <==> InnerOpenable(es))
      && (r.Some? ==> forall p :: p in r.value <==> exists f :: f in es && f.Plain? && p == prefix + [f.name])
  {
    if es != [] {
      var front, e := es[..|es| - 1], es[|es| - 1];
      ListedInner(front, prefix);
      assert es == front + [e];
    }
  }
}
