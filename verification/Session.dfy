/** One client's session: the files and directories it holds open between commands.
    What the file system answers is an input of every command. */
module Session {
  import opened Wrappers
  import opened Bytes
  import opened Commands

  /** What has happened to a handle: how often Close has been called on it, how many of
      these calls failed so that the session kept the handle, and whether it was dropped
      because Stat failed on it. */
  datatype HandleLog = HandleLog(closes: nat, kept: nat, dropped: bool)

  /** A handle that is held has only been closed in vain; one that is not held has been
      closed once more, unless it was dropped. */
  predicate Right(log: HandleLog, held: bool) {
    if held then !log.dropped && log.closes == log.kept
    else log.closes == if log.dropped then 0 else log.kept + 1
  }

  /** No more closes have been in vain and no more handles dropped than before. */
  predicate SameHistory(before: seq<HandleLog>, after: seq<HandleLog>) {
    && |before| <= |after|
    && (forall h :: 0 <= h < |before| ==> after[h].kept == before[h].kept && after[h].dropped == before[h].dropped)
    && forall h :: |before| <= h < |after| ==> after[h].kept == 0 && !after[h].dropped
  }

  lemma NoHistory(logs: seq<HandleLog>)
    ensures SameHistory(logs, logs)
  {
  }

  lemma HistoryTransitive(a: seq<HandleLog>, b: seq<HandleLog>, c: seq<HandleLog>)
    requires SameHistory(a, b) && SameHistory(b, c)
    ensures SameHistory(a, c)
  {
  }

  /** More handles have been opened since, and all of them are closed. */
  predicate Balanced(before: seq<HandleLog>, after: seq<HandleLog>) {
    && |before| <= |after| && after[..|before|] == before
    && forall h :: |before| <= h < |after| ==> after[h] == HandleLog(1, 0, false)
  }

  /** The file system, as the ledger of what the session does to it. */
  class FileSystem {
    var handles: seq<HandleLog>
    var changes: seq<Change>

    method Open(ok: bool) returns (h: Option<nat>)
      modifies this`handles
      ensures ok ==> h == Some(|old(handles)|) && handles == old(handles) + [HandleLog(0, 0, false)]
      ensures !ok ==> h == None && handles == old(handles)
    {
      if ok {
        h := Some(|handles|);
        handles := handles + [HandleLog(0, 0, false)];
      } else {
        h := None;
      }
    }

    /** Close a handle; `keep` tells whether the caller goes on holding it on failure. */
    method Close(h: nat, ok: bool, keep: bool)
      requires h < |handles|
      modifies this`handles
      ensures handles == old(handles)[h := HandleLog(old(handles)[h].closes + 1,
                                                     old(handles)[h].kept + if keep && !ok then 1 else 0,
                                                     old(handles)[h].dropped)]
    {
      handles := handles[h := HandleLog(handles[h].closes + 1, handles[h].kept + if keep && !ok then 1 else 0, handles[h].dropped)];
    }

    method Drop(h: nat)
      requires h < |handles|
      modifies this`handles
      ensures handles == old(handles)[h := old(handles)[h].(dropped := true)]
    {
      handles := handles[h := handles[h].(dropped := true)];
    }

    method Record(c: Change)
      modifies this`changes
      ensures changes == old(changes) + [c]
    {
      changes := changes + [c];
    }
  }

  lemma BalancedNone(a: seq<HandleLog>)
    ensures Balanced(a, a)
  {
  }

  lemma BalancedTransitive(a: seq<HandleLog>, b: seq<HandleLog>, c: seq<HandleLog>)
    requires Balanced(a, b) && Balanced(b, c)
    ensures Balanced(a, c)
  {
    assert c[..|a|] == b[..|a|];
  }

  lemma BalancedAround(a: seq<HandleLog>, b: seq<HandleLog>, c: seq<HandleLog>)
    requires Balanced(a, b) && |b| < |c| && c[..|b|] == b && c[|b|] == HandleLog(1, 0, false)
    requires forall h :: |b| < h < |c| ==> c[h] == HandleLog(1, 0, false)
    ensures Balanced(a, c)
  {
    assert c[..|a|] == b[..|a|];
  }

  // ----- the session

  class Session {
    const fs: FileSystem
    const allowWrite: bool
    var cwdHandle: Option<nat>
    var subdirs: bool
    var roFile: Option<nat>
    var roData: seq<Byte>   // the contents of that file
    var cdSectorSize: int
    var woFile: Option<nat>

    function State(): Held
      reads this
    {
      Held(cwdHandle, subdirs, roFile, roData, cdSectorSize, woFile)
    }

    /** At most one directory, one file to read and one file to write. */
    predicate Holds(h: nat)
      reads this
    {
      cwdHandle == Some(h) || roFile == Some(h) || woFile == Some(h)
    }

    ghost predicate Valid()
      reads this, fs
    {
      && (cwdHandle.Some? ==> cwdHandle.value < |fs.handles| && cwdHandle != roFile && cwdHandle != woFile)
      && (roFile.Some? ==> roFile.value < |fs.handles| && roFile != woFile && cdSectorSize in SECTOR_SIZES)
      && (woFile.Some? ==> woFile.value < |fs.handles|)
      && (forall h: nat :: h < |fs.handles| ==> Right(fs.handles[h], Holds(h)))
    }

    constructor (fs: FileSystem, allowWrite: bool)
      requires forall h :: 0 <= h < |fs.handles| ==> Right(fs.handles[h], false)
      ensures Valid() && this.fs == fs && this.allowWrite == allowWrite && State() == Held(None, false, None, [], 0, None)
    {
      this.fs, this.allowWrite := fs, allowWrite;
      cwdHandle, subdirs, roFile, roData, cdSectorSize, woFile := None, false, None, [], 0, None;
    }

    method HandleOpenDir(path: Name, openOk: bool, statOk: bool, isDir: bool, closeOk: bool) returns (res: Option<bool>)
      requires Valid()
      modifies this, fs`handles
      ensures Valid()
      ensures State() == if openOk && statOk then old(State()).(cwd := Some(old(|fs.handles|)), subdirs := AsksForSubdirs(path))
                         else old(State())
      ensures res == if openOk && statOk then Some(isDir) else None
      ensures |fs.handles| == old(|fs.handles|) + if openOk then 1 else 0
      ensures openOk ==> fs.handles[old(|fs.handles|)].dropped == !statOk
      ensures openOk && statOk ==> SameHistory(old(fs.handles), fs.handles)
      ensures !openOk ==> fs.handles == old(fs.handles)
    {
      var wantSubdirs := |path| >= 2 && path[|path| - 2..] == [0x2F, 0x2F];
      var handle := fs.Open(openOk);
      if handle.None? {
        return None;
      }
      if !statOk {
        fs.Drop(handle.value);
        return None;
      }
      if cwdHandle.Some? {
        fs.Close(cwdHandle.value, closeOk, false);
        cwdHandle, subdirs := None, false;
      }
      cwdHandle, subdirs := handle, wantSubdirs;
      res := Some(isDir);
    }

    /** The next entry that is not "." or ".." and that Stat finds; at its end the directory
        is closed. */
    method HandleReadDirEntry(answers: seq<DirRead>, closeOk: bool) returns (entry: Option<Name>, ok: bool)
      requires Valid()
      modifies this, fs`handles
      ensures Valid()
      ensures State() == if old(cwdHandle).Some? && FirstKept(answers) == AtEnd && closeOk
                         then old(State()).(cwd := None, subdirs := false) else old(State())
      ensures closeOk ==> SameHistory(old(fs.handles), fs.handles)
      ensures old(cwdHandle).None? ==> ok && entry == None
      ensures old(cwdHandle).Some? ==>
        match FirstKept(answers)
        case Found(name, _) => ok && entry == Some(name)
        case ReadFailed => !ok && entry == None
        case AtEnd => ok == closeOk && entry == None
      ensures if old(cwdHandle).Some? && FirstKept(answers) == AtEnd
              then |fs.handles| == old(|fs.handles|)
                   && fs.handles[old(cwdHandle).value].closes == old(fs.handles[cwdHandle.value].closes) + 1
              else fs.handles == old(fs.handles)
    {
      if cwdHandle.None? {
        return None, true;
      }
      for i := 0 to |answers|
        invariant Valid() && unchanged(this) && unchanged(fs)
        invariant forall j :: 0 <= j < i ==> Skipped(answers[j])
        invariant FirstKept(answers) == FirstKept(answers[i..])
      {
        assert answers[i..][1..] == answers[i + 1..];
        match answers[i]
        case Found(name, statOk) =>
          if !IsDots(name) && statOk {
            return Some(name), true;
          }
        case ReadFailed =>
          return None, false;
        case AtEnd =>
          break;
      }
      fs.Close(cwdHandle.value, closeOk, true);
      if !closeOk {
        return None, false;
      }
      cwdHandle, subdirs := None, false;
      return None, true;
    }

    /** Close the file that is open for reading, whatever Close answers. */
    method ForgetROFile(closeOk: bool)
      requires Valid()
      modifies this, fs`handles
      ensures Valid() && State() == old(State()).(ro := None, roData := [])
      ensures |fs.handles| == old(|fs.handles|) && SameHistory(old(fs.handles), fs.handles)
    {
      if roFile.Some? {
        fs.Close(roFile.value, closeOk, false);
        roFile := None;
      }
      roData := [];
    }

    /** The sector size to assume for a file with these contents. */
    method SectorSizeOf(data: seq<Byte>) returns (size: int)
      ensures size == AssumedSize(data)
    {
      hide ShowsMagic, SmallestShown;
      size := DEFAULT_SECTOR_SIZE;
      if 0x20_0000 <= |data| <= 0x3500_0000 {
        var sectorSize := DetermineSectorSize(data);
        if sectorSize > 0 && sectorSize != size {
          size := sectorSize;
        }
      }
    }

    method HandleOpenFile(path: Name, openOk: bool, statOk: bool, data: seq<Byte>, closeOk: bool) returns (ok: bool)
      requires Valid()
      modifies this, fs`handles
      ensures Valid()
      ensures ok <==> openOk && statOk
      ensures State() == if openOk then old(State()).(ro := Some(old(|fs.handles|)), roData := data,
                                                      cdSectorSize := if statOk then AssumedSize(data) else DEFAULT_SECTOR_SIZE)
                         else old(State()).(ro := None, roData := [])
      ensures |fs.handles| == old(|fs.handles|) + if openOk then 1 else 0
      ensures SameHistory(old(fs.handles), fs.handles)
    {
      ForgetROFile(closeOk);
      var f := fs.Open(openOk);
      if f.None? {
        return false;
      }
      roFile, roData := f, data;
      cdSectorSize := DEFAULT_SECTOR_SIZE;
      if !statOk {
        return false;
      }
      cdSectorSize := SectorSizeOf(data);
      ok := true;
    }

    method HandleCloseFile(closeOk: bool) returns (ok: bool)
      requires Valid()
      modifies this, fs`handles
      ensures Valid()
      ensures ok <==> old(roFile).None? || closeOk
      ensures State() == if old(roFile).Some? && closeOk then old(State()).(ro := None, roData := [], cdSectorSize := 0) else old(State())
      ensures |fs.handles| == old(|fs.handles|)
      ensures closeOk ==> SameHistory(old(fs.handles), fs.handles)
    {
      if roFile.None? {
        return true;
      }
      fs.Close(roFile.value, closeOk, true);
      if !closeOk {
        return false;
      }
      roFile, roData, cdSectorSize := None, [], 0;
      ok := true;
    }

    method HandleCreateFile(path: Name, stat: StatResult, createOk: bool, closeOk: bool) returns (ok: bool)
      requires Valid()
      modifies this, fs
      ensures Valid()
      ensures !allowWrite ==> !ok && fs.changes == old(fs.changes) && State() == old(State())
      ensures allowWrite ==> fs.changes == old(fs.changes) + if stat in {IsFile, DoesNotExist} then [Created(path)] else []
      ensures ok <==> allowWrite && (stat == IsDirectory || (stat != StatFailed && createOk))
      ensures SameHistory(old(fs.handles), fs.handles)
      ensures allowWrite ==>
        State() == old(State()).(wo := if ok && stat != IsDirectory then Some(old(|fs.handles|)) else None)
    {
      if !allowWrite {
        return false;
      }
      if woFile.Some? {
        fs.Close(woFile.value, closeOk, false);
        woFile := None;
      }
      if stat == IsDirectory {
        return true;
      }
      if stat == StatFailed {
        return false;
      }
      fs.Record(Created(path));
      var f := fs.Open(createOk);
      if f.None? {
        return false;
      }
      woFile := f;
      ok := true;
    }

    method HandleWriteFile(data: seq<Byte>, writeOk: bool) returns (written: nat, ok: bool)
      requires Valid()
      modifies fs`changes
      ensures Valid()
      ensures ok <==> allowWrite && woFile.Some? && writeOk
      ensures fs.changes == if allowWrite && woFile.Some? then old(fs.changes) + [Written(woFile.value, data)] else old(fs.changes)
      ensures ok ==> written == |data|
    {
      if !allowWrite || woFile.None? {
        return 0, false;
      }
      fs.Record(Written(woFile.value, data));
      if !writeOk {
        return 0, false;
      }
      return |data|, true;
    }

    /** DeleteFile and Rmdir. */
    method HandleRemove(path: Name, removeOk: bool) returns (ok: bool)
      requires Valid()
      modifies fs`changes
      ensures Valid()
      ensures ok <==> allowWrite && removeOk
      ensures fs.changes == if allowWrite then old(fs.changes) + [Removed(path)] else old(fs.changes)
    {
      if !allowWrite {
        return false;
      }
      fs.Record(Removed(path));
      ok := removeOk;
    }

    method HandleMkdir(path: Name, mkdirOk: bool) returns (ok: bool)
      requires Valid()
      modifies fs`changes
      ensures Valid()
      ensures ok <==> allowWrite && mkdirOk
      ensures fs.changes == if allowWrite then old(fs.changes) + [MadeDir(path)] else old(fs.changes)
    {
      if !allowWrite {
        return false;
      }
      fs.Record(MadeDir(path));
      ok := mkdirOk;
    }

    /** `readDir`: subdirectories are opened, listed and closed again. */
    method ReadDir(prefix: seq<Name>, level: nat, listing: Listing) returns (files: seq<seq<Name>>, ok: bool)
      modifies fs`handles
      ensures Balanced(old(fs.handles), fs.handles)
      ensures ok <==> Listed(listing, prefix, level, subdirs).Some?
      ensures ok ==> files == Listed(listing, prefix, level, subdirs).value
      decreases level
    {
      hide Listed, ListedEntries;
      ListedIs(listing, prefix, level, subdirs);
      files := [];
      if level == 0 {
        return [], true;
      }
      if listing.Unreadable? {
        return [], false;
      }
      var es := listing.es;
      for i := 0 to |es|
        invariant Balanced(old(fs.handles), fs.handles)
        invariant ListedEntries(es[..i], prefix, level, subdirs) == Some(files)
      {
        assert es[..i + 1][..i] == es[..i];
        ListedSnoc(es[..i], es[i], prefix, level, subdirs);
        assert es[..i + 1] == es[..i] + [es[i]];
        match es[i]
        case Broken =>
        case Plain(name) =>
          files := files + [prefix + [name]];
        case Directory(name, openable, sub) =>
          if !subdirs {
            files := files + [prefix + [name]];
          } else {
            ghost var before := fs.handles;
            var dirFile := fs.Open(openable);
            if dirFile.None? {
              ListedStops(es, i + 1, prefix, level, subdirs);
              return [], false;
            }
            var below, readable := ReadDir(prefix + [name], level - 1, sub);
            fs.Close(dirFile.value, true, false);
            BalancedAround(old(fs.handles), before, fs.handles);
            if !readable {
              ListedStops(es, i + 1, prefix, level, subdirs);
              return [], false;
            }
            files := files + below;
          }
      }
      assert es[..|es|] == es;
      ok := true;
    }

    method HandleReadDir(listing: Listing) returns (files: seq<seq<Name>>, ok: bool)
      requires Valid()
      modifies fs`handles
      ensures Valid() && SameHistory(old(fs.handles), fs.handles)
      ensures cwdHandle.None? ==> ok && files == []
      ensures cwdHandle.Some? ==>
        var names := Listed(listing, [], if subdirs then 2 else 1, subdirs);
        && (ok <==> names.Some?) && (ok ==> files == names.value)
    {
      if cwdHandle.None? {
        return [], true;
      }
      var level := if subdirs then 2 else 1;
      files, ok := ReadDir([], level, listing);
    }

    /** `WalkDir`: every directory that can be opened is closed when it has been walked;
        directories that cannot be opened or read are passed over, but a file on which Stat
        fails ends the walk. */
    method WalkDir(tree: Tree) returns (size: nat, ok: bool)
      modifies fs`handles
      ensures Balanced(old(fs.handles), fs.handles)
      ensures size == SizeUpToFailure(FilesBelow(tree)) && (ok <==> !StatsFail(FilesBelow(tree)))
      decreases tree
    {
      match tree
      case Leaf(n, statOk) =>
        OneFile(tree);
        return if statOk then n else 0, statOk;
      case Branch(openable, children) =>
        hide StatsFail, SizeUpToFailure, FilesBelowAll;
        NoFiles();
        var dirFile := fs.Open(openable);
        if dirFile.None? {
          return 0, true;
        }
        size, ok := WalkAll(children);
        fs.Close(dirFile.value, true, false);
    }

    /** The entries of one directory. */
    method WalkAll(children: seq<Tree>) returns (size: nat, ok: bool)
      modifies fs`handles
      ensures Balanced(old(fs.handles), fs.handles)
      ensures size == SizeUpToFailure(FilesBelowAll(children)) && (ok <==> !StatsFail(FilesBelowAll(children)))
      decreases children
    {
      hide StatsFail, SizeUpToFailure, Balanced, FilesBelow;
      NoFiles();
      BalancedNone(fs.handles);
      size, ok := 0, true;
      for i := 0 to |children|
        invariant Balanced(old(fs.handles), fs.handles)
        invariant ok && !StatsFail(FilesBelowAll(children[..i])) && size == SizeUpToFailure(FilesBelowAll(children[..i]))
      {
        ghost var before := fs.handles;
        var below;
        below, ok := WalkDir(children[i]);
        size := size + below;
        BalancedTransitive(old(fs.handles), before, fs.handles);
        assert children[..i + 1][..i] == children[..i];
        SizeConcat(FilesBelowAll(children[..i]), FilesBelow(children[i]));
        if !ok {
          WalkStops(children, i + 1);
          return;
        }
      }
      assert children[..|children|] == children;
    }

    lemma OneFile(tree: Tree)
      requires tree.Leaf?
      ensures SizeUpToFailure(FilesBelow(tree)) == if tree.statOk then tree.size else 0
      ensures StatsFail(FilesBelow(tree)) <==> !tree.statOk
    {
      assert [tree][1..] == [];
      assert tree in [tree];
    }

    lemma NoFiles()
      ensures SizeUpToFailure([]) == 0 && !StatsFail([])
    {
    }

    /** The size of the files that the walk comes to before Stat fails on one. */
    method HandleGetDirSize(tree: Tree) returns (size: nat)
      requires Valid()
      modifies fs`handles
      ensures Valid() && SameHistory(old(fs.handles), fs.handles)
      ensures size == SizeUpToFailure(FilesBelow(tree))
    {
      var walked;
      size, walked := WalkDir(tree);
    }

    /** A part of the held file, buffered and sent with its length; nothing at all is sent of
        an empty part. */
    method HandleReadFile(limit: nat, at: nat) returns (answer: Answer)
      ensures answer == Meaning(ReadFile(limit, at), State(), allowWrite, 0).answer
    {
      if roFile.None? || at >= TWO_TO_THE_63 {
        return Data([]);
      }
      var data := From(roData, at, limit);
      var dataLength := ToInt32(|data|);
      if data == [] {
        return Nothing;
      } else if |data| > dataLength {
        return Data([]);
      } else {
        return Data(data);
      }
    }

    /** The same without buffer and length; a file that is too short ends the connection. */
    method HandleReadFileCritical(limit: nat, at: nat) returns (answer: Answer, ok: bool)
      ensures var e := Meaning(ReadFileCritical(limit, at), State(), allowWrite, 0); answer == e.answer && ok == e.goOn
    {
      if roFile.None? || at >= TWO_TO_THE_63 {
        return Nothing, false;
      }
      var data := From(roData, at, limit);
      return Raw(data), |data| == limit;
    }

    /** The user data of a run of CD sectors. */
    method HandleReadCD2048Critical(startSector: nat, sectors: nat) returns (answer: Answer, ok: bool)
      ensures var e := Meaning(ReadCD2048Critical(startSector, sectors), State(), allowWrite, 0); answer == e.answer && ok == e.goOn
    {
      if roFile.None? || cdSectorSize <= 0 {
        return Nothing, false;
      }
      var sent: seq<Byte> := [];
      var offset := PSX_PREFIX_SIZE + startSector * cdSectorSize;
      for i := 0 to sectors
        invariant sent == SectorData(roData, cdSectorSize, startSector, i) && |sent| == i * 2048
        invariant offset == PSX_PREFIX_SIZE + (startSector + i) * cdSectorSize
      {
        var data := From(roData, offset, 2048);
        assert (startSector + (i + 1)) * cdSectorSize == (startSector + i) * cdSectorSize + cdSectorSize;
        assert sent + data == SectorData(roData, cdSectorSize, startSector, i + 1);
        sent := sent + data;
        if |data| < 2048 {
          SectorDataStops(roData, cdSectorSize, startSector, i + 1, sectors);
          return Raw(sent), false;
        }
        offset := offset + cdSectorSize;
      }
      return Raw(sent), true;
    }

    /** `handleCommand`; not `goOn` ends the connection. */
    method Handle(cmd: Command) returns (answer: Answer, goOn: bool)
      requires Valid()
      modifies this, fs
      ensures Valid()
      ensures var e := Meaning(cmd, old(State()), allowWrite, old(|fs.handles|));
        && State() == e.held && fs.changes == old(fs.changes) + e.changes
        && answer == e.answer && goOn == e.goOn
      ensures Benign(cmd) ==> SameHistory(old(fs.handles), fs.handles)
      ensures |old(fs.handles)| <= |fs.handles|
      ensures !allowWrite ==> fs.changes == old(fs.changes)
    {
      hide Valid, Right, Balanced, SameHistory, Listed, SectorData, AssumedSize, SizeUpToFailure, FilesBelow, FirstKept;
      NoHistory(fs.handles);
      assert fs.changes + [] == fs.changes;
      answer, goOn := Nothing, true;
      match cmd
      case OpenDir(path, openOk, statOk, isDir, closeOk) =>
        var res := HandleOpenDir(path, openOk, statOk, isDir, closeOk);
        if res.None? {
          return Nothing, false;
        }
        answer := DirOpened(res.value);
      case ReadDirEntry(answers, closeOk) =>
        var entry;
        entry, goOn := HandleReadDirEntry(answers, closeOk);
        answer := if goOn then NextEntry(entry) else Nothing;
      case ReadDir(listing) =>
        var names;
        names, goOn := HandleReadDir(listing);
        answer := if goOn then Names(names) else Nothing;
      case StatFile(_, stat) =>
        answer := FileStat(match stat
                           case IsDirectory => Some(true)
                           case IsFile => Some(false)
                           case _ => None);
      case OpenFile(path, openOk, statOk, data, closeOk) =>
        var ok := HandleOpenFile(path, openOk, statOk, data, closeOk);
        answer := FileOpened(if ok then |data| else -1);
      case CloseFile(closeOk) =>
        var _ := HandleCloseFile(closeOk);
        answer := FileOpened(0);
      case ReadFile(limit, at) =>
        answer := HandleReadFile(limit, at);
      case ReadFileCritical(limit, at) =>
        answer, goOn := HandleReadFileCritical(limit, at);
      case ReadCD2048Critical(startSector, sectors) =>
        answer, goOn := HandleReadCD2048Critical(startSector, sectors);
      case CreateFile(path, stat, createOk, closeOk) =>
        var ok := HandleCreateFile(path, stat, createOk, closeOk);
        answer := Result(if ok then 0 else -1);
      case WriteFile(payload, writeOk) =>
        var written, ok := HandleWriteFile(payload, writeOk);
        answer := BytesWritten(if ok then ToInt32(written) else -1);
      case DeleteFile(path, removeOk) =>
        var ok := HandleRemove(path, removeOk);
        answer := Result(if ok then 0 else -1);
      case Mkdir(path, mkdirOk) =>
        var ok := HandleMkdir(path, mkdirOk);
        answer := Result(if ok then 0 else -1);
      case Rmdir(path, removeOk) =>
        var ok := HandleRemove(path, removeOk);
        answer := Result(if ok then 0 else -1);
      case GetDirSize(tree) =>
        var size := HandleGetDirSize(tree);
        answer := TreeSize(size);
      case UnknownCommand =>
        goOn := false;
    }

    /** A whole connection: commands until one ends it, then `State.Close`. What was held and
        which handle came next before each command that was handled is `turns`. Every handle
        has been closed exactly once more than in vain, unless Stat failed on it; without such
        mishaps, exactly once. Without write access nothing is changed. */
    method Serve(cmds: seq<Command>, closeOk: bool) returns (answers: seq<Answer>, ghost turns: seq<Turn>)
      requires Valid()
      modifies this, fs
      ensures Valid() && cwdHandle == roFile == woFile == None
      ensures Turns(cmds, turns, allowWrite, old(State()))
      ensures fs.changes == old(fs.changes) + ChangesOf(cmds, turns, allowWrite)
      ensures answers == AnswersOf(cmds, turns, allowWrite)
      ensures |old(fs.handles)| <= |fs.handles|
      ensures forall h :: 0 <= h < |fs.handles| ==>
        fs.handles[h].closes == if fs.handles[h].dropped then 0 else fs.handles[h].kept + 1
      ensures (forall c :: c in cmds ==> Benign(c)) ==>
        forall h :: |old(fs.handles)| <= h < |fs.handles| ==> fs.handles[h].closes == 1
      ensures !allowWrite ==> fs.changes == old(fs.changes)
    {
      hide Valid, Benign, Meaning, ChangesOf, AnswersOf, Turns, TurnsTo;
      NoHistory(fs.handles);
      turns, answers := [], [];
      TurnsStart(cmds, allowWrite, State());
      assert fs.changes + [] == fs.changes;
      var i, goOn := 0, true;
      while i < |cmds| && goOn
        invariant Valid() && i == |turns| <= |cmds|
        invariant if goOn then TurnsTo(cmds, turns, allowWrite, old(State()), State()) else Turns(cmds, turns, allowWrite, old(State()))
        invariant fs.changes == old(fs.changes) + ChangesOf(cmds, turns, allowWrite)
        invariant answers == AnswersOf(cmds, turns, allowWrite)
        invariant (forall c :: c in cmds ==> Benign(c)) ==> SameHistory(old(fs.handles), fs.handles)
        invariant |old(fs.handles)| <= |fs.handles|
        invariant !allowWrite ==> fs.changes == old(fs.changes)
        decreases |cmds| - i
      {
        hide SameHistory;
        ghost var before, turn := fs.handles, Turn(State(), |fs.handles|);
        var answer;
        answer, goOn := Handle(cmds[i]);
        if forall c :: c in cmds ==> Benign(c) {
          HistoryTransitive(old(fs.handles), before, fs.handles);
        }
        TurnsNext(cmds, turns, allowWrite, old(State()), turn);
        turns, answers, i := turns + [turn], answers + [answer], i + 1;
      }
      if goOn {
        TurnsEnd(cmds, turns, allowWrite, old(State()), State());
      }
      ghost var before := fs.handles;
      Close(closeOk);
      if forall c :: c in cmds ==> Benign(c) {
        HistoryTransitive(old(fs.handles), before, fs.handles);
      }
    }

    /** `State.Close`: everything that is held is closed, whatever Close answers. */
    method Close(closeOk: bool)
      requires Valid()
      modifies this, fs`handles
      ensures Valid() && cwdHandle == roFile == woFile == None && cdSectorSize == 0
      ensures |fs.handles| == old(|fs.handles|)
      ensures forall h :: 0 <= h < |fs.handles| ==> Right(fs.handles[h], false)
      ensures SameHistory(old(fs.handles), fs.handles)
    {
      if roFile.Some? {
        fs.Close(roFile.value, closeOk, false);
        roFile, roData := None, [];
      }
      if cwdHandle.Some? {
        fs.Close(cwdHandle.value, closeOk, false);
        cwdHandle := None;
      }
      if woFile.Some? {
        fs.Close(woFile.value, closeOk, false);
        woFile := None;
      }
      cdSectorSize := 0;
    }
  }
}
