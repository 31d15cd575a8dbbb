/** The request stream between client and server: commands of sixteen bytes, followed by
    a path or by data. */
module Proto {
  import opened Wrappers
  import opened Bytes
  import opened Blocks
  import opened Files

  const OP_OPEN_FILE: nat := 0x1224
  const OP_READ_FILE_CRITICAL: nat := 0x1225
  const OP_READ_CD2048_CRITICAL: nat := 0x1226
  const OP_READ_FILE: nat := 0x1227
  const OP_CREATE_FILE: nat := 0x1228
  const OP_WRITE_FILE: nat := 0x1229
  const OP_OPEN_DIR: nat := 0x122A
  const OP_READ_DIR_ENTRY: nat := 0x122B
  const OP_DELETE_FILE: nat := 0x122C
  const OP_MKDIR: nat := 0x122D
  const OP_RMDIR: nat := 0x122E
  const OP_READ_DIR_ENTRY_V2: nat := 0x122F
  const OP_STAT_FILE: nat := 0x1230
  const OP_GET_DIR_SIZE: nat := 0x1231
  const OP_READ_DIR: nat := 0x1232

  const COMMAND_SIZE: nat := 16
  const COMMAND_DATA_SIZE: nat := 14
  const TWO_TO_THE_64: int := 0x1_0000_0000_0000_0000

  type Word = x: int | 0 <= x < 0x1_0000_0000
  type LongWord = x: int | 0 <= x < 0x1_0000_0000_0000_0000

  datatype Request =
    | OpenFile(path: seq<Byte>)
    | ReadFileCritical(bytesToRead: Word, offset: LongWord)
    | ReadCD2048Critical(startSector: Word, sectorsToRead: Word)
    | ReadFile(bytesToRead: Word, offset: LongWord)
    | CreateFile(path: seq<Byte>)
    | WriteFile(payload: seq<Byte>)
    | OpenDir(path: seq<Byte>)
    | ReadDirEntry
    | DeleteFile(path: seq<Byte>)
    | Mkdir(path: seq<Byte>)
    | Rmdir(path: seq<Byte>)
    | ReadDirEntryV2
    | StatFile(path: seq<Byte>)
    | GetDirSize(path: seq<Byte>)
    | ReadDir

  function OpCode(r: Request): (op: nat)
    ensures OP_OPEN_FILE <= op <= OP_READ_DIR
  {
    match r
    case OpenFile(_) => OP_OPEN_FILE
    case ReadFileCritical(_, _) => OP_READ_FILE_CRITICAL
    case ReadCD2048Critical(_, _) => OP_READ_CD2048_CRITICAL
    case ReadFile(_, _) => OP_READ_FILE
    case CreateFile(_) => OP_CREATE_FILE
    case WriteFile(_) => OP_WRITE_FILE
    case OpenDir(_) => OP_OPEN_DIR
    case ReadDirEntry => OP_READ_DIR_ENTRY
    case DeleteFile(_) => OP_DELETE_FILE
    case Mkdir(_) => OP_MKDIR
    case Rmdir(_) => OP_RMDIR
    case ReadDirEntryV2 => OP_READ_DIR_ENTRY_V2
    case StatFile(_) => OP_STAT_FILE
    case GetDirSize(_) => OP_GET_DIR_SIZE
    case ReadDir => OP_READ_DIR
  }

  /** What follows the command. */
  function Trailer(r: Request): seq<Byte> {
    match r
    case OpenFile(path) => path
    case CreateFile(path) => path
    case WriteFile(payload) => payload
    case OpenDir(path) => path
    case DeleteFile(path) => path
    case Mkdir(path) => path
    case Rmdir(path) => path
    case StatFile(path) => path
    case GetDirSize(path) => path
    case _ => []
  }

  /** The command struct of a request; `uint16(len(path))` keeps the low bits. */
  function Fields(r: Request): (b: seq<Byte>)
    ensures |b| <= COMMAND_DATA_SIZE
  {
    match r
    case ReadFileCritical(n, offset) => [0, 0] + BE32(n) + BE64(offset)
    case ReadFile(n, offset) => [0, 0] + BE32(n) + BE64(offset)
    case ReadCD2048Critical(start, count) => [0, 0] + BE32(start) + BE32(count)
    case WriteFile(payload) => [0, 0] + BE32(|payload|)
    case ReadDirEntry => []
    case ReadDirEntryV2 => []
    case ReadDir => []
    case _ => BE16(|Trailer(r)|)
  }

  /** A request on the wire. */
  function Encode(r: Request): (b: seq<Byte>)
    ensures |b| == COMMAND_SIZE + |Trailer(r)|
  {
    Command(OpCode(r), Fields(r)) + Trailer(r)
  }

  /** Lengths fit their fields. */
  predicate Fits(r: Request) {
    if r.WriteFile? then |r.payload| < TWO_TO_THE_32 else |Trailer(r)| < TWO_TO_THE_16
  }

  // ----- the server's view

  /** A command that announces a path. */
  function DecodePath(op: nat, path: seq<Byte>): Option<Request> {
    if op == OP_OPEN_FILE then Some(OpenFile(path))
    else if op == OP_CREATE_FILE then Some(CreateFile(path))
    else if op == OP_OPEN_DIR then Some(OpenDir(path))
    else if op == OP_DELETE_FILE then Some(DeleteFile(path))
    else if op == OP_MKDIR then Some(Mkdir(path))
    else if op == OP_RMDIR then Some(Rmdir(path))
    else if op == OP_STAT_FILE then Some(StatFile(path))
    else if op == OP_GET_DIR_SIZE then Some(GetDirSize(path))
    else None
  }

  predicate HasPath(op: nat) {
    op in {OP_OPEN_FILE, OP_CREATE_FILE, OP_OPEN_DIR, OP_DELETE_FILE, OP_MKDIR, OP_RMDIR, OP_STAT_FILE, OP_GET_DIR_SIZE}
  }

  /** A command that is complete in itself. */
  function DecodeShort(op: nat, cmd: seq<Byte>): Option<Request>
    requires |cmd| == COMMAND_SIZE
  {
    if op == OP_READ_FILE_CRITICAL then Some(ReadFileCritical(FromBE32(cmd[4..8]), FromBE64(cmd[8..16])))
    else if op == OP_READ_FILE then Some(ReadFile(FromBE32(cmd[4..8]), FromBE64(cmd[8..16])))
    else if op == OP_READ_CD2048_CRITICAL then Some(ReadCD2048Critical(FromBE32(cmd[4..8]), FromBE32(cmd[8..12])))
    else if op == OP_READ_DIR_ENTRY then Some(ReadDirEntry)
    else if op == OP_READ_DIR_ENTRY_V2 then Some(ReadDirEntryV2)
    else if op == OP_READ_DIR then Some(ReadDir)
    else None
  }

  /** How many bytes follow a command. */
  function TrailerSize(cmd: seq<Byte>): nat
    requires |cmd| == COMMAND_SIZE
  {
    var op := FromBE16(cmd[0..2]);
    if HasPath(op) then FromBE16(cmd[2..4]) else if op == OP_WRITE_FILE then FromBE32(cmd[4..8]) else 0
  }

  /** The first request of a stream and what is behind it. A stream that ends within a
      path is an error; data to write are taken as far as they go. */
  function Decode(s: seq<Byte>): (r: Option<(Request, seq<Byte>)>)
    ensures r.Some? ==> |r.value.1| + COMMAND_SIZE <= |s|
  {
    if |s| < COMMAND_SIZE then None
    else
      var cmd, rest := s[..COMMAND_SIZE], s[COMMAND_SIZE..];
      var op, size := FromBE16(cmd[0..2]), TrailerSize(cmd);
      if op == OP_WRITE_FILE then
        var n := if size < |rest| then size else |rest|;
        Some((WriteFile(rest[..n]), rest[n..]))
      else if |rest| < size then None
      else
        var request := if HasPath(op) then DecodePath(op, rest[..size]) else DecodeShort(op, cmd);
        if request.None? then None else Some((request.value, rest[size..]))
  }

  function EncodeAll(rs: seq<Request>): seq<Byte> {
    if rs == [] then [] else Encode(rs[0]) + EncodeAll(rs[1..])
  }

  function DecodeAll(s: seq<Byte>): Option<seq<Request>>
    decreases |s|
  {
    if s == [] then Some([])
    else
      match Decode(s)
      case None => None
      case Some((r, rest)) =>
        match DecodeAll(rest)
        case None => None
        case Some(rs) => Some([r] + rs)
  }

  function Command(op: nat, fields: seq<Byte>): (cmd: seq<Byte>)
    requires |fields| <= COMMAND_DATA_SIZE
    ensures |cmd| == COMMAND_SIZE
  {
    BE16(op) + PadTo(fields, COMMAND_DATA_SIZE, 0)
  }

  lemma CommandParts(op: nat, fields: seq<Byte>, i: nat, j: nat)
    requires |fields| <= COMMAND_DATA_SIZE && i <= j <= |fields| && op < TWO_TO_THE_16
    ensures FromBE16(Command(op, fields)[0..2]) == op
    ensures Command(op, fields)[2 + i..2 + j] == fields[i..j]
  {
    hide PadTo;
    RoundTrip16(op);
    var cmd := Command(op, fields);
    assert cmd[0..2] == BE16(op);
    assert PadTo(fields, COMMAND_DATA_SIZE, 0)[..|fields|] == fields;
    assert cmd[2..][i..j] == fields[i..j];
  }

  lemma NumberAndOffset(n: Word, offset: LongWord)
    ensures var f := [0, 0] + BE32(n) + BE64(offset);
      |f| == 14 && FromBE32(f[2..6]) == n && FromBE64(f[6..14]) == offset
  {
    hide BE32, BE64, FromBE32, FromBE64;
    RoundTrip32(n);
    RoundTrip64(offset);
    var f := [0, 0] + BE32(n) + BE64(offset);
    assert f[2..6] == BE32(n) && f[6..14] == BE64(offset);
  }

  lemma TwoNumbers(m: Word, n: Word)
    ensures var f := [0, 0] + BE32(m) + BE32(n);
      |f| == 10 && FromBE32(f[2..6]) == m && FromBE32(f[6..10]) == n
  {
    hide BE32, FromBE32;
    RoundTrip32(m);
    RoundTrip32(n);
    var f := [0, 0] + BE32(m) + BE32(n);
    assert f[2..6] == BE32(m) && f[6..10] == BE32(n);
  }

  // ----- the wire format, byte by byte

  /** The second byte of a request; the first is 0x12. */
  predicate SecondByte(r: Request, b: Byte) {
    match r
    case OpenFile(_) => b == 0x24
    case ReadFileCritical(_, _) => b == 0x25
    case ReadCD2048Critical(_, _) => b == 0x26
    case ReadFile(_, _) => b == 0x27
    case CreateFile(_) => b == 0x28
    case WriteFile(_) => b == 0x29
    case OpenDir(_) => b == 0x2A
    case ReadDirEntry => b == 0x2B
    case DeleteFile(_) => b == 0x2C
    case Mkdir(_) => b == 0x2D
    case Rmdir(_) => b == 0x2E
    case ReadDirEntryV2 => b == 0x2F
    case StatFile(_) => b == 0x30
    case GetDirSize(_) => b == 0x31
    case ReadDir => b == 0x32
  }

  /** The fields behind the opcode, at their positions in the request. */
  predicate FieldsAt(r: Request, b: seq<Byte>)
    requires |b| >= 16
  {
    if r.ReadFile? || r.ReadFileCritical? then
      b[2..4] == [0, 0] && FromBE32(b[4..8]) == r.bytesToRead && FromBE64(b[8..16]) == r.offset
    else if r.ReadCD2048Critical? then
      b[2..4] == [0, 0] && FromBE32(b[4..8]) == r.startSector && FromBE32(b[8..12]) == r.sectorsToRead && b[12..16] == [0, 0, 0, 0]
    else if r.WriteFile? then
      b[2..4] == [0, 0] && FromBE32(b[4..8]) == |r.payload| % 0x1_0000_0000 && b[8..16] == [0, 0, 0, 0, 0, 0, 0, 0]
    else if r.ReadDir? || r.ReadDirEntry? || r.ReadDirEntryV2? then
      forall i :: 2 <= i < 16 ==> b[i] == 0
    else
      FromBE16(b[2..4]) == |r.path| % 0x1_0000 && forall i :: 4 <= i < 16 ==> b[i] == 0
  }

  /** What goes over the wire for each request. */
  lemma WireFormat(r: Request)
    ensures var b := Encode(r);
      && |b| >= 16 && b[0] == 0x12 && SecondByte(r, b[1]) && FieldsAt(r, b)
      && b[16..] == if r.WriteFile? then r.payload
                    else if r.OpenFile? || r.CreateFile? || r.OpenDir? || r.DeleteFile? || r.Mkdir? || r.Rmdir? || r.StatFile?
                            || r.GetDirSize? then r.path else []
  {
    OpBytes(r);
    CommandFields(r);
    hide Command, OpCode, Fields, FromBE16, FromBE32, FromBE64, SecondByte;
    var b, cmd := Encode(r), Command(OpCode(r), Fields(r));
    assert b[..16] == cmd;
    SameFields(r, b, cmd);
  }

  /** The second bytes of the requests with a path. */
  predicate PathByte(b: Byte) {
    b in {0x24, 0x28, 0x2A, 0x2C, 0x2D, 0x2E, 0x30, 0x31}
  }

  /** What the server makes of any stream: which beginnings are requests, which ones, and how
      many bytes they take. A path that is cut short is an error, but data to write are not. */
  lemma AnyStream(s: seq<Byte>)
    ensures Decode(s).Some? <==> |s| >= 16 && s[0] == 0x12 && 0x24 <= s[1] <= 0x32
                                 && (PathByte(s[1]) ==> 16 + s[2] * 256 + s[3] <= |s|)
    ensures Decode(s).Some? ==>
              var r, taken := Decode(s).value.0, |s| - |Decode(s).value.1|;
              && SecondByte(r, s[1]) && Decode(s).value.1 == s[taken..]
              && taken == (if PathByte(s[1]) then 16 + s[2] * 256 + s[3]
                           else if s[1] != 0x29 then 16
                           else if 16 + FromBE32(s[4..8]) < |s| then 16 + FromBE32(s[4..8])
                           else |s|)
              && (PathByte(s[1]) || s[1] == 0x29 ==> Trailer(r) == s[16..taken])
  {
    if |s| >= 16 {
      CommandStart(s);
      var op, size, cmd, rest := FromBE16(s[..16][0..2]), TrailerSize(s[..16]), s[..16], s[16..];
      OpIs(s[0], s[1]);
      hide FromBE16, FromBE32, TrailerSize, DecodeShort;
      if op == OP_WRITE_FILE {
        RestOf(s, if size < |rest| then size else |rest|);
      } else if size <= |rest| {
        RestOf(s, size);
        if HasPath(op) {
          PathOfByte(op, s[1], rest[..size]);
        } else {
          ShortOfByte(op, s[1], cmd);
        }
      }
    }
  }

  lemma RestOf(s: seq<Byte>, n: nat)
    requires 16 + n <= |s|
    ensures s[16..][..n] == s[16..16 + n] && s[16..][n..] == s[16 + n..]
  {
  }

  lemma CommandStart(s: seq<Byte>)
    requires |s| >= 16
    ensures FromBE16(s[..16][0..2]) == s[0] as int * 256 + s[1] as int
    ensures s[0] == 0x12 && PathByte(s[1]) ==> TrailerSize(s[..16]) == s[2] as int * 256 + s[3] as int
    ensures s[0] == 0x12 && s[1] == 0x29 ==> TrailerSize(s[..16]) == FromBE32(s[4..8])
    ensures s[0] != 0x12 || !(PathByte(s[1]) || s[1] == 0x29) ==> TrailerSize(s[..16]) == 0
  {
    OpIs(s[0], s[1]);
    hide FromBE32;
    assert s[..16][4..8] == s[4..8];
  }

  lemma OpIs(b: Byte, c: Byte)
    ensures b == 0x12 ==> (HasPath(b * 256 + c) <==> PathByte(c)) && (b * 256 + c == OP_WRITE_FILE <==> c == 0x29)
    ensures b != 0x12 ==> !HasPath(b * 256 + c) && b * 256 + c != OP_WRITE_FILE
    ensures OP_OPEN_FILE <= b * 256 + c <= OP_READ_DIR <==> b == 0x12 && 0x24 <= c <= 0x32
  {
  }

  lemma PathOfByte(op: nat, c: Byte, path: seq<Byte>)
    requires op == 0x1200 + c && HasPath(op)
    ensures DecodePath(op, path).Some? && SecondByte(DecodePath(op, path).value, c) && Trailer(DecodePath(op, path).value) == path
  {
  }

  lemma ShortOfByte(op: nat, c: Byte, cmd: seq<Byte>)
    requires |cmd| == 16 && op % 256 == c && op != OP_WRITE_FILE && !HasPath(op)
    ensures DecodeShort(op, cmd).Some? <==> OP_OPEN_FILE <= op <= OP_READ_DIR
    ensures DecodeShort(op, cmd).Some? ==> SecondByte(DecodeShort(op, cmd).value, c)
  {
    hide FromBE32, FromBE64;
  }

  lemma OpBytes(r: Request)
    ensures var cmd := Command(OpCode(r), Fields(r)); cmd[0] == 0x12 && SecondByte(r, cmd[1])
  {
    hide Fields, PadTo;
  }

  lemma SameFields(r: Request, b: seq<Byte>, cmd: seq<Byte>)
    requires |b| >= 16 && |cmd| == 16 && b[..16] == cmd && FieldsAt(r, cmd)
    ensures FieldsAt(r, b)
  {
    hide FromBE16, FromBE32, FromBE64;
    assert b[2..4] == cmd[2..4] && b[4..8] == cmd[4..8] && b[8..16] == cmd[8..16] && b[8..12] == cmd[8..12] && b[12..16] == cmd[12..16];
  }

  lemma CommandFields(r: Request)
    ensures FieldsAt(r, Command(OpCode(r), Fields(r)))
  {
    var f, cmd := Fields(r), Command(OpCode(r), Fields(r));
    RestIsZero(OpCode(r), f);
    hide Command, OpCode, BE16, BE32, BE64, FromBE16, FromBE32, FromBE64;
    if r.ReadFile? || r.ReadFileCritical? {
      FieldParts(OpCode(r), f, 14);
      NumberAndOffset(r.bytesToRead, r.offset);
    } else if r.ReadCD2048Critical? {
      FieldParts(OpCode(r), f, 10);
      TwoNumbers(r.startSector, r.sectorsToRead);
      assert cmd[12..16] == [0, 0, 0, 0];
    } else if r.WriteFile? {
      FieldParts(OpCode(r), f, 6);
      RoundTrip32(|r.payload|);
      assert f[2..6] == BE32(|r.payload|);
      assert cmd[8..16] == [0, 0, 0, 0, 0, 0, 0, 0];
    } else if !r.ReadDir? && !r.ReadDirEntry? && !r.ReadDirEntryV2? {
      FieldParts(OpCode(r), f, 2);
      RoundTrip16(|r.path|);
      assert f[0..2] == f;
    }
  }

  lemma RestIsZero(op: nat, f: seq<Byte>)
    requires |f| <= COMMAND_DATA_SIZE
    ensures forall i :: 2 + |f| <= i < 16 ==> Command(op, f)[i] == 0
  {
  }

  lemma FieldParts(op: nat, f: seq<Byte>, n: nat)
    requires |f| == n <= COMMAND_DATA_SIZE && COMMAND_DATA_SIZE == 14 && op < TWO_TO_THE_16
    ensures n >= 2 ==> Command(op, f)[2..4] == f[0..2]
    ensures n >= 6 ==> Command(op, f)[4..8] == f[2..6]
    ensures n >= 10 ==> Command(op, f)[8..12] == f[6..10]
    ensures n == 14 ==> Command(op, f)[8..16] == f[6..14]
  {
    hide Command;
    if n >= 2 {
      CommandParts(op, f, 0, 2);
    }
    if n >= 6 {
      CommandParts(op, f, 2, 6);
    }
    if n >= 10 {
      CommandParts(op, f, 6, 10);
    }
    if n == 14 {
      CommandParts(op, f, 6, 14);
    }
  }

  /** A command without a trailer decodes to its request. */
  lemma ShortRoundTrip(r: Request)
    requires !HasPath(OpCode(r)) && !r.WriteFile?
    ensures DecodeShort(OpCode(r), Command(OpCode(r), Fields(r))) == Some(r)
  {
    hide Command, BE16, BE32, BE64, FromBE16, FromBE32, FromBE64;
    var f := Fields(r);
    match r
    case ReadFileCritical(n, offset) =>
      CommandParts(OpCode(r), f, 2, 6);
      CommandParts(OpCode(r), f, 6, 14);
      NumberAndOffset(n, offset);
    case ReadFile(n, offset) =>
      CommandParts(OpCode(r), f, 2, 6);
      CommandParts(OpCode(r), f, 6, 14);
      NumberAndOffset(n, offset);
    case ReadCD2048Critical(start, count) =>
      CommandParts(OpCode(r), f, 2, 6);
      CommandParts(OpCode(r), f, 6, 10);
      TwoNumbers(start, count);
    case _ =>
  }

  /** The announced length is the length of the trailer, cut to its field. */
  lemma AnnouncedLength(r: Request)
    ensures FromBE16(Command(OpCode(r), Fields(r))[0..2]) == OpCode(r)
    ensures TrailerSize(Command(OpCode(r), Fields(r)))
            == if r.WriteFile? then |r.payload| % TWO_TO_THE_32 else |Trailer(r)| % TWO_TO_THE_16
  {
    hide Command, BE32, BE64, FromBE32, FromBE64;
    var f := Fields(r);
    CommandParts(OpCode(r), f, 0, 0);
    if HasPath(OpCode(r)) {
      CommandParts(OpCode(r), f, 0, 2);
      RoundTrip16(|Trailer(r)|);
      assert f[0..2] == f;
    } else if r.WriteFile? {
      CommandParts(OpCode(r), f, 2, 6);
      RoundTrip32(|r.payload|);
      assert f[2..6] == BE32(|r.payload|);
    }
  }

  lemma PathRoundTrip(r: Request, path: seq<Byte>)
    requires HasPath(OpCode(r))
    ensures DecodePath(OpCode(r), Trailer(r)) == Some(r)
    ensures DecodePath(OpCode(r), path).Some? && Trailer(DecodePath(OpCode(r), path).value) == path
  {
  }

  /** A request is read back, and nothing more is consumed, exactly when its lengths fit
      their fields. */
  lemma RequestRoundTrip(r: Request, rest: seq<Byte>)
    ensures Decode(Encode(r) + rest) == Some((r, rest)) <==> Fits(r)
  {
    hide Command, OpCode, Fields, DecodePath, DecodeShort, TrailerSize, FromBE16, BE16;
    var s, cmd, tail := Encode(r) + rest, Command(OpCode(r), Fields(r)), Trailer(r) + rest;
    assert s[..COMMAND_SIZE] == cmd && s[COMMAND_SIZE..] == tail;
    AnnouncedLength(r);
    OpCodeKinds(r);
    var size := TrailerSize(cmd);
    assert size <= |Trailer(r)|;
    if Fits(r) {
      assert size == |Trailer(r)|;
      assert tail[..size] == Trailer(r) && tail[size..] == rest;
    } else {
      assert size < |Trailer(r)|;
      assert |tail[size..]| != |rest|;
    }
    if HasPath(OpCode(r)) {
      PathRoundTrip(r, tail[..size]);
    } else if !r.WriteFile? {
      ShortRoundTrip(r);
    }
  }

  lemma OpCodeKinds(r: Request)
    ensures r.WriteFile? <==> OpCode(r) == OP_WRITE_FILE
    ensures HasPath(OpCode(r)) ==> !r.WriteFile?
    ensures !HasPath(OpCode(r)) && !r.WriteFile? ==> Trailer(r) == []
  {
  }

  lemma DecodeAllStep(s: seq<Byte>, r: Request, rest: seq<Byte>, rs: seq<Request>)
    requires Decode(s) == Some((r, rest)) && DecodeAll(rest) == Some(rs)
    ensures DecodeAll(s) == Some([r] + rs)
  {
    hide TrailerSize, DecodePath, DecodeShort;
  }

  /** Whatever list of requests a client sends, the server reads the same list. */
  lemma {:induction false} StreamRoundTrip(rs: seq<Request>)
    requires forall r :: r in rs ==> Fits(r)
    ensures DecodeAll(EncodeAll(rs)) == Some(rs)
  {
    hide Encode, Decode, DecodeAll, Fits;
    if rs == [] {
      NothingToDecode();
    } else {
      assert rs[0] in rs;
      RequestRoundTrip(rs[0], EncodeAll(rs[1..]));
      StreamRoundTrip(rs[1..]);
      DecodeAllStep(EncodeAll(rs), rs[0], EncodeAll(rs[1..]), rs[1..]);
      assert rs == [rs[0]] + rs[1..];
    }
  }

  lemma NothingToDecode()
    ensures DecodeAll([]) == Some([])
  {
  }

  // ----- the reader

  class Reader {
    var input: seq<Byte>   // what the client has sent and nobody has read
    const cmd: array<Byte> // overwritten by each command

    constructor (input: seq<Byte>)
      ensures this.input == input && cmd.Length == COMMAND_SIZE && fresh(cmd)
    {
      this.input := input;
      cmd := new Byte[COMMAND_SIZE](_ => 0);
    }

    method ReadCommand() returns (op: nat, ok: bool)
      requires cmd.Length == COMMAND_SIZE
      modifies this`input, cmd
      ensures ok <==> |old(input)| >= COMMAND_SIZE
      ensures ok ==> cmd[..] == old(input)[..COMMAND_SIZE] && input == old(input)[COMMAND_SIZE..]
      ensures ok ==> op == FromBE16(cmd[0..2])
    {
      if |input| < COMMAND_SIZE {
        input := [];
        return 0, false;
      }
      CopyInto(cmd, 0, input[..COMMAND_SIZE]);
      input := input[COMMAND_SIZE..];
      return FromBE16(cmd[0..2]), true;
    }

    method ReadStringN(size: nat) returns (s: seq<Byte>, ok: bool)
      modifies this`input
      ensures ok <==> |old(input)| >= size
      ensures ok ==> s == old(input)[..size] && input == old(input)[size..]
    {
      if |input| < size {
        s, input, ok := input, [], false;
      } else {
        s, input, ok := input[..size], input[size..], true;
      }
    }

    /** All commands with a path have it behind a 16-bit length. */
    method ReadPath() returns (path: seq<Byte>, ok: bool)
      requires cmd.Length == COMMAND_SIZE
      modifies this`input
      ensures var size := FromBE16(cmd[2..4]);
        (ok <==> |old(input)| >= size) && (ok ==> path == old(input)[..size] && input == old(input)[size..])
    {
      path, ok := ReadStringN(FromBE16(cmd[2..4]));
    }

    /** ReadFile and ReadFileCritical. */
    method ReadReadFile() returns (bytesToRead: nat, offset: nat)
      requires cmd.Length == COMMAND_SIZE
      ensures bytesToRead == FromBE32(cmd[..][4..8]) && offset == FromBE64(cmd[..][8..16])
    {
      assert cmd[..][4..8] == cmd[4..8] && cmd[..][8..16] == cmd[8..16];
      return FromBE32(cmd[4..8]), FromBE64(cmd[8..16]);
    }

    method ReadReadCD2048Critical() returns (startSector: nat, sectorsToRead: nat)
      requires cmd.Length == COMMAND_SIZE
      ensures startSector == FromBE32(cmd[..][4..8]) && sectorsToRead == FromBE32(cmd[..][8..12])
    {
      assert cmd[..][4..8] == cmd[4..8] && cmd[..][8..12] == cmd[8..12];
      return FromBE32(cmd[4..8]), FromBE32(cmd[8..12]);
    }

    /** The data of a write, drained up to the announced length. */
    method ReadWriteFile() returns (payload: seq<Byte>)
      requires cmd.Length == COMMAND_SIZE
      modifies this`input
      ensures var size := FromBE32(cmd[4..8]);
        var n := if size < |old(input)| then size else |old(input)|;
        payload == old(input)[..n] && input == old(input)[n..]
    {
      var size := FromBE32(cmd[4..8]);
      var n := if size < |input| then size else |input|;
      payload, input := input[..n], input[n..];
    }

    /** One round of the command loop: a command and what its handler reads. */
    method ReadRequest() returns (r: Option<Request>)
      requires cmd.Length == COMMAND_SIZE
      modifies this`input, cmd
      ensures var d := Decode(old(input));
        (r.Some? <==> d.Some?) && (r.Some? ==> r == Some(d.value.0) && input == d.value.1)
    {
      hide FromBE16, FromBE32, FromBE64, DecodePath, DecodeShort;
      var op, ok := ReadCommand();
      if !ok {
        return None;
      }
      assert cmd[..][0..2] == cmd[0..2] && cmd[..][2..4] == cmd[2..4] && cmd[..][4..8] == cmd[4..8];
      if HasPath(op) {
        var path;
        path, ok := ReadPath();
        return if ok then DecodePath(op, path) else None;
      } else if op == OP_WRITE_FILE {
        var payload := ReadWriteFile();
        return Some(WriteFile(payload));
      } else {
        r := ReadShort(op);
      }
    }

    /** The commands without a trailer. */
    method ReadShort(op: nat) returns (r: Option<Request>)
      requires cmd.Length == COMMAND_SIZE
      ensures r == DecodeShort(op, cmd[..])
    {
      hide FromBE32, FromBE64;
      match op {
        case OP_READ_FILE_CRITICAL =>
          var bytesToRead, offset := ReadReadFile();
          return Some(ReadFileCritical(bytesToRead, offset));
        case OP_READ_FILE =>
          var bytesToRead, offset := ReadReadFile();
          return Some(ReadFile(bytesToRead, offset));
        case OP_READ_CD2048_CRITICAL =>
          var startSector, sectorsToRead := ReadReadCD2048Critical();
          return Some(ReadCD2048Critical(startSector, sectorsToRead));
        case OP_READ_DIR_ENTRY => return Some(ReadDirEntry);
        case OP_READ_DIR_ENTRY_V2 => return Some(ReadDirEntryV2);
        case OP_READ_DIR => return Some(ReadDir);
        case _ => return None;
      }
    }

    /** Requests until the stream ends between two of them. */
    method ReadAll() returns (rs: seq<Request>, ok: bool)
      requires cmd.Length == COMMAND_SIZE
      modifies this`input, cmd
      ensures ok <==> DecodeAll(old(input)).Some?
      ensures ok ==> DecodeAll(old(input)) == Some(rs)
    {
      hide Decode;
      rs := [];
      assert forall more: seq<Request> :: [] + more == more;
      while input != []
        invariant DecodeAll(old(input)) == match DecodeAll(input) case None => None case Some(more) => Some(rs + more)
        decreases |input|
      {
        ghost var before := input;
        var r := ReadRequest();
        if r.None? {
          return rs, false;
        }
        DecodeShrinks(before);
        assert forall more :: rs + ([r.value] + more) == (rs + [r.value]) + more;
        rs := rs + [r.value];
      }
      ok := true;
      assert rs + [] == rs;
    }
  }

  lemma DecodeShrinks(s: seq<Byte>)
    ensures Decode(s).Some? ==> |Decode(s).value.1| < |s|
  {
  }

  // ----- the client

  /** The pieces of a file that is written in chunks; chunks of no size send nothing. */
  function Chunks(data: seq<Byte>, size: nat): seq<seq<Byte>> {
    if size == 0 || data == [] then []
    else if |data| <= size then [data]
    else [data[..size]] + Chunks(data[size..], size)
  }

  function Writes(chunks: seq<seq<Byte>>): (rs: seq<Request>)
    ensures |rs| == |chunks|
    ensures forall i :: 0 <= i < |chunks| ==> rs[i] == WriteFile(chunks[i])
  {
    seq(|chunks|, i requires 0 <= i < |chunks| => WriteFile(chunks[i]))
  }

  /** The chunks are the data, none is empty or too big. */
  lemma {:induction false} ChunksCover(data: seq<Byte>, size: nat)
    ensures Flatten(Chunks(data, size)) == data <==> size > 0 || data == []
    ensures forall c :: c in Chunks(data, size) ==> 0 < |c| <= size
  {
    if size > 0 && |data| > size {
      ChunksCover(data[size..], size);
      assert data == data[..size] + data[size..];
    } else if size > 0 && data != [] {
      assert [data][1..] == [];
    }
  }

  /** What the server reads of a file that a client writes in chunks: the data. */
  lemma WrittenInChunks(data: seq<Byte>, size: nat)
    requires 0 < size < TWO_TO_THE_32
    ensures DecodeAll(EncodeAll(Writes(Chunks(data, size)))) == Some(Writes(Chunks(data, size)))
    ensures Flatten(Chunks(data, size)) == data
  {
    ChunksCover(data, size);
    var chunks := Chunks(data, size);
    forall r | r in Writes(chunks) ensures Fits(r) {
      var i :| 0 <= i < |chunks| && r == Writes(chunks)[i];
      assert chunks[i] in chunks;
    }
    StreamRoundTrip(Writes(chunks));
  }

  class Client {
    var sent: seq<Byte>   // what has been written to the connection

    constructor ()
      ensures sent == []
    {
      sent := [];
    }

    method WriteRequest(opCode: nat, command: seq<Byte>, trailer: seq<Byte>)
      requires |command| <= COMMAND_DATA_SIZE
      modifies this
      ensures sent == old(sent) + (Command(opCode, command) + trailer)
    {
      var data := new Byte[COMMAND_DATA_SIZE](_ => 0);
      CopyInto(data, 0, command);
      assert data[..] == PadTo(command, COMMAND_DATA_SIZE, 0);
      var buf := BE16(opCode) + data[..];
      buf := buf + trailer;
      sent := sent + buf;
    }

    /** The request methods: each fills in its command struct. */
    method Send(r: Request)
      modifies this
      ensures sent == old(sent) + Encode(r)
    {
      match r
      case ReadFileCritical(n, offset) => WriteRequest(OP_READ_FILE_CRITICAL, [0, 0] + BE32(n) + BE64(offset), []);
      case ReadCD2048Critical(start, count) => WriteRequest(OP_READ_CD2048_CRITICAL, [0, 0] + BE32(start) + BE32(count), []);
      case ReadFile(n, offset) => WriteRequest(OP_READ_FILE, [0, 0] + BE32(n) + BE64(offset), []);
      case WriteFile(payload) => WriteRequest(OP_WRITE_FILE, [0, 0] + BE32(|payload|), payload);
      case ReadDirEntry => WriteRequest(OP_READ_DIR_ENTRY, [], []);
      case ReadDirEntryV2 => WriteRequest(OP_READ_DIR_ENTRY_V2, [], []);
      case ReadDir => WriteRequest(OP_READ_DIR, [], []);
      case OpenFile(path) => WriteRequest(OP_OPEN_FILE, BE16(|path|), path);
      case CreateFile(path) => WriteRequest(OP_CREATE_FILE, BE16(|path|), path);
      case OpenDir(path) => WriteRequest(OP_OPEN_DIR, BE16(|path|), path);
      case DeleteFile(path) => WriteRequest(OP_DELETE_FILE, BE16(|path|), path);
      case Mkdir(path) => WriteRequest(OP_MKDIR, BE16(|path|), path);
      case Rmdir(path) => WriteRequest(OP_RMDIR, BE16(|path|), path);
      case StatFile(path) => WriteRequest(OP_STAT_FILE, BE16(|path|), path);
      case GetDirSize(path) => WriteRequest(OP_GET_DIR_SIZE, BE16(|path|), path);
    }

    /** Read a chunk into the one buffer, send it, until nothing is left. */
    method WriteFileInChunks(chunkSize: nat, from: seq<Byte>)
      modifies this
      ensures sent == old(sent) + EncodeAll(Writes(Chunks(from, chunkSize)))
    {
      hide Encode, EncodeAll, Writes, Chunks;
      var rest := from;
      ghost var done: seq<Byte> := [];
      while true
        invariant sent == old(sent) + done
        invariant EncodeAll(Writes(Chunks(from, chunkSize))) == done + EncodeAll(Writes(Chunks(rest, chunkSize)))
        decreases |rest|
      {
        var n := if chunkSize < |rest| then chunkSize else |rest|;
        if n == 0 {
          NoChunks(rest, chunkSize);
          break;
        }
        var buf := rest[..n];
        ChunkStep(rest, chunkSize, n);
        Send(WriteFile(buf));
        done := done + Encode(WriteFile(buf));
        rest := rest[n..];
      }
    }
  }

  lemma NoChunks(data: seq<Byte>, size: nat)
    requires data == [] || size == 0
    ensures EncodeAll(Writes(Chunks(data, size))) == []
  {
  }

  lemma ChunkStep(data: seq<Byte>, size: nat, n: nat)
    requires 0 < n == (if size < |data| then size else |data|)
    ensures EncodeAll(Writes(Chunks(data, size))) == Encode(WriteFile(data[..n])) + EncodeAll(Writes(Chunks(data[n..], size)))
  {
    hide Encode;
    var tail := Chunks(data[n..], size);
    assert data[..|data|] == data;
    assert Chunks(data, size) == [data[..n]] + tail;
    assert Writes(Chunks(data, size))[1..] == Writes(tail);
  }
}
