/** The whole image: what is encoded in front of the files, where everything lies,
    and the flat image that reads are served from. */
module Layout {
  import opened Wrappers
  import opened Bytes
  import opened Sectors
  import opened Records
  import opened SourceTree
  import opened Scan
  import opened Build
  import opened Links
  import opened Blocks

  // ----- path tables (section 9.4 of ECMA-119)

  const PATH_TABLE_ITEMS_LIMIT: nat := 0x10000

  datatype PathEntry = PathEntry(loc: int, parent: int, ident: Identifier)

  /** The conversion `int16(x)`. */
  function ToInt16(x: int): int {
    (x + 0x8000) % 0x1_0000 - 0x8000
  }

  /** `PathTableEntry.Size`, which squeezes the identifier length into a byte. */
  function PathEntrySize(e: PathEntry): nat {
    var idLen := |e.ident| % 256;
    8 + idLen + idLen % 2
  }

  /** `PathTableEntry.EncodeOrdered`. */
  function PathEntryBytes(e: PathEntry, little: bool): (b: seq<Byte>)
    ensures |b| == 8 + |e.ident| + |e.ident| % 2
  {
    [|e.ident| % 256, 0]
    + (if little then LE32(e.loc) else BE32(e.loc))
    + (if little then LE16(e.parent) else BE16(e.parent))
    + e.ident + Zeros(|e.ident| % 2)
  }

  function PathTableBytes(t: seq<PathEntry>, little: bool): seq<Byte> {
    if t == [] then [] else PathTableBytes(t[..|t| - 1], little) + PathEntryBytes(t[|t| - 1], little)
  }

  function PathTableSize(t: seq<PathEntry>): nat {
    if t == [] then 0 else PathTableSize(t[..|t| - 1]) + PathEntrySize(t[|t| - 1])
  }

  /** Encoding does not panic: no identifier needs more than one length byte. */
  predicate PathTableFits(t: seq<PathEntry>) {
    forall e :: e in t ==> |e.ident| < 256
  }

  /** The size computed beforehand is the encoded size exactly under that condition. */
  lemma {:induction false} PathTableSizes(t: seq<PathEntry>, little: bool)
    ensures PathTableSize(t) <= |PathTableBytes(t, little)|
    ensures |PathTableBytes(t, little)| == PathTableSize(t) <==> PathTableFits(t)
  {
    if t != [] {
      var e := t[|t| - 1];
      PathTableSizes(t[..|t| - 1], little);
      assert PathEntrySize(e) == |PathEntryBytes(e, little)| <==> |e.ident| < 256;
      assert t == t[..|t| - 1] + [e];
    }
  }

  /** The entry of item `i`; `dot` is that directory's own record. */
  function PathEntryOf(ds: seq<DirItem>, i: nat, dot: Rec, nm: Naming, joliet: bool): PathEntry
    requires i < |ds|
  {
    if i == 0 then PathEntry(dot.loc, 1, DOT)
    else PathEntry(dot.loc, ToInt16(ParentIdx(ds, i) + 1), nm.Of(ds[i].name, joliet))
  }

  // ----- volume descriptors (section 8 of ECMA-119)

  /** Which of the two root '.' records a descriptor points to. */
  datatype RootPointer = IsoRoot | JolietRoot

  datatype Descriptor = Descriptor(
    typ: Byte, filler: Byte, volumeId: seq<Byte>, escapes: seq<Byte>, created: seq<Byte>,
    spaceSize: int, pathTableSize: int, tableL: int, tableM: int, root: RootPointer)

  const CD001: seq<Byte> := [0x43, 0x44, 0x30, 0x30, 0x31]

  /** A zero timestamp: sixteen digits '0' and a zero offset. */
  function NoTime(): (b: seq<Byte>)
    ensures |b| == 17
  {
    PadTo([], 16, 0x30) + [0]
  }

  /** `AppendString` panics on a longer identifier. */
  predicate DescriptorFits(d: Descriptor) {
    |d.volumeId| <= 32 && |d.escapes| <= 32 && |d.created| == 17
  }

  /** The 156 bytes before the root record. */
  function DescriptorHead(d: Descriptor): (b: seq<Byte>)
    requires DescriptorFits(d)
    ensures |b| == 156
  {
    [d.typ] + CD001 + [1, 0] + PadTo([], 32, d.filler) + PadTo(d.volumeId, 32, d.filler) + Zeros(8)
    + LE32(d.spaceSize) + BE32(d.spaceSize) + PadTo(d.escapes, 32, 0)
    + LE16(1) + BE16(1) + LE16(1) + BE16(1) + LE16(SECTOR_SIZE) + BE16(SECTOR_SIZE)
    + LE32(d.pathTableSize) + BE32(d.pathTableSize)
    + LE32(d.tableL) + LE32(0) + BE32(d.tableM) + BE32(0)
  }

  /** Everything after it. */
  function DescriptorTail(d: Descriptor): (b: seq<Byte>)
    requires DescriptorFits(d)
    ensures |b| == SECTOR_SIZE - 190
  {
    PadTo(d.volumeId, 128, d.filler) + PadTo([], 128, d.filler) + PadTo([], 128, d.filler) + PadTo([], 128, d.filler)
    + PadTo([], 37, d.filler) + PadTo([], 37, d.filler) + PadTo([], 37, d.filler)
    + d.created + NoTime() + NoTime() + NoTime() + [1, 0] + Zeros(512) + Zeros(653)
  }

  function DescriptorBytes(d: Descriptor, root: Rec): (b: seq<Byte>)
    requires DescriptorFits(d) && |root.ident| == 1
    ensures |b| == SECTOR_SIZE
  {
    DescriptorHead(d) + RootBytes(root) + DescriptorTail(d)
  }

  function Terminator(): (b: seq<Byte>)
    ensures |b| == SECTOR_SIZE
  {
    [255] + CD001 + [0] + Zeros(SECTOR_SIZE - 7)
  }
}
