/** Directory records (section 9.1 of ECMA-119) and how they are packed into extents. */
module Records {
  import opened Wrappers
  import opened Bytes
  import opened Sectors

  const FLAG_DIR: Byte := 2
  const FLAG_MULTI_EXTENT: Byte := 0x80

  /** The 7 bytes of a recording timestamp; what they mean is not modelled. */
  type Stamp = s: seq<Byte> | |s| == 7 witness seq(7, _ => 0)

  type Identifier = seq<Byte>

  /** `DirectoryEntry`: the fields the image builder varies. */
  datatype Rec = Rec(flags: Byte, loc: int, len: int, stamp: Stamp, ident: Identifier) {
    predicate IsDir() {
      flags / 2 % 2 == 1
    }

    predicate MoreExtents() {
      flags / 0x80 == 1
    }
  }

  /** Length of the `SystemUse` field, `dirEntryPad`. */
  const SYSTEM_USE: nat := 6

  function FixedSize(idLen: nat): nat {
    33 + idLen + (idLen + 1) % 2
  }

  function RecSize(r: Rec): (n: nat)
    ensures n % 2 == 0
  {
    FixedSize(|r.ident|) + SYSTEM_USE
  }

  /** `SizeBytes.AddSize`: where the cursor stands after a record of this size. */
  function AddSize(size: nat, to: nat): nat {
    (if AlignUp(to) - to <= size then AlignUp(to) else to) + size
  }

  // ----- one record as bytes

  /** The 33 bytes before the identifier. */
  function RecHead(r: Rec, sizeByte: Byte): (b: seq<Byte>)
    ensures |b| == 33
  {
    [sizeByte, 0] + LE32(r.loc) + BE32(r.loc) + LE32(r.len) + BE32(r.len) + r.stamp
    + [r.flags, 0, 0] + LE16(1) + BE16(1) + [|r.ident| % 256]
  }

  /** `FixedDirectoryEntry.addBytes`. */
  function FixedBytes(r: Rec, sizeByte: Byte): (b: seq<Byte>)
    ensures |b| == FixedSize(|r.ident|)
  {
    RecHead(r, sizeByte) + r.ident + Zeros((|r.ident| + 1) % 2)
  }

  /** `FixedDirectoryEntry.Encode`, used for the root record of a volume descriptor. */
  function RootBytes(r: Rec): (b: seq<Byte>)
    ensures |b| == FixedSize(|r.ident|)
  {
    FixedBytes(r, FixedSize(|r.ident|) % 256)
  }

  /** `DirectoryEntry.Encode`, without the gap before it. */
  function RecBytes(r: Rec): (b: seq<Byte>)
    ensures |b| == RecSize(r)
  {
    FixedBytes(r, RecSize(r) % 256) + Zeros(SYSTEM_USE)
  }

  /** An ISO 9660 reader's view of one record; the two byte orders must agree. */
  function DecodeRec(b: seq<Byte>): Option<Rec> {
    if |b| < 33 || b[0] != |b| || 33 + b[32] > |b| then None
    else if FromLE32(b[2..6]) != FromBE32(b[6..10]) || FromLE32(b[10..14]) != FromBE32(b[14..18]) then None
    else if b[28..32] != LE16(1) + BE16(1) then None
    else Some(Rec(b[25], FromLE32(b[2..6]), FromLE32(b[10..14]), b[18..25], b[33..33 + b[32]]))
  }

  /** What the length byte and the 32-bit fields of a record can hold. */
  predicate Representable(r: Rec) {
    && RecSize(r) <= 255
    && 0 <= r.loc < TWO_TO_THE_32
    && 0 <= r.len < TWO_TO_THE_32
  }

  lemma HeadFields(r: Rec, sizeByte: Byte, tail: seq<Byte>)
    ensures var b := RecHead(r, sizeByte) + tail;
      && b[0] == sizeByte && b[2..6] == LE32(r.loc) && b[6..10] == BE32(r.loc)
      && b[10..14] == LE32(r.len) && b[14..18] == BE32(r.len) && b[18..25] == r.stamp
      && b[25] == r.flags && b[28..32] == LE16(1) + BE16(1) && b[32] == |r.ident| % 256 && b[33..] == tail
  {
  }

  /** A record of either form reads back exactly when it is representable. */
  lemma FieldsRoundTrip(r: Rec, size: nat, tail: seq<Byte>)
    requires size == 33 + |r.ident| + |tail| && |tail| <= 7
    ensures DecodeRec(RecHead(r, size % 256) + r.ident + tail) == Some(r) <==>
            size <= 255 && 0 <= r.loc < TWO_TO_THE_32 && 0 <= r.len < TWO_TO_THE_32
  {
    hide RecHead, LE16, BE16, LE32, BE32, FromLE32, FromBE32;
    var b := RecHead(r, size % 256) + r.ident + tail;
    assert b == RecHead(r, size % 256) + (r.ident + tail);
    HeadFields(r, size % 256, r.ident + tail);
    RoundTrip32(r.loc);
    RoundTrip32(r.len);
    if size <= 255 {
      assert b[33..33 + b[32]] == (r.ident + tail)[..|r.ident|] == r.ident;
      assert 0 <= r.loc < TWO_TO_THE_32 <==> r.loc % TWO_TO_THE_32 == r.loc;
      assert 0 <= r.len < TWO_TO_THE_32 <==> r.len % TWO_TO_THE_32 == r.len;
    }
  }

  /** The record length is one byte, so encoding is lossless exactly up to 255. */
  lemma RecordRoundTrip(r: Rec)
    ensures DecodeRec(RecBytes(r)) == Some(r) <==> Representable(r)
  {
    var tail := Zeros((|r.ident| + 1) % 2) + Zeros(SYSTEM_USE);
    assert RecBytes(r) == RecHead(r, RecSize(r) % 256) + r.ident + tail;
    FieldsRoundTrip(r, RecSize(r), tail);
  }

  /** The root record of a descriptor, which has a one-byte identifier. */
  lemma RootRoundTrip(r: Rec)
    requires |r.ident| == 1
    ensures |RootBytes(r)| == 34
    ensures DecodeRec(RootBytes(r)) == Some(r) <==> 0 <= r.loc < TWO_TO_THE_32 && 0 <= r.len < TWO_TO_THE_32
  {
    assert RootBytes(r) == RecHead(r, 34) + r.ident + [];
    FieldsRoundTrip(r, 34, []);
  }

  // ----- packing

  /** Where `DirectoryEntry.Encode` starts a record of this size. */
  function StartOf(pos: nat, size: nat): (start: nat)
    ensures pos <= start <= AlignUp(pos)
  {
    if size >= AlignUp(pos) - pos then AlignUp(pos) else pos
  }

  function PackOne(pos: nat, r: Rec): seq<Byte> {
    Zeros(StartOf(pos, RecSize(r)) - pos) + RecBytes(r)
  }

  /** What encoding the records one after another appends at position `pos`. */
  function Pack(pos: nat, rs: seq<Rec>): seq<Byte>
    decreases |rs|
  {
    if rs == [] then [] else PackOne(pos, rs[0]) + Pack(pos + |PackOne(pos, rs[0])|, rs[1..])
  }

  /** The size computed before anything is encoded. */
  function PredictSize(pos: nat, rs: seq<Rec>): nat
    decreases |rs|
  {
    if rs == [] then pos else PredictSize(AddSize(RecSize(rs[0]), pos), rs[1..])
  }

  /** A directory's extent: its records, padded to whole sectors. */
  function Extent(rs: seq<Rec>): (b: seq<Byte>) {
    Pack(0, rs) + Zeros(AlignUp(|Pack(0, rs)|) - |Pack(0, rs)|)
  }

  /** Folding AddSize predicts the position that encoding reaches, from any start. */
  lemma {:induction false} PackedSize(pos: nat, rs: seq<Rec>)
    ensures pos + |Pack(pos, rs)| == PredictSize(pos, rs)
    decreases |rs|
  {
    if rs != [] {
      PackedSize(pos + |PackOne(pos, rs[0])|, rs[1..]);
    }
  }

  lemma {:induction false} PackSnoc(pos: nat, rs: seq<Rec>, r: Rec)
    ensures Pack(pos, rs + [r]) == Pack(pos, rs) + PackOne(pos + |Pack(pos, rs)|, r)
    decreases |rs|
  {
    hide PackOne;
    if rs != [] {
      PackSnoc(pos + |PackOne(pos, rs[0])|, rs[1..], r);
      assert (rs + [r])[1..] == rs[1..] + [r];
    }
  }

  lemma StartShift(base: nat, pos: nat, size: nat)
    requires base % SECTOR_SIZE == 0
    ensures StartOf(base + pos, size) == base + StartOf(pos, size)
  {
  }

  /** Only the position within the sector matters. */
  lemma {:induction false} PackShift(base: nat, pos: nat, rs: seq<Rec>)
    requires base % SECTOR_SIZE == 0
    ensures Pack(base + pos, rs) == Pack(pos, rs)
    decreases |rs|
  {
    hide RecBytes, StartOf;
    if rs != [] {
      StartShift(base, pos, RecSize(rs[0]));
      PackShift(base, pos + |PackOne(pos, rs[0])|, rs[1..]);
    }
  }

  /** No record that fits into a sector crosses a sector boundary. */
  lemma NoCrossing(pos: nat, r: Rec)
    requires RecSize(r) <= SECTOR_SIZE
    ensures var start := pos + |PackOne(pos, r)| - RecSize(r);
      start / SECTOR_SIZE == (start + RecSize(r) - 1) / SECTOR_SIZE
  {
  }

  // ----- reading an extent back

  /** A reader's pass over the rest of an extent: a zero length byte means that
      the next record is in the next sector. */
  function ParseExtent(pos: nat, b: seq<Byte>): Option<seq<Rec>>
    decreases |b|
  {
    if b == [] then Some([])
    else if b[0] == 0 then
      var skip := AlignUp(pos + 1) - pos;
      if skip > |b| then None else ParseExtent(pos + skip, b[skip..])
    else if b[0] > |b| then None
    else
      match DecodeRec(b[..b[0]])
      case None => None
      case Some(r) =>
        match ParseExtent(pos + b[0], b[b[0]..])
        case None => None
        case Some(rest) => Some([r] + rest)
  }

  lemma ParseSkips(pos: nat, gap: nat, rest: seq<Byte>)
    requires gap == AlignUp(pos) - pos
    ensures ParseExtent(pos, Zeros(gap) + rest) == ParseExtent(pos + gap, rest)
  {
    var b := Zeros(gap) + rest;
    if gap > 0 {
      AlignUpNext(pos);
      assert b[0] == 0 && b[gap..] == rest;
    } else {
      assert b == rest;
    }
  }

  lemma ParseTakes(pos: nat, r: Rec, rest: seq<Byte>)
    requires Representable(r)
    ensures ParseExtent(pos, RecBytes(r) + rest) ==
            match ParseExtent(pos + RecSize(r), rest) case None => None case Some(rs) => Some([r] + rs)
  {
    var b := RecBytes(r) + rest;
    RecordRoundTrip(r);
    assert b[0] == RecSize(r);
    assert b[..b[0]] == RecBytes(r) && b[b[0]..] == rest;
  }

  lemma PackCons(pos: nat, rs: seq<Rec>, pad: seq<Byte>)
    requires rs != []
    ensures var next := StartOf(pos, RecSize(rs[0])) + RecSize(rs[0]);
      && next + |Pack(next, rs[1..])| == pos + |Pack(pos, rs)|
      && Pack(pos, rs) + pad ==
         Zeros(StartOf(pos, RecSize(rs[0])) - pos) + (RecBytes(rs[0]) + (Pack(next, rs[1..]) + pad))
  {
    hide RecBytes, AlignUp, StartOf, RecSize, Zeros;
    assert PackOne(pos, rs[0]) == Zeros(StartOf(pos, RecSize(rs[0])) - pos) + RecBytes(rs[0]);
  }

  lemma ParseOne(pos: nat, r: Rec, rest: seq<Byte>)
    requires Representable(r)
    ensures var start := StartOf(pos, RecSize(r));
      ParseExtent(pos, Zeros(start - pos) + (RecBytes(r) + rest)) ==
      match ParseExtent(start + RecSize(r), rest) case None => None case Some(rs) => Some([r] + rs)
  {
    hide RecBytes, ParseExtent;
    var start := StartOf(pos, RecSize(r));
    if start == pos {
      assert Zeros(start - pos) + (RecBytes(r) + rest) == RecBytes(r) + rest;
    } else {
      ParseSkips(pos, start - pos, RecBytes(r) + rest);
    }
    ParseTakes(start, r, rest);
  }

  lemma ParsePadding(pos: nat)
    ensures var end := pos + |Pack(pos, [])|;
      ParseExtent(pos, Pack(pos, []) + Zeros(AlignUp(end) - end)) == Some([])
  {
    var pad := Zeros(AlignUp(pos) - pos);
    ParseSkips(pos, |pad|, []);
    assert pad + [] == Pack(pos, []) + pad;
  }

  lemma {:induction false} ParsePacked(pos: nat, rs: seq<Rec>)
    requires forall r :: r in rs ==> Representable(r)
    ensures var end := pos + |Pack(pos, rs)|;
      ParseExtent(pos, Pack(pos, rs) + Zeros(AlignUp(end) - end)) == Some(rs)
    decreases |rs|
  {
    hide RecBytes, AlignUp, ParseExtent, StartOf, Pack;
    var end := pos + |Pack(pos, rs)|;
    var pad := Zeros(AlignUp(end) - end);
    if rs == [] {
      ParsePadding(pos);
    } else {
      PackCons(pos, rs, pad);
      var next := StartOf(pos, RecSize(rs[0])) + RecSize(rs[0]);
      ParseOne(pos, rs[0], Pack(next, rs[1..]) + pad);
      ParsePacked(next, rs[1..]);
      assert rs == [rs[0]] + rs[1..];
    }
  }

  /** Reading an extent gives back the very records it was packed from. */
  lemma ExtentRoundTrip(rs: seq<Rec>)
    requires forall r :: r in rs ==> Representable(r)
    ensures ParseExtent(0, Extent(rs)) == Some(rs)
  {
    hide RecBytes, ParseExtent, Pack;
    ParsePacked(0, rs);
  }

  lemma ExtentSize(rs: seq<Rec>)
    ensures |Extent(rs)| == AlignUp(PredictSize(0, rs))
  {
    PackedSize(0, rs);
  }

  // ----- the format, byte by byte

  /** The positions of a directory record's fields (section 9.1 of ECMA-119). */
  lemma RecordLayout(r: Rec)
    requires Representable(r)
    ensures var b, n := RecBytes(r), |r.ident|;
      && |b| == 33 + n + (if n % 2 == 0 then 1 else 0) + 6 && b[0] == |b| && b[1] == 0
      && FromLE32(b[2..6]) == FromBE32(b[6..10]) == r.loc && FromLE32(b[10..14]) == FromBE32(b[14..18]) == r.len
      && b[18..25] == r.stamp && b[25] == r.flags && b[26] == b[27] == 0
      && FromLE16(b[28..30]) == FromBE16(b[30..32]) == 1
      && b[32] == n && b[33..33 + n] == r.ident && forall i :: 33 + n <= i < |b| ==> b[i] == 0
  {
    hide RecHead, RecBytes, LE32, BE32, LE16, BE16, FromLE32, FromBE32, FromLE16, FromBE16;
    var rest := Zeros((|r.ident| + 1) % 2) + Zeros(SYSTEM_USE);
    var b := RecBytes(r);
    assert b == RecHead(r, RecSize(r)) + (r.ident + rest) by { RecIs(r); }
    HeadFields(r, RecSize(r), r.ident + rest);
    HeadZeros(r, RecSize(r), r.ident + rest);
    RoundTrip32(r.loc);
    RoundTrip32(r.len);
    RoundTrip16(1);
    TwoHalves(b, LE16(1), BE16(1));
    hide Zeros;
    TailOf(b, r.ident, rest);
  }

  lemma RecIs(r: Rec)
    ensures RecBytes(r) == RecHead(r, RecSize(r) % 256) + (r.ident + (Zeros((|r.ident| + 1) % 2) + Zeros(SYSTEM_USE)))
  {
    hide RecHead, Zeros;
  }

  lemma TwoHalves(b: seq<Byte>, first: seq<Byte>, second: seq<Byte>)
    requires |b| >= 32 && |first| == |second| == 2 && b[28..32] == first + second
    ensures b[28..30] == first && b[30..32] == second
  {
    assert b[28..30] == b[28..32][..2] && b[30..32] == b[28..32][2..];
  }

  lemma TailOf(b: seq<Byte>, ident: seq<Byte>, rest: seq<Byte>)
    requires |b| >= 33 && b[33..] == ident + rest
    ensures |b| == 33 + |ident| + |rest| && b[33..33 + |ident|] == ident
    ensures forall i :: 33 + |ident| <= i < |b| ==> b[i] == rest[i - 33 - |ident|]
  {
    assert b[33..33 + |ident|] == b[33..][..|ident|];
    forall i | 33 + |ident| <= i < |b| ensures b[i] == rest[i - 33 - |ident|] {
      assert b[i] == b[33..][i - 33];
    }
  }

  lemma HeadZeros(r: Rec, sizeByte: Byte, tail: seq<Byte>)
    ensures var b := RecHead(r, sizeByte) + tail; b[1] == 0 && b[26] == 0 && b[27] == 0
  {
    hide LE32, BE32, LE16, BE16;
  }

  /** A record goes where the last one ends, if it stays clear of the end of that sector, and
      else to the next sector, even if it would just fit. */
  lemma WhereRecordsGo(pos: nat, size: nat)
    ensures var left := 2048 - pos % 2048;
      StartOf(pos, size) == if pos % 2048 == 0 || size < left then pos else pos + left
    ensures AddSize(size, pos) == StartOf(pos, size) + size
  {
  }
}
