/** Encrypted disc images: regions of sectors are decrypted while they are read. */
module EncryptedIso {
  import opened Wrappers
  import opened Arithmetic
  import opened Bits
  import opened Bytes
  import opened Sectors
  import opened Files

  // ----- cipher block chaining (section 6.2 of NIST SP 800-38A) over any block cipher

  const BLOCK: nat := 16

  type CipherBlock = b: seq<Byte> | |b| == 16 witness seq(16, _ => 0)

  function XorByte(x: Byte, y: Byte): Byte {
    BytePowers();
    BitXor(8, x, y)
  }

  function Xor(a: CipherBlock, b: CipherBlock): CipherBlock {
    seq(16, i requires 0 <= i < 16 => XorByte(a[i], b[i]))
  }

  /** The chain: each block is combined with the ciphertext before it. */
  function CbcDecrypt(dec: CipherBlock -> CipherBlock, iv: CipherBlock, c: seq<Byte>): (p: seq<Byte>)
    requires |c| % BLOCK == 0
    ensures |p| == |c|
    decreases |c|
  {
    if c == [] then [] else Xor(dec(c[..BLOCK]), iv) + CbcDecrypt(dec, c[..BLOCK], c[BLOCK..])
  }

  function CbcEncrypt(enc: CipherBlock -> CipherBlock, iv: CipherBlock, p: seq<Byte>): (c: seq<Byte>)
    requires |p| % BLOCK == 0
    ensures |c| == |p|
    decreases |p|
  {
    if p == [] then [] else
      var first := enc(Xor(p[..BLOCK], iv));
      first + CbcEncrypt(enc, first, p[BLOCK..])
  }

  /** Decryption undoes encryption under the same key and initial vector. */
  lemma {:induction false} CbcRoundTrip(enc: CipherBlock -> CipherBlock, dec: CipherBlock -> CipherBlock, iv: CipherBlock, p: seq<Byte>)
    requires forall b: CipherBlock :: dec(enc(b)) == b
    requires |p| % BLOCK == 0
    ensures CbcDecrypt(dec, iv, CbcEncrypt(enc, iv, p)) == p
    decreases |p|
  {
    if p != [] {
      var first := enc(Xor(p[..BLOCK], iv));
      var c := CbcEncrypt(enc, iv, p);
      assert c[..BLOCK] == first && c[BLOCK..] == CbcEncrypt(enc, first, p[BLOCK..]);
      CbcRoundTrip(enc, dec, first, p[BLOCK..]);
      XorCancels(p[..BLOCK], iv);
    }
  }

  lemma XorCancels(a: CipherBlock, b: CipherBlock)
    ensures Xor(Xor(a, b), b) == a
  {
    forall i | 0 <= i < 16 ensures Xor(Xor(a, b), b)[i] == a[i] {
      BytePowers();
      BitXorCancels(8, a[i], b[i]);
    }
  }

  /** The decrypter with its chaining value. */
  class CbcMode {
    const dec: CipherBlock -> CipherBlock
    var chain: CipherBlock

    constructor (dec: CipherBlock -> CipherBlock, iv: CipherBlock)
      ensures this.dec == dec && chain == iv
    {
      this.dec, chain := dec, iv;
    }

    method SetIV(iv: CipherBlock)
      modifies this
      ensures chain == iv
    {
      chain := iv;
    }

    /** Decrypt `data[lo..hi]` in place; the last ciphertext block stays behind. */
    method CryptBlocks(data: array<Byte>, lo: nat, hi: nat)
      requires lo <= hi <= data.Length && (hi - lo) % BLOCK == 0
      modifies this, data
      ensures data[lo..hi] == CbcDecrypt(dec, old(chain), old(data[lo..hi]))
      ensures forall k :: 0 <= k < lo || hi <= k < data.Length ==> data[k] == old(data[k])
    {
      hide CbcDecrypt, Xor;
      ghost var before, result := data[lo..hi], CbcDecrypt(dec, chain, data[lo..hi]);
      ghost var done: seq<Byte>, rest := [], before;
      var at := lo;
      while at < hi
        invariant lo <= at <= hi && (hi - at) % BLOCK == 0
        invariant data[lo..at] == done && data[at..hi] == rest
        invariant result == done + CbcDecrypt(dec, chain, rest)
        invariant forall k :: 0 <= k < lo || hi <= k < data.Length ==> data[k] == old(data[k])
      {
        var cipher := data[at..at + BLOCK];
        assert rest[..BLOCK] == cipher;
        CbcStep(dec, chain, rest, done);
        var plain := Xor(dec(cipher), chain);
        CopyInto(data, at, plain);
        chain := cipher;
        assert data[at + BLOCK..hi] == rest[BLOCK..];
        assert data[lo..at + BLOCK] == done + plain;
        done, rest := done + plain, rest[BLOCK..];
        at := at + BLOCK;
      }
      assert rest == [];
      CbcEmpty(dec, chain);
      assert data[lo..hi] == result;
    }
  }

  lemma CbcEmpty(dec: CipherBlock -> CipherBlock, iv: CipherBlock)
    ensures CbcDecrypt(dec, iv, []) == []
  {
  }

  lemma CbcUnfold(dec: CipherBlock -> CipherBlock, iv: CipherBlock, c: seq<Byte>)
    requires |c| >= BLOCK && |c| % BLOCK == 0
    ensures CbcDecrypt(dec, iv, c) == Xor(dec(c[..BLOCK]), iv) + CbcDecrypt(dec, c[..BLOCK], c[BLOCK..])
  {
  }

  lemma CbcStep(dec: CipherBlock -> CipherBlock, iv: CipherBlock, c: seq<Byte>, done: seq<Byte>)
    requires |c| >= BLOCK && |c| % BLOCK == 0
    ensures done + CbcDecrypt(dec, iv, c) == done + Xor(dec(c[..BLOCK]), iv) + CbcDecrypt(dec, c[..BLOCK], c[BLOCK..])
  {
  }

  // ----- the region map

  const MAP_HEADER_SIZE: nat := 8
  const MAP_ENTRY_SIZE: nat := 8

  /** Sectors `start` up to `end` are encrypted. */
  datatype Region = Region(start: int, end: int)

  /** The conversion of a 32-bit unsigned to a 32-bit signed number. */
  function ToInt32(x: nat): int
    requires x < TWO_TO_THE_32
  {
    if x < 0x8000_0000 then x else x - TWO_TO_THE_32
  }

  function Word(data: seq<Byte>, at: nat): (v: nat)
    requires at + 4 <= |data|
    ensures v < TWO_TO_THE_32
  {
    FromBE32(data[at..at + 4])
  }

  /** The number of clear regions. */
  function Count(data: seq<Byte>): nat
    requires |data| >= MAP_HEADER_SIZE
  {
    Word(data, 0)
  }

  predicate MapRead(data: seq<Byte>) {
    |data| >= MAP_HEADER_SIZE && MAP_HEADER_SIZE + MAP_ENTRY_SIZE * Count(data) <= |data|
  }

  function ClearStart(data: seq<Byte>, k: nat): (v: nat)
    requires MapRead(data) && k < Count(data)
    ensures v < TWO_TO_THE_32
  {
    Word(data, MAP_HEADER_SIZE + MAP_ENTRY_SIZE * k)
  }

  function ClearEnd(data: seq<Byte>, k: nat): (v: nat)
    requires MapRead(data) && k < Count(data)
    ensures v < TWO_TO_THE_32
  {
    Word(data, MAP_HEADER_SIZE + MAP_ENTRY_SIZE * k + 4)
  }

  predicate MapEntryValid(data: seq<Byte>, k: nat)
    requires MapRead(data) && k < Count(data)
  {
    ClearStart(data, k) < ClearEnd(data, k) && (k > 0 ==> ClearEnd(data, k - 1) <= ClearStart(data, k))
  }

  /** At least two clear regions, from sector 0 on, none empty, in order. */
  predicate MapValid(data: seq<Byte>) {
    && MapRead(data) && Count(data) >= 2
    && ClearStart(data, 0) == 0
    && forall k :: 0 <= k < Count(data) ==> MapEntryValid(data, k)
  }

  /** Sector `i` lies strictly between clear regions `k - 1` and `k`; sector numbers are
      signed, so regions behind sector 2^31 do not exist. */
  predicate Between(data: seq<Byte>, k: nat, i: nat)
    requires MapRead(data) && 0 < k < Count(data)
  {
    ClearEnd(data, k - 1) <= i < ClearStart(data, k) < 0x8000_0000
  }

  predicate Encrypted(data: seq<Byte>, i: nat)
    requires MapRead(data)
  {
    exists k :: 0 < k < Count(data) && Between(data, k, i)
  }

  lemma {:induction false} MapOrdered(data: seq<Byte>, i: nat, j: nat)
    requires MapValid(data) && i < j < Count(data)
    ensures ClearEnd(data, i) <= ClearStart(data, j)
    decreases j - i
  {
    hide ClearStart, ClearEnd, MapRead;
    assert MapEntryValid(data, j);
    if i + 1 < j {
      MapOrdered(data, i, j - 1);
      assert MapEntryValid(data, j - 1);
    }
  }

  /** No sector is encrypted twice. */
  lemma BetweenOnce(data: seq<Byte>, j: nat, k: nat, i: nat)
    requires MapValid(data) && 0 < j < Count(data) && 0 < k < Count(data)
    requires Between(data, j, i) && Between(data, k, i)
    ensures j == k
  {
    hide ClearStart, ClearEnd, MapRead, MapValid;
    if j < k {
      MapOrderedStart(data, j, k);
    } else if k < j {
      MapOrderedStart(data, k, j);
    }
  }

  lemma MapOrderedStart(data: seq<Byte>, j: nat, k: nat)
    requires MapValid(data) && j < k < Count(data)
    ensures ClearStart(data, j) <= ClearEnd(data, k - 1)
  {
    hide ClearStart, ClearEnd, MapRead;
    assert MapEntryValid(data, j);
    if j < k - 1 {
      MapOrdered(data, j, k - 1);
      assert MapEntryValid(data, k - 1);
    }
  }

  /** What `NewEncryptedISO` makes of a map: as many empty regions as real ones come
      first, because the slice is made with a length and then appended to. */
  function RegionsOf(data: seq<Byte>): (r: seq<Region>)
    requires MapRead(data) && Count(data) >= 2
  {
    var n := Count(data) - 1;
    seq(n, _ => Region(0, 0))
    + seq(n, k requires 0 <= k < n => Region(ToInt32(ClearEnd(data, k)), ToInt32(ClearStart(data, k + 1))))
  }

  /** Read and check the map. */
  method ParseRegions(data: seq<Byte>) returns (ok: bool, regions: seq<Region>)
    ensures ok <==> MapValid(data)
    ensures ok ==> regions == RegionsOf(data)
  {
    hide ClearStart, ClearEnd, Word;
    regions := [];
    if |data| < MAP_HEADER_SIZE || |data| < MAP_HEADER_SIZE + MAP_ENTRY_SIZE * Count(data) {
      return false, [];
    }
    var count := Count(data);
    if count < 2 || ClearStart(data, 0) != 0 {
      return false, [];
    }
    var prevRegionEnd := 0;
    regions := seq(count - 1, _ => Region(0, 0));
    for i := 0 to count
      invariant i == 0 ==> prevRegionEnd == 0 && regions == RegionsOf(data)[..count - 1]
      invariant i > 0 ==> prevRegionEnd == ClearEnd(data, i - 1) && regions == RegionsOf(data)[..count - 1 + i - 1]
      invariant forall k :: 0 <= k < i ==> MapEntryValid(data, k)
    {
      var start, end := ClearStart(data, i), ClearEnd(data, i);
      if end <= start || start < prevRegionEnd {
        assert !MapEntryValid(data, i);
        return false, [];
      }
      prevRegionEnd := end;
      if i > 0 {
        regions := regions + [Region(ToInt32(ClearEnd(data, i - 1)), ToInt32(start))];
      }
    }
    ok := true;
    assert RegionsOf(data)[..count - 1 + count - 1] == RegionsOf(data);
  }

  /** A region of the list holds a sector exactly when it is not one of the empty ones
      and the sector lies between its two clear regions. */
  lemma RegionHolds(data: seq<Byte>, j: nat, i: nat)
    requires MapValid(data) && j < |RegionsOf(data)|
    ensures |RegionsOf(data)| == 2 * (Count(data) - 1)
    ensures var n, r := Count(data) - 1, RegionsOf(data)[j];
      r.start <= i < r.end <==> j >= n && Between(data, j - n + 1, i)
  {
    hide ClearStart, ClearEnd;
    var n := Count(data) - 1;
    if j >= n {
      assert MapEntryValid(data, j - n + 1);
    }
  }

  lemma HeldByRegion(data: seq<Byte>, i: nat)
    requires MapValid(data)
    ensures Encrypted(data, i) <==> exists j :: 0 <= j < |RegionsOf(data)| && RegionsOf(data)[j].start <= i < RegionsOf(data)[j].end
  {
    hide ClearStart, ClearEnd, MapValid, RegionsOf, Between;
    RegionCount(data);
    var n := Count(data) - 1;
    if Encrypted(data, i) {
      var k :| 0 < k < Count(data) && Between(data, k, i);
      RegionHolds(data, k - 1 + n, i);
    }
    if j :| 0 <= j < |RegionsOf(data)| && RegionsOf(data)[j].start <= i < RegionsOf(data)[j].end {
      RegionHolds(data, j, i);
    }
  }

  lemma RegionCount(data: seq<Byte>)
    requires MapValid(data)
    ensures MapRead(data) && Count(data) >= 2 && |RegionsOf(data)| == 2 * (Count(data) - 1)
  {
  }

  // ----- the decrypted image

  /** The file with its map zeroed, if that is wanted. */
  function Cleared(data: seq<Byte>, clear: bool): (r: seq<Byte>)
    requires MapRead(data)
    ensures |r| == |data|
  {
    var size := MAP_HEADER_SIZE + MAP_ENTRY_SIZE * Count(data);
    if clear then Zeros(size) + data[size..] else data
  }

  function ClearedByte(data: seq<Byte>, clear: bool, p: nat): Byte
    requires MapRead(data) && p < |data|
  {
    if clear && p < MAP_HEADER_SIZE + MAP_ENTRY_SIZE * Count(data) then 0 else data[p]
  }

  lemma ClearedAt(data: seq<Byte>, clear: bool, p: nat)
    requires MapRead(data) && p < |data|
    ensures Cleared(data, clear)[p] == ClearedByte(data, clear, p)
  {
  }

  /** What is zeroed: the header of eight bytes and eight for each region. */
  lemma ClearedIs(data: seq<Byte>, clear: bool, p: nat)
    requires MapRead(data) && p < |data|
    ensures |data| >= 8 && Cleared(data, clear)[p] == if clear && p < 8 + 8 * FromBE32(data[0..4]) then 0 else data[p]
  {
    hide FromBE32;
  }

  /** A map as it is in the file: the number of regions, four unused bytes, and for each region
      the sectors where it starts and ends. */
  lemma MapIs(data: seq<Byte>, k: nat)
    requires MapRead(data) && k < Count(data)
    ensures 16 + 8 * k <= |data| && Count(data) == FromBE32(data[0..4])
    ensures ClearStart(data, k) == FromBE32(data[8 + 8 * k..12 + 8 * k])
    ensures ClearEnd(data, k) == FromBE32(data[12 + 8 * k..16 + 8 * k])
    ensures MapValid(data) ==> ClearStart(data, k) < ClearEnd(data, k)
    ensures MapValid(data) && k > 0 ==> ClearEnd(data, k - 1) <= ClearStart(data, k)
    ensures MapValid(data) ==> Count(data) >= 2 && ClearStart(data, 0) == 0
  {
    assert MapValid(data) ==> MapEntryValid(data, k);
    hide FromBE32, MapValid;
    if MapValid(data) {
      MapBegins(data);
    }
  }

  lemma MapBegins(data: seq<Byte>)
    requires MapValid(data)
    ensures Count(data) >= 2 && ClearStart(data, 0) == 0
  {
    hide FromBE32;
  }

  /** And every such map is accepted. */
  lemma MapIsValid(data: seq<Byte>)
    requires MapRead(data) && Count(data) >= 2 && ClearStart(data, 0) == 0
    requires forall k :: 0 <= k < Count(data) ==> ClearStart(data, k) < ClearEnd(data, k)
    requires forall k :: 0 < k < Count(data) ==> ClearEnd(data, k - 1) <= ClearStart(data, k)
    ensures MapValid(data)
  {
    hide ClearStart, ClearEnd, Count;
  }

  /** The initial vector of a sector: its number, in the last four bytes. */
  function IvFor(sector: nat): CipherBlock {
    Zeros(12) + BE32(sector)
  }

  /** Sector `t` of what a buffer holds that was read from `start` on. */
  function SectorIn(buf: seq<Byte>, start: nat, t: nat): (r: seq<Byte>)
    requires start <= t * SECTOR_SIZE && (t + 1) * SECTOR_SIZE <= start + |buf|
    ensures |r| == SECTOR_SIZE
  {
    buf[t * SECTOR_SIZE - start..(t + 1) * SECTOR_SIZE - start]
  }

  predicate Whole(start: nat, len: nat, t: nat) {
    start <= t * SECTOR_SIZE && (t + 1) * SECTOR_SIZE <= start + len
  }

  /** A read at `start` delivered `n` bytes into a buffer of `len`, and sector `t` begins
      among the bytes and ends inside the buffer. */
  predicate Reached(start: nat, n: nat, len: nat, t: nat) {
    start <= t * SECTOR_SIZE < start + n && (t + 1) * SECTOR_SIZE <= start + len
  }

  function ImageSector(data: seq<Byte>, clear: bool, dec: CipherBlock -> CipherBlock, t: nat): (r: seq<Byte>)
    requires MapRead(data) && (t + 1) * SECTOR_SIZE <= |data|
    ensures |r| == SECTOR_SIZE
  {
    var sector := SectorIn(Cleared(data, clear), 0, t);
    if Encrypted(data, t) then CbcDecrypt(dec, IvFor(t), sector) else sector
  }

  /** The image that all reads agree on: whole encrypted sectors are decrypted once. */
  function ImageByte(data: seq<Byte>, clear: bool, dec: CipherBlock -> CipherBlock, p: nat): Byte
    requires MapRead(data) && p < |data|
  {
    var t := p / SECTOR_SIZE;
    if (t + 1) * SECTOR_SIZE <= |data| then ImageSector(data, clear, dec, t)[p % SECTOR_SIZE] else Cleared(data, clear)[p]
  }

  // ----- what has been decrypted while the regions are gone through

  predicate Held(regions: seq<Region>, j: nat, t: int)
    requires j <= |regions|
  {
    exists k :: 0 <= k < j && regions[k].start <= t < regions[k].end
  }

  /** Sectors of the first `j` regions, and those before `i` of the next one. */
  predicate Marked(regions: seq<Region>, j: nat, i: int, t: nat)
    requires j <= |regions|
  {
    Held(regions, j, t) || (j < |regions| && regions[j].start <= t < regions[j].end && t < i)
  }

  /** The law of the image: a sector that was encrypted under the vector that ends in its number
      comes out plain, and so does one that was not. */
  lemma SectorComesOutPlain(data: seq<Byte>, clear: bool, enc: CipherBlock -> CipherBlock, dec: CipherBlock -> CipherBlock,
                            t: nat, v: CipherBlock, plain: seq<Byte>)
    requires MapRead(data) && (t + 1) * 2048 <= |data| && |plain| == 2048
    requires forall b: CipherBlock :: dec(enc(b)) == b
    requires (forall i :: 0 <= i < 12 ==> v[i] == 0) && FromBE32(v[12..16]) == t
    requires Cleared(data, clear)[t * 2048..(t + 1) * 2048] == if Encrypted(data, t) then CbcEncrypt(enc, v, plain) else plain
    ensures ImageSector(data, clear, dec, t) == plain
  {
    hide CbcEncrypt, CbcDecrypt, Cleared, Encrypted, FromBE32, BE32;
    Bytes32(v[12..16]);
    assert v == v[..12] + v[12..16];
    assert v[..12] == Zeros(12);
    assert v == IvFor(t);
    CbcRoundTrip(enc, dec, v, plain);
  }

  /** Each block of a chain: what the cipher makes of it, combined bit by bit with the block
      before it or the vector. */
  lemma {:induction false} CbcBlockIs(dec: CipherBlock -> CipherBlock, iv: CipherBlock, c: seq<Byte>, j: nat)
    requires |c| % 16 == 0 && (j + 1) * 16 <= |c|
    ensures CbcDecrypt(dec, iv, c)[j * 16..(j + 1) * 16]
            == Xor(dec(c[j * 16..(j + 1) * 16]), if j == 0 then iv else c[(j - 1) * 16..j * 16])
    decreases j
  {
    hide CbcDecrypt, Xor;
    CbcUnfold(dec, iv, c);
    if j > 0 {
      var rest := c[16..];
      CbcBlockIs(dec, c[..16], rest, j - 1);
      var here := j * 16;
      BehindFirst(Xor(dec(c[..16]), iv), CbcDecrypt(dec, c[..16], rest), here);
      BehindFirst(c[..16], rest, here);
      assert c == c[..16] + rest;
      if j > 1 {
        BehindFirst(c[..16], rest, here - 16);
      }
    }
  }

  lemma BehindFirst(first: CipherBlock, rest: seq<Byte>, at: nat)
    requires 16 <= at <= |rest|
    ensures (first + rest)[at..at + 16] == rest[at - 16..at]
  {
  }

  lemma XorBits(a: CipherBlock, b: CipherBlock, i: nat, k: nat)
    requires i < 16 && k < 8
    ensures Xor(a, b)[i] / Pow2(k) % 2 == if a[i] / Pow2(k) % 2 == b[i] / Pow2(k) % 2 then 0 else 1
  {
    BitXorAt(8, a[i], b[i], k);
  }

  /** `after` is `before` with the marked sectors decrypted that the read reached. */
  ghost predicate Progress(before: seq<Byte>, after: seq<Byte>, start: nat, n: nat, dec: CipherBlock -> CipherBlock,
                           regions: seq<Region>, j: nat, i: int)
    requires j <= |regions|
  {
    && |before| == |after|
    && (forall t: nat :: Reached(start, n, |before|, t) ==>
          SectorIn(after, start, t) == if Marked(regions, j, i, t) then CbcDecrypt(dec, IvFor(t), SectorIn(before, start, t))
                                       else SectorIn(before, start, t))
    && forall q :: 0 <= q < |before| && !Reached(start, n, |before|, (start + q) / SECTOR_SIZE) ==> after[q] == before[q]
  }

  lemma ProgressStarts(before: seq<Byte>, start: nat, n: nat, dec: CipherBlock -> CipherBlock, regions: seq<Region>, i: int)
    requires regions == [] || i <= regions[0].start
    ensures Progress(before, before, start, n, dec, regions, 0, i)
  {
  }

  lemma SectorByte(start: nat, i: nat, q: nat)
    ensures i * SECTOR_SIZE - start <= q < (i + 1) * SECTOR_SIZE - start ==> (start + q) / SECTOR_SIZE == i
  {
  }

  lemma OtherSector(mid: seq<Byte>, after: seq<Byte>, start: nat, i: nat, t: nat)
    requires Whole(start, |mid|, t) && |after| == |mid| && t != i
    requires forall q :: 0 <= q < |mid| && !(i * SECTOR_SIZE - start <= q < (i + 1) * SECTOR_SIZE - start) ==> after[q] == mid[q]
    ensures SectorIn(after, start, t) == SectorIn(mid, start, t)
  {
    assert t < i ==> (t + 1) * SECTOR_SIZE <= i * SECTOR_SIZE;
    assert t > i ==> (i + 1) * SECTOR_SIZE <= t * SECTOR_SIZE;
  }

  /** One more sector. */
  lemma ProgressStep(before: seq<Byte>, mid: seq<Byte>, after: seq<Byte>, start: nat, n: nat, dec: CipherBlock -> CipherBlock,
                     regions: seq<Region>, j: nat, i: nat)
    requires j < |regions| && regions[j].start <= i < regions[j].end && !Held(regions, j, i)
    requires Progress(before, mid, start, n, dec, regions, j, i)
    requires Reached(start, n, |before|, i) && |after| == |before|
    requires SectorIn(after, start, i) == CbcDecrypt(dec, IvFor(i), SectorIn(mid, start, i))
    requires forall q :: 0 <= q < |before| && !(i * SECTOR_SIZE - start <= q < (i + 1) * SECTOR_SIZE - start) ==> after[q] == mid[q]
    ensures Progress(before, after, start, n, dec, regions, j, i + 1)
  {
    hide CbcDecrypt, IvFor, Held, SectorIn;
    forall q | 0 <= q < |before| && !Reached(start, n, |before|, (start + q) / SECTOR_SIZE) ensures after[q] == before[q] {
      SectorByte(start, i, q);
    }
    forall t: nat | Reached(start, n, |before|, t)
      ensures SectorIn(after, start, t) == if Marked(regions, j, i + 1, t) then CbcDecrypt(dec, IvFor(t), SectorIn(before, start, t))
                                           else SectorIn(before, start, t)
    {
      if t != i {
        OtherSector(mid, after, start, i, t);
      }
    }
  }

  /** On to the next region. */
  lemma ProgressNext(before: seq<Byte>, after: seq<Byte>, start: nat, n: nat, dec: CipherBlock -> CipherBlock,
                     regions: seq<Region>, j: nat, i: int, i': int)
    requires j < |regions| && Progress(before, after, start, n, dec, regions, j, i)
    requires forall t: nat :: Reached(start, n, |before|, t) && regions[j].start <= t < regions[j].end ==> t < i
    requires j + 1 < |regions| ==> i' <= regions[j + 1].start
    ensures Progress(before, after, start, n, dec, regions, j + 1, i')
  {
    hide CbcDecrypt, IvFor;
    forall t: nat | Reached(start, n, |before|, t) ensures Marked(regions, j, i, t) == Marked(regions, j + 1, i', t) {
      if Held(regions, j, t) {
        var k :| 0 <= k < j && regions[k].start <= t < regions[k].end;
        assert Held(regions, j + 1, t);
      }
    }
  }

  /** What becomes of a buffer with `n` bytes of the cleared file in front: each encrypted
      sector that begins among them is decrypted, together with what follows in the buffer
      if the sector goes on behind them, and nothing else changes. */
  ghost predicate Decrypted(data: seq<Byte>, dec: CipherBlock -> CipherBlock,
                            before: seq<Byte>, after: seq<Byte>, start: nat, n: nat)
    requires MapRead(data)
  {
    && |before| == |after|
    && (forall t: nat :: Reached(start, n, |before|, t) ==>
          SectorIn(after, start, t) == if Encrypted(data, t) then CbcDecrypt(dec, IvFor(t), SectorIn(before, start, t))
                                       else SectorIn(before, start, t))
    && forall q :: 0 <= q < |before| && !Reached(start, n, |before|, (start + q) / SECTOR_SIZE) ==> after[q] == before[q]
  }

  // ----- reading

  /** A plain file with its own position. */
  class PlainFile {
    const data: seq<Byte>
    var pos: nat

    constructor (data: seq<Byte>)
      ensures this.data == data && pos == 0
    {
      this.data, pos := data, 0;
    }

    method Read(b: array<Byte>) returns (n: nat, res: Outcome)
      modifies this, b
      ensures n == if Left(old(pos)) < b.Length then Left(old(pos)) else b.Length
      ensures res == if b.Length > 0 && old(pos) >= |data| then EndOfFile else Done
      ensures pos == old(pos) + n
      ensures n > 0 ==> old(pos) + n <= |data| && b[..n] == data[old(pos)..old(pos) + n]
      ensures b[n..] == old(b[n..])
    {
      n := if Left(pos) < b.Length then Left(pos) else b.Length;
      res := if b.Length > 0 && pos >= |data| then EndOfFile else Done;
      if n > 0 {
        CopyInto(b, 0, data[pos..pos + n]);
        assert b[..n] == data[pos..pos + n];
      }
      pos := pos + n;
    }

    /** How many bytes are left behind position `p`. */
    function Left(p: nat): nat {
      if p < |data| then |data| - p else 0
    }

    method Seek(position: int, whence: Whence) returns (newOffset: nat, res: Outcome)
      modifies this
      ensures var target := SeekPast(position, whence, old(pos), |data|);
        res == (if target.Some? then Done else Invalid) && (res == Done ==> pos == newOffset == target.value)
      ensures res != Done ==> pos == old(pos)
    {
      var target := SeekPast(position, whence, pos, |data|);
      if target.None? {
        return 0, Invalid;
      }
      pos := target.value;
      return pos, Done;
    }
  }

  /** Plain files may be positioned behind their end. */
  function SeekPast(position: int, whence: Whence, offset: nat, size: nat): Option<nat> {
    var target := match whence
      case SeekStart => position
      case SeekCurrent => position + offset
      case SeekEnd => size + position
      case OtherWhence => -1;
    if target >= 0 then Some(target) else None
  }

  lemma SeekPastLaws(position: int, offset: nat, size: nat)
    ensures SeekPast(position, SeekStart, offset, size) == if position >= 0 then Some(position) else None
    ensures SeekPast(position, SeekCurrent, offset, size) == SeekPast(offset + position, SeekStart, 0, size)
    ensures SeekPast(position, SeekEnd, offset, size) == SeekPast(size + position, SeekStart, 0, size)
  {
  }

  /** A read of `[s, e)` into a buffer that has room up to `room` would slice outside that
      buffer: at an encrypted sector that it begins in the middle of, unless that is the
      last of its region, or at one that it ends in the middle of and that the buffer has
      no room for, unless the whole read is inside the last sector of a region. */
  predicate Torn(data: seq<Byte>, s: nat, e: nat, room: nat)
    requires MapRead(data)
  {
    exists k :: 0 < k < Count(data) && TornBetween(data, k, s, e, room)
  }

  predicate TornBetween(data: seq<Byte>, k: nat, s: nat, e: nat, room: nat)
    requires MapRead(data) && 0 < k < Count(data)
  {
    || (s % SECTOR_SIZE != 0 && Between(data, k, s / SECTOR_SIZE) && Between(data, k, s / SECTOR_SIZE + 1))
    || (e % SECTOR_SIZE != 0 && Between(data, k, e / SECTOR_SIZE) && CeilSectors(s) < ClearStart(data, k)
        && room < (e / SECTOR_SIZE + 1) * SECTOR_SIZE)
  }

  class EncryptedISO {
    const file: PlainFile
    const clearRegions: bool
    const regionsHeaderSize: nat
    const encryptedRegions: seq<Region>
    const cbcDec: CbcMode
    var iv: CipherBlock
    var offset: nat

    ghost predicate Valid()
      reads this, file
    {
      && MapValid(file.data) && |file.data| < 0x8000_0000 * SECTOR_SIZE
      && encryptedRegions == RegionsOf(file.data)
      && regionsHeaderSize == MAP_HEADER_SIZE + MAP_ENTRY_SIZE * Count(file.data)
      && iv[..12] == Zeros(12)
      && offset == file.pos
    }

    constructor (file: PlainFile, dec: CipherBlock -> CipherBlock, clearRegions: bool, regions: seq<Region>)
      requires MapValid(file.data) && |file.data| < 0x8000_0000 * SECTOR_SIZE && regions == RegionsOf(file.data) && file.pos == 0
      ensures Valid() && this.file == file && this.clearRegions == clearRegions && cbcDec.dec == dec
      ensures fresh(cbcDec) && offset == 0
    {
      this.file, this.clearRegions, encryptedRegions := file, clearRegions, regions;
      regionsHeaderSize := MAP_HEADER_SIZE + MAP_ENTRY_SIZE * Count(file.data);
      iv, offset := Zeros(16), 0;
      cbcDec := new CbcMode(dec, Zeros(16));
    }

    method SetIVForSector(sector: nat)
      requires iv[..12] == Zeros(12)
      modifies this`iv, cbcDec
      ensures iv == IvFor(sector) && cbcDec.chain == iv && iv[..12] == Zeros(12)
      ensures sector < TWO_TO_THE_32 ==> FromBE32(iv[12..16]) == sector
    {
      RoundTrip32(sector);
      iv := iv[..12] + BE32(sector);
      cbcDec.SetIV(iv);
    }

    method DecryptSector(b: array<Byte>, start: nat, i: nat)
      requires Whole(start, b.Length, i) && iv[..12] == Zeros(12)
      modifies this`iv, cbcDec, b
      ensures iv[..12] == Zeros(12)
      ensures SectorIn(b[..], start, i) == CbcDecrypt(cbcDec.dec, IvFor(i), SectorIn(old(b[..]), start, i))
      ensures forall q :: 0 <= q < b.Length && !(i * SECTOR_SIZE - start <= q < (i + 1) * SECTOR_SIZE - start) ==> b[q] == old(b[q])
    {
      hide CbcDecrypt, IvFor;
      var lo, hi := i * SECTOR_SIZE - start, (i + 1) * SECTOR_SIZE - start;
      assert b[..][lo..hi] == b[lo..hi];
      SetIVForSector(i);
      cbcDec.CryptBlocks(b, lo, hi);
      assert b[..][lo..hi] == b[lo..hi];
    }

    /** Zero what has been read of the region map. */
    method ClearRegionsData(start: nat, b: array<Byte>, n: nat)
      requires Valid() && n <= b.Length && start + n <= |file.data| && b[..n] == file.data[start..start + n]
      modifies b
      ensures b[..n] == Cleared(file.data, clearRegions)[start..start + n]
      ensures b[n..] == old(b[n..])
    {
      hide MapValid, RegionsOf;
      MapIsRead(file.data);
      ghost var image, was := Cleared(file.data, clearRegions), b[..n];
      forall q | 0 <= q < n ensures was[q] == file.data[start + q] && image[start + q] == ClearedByte(file.data, clearRegions, start + q) {
        assert was[q] == file.data[start..start + n][q];
        ClearedAt(file.data, clearRegions, start + q);
      }
      if start >= regionsHeaderSize || !clearRegions {
        assert was == image[start..start + n];
        return;
      }
      var i := 0;
      while i < regionsHeaderSize - start && i < n
        invariant 0 <= i <= n && i <= regionsHeaderSize - start
        invariant forall q :: 0 <= q < i ==> b[q] == 0
        invariant forall q :: i <= q < n ==> b[q] == was[q]
        invariant b[n..] == old(b[n..])
      {
        b[i] := 0;
        i := i + 1;
      }
      assert b[..n] == image[start..start + n];
    }

    /** Reads at the current offset. The buffer ends up as `Decrypted` says, in what was
        read and in what the last sector takes from the buffer behind it. */
    method Read(b: array<Byte>) returns (n: nat, res: Outcome)
      requires Valid()
      modifies this`iv, this`offset, file, cbcDec, b
      ensures Valid() && MapRead(file.data)
      ensures offset == old(offset) + n
      ensures n == if file.Left(old(offset)) < b.Length then file.Left(old(offset)) else b.Length
      ensures res == if b.Length > 0 && n == 0 then EndOfFile
                     else if n > 0 && Torn(file.data, old(offset), offset, old(offset) + b.Length) then OutOfRange else Done
      ensures n > 0 ==> offset <= |file.data|
      ensures n > 0 && res == Done ==>
        Decrypted(file.data, cbcDec.dec, Cleared(file.data, clearRegions)[old(offset)..offset] + old(b[n..]),
                  b[..], old(offset), n)
      ensures n > 0 && res == Done ==> forall q :: 0 <= q < n && Whole(old(offset), n, (old(offset) + q) / SECTOR_SIZE) ==>
        b[q] == ImageByte(file.data, clearRegions, cbcDec.dec, old(offset) + q)
    {
      hide MapValid, RegionsOf, Torn, Cleared, ImageByte, Progress, Decrypted;
      RegionCount(file.data);
      var readStart := offset;
      n, res := file.Read(b);
      if res != Done || n == 0 {
        return;
      }
      offset := offset + n;
      ClearRegionsData(readStart, b, n);
      ghost var before := b[..];
      assert before == Cleared(file.data, clearRegions)[readStart..offset] + old(b[n..]) by {
        assert before == b[..n] + b[n..];
      }
      var ok := DecryptData(readStart, b, n);
      if !ok {
        return n, OutOfRange;
      }
      ProgressIsDecrypted(file.data, cbcDec.dec, before, b[..], readStart, n);
      forall q | 0 <= q < n && Whole(readStart, n, (readStart + q) / SECTOR_SIZE)
        ensures b[q] == ImageByte(file.data, clearRegions, cbcDec.dec, readStart + q)
      {
        DecryptedIsImage(file.data, clearRegions, cbcDec.dec, before, b[..], readStart, n, q);
        assert b[..][q] == b[q];
      }
    }

    method Seek(position: int, whence: Whence) returns (newOffset: nat, res: Outcome)
      requires Valid()
      modifies this`offset, file
      ensures Valid()
      ensures var target := SeekPast(position, whence, old(offset), |file.data|);
        res == (if target.Some? then Done else Invalid) && (res == Done ==> offset == newOffset == target.value)
      ensures res != Done ==> offset == old(offset)
    {
      newOffset, res := file.Seek(position, whence);
      if res == Done {
        offset := newOffset;
      }
    }

    /** The sectors of one region that a read covers. Not ok is the panic of a slice
        that leaves the buffer: slices are bounded by its capacity, not by what was read. */
    method DecryptRegion(j: nat, start: nat, b: array<Byte>, n: nat, ghost before: seq<Byte>) returns (ok: bool)
      requires MapValid(file.data) && encryptedRegions == RegionsOf(file.data) && j < |encryptedRegions|
      requires 0 < n <= b.Length && iv[..12] == Zeros(12) && |before| == b.Length
      requires Progress(before, b[..], start, n, cbcDec.dec, encryptedRegions, j, encryptedRegions[j].start)
      modifies this`iv, cbcDec, b
      ensures iv[..12] == Zeros(12)
      ensures ok <==> !TornBy(encryptedRegions[j], start, start + n, start + b.Length)
      ensures ok ==> Progress(before, b[..], start, n, cbcDec.dec, encryptedRegions, j + 1,
                              if j + 1 < |encryptedRegions| then encryptedRegions[j + 1].start else 0)
    {
      hide MapValid, RegionsOf, Progress, CbcDecrypt, IvFor, Held;
      var region, end := encryptedRegions[j], start + n;
      ghost var next := if j + 1 < |encryptedRegions| then encryptedRegions[j + 1].start else 0;
      if region.end <= CeilSectors(start) || region.start > CeilSectors(end) {
        ProgressNext(before, b[..], start, n, cbcDec.dec, encryptedRegions, j, region.start, next);
        return true;
      }
      var i := if region.start > FloorSectors(start) then region.start else FloorSectors(start);
      var endSector := if region.end < CeilSectors(end) then region.end else CeilSectors(end);
      ghost var startSector := i;
      ProgressMove(before, b[..], start, n, cbcDec.dec, encryptedRegions, j, region.start, i);
      while i < endSector
        invariant startSector <= i && (startSector <= endSector ==> i <= endSector)
        invariant iv[..12] == Zeros(12)
        invariant forall t :: startSector <= t < i ==> Reached(start, n, b.Length, t)
        invariant Progress(before, b[..], start, n, cbcDec.dec, encryptedRegions, j, i)
        decreases endSector - i
      {
        if i * SECTOR_SIZE < start || (i + 1) * SECTOR_SIZE > start + b.Length {
          return false;
        }
        ghost var mid := b[..];
        NotHeldBefore(file.data, j, i);
        DecryptSector(b, start, i);
        ProgressStep(before, mid, b[..], start, n, cbcDec.dec, encryptedRegions, j, i);
        i := i + 1;
      }
      assert start % SECTOR_SIZE != 0 ==> !Reached(start, n, b.Length, FloorSectors(start));
      assert start + b.Length < (FloorSectors(end) + 1) * SECTOR_SIZE ==> !Reached(start, n, b.Length, FloorSectors(end));
      ProgressNext(before, b[..], start, n, cbcDec.dec, encryptedRegions, j, i, next);
      ok := true;
    }

    method DecryptData(start: nat, b: array<Byte>, n: nat) returns (ok: bool)
      requires MapValid(file.data) && encryptedRegions == RegionsOf(file.data)
      requires 0 < n <= b.Length && iv[..12] == Zeros(12)
      modifies this`iv, cbcDec, b
      ensures iv[..12] == Zeros(12) && MapRead(file.data)
      ensures ok <==> !Torn(file.data, start, start + n, start + b.Length)
      ensures ok ==> Progress(old(b[..]), b[..], start, n, cbcDec.dec, encryptedRegions, |encryptedRegions|, 0)
    {
      hide MapValid, RegionsOf, Progress, Torn, TornBy;
      TornByRegion(file.data, start, start + n, start + b.Length);
      RegionCount(file.data);
      ghost var before, i := b[..], encryptedRegions[0].start;
      ProgressStarts(before, start, n, cbcDec.dec, encryptedRegions, i);
      for j := 0 to |encryptedRegions|
        invariant iv[..12] == Zeros(12)
        invariant i == if j < |encryptedRegions| then encryptedRegions[j].start else 0
        invariant Progress(before, b[..], start, n, cbcDec.dec, encryptedRegions, j, i)
        invariant forall k :: 0 <= k < j ==> !TornBy(encryptedRegions[k], start, start + n, start + b.Length)
      {
        ok := DecryptRegion(j, start, b, n, before);
        if !ok {
          return;
        }
        i := if j + 1 < |encryptedRegions| then encryptedRegions[j + 1].start else 0;
      }
      ok := true;
    }
  }

  // ----- runs of sector reads

  /** A client that goes to a sector and reads on from there, a chosen number of sectors at a
      time: the pieces make up the image, however they are cut and whatever was read before. */
  method ReadRun(iso: EncryptedISO, first: nat, counts: seq<nat>) returns (got: seq<Byte>)
    requires iso.Valid() && MapRead(iso.file.data)
    requires (first + Sum(counts)) * SECTOR_SIZE <= |iso.file.data|
    modifies iso`iv, iso`offset, iso.file, iso.cbcDec
    ensures iso.Valid() && |got| == Sum(counts) * SECTOR_SIZE
    ensures forall q :: 0 <= q < |got| ==>
      got[q] == ImageByte(iso.file.data, iso.clearRegions, iso.cbcDec.dec, first * SECTOR_SIZE + q)
  {
    hide ImageByte, Torn, Decrypted, MapRead, Cleared, EncryptedISO.Valid;
    var _, _ := iso.Seek(first * SECTOR_SIZE, SeekStart);
    got := [];
    for k := 0 to |counts|
      invariant iso.Valid()
      invariant (first + Sum(counts[..k])) * SECTOR_SIZE <= |iso.file.data|
      invariant |got| == Sum(counts[..k]) * SECTOR_SIZE && iso.offset == first * SECTOR_SIZE + |got|
      invariant forall q :: 0 <= q < |got| ==>
        got[q] == ImageByte(iso.file.data, iso.clearRegions, iso.cbcDec.dec, first * SECTOR_SIZE + q)
    {
      assert counts[..k + 1][..k] == counts[..k];
      SumPrefix(counts, k + 1);
      var piece := ReadPiece(iso, first + Sum(counts[..k]), counts[k]);
      got := got + piece;
    }
    assert counts[..|counts|] == counts;
  }

  /** One read of whole sectors. */
  method ReadPiece(iso: EncryptedISO, first: nat, count: nat) returns (piece: seq<Byte>)
    requires iso.Valid() && MapRead(iso.file.data) && iso.offset == first * SECTOR_SIZE
    requires (first + count) * SECTOR_SIZE <= |iso.file.data|
    modifies iso`iv, iso`offset, iso.file, iso.cbcDec
    ensures iso.Valid() && iso.offset == (first + count) * SECTOR_SIZE
    ensures |piece| == count * SECTOR_SIZE
    ensures forall q :: 0 <= q < |piece| ==>
      piece[q] == ImageByte(iso.file.data, iso.clearRegions, iso.cbcDec.dec, first * SECTOR_SIZE + q)
  {
    hide ImageByte, Torn, Decrypted, MapRead, Cleared, MapValid, RegionsOf;
    ghost var s, e := first * SECTOR_SIZE, (first + count) * SECTOR_SIZE;
    if count > 0 {
      AlignedIsWhole(iso.file.data, s, e, e, 0);
    }
    var b := new Byte[count * SECTOR_SIZE];
    var n, res := iso.Read(b);
    assert n == e - s && res == Done;
    piece := b[..];
    forall q | 0 <= q < n ensures piece[q] == ImageByte(iso.file.data, iso.clearRegions, iso.cbcDec.dec, s + q) {
      AlignedIsWhole(iso.file.data, s, e, e, q);
    }
  }

  /** Region `r` cuts a read of `[s, e)` into a buffer with room up to `room`. */
  predicate TornBy(r: Region, s: nat, e: nat, room: nat) {
    || (s % SECTOR_SIZE != 0 && r.start <= s / SECTOR_SIZE && s / SECTOR_SIZE + 1 < r.end)
    || (e % SECTOR_SIZE != 0 && r.start <= e / SECTOR_SIZE < r.end && CeilSectors(s) < r.end
        && room < (e / SECTOR_SIZE + 1) * SECTOR_SIZE)
  }

  lemma TornByRegion(data: seq<Byte>, s: nat, e: nat, room: nat)
    requires MapValid(data)
    ensures MapRead(data)
    ensures Torn(data, s, e, room) <==> exists j :: 0 <= j < |RegionsOf(data)| && TornBy(RegionsOf(data)[j], s, e, room)
  {
    hide ClearStart, ClearEnd, MapValid, RegionsOf, TornBetween, TornBy;
    RegionCount(data);
    var n, rs := Count(data) - 1, RegionsOf(data);
    if Torn(data, s, e, room) {
      var k :| 0 < k < Count(data) && TornBetween(data, k, s, e, room);
      var j := k - 1 + n;
      RegionTears(data, j, s, e, room);
      assert TornBy(rs[j], s, e, room);
    }
    if j :| 0 <= j < |rs| && TornBy(rs[j], s, e, room) {
      RegionTears(data, j, s, e, room);
    }
  }

  lemma RegionTears(data: seq<Byte>, j: nat, s: nat, e: nat, room: nat)
    requires MapValid(data) && j < |RegionsOf(data)|
    ensures |RegionsOf(data)| == 2 * (Count(data) - 1)
    ensures var n := Count(data) - 1; TornBy(RegionsOf(data)[j], s, e, room) <==> (j >= n && TornBetween(data, j - n + 1, s, e, room))
  {
    hide ClearStart, ClearEnd, CeilSectors;
    var n := Count(data) - 1;
    RegionHolds(data, j, s / SECTOR_SIZE);
    RegionHolds(data, j, s / SECTOR_SIZE + 1);
    RegionHolds(data, j, e / SECTOR_SIZE);
    if j >= n {
      assert MapEntryValid(data, j - n + 1);
    }
  }

  /** A region does not hold what an earlier region of the list holds. */
  lemma NotHeldBefore(data: seq<Byte>, j: nat, t: nat)
    requires MapValid(data) && j < |RegionsOf(data)|
    requires RegionsOf(data)[j].start <= t < RegionsOf(data)[j].end
    ensures !Held(RegionsOf(data), j, t)
  {
    hide MapValid, RegionsOf, Between, ClearStart, ClearEnd;
    RegionCount(data);
    RegionHolds(data, j, t);
    var n := Count(data) - 1;
    forall k | 0 <= k < j && RegionsOf(data)[k].start <= t < RegionsOf(data)[k].end ensures false {
      RegionHolds(data, k, t);
      BetweenOnce(data, j - n + 1, k - n + 1, t);
    }
  }

  lemma ProgressMove(before: seq<Byte>, after: seq<Byte>, start: nat, n: nat, dec: CipherBlock -> CipherBlock,
                     regions: seq<Region>, j: nat, i: int, i': int)
    requires j < |regions| && Progress(before, after, start, n, dec, regions, j, i)
    requires forall t: nat :: Reached(start, n, |before|, t) && regions[j].start <= t < regions[j].end ==> (t < i <==> t < i')
    ensures Progress(before, after, start, n, dec, regions, j, i')
  {
    hide CbcDecrypt, IvFor, Held;
    forall t: nat | Reached(start, n, |before|, t) ensures Marked(regions, j, i, t) == Marked(regions, j, i', t) {
    }
  }

  /** Once all regions are done, exactly the encrypted sectors are decrypted. */
  lemma ProgressIsDecrypted(data: seq<Byte>, dec: CipherBlock -> CipherBlock,
                            before: seq<Byte>, after: seq<Byte>, start: nat, n: nat)
    requires MapValid(data) && MapRead(data) && Count(data) >= 2
    requires Progress(before, after, start, n, dec, RegionsOf(data), |RegionsOf(data)|, 0)
    ensures Decrypted(data, dec, before, after, start, n)
  {
    hide MapValid, MapRead, RegionsOf, CbcDecrypt, IvFor, Encrypted, Held;
    forall t: nat | Reached(start, n, |before|, t)
      ensures Marked(RegionsOf(data), |RegionsOf(data)|, 0, t) == Encrypted(data, t)
    {
      HeldByRegion(data, t);
      HeldIs(RegionsOf(data), t);
    }
  }

  /** Sector `t` of a buffer with a part of `image` in front. */
  lemma SectorOfPart(image: seq<Byte>, buf: seq<Byte>, start: nat, n: nat, t: nat)
    requires n <= |buf| && start + n <= |image| && buf[..n] == image[start..start + n]
    requires Whole(start, n, t)
    ensures SectorIn(buf, start, t) == SectorIn(image, 0, t)
  {
    var lo, hi := t * SECTOR_SIZE - start, (t + 1) * SECTOR_SIZE - start;
    SliceOfSlice(image, start, start + n, lo, hi);
    SliceOfSlice(buf, 0, n, lo, hi);
    assert buf[0..n] == buf[..n];
  }

  lemma ByteOfSector(buf: seq<Byte>, start: nat, q: nat)
    requires q < |buf| && Whole(start, |buf|, (start + q) / SECTOR_SIZE)
    ensures buf[q] == SectorIn(buf, start, (start + q) / SECTOR_SIZE)[(start + q) % SECTOR_SIZE]
  {
    DivMod(start + q, SECTOR_SIZE);
  }

  /** A sector that was read whole agrees with the image. */
  lemma DecryptedIsImage(data: seq<Byte>, clear: bool, dec: CipherBlock -> CipherBlock,
                         before: seq<Byte>, after: seq<Byte>, start: nat, n: nat, q: nat)
    requires MapRead(data) && n <= |before|
    requires start + n <= |data| && before[..n] == Cleared(data, clear)[start..start + n]
    requires Decrypted(data, dec, before, after, start, n)
    requires q < n && Whole(start, n, (start + q) / SECTOR_SIZE)
    ensures |after| == |before| && after[q] == ImageByte(data, clear, dec, start + q)
  {
    hide MapRead, CbcDecrypt, IvFor, Encrypted, Cleared, SectorIn;
    var t := (start + q) / SECTOR_SIZE;
    SectorOfPart(Cleared(data, clear), before, start, n, t);
    ByteOfSector(after, start, q);
  }

  // ----- the last sector of a file that ends inside it

  /** The chaining value behind the ciphertext `c`. */
  function ChainAfter(iv: CipherBlock, c: seq<Byte>): CipherBlock
    requires |c| % BLOCK == 0
  {
    if c == [] then iv else c[|c| - BLOCK..]
  }

  /** Decryption goes on behind `a` with nothing but the last block of `a`. */
  lemma {:induction false} CbcConcat(dec: CipherBlock -> CipherBlock, iv: CipherBlock, a: seq<Byte>, b: seq<Byte>)
    requires |a| % BLOCK == 0 && |b| % BLOCK == 0
    ensures CbcDecrypt(dec, iv, a + b) == CbcDecrypt(dec, iv, a) + CbcDecrypt(dec, ChainAfter(iv, a), b)
    decreases |a|
  {
    hide CbcDecrypt, ChainAfter, Xor;
    ChainStep(iv, a);
    if a == [] {
      assert a + b == b;
      CbcEmpty(dec, iv);
    } else {
      CbcConcat(dec, a[..BLOCK], a[BLOCK..], b);
      assert (a + b)[..BLOCK] == a[..BLOCK] && (a + b)[BLOCK..] == a[BLOCK..] + b;
      CbcUnfold(dec, iv, a);
      CbcUnfold(dec, iv, a + b);
    }
  }

  lemma ChainStep(iv: CipherBlock, a: seq<Byte>)
    requires |a| % BLOCK == 0
    ensures ChainAfter(iv, a) == if a == [] then iv else ChainAfter(a[..BLOCK], a[BLOCK..])
  {
  }

  /** How many bytes of whole cipher blocks are among `n` bytes. */
  function WholeBlocks(n: nat): (m: nat)
    ensures m % BLOCK == 0 && m <= n < m + BLOCK
  {
    n / BLOCK * BLOCK
  }

  lemma CbcSplit(dec: CipherBlock -> CipherBlock, iv: CipherBlock, c: seq<Byte>, p: seq<Byte>, m: nat)
    requires |c| % BLOCK == 0 && m % BLOCK == 0 && m <= |c|
    requires p == CbcDecrypt(dec, iv, c)
    ensures p[..m] == CbcDecrypt(dec, iv, c[..m])
    ensures (|c| - m) % BLOCK == 0 && p[m..] == CbcDecrypt(dec, ChainAfter(iv, c[..m]), c[m..])
  {
    hide CbcDecrypt, ChainAfter;
    CbcConcat(dec, iv, c[..m], c[m..]);
    assert c == c[..m] + c[m..];
  }

  /** An encrypted sector that the file or the read ends in, in a buffer with room for all of
      it: the whole cipher blocks that were read come out right, and the incomplete one is
      decrypted together with what the buffer held behind it. */
  lemma PartlyRead(data: seq<Byte>, dec: CipherBlock -> CipherBlock, before: seq<Byte>, after: seq<Byte>, start: nat, n: nat, t: nat)
    requires MapRead(data) && Encrypted(data, t)
    requires n <= |before| && Decrypted(data, dec, before, after, start, n)
    requires Reached(start, n, |before|, t) && start + n < (t + 1) * SECTOR_SIZE
    ensures |after| == |before|
    ensures var c, p, m := SectorIn(before, start, t), SectorIn(after, start, t), WholeBlocks(start + n - t * SECTOR_SIZE);
      && m <= |c| && p[..m] == CbcDecrypt(dec, IvFor(t), c[..m])
      && (|c| - m) % BLOCK == 0 && p[m..] == CbcDecrypt(dec, ChainAfter(IvFor(t), c[..m]), c[m..])
  {
    hide MapRead, CbcDecrypt, IvFor, Encrypted, SectorIn, ChainAfter, WholeBlocks;
    CbcSplit(dec, IvFor(t), SectorIn(before, start, t), SectorIn(after, start, t), WholeBlocks(start + n - t * SECTOR_SIZE));
  }

  /** Three sectors and 100 bytes, of which the map leaves sectors 1 to 9 encrypted. */
  function ShortDisc(): (data: seq<Byte>)
    ensures |data| == 3 * SECTOR_SIZE + 100
  {
    [0, 0, 0, 2, 0, 0, 0, 0, 0, 0, 0, 0, 0, 0, 0, 1, 0, 0, 0, 10, 0, 0, 0, 11] + Zeros(3 * SECTOR_SIZE + 76)
  }

  lemma ShortDiscWords()
    ensures MapRead(ShortDisc()) && Count(ShortDisc()) == 2
    ensures ClearStart(ShortDisc(), 0) == 0 && ClearEnd(ShortDisc(), 0) == 1
    ensures ClearStart(ShortDisc(), 1) == 10 && ClearEnd(ShortDisc(), 1) == 11
  {
    var table: seq<Byte> := [0, 0, 0, 2, 0, 0, 0, 0, 0, 0, 0, 0, 0, 0, 0, 1, 0, 0, 0, 10, 0, 0, 0, 11];
    var rest := Zeros(3 * SECTOR_SIZE + 76);
    hide Zeros;
    InFront(table, rest, 0, 4);
    InFront(table, rest, 8, 12);
    InFront(table, rest, 12, 16);
    InFront(table, rest, 16, 20);
    InFront(table, rest, 20, 24);
    assert table[0..4] == [0, 0, 0, 2] && table[8..12] == [0, 0, 0, 0] && table[12..16] == [0, 0, 0, 1];
    assert table[16..20] == [0, 0, 0, 10] && table[20..24] == [0, 0, 0, 11];
  }

  lemma InFront(a: seq<Byte>, b: seq<Byte>, i: nat, j: nat)
    requires i <= j <= |a|
    ensures (a + b)[i..j] == a[i..j]
  {
  }

  lemma ShortDiscMap()
    ensures MapValid(ShortDisc()) && MapRead(ShortDisc()) && Count(ShortDisc()) == 2
    ensures forall t: nat :: Encrypted(ShortDisc(), t) <==> Between(ShortDisc(), 1, t)
    ensures forall t: nat :: Between(ShortDisc(), 1, t) <==> 1 <= t < 10
    ensures ClearStart(ShortDisc(), 1) == 10
  {
    ShortDiscWords();
    hide ShortDisc, ClearStart, ClearEnd, MapRead, Count;
    assert MapEntryValid(ShortDisc(), 0) && MapEntryValid(ShortDisc(), 1);
  }

  /** A read of that disc from sector 1 on gets 4196 bytes. It panics when the buffer has
      room for no more than these, and does not when there is room for four sectors. */
  lemma ShortReadExample()
    ensures MapRead(ShortDisc())
    ensures Torn(ShortDisc(), SECTOR_SIZE, |ShortDisc()|, |ShortDisc()|)
    ensures !Torn(ShortDisc(), SECTOR_SIZE, |ShortDisc()|, 5 * SECTOR_SIZE)
  {
    ShortDiscMap();
    hide ShortDisc, MapRead, MapValid, Between, ClearStart;
    assert TornBetween(ShortDisc(), 1, SECTOR_SIZE, |ShortDisc()|, |ShortDisc()|);
  }

  function Reversed(b: CipherBlock): CipherBlock {
    seq(16, i requires 0 <= i < 16 => b[15 - i])
  }

  /** What that read delivers depends on what the buffer held before: with a cipher that
      reverses blocks, byte 4192 of two such reads differs. */
  lemma StaleBytesShow(stale: seq<Byte>, stale': seq<Byte>, after: seq<Byte>, after': seq<Byte>)
    requires MapRead(ShortDisc())
    requires |stale| == |stale'| == 4 * SECTOR_SIZE - 4196 && stale[11] != stale'[11]
    requires Decrypted(ShortDisc(), Reversed, ShortDisc()[SECTOR_SIZE..] + stale, after, SECTOR_SIZE, 4196)
    requires Decrypted(ShortDisc(), Reversed, ShortDisc()[SECTOR_SIZE..] + stale', after', SECTOR_SIZE, 4196)
    ensures after[4192] != after'[4192]
  {
    ShortDiscMap();
    hide Decrypted, ShortDisc, MapRead, Encrypted;
    LastBlockOf(ShortDisc()[SECTOR_SIZE..], stale, after);
    LastBlockOf(ShortDisc()[SECTOR_SIZE..], stale', after');
    var before := ShortDisc()[SECTOR_SIZE..][4176];
    BytePowers();
    BitXorCancels(8, stale[11], before);
    BitXorCancels(8, stale'[11], before);
  }

  lemma LastBlockOf(front: seq<Byte>, stale: seq<Byte>, after: seq<Byte>)
    requires MapRead(ShortDisc()) && Encrypted(ShortDisc(), 3)
    requires |front| == 4196 && |stale| == 4 * SECTOR_SIZE - 4196
    requires Decrypted(ShortDisc(), Reversed, front + stale, after, SECTOR_SIZE, 4196)
    ensures |after| == 4 * SECTOR_SIZE
    ensures after[4192] == XorByte(stale[11], front[4176])
  {
    hide Decrypted, ShortDisc, MapRead, Encrypted, IvFor, ChainAfter, CbcDecrypt;
    var before := front + stale;
    PartlyRead(ShortDisc(), Reversed, before, after, SECTOR_SIZE, 4196, 3);
    assert WholeBlocks(100) == 96;
    var c, p := SectorIn(before, SECTOR_SIZE, 3), SectorIn(after, SECTOR_SIZE, 3);
    var chain := ChainAfter(IvFor(3), c[..96]);
    ChainIs(IvFor(3), c[..96]);
    assert chain[0] == c[80] == front[4176];
    CbcUnfold(Reversed, chain, c[96..]);
    assert p[96..][0] == p[96] == after[4192];
    assert c[96..][..BLOCK][15] == c[111] == before[4207] == stale[11];
  }

  lemma ChainIs(iv: CipherBlock, c: seq<Byte>)
    requires |c| % BLOCK == 0 && |c| > 0
    ensures ChainAfter(iv, c)[0] == c[|c| - BLOCK]
  {
  }

  lemma HeldIs(regions: seq<Region>, t: nat)
    ensures Held(regions, |regions|, t) <==> exists j :: 0 <= j < |regions| && regions[j].start <= t < regions[j].end
  {
  }

  /** Sector by sector no encrypted sector is cut, and every sector is whole: all such
      reads return slices of one image, wherever they begin and end. */
  lemma AlignedIsWhole(data: seq<Byte>, s: nat, e: nat, room: nat, q: nat)
    requires MapRead(data) && s % SECTOR_SIZE == 0 && e % SECTOR_SIZE == 0
    requires s + q < e
    ensures !Torn(data, s, e, room) && Whole(s, e - s, (s + q) / SECTOR_SIZE)
  {
    hide Between;
  }

  lemma MapIsRead(data: seq<Byte>)
    requires MapValid(data)
    ensures MapRead(data)
  {
  }
}
