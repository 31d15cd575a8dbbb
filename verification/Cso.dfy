/** Compressed images (CSO versions 1 and 2, ZSO): an index of block positions, blocks
    that are decompressed inside the caller's buffer, and one cached block. */
module Cso {
  import opened Wrappers
  import opened Arithmetic
  import opened Bytes
  import opened Bits
  import opened Blocks
  import opened Files

  const HEADER_SIZE: nat := 24
  const ADVISED_HEADER_SIZE: nat := 0x18
  const MAX_INDEX_ENTRIES: nat := 257
  const TWO_TO_THE_31: nat := 0x8000_0000
  const TWO_TO_THE_64: nat := 0x1_0000_0000_0000_0000

  /** "CISO" and "ZISO" */
  const CISO: seq<Byte> := [0x43, 0x49, 0x53, 0x4F]
  const ZISO: seq<Byte> := [0x5A, 0x49, 0x53, 0x4F]

  datatype Codec = Raw | Flate | Lz4

  datatype Variant = CsoV1 | CsoV2 | Zso | Unknown

  datatype Header = Header(magic: seq<Byte>, headerSize: nat, uncompressedSize: nat, blockSize: nat, version: Byte, indexShift: Byte) {
    /** `BlocksCount` */
    function Blocks(): nat
      requires blockSize > 0
    {
      uncompressedSize / blockSize + if uncompressedSize % blockSize > 0 then 1 else 0
    }

    function Variant(): Variant {
      if magic == CISO && version == 1 then CsoV1
      else if magic == CISO && version == 2 then CsoV2
      else if magic == ZISO && version == 1 then Zso
      else Unknown
    }

    /** `NewFile` takes this header. */
    predicate Accepted() {
      match Variant()
      case CsoV1 => true
      case CsoV2 => headerSize == ADVISED_HEADER_SIZE
      case Zso => headerSize == ADVISED_HEADER_SIZE
      case Unknown => false
    }
  }

  /** `ReadHeader` */
  function HeaderIn(data: seq<Byte>): Header
    requires |data| >= HEADER_SIZE
  {
    Header(data[0..4], FromLE32(data[4..8]), FromLE32(data[8..12]) + TWO_TO_THE_32 * FromLE32(data[12..16]),
           FromLE32(data[16..20]), data[20], data[21])
  }

  /** What a codec makes of some bytes, given the size of its output buffer. */
  type Decompressor = (seq<Byte>, nat) -> Option<seq<Byte>>

  /** The compressed file and the two foreign codecs. */
  datatype Source = Source(data: seq<Byte>, hdr: Header, flate: Decompressor, lz4: Decompressor) {

    /** The header makes sense and the index is all there. */
    predicate Indexed() {
      hdr.Accepted() && hdr.blockSize > 0 && HEADER_SIZE + 4 * (hdr.Blocks() + 1) <= |data|
    }

    /** The `n`-th index entry on disk. */
    function Entry(n: nat): nat
      requires Indexed() && n <= hdr.Blocks()
    {
      FromLE32(data[HEADER_SIZE + 4 * n..HEADER_SIZE + 4 * n + 4])
    }

    function TopBit(n: nat): bool
      requires Indexed() && n <= hdr.Blocks()
    {
      Entry(n) >= TWO_TO_THE_31
    }

    /** The position of block `n`; shifting drops what leaves 64 bits. */
    function At(n: nat): nat
      requires Indexed() && n <= hdr.Blocks()
    {
      Entry(n) % TWO_TO_THE_31 * Pow2(hdr.indexShift) % TWO_TO_THE_64
    }

    /** The codec of block `n`. */
    function CodecOf(n: nat): Codec
      requires Indexed() && n < hdr.Blocks()
    {
      match hdr.Variant()
      case CsoV1 => if TopBit(n) then Raw else Flate
      case CsoV2 => if At(n + 1) - At(n) >= hdr.blockSize then Raw else if TopBit(n) then Lz4 else Flate
      case _ => if TopBit(n) then Raw else Lz4
    }

    /** The bytes of block `n` in the file. */
    function Stored(n: nat): seq<Byte>
      requires Indexed() && n < hdr.Blocks() && At(n) <= At(n + 1) <= |data|
    {
      data[At(n)..At(n + 1)]
    }

    function Run(codec: Codec, src: seq<Byte>): Option<seq<Byte>> {
      match codec
      case Raw => Some(src[..if |src| < hdr.blockSize then |src| else hdr.blockSize])
      case Flate => flate(src, hdr.blockSize)
      case Lz4 => lz4(src, hdr.blockSize)
    }

    /** Positions increase by at most the block size and stay in the file, and every block
        but the last decompresses to a whole block. The last may be shorter, or fail. */
    ghost predicate Sound() {
      && Indexed()
      && (forall n :: 0 <= n < hdr.Blocks() ==> 0 < At(n + 1) - At(n) <= hdr.blockSize)
      && (forall n :: 0 <= n <= hdr.Blocks() ==> At(n) <= |data|)
      && forall n :: 0 <= n < hdr.Blocks() ==>
           var d := Run(CodecOf(n), Stored(n));
           if n + 1 < hdr.Blocks() then d.Some? && |d.value| == hdr.blockSize else d.Some? ==> |d.value| <= hdr.blockSize
    }

    /** Block `n` can be decompressed. */
    ghost predicate Opens(n: nat)
      requires Sound() && n < hdr.Blocks()
      ensures n + 1 < hdr.Blocks() ==> Opens(n)
    {
      Run(CodecOf(n), Stored(n)).Some?
    }

    /** Block `n`, decompressed. */
    ghost function Block(n: nat): (b: seq<Byte>)
      requires Sound() && n < hdr.Blocks()
      ensures |b| <= hdr.blockSize
      ensures n + 1 < hdr.Blocks() ==> |b| == hdr.blockSize
    {
      var d := Run(CodecOf(n), Stored(n));
      if d.Some? then d.value else []
    }

    /** All blocks in front of `end` can be decompressed. */
    ghost predicate AllOpen(end: nat)
      requires Sound() && 0 < end <= hdr.Blocks()
    {
      Opens(end - 1)
    }

    /** And they are whole blocks. */
    ghost predicate AllWhole(end: nat)
      requires Sound() && 0 < end <= hdr.Blocks()
    {
      Opens(end - 1) && |Block(end - 1)| == hdr.blockSize
    }

    ghost function AllBlocks(): (bs: seq<seq<Byte>>)
      requires Sound()
      ensures |bs| == hdr.Blocks() && NearlyUniform(bs, hdr.blockSize)
      ensures forall n :: 0 <= n < hdr.Blocks() ==> bs[n] == Block(n)
    {
      seq(hdr.Blocks(), n requires 0 <= n < hdr.Blocks() => Block(n))
    }

    /** The image: all blocks one after another. */
    ghost function Image(): seq<Byte>
      requires Sound()
    {
      Flatten(AllBlocks())
    }

    lemma BlockInImage(n: nat)
      requires Sound() && n < hdr.Blocks()
      ensures 0 <= n * hdr.blockSize && n * hdr.blockSize + |Block(n)| <= |Image()|
      ensures n + 1 == hdr.Blocks() ==> n * hdr.blockSize + |Block(n)| == |Image()|
      ensures Image()[n * hdr.blockSize..n * hdr.blockSize + |Block(n)|] == Block(n)
    {
      hide Sound, Flatten, Block, Header.Blocks;
      NearlyUniformBlock(AllBlocks(), hdr.blockSize, n);
    }

    /** How decompressing `count` blocks from `start` on into a buffer of `len` bytes ends.
        Less than a block must be no less than the compressed size. More must be those
        blocks exactly; behind a last block that is too short the code looks for another. */
    ghost function BlocksOutcome(start: nat, count: nat, len: int): Outcome
      requires Sound() && count > 0 && start + count <= hdr.Blocks()
    {
      if len < hdr.blockSize then
        if At(start + 1) - At(start) > len then OutOfRange
        else if Opens(start) then Done else Failed
      else if !AllOpen(start + count) then Failed
      else if count * hdr.blockSize == len && AllWhole(start + count) then Done
      else OutOfRange
    }

    /** How a read of `len` bytes from position `pos` of block `start` ends; `cached`
        tells whether that block is the cached one. From the beginning of a block one may
        ask for nothing, for less than a block but no less than its compressed size, or
        for whole blocks of the image, of which the last must not be short. From inside a
        block one may ask for less than two blocks, or for more if it is the last block,
        but not for nothing; and a block that is not cached yet must have a whole block's
        worth of bytes behind its position in the file. A last block that cannot be
        decompressed fails where it is reached. */
    ghost function ReadOutcome(start: nat, pos: nat, len: nat, cached: bool): Outcome
      requires Sound() && start < hdr.Blocks()
    {
      var count, last := len / hdr.blockSize, hdr.Blocks() - 1;
      if pos == 0 then
        if len == 0 then Done
        else if len < hdr.blockSize then
          if At(start + 1) - At(start) > len then OutOfRange
          else if Opens(start) then Done else Failed
        else if start + count > last && !Opens(last) then Failed
        else if len % hdr.blockSize == 0 && start + count <= last + 1
                && (start + count > last ==> |Block(last)| == hdr.blockSize) then Done
        else OutOfRange
      else if !cached && (At(start) + hdr.blockSize > |data| || !Opens(start)) then Failed
      else if 0 < len && (len < 2 * hdr.blockSize || start == last) then Done
      else if len > 0 && start + count > last && !Opens(last) then Failed
      else OutOfRange
    }

    /** How much a successful read delivers: from inside a block, never more than the
        rest of that block. */
    function Delivered(pos: nat, len: nat): (n: nat)
      requires pos < hdr.blockSize
      ensures n <= len
    {
      if pos == 0 || len < hdr.blockSize - pos then len else hdr.blockSize - pos
    }

    /** The length of `n` blocks. */
    function Span(n: int): int {
      n * hdr.blockSize
    }

    lemma SpanArithmetic(i: nat, start: nat, end: nat)
      requires start <= i <= end && hdr.blockSize > 0
      ensures i < end ==> Span(end - i) == Span(end - (i + 1)) + hdr.blockSize >= hdr.blockSize
      ensures Span(i + 1 - start) == Span(i - start) + hdr.blockSize
      ensures Span(end - i) + Span(i - start) == Span(end - start)
      ensures i == end <==> Span(end - i) == 0
      ensures Span(i - start) >= 0 && Span(0) == 0 && Span(1) == hdr.blockSize
    {
      LoopArithmetic(i, start, end, hdr.blockSize);
    }

    lemma BlockStart(n: nat)
      requires Sound() && n < hdr.Blocks()
      ensures 0 <= n * hdr.blockSize <= |Image()|
      ensures Span(n) == n * hdr.blockSize
    {
      hide Sound, Block, Flatten, Header.Blocks;
      BlockInImage(n);
    }

    /** A part that ends where block `i` begins goes on with a prefix of that block. */
    lemma ExtendByBlock(start: nat, i: nat, part: seq<Byte>, len: nat)
      requires Sound() && start <= i < hdr.Blocks() && len <= |Block(i)|
      requires |part| == (i - start) * hdr.blockSize
      requires HasAt(Image(), start * hdr.blockSize, part)
      ensures HasAt(Image(), start * hdr.blockSize, part + Block(i)[..len])
    {
      hide Sound, Block, HasAt, Flatten, Header.Blocks;
      MulSplit(start, i, hdr.blockSize);
      assert AllBlocks()[i] == Block(i);
      PieceAt(AllBlocks(), hdr.blockSize, i, 0, len);
      ExtendAt(Image(), start * hdr.blockSize, part, Block(i)[0..len]);
    }

    /** The blocks from `i` up to `j` lie compressed at the end of the buffer, from `c` on. */
    ghost predicate HoldsStored(buf: seq<Byte>, c: int, i: nat, j: nat)
      requires Indexed() && i <= j <= hdr.Blocks()
    {
      && At(i) <= At(j) <= |data|
      && 0 <= c == |buf| - (At(j) - At(i)) <= |buf|
      && buf[c..] == data[At(i)..At(j)]
    }

    lemma NextStored(buf: seq<Byte>, c: int, i: nat, j: nat)
      requires Sound() && i < j <= hdr.Blocks() && HoldsStored(buf, c, i, j)
      ensures At(i) <= At(i + 1) <= At(j) && HoldsStored(buf, c + At(i + 1) - At(i), i + 1, j)
    {
      hide At, Header.Blocks;
      SoundStep(i);
      StoredIsSmaller(i + 1, j);
      var d := At(i + 1) - At(i);
      assert buf[c + d..] == buf[c..][d..] == data[At(i)..At(j)][d..] == data[At(i + 1)..At(j)];
    }

    /** Only when every block is consumed is there not enough for the next one. */
    lemma Exhausted(buf: seq<Byte>, c: int, i: nat, j: nat)
      requires Sound() && i <= j <= hdr.Blocks() && i < hdr.Blocks() && HoldsStored(buf, c, i, j)
      ensures 0 <= c <= |buf|
      ensures c + (At(i + 1) - At(i)) > |buf| <==> i == j
    {
      hide At, Header.Blocks;
      SoundStep(i);
      if i < j {
        StoredIsSmaller(i + 1, j);
      }
    }

    lemma SoundStep(i: nat)
      requires Sound() && i < hdr.Blocks()
      ensures hdr.blockSize > 0 && 0 < At(i + 1) - At(i) <= hdr.blockSize && At(i + 1) <= |data|
    {
    }

    /** Compressed blocks are together never larger than decompressed. */
    lemma {:induction false} StoredIsSmaller(i: nat, j: nat)
      requires Sound() && i <= j <= hdr.Blocks()
      ensures 0 <= At(j) - At(i) <= (j - i) * hdr.blockSize
      ensures i < j ==> At(i) < At(j)
      decreases j - i
    {
      if i < j {
        StoredIsSmaller(i + 1, j);
        assert (j - i) * hdr.blockSize == (j - (i + 1)) * hdr.blockSize + hdr.blockSize;
      }
    }
  }

  /** `NewFile`: the header at the beginning of a file decides whether it is taken. */
  method OpenSource(data: seq<Byte>, flate: Decompressor, lz4: Decompressor) returns (src: Option<Source>)
    ensures src.Some? <==>
      && |data| >= 24
      && ((data[0..4] == [0x43, 0x49, 0x53, 0x4F] && (data[20] == 1 || (data[20] == 2 && FromLE32(data[4..8]) == 24)))
          || (data[0..4] == [0x5A, 0x49, 0x53, 0x4F] && data[20] == 1 && FromLE32(data[4..8]) == 24))
    ensures src.Some? ==> src.value == Source(data, HeaderIn(data), flate, lz4)
  {
    hide FromLE32;
    if |data| < HEADER_SIZE {
      return None;
    }
    var hdr := HeaderIn(data);
    assert CISO != ZISO by { assert CISO[0] != ZISO[0]; }
    if !hdr.Accepted() {
      return None;
    }
    return Some(Source(data, hdr, flate, lz4));
  }

  // ----- the index

  /** Keeps a window of index entries in memory and moves it on demand. */
  class IndexEntryCache {
    const src: Source
    var startEntryNum: int
    var entries: seq<Byte>

    /** The window is the part of the index that starts at `startEntryNum`. */
    ghost predicate Valid()
      reads this
    {
      && src.Indexed()
      && (entries != [] ==>
            && startEntryNum >= 0 && |entries| % 4 == 0
            && startEntryNum * 4 + |entries| <= 4 * (src.hdr.Blocks() + 1)
            && entries == src.data[HEADER_SIZE + 4 * startEntryNum..HEADER_SIZE + 4 * startEntryNum + |entries|])
    }

    constructor (src: Source)
      requires src.Indexed()
      ensures Valid() && this.src == src
    {
      this.src := src;
      startEntryNum := -1;
      entries := [];
    }

    /** Entries may be asked for in any order. One past the last entry is not refused,
        but finds an empty window: a panic. */
    method ValueOf(entryNum: int) returns (v: nat, res: Outcome)
      requires Valid()
      modifies this
      ensures Valid()
      ensures res == Failed <==> entryNum < 0 || entryNum > src.hdr.Blocks() + 1
      ensures res == OutOfRange <==> entryNum == src.hdr.Blocks() + 1
      ensures res == Done <==> 0 <= entryNum <= src.hdr.Blocks()
      ensures res == Done ==> v == src.Entry(entryNum)
    {
      hide Header.Blocks, FromLE32;
      var entriesCount := src.hdr.Blocks() + 1;
      if entryNum < 0 || entryNum > entriesCount {
        return 0, Failed;
      }
      if entryNum >= startEntryNum && (entryNum - startEntryNum) * 4 < |entries| {
        var at := (entryNum - startEntryNum) * 4;
        v := FromLE32(entries[at..at + 4]);
        SliceOfSlice(src.data, HEADER_SIZE + 4 * startEntryNum, HEADER_SIZE + 4 * startEntryNum + |entries|, at, at + 4);
        return v, Done;
      }
      var from := HEADER_SIZE + 4 * entryNum;
      var size := if MAX_INDEX_ENTRIES * 4 < (entriesCount - entryNum) * 4 then MAX_INDEX_ENTRIES * 4 else (entriesCount - entryNum) * 4;
      entries := src.data[from..from + size];
      startEntryNum := entryNum;
      if |entries| < 4 {
        return 0, OutOfRange;
      }
      SliceOfSlice(src.data, from, from + size, 0, 4);
      return FromLE32(entries[0..4]), Done;
    }

    method TopBitOf(entryNum: int) returns (b: bool, res: Outcome)
      requires Valid()
      modifies this
      ensures Valid()
      ensures res == Done <==> 0 <= entryNum <= src.hdr.Blocks()
      ensures res == Done ==> b == src.TopBit(entryNum)
    {
      var v;
      v, res := ValueOf(entryNum);
      b := v >= TWO_TO_THE_31;
    }

    method OffsetOf(entryNum: int) returns (at: nat, res: Outcome)
      requires Valid()
      modifies this
      ensures Valid()
      ensures res in {Done, Failed, OutOfRange}
      ensures res == OutOfRange <==> entryNum == src.hdr.Blocks() + 1
      ensures res == Done <==> 0 <= entryNum <= src.hdr.Blocks()
      ensures res == Done ==> at == src.At(entryNum)
    {
      var v;
      v, res := ValueOf(entryNum);
      at := v % TWO_TO_THE_31 * Pow2(src.hdr.indexShift) % TWO_TO_THE_64;
    }
  }

  // ----- reading

  class File {
    const src: Source
    const index: IndexEntryCache
    const tmpBuf: array<Byte>
    var offset: nat
    var isClosed: bool
    var cachedBlockNum: int
    var cachedBlock: array<Byte>   // empty until a block has been cached

    /** The cached block is the block that its number says. */
    ghost predicate Valid()
      reads this, index, tmpBuf, cachedBlock
    {
      && src.Sound() && index.src == src && index.Valid()
      && tmpBuf.Length == src.hdr.blockSize && tmpBuf != cachedBlock
      && cachedBlock.Length in {0, src.hdr.blockSize}
      && (cachedBlockNum == -1 ||
          (0 <= cachedBlockNum < src.hdr.Blocks() && src.Opens(cachedBlockNum)
           && src.Block(cachedBlockNum) <= cachedBlock[..] && cachedBlock.Length == src.hdr.blockSize))
    }

    /** `part` has been delivered from position `pos` of block `start` on: it agrees with the
        image as far as that goes, and the rest is what the cached block has there. */
    ghost predicate Delivers(start: nat, pos: nat, part: seq<Byte>)
      requires src.Sound()
      reads this`cachedBlockNum, this`cachedBlock, cachedBlock
    {
      && Agrees(src.Image(), src.Span(start) + pos, part)
      && (src.Span(start) + pos + |part| > |src.Image()| && part != [] ==>
            cachedBlockNum == start && pos + |part| <= cachedBlock.Length && part == cachedBlock[pos..pos + |part|])
    }

    constructor (src: Source)
      requires src.Sound()
      ensures Valid() && this.src == src && offset == 0 && !isClosed
      ensures fresh(index) && fresh(tmpBuf) && fresh(cachedBlock)
    {
      this.src := src;
      index := new IndexEntryCache(src);
      tmpBuf := new Byte[src.hdr.blockSize](_ => 0);
      cachedBlock := new Byte[0];
      cachedBlockNum := -1;
      offset, isClosed := 0, false;
    }

    method SelectDecompressor(num: nat, rawSize: nat) returns (codec: Codec)
      requires src.Sound() && index.src == src && index.Valid()
      requires num < src.hdr.Blocks() && rawSize == src.At(num + 1) - src.At(num)
      modifies index
      ensures index.Valid()
      ensures codec == src.CodecOf(num)
    {
      hide Header.Blocks, Source.Entry, Source.At;
      var top, _ := index.TopBitOf(num);
      var variant := src.hdr.Variant();
      if variant == CsoV2 && rawSize >= src.hdr.blockSize {
        return Raw;
      } else if top {
        return if variant == CsoV2 then Lz4 else Raw;
      } else {
        return if variant == Zso then Lz4 else Flate;
      }
    }

    /** Decompress what is in the temporary buffer into `dst[at..]`. */
    method Unpack(num: nat, size: nat, codec: Codec, dst: array<Byte>, at: nat) returns (read: nat, ok: bool)
      requires src.Sound() && num < src.hdr.Blocks() && codec == src.CodecOf(num)
      requires size <= tmpBuf.Length && tmpBuf[..size] == src.Stored(num)
      requires at + src.hdr.blockSize <= dst.Length
      modifies dst
      ensures ok <==> src.Opens(num)
      ensures ok ==> read == |src.Block(num)|
      ensures ok ==> forall q :: at <= q < at + read ==> dst[q] == src.Block(num)[q - at]
      ensures forall k :: 0 <= k < at || (if ok then at + read else at + src.hdr.blockSize) <= k < dst.Length ==> dst[k] == old(dst[k])
    {
      hide Header.Blocks, Source.CodecOf, Source.Stored, Source.Run;
      var out := src.Run(codec, tmpBuf[..size]);
      if out.None? {
        return 0, false;
      }
      CopyInto(dst, at, out.value);
      return |out.value|, true;
    }

    /** A block buffer exists. */
    method EnsureCachedBlock()
      requires tmpBuf.Length == src.hdr.blockSize && tmpBuf != cachedBlock && cachedBlock.Length in {0, src.hdr.blockSize}
      modifies this`cachedBlock
      ensures cachedBlock.Length == src.hdr.blockSize && tmpBuf != cachedBlock
      ensures cachedBlock == old(cachedBlock) || (fresh(cachedBlock) && cachedBlock.Length == src.hdr.blockSize)
      ensures cachedBlock[..] == if old(cachedBlock.Length) == src.hdr.blockSize then old(cachedBlock[..]) else Zeros(src.hdr.blockSize)
    {
      if cachedBlock.Length < src.hdr.blockSize {
        cachedBlock := new Byte[src.hdr.blockSize](_ => 0);
      }
    }

    /** Decompress what is in the temporary buffer into the cached block. Behind a short
        block remains what was cached before. */
    method FillCachedBlock(num: nat, size: nat, dec: Codec) returns (ok: bool)
      requires Valid() && num < src.hdr.Blocks() && dec == src.CodecOf(num)
      requires size <= tmpBuf.Length && tmpBuf[..size] == src.Stored(num)
      modifies this`cachedBlockNum, this`cachedBlock, cachedBlock
      ensures Valid() && (cachedBlock == old(cachedBlock) || fresh(cachedBlock))
      ensures ok <==> src.Opens(num)
      ensures cachedBlockNum == if ok then num else -1
      ensures ok ==> cachedBlock[..] == src.Block(num) + Behind(old(cachedBlock[..]), |src.Block(num)|, src.hdr.blockSize)
    {
      hide Source.Sound, Source.Block, Source.CodecOf, Source.Opens, Header.Blocks, Source.Stored;
      ghost var was := cachedBlock[..];
      EnsureCachedBlock();
      cachedBlockNum := -1;
      ghost var before := cachedBlock[..];
      var read;
      read, ok := Unpack(num, size, dec, cachedBlock, 0);
      if ok {
        cachedBlockNum := num;
        assert cachedBlock[..] == cachedBlock[..read] + cachedBlock[read..];
        assert cachedBlock[..read] == src.Block(num);
        assert cachedBlock[read..] == before[read..] == Behind(was, read, src.hdr.blockSize);
      }
    }

    /** Load a block into the cache. A whole buffer is read, however short the block:
        the call fails when the file ends before that, or when decompressing fails. */
    method UpdateCachedBlock(num: nat) returns (ok: bool)
      requires Valid() && num < src.hdr.Blocks()
      modifies this`cachedBlockNum, this`cachedBlock, index, tmpBuf, cachedBlock
      ensures Valid() && (cachedBlock == old(cachedBlock) || fresh(cachedBlock))
      ensures ok <==> old(cachedBlockNum) == num || (src.At(num) + src.hdr.blockSize <= |src.data| && src.Opens(num))
      ensures ok ==> cachedBlockNum == num
      ensures ok ==> cachedBlock[..] == if old(cachedBlockNum) == num then old(cachedBlock[..])
                                        else src.Block(num) + Behind(old(cachedBlock[..]), |src.Block(num)|, src.hdr.blockSize)
    {
      hide Source.Sound, Source.Block, Source.CodecOf, Source.At, Source.Opens, Header.Blocks;
      if cachedBlockNum == num {
        return true;
      }
      src.SoundStep(num);
      var blockOffset, _ := index.OffsetOf(num);
      var nextBlockOffset, _ := index.OffsetOf(num + 1);
      var blockSize := nextBlockOffset - blockOffset;
      cachedBlockNum := -1;
      ok := ReadFull(src.data, blockOffset, tmpBuf, 0, tmpBuf.Length);
      if !ok {
        return;
      }
      assert tmpBuf[..blockSize] == tmpBuf[0..tmpBuf.Length][..blockSize];
      SliceOfSlice(src.data, blockOffset, blockOffset + tmpBuf.Length, 0, blockSize);
      assert tmpBuf[..blockSize] == src.Stored(num);
      var dec := SelectDecompressor(num, blockSize);
      ok := FillCachedBlock(num, blockSize, dec);
    }

    /** Read compressed blocks into the end of the buffer, from `c` on. Not ok is the
        panic of a slice that would begin before the buffer or end before it begins. */
    method ReadCompressedBlocks(startBlock: nat, blocksToRead: int, b: array<Byte>, from: nat) returns (c: nat, ok: bool)
      requires Valid() && b != tmpBuf && b != cachedBlock
      requires from <= b.Length
      requires 0 <= startBlock + blocksToRead <= src.hdr.Blocks() && startBlock <= src.hdr.Blocks()
      requires blocksToRead < 0 ==> from == b.Length
      modifies index, b
      ensures Valid()
      ensures ok <==> blocksToRead >= 0 && src.At(startBlock + blocksToRead) - src.At(startBlock) <= b.Length - from
      ensures ok ==> from <= c && src.HoldsStored(b[..], c, startBlock, startBlock + blocksToRead)
      ensures b[..from] == old(b[..from])
    {
      hide Source.Sound, Source.At, Header.Blocks;
      var startBlockOffset, _ := index.OffsetOf(startBlock);
      var endBlockOffset, _ := index.OffsetOf(startBlock + blocksToRead);
      var readSize := endBlockOffset as int - startBlockOffset as int;
      if blocksToRead < 0 {
        src.StoredIsSmaller(startBlock + blocksToRead, startBlock);
      } else {
        src.StoredIsSmaller(startBlock, startBlock + blocksToRead);
        StaysInFile(src, startBlock + blocksToRead);
      }
      if readSize < 0 || b.Length - from < readSize {
        return 0, false;
      }
      c := b.Length - readSize;
      ok := ReadFull(src.data, startBlockOffset, b, c, b.Length);
      assert b[..][c..] == b[c..b.Length];
    }

    /** Bring the compressed block that starts at `b[c]` into the temporary buffer. */
    method Load(num: nat, end: nat, blockSize: nat, b: array<Byte>, c: nat) returns (dec: Codec)
      requires src.Sound() && index.src == src && index.Valid() && tmpBuf.Length == src.hdr.blockSize
      requires num < end <= src.hdr.Blocks() && b != tmpBuf
      requires src.HoldsStored(b[..], c, num, end)
      requires blockSize == src.At(num + 1) - src.At(num)
      modifies index, tmpBuf
      ensures index.Valid()
      ensures blockSize <= tmpBuf.Length && tmpBuf[..blockSize] == src.Stored(num)
      ensures dec == src.CodecOf(num)
    {
      hide Source.Sound, Source.Block, Source.CodecOf, Source.At, Header.Blocks;
      src.SoundStep(num);
      src.StoredIsSmaller(num + 1, end);
      CopyInto(tmpBuf, 0, b[c..c + blockSize]);
      SliceOfSlice(b[..], c, b.Length, 0, blockSize);
      SliceOfSlice(src.data, src.At(num), src.At(end), 0, blockSize);
      assert b[..][c..b.Length] == b[..][c..];
      assert tmpBuf[..blockSize] == src.Stored(num);
      dec := SelectDecompressor(num, blockSize);
    }

    /** One step of decompressing in place: block `num` goes to `b[at..]`. The blocks
        that are still compressed at the end of the buffer are not overwritten. */
    method DecompressInPlace(ghost start: nat, num: nat, end: nat, blockSize: nat, dec: Codec,
                             b: array<Byte>, c: nat, ghost from: nat, at: nat) returns (read: nat, ok: bool)
      requires src.Sound() && num < end <= src.hdr.Blocks() && dec == src.CodecOf(num)
      requires src.HoldsStored(b[..], c, num, end)
      requires blockSize == src.At(num + 1) - src.At(num)
      requires blockSize <= tmpBuf.Length && tmpBuf[..blockSize] == src.Stored(num)
      requires from <= at <= b.Length && (end - num) * src.hdr.blockSize <= b.Length - at
      requires start <= num && at - from == (num - start) * src.hdr.blockSize
      requires HasAt(src.Image(), start * src.hdr.blockSize, b[from..at])
      modifies b
      ensures b[..at] == old(b[..at])
      ensures ok <==> src.Opens(num)
      ensures ok ==> read == |src.Block(num)| <= src.hdr.blockSize && at + read <= b.Length
      ensures ok ==> HasAt(src.Image(), start * src.hdr.blockSize, b[from..at + read])
      ensures ok ==> src.HoldsStored(b[..], c + blockSize, num + 1, end)
    {
      hide Source.Sound, Source.Block, Source.CodecOf, Source.At, Source.Opens, Header.Blocks, Source.Stored, Source.Image, HasAt;
      src.SoundStep(num);
      src.StoredIsSmaller(num + 1, end);
      assert (end - num) * src.hdr.blockSize == (end - (num + 1)) * src.hdr.blockSize + src.hdr.blockSize;
      assert at + src.hdr.blockSize <= c + blockSize;
      ghost var rest, done := b[c + blockSize..], b[from..at];
      src.NextStored(b[..], c, num, end);
      read, ok := Unpack(num, blockSize, dec, b, at);
      if ok {
        assert b[c + blockSize..] == rest;
        src.ExtendByBlock(start, num, done, read);
        assert b[from..at + read] == done + src.Block(num)[..read];
      }
    }

    /** The last piece of a read is smaller than a block: cache the block, copy a part. */
    method CacheAndCopy(num: nat, blockSize: nat, dec: Codec, b: array<Byte>, at: nat) returns (ok: bool)
      requires Valid() && b != tmpBuf && b != cachedBlock
      requires num < src.hdr.Blocks() && dec == src.CodecOf(num)
      requires blockSize <= tmpBuf.Length && tmpBuf[..blockSize] == src.Stored(num)
      requires at <= b.Length && b.Length - at < src.hdr.blockSize
      modifies this`cachedBlockNum, this`cachedBlock, cachedBlock, b
      ensures Valid() && (cachedBlock == old(cachedBlock) || fresh(cachedBlock))
      ensures b[..at] == old(b[..at])
      ensures ok <==> src.Opens(num)
      ensures ok ==> cachedBlockNum == num && Delivers(num, 0, b[at..])
    {
      hide Source.Sound, Source.Block, Source.CodecOf, Source.At, Source.Opens, Header.Blocks, Source.Stored, Source.Image, Agrees;
      ok := FillCachedBlock(num, blockSize, dec);
      if ok {
        ghost var part := cachedBlock[..b.Length - at];
        CopyInto(b, at, cachedBlock[..b.Length - at]);
        assert b[at..] == part == cachedBlock[0..b.Length - at];
        CachedAgrees(src, num, cachedBlock[..], 0, b.Length - at);
      }
    }

    /** The loop of a read that has filled `b[..from]`: whole blocks are decompressed in
        place, a last piece smaller than a block goes through the cache. */
    method ReadBlocks(startBlock: nat, blocksToRead: int, b: array<Byte>, from: nat) returns (n: nat, res: Outcome)
      requires Valid() && b != tmpBuf && b != cachedBlock && from <= b.Length
      requires startBlock <= src.hdr.Blocks()
      requires if blocksToRead < 0 then blocksToRead == -1 && startBlock > 0 && from == b.Length
               else 0 < blocksToRead <= src.hdr.Blocks() - startBlock && from < b.Length
                    && (blocksToRead * src.hdr.blockSize <= b.Length - from || blocksToRead == 1)
      modifies this`cachedBlockNum, this`cachedBlock, index, tmpBuf, cachedBlock, b
      ensures Valid() && (cachedBlock == old(cachedBlock) || fresh(cachedBlock))
      ensures b[..from] == old(b[..from])
      ensures res == if blocksToRead < 0 then OutOfRange else src.BlocksOutcome(startBlock, blocksToRead, b.Length - from)
      ensures res == Done ==> n == b.Length - from && Delivers(startBlock, 0, b[from..])
    {
      hide Source.Sound, Source.Block, Source.CodecOf, Source.At, Source.Opens, Header.Blocks, Source.Image, Source.Stored, Source.HoldsStored;
      hide Source.AllOpen, Source.AllWhole, Delivers, Valid;
      ValidSound();
      var c, ok := ReadCompressedBlocks(startBlock, blocksToRead, b, from);
      if !ok {
        if blocksToRead > 0 {
          src.StoredIsSmaller(startBlock, startBlock + blocksToRead);
        }
        return 0, OutOfRange;
      }
      n, res := DecompressAll(startBlock, startBlock + blocksToRead, b, c, from);
    }

    /** One round of the loop: `more` when a block has been decompressed in place. */
    method NextBlock(ghost start: nat, num: nat, end: nat, b: array<Byte>, c: nat, ghost from: nat, at: nat)
      returns (read: nat, blockSize: nat, more: bool, res: Outcome)
      requires Valid() && b != tmpBuf && b != cachedBlock && from <= at < b.Length
      requires start <= num <= end <= src.hdr.Blocks()
      requires num < end ==> at - from == src.Span(num - start)
      requires num < end && b.Length - at >= src.hdr.blockSize ==> src.Span(end - num) <= b.Length - at
      requires num < end && b.Length - at < src.hdr.blockSize ==> num == start
      requires src.HoldsStored(b[..], c, num, end) && HasAt(src.Image(), src.Span(start), b[from..at])
      modifies this`cachedBlockNum, this`cachedBlock, index, tmpBuf, cachedBlock, b
      ensures Valid() && (cachedBlock == old(cachedBlock) || fresh(cachedBlock))
      ensures b[..at] == old(b[..at])
      ensures res == if num == end then OutOfRange else if src.Opens(num) then Done else Failed
      ensures res == Done ==> (more <==> b.Length - at >= src.hdr.blockSize)
      ensures res == Done && more ==>
        && read == |src.Block(num)| <= b.Length - at && cachedBlock == old(cachedBlock)
        && src.HoldsStored(b[..], c + blockSize, num + 1, end)
        && HasAt(src.Image(), src.Span(start), b[from..at + read])
      ensures res == Done && !more ==> read == b.Length - at && Delivers(num, 0, b[at..])
    {
      hide Source.Sound, Source.Block, Source.CodecOf, Source.At, Source.Opens, Header.Blocks, Source.Image, HasAt, Source.Stored, Source.HoldsStored, Delivers;
      read, blockSize, more := 0, 0, false;
      var blockOffset, _ := index.OffsetOf(num);
      var nextBlockOffset;
      nextBlockOffset, res := index.OffsetOf(num + 1);
      if res != Done {
        return;
      }
      src.SoundStep(num);
      blockSize := nextBlockOffset - blockOffset;
      src.Exhausted(b[..], c, num, end);
      if c + blockSize > b.Length {
        res := OutOfRange;
        return;
      }
      var dec := Load(num, end, blockSize, b, c);
      var ok;
      if b.Length - at >= src.hdr.blockSize {
        more := true;
        read, ok := DecompressInPlace(start, num, end, blockSize, dec, b, c, from, at);
      } else {
        ok := CacheAndCopy(num, blockSize, dec, b, at);
        read := b.Length - at;
      }
      res := if ok then Done else Failed;
    }

    /** A buffer that is smaller than a block. */
    method DecompressOne(startBlock: nat, b: array<Byte>, c: nat, from: nat) returns (n: nat, res: Outcome)
      requires Valid() && b != tmpBuf && b != cachedBlock && from < b.Length && b.Length - from < src.hdr.blockSize
      requires startBlock < src.hdr.Blocks()
      requires src.HoldsStored(b[..], c, startBlock, startBlock + 1) && from <= c
      modifies this`cachedBlockNum, this`cachedBlock, index, tmpBuf, cachedBlock, b
      ensures Valid() && (cachedBlock == old(cachedBlock) || fresh(cachedBlock))
      ensures b[..from] == old(b[..from])
      ensures res == if src.Opens(startBlock) then Done else Failed
      ensures res == Done ==> n == b.Length - from && Delivers(startBlock, 0, b[from..])
    {
      hide Source.Sound, Source.Block, Source.CodecOf, Source.At, Source.Opens, Header.Blocks, Source.Image, HasAt, Source.Stored, Source.HoldsStored, Source.Span, Delivers;
      src.BlockStart(startBlock);
      EmptyAt(src.Image(), src.Span(startBlock));
      assert b[from..from] == [];
      src.SpanArithmetic(startBlock, startBlock, startBlock + 1);
      var read, blockSize, more;
      read, blockSize, more, res := NextBlock(startBlock, startBlock, startBlock + 1, b, c, from, from);
      n := read;
    }

    method DecompressAll(startBlock: nat, end: nat, b: array<Byte>, c: nat, from: nat) returns (n: nat, res: Outcome)
      requires Valid() && b != tmpBuf && b != cachedBlock && from < b.Length
      requires startBlock < end <= src.hdr.Blocks()
      requires src.Span(end - startBlock) <= b.Length - from || end == startBlock + 1
      requires src.HoldsStored(b[..], c, startBlock, end) && from <= c
      modifies this`cachedBlockNum, this`cachedBlock, index, tmpBuf, cachedBlock, b
      ensures Valid() && (cachedBlock == old(cachedBlock) || fresh(cachedBlock))
      ensures b[..from] == old(b[..from])
      ensures res == if b.Length - from < src.hdr.blockSize then (if src.Opens(startBlock) then Done else Failed)
                     else if !src.AllOpen(end) then Failed
                     else if src.Span(end - startBlock) == b.Length - from && src.AllWhole(end) then Done
                     else OutOfRange
      ensures res == Done ==> n == b.Length - from && Delivers(startBlock, 0, b[from..])
    {
      hide Source.Sound, Source.Block, Source.CodecOf, Source.At, Source.Opens, Header.Blocks, Source.Image, HasAt, Source.HoldsStored, Source.Span, Delivers;
      hide Source.AllOpen, Source.AllWhole;
      src.SpanArithmetic(startBlock, startBlock, end);
      if b.Length - from < src.hdr.blockSize {
        n, res := DecompressOne(startBlock, b, c, from);
      } else {
        n, res := DecompressWhole(startBlock, end, b, c, from);
        if res == Done {
          WholeDelivers(startBlock, b[from..]);
        }
      }
    }

    /** Whole blocks, from the first to the one before `end`. */
    method DecompressWhole(startBlock: nat, end: nat, b: array<Byte>, c0: nat, from: nat) returns (n: nat, res: Outcome)
      requires Valid() && b != tmpBuf && b != cachedBlock && from < b.Length && b.Length - from >= src.hdr.blockSize
      requires startBlock < end <= src.hdr.Blocks() && src.Span(end - startBlock) <= b.Length - from
      requires src.HoldsStored(b[..], c0, startBlock, end) && from <= c0
      modifies this`cachedBlockNum, this`cachedBlock, index, tmpBuf, cachedBlock, b
      ensures Valid() && (cachedBlock == old(cachedBlock) || fresh(cachedBlock))
      ensures b[..from] == old(b[..from])
      ensures res == if !src.AllOpen(end) then Failed
                     else if src.Span(end - startBlock) == b.Length - from && src.AllWhole(end) then Done
                     else OutOfRange
      ensures res == Done ==> n == b.Length - from && HasAt(src.Image(), src.Span(startBlock), b[from..])
    {
      hide Source.Sound, Source.Block, Source.CodecOf, Source.At, Source.Opens, Header.Blocks, Source.Image, HasAt, Source.HoldsStored, Source.Span;
      hide Source.AllOpen, Source.AllWhole, Delivers;
      var blockNum, at, c := startBlock, from, c0;
      n := 0;
      src.BlockStart(startBlock);
      src.SpanArithmetic(startBlock, startBlock, end);
      EmptyAt(src.Image(), src.Span(startBlock));
      assert b[from..at] == [];
      while at < b.Length
        invariant Valid() && cachedBlock == old(cachedBlock)
        invariant startBlock <= blockNum <= end && from <= at == from + n <= b.Length
        invariant blockNum < end ==> src.Span(end - blockNum) <= b.Length - at && n == src.Span(blockNum - startBlock)
        invariant blockNum == end ==> src.AllOpen(end) && n <= src.Span(end - startBlock)
                                      && (src.AllWhole(end) <==> n == src.Span(end - startBlock))
        invariant src.HoldsStored(b[..], c, blockNum, end)
        invariant b[..from] == old(b[..from])
        invariant HasAt(src.Image(), src.Span(startBlock), b[from..at])
        decreases end - blockNum
      {
        src.SpanArithmetic(blockNum, startBlock, end);
        ghost var before := b[..at];
        var read, blockSize, more;
        read, blockSize, more, res := NextBlock(startBlock, blockNum, end, b, c, from, at);
        assert b[..from] == b[..at][..from] == before[..from];
        if blockNum < end {
          OpenFacts(src, blockNum, end);
        }
        if res != Done {
          return n, res;
        }
        n := n + read;
        at, c := at + read, c + blockSize;
        blockNum := blockNum + 1;
      }
      src.SpanArithmetic(blockNum, startBlock, end);
      assert b[from..at] == b[from..];
      res := Done;
    }

    lemma WholeDelivers(start: nat, part: seq<Byte>)
      requires src.Sound() && HasAt(src.Image(), src.Span(start), part)
      ensures Delivers(start, 0, part)
    {
      hide Source.Sound, Source.Image;
    }

    function GetBlocksCount(startBlock: nat, len: nat): (m: nat)
      requires src.hdr.blockSize > 0 && startBlock < src.hdr.Blocks()
      ensures m <= src.hdr.Blocks() - startBlock
      ensures m == 0 <==> len == 0
    {
      var blocksToRead := if len / src.hdr.blockSize == 0 && len > 0 then 1 else len / src.hdr.blockSize;
      if startBlock + blocksToRead > src.hdr.Blocks() then src.hdr.Blocks() - startBlock else blocksToRead
    }

    /** One block is enough exactly when the read asks for less than two blocks or starts
        in the last one; otherwise the blocks after the first are still too few. */
    lemma UnalignedCount(startBlock: nat, len: nat)
      requires src.hdr.blockSize > 0 && startBlock < src.hdr.Blocks()
      ensures var m := GetBlocksCount(startBlock, len);
        && (m == 1 <==> 0 < len && (len < 2 * src.hdr.blockSize || startBlock + 1 == src.hdr.Blocks()))
        && (m > 1 ==> len >= 2 * src.hdr.blockSize && (m - 1) * src.hdr.blockSize <= len - src.hdr.blockSize)
    {
      hide Header.Blocks;
      var size := src.hdr.blockSize;
      if len >= size {
        CountArithmetic(GetBlocksCount(startBlock, len), len, size);
        if len / size >= 2 {
          MulLeq(2, len / size, size);
        }
      }
    }

    /** Read from the beginning of a block. */
    method ReadAligned(startBlock: nat, b: array<Byte>) returns (n: nat, res: Outcome)
      requires Valid() && b != tmpBuf && b != cachedBlock && startBlock < src.hdr.Blocks()
      modifies this`cachedBlockNum, this`cachedBlock, index, tmpBuf, cachedBlock, b
      ensures Valid() && (cachedBlock == old(cachedBlock) || fresh(cachedBlock))
      ensures res == src.ReadOutcome(startBlock, 0, b.Length, old(cachedBlockNum) == startBlock)
      ensures res == Done ==> n == b.Length == src.Delivered(0, b.Length) && Delivers(startBlock, 0, b[..])
    {
      hide Source.Sound, Source.Block, Source.At, Source.Opens, Source.AllOpen, Source.AllWhole, Source.BlocksOutcome, Source.ReadOutcome;
      hide Header.Blocks, Source.Image, HasAt, Delivers, GetBlocksCount;
      src.SoundStep(startBlock);
      CountBounds(startBlock, b.Length);
      var blocksToRead := GetBlocksCount(startBlock, b.Length);
      if blocksToRead == 0 {
        src.BlockStart(startBlock);
        EmptyAt(src.Image(), src.Span(startBlock));
        assert b[..] == [];
        WholeDelivers(startBlock, b[..]);
        NothingAsked(src, startBlock, cachedBlockNum == startBlock);
        return 0, Done;
      }
      AlignedOutcome(startBlock, b.Length, cachedBlockNum == startBlock);
      n, res := ReadBlocks(startBlock, blocksToRead, b, 0);
      assert b[0..] == b[..];
    }

    lemma CountBounds(startBlock: nat, len: nat)
      requires src.hdr.blockSize > 0 && startBlock < src.hdr.Blocks()
      ensures var m := GetBlocksCount(startBlock, len);
        && m <= src.hdr.Blocks() - startBlock && (m == 0 <==> len == 0)
        && (m * src.hdr.blockSize <= len || m == 1)
    {
      hide Header.Blocks;
      if len >= src.hdr.blockSize {
        CountArithmetic(GetBlocksCount(startBlock, len), len, src.hdr.blockSize);
      }
    }

    /** The outcome in terms of the blocks that are read is that in terms of the request. */
    lemma AlignedOutcome(startBlock: nat, len: nat, cached: bool)
      requires src.Sound() && startBlock < src.hdr.Blocks() && len > 0
      ensures var m := GetBlocksCount(startBlock, len);
        && m > 0 && src.BlocksOutcome(startBlock, m, len) == src.ReadOutcome(startBlock, 0, len, cached)
    {
      hide Source.Sound, Source.Block, Source.At, Source.Opens, Source.AllOpen, Source.AllWhole, Header.Blocks, GetBlocksCount;
      SoundSize(src);
      CountFacts(startBlock, len);
      if len >= src.hdr.blockSize {
        EndFacts(src, startBlock + GetBlocksCount(startBlock, len));
      }
    }

    lemma CountFacts(startBlock: nat, len: nat)
      requires src.hdr.blockSize > 0 && startBlock < src.hdr.Blocks() && len > 0
      ensures var m, count, size := GetBlocksCount(startBlock, len), len / src.hdr.blockSize, src.hdr.blockSize;
        && 0 < m <= src.hdr.Blocks() - startBlock && (len < size ==> m == 1)
        && (len >= size ==> (startBlock + m == src.hdr.Blocks() <==> startBlock + count > src.hdr.Blocks() - 1))
        && (len >= size ==> (m * size == len <==> len % size == 0 && startBlock + count <= src.hdr.Blocks()))
    {
      hide Header.Blocks;
      if len >= src.hdr.blockSize {
        CountArithmetic(GetBlocksCount(startBlock, len), len, src.hdr.blockSize);
      }
    }

    /** The outcome of the blocks behind the one that a read begins in. */
    lemma RestOutcome(startBlock: nat, pos: nat, len: nat)
      requires src.Sound() && startBlock < src.hdr.Blocks() && 0 < pos < src.hdr.blockSize
      requires GetBlocksCount(startBlock, len) > 1
      ensures var m, n := GetBlocksCount(startBlock, len) - 1, src.Delivered(pos, len);
        && startBlock + 1 + m <= src.hdr.Blocks() && m * src.hdr.blockSize <= len - n && src.hdr.blockSize <= len - n
        && src.BlocksOutcome(startBlock + 1, m, len - n) == if src.AllOpen(startBlock + 1 + m) then OutOfRange else Failed
    {
      SoundSize(src);
      hide Source.Sound, Source.Block, Source.At, Source.AllOpen, Header.Blocks;
      var m, size := GetBlocksCount(startBlock, len), src.hdr.blockSize;
      UnalignedCount(startBlock, len);
      CountArithmetic(m, len, size);
      MulLeq(1, m - 1, size);
    }

    lemma RestEnds(startBlock: nat, len: nat)
      requires src.Sound() && startBlock < src.hdr.Blocks() && GetBlocksCount(startBlock, len) > 1
      ensures var m := GetBlocksCount(startBlock, len) - 1;
        && startBlock + 1 + m <= src.hdr.Blocks()
        && (src.AllOpen(startBlock + 1 + m)
            <==> !(startBlock + len / src.hdr.blockSize > src.hdr.Blocks() - 1 && !src.Opens(src.hdr.Blocks() - 1)))
    {
      hide Source.Sound, Source.At, Header.Blocks, Source.Opens;
      SoundSize(src);
      var end := startBlock + GetBlocksCount(startBlock, len);
      OpenFacts(src, end - 1, end);
    }

    /** The outcome of an unaligned read, by the steps it takes. */
    lemma UnalignedOutcome(startBlock: nat, pos: nat, len: nat, cached: bool)
      requires src.Sound() && startBlock < src.hdr.Blocks() && 0 < pos < src.hdr.blockSize
      ensures var m, n := GetBlocksCount(startBlock, len), src.Delivered(pos, len);
        && (m == 0 ==> n == len) && n <= len
        && (m > 1 ==> startBlock + m <= src.hdr.Blocks() && (m - 1) * src.hdr.blockSize <= len - n && n < len)
        && src.ReadOutcome(startBlock, pos, len, cached)
           == if !cached && (src.At(startBlock) + src.hdr.blockSize > |src.data| || !src.Opens(startBlock)) then Failed
              else if m == 1 then Done
              else if m == 0 then OutOfRange
              else src.BlocksOutcome(startBlock + 1, m - 1, len - n)
      ensures GetBlocksCount(startBlock, len) > 1 ==>
        src.BlocksOutcome(startBlock + 1, GetBlocksCount(startBlock, len) - 1, len - src.Delivered(pos, len)) != Done
    {
      hide Source.Sound, Source.At, Source.Opens, Source.AllOpen, Source.BlocksOutcome, Header.Blocks, GetBlocksCount;
      SoundSize(src);
      CountBounds(startBlock, len);
      UnalignedCount(startBlock, len);
      if GetBlocksCount(startBlock, len) > 1 {
        RestOutcome(startBlock, pos, len);
        RestEnds(startBlock, len);
      }
    }

    /** The part of an unaligned read that the cached block delivers. */
    method CopyCached(startBlock: nat, posInBlock: nat, b: array<Byte>) returns (n: nat)
      requires Valid() && b != tmpBuf && b != cachedBlock
      requires 0 <= startBlock < src.hdr.Blocks() && cachedBlockNum == startBlock && 0 < posInBlock < src.hdr.blockSize
      modifies b
      ensures Valid()
      ensures n == src.Delivered(posInBlock, b.Length)
      ensures Delivers(startBlock, posInBlock, b[..n])
    {
      hide Source.Sound, Source.Block, Source.Opens, Source.Image, Agrees, Header.Blocks;
      n := if b.Length < src.hdr.blockSize - posInBlock then b.Length else src.hdr.blockSize - posInBlock;
      ghost var part := cachedBlock[posInBlock..posInBlock + n];
      CopyInto(b, 0, cachedBlock[posInBlock..posInBlock + n]);
      assert b[..n] == part;
      CachedAgrees(src, startBlock, cachedBlock[..], posInBlock, n);
    }

    /** Read from inside a block, by way of the cached block. */
    method ReadUnaligned(startBlock: nat, posInBlock: nat, b: array<Byte>) returns (n: nat, res: Outcome)
      requires Valid() && b != tmpBuf && b != cachedBlock && startBlock < src.hdr.Blocks()
      requires 0 < posInBlock < src.hdr.blockSize
      modifies this`cachedBlockNum, this`cachedBlock, index, tmpBuf, cachedBlock, b
      ensures Valid() && (cachedBlock == old(cachedBlock) || fresh(cachedBlock))
      ensures res == src.ReadOutcome(startBlock, posInBlock, b.Length, old(cachedBlockNum) == startBlock)
      ensures res == Done ==> n == src.Delivered(posInBlock, b.Length) && Delivers(startBlock, posInBlock, b[..n])
    {
      hide Source.Sound, Source.Block, Source.At, Source.Opens, Header.Blocks, Source.Image, HasAt, GetBlocksCount, Delivers;
      hide Source.BlocksOutcome, Source.ReadOutcome, Source.Delivered, Valid, Behind;
      CachedOpens(startBlock);
      var blocksToRead: int := GetBlocksCount(startBlock, b.Length);
      UnalignedOutcome(startBlock, posInBlock, b.Length, cachedBlockNum == startBlock);
      var ok := UpdateCachedBlock(startBlock);
      if !ok {
        return 0, Failed;
      }
      n := CopyCached(startBlock, posInBlock, b);
      blocksToRead := blocksToRead - 1;
      if blocksToRead == 0 {
        return n, Done;
      }
      var more;
      more, res := ReadBlocks(startBlock + 1, blocksToRead, b, n);
      n := n + more;
    }

    lemma ValidSound()
      requires Valid()
      ensures src.Sound()
    {
    }

    lemma CachedOpens(num: nat)
      requires Valid() && num < src.hdr.Blocks()
      ensures src.Sound() && (cachedBlockNum == num ==> src.Opens(num))
    {
    }

    /** What a read at `s` of `len` bytes promises: how it ends, how much it delivers, and
        that this agrees with the image; behind a short last block it is what the cached
        block has there. */
    ghost predicate ReadRight(s: nat, len: nat, cached: int, res: Outcome, n: nat, got: seq<Byte>)
      requires src.Sound()
      reads this`cachedBlockNum, this`cachedBlock, cachedBlock
    {
      SoundSize(src);
      ReadArithmetic(s, src.hdr);
      var start, pos := s / src.hdr.blockSize, s % src.hdr.blockSize;
      s < src.hdr.uncompressedSize ==>
        && res == src.ReadOutcome(start, pos, len, cached == start)
        && (res == Done ==> n == src.Delivered(pos, len) && Agrees(src.Image(), s, got) && Delivers(start, pos, got))
    }

    method Read(b: array<Byte>) returns (n: nat, res: Outcome)
      requires Valid() && b != tmpBuf && b != cachedBlock
      modifies this`offset, this`cachedBlockNum, this`cachedBlock, index, tmpBuf, cachedBlock, b
      ensures Valid() && (cachedBlock == old(cachedBlock) || fresh(cachedBlock))
      ensures isClosed ==> res == Closed
      ensures !isClosed && old(offset) >= src.hdr.uncompressedSize ==> res == EndOfFile
      ensures offset == if res == Done then old(offset) + n else old(offset)
      ensures res == Done ==> n <= b.Length
      ensures !isClosed && old(offset) < src.hdr.uncompressedSize ==>
        ReadRight(old(offset), b.Length, old(cachedBlockNum), res, n, if res == Done then b[..n] else [])
    {
      hide Source.Sound, Source.Block, Source.At, Header.Blocks, Source.Image, Source.ReadOutcome, Source.Delivered, Delivers, ReadRight;
      n := 0;
      if isClosed {
        return 0, Closed;
      }
      if offset >= src.hdr.uncompressedSize {
        return 0, EndOfFile;
      }
      SoundSize(src);
      ReadArithmetic(offset, src.hdr);
      var startBlock, posInBlock := offset / src.hdr.blockSize, offset % src.hdr.blockSize;
      ghost var cached := cachedBlockNum;
      DeliveredBound(src, posInBlock, b.Length);
      if posInBlock > 0 {
        n, res := ReadUnaligned(startBlock, posInBlock, b);
      } else {
        n, res := ReadAligned(startBlock, b);
        assert b[..b.Length] == b[..];
      }
      IsRight(offset, b.Length, cached, res, n, if res == Done then b[..n] else []);
      if res == Done {
        offset := offset + n;
      }
    }

    lemma IsRight(s: nat, len: nat, cached: int, res: Outcome, n: nat, got: seq<Byte>)
      requires src.Sound() && src.hdr.blockSize > 0 && s < src.hdr.uncompressedSize
      requires s / src.hdr.blockSize < src.hdr.Blocks()
      requires res == src.ReadOutcome(s / src.hdr.blockSize, s % src.hdr.blockSize, len, cached == s / src.hdr.blockSize)
      requires res == Done ==> n == src.Delivered(s % src.hdr.blockSize, len) && Delivers(s / src.hdr.blockSize, s % src.hdr.blockSize, got)
      ensures ReadRight(s, len, cached, res, n, got)
    {
      hide Source.Sound, Source.At, Header.Blocks, Source.Image, Source.ReadOutcome, Source.Delivered, Agrees;
      ReadArithmetic(s, src.hdr);
    }

    method Seek(position: int, whence: Whence) returns (newOffset: nat, res: Outcome)
      modifies this`offset
      ensures isClosed ==> res == Closed
      ensures !isClosed ==>
        var target := SeekTarget(position, whence, old(offset), src.hdr.uncompressedSize);
        && res == (if target.Some? then Done else Invalid)
        && (res == Done ==> offset == newOffset == target.value)
      ensures res != Done ==> offset == old(offset)
    {
      if isClosed {
        return 0, Closed;
      }
      var target := position;
      match whence {
        case SeekStart =>
        case SeekCurrent => target := target + offset;
        case SeekEnd => target := src.hdr.uncompressedSize + target;
        case OtherWhence => return 0, Invalid;
      }
      if target < 0 || target > src.hdr.uncompressedSize {
        return 0, Invalid;
      }
      offset := target;
      return target, Done;
    }
  }

  lemma ReadArithmetic(s: nat, hdr: Header)
    requires hdr.blockSize > 0
    ensures s < hdr.uncompressedSize ==> s / hdr.blockSize < hdr.Blocks()
    ensures s == s / hdr.blockSize * hdr.blockSize + s % hdr.blockSize && 0 <= s % hdr.blockSize < hdr.blockSize
    ensures s / hdr.blockSize >= 0
  {
    if s < hdr.uncompressedSize {
      DivBelow(s, hdr.Blocks(), hdr.blockSize);
    }
  }

  /** Fewer blocks than fit leave room. */
  lemma CountArithmetic(m: nat, len: nat, size: nat)
    requires size > 0 && m <= len / size
    ensures m * size <= len
    ensures m * size == len ==> len / size == m && len % size == 0
    ensures m == len / size && len % size == 0 ==> m * size == len
    ensures m > 0 ==> (m - 1) * size <= len - size
  {
    MulLeq(m, len / size, size);
    if m < len / size {
      MulLeq(m + 1, len / size, size);
    }
    if m > 0 {
      assert (m - 1) * size == m * size - size;
    }
  }

  lemma LoopArithmetic(i: nat, start: nat, end: nat, size: nat)
    requires start <= i <= end && size > 0
    ensures i < end ==> (end - i) * size == (end - (i + 1)) * size + size >= size
    ensures (i + 1 - start) * size == (i - start) * size + size
    ensures (end - i) * size + (i - start) * size == (end - start) * size
    ensures i == end <==> (end - i) * size == 0
    ensures (i - start) * size >= 0
  {
    if i < end {
      MulLeq(1, end - i, size);
    }
  }

  /** `part` agrees with the image at position `from`, as far as the image goes. */
  ghost predicate Agrees(image: seq<Byte>, from: int, part: seq<Byte>) {
    forall q :: 0 <= q < |part| && 0 <= from + q < |image| ==> part[q] == image[from + q]
  }

  /** What stays in a block buffer behind the first `k` bytes. */
  function Behind(was: seq<Byte>, k: nat, size: nat): (r: seq<Byte>)
    requires k <= size
    ensures |r| == size - k
  {
    if |was| == size then was[k..] else Zeros(size - k)
  }

  /** The cached block agrees with the image, whatever it holds behind a short block. */
  lemma CachedAgrees(src: Source, num: nat, cached: seq<Byte>, pos: nat, n: nat)
    requires src.Sound() && num < src.hdr.Blocks()
    requires |cached| == src.hdr.blockSize && src.Block(num) <= cached && pos + n <= |cached|
    ensures Agrees(src.Image(), src.Span(num) + pos, cached[pos..pos + n])
    ensures num + 1 < src.hdr.Blocks() ==> src.Span(num) + pos + n <= |src.Image()|
  {
    hide Source.Sound, Source.Block, Source.Image, Header.Blocks;
    src.BlockInImage(num);
    var at, block, part := num * src.hdr.blockSize, src.Block(num), cached[pos..pos + n];
    forall q | 0 <= q < |part| && at + pos + q < |src.Image()| ensures part[q] == src.Image()[at + pos + q] {
      assert src.Image()[at..at + |block|][pos + q] == block[pos + q];
    }
  }

  /** The last of the blocks in front of `end` decides whether all can be decompressed. */
  lemma OpenFacts(src: Source, i: nat, end: nat)
    requires src.Sound() && i < end <= src.hdr.Blocks()
    ensures i + 1 < end ==> src.Opens(i) && |src.Block(i)| == src.hdr.blockSize
    ensures |src.Block(i)| <= src.hdr.blockSize
    ensures i + 1 == end ==> (src.AllOpen(end) <==> src.Opens(i))
                             && (src.AllWhole(end) <==> src.Opens(i) && |src.Block(i)| == src.hdr.blockSize)
    ensures i + 1 < src.hdr.Blocks() ==> src.Opens(i) && |src.Block(i)| == src.hdr.blockSize
  {
  }

  /** What the image is made of, read off the bytes of the file: block `n` lies at `n` times the
      block size, and it is the stored bytes themselves, or what one of the two codecs makes of
      them. Which of these is decided by the magic, the version, the top bit of the block's
      index entry, and in version 2 by the stored size. */
  lemma ImageIsMadeOf(src: Source, n: nat)
    requires src.Sound() && n < src.hdr.Blocks()
    requires |src.data| >= HEADER_SIZE && src.hdr == HeaderIn(src.data)
    ensures 24 + 4 * n + 8 <= |src.data|
    ensures var data, size := src.data, src.hdr.blockSize;
      var entry, next := FromLE32(data[24 + 4 * n..28 + 4 * n]), FromLE32(data[28 + 4 * n..32 + 4 * n]);
      var at, end := entry % 0x8000_0000 * Pow2(data[21]) % TWO_TO_THE_64, next % 0x8000_0000 * Pow2(data[21]) % TWO_TO_THE_64;
      var ciso, ziso := data[0..4] == [0x43, 0x49, 0x53, 0x4F], data[0..4] == [0x5A, 0x49, 0x53, 0x4F];
      var marked := entry >= 0x8000_0000;
      && size == FromLE32(data[16..20]) && at < end <= |data|
      && ((ciso && (data[20] == 1 || data[20] == 2)) || (ziso && data[20] == 1))
      && (if (data[20] == 1 && marked) || (data[20] == 2 && end - at >= size) then HasAt(src.Image(), n * size, data[at..end])
          else if ziso || marked then
            src.lz4(data[at..end], size).Some? ==> HasAt(src.Image(), n * size, src.lz4(data[at..end], size).value)
          else
            src.flate(data[at..end], size).Some? ==> HasAt(src.Image(), n * size, src.flate(data[at..end], size).value))
  {
    hide Source.Sound, Source.Block, Source.Image, Source.At, Source.Entry, Header.Blocks, HasAt, Pow2, FromLE32;
    IsIndexed(src);
    BlockIs(src, n);
    EntryAt(src, n);
    EntryAt(src, n + 1);
    src.SoundStep(n);
    BlockHas(src, n);
    assert CISO != ZISO by { assert CISO[0] != ZISO[0]; }
  }

  lemma IsIndexed(src: Source)
    requires src.Sound()
    ensures src.Indexed()
  {
    hide Source.Indexed;
  }

  lemma BlockHas(src: Source, n: nat)
    requires src.Sound() && n < src.hdr.Blocks()
    ensures HasAt(src.Image(), n * src.hdr.blockSize, src.Block(n))
  {
    hide Source.Sound, Source.Block, Source.Image, Header.Blocks;
    src.BlockInImage(n);
  }

  /** The blocks are just enough for the uncompressed size. */
  lemma BlocksCover(hdr: Header)
    requires hdr.blockSize > 0
    ensures (hdr.Blocks() as int - 1) * hdr.blockSize < hdr.uncompressedSize <= hdr.Blocks() * hdr.blockSize
            || hdr.uncompressedSize == hdr.Blocks() == 0
  {
    var q := hdr.uncompressedSize / hdr.blockSize;
    DivMod(hdr.uncompressedSize, hdr.blockSize);
    if hdr.uncompressedSize % hdr.blockSize == 0 {
      assert (q - 1) * hdr.blockSize == q * hdr.blockSize - hdr.blockSize;
    }
  }

  lemma EntryAt(src: Source, n: nat)
    requires src.Indexed() && n <= src.hdr.Blocks()
    requires |src.data| >= HEADER_SIZE && src.hdr == HeaderIn(src.data)
    ensures 28 + 4 * n <= |src.data| && src.Entry(n) == FromLE32(src.data[24 + 4 * n..28 + 4 * n])
    ensures src.At(n) == src.Entry(n) % 0x8000_0000 * Pow2(src.data[21]) % TWO_TO_THE_64
  {
    hide FromLE32, Pow2, Header.Blocks;
  }

  lemma BlockIs(src: Source, n: nat)
    requires src.Sound() && n < src.hdr.Blocks()
    ensures src.At(n) <= src.At(n + 1) <= |src.data|
    ensures match src.CodecOf(n)
            case Raw => src.Block(n) == src.data[src.At(n)..src.At(n + 1)]
            case Flate => src.flate(src.Stored(n), src.hdr.blockSize).Some? ==> src.Block(n) == src.flate(src.Stored(n), src.hdr.blockSize).value
            case Lz4 => src.lz4(src.Stored(n), src.hdr.blockSize).Some? ==> src.Block(n) == src.lz4(src.Stored(n), src.hdr.blockSize).value
  {
    hide Source.At, Source.CodecOf, Header.Blocks;
    src.SoundStep(n);
  }

  lemma EndFacts(src: Source, end: nat)
    requires src.Sound() && 0 < end <= src.hdr.Blocks()
    ensures var last := src.hdr.Blocks() - 1;
      && (src.AllOpen(end) <==> end <= last || src.Opens(last))
      && (src.AllWhole(end) <==> end <= last || (src.Opens(last) && |src.Block(last)| == src.hdr.blockSize))
  {
    hide Source.Sound, Source.Block, Source.At, Source.Opens, Source.AllOpen, Source.AllWhole, Header.Blocks;
    OpenFacts(src, end - 1, end);
  }

  /** Whole blocks can be read up to a short last block, but not that block itself. */
  lemma ShortBlockPanics(src: Source, start: nat, count: nat, cached: bool)
    requires src.Sound() && start < src.hdr.Blocks() && count > 0
    requires src.Opens(src.hdr.Blocks() - 1) && |src.Block(src.hdr.Blocks() - 1)| < src.hdr.blockSize
    ensures 0 <= src.Span(count)
    ensures src.ReadOutcome(start, 0, src.Span(count), cached) == if start + count < src.hdr.Blocks() then Done else OutOfRange
  {
    SoundSize(src);
    hide Source.Sound, Source.Opens, Source.Block, Source.At, Header.Blocks;
    WholeCount(count, src.hdr.blockSize);
  }

  lemma WholeCount(count: nat, size: nat)
    requires size > 0 && count > 0
    ensures count * size / size == count && count * size % size == 0 && count * size >= size
  {
    var x := count * size;
    MulLeq(1, count, size);
    QuotientIs(x, x / size, x % size, count, size);
  }

  lemma QuotientIs(x: nat, q: nat, r: nat, count: nat, size: nat)
    requires size > 0 && x == q * size + r && r < size && x == count * size
    ensures q == count && r == 0
  {
    if q < count {
      MulLeq(q + 1, count, size);
    } else {
      MulLeq(count, q, size);
      MulCancel(q, count, size);
    }
  }

  /** A smaller read of a short last block succeeds, also where it delivers more than the
      image has. */
  lemma ShortBlockOverreads(src: Source, len: nat, cached: bool)
    requires src.Sound() && src.hdr.Blocks() > 0
    requires src.Opens(src.hdr.Blocks() - 1) && |src.Block(src.hdr.Blocks() - 1)| < len < src.hdr.blockSize
    requires src.At(src.hdr.Blocks()) - src.At(src.hdr.Blocks() - 1) <= len
    ensures src.ReadOutcome(src.hdr.Blocks() - 1, 0, len, cached) == Done
    ensures src.Delivered(0, len) == len && src.Span(src.hdr.Blocks() - 1) + len > |src.Image()|
  {
    hide Source.Sound, Source.Opens, Source.Block, Source.At, Header.Blocks, Source.Image;
    src.BlockInImage(src.hdr.Blocks() - 1);
  }

  lemma NothingAsked(src: Source, start: nat, cached: bool)
    requires src.Sound() && start < src.hdr.Blocks()
    ensures src.ReadOutcome(start, 0, 0, cached) == Done
  {
  }

  lemma DeliveredBound(src: Source, pos: nat, len: nat)
    requires pos < src.hdr.blockSize
    ensures src.Delivered(pos, len) <= len
  {
  }

  lemma SoundSize(src: Source)
    requires src.Sound()
    ensures src.hdr.blockSize > 0
  {
  }

  lemma StaysInFile(src: Source, n: nat)
    requires src.Sound() && n <= src.hdr.Blocks()
    ensures src.At(n) <= |src.data|
  {
  }
}
