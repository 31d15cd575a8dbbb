/** CHD images: hunks behind a one-hunk cache, and the view of a CD that leaves out
    everything but the data of each sector. */
module Chd {
  import opened Wrappers
  import opened Arithmetic
  import opened Bytes
  import opened Blocks
  import opened Files

  /** 'c' and 'd' in the upper half of a codec mark the ones for CDs. */
  const CD_FRONTEND: nat := 0x6364

  const NO_CODEC: nat := 0

  predicate IsCD(codec: nat) {
    codec / TWO_TO_THE_16 == CD_FRONTEND
  }

  datatype Header = Header(compression: seq<nat>, hunkBytes: nat, totalHunks: nat, logicalBytes: nat, unitBytes: nat, unitCount: nat) {
    predicate IsCDCodesOnly()
      requires |compression| == 4
    {
      && IsCD(compression[0])
      && (IsCD(compression[1]) || compression[1] == NO_CODEC)
      && (IsCD(compression[2]) || compression[2] == NO_CODEC)
      && (IsCD(compression[3]) || compression[3] == NO_CODEC)
    }

    /** Whole units in a hunk. */
    function UnitsPerHunk(): (n: nat)
      requires 0 < unitBytes <= hunkBytes
      ensures n > 0 && n * unitBytes <= hunkBytes
      ensures hunkBytes % unitBytes == 0 ==> n * unitBytes == hunkBytes
    {
      hunkBytes / unitBytes
    }
  }

  datatype CDMetadata = CDMetadata(typ: string, frames: int)

  function Upper(s: string): string {
    seq(|s|, i requires 0 <= i < |s| => if 'a' <= s[i] <= 'z' then s[i] - 'a' + 'A' else s[i])
  }

  function SectorDataSize(md: CDMetadata): (n: nat)
    ensures n in {2048, 2324, 2328, 2336, 2352}
  {
    match Upper(md.typ)
    case "AUDIO" => 2352
    case "MODE1" => 2048
    case "MODE1_RAW" => 2352
    case "MODE1/2048" => 2048
    case "MODE1/2352" => 2352
    case "MODE2" => 2336
    case "MODE2_RAW" => 2352
    case "MODE2/2336" => 2336
    case "MODE2/2352" => 2352
    case "MODE2_FORM1" => 2048
    case "MODE2/2048" => 2048
    case "MODE2_FORM2" => 2328
    case "MODE2/2324" => 2324
    case _ => 2352
  }

  /** Which types, in capitals or not, have which size. */
  lemma SizesByType(md: CDMetadata)
    ensures SectorDataSize(md) == 2048 <==> Upper(md.typ) in {"MODE1", "MODE1/2048", "MODE2_FORM1", "MODE2/2048"}
    ensures SectorDataSize(md) == 2324 <==> Upper(md.typ) == "MODE2/2324"
    ensures SectorDataSize(md) == 2328 <==> Upper(md.typ) == "MODE2_FORM2"
    ensures SectorDataSize(md) == 2336 <==> Upper(md.typ) in {"MODE2", "MODE2/2336"}
    ensures SectorDataSize(md) == 2352 <==>
      Upper(md.typ) !in {"MODE1", "MODE1/2048", "MODE2_FORM1", "MODE2/2048", "MODE2/2324", "MODE2_FORM2", "MODE2", "MODE2/2336"}
  {
  }

  /** Upper case changes the letters from 'a' to 'z' and nothing else. */
  lemma UpperIs(s: string, i: nat)
    requires i < |s|
    ensures |Upper(s)| == |s|
    ensures Upper(s)[i] != s[i] ==> 'a' <= s[i] <= 'z' && Upper(s)[i] as int == s[i] as int - 32
    ensures !('a' <= Upper(s)[i] <= 'z')
  {
  }

  /** A four-digit number. */
  function Digits(n: nat): string
    requires 1000 <= n < 10000
  {
    [DigitOf(n / 1000), DigitOf(n / 100 % 10), DigitOf(n / 10 % 10), DigitOf(n % 10)]
  }

  function DigitOf(d: nat): char
    requires d < 10
  {
    "0123456789"[d]
  }

  /** A type that names a sector size has that size, in either case; but of the sizes that
      belong to mode 2 only, mode 1 has none. */
  lemma NamedSize(md: CDMetadata, mode: string, n: nat)
    requires mode in {"MODE1", "MODE2"} && n in {2048, 2324, 2336, 2352}
    requires Upper(md.typ) == mode + "/" + Digits(n)
    ensures SectorDataSize(md) == n <==> !(mode == "MODE1" && n in {2324, 2336})
  {
    hide Digits;
    NameIs(mode, n);
    assert "MODE1/2324"[4] != "MODE2/2324"[4] && "MODE1/2336"[4] != "MODE2/2336"[4];
  }

  lemma NameIs(mode: string, n: nat)
    requires mode in {"MODE1", "MODE2"} && n in {2048, 2324, 2336, 2352}
    ensures mode + "/" + Digits(n)
            == if mode == "MODE1" then
                 (if n == 2048 then "MODE1/2048" else if n == 2324 then "MODE1/2324" else if n == 2336 then "MODE1/2336" else "MODE1/2352")
               else
                 (if n == 2048 then "MODE2/2048" else if n == 2324 then "MODE2/2324" else if n == 2336 then "MODE2/2336" else "MODE2/2352")
  {
    DigitsAre();
    hide Digits;
    var digits := Digits(n);
    assert digits == [digits[0], digits[1], digits[2], digits[3]];
    if mode == "MODE1" {
      assert mode + "/" + digits == ['M', 'O', 'D', 'E', '1', '/', digits[0], digits[1], digits[2], digits[3]];
    } else {
      assert mode + "/" + digits == ['M', 'O', 'D', 'E', '2', '/', digits[0], digits[1], digits[2], digits[3]];
    }
  }

  lemma DigitsAre()
    ensures Digits(2048) == "2048" && Digits(2324) == "2324" && Digits(2336) == "2336" && Digits(2352) == "2352"
  {
  }

  /** The codecs "cdzl", "cdlz", "cdfl" and "cdzs" are for CDs; "zlib" and no codec are not. */
  lemma CdCodecs()
    ensures IsCD(0x63647A6C) && IsCD(0x63646C7A) && IsCD(0x6364666C) && IsCD(0x63647A73)
    ensures !IsCD(0x7A6C6962) && !IsCD(0)
  {
  }

  /** The first codec is for CDs, and so is each other that is there. */
  lemma CodesOnly(hdr: Header)
    requires |hdr.compression| == 4
    ensures hdr.IsCDCodesOnly() <==> IsCD(hdr.compression[0]) && forall i :: 0 <= i < 4 ==> hdr.compression[i] == 0 || IsCD(hdr.compression[i])
  {
    CdCodecs();
    hide IsCD;
  }

  lemma {:induction false} FramesConcat(a: seq<CDMetadata>, b: seq<CDMetadata>)
    ensures TotalFrames(a + b) == TotalFrames(a) + TotalFrames(b)
    ensures |b| == 1 ==> TotalFrames(b) == b[0].frames
  {
    if b == [] {
      assert a + b == a;
    } else {
      FramesConcat(a, b[..|b| - 1]);
      assert (a + b)[..|a + b| - 1] == a + b[..|b| - 1];
    }
  }

  function TotalFrames(mds: seq<CDMetadata>): int {
    if mds == [] then 0 else TotalFrames(mds[..|mds| - 1]) + mds[|mds| - 1].frames
  }

  /** What a file must be to be taken for a CD: CD codecs and tracks with one sector size. */
  predicate CdConsistent(hdr: Header, mds: seq<CDMetadata>)
    requires |hdr.compression| == 4
  {
    && hdr.IsCDCodesOnly() && mds != []
    && forall i :: 0 <= i < |mds| ==> SectorDataSize(mds[i]) == SectorDataSize(mds[0])
  }

  /** The decompressed hunks, which libchdr delivers. */
  datatype Content = Content(hdr: Header, hunks: seq<seq<Byte>>) {
    ghost predicate Valid() {
      && |hdr.compression| == 4 && hdr.hunkBytes > 0
      && |hunks| == hdr.totalHunks
      && forall h :: h in hunks ==> |h| == hdr.hunkBytes
    }

    ghost function Image(): seq<Byte> {
      Flatten(hunks)
    }

    // ----- sectors of a CD

    /** Units that exist and that the metadata counts. */
    function Units(frames: int): nat
      requires 0 < hdr.unitBytes <= hdr.hunkBytes
    {
      var all := hdr.totalHunks * hdr.UnitsPerHunk();
      if frames < 0 then 0 else if frames < all then frames else all
    }

    function UnitHunk(u: nat): nat
      requires 0 < hdr.unitBytes <= hdr.hunkBytes
    {
      u / hdr.UnitsPerHunk()
    }

    /** The position of a unit in its hunk. */
    function UnitStart(u: nat): (p: nat)
      requires 0 < hdr.unitBytes <= hdr.hunkBytes
      ensures p + hdr.unitBytes <= hdr.hunkBytes
    {
      var k := hdr.UnitsPerHunk();
      MulLeq(u % k + 1, k, hdr.unitBytes);
      u % k * hdr.unitBytes
    }

    lemma UnitExists(u: nat)
      requires 0 < hdr.unitBytes <= hdr.hunkBytes
      ensures UnitHunk(u) < hdr.totalHunks <==> u < hdr.totalHunks * hdr.UnitsPerHunk()
    {
      var k := hdr.UnitsPerHunk();
      if u < hdr.totalHunks * k {
        DivBelow(u, hdr.totalHunks, k);
      } else {
        DivMod(u, k);
        if u / k < hdr.totalHunks {
          MulLeq(u / k + 1, hdr.totalHunks, k);
        }
      }
    }

    /** The data of unit `u`: the first `dataSize` bytes of it. */
    ghost function UnitData(u: nat, dataSize: nat): (d: seq<Byte>)
      requires Valid() && dataSize <= hdr.unitBytes && 0 < hdr.unitBytes <= hdr.hunkBytes
      requires u < hdr.totalHunks * hdr.UnitsPerHunk()
      ensures |d| == dataSize
    {
      UnitExists(u);
      assert hunks[UnitHunk(u)] in hunks;
      hunks[UnitHunk(u)][UnitStart(u)..UnitStart(u) + dataSize]
    }

    ghost function AllUnits(dataSize: nat, frames: int): (us: seq<seq<Byte>>)
      requires Valid() && dataSize <= hdr.unitBytes && 0 < hdr.unitBytes <= hdr.hunkBytes
      ensures |us| == Units(frames)
      ensures forall d :: d in us ==> |d| == dataSize
    {
      seq(Units(frames), u requires 0 <= u < Units(frames) => UnitData(u, dataSize))
    }

    /** The CD: the data of all units one after another. */
    ghost function CdImage(dataSize: nat, frames: int): seq<Byte>
      requires Valid() && dataSize <= hdr.unitBytes && 0 < hdr.unitBytes <= hdr.hunkBytes
    {
      Flatten(AllUnits(dataSize, frames))
    }

    /** When hunks hold whole units, unit `u` lies at `u` times the unit size. */
    lemma UnitInImage(u: nat, dataSize: nat)
      requires Valid() && dataSize <= hdr.unitBytes && 0 < hdr.unitBytes && hdr.hunkBytes % hdr.unitBytes == 0
      requires hdr.unitBytes <= hdr.hunkBytes && u < hdr.totalHunks * hdr.UnitsPerHunk()
      ensures HasAt(Image(), u * hdr.unitBytes, UnitData(u, dataSize))
    {
      hide HasAt, Flatten;
      UnitExists(u);
      var k := hdr.UnitsPerHunk();
      DivMod(u, k);
      MulThree(u / k, k, u % k, hdr.unitBytes);
      PieceAt(hunks, hdr.hunkBytes, UnitHunk(u), UnitStart(u), dataSize);
    }

    /** Sector `s` of the view is the beginning of unit `s` of the decompressed file. */
    lemma SectorIsUnit(s: nat, dataSize: nat, frames: int)
      requires Valid() && 0 < dataSize <= hdr.unitBytes && hdr.hunkBytes % hdr.unitBytes == 0 && hdr.unitBytes <= hdr.hunkBytes
      requires s < Units(frames)
      ensures 0 <= s * dataSize && s * dataSize + dataSize <= |CdImage(dataSize, frames)|
      ensures 0 <= s * hdr.unitBytes && s * hdr.unitBytes + dataSize <= |Image()|
      ensures CdImage(dataSize, frames)[s * dataSize..s * dataSize + dataSize] == Image()[s * hdr.unitBytes..s * hdr.unitBytes + dataSize]
    {
      hide *;
      UnitInView(s, dataSize, frames);
      UnitInImage(s, dataSize);
      SamePart(CdImage(dataSize, frames), s * dataSize, Image(), s * hdr.unitBytes, UnitData(s, dataSize));
    }

    lemma UnitInView(s: nat, dataSize: nat, frames: int)
      requires Valid() && 0 < dataSize <= hdr.unitBytes <= hdr.hunkBytes && s < Units(frames)
      ensures s < hdr.totalHunks * hdr.UnitsPerHunk()
      ensures HasAt(CdImage(dataSize, frames), s * dataSize, UnitData(s, dataSize))
    {
      var us := AllUnits(dataSize, frames);
      hide Flatten, UnitData;
      assert us[s] == UnitData(s, dataSize) && us[s] in us;
      NearlyUniformBlock(us, dataSize, s);
    }

    /** What `NewFile` checks makes all counted sectors exist. */
    lemma AllSectorsExist(frames: int)
      requires 0 < hdr.unitBytes <= hdr.hunkBytes && hdr.hunkBytes % hdr.unitBytes == 0
      requires hdr.unitBytes * hdr.unitCount == hdr.logicalBytes <= hdr.totalHunks * hdr.hunkBytes
      requires 0 <= frames <= hdr.unitCount
      ensures Units(frames) == frames
    {
      var k, all := hdr.UnitsPerHunk(), hdr.totalHunks * hdr.UnitsPerHunk();
      MulThree(hdr.totalHunks, k, 0, hdr.unitBytes);
      MulCancel(hdr.unitCount, all, hdr.unitBytes);
    }

    function HunkNum(p: nat): nat
      requires hdr.hunkBytes > 0
    {
      p / hdr.hunkBytes
    }

    function PosInHunk(p: nat): nat
      requires hdr.hunkBytes > 0
    {
      p % hdr.hunkBytes
    }

    /** The position of hunk `h` in the image. */
    function HunkStart(h: nat): (p: nat) {
      MulLeq(0, h, hdr.hunkBytes);
      h * hdr.hunkBytes
    }

    /** What lies at position `pos` of hunk `h`. */
    lemma PartOfHunk(h: nat, pos: nat, n: nat)
      requires Valid() && h < |hunks| && pos + n <= hdr.hunkBytes
      ensures HasAt(Image(), HunkStart(h) + pos, hunks[h][pos..pos + n])
    {
      PieceAt(hunks, hdr.hunkBytes, h, pos, n);
    }

    /** Reading stops at the end of the hunk with the last logical byte, or of the last hunk. */
    function ReadableHunks(): nat
      requires hdr.hunkBytes > 0
    {
      var n := hdr.logicalBytes / hdr.hunkBytes + if hdr.logicalBytes % hdr.hunkBytes > 0 then 1 else 0;
      if n < hdr.totalHunks then n else hdr.totalHunks
    }

    /** What a read of `len` bytes at `s` delivers. */
    function Delivered(s: nat, len: nat): nat
      requires hdr.hunkBytes > 0
    {
      var limit := HunkStart(ReadableHunks());
      if s >= limit then 0 else if s + len < limit then len else limit - s
    }

    /** Exactly when a read delivers bytes from behind the logical end: it asks for them,
        and they are in the last readable hunk. */
    lemma OverreadsExactly(s: nat, len: nat)
      requires hdr.hunkBytes > 0 && s < hdr.logicalBytes <= hdr.totalHunks * hdr.hunkBytes
      ensures s + Delivered(s, len) > hdr.logicalBytes <==> s + len > hdr.logicalBytes && hdr.logicalBytes % hdr.hunkBytes != 0
      ensures Delivered(s, len) < len ==>
                s + Delivered(s, len) == hdr.logicalBytes / hdr.hunkBytes * hdr.hunkBytes + if hdr.logicalBytes % hdr.hunkBytes > 0 then hdr.hunkBytes else 0
      ensures Delivered(s, len) <= len
    {
      var c := hdr.logicalBytes / hdr.hunkBytes + if hdr.logicalBytes % hdr.hunkBytes > 0 then 1 else 0;
      CeilMultiple(hdr.logicalBytes, hdr.hunkBytes, hdr.totalHunks);
      assert ReadableHunks() == c;
      assert hdr.logicalBytes % hdr.hunkBytes == 0 ==> c * hdr.hunkBytes == hdr.logicalBytes;
      assert hdr.logicalBytes % hdr.hunkBytes != 0 ==> c * hdr.hunkBytes > hdr.logicalBytes;
    }

    /** Where a position is, and that its hunk is readable if it exists. */
    lemma HunkOf(p: nat)
      requires Valid() && p < hdr.logicalBytes
      ensures p == HunkStart(HunkNum(p)) + PosInHunk(p) && PosInHunk(p) < hdr.hunkBytes
      ensures HunkStart(HunkNum(p) + 1) == HunkStart(HunkNum(p)) + hdr.hunkBytes
      ensures if HunkNum(p) < hdr.totalHunks then HunkStart(HunkNum(p) + 1) <= HunkStart(ReadableHunks())
              else p >= HunkStart(ReadableHunks())
    {
      DivMod(p, hdr.hunkBytes);
      var h := HunkNum(p);
      ReadableIs(h);
      hide ReadableHunks, HunkNum, PosInHunk, Valid;
      if h < hdr.totalHunks {
        MulLeq(h + 1, ReadableHunks(), hdr.hunkBytes);
      } else {
        MulLeq(ReadableHunks(), h, hdr.hunkBytes);
      }
    }

    lemma ReadableIs(h: nat)
      requires hdr.hunkBytes > 0
      ensures h < ReadableHunks() <==> h < hdr.totalHunks && HunkStart(h) < hdr.logicalBytes
    {
      CeilMultiple(hdr.logicalBytes, hdr.hunkBytes, h);
    }

    lemma ExtendByHunk(from: nat, part: seq<Byte>, h: nat, pos: nat, n: nat)
      requires Valid() && h < |hunks| && pos + n <= hdr.hunkBytes
      requires from + |part| == HunkStart(h) + pos && (|part| > 0 ==> HasAt(Image(), from, part))
      ensures HasAt(Image(), from, part + hunks[h][pos..pos + n])
    {
      hide HasAt, HunkStart;
      assert hunks[h] in hunks;
      PartOfHunk(h, pos, n);
      if part == [] {
        assert part + hunks[h][pos..pos + n] == hunks[h][pos..pos + n];
      } else {
        ExtendAt(Image(), from, part, hunks[h][pos..pos + n]);
      }
    }

    /** The loop of a read stops at the end of what can be delivered. */
    lemma StopsAt(s: nat, p: nat, len: nat, aligned: nat)
      requires Valid() && s < hdr.logicalBytes && s <= p <= s + len
      requires p == s || p <= HunkStart(ReadableHunks())
      requires p == s || p == s + len || p == HunkStart(aligned)
      requires p == s + len || p >= hdr.logicalBytes || HunkNum(p) >= hdr.totalHunks
      ensures p - s == Delivered(s, len)
    {
      CeilMultiple(hdr.logicalBytes, hdr.hunkBytes, aligned);
      if p < s + len {
        if p < hdr.logicalBytes {
          HunkOf(p);
        } else {
          MulLeq(ReadableHunks(), aligned, hdr.hunkBytes);
        }
      }
    }
  }

  class ChdFile {
    const content: Content
    var offset: nat
    var currentHunkNum: nat
    var currentHunkData: array<Byte>   // empty until a hunk has been loaded

    /** The cached hunk is the hunk that its number says. */
    ghost predicate Valid()
      reads this, currentHunkData
    {
      && content.Valid()
      && (currentHunkData.Length > 0 ==> currentHunkNum < content.hdr.totalHunks && currentHunkData[..] == content.hunks[currentHunkNum])
    }

    constructor (content: Content)
      requires content.Valid()
      ensures Valid() && this.content == content && offset == 0 && fresh(currentHunkData)
    {
      this.content, offset, currentHunkNum := content, 0, 0;
      currentHunkData := new Byte[0];
    }

    method LoadHunk(hunkNum: nat)
      requires Valid() && hunkNum < content.hdr.totalHunks
      modifies this`currentHunkNum, this`currentHunkData, currentHunkData
      ensures Valid() && (currentHunkData == old(currentHunkData) || fresh(currentHunkData))
      ensures currentHunkData.Length == content.hdr.hunkBytes && currentHunkData[..] == content.hunks[hunkNum]
    {
      if hunkNum == currentHunkNum && currentHunkData.Length > 0 {
        return;
      }
      assert content.hunks[hunkNum] in content.hunks;
      if currentHunkData.Length == 0 {
        currentHunkData := new Byte[content.hdr.hunkBytes](_ => 0);
      }
      CopyInto(currentHunkData, 0, content.hunks[hunkNum]);
      currentHunkNum := hunkNum;
      assert currentHunkData[..] == content.hunks[hunkNum];
    }

    /** Copy as much of a hunk as there is room for. A whole hunk is decompressed straight
        into the buffer and leaves the cache alone. */
    method CopyHunk(hunkNum: nat, offsetInHunk: nat, b: array<Byte>, n: nat) returns (copied: nat)
      requires Valid() && b != currentHunkData && hunkNum < content.hdr.totalHunks
      requires n < b.Length && offsetInHunk < content.hdr.hunkBytes
      modifies this`currentHunkNum, this`currentHunkData, currentHunkData, b
      ensures Valid() && (currentHunkData == old(currentHunkData) || fresh(currentHunkData))
      ensures var rest := content.hdr.hunkBytes - offsetInHunk;
        copied == if b.Length - n < rest then b.Length - n else rest
      ensures |content.hunks[hunkNum]| == content.hdr.hunkBytes
      ensures b[..n + copied] == old(b[..n]) + content.hunks[hunkNum][offsetInHunk..offsetInHunk + copied]
    {
      assert content.hunks[hunkNum] in content.hunks;
      var rest := content.hdr.hunkBytes - offsetInHunk;
      if offsetInHunk == 0 && b.Length - n >= content.hdr.hunkBytes {
        CopyInto(b, n, content.hunks[hunkNum]);
        copied := content.hdr.hunkBytes;
      } else {
        LoadHunk(hunkNum);
        copied := if b.Length - n < rest then b.Length - n else rest;
        CopyInto(b, n, currentHunkData[offsetInHunk..offsetInHunk + copied]);
      }
      assert b[..n + copied] == old(b[..n]) + content.hunks[hunkNum][offsetInHunk..offsetInHunk + copied];
    }

    /** Fills the buffer up to the end of the last readable hunk, even behind the logical
        end of the image, which `Delivered` and `OverreadsExactly` account for. */
    method Read(b: array<Byte>) returns (n: nat, res: Outcome)
      requires Valid() && b != currentHunkData
      modifies this, currentHunkData, b
      ensures Valid() && (currentHunkData == old(currentHunkData) || fresh(currentHunkData))
      ensures res == if old(offset) >= content.hdr.logicalBytes then EndOfFile else Done
      ensures n == (if res == Done then content.Delivered(old(offset), b.Length) else 0)
      ensures offset == old(offset) + n
      ensures res == Done ==> n <= b.Length && (n > 0 ==> HasAt(content.Image(), old(offset), b[..n]))
    {
      hide HasAt, Content.Image, Content.ReadableHunks, Content.Delivered, Content.HunkNum, Content.PosInHunk, Content.HunkStart;
      n := 0;
      if offset >= content.hdr.logicalBytes {
        return 0, EndOfFile;
      }
      var newOffset := offset;
      ghost var aligned: nat, limit := 0, content.HunkStart(content.ReadableHunks());
      while n < b.Length && newOffset < content.hdr.logicalBytes
        invariant Valid() && (currentHunkData == old(currentHunkData) || fresh(currentHunkData))
        invariant b != currentHunkData && offset == old(offset)
        invariant newOffset == offset + n && n <= b.Length
        invariant n == 0 || newOffset <= limit
        invariant n == 0 || n == b.Length || newOffset == content.HunkStart(aligned)
        invariant n > 0 ==> HasAt(content.Image(), offset, b[..n])
        decreases b.Length - n
      {
        var desiredHunkNum, offsetInHunk := content.HunkNum(newOffset), content.PosInHunk(newOffset);
        content.HunkOf(newOffset);
        if desiredHunkNum >= content.hdr.totalHunks {
          break;
        }
        ghost var done := b[..n];
        var copied := CopyHunk(desiredHunkNum, offsetInHunk, b, n);
        content.ExtendByHunk(offset, done, desiredHunkNum, offsetInHunk, copied);
        n, newOffset := n + copied, newOffset + copied;
        aligned := desiredHunkNum + 1;
      }
      content.StopsAt(offset, newOffset, b.Length, aligned);
      offset := newOffset;
      res := Done;
    }

    /** A position behind the logical end, where an overread leaves the file, cannot even
        be asked for: `SeekCurrent` by 0 is refused there. */
    method Seek(position: int, whence: Whence) returns (newOffset: nat, res: Outcome)
      modifies this`offset
      ensures var target := SeekTarget(position, whence, old(offset), content.hdr.logicalBytes);
        res == (if target.Some? then Done else Invalid) && (res == Done ==> offset == newOffset == target.value)
      ensures res != Done ==> offset == old(offset)
    {
      var target := position;
      match whence {
        case SeekStart =>
        case SeekCurrent => target := target + offset;
        case SeekEnd => target := content.hdr.logicalBytes + target;
        case OtherWhence => return 0, Invalid;
      }
      if target < 0 || target > content.hdr.logicalBytes {
        return 0, Invalid;
      }
      offset := target;
      return target, Done;
    }
  }

  /** `AsCD`: the size of a sector's data and the number of sectors, if the file is a CD. */
  method AsCD(hdr: Header, mds: seq<CDMetadata>) returns (ok: bool, sectorDataSize: nat, totalFrames: int)
    requires |hdr.compression| == 4
    ensures ok <==> CdConsistent(hdr, mds)
    ensures ok ==> sectorDataSize == SectorDataSize(mds[0]) && totalFrames == TotalFrames(mds)
  {
    hide SectorDataSize;
    sectorDataSize, totalFrames := 0, 0;
    if !hdr.IsCDCodesOnly() || |mds| == 0 {
      return false, 0, 0;
    }
    for i := 0 to |mds|
      invariant totalFrames == TotalFrames(mds[..i])
      invariant sectorDataSize == if i == 0 then 0 else SectorDataSize(mds[0])
      invariant forall k :: 0 <= k < i ==> SectorDataSize(mds[k]) == SectorDataSize(mds[0])
    {
      var md := mds[i];
      assert mds[..i + 1][..i] == mds[..i];
      totalFrames := totalFrames + md.frames;
      if sectorDataSize == 0 {
        sectorDataSize := SectorDataSize(md);
      } else if sectorDataSize != SectorDataSize(md) {
        return false, 0, 0;
      }
    }
    assert mds[..|mds|] == mds;
    ok := true;
  }

  class CDFile {
    const file: ChdFile
    const sectorsCount: int
    const sectorDataSize: nat
    const size: int
    var offset: nat

    /** Sector data fit their units, and the size is that of all sectors. */
    ghost predicate Shape() {
      && file.content.Valid()
      && 0 < sectorDataSize <= file.content.hdr.unitBytes <= file.content.hdr.hunkBytes
      && size == sectorsCount * sectorDataSize
    }

    ghost predicate Valid()
      reads file, file.currentHunkData
    {
      Shape() && file.Valid()
    }

    constructor (file: ChdFile, sectorDataSize: nat, sectorsCount: int)
      requires file.Valid()
      requires 0 < sectorDataSize <= file.content.hdr.unitBytes <= file.content.hdr.hunkBytes
      ensures Valid() && this.file == file && this.sectorDataSize == sectorDataSize && this.sectorsCount == sectorsCount
      ensures offset == 0
    {
      this.file, this.sectorDataSize, this.sectorsCount := file, sectorDataSize, sectorsCount;
      size, offset := sectorsCount * sectorDataSize, 0;
    }

    /** The whole view. */
    ghost function Image(): seq<Byte>
      requires Shape()
    {
      file.content.CdImage(sectorDataSize, sectorsCount)
    }

    function OffsetToPosition(offset: nat): (r: (nat, nat, nat))
      requires Shape()
    {
      var unitNum := offset / sectorDataSize;
      var unitStart := file.content.UnitStart(unitNum);
      (file.content.UnitHunk(unitNum), unitStart + offset % sectorDataSize, unitStart + sectorDataSize)
    }

    /** What the view delivers of a read of `len` bytes at `s`. */
    ghost function Delivered(s: nat, len: nat): nat
      requires Shape()
    {
      if s >= |Image()| then 0 else if s + len < |Image()| then len else |Image()| - s
    }

    /** The view ends with its size, unless sectors are missing from the file. */
    lemma ViewSize()
      requires Shape()
      ensures |Image()| == file.content.Units(sectorsCount) * sectorDataSize
      ensures size >= 0 ==> |Image()| <= size
      ensures 0 <= sectorsCount == file.content.Units(sectorsCount) ==> |Image()| == size
    {
      var us := file.content.AllUnits(sectorDataSize, sectorsCount);
      hide Flatten;
      UniformOffset(us, sectorDataSize, |us|);
      assert us[..|us|] == us;
      if sectorsCount >= 0 {
        MulLeq(|us|, sectorsCount, sectorDataSize);
      } else {
        MulLeq(1, -sectorsCount, sectorDataSize);
      }
    }

    lemma UnitIs(u: nat)
      requires Shape() && u < file.content.Units(sectorsCount)
      ensures var c, h, from := file.content, file.content.UnitHunk(u), file.content.UnitStart(u);
        && u < c.hdr.totalHunks * c.hdr.UnitsPerHunk() && h < c.hdr.totalHunks
        && |c.hunks[h]| == c.hdr.hunkBytes
        && c.AllUnits(sectorDataSize, sectorsCount)[u] == c.hunks[h][from..from + sectorDataSize]
    {
      hide Content.UnitHunk, Content.UnitStart;
      file.content.UnitExists(u);
      assert file.content.hunks[file.content.UnitHunk(u)] in file.content.hunks;
    }

    lemma PieceOfUnit(u: nat, at: nat, n: nat)
      requires Shape() && u < file.content.Units(sectorsCount) && at + n <= sectorDataSize
      ensures var c, h, from := file.content, file.content.UnitHunk(u), file.content.UnitStart(u);
        && h < |c.hunks| && |c.hunks[h]| == c.hdr.hunkBytes
        && HasAt(Image(), u * sectorDataSize + at, c.hunks[h][from + at..from + at + n])
    {
      UnitIs(u);
      var c, us := file.content, file.content.AllUnits(sectorDataSize, sectorsCount);
      hide HasAt, Flatten, Content.AllUnits, Content.UnitHunk, Content.UnitStart;
      var h, from := c.UnitHunk(u), c.UnitStart(u);
      PieceAt(us, sectorDataSize, u, at, n);
      SliceOfSlice(c.hunks[h], from, from + sectorDataSize, at, at + n);
    }

    /** A position of the view is in a hunk that exists, with some data of its sector
        left; bytes from there are the bytes of the view. */
    lemma PositionIsUnit(p: nat, n: nat)
      requires Shape() && p < size
      ensures var (h, pos, end) := OffsetToPosition(p);
        if h < file.content.hdr.totalHunks then
          && h < |file.content.hunks| && |file.content.hunks[h]| == file.content.hdr.hunkBytes
          && pos < end <= file.content.hdr.hunkBytes
          && (n <= end - pos ==> HasAt(Image(), p, file.content.hunks[h][pos..pos + n]))
        else p >= |Image()|
    {
      var c := file.content;
      var u, at := p / sectorDataSize, p % sectorDataSize;
      DivMod(p, sectorDataSize);
      DivBelow(p, sectorsCount, sectorDataSize);
      c.UnitExists(u);
      ViewSize();
      hide HasAt, Content.CdImage, Content.UnitHunk, Content.UnitStart;
      if c.UnitHunk(u) < c.hdr.totalHunks {
        assert u < c.Units(sectorsCount);
        UnitIs(u);
        if n <= sectorDataSize - at {
          PieceOfUnit(u, at, n);
        }
      } else {
        MulLeq(c.Units(sectorsCount), u, sectorDataSize);
      }
    }

    /** Copy what a hunk holds of one sector. */
    method CopySector(p: nat, b: array<Byte>, n: nat, ghost start: nat) returns (copied: nat, ok: bool)
      requires Valid() && b != file.currentHunkData && p < size && n < b.Length
      requires p == start + n && (n > 0 ==> HasAt(Image(), start, b[..n]))
      modifies file`currentHunkNum, file`currentHunkData, file.currentHunkData, b
      ensures Valid() && (file.currentHunkData == old(file.currentHunkData) || fresh(file.currentHunkData))
      ensures !ok ==> p >= |Image()| && copied == 0 && b[..n] == old(b[..n])
      ensures ok ==> 0 < copied <= b.Length - n && p + copied <= |Image()| && HasAt(Image(), start, b[..n + copied])
    {
      hide HasAt, Image, Shape, OffsetToPosition, ChdFile.Valid;
      var (desiredHunkNum, offsetInHunk, end) := OffsetToPosition(p);
      PositionIsUnit(p, 0);
      if desiredHunkNum >= file.content.hdr.totalHunks {
        return 0, false;
      }
      ghost var done := b[..n];
      file.LoadHunk(desiredHunkNum);
      copied := if b.Length - n < end - offsetInHunk then b.Length - n else end - offsetInHunk;
      PositionIsUnit(p, copied);
      CopyInto(b, n, file.currentHunkData[offsetInHunk..offsetInHunk + copied]);
      ghost var more := file.content.hunks[desiredHunkNum][offsetInHunk..offsetInHunk + copied];
      assert b[..n] == done;
      assert b[..n + copied] == done + more;
      WithinImage(p, more);
      if n == 0 {
        assert b[..copied] == more;
      } else {
        ExtendAt(Image(), start, done, more);
      }
      ok := true;
    }

    lemma HasShape()
      requires Valid()
      ensures Shape()
    {
    }

    lemma WithinImage(p: nat, part: seq<Byte>)
      requires Shape() && HasAt(Image(), p, part)
      ensures p + |part| <= |Image()|
    {
    }

    method Read(b: array<Byte>) returns (n: nat, res: Outcome)
      requires Valid() && b != file.currentHunkData
      modifies this`offset, file`currentHunkNum, file`currentHunkData, file.currentHunkData, b
      ensures Valid() && (file.currentHunkData == old(file.currentHunkData) || fresh(file.currentHunkData))
      ensures res == if old(offset) >= size then EndOfFile else Done
      ensures n == if res == Done then Delivered(old(offset), b.Length) else 0
      ensures offset == old(offset) + n
      ensures res == Done ==> n <= b.Length && (n > 0 ==> HasAt(Image(), old(offset), b[..n]))
    {
      n := 0;
      if offset >= size {
        return 0, EndOfFile;
      }
      hide HasAt, Image, Shape, OffsetToPosition, ChdFile.Valid, Valid, Content.Units;
      HasShape();
      ViewSize();
      var newOffset, ok := offset, true;
      while n < b.Length && newOffset < size && ok
        invariant Valid() && (file.currentHunkData == old(file.currentHunkData) || fresh(file.currentHunkData))
        invariant b != file.currentHunkData && offset == old(offset)
        invariant newOffset == offset + n && n <= b.Length
        invariant n > 0 ==> newOffset <= |Image()| && HasAt(Image(), offset, b[..n])
        invariant ok || newOffset >= |Image()|
        decreases b.Length - n, ok
      {
        var copied;
        copied, ok := CopySector(newOffset, b, n, offset);
        n, newOffset := n + copied, newOffset + copied;
      }
      offset := newOffset;
      res := Done;
    }

    method Seek(position: int, whence: Whence) returns (newOffset: nat, res: Outcome)
      requires size >= 0
      modifies this`offset
      ensures var target := SeekTarget(position, whence, old(offset), size);
        res == (if target.Some? then Done else Invalid) && (res == Done ==> offset == newOffset == target.value)
      ensures res != Done ==> offset == old(offset)
    {
      var target := position;
      match whence {
        case SeekStart =>
        case SeekCurrent => target := target + offset;
        case SeekEnd => target := size + target;
        case OtherWhence => return 0, Invalid;
      }
      if target < 0 || target > size {
        return 0, Invalid;
      }
      offset := target;
      return target, Done;
    }
  }
}
