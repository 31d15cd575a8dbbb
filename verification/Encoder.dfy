/** The growing byte buffer that all file system structures are encoded into. */
module Encoding {
  import opened Bytes
  import opened Sectors
  import opened Records

  class Encoder {
    var buf: seq<Byte>

    constructor ()
      ensures buf == []
    {
      buf := [];
    }

    /** The next position that the encoder would write to. */
    function Size(): nat
      reads this
    {
      |buf|
    }

    method AppendByte(b: Byte)
      modifies this
      ensures buf == old(buf) + [b]
    {
      buf := buf + [b];
    }

    method AppendBytes(b: seq<Byte>)
      modifies this
      ensures buf == old(buf) + b
    {
      buf := buf + b;
    }

    method AppendZeroes(size: nat)
      modifies this
      ensures buf == old(buf) + Zeros(size)
    {
      buf := buf + Zeros(size);
    }

    method SetByteAt(b: Byte, pos: nat)
      requires pos < |buf|
      modifies this
      ensures buf == old(buf)[pos := b]
    {
      buf := buf[pos := b];
    }

    method PadLastSector()
      modifies this
      ensures buf == old(buf) + Zeros(AlignUp(old(|buf|)) - old(|buf|))
    {
      var extra := Size() % SECTOR_SIZE;
      if extra > 0 {
        AppendZeroes(SECTOR_SIZE - extra);
      }
    }

    method AppendUint16LSBMSB(v: int)
      modifies this
      ensures buf == old(buf) + LE16(v) + BE16(v)
    {
      AppendBytes(LE16(v));
      AppendBytes(BE16(v));
    }

    method AppendUint32LSBMSB(v: int)
      modifies this
      ensures buf == old(buf) + LE32(v) + BE32(v)
    {
      AppendBytes(LE32(v));
      AppendBytes(BE32(v));
    }

    /** Refuses, where the source panics, a string longer than its field. */
    method AppendString(s: seq<Byte>, fixedLen: nat, filler: Byte) returns (ok: bool)
      modifies this
      ensures ok <==> |s| <= fixedLen
      ensures ok ==> buf == old(buf) + PadTo(s, fixedLen, filler)
      ensures !ok ==> buf == old(buf)
    {
      if |s| > fixedLen {
        return false;
      }
      AppendBytes(s);
      var start := Size();
      AppendZeroes(fixedLen - |s|);
      for i := start to Size()
        invariant |buf| == start + (fixedLen - |s|)
        invariant buf[..start] == old(buf) + s
        invariant forall k :: start <= k < i ==> buf[k] == filler
      {
        SetByteAt(filler, i);
      }
      assert buf == old(buf) + PadTo(s, fixedLen, filler);
      return true;
    }

    /** `FixedDirectoryEntry.addBytes`: all fields, with a zero where the size goes. */
    method AddRecord(r: Rec) returns (startPos: nat)
      modifies this
      ensures startPos == old(|buf|)
      ensures buf == old(buf) + FixedBytes(r, 0)
    {
      hide RecHead;
      startPos := Size();
      AddHead(r);
      AppendBytes(r.ident);
      if (|r.ident| + 1) % 2 > 0 {
        AppendByte(0);
      }
      assert buf == old(buf) + (RecHead(r, 0) + r.ident + Zeros((|r.ident| + 1) % 2));
    }

    /** The fields in front of the identifier. */
    method AddHead(r: Rec)
      modifies this
      ensures buf == old(buf) + RecHead(r, 0)
    {
      hide LE16, BE16, LE32, BE32;
      AppendByte(0);
      AppendByte(0);
      AppendUint32LSBMSB(r.loc);
      ghost var head := [0, 0] + LE32(r.loc) + BE32(r.loc);
      assert buf == old(buf) + head;
      AppendUint32LSBMSB(r.len);
      head := head + LE32(r.len) + BE32(r.len);
      assert buf == old(buf) + head;
      AppendBytes(r.stamp);
      AppendByte(r.flags);
      AppendByte(0);
      AppendByte(0);
      head := head + r.stamp + [r.flags, 0, 0];
      assert buf == old(buf) + head;
      AppendUint16LSBMSB(1);
      AppendByte(|r.ident| % 256);
      head := head + LE16(1) + BE16(1) + [|r.ident| % 256];
      assert buf == old(buf) + head;
      assert head == RecHead(r, 0);
    }

    /** `FixedDirectoryEntry.Encode`; its size check never panics. */
    method EncodeRoot(r: Rec)
      modifies this
      ensures buf == old(buf) + RootBytes(r)
    {
      var startPos := AddRecord(r);
      assert FixedSize(|r.ident|) == Size() - startPos;
      SetByteAt((Size() - startPos) % 256, startPos);
      SetSizeByte(old(buf), r, FixedSize(|r.ident|) % 256, []);
    }

    /** `DirectoryEntry.Encode`: a record that would reach the end of the sector
        starts a new one; the size check never panics. */
    method EncodeRecord(r: Rec)
      modifies this
      ensures buf == old(buf) + PackOne(old(|buf|), r)
    {
      hide FixedBytes;
      var encSize := Size();
      if RecSize(r) >= AlignUp(encSize) - encSize {
        PadLastSector();
      }
      ghost var padded := buf;
      var startPos := AddRecord(r);
      AppendZeroes(SYSTEM_USE);
      assert RecSize(r) == Size() - startPos;
      SetByteAt((Size() - startPos) % 256, startPos);
      SetSizeByte(padded, r, RecSize(r) % 256, Zeros(SYSTEM_USE));
      assert buf == padded + RecBytes(r);
      assert padded == old(buf) + Zeros(StartOf(old(|buf|), RecSize(r)) - old(|buf|));
    }

    /** All records of one directory, padded to a whole sector. */
    method EncodeDirectory(rs: seq<Rec>)
      requires |buf| % SECTOR_SIZE == 0
      modifies this
      ensures buf == old(buf) + Extent(rs)
    {
      hide PackOne, RecBytes, AlignUp;
      for i := 0 to |rs|
        invariant buf == old(buf) + Pack(old(|buf|), rs[..i])
      {
        PackSnoc(old(|buf|), rs[..i], rs[i]);
        assert rs[..i] + [rs[i]] == rs[..i + 1];
        EncodeRecord(rs[i]);
      }
      assert rs[..|rs|] == rs;
      PackShift(old(|buf|), 0, rs);
      AlignUpShift(old(|buf|), |Pack(0, rs)|);
      PadLastSector();
    }
  }

  lemma SetSizeByte(before: seq<Byte>, r: Rec, size: Byte, tail: seq<Byte>)
    ensures (before + FixedBytes(r, 0) + tail)[|before| := size] == before + (FixedBytes(r, size) + tail)
  {
    hide LE16, BE16, LE32, BE32;
    assert RecHead(r, 0)[0 := size] == RecHead(r, size);
    assert FixedBytes(r, 0)[0 := size] == FixedBytes(r, size);
  }
}
