/** What all file-like objects share: how calls end, how a seek finds its target, and
    the loops that fill a caller's buffer. */
module Files {
  import opened Wrappers
  import opened Bytes

  /** How a read or a seek ends. `Failed` is an error that is neither the end of the
      file nor a bad argument, `OutOfRange` a panic, `Invalid` a bad argument. */
  datatype Outcome = Done | EndOfFile | Closed | Failed | OutOfRange | Invalid

  datatype Whence = SeekStart | SeekCurrent | SeekEnd | OtherWhence

  /** Where a seek goes; there is no target outside the file. */
  function SeekTarget(position: int, whence: Whence, offset: nat, size: nat): (r: Option<nat>)
    ensures r.Some? ==> r.value <= size
    ensures whence == SeekStart && 0 <= position <= size ==> r == Some(position)
  {
    var target := match whence
      case SeekStart => position
      case SeekCurrent => position + offset
      case SeekEnd => size + position
      case OtherWhence => -1;
    if 0 <= target <= size then Some(target) else None
  }

  /** A seek goes to every position up to the end; from the current position and from the end it
      goes as many bytes further as it is told. */
  lemma SeekLaws(position: int, offset: nat, size: nat)
    ensures SeekTarget(position, SeekStart, offset, size) == if 0 <= position && position <= size then Some(position) else None
    ensures SeekTarget(position, SeekCurrent, offset, size) == SeekTarget(offset + position, SeekStart, 0, size)
    ensures SeekTarget(position, SeekEnd, offset, size) == SeekTarget(size + position, SeekStart, 0, size)
    ensures SeekTarget(0, SeekEnd, offset, size) == Some(size) && SeekTarget(0 - size, SeekEnd, offset, size) == Some(0)
    ensures SeekTarget(position, OtherWhence, offset, size) == None
  {
  }

  /** Copy bytes into the buffer. */
  method CopyInto(buf: array<Byte>, pos: nat, data: seq<Byte>)
    requires pos + |data| <= buf.Length
    modifies buf
    ensures forall q :: pos <= q < pos + |data| ==> buf[q] == data[q - pos]
    ensures forall k :: 0 <= k < pos || pos + |data| <= k < buf.Length ==> buf[k] == old(buf[k])
  {
    for i := 0 to |data|
      invariant forall q :: pos <= q < pos + i ==> buf[q] == data[q - pos]
      invariant forall k :: 0 <= k < pos || pos + i <= k < buf.Length ==> buf[k] == old(buf[k])
    {
      buf[pos + i] := data[i];
    }
  }

  method ZeroOut(buf: array<Byte>, pos: nat, len: nat)
    requires pos + len <= buf.Length
    modifies buf
    ensures forall k :: pos <= k < pos + len ==> buf[k] == 0
    ensures forall k :: 0 <= k < pos || pos + len <= k < buf.Length ==> buf[k] == old(buf[k])
  {
    for i := 0 to len
      invariant forall k :: pos <= k < pos + i ==> buf[k] == 0
      invariant forall k :: 0 <= k < pos || pos + i <= k < buf.Length ==> buf[k] == old(buf[k])
    {
      buf[pos + i] := 0;
    }
  }

  /** `io.ReadFull` at an absolute position into `buf[lo..hi]`; not ok when the file is
      too short, which leaves the buffer in an unknown state. */
  method ReadFull(file: seq<Byte>, at: nat, buf: array<Byte>, lo: nat, hi: nat) returns (ok: bool)
    requires lo <= hi <= buf.Length
    modifies buf
    ensures ok <==> lo == hi || at + (hi - lo) <= |file|
    ensures ok && lo < hi ==> buf[lo..hi] == file[at..at + (hi - lo)]
    ensures buf[..lo] == old(buf[..lo]) && buf[hi..] == old(buf[hi..])
  {
    ok := lo == hi || at + (hi - lo) <= |file|;
    if ok && lo < hi {
      CopyInto(buf, lo, file[at..at + (hi - lo)]);
    }
  }
}
