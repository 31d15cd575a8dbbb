/** The list of files behind an image and the search that finds the file to read. */
module Serving {
  import opened Bytes
  import opened Sectors
  import opened Records
  import opened SourceTree
  import opened Scan
  import opened Volumes
  import opened Files

  /** `fileItem`; `rLBA` is the file's first sector in the image. */
  datatype FileItem = FileItem(path: Path, size: nat, rLBA: nat) {
    function Start(): nat {
      rLBA * SECTOR_SIZE
    }

    /** The end of the contents. */
    function Eof(): nat {
      Start() + size
    }

    /** The end of the padded file. */
    function End(): (e: nat)
      ensures e == Start() + AlignUp(size)
      ensures Eof() <= e < Eof() + SECTOR_SIZE
    {
      (rLBA + CeilSectors(size)) * SECTOR_SIZE
    }

    /** `p` is behind the contents but still in the last sector of the file. */
    predicate InTail(p: nat) {
      Eof() < p < End()
    }
  }

  /** The files fill the positions from `from` to `to` without gap or overlap. */
  ghost predicate Contiguous(files: seq<FileItem>, from: nat, to: nat) {
    && (files == [] ==> from == to)
    && (files != [] ==> files[0].Start() == from && files[|files| - 1].End() == to)
    && forall k :: 0 <= k < |files| - 1 ==> files[k].End() == files[k + 1].Start()
  }

  lemma {:induction false} FilesOrdered(files: seq<FileItem>, from: nat, to: nat, i: nat, j: nat)
    requires Contiguous(files, from, to) && i <= j < |files|
    ensures from <= files[i].Start() <= files[i].End() <= to
    ensures i < j ==> files[i].End() <= files[j].Start()
    decreases |files| - i
  {
    hide FileItem.Start, FileItem.End;
    if i < |files| - 1 {
      FilesOrdered(files, from, to, i + 1, if j > i then j else i + 1);
    }
    FilesAfter(files, from, to, i);
  }

  lemma {:induction false} FilesAfter(files: seq<FileItem>, from: nat, to: nat, i: nat)
    requires Contiguous(files, from, to) && i < |files|
    ensures from <= files[i].Start()
  {
    if i > 0 {
      FilesAfter(files, from, to, i - 1);
    }
  }

  /** The comparison of `filesToRead`: where the sector lies relative to the file. */
  function CompareSector(f: FileItem, sector: nat): int {
    if sector < f.rLBA then 1
    else if sector >= f.rLBA + CeilSectors(f.size) then -1
    else 0
  }

  lemma CompareIsPosition(f: FileItem, sector: nat)
    ensures CompareSector(f, sector) >= 0 <==> sector * SECTOR_SIZE < f.End()
    ensures CompareSector(f, sector) == 0 <==> f.Start() <= sector * SECTOR_SIZE < f.End()
  {
  }

  /** `slices.BinarySearchFunc`: the only file that owns the sector, if there is one.
      Empty files own no sector, so it never stops at one. */
  method FindFile(files: seq<FileItem>, sector: nat, ghost from: nat, ghost to: nat) returns (i: nat, found: bool)
    requires Contiguous(files, from, to)
    ensures found <==> exists k :: 0 <= k < |files| && files[k].Start() <= sector * SECTOR_SIZE < files[k].End()
    ensures found ==> i < |files| && files[i].Start() <= sector * SECTOR_SIZE < files[i].End()
    ensures found ==> forall k :: 0 <= k < |files| && k != i ==>
              !(files[k].Start() <= sector * SECTOR_SIZE < files[k].End())
  {
    hide FileItem.Start, FileItem.End, Contiguous, CompareSector;
    ghost var p := sector * SECTOR_SIZE;
    var n := |files|;
    var j := n;
    i := 0;
    while i < j
      invariant 0 <= i <= j <= n
      invariant forall k :: 0 <= k < i ==> files[k].End() <= p
      invariant forall k :: j <= k < n ==> p < files[k].End()
    {
      var h := (i + j) / 2;
      CompareIsPosition(files[h], sector);
      if CompareSector(files[h], sector) < 0 {
        forall k | 0 <= k < h ensures files[k].End() <= p {
          FilesOrdered(files, from, to, k, h);
          FilesOrdered(files, from, to, h, h);
        }
        i := h + 1;
      } else {
        forall k | h < k < n ensures p < files[k].End() {
          FilesOrdered(files, from, to, h, k);
          FilesOrdered(files, from, to, k, k);
        }
        j := h;
      }
    }
    found := i < n && CompareSector(files[i], sector) == 0;
    if i < n {
      CompareIsPosition(files[i], sector);
      forall k | i < k < n ensures p < files[k].Start() {
        FilesOrdered(files, from, to, i, k);
      }
    }
  }

  /** Any position between the first file and the padding has an owner. */
  lemma {:induction false} OwnerExists(files: seq<FileItem>, from: nat, to: nat, p: nat)
    requires Contiguous(files, from, to) && from <= p < to
    ensures exists k :: 0 <= k < |files| && files[k].Start() <= p < files[k].End()
    decreases |files|
  {
    hide FileItem.Start, FileItem.End;
    var last := |files| - 1;
    if files[last].Start() <= p {
    } else {
      var front := files[..last];
      assert files[0].Start() == from;
      assert files[last - 1].End() == files[last].Start();
      OwnerExists(front, from, files[last].Start(), p);
    }
  }

  // ----- the flat image behind the list

  /** `image` is the encoded structures, the padded files, and zeros. */
  ghost predicate Flat(image: seq<Byte>, fs: seq<Byte>, root: Node, files: seq<FileItem>, padStart: nat) {
    && |fs| <= padStart <= |image|
    && image[..|fs|] == fs
    && Contiguous(files, |fs|, padStart)
    && (forall k :: 0 <= k < |files| ==> FileLies(image, root, files[k]))
    && forall p :: padStart <= p < |image| ==> image[p] == 0
  }

  ghost predicate FileLies(image: seq<Byte>, root: Node, f: FileItem) {
    var data := FileData(root, f.path);
    && |data| == f.size && f.End() <= |image|
    && image[f.Start()..f.Eof()] == data
    && forall p :: f.Eof() <= p < f.End() ==> image[p] == 0
  }

  /** The image with zeros after its end. */
  function Extended(image: seq<Byte>, p: nat): Byte {
    if p < |image| then image[p] else 0
  }

  /** `part` is what lies at position `s` of the image, with zeros behind its end. */
  ghost predicate Shown(image: seq<Byte>, s: nat, part: seq<Byte>) {
    forall q :: 0 <= q < |part| ==> part[q] == Extended(image, s + q)
  }

  /** An empty file strictly inside the part of `[s, e)` that is behind `fsEnd`. */
  ghost predicate CrossesEmpty(files: seq<FileItem>, fsEnd: nat, s: nat, e: nat) {
    exists k :: 0 <= k < |files| && files[k].size == 0 && s < files[k].Start() < e && fsEnd < files[k].Start()
  }

  /** `p` is in the padding of some file's last sector. */
  ghost predicate InSomeTail(files: seq<FileItem>, p: nat) {
    exists k :: 0 <= k < |files| && files[k].InTail(p)
  }

  /** An empty file strictly inside `(s, e)`. */
  ghost predicate EmptyBetween(files: seq<FileItem>, s: nat, e: nat) {
    exists k :: 0 <= k < |files| && files[k].size == 0 && s < files[k].Start() < e
  }

  lemma FlatParts(image: seq<Byte>, fs: seq<Byte>, root: Node, files: seq<FileItem>, padStart: nat)
    requires Flat(image, fs, root, files, padStart)
    ensures Contiguous(files, |fs|, padStart) && |fs| <= padStart <= |image|
    ensures forall k :: 0 <= k < |files| ==> FileLies(image, root, files[k])
  {
  }

  /** A file owns a position exactly when it owns that position's sector. */
  lemma OwnerOfFloor(f: FileItem, p: nat)
    ensures f.Start() <= FloorSectors(p) * SECTOR_SIZE < f.End() <==> f.Start() <= p < f.End()
  {
  }

  /** How a read that ends at `e` comes out from position `p` on, outside padding. */
  ghost function CleanOutcome(files: seq<FileItem>, p: nat, e: nat): Outcome {
    if EmptyBetween(files, p, e) then Failed else if InSomeTail(files, e) then OutOfRange else Done
  }

  /** The same for a read that has come to position `d` of file `i`, which is where it stands
      if it began there or has written `d` zeros too many in front of that file. If the file
      is so short that this is in its padding again, its whole padding is written in turn. */
  ghost function LeadOutcome(files: seq<FileItem>, i: nat, d: nat, e: nat): Outcome
    requires i <= |files|
    decreases |files| - i
  {
    if i == |files| then Done
    else
      var f, off := files[i], files[i].Start() + d;
      if off >= f.End() then Failed
      else if d <= f.size then CleanOutcome(files, off, e)
      else if off == e then Done
      else if e - off < f.End() - f.Eof() then OutOfRange
      else LeadOutcome(files, i + 1, d - f.size, e)
  }

  /** The contents at position `q` are lost under the zeros of such a read. */
  predicate Masked(files: seq<FileItem>, i: nat, d: nat, q: nat)
    requires i <= |files|
    decreases |files| - i
  {
    i < |files| && (files[i].Start() <= q < files[i].Start() + d || (d > files[i].size && Masked(files, i + 1, d - files[i].size, q)))
  }

  /** `part` is what lies at position `s` of the image, but for what is lost. */
  ghost predicate ShownBut(image: seq<Byte>, files: seq<FileItem>, i: nat, d: nat, s: nat, part: seq<Byte>)
    requires i <= |files|
  {
    forall q :: 0 <= q < |part| ==> part[q] == if Masked(files, i, d, s + q) then 0 else Extended(image, s + q)
  }

  lemma ShownButConcat(image: seq<Byte>, files: seq<FileItem>, i: nat, d: nat, s: nat, a: seq<Byte>, b: seq<Byte>)
    requires i <= |files| && ShownBut(image, files, i, d, s, a) && ShownBut(image, files, i, d, s + |a|, b)
    ensures ShownBut(image, files, i, d, s, a + b)
  {
    hide Extended, Masked;
    forall q | 0 <= q < |a + b| ensures (a + b)[q] == if Masked(files, i, d, s + q) then 0 else Extended(image, s + q) {
      if q >= |a| {
        assert (a + b)[q] == b[q - |a|] && s + |a| + (q - |a|) == s + q;
      }
    }
  }

  /** From position `from` on, the same is lost from `(i, d)` as from `(j, c)`. */
  ghost predicate SameMask(files: seq<FileItem>, i: nat, d: nat, j: nat, c: nat, from: nat)
    requires i <= |files| && j <= |files|
  {
    forall q :: q >= from ==> Masked(files, i, d, q) == Masked(files, j, c, q)
  }

  /** Where file `i` begins, or the padding behind the last file. */
  function Boundary(files: seq<FileItem>, to: nat, i: nat): nat
    requires i <= |files|
  {
    if i < |files| then files[i].Start() else to
  }

  /** The file that owns a position, or none. */
  function Owner(files: seq<FileItem>, i: nat, p: nat): (k: nat)
    requires i <= |files|
    ensures i <= k <= |files|
    ensures k < |files| ==> files[k].Start() <= p < files[k].End()
    ensures forall j :: i <= j < k ==> !(files[j].Start() <= p < files[j].End())
    decreases |files| - i
  {
    if i == |files| || files[i].Start() <= p < files[i].End() then i else Owner(files, i + 1, p)
  }

  lemma OwnerIs(files: seq<FileItem>, from: nat, to: nat, k: nat, p: nat)
    requires Contiguous(files, from, to) && k < |files| && files[k].Start() <= p < files[k].End()
    ensures Owner(files, 0, p) == k
  {
    hide FileItem.Start, FileItem.End, Contiguous;
    var o := Owner(files, 0, p);
    if o < k {
      FilesOrdered(files, from, to, o, k);
    }
  }

  lemma NoOwner(files: seq<FileItem>, from: nat, to: nat, p: nat)
    requires Contiguous(files, from, to) && (p < from || p >= to)
    ensures Owner(files, 0, p) == |files|
  {
    hide FileItem.Start, FileItem.End, Contiguous;
    var o := Owner(files, 0, p);
    if o < |files| {
      FilesOrdered(files, from, to, o, o);
    }
  }

  /** How far into its owner a position is. */
  function LeadAt(files: seq<FileItem>, p: nat): nat {
    var k := Owner(files, 0, p);
    if k < |files| then p - files[k].Start() else 0
  }

  /** Where the files take over from the encoded structures in a read of `[s, e)`. */
  function TakeOver(fsEnd: nat, s: nat, e: nat): nat {
    if s >= fsEnd then s else if e < fsEnd then e else fsEnd
  }

  /** How a read of `[s, e)` ends. */
  ghost function ServeOutcome(files: seq<FileItem>, fsEnd: nat, s: nat, e: nat): Outcome {
    var p := TakeOver(fsEnd, s, e);
    if p == e then Done else LeadOutcome(files, Owner(files, 0, p), LeadAt(files, p), e)
  }

  /** What it delivers. */
  ghost predicate ServedRight(image: seq<Byte>, files: seq<FileItem>, fsEnd: nat, s: nat, e: nat, part: seq<Byte>) {
    var p := TakeOver(fsEnd, s, e);
    |part| == e - s && ShownBut(image, files, Owner(files, 0, p), LeadAt(files, p), s, part)
  }

  // ----- one file of a read

  lemma TailElsewhere(files: seq<FileItem>, from: nat, to: nat, i: nat, e: nat)
    requires Contiguous(files, from, to) && i < |files| && files[i].Start() <= e <= files[i].End()
    ensures InSomeTail(files, e) <==> files[i].InTail(e)
  {
    hide FileItem.Start, FileItem.End, FileItem.Eof;
    forall k | 0 <= k < |files| && k != i ensures !files[k].InTail(e) {
      Sizes(files[k]);
      FilesOrdered(files, from, to, if k < i then k else i, if k < i then i else k);
    }
  }

  lemma EmptyElsewhere(files: seq<FileItem>, from: nat, to: nat, i: nat, p: nat, e: nat)
    requires Contiguous(files, from, to) && i < |files| && files[i].Start() <= p && e <= files[i].End()
    ensures !EmptyBetween(files, p, e)
  {
    hide FileItem.Start, FileItem.End, FileItem.Eof;
    forall k | 0 <= k < |files| ensures !(p < files[k].Start() < e) {
      FilesOrdered(files, from, to, if k < i then k else i, if k < i then i else k);
      FilesOrdered(files, from, to, k, k);
      Sizes(files[k]);
    }
  }

  /** Behind the contents of file `i` the read goes on with the next file. */
  lemma CleanGoesOn(files: seq<FileItem>, from: nat, to: nat, i: nat, p: nat, e: nat)
    requires Contiguous(files, from, to) && i < |files|
    requires files[i].Start() <= p < files[i].End() < e
    ensures CleanOutcome(files, p, e) == LeadOutcome(files, i + 1, 0, e)
  {
    hide FileItem.Start, FileItem.End, FileItem.Eof, Contiguous, FileItem.InTail;
    if i + 1 == |files| {
      CleanEnds(files, from, to, i, p, e);
    } else {
      NextStart(files, from, to, i + 1);
      Sizes(files[i + 1]);
      forall k | 0 <= k < |files| && files[k].size == 0 && p < files[k].Start() < e
        ensures files[i + 1].size == 0 || files[i + 1].Start() < files[k].Start()
      {
        if k <= i {
          FilesOrdered(files, from, to, k, i);
        } else {
          FilesOrdered(files, from, to, i + 1, k);
        }
      }
    }
  }

  lemma CleanEnds(files: seq<FileItem>, from: nat, to: nat, i: nat, p: nat, e: nat)
    requires Contiguous(files, from, to) && i + 1 == |files|
    requires files[i].Start() <= p && files[i].End() < e
    ensures !EmptyBetween(files, p, e) && !InSomeTail(files, e)
  {
    hide FileItem.Start, FileItem.End, FileItem.Eof, Contiguous;
    forall k | 0 <= k < |files| ensures !files[k].InTail(e) && !(files[k].size == 0 && p < files[k].Start() < e) {
      FilesOrdered(files, from, to, k, i);
      FilesOrdered(files, from, to, i, i);
      Sizes(files[k]);
    }
  }

  /** What one file does for a read that stands at `off` and has the rest `part` of its buffer
      left: an error where the file does not own the position; from the contents, what there
      is of them and the whole padding behind them; from the padding, zeros for the whole
      padding and not just for what is left of it. Where the buffer is too short for the
      padding that is due, a panic. */
  ghost predicate FileAnswer(image: seq<Byte>, f: FileItem, off: nat, part: seq<Byte>, n: nat, res: Outcome) {
    var e := off + |part|;
    && res in {Done, Failed, OutOfRange}
    && (res == Failed <==> !(f.Start() <= off < f.End()))
    && (f.Start() <= off <= f.Eof() && off < f.End() ==> (res == OutOfRange <==> f.InTail(e)))
    && (f.InTail(off) ==> (res == OutOfRange <==> 0 < |part| < f.End() - f.Eof()))
    && (res == Done ==>
          && n <= |part|
          && n == (if off <= f.Eof() then (if e < f.End() then e - off else f.End() - off)
                   else if off == e then 0 else f.End() - f.Eof())
          && (if off <= f.Eof() then off + n <= |image| && part[..n] == image[off..off + n] else part[..n] == Zeros(n)))
  }

  /** One file ends the read, or hands it on to the next file. */
  lemma Iteration(image: seq<Byte>, files: seq<FileItem>, from: nat, to: nat, i: nat, d: nat, part: seq<Byte>, n: nat, res: Outcome)
    requires Contiguous(files, from, to) && i < |files| && files[i].Start() < files[i].Start() + d + |part|
    requires FileAnswer(image, files[i], files[i].Start() + d, part, n, res)
    ensures var e := files[i].Start() + d + |part|;
      && (res != Done ==> LeadOutcome(files, i, d, e) == res)
      && (res == Done ==> n <= |part|)
      && (res == Done && e <= files[i].End() ==> n == |part| && LeadOutcome(files, i, d, e) == Done)
      && (res == Done && e > files[i].End() ==>
            && files[i].Start() + d + n == files[i].End() + Next(files[i], d)
            && LeadOutcome(files, i, d, e) == LeadOutcome(files, i + 1, Next(files[i], d), e))
  {
    hide FileItem.Start, FileItem.End, FileItem.Eof, Contiguous, FileItem.InTail, EmptyBetween, InSomeTail;
    var f, off := files[i], files[i].Start() + d;
    var e := off + |part|;
    Sizes(f);
    EofIs(f);
    TailIs(f, off);
    if off < f.End() {
      if e <= f.End() {
        TailElsewhere(files, from, to, i, e);
        EmptyElsewhere(files, from, to, i, off, e);
        TailIs(f, f.End());
      } else {
        TailIs(f, e);
        if d <= f.size {
          CleanGoesOn(files, from, to, i, off, e);
        }
      }
    }
  }

  /** How far ahead a read is behind file `f`, if it was `d` bytes into it. */
  function Next(f: FileItem, d: nat): nat {
    if d <= f.size then 0 else d - f.size
  }

  lemma TailIs(f: FileItem, p: nat)
    ensures f.InTail(p) <==> f.Eof() < p < f.End()
  {
  }

  lemma EofIs(f: FileItem)
    ensures f.Eof() == f.Start() + f.size
  {
  }

  /** What is lost behind file `i` is what is lost from the next file on. */
  lemma MaskGoesOn(files: seq<FileItem>, from: nat, to: nat, first: nat, c: nat, i: nat, d: nat)
    requires Contiguous(files, from, to) && first <= i < |files| && files[i].Start() + d < files[i].End()
    requires SameMask(files, first, c, i, d, files[i].Start())
    ensures SameMask(files, first, c, i + 1, Next(files[i], d), files[i].End())
  {
    hide FileItem.Start, FileItem.End, Masked;
    var d' := Next(files[i], d);
    forall q | q >= files[i].End() ensures Masked(files, first, c, q) == Masked(files, i + 1, d', q) {
      MaskedNext(files, i, d, q);
    }
  }

  lemma MaskedNext(files: seq<FileItem>, i: nat, d: nat, q: nat)
    requires i < |files| && files[i].Start() + d < files[i].End() <= q
    ensures Masked(files, i, d, q) == Masked(files, i + 1, Next(files[i], d), q)
  {
    hide FileItem.Start, FileItem.End;
    if d <= files[i].size {
      NothingMasked(files, i + 1, q);
    }
  }

  lemma NextBoundary(files: seq<FileItem>, from: nat, to: nat, i: nat)
    requires Contiguous(files, from, to) && i < |files|
    ensures Boundary(files, to, i + 1) == files[i].End() >= files[i].Start()
  {
    hide FileItem.Start, FileItem.End;
    FilesOrdered(files, from, to, i, i);
  }

  /** A read that ends at `e` and began at position `c` of file `first` has come to position
      `d` of file `i`: the same outcome and the same losses lie ahead. */
  ghost predicate OnTrack(files: seq<FileItem>, to: nat, first: nat, c: nat, i: nat, d: nat, e: nat)
    requires first <= |files| && i <= |files|
  {
    && LeadOutcome(files, first, c, e) == LeadOutcome(files, i, d, e)
    && SameMask(files, first, c, i, d, Boundary(files, to, i))
  }

  /** A file's turn in a read that began at `start`, at position `c` of file `first`, and has
      delivered `done`. */
  lemma FileStep(image: seq<Byte>, root: Node, files: seq<FileItem>, from: nat, to: nat, first: nat, c: nat,
                 i: nat, d: nat, start: nat, done: seq<Byte>, part: seq<Byte>, n: nat, res: Outcome)
    requires Contiguous(files, from, to) && first <= i < |files| && FileLies(image, root, files[i])
    requires forall q :: q >= to ==> Extended(image, q) == 0
    requires Boundary(files, to, i) + d == start + |done| && Boundary(files, to, i) < start + |done| + |part|
    requires ShownBut(image, files, first, c, start, done) && OnTrack(files, to, first, c, i, d, start + |done| + |part|)
    requires FileAnswer(image, files[i], start + |done|, part, n, res)
    ensures var e := start + |done| + |part|;
      && (res != Done ==> LeadOutcome(files, first, c, e) == res)
      && (res == Done ==> n <= |part| && ShownBut(image, files, first, c, start, done + part[..n]))
      && (res == Done && e <= files[i].End() ==> n == |part| && LeadOutcome(files, first, c, e) == Done)
      && (res == Done && e > files[i].End() ==>
            && start + |done| + n == Boundary(files, to, i + 1) + Next(files[i], d)
            && OnTrack(files, to, first, c, i + 1, Next(files[i], d), e))
    ensures Boundary(files, to, i + 1) == files[i].End() >= Boundary(files, to, i)
  {
    hide FileItem.Start, FileItem.End, Contiguous, FileLies, Extended, ShownBut, SameMask, LeadOutcome, FileAnswer, Next;
    Iteration(image, files, from, to, i, d, part, n, res);
    NextBoundary(files, from, to, i);
    if res == Done {
      AnswerIsPart(image, files[i], d, part, n);
      FilePart(image, root, files, from, to, first, c, i, d, part[..n]);
      ShownButConcat(image, files, first, c, start, done, part[..n]);
      MaskGoesOn(files, from, to, first, c, i, d);
    }
  }

  lemma AnswerIsPart(image: seq<Byte>, f: FileItem, d: nat, part: seq<Byte>, n: nat)
    requires FileAnswer(image, f, f.Start() + d, part, n, Done)
    ensures n <= |part| && f.Start() + d < f.End()
    ensures d <= f.size ==> f.Start() + d + n <= f.End() && f.Start() + d + n <= |image|
                            && part[..n] == image[f.Start() + d..f.Start() + d + n]
    ensures d > f.size ==> part[..n] == Zeros(n) && n <= f.End() - f.Eof()
  {
    hide FileItem.Start, FileItem.End, FileItem.InTail;
    Sizes(f);
    EofIs(f);
  }

  lemma NothingMasked(files: seq<FileItem>, i: nat, q: nat)
    requires i <= |files|
    ensures !Masked(files, i, 0, q)
  {
  }

  /** The part that file `i` delivers is right. */
  lemma FilePart(image: seq<Byte>, root: Node, files: seq<FileItem>, from: nat, to: nat, first: nat, c: nat, i: nat, d: nat, part: seq<Byte>)
    requires Contiguous(files, from, to) && first <= i < |files| && files[i].Start() + d < files[i].End()
    requires SameMask(files, first, c, i, d, files[i].Start()) && FileLies(image, root, files[i])
    requires d <= files[i].size ==> files[i].Start() + d + |part| <= files[i].End()
                                    && files[i].Start() + d + |part| <= |image|
                                    && part == image[files[i].Start() + d..files[i].Start() + d + |part|]
    requires d > files[i].size ==> part == Zeros(|part|) && |part| <= files[i].End() - files[i].Eof()
    requires forall q :: q >= to ==> Extended(image, q) == 0
    ensures ShownBut(image, files, first, c, files[i].Start() + d, part)
  {
    hide FileItem.Start, FileItem.End, FileItem.Eof, Masked, Contiguous, FileLies, Extended;
    var off := files[i].Start() + d;
    forall q | 0 <= q < |part| ensures part[q] == if Masked(files, first, c, off + q) then 0 else Extended(image, off + q) {
      assert Masked(files, first, c, off + q) == Masked(files, i, d, off + q);
      if d <= files[i].size {
        assert part[q] == image[off..off + |part|][q];
        NotMaskedFrom(files, i, d, off + q);
        InImage(image, root, files[i], off + q);
      } else {
        ZeroHere(image, root, files, from, to, i, d, off + q);
      }
    }
  }

  lemma InImage(image: seq<Byte>, root: Node, f: FileItem, q: nat)
    requires FileLies(image, root, f) && q < f.End()
    ensures q < |image| && Extended(image, q) == image[q]
  {
    hide FileItem.Start, FileItem.End, FileItem.Eof;
  }

  /** The zeros of a padding are in the image or lost contents of the next file. */
  lemma ZeroHere(image: seq<Byte>, root: Node, files: seq<FileItem>, from: nat, to: nat, i: nat, d: nat, q: nat)
    requires Contiguous(files, from, to) && i < |files| && FileLies(image, root, files[i])
    requires d > files[i].size && files[i].Start() + d < files[i].End()
    requires files[i].Start() + d <= q < files[i].Start() + d + (files[i].End() - files[i].Eof())
    ensures Masked(files, i, d, q) || Extended(image, q) == 0 || (i + 1 == |files| && q >= to)
  {
    EofIs(files[i]);
    if q < files[i].End() {
      TailIsZero(image, root, files[i], q);
    } else if i + 1 < |files| {
      NextStart(files, from, to, i + 1);
      hide FileItem.Start, FileItem.End, FileItem.Eof;
      assert Masked(files, i + 1, d - files[i].size, q);
    }
  }

  lemma TailIsZero(image: seq<Byte>, root: Node, f: FileItem, q: nat)
    requires FileLies(image, root, f) && f.Eof() <= q < f.End()
    ensures Extended(image, q) == 0
  {
    hide FileItem.Start, FileItem.End, FileItem.Eof;
  }

  lemma NextStart(files: seq<FileItem>, from: nat, to: nat, i: nat)
    requires Contiguous(files, from, to) && 0 < i < |files|
    ensures files[i - 1].End() == files[i].Start()
  {
  }

  lemma Sizes(f: FileItem)
    ensures f.Start() <= f.Eof() <= f.End()
    ensures f.size == 0 <==> f.Start() == f.End()
  {
  }

  /** In front of the files there is neither padding nor an empty file to meet;
      from `off` on, only the files behind `off` matter. */
  lemma BeforeFiles(files: seq<FileItem>, from: nat, to: nat, s: nat, e: nat)
    requires Contiguous(files, from, to) && s <= e
    ensures var off := TakeOver(from, s, e);
      && s <= off <= e
      && (CrossesEmpty(files, from, s, e) <==> EmptyBetween(files, off, e))
      && (!InSomeTail(files, s) ==> !InSomeTail(files, off))
      && (off == e ==> !EmptyBetween(files, off, e))
  {
    hide FileItem.Start, FileItem.End, FileItem.Eof;
    forall k | 0 <= k < |files| ensures from <= files[k].Start() <= files[k].Eof() {
      FilesAfter(files, from, to, k);
      Sizes(files[k]);
    }
  }

  lemma BehindFiles(files: seq<FileItem>, from: nat, to: nat, off: nat, e: nat)
    requires Contiguous(files, from, to) && to <= off <= e
    ensures !EmptyBetween(files, off, e) && !InSomeTail(files, e)
  {
    hide FileItem.Start, FileItem.End, FileItem.Eof;
    forall k | 0 <= k < |files| ensures files[k].Start() <= to && files[k].End() <= to {
      FilesOrdered(files, from, to, k, k);
      Sizes(files[k]);
    }
  }

  /** In front of the files nothing ends inside padding. */
  lemma EndsInFront(files: seq<FileItem>, from: nat, to: nat, e: nat)
    requires Contiguous(files, from, to) && e <= from
    ensures !InSomeTail(files, e)
  {
    hide FileItem.Start, FileItem.End, FileItem.Eof;
    forall k | 0 <= k < |files| ensures from <= files[k].Start() <= files[k].Eof() {
      FilesAfter(files, from, to, k);
      Sizes(files[k]);
    }
  }

  /** A read that does not begin inside padding: an empty file in the way stops it, an end
      inside padding makes it panic, and nothing of it is lost. */
  lemma CleanReads(files: seq<FileItem>, from: nat, to: nat, s: nat, e: nat)
    requires Contiguous(files, from, to) && s < e && from <= to && !InSomeTail(files, s)
    ensures ServeOutcome(files, from, s, e) == if CrossesEmpty(files, from, s, e) then Failed
                                               else if InSomeTail(files, e) then OutOfRange else Done
    ensures var p := TakeOver(from, s, e);
      forall q :: q >= s ==> !Masked(files, Owner(files, 0, p), LeadAt(files, p), q)
  {
    hide FileItem.Start, FileItem.End, FileItem.Eof, FileItem.InTail, EmptyBetween, InSomeTail, CrossesEmpty, Contiguous, Owner, Masked;
    var p := TakeOver(from, s, e);
    var k := Owner(files, 0, p);
    BeforeFiles(files, from, to, s, e);
    if p < from || p >= to {
      NoOwner(files, from, to, p);
      if p >= to {
        BehindFiles(files, from, to, p, e);
      } else {
        EndsInFront(files, from, to, e);
      }
      forall q | q >= s ensures !Masked(files, k, LeadAt(files, p), q) {
        NothingAtEnd(files, LeadAt(files, p), q);
      }
    } else {
      CleanFromOwner(files, from, to, s, p, e);
    }
  }

  lemma NothingAtEnd(files: seq<FileItem>, d: nat, q: nat)
    ensures !Masked(files, |files|, d, q)
  {
  }

  lemma CleanFromOwner(files: seq<FileItem>, from: nat, to: nat, s: nat, p: nat, e: nat)
    requires Contiguous(files, from, to) && p <= e && from <= p < to && !InSomeTail(files, p)
    requires s <= p && (s < p ==> p == from)
    ensures var k, d := Owner(files, 0, p), LeadAt(files, p);
      && LeadOutcome(files, k, d, e) == CleanOutcome(files, p, e)
      && forall q :: q >= s ==> !Masked(files, k, d, q)
  {
    OwnerExists(files, from, to, p);
    hide FileItem.Start, FileItem.End, FileItem.Eof, EmptyBetween, Contiguous, Owner, Masked;
    var o :| 0 <= o < |files| && files[o].Start() <= p < files[o].End();
    OwnerIs(files, from, to, o, p);
    var d := LeadAt(files, p);
    assert !files[o].InTail(p);
    EofIs(files[o]);
    FilesAfter(files, from, to, o);
    forall q | q >= s ensures !Masked(files, o, d, q) {
      NotMaskedFrom(files, o, d, q);
    }
  }

  lemma NotMaskedFrom(files: seq<FileItem>, i: nat, d: nat, q: nat)
    requires i < |files| && d <= files[i].size && (d == 0 || q >= files[i].Start() + d)
    ensures !Masked(files, i, d, q)
  {
    hide FileItem.Start;
  }

  /** Sector by sector nothing can go wrong as long as no file is empty: such a read
      neither starts nor ends inside padding and crosses no empty file. */
  lemma AlignedReadsAreClean(files: seq<FileItem>, fsEnd: nat, s: nat, e: nat)
    requires s % SECTOR_SIZE == 0 && e % SECTOR_SIZE == 0
    requires forall k :: 0 <= k < |files| ==> files[k].size > 0
    ensures !InSomeTail(files, s) && !InSomeTail(files, e) && !CrossesEmpty(files, fsEnd, s, e)
  {
    hide FileItem.InTail;
    forall k | 0 <= k < |files| ensures !files[k].InTail(s) && !files[k].InTail(e) {
      TailIsUnaligned(files[k], s);
      TailIsUnaligned(files[k], e);
    }
  }

  lemma TailIsUnaligned(f: FileItem, p: nat)
    requires p % SECTOR_SIZE == 0
    ensures !f.InTail(p)
  {
  }
}
