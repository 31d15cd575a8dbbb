/** A byte string laid out as a list of blocks, and where each block lies. */
module Blocks {
  import opened Bytes
  import opened Sectors

  function Flatten(bs: seq<seq<Byte>>): seq<Byte> {
    if bs == [] then [] else bs[0] + Flatten(bs[1..])
  }

  /** The position of block `k`. */
  function Offset(bs: seq<seq<Byte>>, k: nat): nat
    requires k <= |bs|
  {
    |Flatten(bs[..k])|
  }

  lemma {:induction false} FlattenConcat(a: seq<seq<Byte>>, b: seq<seq<Byte>>)
    ensures Flatten(a + b) == Flatten(a) + Flatten(b)
  {
    hide Flatten;
    FlattenUnfolds(a);
    if a == [] {
      assert a + b == b;
    } else {
      FlattenConcat(a[1..], b);
      FlattenUnfolds(a + b);
      assert (a + b)[1..] == a[1..] + b;
      assert a[0] + (Flatten(a[1..]) + Flatten(b)) == (a[0] + Flatten(a[1..])) + Flatten(b);
    }
  }

  lemma FlattenUnfolds(bs: seq<seq<Byte>>)
    ensures Flatten(bs) == if bs == [] then [] else bs[0] + Flatten(bs[1..])
  {
  }

  lemma FlattenSnoc(a: seq<seq<Byte>>, b: seq<Byte>)
    ensures Flatten(a + [b]) == Flatten(a) + b
  {
    FlattenConcat(a, [b]);
    assert [b][1..] == [];
  }

  lemma OffsetNext(bs: seq<seq<Byte>>, k: nat)
    requires k < |bs|
    ensures Offset(bs, k + 1) == Offset(bs, k) + |bs[k]|
  {
    assert bs[..k + 1] == bs[..k] + [bs[k]];
    FlattenSnoc(bs[..k], bs[k]);
  }

  /** Block `k` is found at its position. */
  lemma BlockAt(bs: seq<seq<Byte>>, k: nat)
    requires k < |bs|
    ensures Offset(bs, k) + |bs[k]| <= |Flatten(bs)|
    ensures Flatten(bs)[Offset(bs, k)..Offset(bs, k) + |bs[k]|] == bs[k]
  {
    assert bs == bs[..k] + ([bs[k]] + bs[k + 1..]);
    FlattenConcat(bs[..k], [bs[k]] + bs[k + 1..]);
    FlattenConcat([bs[k]], bs[k + 1..]);
    FlattenSnoc([], bs[k]);
    assert [] + [bs[k]] == [bs[k]];
    var p := Flatten(bs[..k]);
    assert Flatten(bs) == p + (bs[k] + Flatten(bs[k + 1..]));
  }

  lemma OffsetInConcat(a: seq<seq<Byte>>, b: seq<seq<Byte>>, k: nat)
    requires k <= |b|
    ensures Offset(a + b, |a| + k) == |Flatten(a)| + Offset(b, k)
  {
    assert (a + b)[..|a| + k] == a + b[..k];
    FlattenConcat(a, b[..k]);
  }

  /** Behind blocks of one size lie the multiples of that size. */
  lemma {:induction false} UniformOffset(bs: seq<seq<Byte>>, size: nat, k: nat)
    requires k <= |bs| && forall i :: 0 <= i < k ==> |bs[i]| == size
    ensures Offset(bs, k) == k * size
  {
    hide Offset;
    if k > 0 {
      UniformOffset(bs, size, k - 1);
      OffsetNext(bs, k - 1);
    } else {
      OffsetNone(bs);
    }
  }

  lemma OffsetNone(bs: seq<seq<Byte>>)
    ensures Offset(bs, 0) == 0
  {
    assert bs[..0] == [];
  }

  /** Only the last block may have another size. */
  predicate NearlyUniform(bs: seq<seq<Byte>>, size: nat) {
    forall i :: 0 <= i < |bs| - 1 ==> |bs[i]| == size
  }

  lemma NearlyUniformBlock(bs: seq<seq<Byte>>, size: nat, k: nat)
    requires k < |bs| && NearlyUniform(bs, size)
    ensures 0 <= k * size && k * size + |bs[k]| <= |Flatten(bs)|
    ensures k == |bs| - 1 ==> k * size + |bs[k]| == |Flatten(bs)|
    ensures Flatten(bs)[k * size..k * size + |bs[k]|] == bs[k]
  {
    hide Flatten;
    UniformOffset(bs, size, k);
    BlockAt(bs, k);
    OffsetNext(bs, k);
    assert bs[..|bs|] == bs;
  }

  /** A long byte string has `part` at position `from`. */
  ghost predicate HasAt(image: seq<Byte>, from: int, part: seq<Byte>) {
    0 <= from && from + |part| <= |image| && image[from..from + |part|] == part
  }

  lemma SamePart(a: seq<Byte>, i: int, b: seq<Byte>, j: int, part: seq<Byte>)
    requires HasAt(a, i, part) && HasAt(b, j, part)
    ensures 0 <= i && i + |part| <= |a| && 0 <= j && j + |part| <= |b|
    ensures a[i..i + |part|] == b[j..j + |part|]
  {
  }

  lemma EmptyAt(image: seq<Byte>, from: int)
    requires 0 <= from <= |image|
    ensures HasAt(image, from, [])
  {
  }

  lemma ExtendAt(image: seq<Byte>, from: int, part: seq<Byte>, more: seq<Byte>)
    requires HasAt(image, from, part) && HasAt(image, from + |part|, more)
    ensures HasAt(image, from, part + more)
  {
  }

  /** A piece of block `k` lies at the corresponding position. */
  lemma PieceAt(bs: seq<seq<Byte>>, size: nat, k: nat, pos: nat, n: nat)
    requires k < |bs| && NearlyUniform(bs, size) && pos + n <= |bs[k]|
    ensures HasAt(Flatten(bs), k * size + pos, bs[k][pos..pos + n])
  {
    hide Flatten;
    NearlyUniformBlock(bs, size, k);
    SliceOfSlice(Flatten(bs), k * size, k * size + |bs[k]|, pos, pos + n);
  }

  /** Zero-fill to a whole number of sectors. */
  function PadSector(b: seq<Byte>): (r: seq<Byte>)
    ensures |r| == AlignUp(|b|)
    ensures r[..|b|] == b
  {
    b + Zeros(AlignUp(|b|) - |b|)
  }
}
