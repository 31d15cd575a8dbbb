/** Sector arithmetic of `SizeBytes` and `SizeSectors`. */
module Sectors {
  import opened Bits

  const SECTOR_SIZE: nat := 0x800

  /** How many whole sectors fit into this many bytes. */
  function FloorSectors(b: nat): nat {
    b / SECTOR_SIZE
  }

  /** How many sectors are touched by this many bytes. */
  function CeilSectors(b: nat): nat {
    FloorSectors(b) + if b % SECTOR_SIZE > 0 then 1 else 0
  }

  /** What `AlignToSectors` is documented to mean. */
  function AlignUp(b: nat): (r: nat)
    ensures r % SECTOR_SIZE == 0
    ensures b <= r < b + SECTOR_SIZE
    ensures b % SECTOR_SIZE == 0 ==> r == b
  {
    CeilSectors(b) * SECTOR_SIZE
  }

  lemma AlignUpNext(b: nat)
    requires b % SECTOR_SIZE != 0
    ensures AlignUp(b + 1) == AlignUp(b)
  {
  }

  lemma AlignUpShift(base: nat, b: nat)
    requires base % SECTOR_SIZE == 0
    ensures AlignUp(base + b) == base + AlignUp(b)
  {
  }

  // ----- AlignToSectors as it is written: a bit mask on 64-bit words

  lemma SectorSizeIsPower()
    ensures Pow2(11) == SECTOR_SIZE && 0x800 <= Pow2(64)
  {
    assert Pow2(11) == 2 * (2 * (2 * (2 * (2 * (2 * (2 * (2 * (2 * (2 * (2 * Pow2(0)))))))))));
    HighOnesIsNot(11, 64);
  }

  function AlignToSectors(b: nat): nat
    requires b + SECTOR_SIZE - 1 < Pow2(64)
  {
    SectorSizeIsPower();
    BitAnd(64, b + SECTOR_SIZE - 1, BitNot(64, SECTOR_SIZE - 1))
  }

  lemma RoundDown11(x: nat)
    ensures RoundDown(11, x) == x / 0x800 * 0x800
  {
    assert RoundDown(1, x / 0x400) == x / 0x800 * 2;
    assert RoundDown(3, x / 0x100) == x / 0x800 * 8;
    assert RoundDown(5, x / 0x40) == x / 0x800 * 0x20;
    assert RoundDown(7, x / 0x10) == x / 0x800 * 0x80;
    assert RoundDown(9, x / 4) == x / 0x800 * 0x200;
  }

  /** The mask computes what its comment promises, `b.Sectors().Bytes()`. */
  lemma MaskIsAlignUp(b: nat)
    requires b + SECTOR_SIZE - 1 < Pow2(64)
    ensures AlignToSectors(b) == AlignUp(b)
  {
    hide BitAnd, BitNot, Pow2, HighOnes, RoundDown;
    SectorSizeIsPower();
    HighOnesIsNot(11, 64);
    AndHighOnes(11, 64, b + SECTOR_SIZE - 1);
    RoundDown11(b + SECTOR_SIZE - 1);
  }
}
