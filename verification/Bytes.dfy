/** Byte strings, the fixed-width integer encodings used by the image encoder and
    the wire protocol, and the lexicographic order of `bytes.Compare`. */
module Bytes {

  type Byte = x: int | 0 <= x < 256

  const TWO_TO_THE_16: int := 0x1_0000
  const TWO_TO_THE_32: int := 0x1_0000_0000

  function Zeros(n: nat): (r: seq<Byte>)
    ensures |r| == n
    ensures forall i :: 0 <= i < n ==> r[i] == 0
  {
    seq(n, _ => 0)
  }

  /** `append(b, make([]byte, n - len(b))...)` with a chosen filler byte. */
  function PadTo(s: seq<Byte>, n: nat, filler: Byte): (r: seq<Byte>)
    requires |s| <= n
    ensures |r| == n
    ensures r[..|s|] == s
  {
    s + seq(n - |s|, _ => filler)
  }

  lemma SliceOfSlice<T>(s: seq<T>, lo: nat, hi: nat, i: nat, j: nat)
    requires lo <= hi <= |s| && i <= j <= hi - lo
    ensures s[lo..hi][i..j] == s[lo + i..lo + j]
  {
    forall k | 0 <= k < j - i ensures s[lo..hi][i..j][k] == s[lo + i..lo + j][k] {
      assert s[lo..hi][i + k] == s[lo + (i + k)];
    }
  }

  // Conversions such as uint32(x) keep the low bits; `/` and `%` by a positive
  // constant round towards minus infinity, so this is two's complement truncation.

  function LE16(v: int): (b: seq<Byte>)
    ensures |b| == 2
  {
    [v % 256, v / 256 % 256]
  }

  function BE16(v: int): (b: seq<Byte>)
    ensures |b| == 2
  {
    [v / 256 % 256, v % 256]
  }

  function LE32(v: int): (b: seq<Byte>)
    ensures |b| == 4
  {
    [v % 256, v / 0x100 % 256, v / 0x1_0000 % 256, v / 0x100_0000 % 256]
  }

  function BE32(v: int): (b: seq<Byte>)
    ensures |b| == 4
  {
    [v / 0x100_0000 % 256, v / 0x1_0000 % 256, v / 0x100 % 256, v % 256]
  }

  function FromLE16(b: seq<Byte>): (v: nat)
    requires |b| == 2
    ensures v < TWO_TO_THE_16
  {
    (b[0] as int) + 256 * (b[1] as int)
  }

  function FromBE16(b: seq<Byte>): (v: nat)
    requires |b| == 2
    ensures v < TWO_TO_THE_16
  {
    256 * (b[0] as int) + (b[1] as int)
  }

  function FromLE32(b: seq<Byte>): (v: nat)
    requires |b| == 4
    ensures v < TWO_TO_THE_32
  {
    (b[0] as int) + 0x100 * (b[1] as int) + 0x1_0000 * (b[2] as int) + 0x100_0000 * (b[3] as int)
  }

  function FromBE32(b: seq<Byte>): (v: nat)
    requires |b| == 4
    ensures v < TWO_TO_THE_32
  {
    0x100_0000 * (b[0] as int) + 0x1_0000 * (b[1] as int) + 0x100 * (b[2] as int) + (b[3] as int)
  }

  lemma RoundTrip16(v: int)
    ensures FromLE16(LE16(v)) == v % TWO_TO_THE_16
    ensures FromBE16(BE16(v)) == v % TWO_TO_THE_16
  {
    assert v == v / 256 * 256 + v % 256;
    var q := v / 256;
    assert q == q / 256 * 256 + q % 256;
    assert v == q / 256 * TWO_TO_THE_16 + (q % 256 * 256 + v % 256);
  }

  lemma RoundTrip32(v: int)
    ensures FromLE32(LE32(v)) == v % TWO_TO_THE_32
    ensures FromBE32(BE32(v)) == v % TWO_TO_THE_32
  {
    var q1, q2, q3 := v / 0x100, v / 0x1_0000, v / 0x100_0000;
    var q4 := q3 / 256;
    assert v == q1 * 256 + v % 256;
    assert q2 == q1 / 256 && q3 == q2 / 256;
    assert v == q4 * TWO_TO_THE_32 + (q3 % 256 * 0x100_0000 + q2 % 256 * 0x1_0000 + q1 % 256 * 0x100 + v % 256);
  }

  /** Four bytes are those of the number they stand for. */
  lemma Bytes32(b: seq<Byte>)
    requires |b| == 4
    ensures BE32(FromBE32(b)) == b && LE32(FromLE32(b)) == b
  {
    Digits(b[0], b[1], b[2], b[3]);
    Digits(b[3], b[2], b[1], b[0]);
  }

  lemma Digits(a: Byte, b: Byte, c: Byte, d: Byte)
    ensures var v := 0x100_0000 * a + 0x1_0000 * b + 0x100 * c + d;
      v / 0x100_0000 % 256 == a && v / 0x1_0000 % 256 == b && v / 0x100 % 256 == c && v % 256 == d
  {
    var v := 0x100_0000 * a + 0x1_0000 * b + 0x100 * c + d;
    assert v / 0x100_0000 == a && v / 0x1_0000 == 256 * a + b && v / 0x100 == 256 * (256 * a + b) + c;
  }

  /** Which end comes first. */
  lemma ByteOrders()
    ensures LE32(0x1234_5678) == [0x78, 0x56, 0x34, 0x12] && BE32(0x1234_5678) == [0x12, 0x34, 0x56, 0x78]
    ensures FromLE32([0x78, 0x56, 0x34, 0x12]) == FromBE32([0x12, 0x34, 0x56, 0x78]) == 0x1234_5678
    ensures LE16(0x1234) == [0x34, 0x12] && BE16(0x1234) == [0x12, 0x34]
    ensures FromLE16([0x34, 0x12]) == FromBE16([0x12, 0x34]) == 0x1234
    ensures BE64(0x1_0000_0002) == [0, 0, 0, 1, 0, 0, 0, 2] && FromBE64([0, 0, 0, 1, 0, 0, 0, 2]) == 0x1_0000_0002
  {
    assert BE32(1) == [0, 0, 0, 1] && BE32(0x1_0000_0002) == [0, 0, 0, 2];
    assert [0, 0, 0, 1, 0, 0, 0, 2][..4] == [0, 0, 0, 1] && [0, 0, 0, 1, 0, 0, 0, 2][4..] == [0, 0, 0, 2];
  }

  /** The 64-bit big-endian form, as two 32-bit halves. */
  function BE64(v: int): (b: seq<Byte>)
    ensures |b| == 8
  {
    BE32(v / TWO_TO_THE_32) + BE32(v)
  }

  function FromBE64(b: seq<Byte>): (v: nat)
    requires |b| == 8
    ensures v < TWO_TO_THE_32 * TWO_TO_THE_32
  {
    TWO_TO_THE_32 * FromBE32(b[..4]) + FromBE32(b[4..])
  }

  lemma Halves(v: nat)
    requires v < TWO_TO_THE_32 * TWO_TO_THE_32
    ensures 0 <= v / TWO_TO_THE_32 < TWO_TO_THE_32
    ensures v / TWO_TO_THE_32 % TWO_TO_THE_32 == v / TWO_TO_THE_32
    ensures TWO_TO_THE_32 * (v / TWO_TO_THE_32) + v % TWO_TO_THE_32 == v
  {
  }

  lemma RoundTrip64(v: nat)
    requires v < TWO_TO_THE_32 * TWO_TO_THE_32
    ensures FromBE64(BE64(v)) == v
  {
    hide BE32, FromBE32;
    var hi := v / TWO_TO_THE_32;
    Halves(v);
    RoundTrip32(hi);
    RoundTrip32(v);
    assert BE64(v)[..4] == BE32(hi) && BE64(v)[4..] == BE32(v);
  }
}
