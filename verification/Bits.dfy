/** Words as sequences of bits: AND, OR, exclusive OR and complement, and what masks
    of high bits do. */
module Bits {
  import opened Arithmetic

  function Pow2(k: nat): (p: nat)
    ensures p >= 1
  {
    if k == 0 then 1 else 2 * Pow2(k - 1)
  }

  /** Bitwise AND of two words of the given width. */
  function BitAnd(width: nat, x: nat, y: nat): (r: nat)
    ensures r < Pow2(width)
  {
    if width == 0 then 0 else x % 2 * (y % 2) + 2 * BitAnd(width - 1, x / 2, y / 2)
  }

  function BitOr(width: nat, x: nat, y: nat): (r: nat)
    ensures r < Pow2(width)
  {
    if width == 0 then 0 else (if x % 2 == 0 && y % 2 == 0 then 0 else 1) + 2 * BitOr(width - 1, x / 2, y / 2)
  }

  /** Bitwise complement of a word. */
  function BitNot(width: nat, x: nat): nat
    requires x < Pow2(width)
  {
    Pow2(width) - 1 - x
  }

  /** The word whose `k` low bits are clear and whose other bits are set. */
  function HighOnes(k: nat, width: nat): nat
    requires k <= width
  {
    if k == 0 then Pow2(width) - 1 else 2 * HighOnes(k - 1, width - 1)
  }

  lemma {:induction false} HighOnesIsNot(k: nat, width: nat)
    requires k <= width
    ensures Pow2(k) <= Pow2(width)
    ensures HighOnes(k, width) == BitNot(width, Pow2(k) - 1)
  {
    if k > 0 {
      HighOnesIsNot(k - 1, width - 1);
    }
  }

  /** Drop the `k` low bits. */
  function RoundDown(k: nat, x: nat): nat {
    if k == 0 then x else 2 * RoundDown(k - 1, x / 2)
  }

  lemma {:induction false} AndOnes(width: nat, x: nat)
    requires x < Pow2(width)
    ensures BitAnd(width, x, Pow2(width) - 1) == x
  {
    if width > 0 {
      var ones := Pow2(width) - 1;
      assert ones % 2 == 1 && ones / 2 == Pow2(width - 1) - 1;
      AndOnes(width - 1, x / 2);
    }
  }

  lemma {:induction false} AndHighOnes(k: nat, width: nat, x: nat)
    requires k <= width && x < Pow2(width)
    ensures BitAnd(width, x, HighOnes(k, width)) == RoundDown(k, x)
  {
    if k == 0 {
      AndOnes(width, x);
    } else {
      assert HighOnes(k, width) / 2 == HighOnes(k - 1, width - 1);
      AndHighOnes(k - 1, width - 1, x / 2);
    }
  }

  lemma MultiplesOfFour(k: nat, x: nat)
    requires k >= 2
    ensures RoundDown(k, x) % 4 == 0 && Pow2(k) % 4 == 0
  {
    hide RoundDown, Pow2;
    Doubles(k, x);
    Doubles(k - 1, x / 2);
    FourTimes(RoundDown(k - 2, x / 2 / 2));
    FourTimes(Pow2(k - 2));
  }

  lemma FourTimes(y: nat)
    ensures 2 * (2 * y) % 4 == 0
  {
  }

  lemma Doubles(k: nat, x: nat)
    requires k >= 1
    ensures RoundDown(k, x) == 2 * RoundDown(k - 1, x / 2) && Pow2(k) == 2 * Pow2(k - 1)
  {
  }

  lemma BytePowers()
    ensures Pow2(0) == 1 && Pow2(1) == 2 && Pow2(2) == 4 && Pow2(3) == 8 && Pow2(4) == 16
    ensures Pow2(5) == 32 && Pow2(6) == 64 && Pow2(7) == 128 && Pow2(8) == 256
  {
    assert Pow2(2) == 2 * (2 * Pow2(0)) && Pow2(4) == 2 * (2 * Pow2(2)) && Pow2(6) == 2 * (2 * Pow2(4)) && Pow2(8) == 2 * (2 * Pow2(6));
  }

  /** Rounding down finds the multiple below, and values round down to the same multiple
      exactly when they lie between it and the next. */
  lemma {:induction false} RoundDownInterval(k: nat, a: nat, x: nat)
    ensures RoundDown(k, a) <= a
    ensures RoundDown(k, a) <= x <= RoundDown(k, a) + Pow2(k) - 1 <==> RoundDown(k, x) == RoundDown(k, a)
  {
    if k > 0 {
      RoundDownInterval(k - 1, a / 2, x / 2);
    }
  }

  lemma {:induction false} OrZero(width: nat, x: nat)
    requires x < Pow2(width)
    ensures BitOr(width, x, 0) == x
  {
    if width > 0 {
      OrZero(width - 1, x / 2);
    }
  }

  /** Setting the low bits of a rounded value gives the last value of its interval. */
  lemma {:induction false} OrLowOnes(k: nat, width: nat, x: nat)
    requires k <= width && x < Pow2(width)
    ensures BitOr(width, RoundDown(k, x), Pow2(k) - 1) == RoundDown(k, x) + Pow2(k) - 1 < Pow2(width)
  {
    if k == 0 {
      OrZero(width, x);
    } else {
      OrLowOnes(k - 1, width - 1, x / 2);
      assert (Pow2(k) - 1) / 2 == Pow2(k - 1) - 1 && (Pow2(k) - 1) % 2 == 1;
    }
  }

  function BitXor(width: nat, x: nat, y: nat): (r: nat)
    ensures r < Pow2(width)
  {
    if width == 0 then 0 else (if x % 2 == y % 2 then 0 else 1) + 2 * BitXor(width - 1, x / 2, y / 2)
  }

  lemma {:induction false} BitXorCancels(width: nat, x: nat, y: nat)
    requires x < Pow2(width)
    ensures BitXor(width, BitXor(width, x, y), y) == x
  {
    if width > 0 {
      BitXorCancels(width - 1, x / 2, y / 2);
      assert BitXor(width, x, y) / 2 == BitXor(width - 1, x / 2, y / 2);
    }
  }

  /** Bit `k` of an exclusive or: set exactly if it is set in one of the two. */
  lemma {:induction false} BitXorAt(width: nat, x: nat, y: nat, k: nat)
    requires k < width
    ensures BitXor(width, x, y) / Pow2(k) % 2 == if x / Pow2(k) % 2 == y / Pow2(k) % 2 then 0 else 1
  {
    hide BitXor, Pow2;
    XorUnfolds(width, x, y);
    if k > 0 {
      BitXorAt(width - 1, x / 2, y / 2, k - 1);
      HalfFirst(x, k);
      HalfFirst(y, k);
      HalfFirst(BitXor(width, x, y), k);
    }
  }

  lemma XorUnfolds(width: nat, x: nat, y: nat)
    requires width > 0
    ensures BitXor(width, x, y) % 2 == if x % 2 == y % 2 then 0 else 1
    ensures BitXor(width, x, y) / 2 == BitXor(width - 1, x / 2, y / 2)
    ensures forall z: nat :: z / Pow2(0) == z
  {
  }

  lemma HalfFirst(x: nat, k: nat)
    requires k > 0
    ensures x / Pow2(k) == x / 2 / Pow2(k - 1)
  {
    HalfQuotient(x, Pow2(k - 1));
  }

  lemma HalfQuotient(x: nat, b: nat)
    requires b > 0
    ensures x / (2 * b) == x / 2 / b
  {
    var h, d := x / 2, 2 * b;
    var q, s := h / b, h % b;
    DivMod(h, b);
    DivMod(x, d);
    TwiceAway(q, b);
    assert q * d == q * (2 * b);
    QuotientIs(x, x / d, x % d, q, 2 * s + x % 2, d);
  }

  lemma TwiceAway(q: nat, b: nat)
    ensures q * (2 * b) == 2 * (q * b)
  {
  }

  lemma QuotientIs(x: nat, p: nat, r: nat, q: nat, s: nat, d: nat)
    requires d > 0 && x == p * d + r == q * d + s && r < d && s < d
    ensures p == q
  {
    if p < q {
      MulLeq(p + 1, q, d);
    } else if q < p {
      MulLeq(q + 1, p, d);
    }
  }
}
