/** Products and quotients of variables, where the verifier wants to be led. */
module Arithmetic {
  lemma MulLeq(a: nat, b: nat, k: nat)
    requires a <= b
    ensures 0 <= a * k <= b * k
  {
  }

  lemma MulSplit(a: nat, b: nat, k: nat)
    requires a <= b
    ensures a * k + (b - a) * k == b * k
  {
  }

  lemma DivMod(p: nat, size: nat)
    requires size > 0
    ensures p == p / size * size + p % size && 0 <= p % size < size && p / size >= 0
    ensures (p / size + 1) * size == p / size * size + size
  {
  }

  lemma DivBelow(s: nat, u: nat, size: nat)
    requires size > 0 && s < u * size
    ensures s / size < u
  {
    if u <= s / size {
      MulLeq(u, s / size, size);
    }
  }

  lemma CeilMultiple(x: nat, size: nat, q: nat)
    requires size > 0
    ensures var c := x / size + if x % size > 0 then 1 else 0;
      && (q * size >= x <==> q >= c)
      && c * size >= x
  {
    var c := x / size + if x % size > 0 then 1 else 0;
    assert c * size >= x && (c > 0 ==> (c - 1) * size < x);
    if q >= c {
      MulLeq(c, q, size);
    } else {
      MulLeq(q, c - 1, size);
    }
  }

  lemma MulCancel(a: nat, b: nat, k: nat)
    requires k > 0 && a * k <= b * k
    ensures a <= b
  {
    if b < a {
      MulLeq(b + 1, a, k);
    }
  }

  lemma MulThree(q: nat, k: nat, r: nat, size: nat)
    ensures q * (k * size) + r * size == (q * k + r) * size
    ensures q * (k * size) == q * k * size
  {
  }

  function Sum(ns: seq<nat>): nat {
    if ns == [] then 0 else Sum(ns[..|ns| - 1]) + ns[|ns| - 1]
  }

  lemma {:induction false} SumPrefix(ns: seq<nat>, k: nat)
    requires k <= |ns|
    ensures Sum(ns[..k]) <= Sum(ns)
    decreases |ns| - k
  {
    if k == |ns| {
      assert ns[..k] == ns;
    } else {
      SumPrefix(ns, k + 1);
      assert ns[..k + 1][..k] == ns[..k];
    }
  }
}
