/** Facts about Euclidean division and products that the colour, bitmap and scheduler proofs share. */
module Arith {

  /** `x / d` and `x % d` are the unique quotient and remainder. */
  lemma DivModUnique(x: int, d: int, q: int, m: int)
    requires d > 0 && 0 <= m < d && x == q * d + m
    ensures x / d == q && x % d == m
  {
    var q', m' := x / d, x % d;
    assert (q - q') * d == m' - m;
    if q' < q {
      AtLeastOnce(q - q', d);
    } else if q' > q {
      AtLeastOnce(q' - q, d);
    }
  }

  lemma {:induction false} AtLeastOnce(k: int, d: int)
    requires k >= 1 && d > 0
    ensures k * d >= d
    decreases k
  {
    if k > 1 {
      AtLeastOnce(k - 1, d);
      assert k * d == (k - 1) * d + d;
    }
  }

  /** Counting one further wraps the remainder from `d - 1` back to 0. */
  lemma ModSucc(k: int, d: int)
    requires d > 0
    ensures (k + 1) % d == if k % d == d - 1 then 0 else k % d + 1
  {
    var q, m := k / d, k % d;
    if m == d - 1 {
      DivModUnique(k + 1, d, q + 1, 0);
    } else {
      DivModUnique(k + 1, d, q, m + 1);
    }
  }

  /** Reducing before adding one gives the same remainder as adding first. */
  lemma ModAddOne(x: int, d: int)
    requires d > 0
    ensures (x % d + 1) % d == (x + 1) % d
  {
    ModSucc(x, d);
    ModSucc(x % d, d);
    DivModUnique(x % d, d, 0, x % d);
  }

  /** An index below `d * h` splits into a quotient below `h` and a remainder below `d`. */
  lemma DivBelow(x: int, d: int, h: int)
    requires d > 0 && 0 <= x < d * h
    ensures 0 <= x / d < h && 0 <= x % d < d
    ensures x == x / d * d + x % d
  {
    var q := x / d;
    assert q * d <= x;
    assert (h - q) * d > 0;
  }

  /** One factor fewer: `a * b` is `a * (b - 1)` plus `a`. */
  lemma MulPred(a: int, b: int)
    ensures a * b == a * (b - 1) + a
  {
  }
}
