/** Facts about multiplication and division by a variable, proved by induction. */
module Arith {

  lemma {:induction false} MulGap(x: nat, y: nat, d: nat)
    requires x < y
    ensures x * d + d <= y * d
    decreases y
  {
    assert y * d == (y - 1) * d + d;
    if x < y - 1 {
      MulGap(x, y - 1, d);
    }
  }

  /** Quotient and remainder are determined by the division equation. */
  lemma DivModUnique(a: nat, d: nat, q: nat, r: nat)
    requires d > 0 && a == q * d + r && r < d
    ensures a / d == q && a % d == r
  {
    var q0, r0 := a / d, a % d;
    assert a == q0 * d + r0;
    if q0 < q {
      MulGap(q0, q, d);
      assert false;
    } else if q0 > q {
      MulGap(q, q0, d);
      assert false;
    }
  }

  lemma MulMonotone(x: nat, y: nat, d: nat)
    requires x <= y
    ensures x * d <= y * d
  {
    if x < y {
      MulGap(x, y, d);
    }
  }

  /** The next multiple of `d`. */
  lemma MulNext(p: nat, d: nat)
    ensures (p + 1) * d == p * d + d
  {
  }

  /** The products a merge pass over pairs of blocks relies on. */
  lemma PairProducts(p: nat, w: nat)
    ensures (2 * p) * w == p * (2 * w)
    ensures (2 * p + 1) * w == p * (2 * w) + w
    ensures (2 * (p + 1)) * w == p * (2 * w) + 2 * w
  {
  }
}
