/**
 * RunSizer: the block size of the initial insertion-sorted runs.
 *
 * `min_run_length` is the same code in both engines: shift `n` right until
 * it is below 64, remembering whether any bit shifted out was set, and add
 * that flag back.  That is `n / 2^k` rounded up, where `k` is the number of
 * shifts, which is how the reference `MinRun` is written here.
 */
module RunSizer {
  import opened Arith

  function Pow2(k: nat): (p: nat)
    ensures p >= 1
  {
    if k == 0 then 1 else 2 * Pow2(k - 1)
  }

  /** How many right shifts bring `n` below 64. */
  function Shifts(n: nat): nat
  {
    if n < 64 then 0 else 1 + Shifts(n / 2)
  }

  /** `n` divided by `2^Shifts(n)`, rounded up. */
  function MinRun(n: nat): nat
  {
    var p := Pow2(Shifts(n));
    QuotientIsNat(n, p);
    n / p + (if n % p == 0 then 0 else 1)
  }

  lemma QuotientIsNat(n: nat, p: nat)
    requires p > 0
    ensures n / p >= 0
  {
  }

  /** Halving the quotient is dividing by twice the divisor. */
  lemma DivDouble(a: nat, b: nat)
    requires b > 0
    ensures a / (2 * b) == (a / b) / 2
    ensures a % (2 * b) == 0 <==> a % b == 0 && (a / b) % 2 == 0
  {
    var q, r := a / b, a % b;
    var q', t := q / 2, q % 2;
    var d := 2 * b;
    assert a == q * b + r;
    assert q == 2 * q' + t;
    assert q * b == q' * d + t * b by {
      assert q * b == (2 * q' + t) * b;
    }
    assert t * b + r < d by {
      assert t == 0 || t == 1;
    }
    DivModUnique(a, d, q', t * b + r);
    if t == 1 {
      assert t * b + r != 0;
    }
  }

  /** Dividing by twice the divisor is halving first. */
  lemma HalveThenDivide(a: nat, b: nat)
    requires b > 0
    ensures a / (2 * b) == (a / 2) / b
  {
    var h, u := a / 2, a % 2;
    var q, r := h / b, h % b;
    var d := 2 * b;
    assert a == q * d + (2 * r + u) by {
      assert h == q * b + r;
      assert a == 2 * h + u;
      assert 2 * (q * b) == q * d;
    }
    DivModUnique(a, d, q, 2 * r + u);
  }

  /** The bit loop of `min_run_length`, with the shifted-out flag `r` kept as 0 or 1. */
  method MinRunLength(n0: nat) returns (m: nat)
    ensures m == MinRun(n0)
  {
    var n, r := n0, 0;
    ghost var k: nat := 0;
    while n >= 64
      invariant n == n0 / Pow2(k)
      invariant r == if n0 % Pow2(k) == 0 then 0 else 1
      invariant Shifts(n0) == k + Shifts(n)
    {
      DivDouble(n0, Pow2(k));
      // r |= n & 1 on a flag that is 0 or 1
      r := if r == 1 || n % 2 == 1 then 1 else 0;
      n := n / 2;
      k := k + 1;
    }
    m := n + r;
  }

  /** Shifting stops at the first quotient below 64. */
  lemma {:induction false} ShiftsStop(n: nat)
    ensures n / Pow2(Shifts(n)) < 64
    ensures Shifts(n) > 0 ==> n / Pow2(Shifts(n) - 1) >= 64
  {
    if n >= 64 {
      var k := Shifts(n / 2);
      ShiftsStop(n / 2);
      assert Shifts(n) == k + 1 && Pow2(k + 1) == 2 * Pow2(k);
      HalveThenDivide(n, Pow2(k));
      if k > 0 {
        assert Pow2(k) == 2 * Pow2(k - 1);
        HalveThenDivide(n, Pow2(k - 1));
      }
    }
  }

  /** Short lists are one run: the run length is the length itself. */
  lemma MinRunOfShort(n: nat)
    requires n < 64
    ensures MinRun(n) == n
  {
  }

  /** Longer lists get a run length between 32 and 64. */
  lemma MinRunOfLong(n: nat)
    requires n >= 64
    ensures 32 <= MinRun(n) <= 64
  {
    var k := Shifts(n);
    ShiftsStop(n);
    DivDouble(n, Pow2(k - 1));
    assert Pow2(k) == 2 * Pow2(k - 1);
  }

  /** The run length, the step of the block loop, is zero only for the empty list. */
  lemma MinRunZero(n: nat)
    ensures MinRun(n) == 0 <==> n == 0
  {
    var p := Pow2(Shifts(n));
    if n > 0 && n / p == 0 {
      assert n % p == n;
    }
  }

  /**
   * The runs are balanced for the merge passes: `MinRun(n)` runs of it
   * cover `n` in `2^Shifts(n)` blocks, and one fewer element per block
   * would not.
   */
  lemma MinRunCovers(n: nat)
    ensures n <= MinRun(n) * Pow2(Shifts(n))
    ensures n > 0 ==> (MinRun(n) - 1) * Pow2(Shifts(n)) < n
  {
    var p := Pow2(Shifts(n));
    var q, r := n / p, n % p;
    assert n == q * p + r;
    if r != 0 {
      assert MinRun(n) * p == q * p + p;
    } else {
      assert MinRun(n) * p == q * p;
      if n > 0 {
        assert (q - 1) * p == q * p - p;
      }
    }
  }
}
