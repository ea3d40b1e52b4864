/** Shifts and masks on unbounded bit patterns. */
module Shifts {
  import opened Powers

  function Shl(n: nat, k: nat): nat {
    if k == 0 then n else 2 * Shl(n, k - 1)
  }

  function Shr(n: nat, k: nat): nat {
    if k == 0 then n else Shr(n / 2, k - 1)
  }

  /** The low `k` bits. */
  function Low(n: nat, k: nat): nat {
    if k == 0 then 0 else n % 2 + 2 * Low(n / 2, k - 1)
  }

  lemma {:induction false} ShlOne(k: nat)
    ensures Shl(1, k) == Pow2(k) && Shl(0, k) == 0
  {
    if k > 0 {
      ShlOne(k - 1);
    }
  }

  lemma {:induction false} ShlAdds(a: nat, b: nat, k: nat)
    ensures Shl(a + b, k) == Shl(a, k) + Shl(b, k)
  {
    if k > 0 {
      ShlAdds(a, b, k - 1);
    }
  }

  lemma {:induction false} ShlAgain(n: nat, j: nat, k: nat)
    ensures Shl(Shl(n, j), k) == Shl(n, j + k)
  {
    if k > 0 {
      ShlAgain(n, j, k - 1);
    }
  }

  lemma {:induction false} ShlOrders(a: nat, b: nat, k: nat)
    ensures Shl(a, k) < Shl(b, k) <==> a < b
    ensures Shl(a, k) == Shl(b, k) <==> a == b
  {
    if k > 0 {
      ShlOrders(a, b, k - 1);
    }
  }

  lemma {:induction false} ShlPow2(j: nat, k: nat)
    ensures Shl(Pow2(j), k) == Pow2(j + k)
  {
    if k > 0 {
      ShlPow2(j, k - 1);
    }
  }

  /** What fits in `j` bits fits in `j + k` once shifted, and only that does. */
  lemma ShlFits(n: nat, j: nat, k: nat)
    ensures Shl(n, k) < Pow2(j + k) <==> n < Pow2(j)
  {
    ShlPow2(j, k);
    ShlOrders(n, Pow2(j), k);
  }

  /** A number is its high bits shifted up, plus its low ones. */
  lemma {:induction false} HighAndLow(n: nat, k: nat)
    ensures n == Shl(Shr(n, k), k) + Low(n, k) && Low(n, k) < Pow2(k)
  {
    if k > 0 {
      HighAndLow(n / 2, k - 1);
    }
  }

  lemma {:induction false} HighAndLowUnique(high: nat, low: nat, k: nat)
    requires low < Pow2(k)
    ensures Shr(Shl(high, k) + low, k) == high && Low(Shl(high, k) + low, k) == low
  {
    if k > 0 {
      HighAndLowUnique(high, low / 2, k - 1);
      assert (Shl(high, k) + low) / 2 == Shl(high, k - 1) + low / 2;
      assert (Shl(high, k) + low) % 2 == low % 2;
    }
  }

  lemma ShrFits(n: nat, j: nat, k: nat)
    requires n < Pow2(j + k)
    ensures Shr(n, k) < Pow2(j)
  {
    HighAndLow(n, k);
    ShlFits(Shr(n, k), j, k);
  }

  lemma {:induction false} LowOfLow(n: nat, j: nat, k: nat)
    requires k <= j
    ensures Low(Low(n, j), k) == Low(n, k)
  {
    if k > 0 {
      LowOfLow(n / 2, j - 1, k - 1);
    }
  }

  /** Shifting right by `k` undoes shifting left by `k`, and only that does, when the bits
  shifted out are noughts. */
  lemma ShiftedBack(n: nat, k: nat, m: nat)
    ensures n == Shl(m, k) <==> Low(n, k) == 0 && Shr(n, k) == m
  {
    HighAndLow(n, k);
    HighAndLowUnique(m, 0, k);
  }
}
