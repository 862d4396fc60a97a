/** Powers of two, and the 64-bit word size of every supported device. */
module PowersOfTwo {

  const WORD_LIMIT: nat := 0x1_0000_0000_0000_0000

  function Pow2(k: nat): (p: nat)
    ensures p > 0
  {
    if k == 0 then 1 else 2 * Pow2(k - 1)
  }

  /** The least power of two that is at least n. */
  function NextPow2(n: nat): (p: nat)
    ensures p >= 1
  {
    NextPow2From(n, 0)
  }

  function NextPow2From(n: nat, k: nat): (p: nat)
    ensures p >= 1
    decreases if n <= Pow2(k) then 0 else n - Pow2(k)
  {
    if n <= Pow2(k) then Pow2(k) else NextPow2From(n, k + 1)
  }

  function Log2(n: nat): (k: nat)
    decreases n
  {
    if n <= 1 then 0 else 1 + Log2(n / 2)
  }

  lemma Pow2Monotone(j: nat, k: nat)
    requires j <= k
    ensures Pow2(j) <= Pow2(k)
  {
    if j < k {
      Pow2Monotone(j, k - 1);
    }
  }

  lemma Pow2Strict(j: nat, k: nat)
    requires j < k
    ensures 2 * Pow2(j) <= Pow2(k)
  {
    Pow2Monotone(j + 1, k);
  }

  lemma {:induction false} NextPow2FromLeast(n: nat, k: nat)
    requires k == 0 || Pow2(k - 1) < n
    ensures n <= NextPow2From(n, k)
    ensures exists j: nat :: NextPow2From(n, k) == Pow2(j)
    ensures forall j: nat :: n <= Pow2(j) ==> NextPow2From(n, k) <= Pow2(j)
    decreases if n <= Pow2(k) then 0 else n - Pow2(k)
  {
    if n <= Pow2(k) {
      forall j: nat | n <= Pow2(j)
        ensures Pow2(k) <= Pow2(j)
      {
        if j < k {
          Pow2Monotone(j, k - 1);
        } else {
          Pow2Monotone(k, j);
        }
      }
    } else {
      NextPow2FromLeast(n, k + 1);
    }
  }

  /** NextPow2 is a power of two, reaches n, and no smaller power of two does. */
  lemma NextPow2Least(n: nat)
    ensures n <= NextPow2(n)
    ensures exists j: nat :: NextPow2(n) == Pow2(j)
    ensures forall j: nat :: n <= Pow2(j) ==> NextPow2(n) <= Pow2(j)
  {
    NextPow2FromLeast(n, 0);
  }

  /** The form the row counts use: fitting in 2^k rows is the same before and after rounding up. */
  lemma NextPow2Fits(n: nat, k: nat)
    ensures NextPow2(n) <= Pow2(k) <==> n <= Pow2(k)
  {
    NextPow2Least(n);
  }

  ghost predicate IsPow2(n: nat) {
    exists k: nat :: n == Pow2(k)
  }

  /** Every factor of a power of two is one. */
  lemma {:induction false} FactorOfPow2(a: nat, b: nat, k: nat)
    requires a * b == Pow2(k)
    ensures IsPow2(a)
  {
    if k == 0 {
      FactorOfOne(a, b);
      assert a == Pow2(0);
    } else {
      assert Pow2(k) == 2 * Pow2(k - 1);
      if a % 2 == 0 {
        var c := a / 2;
        assert a == 2 * c;
        HalveLeft(c, b, Pow2(k - 1));
        FactorOfPow2(c, b, k - 1);
        var j: nat :| c == Pow2(j);
        assert a == Pow2(j + 1);
      } else {
        HalveRight(a, b, Pow2(k - 1));
        var d := b / 2;
        assert b == 2 * d;
        MulHalf(a, d);
        FactorOfPow2(a, d, k - 1);
      }
    }
  }

  lemma FactorOfOne(a: nat, b: nat)
    requires a * b == 1
    ensures a == 1
  {
    if b >= 1 {
      MulAtLeast(a, b);
    }
  }

  lemma MulAtLeast(a: nat, b: nat)
    requires b >= 1
    ensures a * b >= a
  {}

  /** An even product is halved in one of its factors. */
  lemma HalveLeft(c: nat, b: nat, half: nat)
    requires (2 * c) * b == 2 * half
    ensures c * b == half
  {
    DoubledFactor(c, b);
  }

  lemma HalveRight(a: nat, b: nat, half: nat)
    requires a % 2 == 1 && a * b == 2 * half
    ensures b % 2 == 0
  {
    OddTimesEven(a, b);
    assert (2 * half) % 2 == 0;
  }

  /** An odd factor above one rules a number out as a power of two. */
  lemma OddFactorIsNoPow2(odd: nat, factor: nat)
    requires odd > 1 && odd % 2 == 1
    ensures !IsPow2(odd * factor)
  {
    if k: nat :| odd * factor == Pow2(k) {
      OddIsNoPow2(odd);
      FactorOfPow2(odd, factor, k);
    }
  }

  lemma OddIsNoPow2(odd: nat)
    requires odd > 1 && odd % 2 == 1
    ensures !IsPow2(odd)
  {
    forall j: nat
      ensures odd != Pow2(j)
    {
      assert j > 0 ==> Pow2(j) == 2 * Pow2(j - 1);
    }
  }

  lemma MulHalf(a: nat, h: nat)
    ensures a * (2 * h) == 2 * (a * h)
  {}

  lemma OddTimesEven(odd: nat, factor: nat)
    requires odd % 2 == 1
    ensures (odd * factor) % 2 == factor % 2
  {
    var a := odd / 2;
    assert odd * factor == 2 * (a * factor) + factor by {
      assert odd == 2 * a + 1;
    }
  }

  /** Writing 2^trailing_zeros back gives the row count, as the trace builder does. */
  lemma {:induction false} Log2OfPow2(k: nat)
    ensures Log2(Pow2(k)) == k
  {
    if k > 0 {
      Log2OfPow2(k - 1);
      assert Pow2(k) / 2 == Pow2(k - 1);
    }
  }

  lemma NextPow2OfLog2(n: nat)
    ensures Pow2(Log2(NextPow2(n))) == NextPow2(n)
  {
    NextPow2Least(n);
    var j: nat :| NextPow2(n) == Pow2(j);
    Log2OfPow2(j);
  }

  lemma DoubledFactor(a: nat, b: nat)
    ensures 2 * (a * b) == (2 * a) * b
  {}

  lemma {:induction false} Pow2Add(j: nat, k: nat)
    ensures Pow2(j + k) == Pow2(j) * Pow2(k)
  {
    if j > 0 {
      Pow2Add(j - 1, k);
      assert Pow2(j + k) == 2 * Pow2(j - 1 + k) && Pow2(j) == 2 * Pow2(j - 1);
      hide Pow2;
      DoubledFactor(Pow2(j - 1), Pow2(k));
    } else {
      assert Pow2(j) == 1;
    }
  }

  lemma Pow2Zero()
    ensures Pow2(0) == 1
  {}

  /** One step of the table of powers: 2^(j + k) from two smaller ones. */
  lemma Pow2Product(j: nat, k: nat, p: nat, q: nat)
    requires Pow2(j) == p && Pow2(k) == q
    ensures Pow2(j + k) == p * q
  {
    hide Pow2;
    Pow2Add(j, k);
  }

  lemma Pow2Eight()
    ensures Pow2(5) == 32 && Pow2(7) == 128 && Pow2(8) == 256
  {
    assert Pow2(3) == 8;
    assert Pow2(5) == 32;
  }

  lemma Pow2Values()
    ensures Pow2(8) == 256 && Pow2(32) == 0x1_0000_0000
    ensures Pow2(61) == 0x2000_0000_0000_0000
    ensures Pow2(62) == 0x4000_0000_0000_0000
    ensures Pow2(63) == 0x8000_0000_0000_0000
    ensures Pow2(64) == WORD_LIMIT
  {
    Pow2Eight();
    assert Pow2(62) == 2 * Pow2(61) && Pow2(63) == 2 * Pow2(62) && Pow2(64) == 2 * Pow2(63);
    hide Pow2;
    Pow2Product(8, 8, 0x100, 0x100);
    Pow2Product(16, 16, 0x1_0000, 0x1_0000);
    Pow2Product(8, 5, 0x100, 0x20);
    Pow2Product(16, 13, 0x1_0000, 0x2000);
    Pow2Product(32, 29, 0x1_0000_0000, 0x2000_0000);
  }
}
