/**
 * `calculate_power`: the doubling loop that computes a transformer's power.
 * The C++ result is a 32-bit `int`; doubling past 2^30 overflows, which is
 * undefined behaviour, so callers must keep `power` at most 30.
 */
module Power {

  import CInt

  /** 2 to the n. */
  function Pow2(n: nat): (r: nat)
    ensures r >= 1
  {
    if n == 0 then 1 else 2 * Pow2(n - 1)
  }

  /** Exponents add under multiplication. */
  lemma {:induction false} Pow2Add(m: nat, n: nat)
    ensures Pow2(m + n) == Pow2(m) * Pow2(n)
    decreases n
  {
    if n > 0 {
      Pow2Add(m, n - 1);
      assert Pow2(m + n) == 2 * Pow2(m + n - 1);
    }
  }

  /** Pow2 grows strictly with its exponent. */
  lemma {:induction false} Pow2Increases(m: nat, n: nat)
    requires m < n
    ensures Pow2(m) < Pow2(n)
    decreases n
  {
    if m < n - 1 {
      Pow2Increases(m, n - 1);
    }
  }

  /** The small powers, unfolded one doubling at a time. */
  lemma Pow2UpToFive()
    ensures Pow2(5) == 32
  {
    assert Pow2(1) == 2;
    assert Pow2(2) == 4;
    assert Pow2(3) == 8;
    assert Pow2(4) == 16;
  }

  /** The three powers `main` computes, 2^7, 2^10 and 2^15, and 2^30. */
  lemma MainPowers()
    ensures Pow2(7) == 128 && Pow2(10) == 1024 && Pow2(15) == 32768
    ensures Pow2(30) == 1073741824
  {
    Pow2UpToFive();
    assert Pow2(6) == 64;
    assert Pow2(7) == 128;
    Pow2Add(5, 5);
    Pow2Add(5, 10);
    Pow2Add(15, 15);
  }

  /** Every power up to 2^30 fits in a 32-bit `int`. */
  lemma Pow2FitsInt(n: nat)
    requires n <= 30
    ensures Pow2(n) <= CInt.IntMax
  {
    MainPowers();
    if n < 30 {
      Pow2Increases(n, 30);
    }
  }

  /**
   * `calculate_power(power)`: 2^power for a non-negative power and 1 for a
   * negative one (the loop runs zero times); the result never overflows.
   */
  method CalculatePower(power: int) returns (ans: int)
    requires power <= 30
    ensures power <= 0 ==> ans == 1
    ensures power >= 0 ==> ans == Pow2(power)
    ensures 1 <= ans <= CInt.IntMax
  {
    ans := 1;
    var i := 0;
    while i < power
      invariant 0 <= i && (power >= 0 ==> i <= power) && (power <= 0 ==> i == 0)
      invariant ans == Pow2(i)
    {
      ans := ans * 2;
      i := i + 1;
    }
    if power >= 0 {
      Pow2FitsInt(power);
    }
  }
}
