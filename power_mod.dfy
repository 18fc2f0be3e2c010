/**
 * Fixed_Exponent_Power_Mod: a context bound to one exponent and one modulus that
 * maps a base to base^exponent mod modulus. Its windowing and Montgomery internals
 * are replaced by a plain square-and-multiply recursion proved equal to the
 * reference definition Pow(base, exponent) % modulus.
 */
module PowerMod {
  import opened Arith

  /** base^e mod n by repeated squaring, reducing after every product. */
  function ModPow(base: nat, e: nat, n: nat): (r: nat)
    requires n > 0
    ensures r < n
    decreases e
  {
    if e == 0 then 1 % n
    else if e % 2 == 0 then
      var h := ModPow(base, e / 2, n);
      h * h % n
    else
      ModPow(base, e - 1, n) * (base % n) % n
  }

  /** Square-and-multiply computes the mathematical power, reduced. */
  lemma {:induction false} ModPowCorrect(base: nat, e: nat, n: nat)
    requires n > 0
    ensures ModPow(base, e, n) == Pow(base, e) % n
    decreases e
  {
    if e == 0 {
    } else if e % 2 == 0 {
      var k := e / 2;
      ModPowCorrect(base, k, n);
      PowAdd(base, k, k);
      assert k + k == e;
      MulMod(Pow(base, k), Pow(base, k), n);
    } else {
      ModPowCorrect(base, e - 1, n);
      MulMod(Pow(base, e - 1), base, n);
      assert Pow(base, e) == Pow(base, e - 1) * base;
    }
  }

  /** The context built from (exponent, modulus); applying it is operator() in the source. */
  datatype FixedExponentPowerMod = FixedExponentPowerMod(exponent: nat, modulus: nat) {

    function Apply(base: nat): (r: nat)
      requires modulus > 0
      ensures r == Pow(base, exponent) % modulus
    {
      ModPowCorrect(base, exponent, modulus);
      ModPow(base, exponent, modulus)
    }
  }
}
