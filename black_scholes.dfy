/** The closed-form Black-Scholes (1973) pricer, in its Python form (which
    calls the library's normal distribution function) and its C++ form
    (which builds that function from the complementary error function). */
module BlackScholes {
  import opened Numerics
  import opened Options

  /** The Black-Scholes formula with the normal distribution function Phi
      given: S Phi(d1) - K e^(-rT) Phi(d2) for a call and
      K e^(-rT) Phi(-d2) - S Phi(-d1) for a put. */
  function ClosedForm(opt: EuropeanOption, lib: Library, Phi: real -> real): real
    requires ValidContract(opt) && IsSqrt(lib.sqrt)
  {
    var d1 := D1(lib, opt.S, opt.K, opt.T, opt.r, opt.sigma);
    var d2 := D2(lib, opt.S, opt.K, opt.T, opt.r, opt.sigma);
    var disc := Discount(lib, opt.r, opt.T);
    match opt.optionType
    case Call => opt.S * Phi(d1) - opt.K * disc * Phi(d2)
    case Put => opt.K * disc * Phi(-d2) - opt.S * Phi(-d1)
  }

  /** The Python pricer, with the library's normal distribution function. */
  function Price(opt: EuropeanOption, lib: Library): real
    requires ValidContract(opt) && IsSqrt(lib.sqrt)
  {
    ClosedForm(opt, lib, lib.cdf)
  }

  /** M_SQRT1_2, the C library's constant for 1/sqrt(2). */
  const Sqrt1Over2: real := 0.70710678118654752440

  /** The C++ normal distribution function 0.5 erfc(-x / sqrt 2). */
  function NormCdf(erfc: real -> real, x: real): real {
    0.5 * erfc(-x * Sqrt1Over2)
  }

  /** The C++ pricer, with the erfc-based normal distribution function. */
  function CppPrice(opt: EuropeanOption, lib: Library): real
    requires ValidContract(opt) && IsSqrt(lib.sqrt)
  {
    ClosedForm(opt, lib, x => NormCdf(lib.erfc, x))
  }

  /** The two branches of the formula add up to the forward price when
      Phi(x) + Phi(-x) = 1 at d1 and at d2. */
  lemma ParityAlgebra(S: real, KDisc: real, a: real, a': real, b: real, b': real)
    requires a + a' == 1.0 && b + b' == 1.0
    ensures (S * a - KDisc * b) - (KDisc * b' - S * a') == S - KDisc
  {
    calc {
      (S * a - KDisc * b) - (KDisc * b' - S * a');
      S * (a + a') - KDisc * (b + b');
    }
  }

  /** Put-call parity holds for the formula whenever Phi(x) + Phi(-x) = 1. */
  lemma ClosedFormParity(opt: EuropeanOption, lib: Library, Phi: real -> real)
    requires ValidContract(opt) && IsSqrt(lib.sqrt) && IsSymmetricProbability(Phi)
    ensures ClosedForm(AsCall(opt), lib, Phi) - ClosedForm(AsPut(opt), lib, Phi)
            == opt.S - opt.K * Discount(lib, opt.r, opt.T)
  {
    var d1 := D1(lib, opt.S, opt.K, opt.T, opt.r, opt.sigma);
    var d2 := D2(lib, opt.S, opt.K, opt.T, opt.r, opt.sigma);
    var disc := Discount(lib, opt.r, opt.T);
    assert ClosedForm(AsCall(opt), lib, Phi) == opt.S * Phi(d1) - opt.K * disc * Phi(d2);
    assert ClosedForm(AsPut(opt), lib, Phi) == opt.K * disc * Phi(-d2) - opt.S * Phi(-d1);
    ParityAlgebra(opt.S, opt.K * disc, Phi(d1), Phi(-d1), Phi(d2), Phi(-d2));
  }

  /** Put-call parity of the Python pricer: Call - Put = S - K e^(-rT). */
  lemma PriceParity(opt: EuropeanOption, lib: Library)
    requires ValidContract(opt) && IsSqrt(lib.sqrt) && IsSymmetricProbability(lib.cdf)
    ensures Price(AsCall(opt), lib) - Price(AsPut(opt), lib) == opt.S - opt.K * Discount(lib, opt.r, opt.T)
  {
    ClosedFormParity(opt, lib, lib.cdf);
  }

  /** The erfc-based function is a symmetric distribution function when erfc
      satisfies its complement identity. */
  lemma NormCdfIsSymmetricProbability(erfc: real -> real)
    requires IsErfc(erfc)
    ensures IsSymmetricProbability(x => NormCdf(erfc, x))
  {
    forall x: real
      ensures NormCdf(erfc, x) + NormCdf(erfc, -x) == 1.0
    {
      var y := -x * Sqrt1Over2;
      assert -(-x) * Sqrt1Over2 == -y;
      assert erfc(y) + erfc(-y) == 2.0;
    }
  }

  /** Put-call parity of the C++ pricer: Call - Put = S - K e^(-rT). */
  lemma CppPriceParity(opt: EuropeanOption, lib: Library)
    requires ValidContract(opt) && IsSqrt(lib.sqrt) && IsErfc(lib.erfc)
    ensures CppPrice(AsCall(opt), lib) - CppPrice(AsPut(opt), lib) == opt.S - opt.K * Discount(lib, opt.r, opt.T)
  {
    NormCdfIsSymmetricProbability(lib.erfc);
    ClosedFormParity(opt, lib, x => NormCdf(lib.erfc, x));
  }

  /** The two pricers agree whenever the library's normal distribution
      function is the erfc-based one. This is congruence only: the
      hypothesis is the whole content, namely that the distribution function
      the Python pricer calls equals 0.5 erfc(-x / sqrt 2) at every point.
      Since Sqrt1Over2 is a finite decimal rather than 1 / sqrt 2, the
      hypothesis fails for the exact distribution and erfc at every x other
      than 0; it describes two implementations that agree, not exact
      analysis. */
  lemma CppPriceMatchesPrice(opt: EuropeanOption, lib: Library)
    requires ValidContract(opt) && IsSqrt(lib.sqrt)
    requires forall x :: lib.cdf(x) == NormCdf(lib.erfc, x)
    ensures CppPrice(opt, lib) == Price(opt, lib)
  {
  }

  /** No-arbitrage upper bounds: a call is worth at most the spot and a put
      at most the discounted strike. */
  lemma ClosedFormBounded(opt: EuropeanOption, lib: Library, Phi: real -> real)
    requires ValidContract(opt) && IsSqrt(lib.sqrt) && IsExp(lib.exp) && IsSymmetricProbability(Phi)
    ensures opt.optionType == Call ==> ClosedForm(opt, lib, Phi) <= opt.S
    ensures opt.optionType == Put ==> ClosedForm(opt, lib, Phi) <= opt.K * Discount(lib, opt.r, opt.T)
  {
    var d1 := D1(lib, opt.S, opt.K, opt.T, opt.r, opt.sigma);
    var d2 := D2(lib, opt.S, opt.K, opt.T, opt.r, opt.sigma);
    var disc := Discount(lib, opt.r, opt.T);
    assert disc > 0.0;
    ScaledByProbability(opt.S, Phi(d1));
    ScaledByProbability(opt.S, Phi(-d1));
    ScaledByProbability(opt.K * disc, Phi(d2));
    ScaledByProbability(opt.K * disc, Phi(-d2));
  }

  /** The no-arbitrage bounds for the Python pricer. */
  lemma PriceBounded(opt: EuropeanOption, lib: Library)
    requires ValidContract(opt) && IsSqrt(lib.sqrt) && IsExp(lib.exp) && IsSymmetricProbability(lib.cdf)
    ensures opt.optionType == Call ==> Price(opt, lib) <= opt.S
    ensures opt.optionType == Put ==> Price(opt, lib) <= opt.K * Discount(lib, opt.r, opt.T)
  {
    ClosedFormBounded(opt, lib, lib.cdf);
  }
}
