/** The five closed-form sensitivities. Each is computed from the contract
    alone with the Black-Scholes terms d1 and d2, whatever pricer produced
    the headline price. Vega and Rho are quoted per percentage point. */
module Greeks {
  import opened Numerics
  import opened Options

  /** dPrice/dS: Phi(d1) for a call, Phi(d1) - 1 for a put. */
  function Delta(opt: EuropeanOption, lib: Library): real
    requires ValidContract(opt) && IsSqrt(lib.sqrt)
  {
    var d1 := D1(lib, opt.S, opt.K, opt.T, opt.r, opt.sigma);
    match opt.optionType
    case Call => lib.cdf(d1)
    case Put => lib.cdf(d1) - 1.0
  }

  /** d2Price/dS2, the same for both types. */
  function Gamma(opt: EuropeanOption, lib: Library): real
    requires ValidContract(opt) && IsSqrt(lib.sqrt)
  {
    var d1 := D1(lib, opt.S, opt.K, opt.T, opt.r, opt.sigma);
    lib.pdf(d1) / (opt.S * SigmaSqrtT(lib, opt.T, opt.sigma))
  }

  /** dPrice/dt: the common time-decay term plus a rate term whose sign
      depends on the type. */
  function Theta(opt: EuropeanOption, lib: Library): real
    requires ValidContract(opt) && IsSqrt(lib.sqrt)
  {
    var d1 := D1(lib, opt.S, opt.K, opt.T, opt.r, opt.sigma);
    var d2 := D2(lib, opt.S, opt.K, opt.T, opt.r, opt.sigma);
    var firstTerm := -(opt.S * lib.pdf(d1) * opt.sigma) / (2.0 * lib.sqrt(opt.T));
    match opt.optionType
    case Call => firstTerm - opt.r * opt.K * Discount(lib, opt.r, opt.T) * lib.cdf(d2)
    case Put => firstTerm + opt.r * opt.K * Discount(lib, opt.r, opt.T) * lib.cdf(-d2)
  }

  /** dPrice/dsigma per percentage point, the same for both types. */
  function Vega(opt: EuropeanOption, lib: Library): real
    requires ValidContract(opt) && IsSqrt(lib.sqrt)
  {
    var d1 := D1(lib, opt.S, opt.K, opt.T, opt.r, opt.sigma);
    opt.S * lib.pdf(d1) * lib.sqrt(opt.T) / 100.0
  }

  /** dPrice/dr per percentage point. */
  function Rho(opt: EuropeanOption, lib: Library): real
    requires ValidContract(opt) && IsSqrt(lib.sqrt)
  {
    var d2 := D2(lib, opt.S, opt.K, opt.T, opt.r, opt.sigma);
    match opt.optionType
    case Call => opt.K * opt.T * Discount(lib, opt.r, opt.T) * lib.cdf(d2) / 100.0
    case Put => -opt.K * opt.T * Discount(lib, opt.r, opt.T) * lib.cdf(-d2) / 100.0
  }

  /** A call's Delta lies in [0, 1] and a put's in [-1, 0]. */
  lemma DeltaBounded(opt: EuropeanOption, lib: Library)
    requires ValidContract(opt) && IsSqrt(lib.sqrt) && IsSymmetricProbability(lib.cdf)
    ensures opt.optionType == Call ==> 0.0 <= Delta(opt, lib) <= 1.0
    ensures opt.optionType == Put ==> -1.0 <= Delta(opt, lib) <= 0.0
  {
  }

  /** Delta(Call) - Delta(Put) = 1 for the same terms. */
  lemma DeltaParity(opt: EuropeanOption, lib: Library)
    requires ValidContract(opt) && IsSqrt(lib.sqrt)
    ensures Delta(AsCall(opt), lib) - Delta(AsPut(opt), lib) == 1.0
  {
  }

  /** Gamma ignores the option type and is never negative. */
  lemma GammaTypeIndependent(opt: EuropeanOption, lib: Library)
    requires ValidContract(opt) && IsSqrt(lib.sqrt) && IsDensity(lib.pdf)
    ensures Gamma(AsCall(opt), lib) == Gamma(AsPut(opt), lib) == Gamma(opt, lib)
    ensures Gamma(opt, lib) >= 0.0
  {
    var d1 := D1(lib, opt.S, opt.K, opt.T, opt.r, opt.sigma);
    var denominator := opt.S * SigmaSqrtT(lib, opt.T, opt.sigma);
    assert denominator > 0.0;
    assert lib.pdf(d1) >= 0.0;
  }

  /** Theta(Call) - Theta(Put) = -r K e^(-rT). */
  lemma ThetaParity(opt: EuropeanOption, lib: Library)
    requires ValidContract(opt) && IsSqrt(lib.sqrt) && IsSymmetricProbability(lib.cdf)
    ensures Theta(AsCall(opt), lib) - Theta(AsPut(opt), lib)
            == -opt.r * opt.K * Discount(lib, opt.r, opt.T)
  {
    var d2 := D2(lib, opt.S, opt.K, opt.T, opt.r, opt.sigma);
    var rKDisc := opt.r * opt.K * Discount(lib, opt.r, opt.T);
    assert lib.cdf(d2) + lib.cdf(-d2) == 1.0;
    calc {
      Theta(AsCall(opt), lib) - Theta(AsPut(opt), lib);
      -rKDisc * lib.cdf(d2) - rKDisc * lib.cdf(-d2);
      -rKDisc * (lib.cdf(d2) + lib.cdf(-d2));
    }
  }

  /** With a non-negative rate, a call loses value as time passes. */
  lemma CallThetaNonPositive(opt: EuropeanOption, lib: Library)
    requires ValidContract(opt) && IsSqrt(lib.sqrt) && IsExp(lib.exp)
    requires IsSymmetricProbability(lib.cdf) && IsDensity(lib.pdf)
    requires opt.optionType == Call && opt.r >= 0.0
    ensures Theta(opt, lib) <= 0.0
  {
    var d1 := D1(lib, opt.S, opt.K, opt.T, opt.r, opt.sigma);
    var d2 := D2(lib, opt.S, opt.K, opt.T, opt.r, opt.sigma);
    var decay := opt.S * lib.pdf(d1) * opt.sigma;
    var halfRoot := 2.0 * lib.sqrt(opt.T);
    var disc := Discount(lib, opt.r, opt.T);
    NonNegativeProduct(opt.S * lib.pdf(d1), opt.sigma);
    NonNegativeQuotient(decay, halfRoot);
    NonNegativeProduct(opt.r * opt.K, disc);
    NonNegativeProduct(opt.r * opt.K * disc, lib.cdf(d2));
  }

  /** Vega ignores the option type and is never negative. */
  lemma VegaTypeIndependent(opt: EuropeanOption, lib: Library)
    requires ValidContract(opt) && IsSqrt(lib.sqrt) && IsDensity(lib.pdf)
    ensures Vega(AsCall(opt), lib) == Vega(AsPut(opt), lib) == Vega(opt, lib)
    ensures Vega(opt, lib) >= 0.0
  {
    var d1 := D1(lib, opt.S, opt.K, opt.T, opt.r, opt.sigma);
    assert opt.S * lib.pdf(d1) >= 0.0;
    assert opt.S * lib.pdf(d1) * lib.sqrt(opt.T) >= 0.0;
  }

  /** Rho(Call) - Rho(Put) = K T e^(-rT) / 100. */
  lemma RhoParity(opt: EuropeanOption, lib: Library)
    requires ValidContract(opt) && IsSqrt(lib.sqrt) && IsSymmetricProbability(lib.cdf)
    ensures Rho(AsCall(opt), lib) - Rho(AsPut(opt), lib)
            == opt.K * opt.T * Discount(lib, opt.r, opt.T) / 100.0
  {
    var d2 := D2(lib, opt.S, opt.K, opt.T, opt.r, opt.sigma);
    var kTDisc := opt.K * opt.T * Discount(lib, opt.r, opt.T);
    assert lib.cdf(d2) + lib.cdf(-d2) == 1.0;
    calc {
      Rho(AsCall(opt), lib) - Rho(AsPut(opt), lib);
      kTDisc * lib.cdf(d2) / 100.0 + kTDisc * lib.cdf(-d2) / 100.0;
      kTDisc * (lib.cdf(d2) + lib.cdf(-d2)) / 100.0;
    }
  }

  /** A call's Rho is never negative and a put's never positive. */
  lemma RhoSigns(opt: EuropeanOption, lib: Library)
    requires ValidContract(opt) && IsSqrt(lib.sqrt) && IsExp(lib.exp) && IsSymmetricProbability(lib.cdf)
    ensures opt.optionType == Call ==> Rho(opt, lib) >= 0.0
    ensures opt.optionType == Put ==> Rho(opt, lib) <= 0.0
  {
    var d2 := D2(lib, opt.S, opt.K, opt.T, opt.r, opt.sigma);
    var kT := opt.K * opt.T;
    var disc := Discount(lib, opt.r, opt.T);
    NonNegativeProduct(kT, disc);
    NonNegativeProduct(kT * disc, lib.cdf(d2));
    NonNegativeProduct(kT * disc, lib.cdf(-d2));
  }
}
