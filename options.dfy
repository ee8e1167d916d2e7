/** The option contract, its terminal payoff and the auxiliary terms of the
    closed-form family (d1, d2 and the discount factor). */
module Options {
  import opened Numerics

  datatype OptionType = Call | Put

  /** A European option: spot S, strike K, maturity T in years, risk-free
      rate r and volatility sigma. The pricers only read it. */
  datatype EuropeanOption = EuropeanOption(
    S: real, K: real, T: real, r: real, sigma: real, optionType: OptionType)

  /** What every pricer needs of its contract to avoid a division by zero or
      the logarithm of a non-positive number. */
  predicate ValidContract(opt: EuropeanOption) {
    opt.S > 0.0 && opt.K > 0.0 && opt.T > 0.0 && opt.sigma > 0.0
  }

  /** The same contract as a call. */
  function AsCall(opt: EuropeanOption): EuropeanOption {
    opt.(optionType := Call)
  }

  /** The same contract as a put. */
  function AsPut(opt: EuropeanOption): EuropeanOption {
    opt.(optionType := Put)
  }

  /** The larger of two reals, as std::max and Python's max return it. */
  function Max(a: real, b: real): real {
    if a < b then b else a
  }

  /** The value of the option at maturity when the underlying ends at ST:
      never negative, at least the intrinsic value, and equal to either zero
      or the intrinsic value. */
  function Payoff(opt: EuropeanOption, ST: real): (v: real)
    ensures v >= 0.0
    ensures opt.optionType == Call ==> v >= ST - opt.K && (v == 0.0 || v == ST - opt.K)
    ensures opt.optionType == Put ==> v >= opt.K - ST && (v == 0.0 || v == opt.K - ST)
  {
    match opt.optionType
    case Call => Max(ST - opt.K, 0.0)
    case Put => Max(opt.K - ST, 0.0)
  }

  /** The payoff at each of a sequence of terminal prices, element by
      element. */
  function Payoffs(opt: EuropeanOption, prices: seq<real>): (payoffs: seq<real>)
    ensures |payoffs| == |prices|
    ensures forall i :: 0 <= i < |prices| ==> payoffs[i] >= 0.0
  {
    seq(|prices|, i requires 0 <= i < |prices| => Payoff(opt, prices[i]))
  }

  /** Payoff parity at maturity: call minus put is the forward payoff. */
  lemma PayoffParity(opt: EuropeanOption, ST: real)
    ensures Payoff(AsCall(opt), ST) - Payoff(AsPut(opt), ST) == ST - opt.K
  {
  }

  /** The forward payoff ST - K at each of a sequence of terminal prices. */
  function Forward(prices: seq<real>, K: real): (f: seq<real>)
    ensures |f| == |prices|
  {
    seq(|prices|, i requires 0 <= i < |prices| => prices[i] - K)
  }

  /** Payoff parity at every terminal price: call minus put is the forward
      payoff. */
  lemma PayoffParityLevel(opt: EuropeanOption, prices: seq<real>)
    ensures forall i :: 0 <= i < |prices| ==>
      Payoffs(AsCall(opt), prices)[i] - Payoffs(AsPut(opt), prices)[i] == Forward(prices, opt.K)[i]
  {
    forall i | 0 <= i < |prices|
      ensures Payoffs(AsCall(opt), prices)[i] - Payoffs(AsPut(opt), prices)[i] == Forward(prices, opt.K)[i]
    {
      PayoffParity(opt, prices[i]);
    }
  }

  /** A put never pays more than its strike when the underlying is not
      negative. */
  lemma PutPayoffBounded(opt: EuropeanOption, ST: real)
    requires opt.optionType == Put && opt.K >= 0.0 && ST >= 0.0
    ensures Payoff(opt, ST) <= opt.K
  {
  }

  /* The closed-form terms below take the contract's numbers one by one, as
     each pricer unpacks them into locals before computing; contracts that
     differ only in their type then visibly share them. */

  /** sigma * sqrt(T), the volatility over the life of the option. */
  function SigmaSqrtT(lib: Library, T: real, sigma: real): (v: real)
    requires T > 0.0 && sigma > 0.0 && IsSqrt(lib.sqrt)
    ensures v > 0.0
  {
    sigma * lib.sqrt(T)
  }

  /** The auxiliary term d1 of the closed-form family; every formula uses
      this one definition. */
  function D1(lib: Library, S: real, K: real, T: real, r: real, sigma: real): real
    requires K > 0.0 && T > 0.0 && sigma > 0.0 && IsSqrt(lib.sqrt)
  {
    (lib.ln(S / K) + (r + 0.5 * sigma * sigma) * T) / SigmaSqrtT(lib, T, sigma)
  }

  /** d2 = d1 - sigma sqrt(T). */
  function D2(lib: Library, S: real, K: real, T: real, r: real, sigma: real): real
    requires K > 0.0 && T > 0.0 && sigma > 0.0 && IsSqrt(lib.sqrt)
  {
    D1(lib, S, K, T, r, sigma) - SigmaSqrtT(lib, T, sigma)
  }

  /** The continuous discount factor e^(-rT). */
  function Discount(lib: Library, r: real, T: real): real {
    lib.exp(-r * T)
  }

  /** The discount factor is exp of any term equal to -rT. */
  lemma DiscountExponent(lib: Library, r: real, T: real, x: real)
    requires x == -r * T
    ensures Discount(lib, r, T) == lib.exp(x)
  {
    Congruent(lib.exp, -r * T, x);
  }
}
