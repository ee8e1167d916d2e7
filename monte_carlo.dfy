/** The Monte Carlo pricer: each standard-normal draw Z is mapped to a
    terminal spot by the exact risk-neutral lognormal solution, and the price
    is the discounted mean payoff. The draws are an input: the random number
    generator is not part of this model. */
module MonteCarlo {
  import opened Numerics
  import opened Options

  /** S exp((r - sigma^2 / 2) T + sigma sqrt(T) Z). */
  function TerminalSpot(lib: Library, S: real, T: real, r: real, sigma: real, z: real): real {
    S * lib.exp((r - 0.5 * sigma * sigma) * T + sigma * lib.sqrt(T) * z)
  }

  /** The terminal spots of all draws, element by element. */
  function Spots(lib: Library, S: real, T: real, r: real, sigma: real, draws: seq<real>): (spots: seq<real>)
    ensures |spots| == |draws|
  {
    seq(|draws|, i requires 0 <= i < |draws| => TerminalSpot(lib, S, T, r, sigma, draws[i]))
  }

  /** The sum of a sequence, accumulated from the front. */
  function Sum(s: seq<real>): real
  {
    if s == [] then 0.0 else Sum(s[..|s| - 1]) + s[|s| - 1]
  }

  /** The arithmetic mean of a non-empty sequence. */
  function Mean(s: seq<real>): real
    requires |s| > 0
  {
    Sum(s) / |s| as real
  }

  /** The Python pricer: the whole-array form, e^(-rT) mean(payoff). A
      negative maturity makes sqrt(T), and so the price, NaN in both programs,
      and no draws make the mean NaN; neither is a price. */
  function Price(opt: EuropeanOption, lib: Library, draws: seq<real>): real
    requires opt.T >= 0.0 && |draws| > 0
  {
    var spots := Spots(lib, opt.S, opt.T, opt.r, opt.sigma, draws);
    Discount(lib, opt.r, opt.T) * Mean(Payoffs(opt, spots))
  }

  /** The C++ pricer: one draw per iteration, accumulated into payoffSum,
      then discounted and divided by the number of simulations. It computes
      exactly the Python price on the same draws. */
  method CppPrice(opt: EuropeanOption, lib: Library, n: int, draws: seq<real>) returns (price: real)
    requires opt.T >= 0.0 && n > 0 && |draws| == n
    ensures price == Price(opt, lib, draws)
  {
    var payoffSum := 0.0;
    for i := 0 to n
      invariant payoffSum == Sum(Payoffs(opt, Spots(lib, opt.S, opt.T, opt.r, opt.sigma, draws[..i])))
    {
      var z := draws[i];
      var st := TerminalSpot(lib, opt.S, opt.T, opt.r, opt.sigma, z);
      var payoff := Payoff(opt, st);
      ghost var done := Payoffs(opt, Spots(lib, opt.S, opt.T, opt.r, opt.sigma, draws[..i + 1]));
      assert done[..i] == Payoffs(opt, Spots(lib, opt.S, opt.T, opt.r, opt.sigma, draws[..i]));
      payoffSum := payoffSum + payoff;
    }
    assert draws[..n] == draws;
    price := Discount(lib, opt.r, opt.T) * (payoffSum / n as real);
  }

  /** A sum of non-negative terms is non-negative. */
  lemma {:induction false} SumNonNegative(s: seq<real>)
    requires forall i :: 0 <= i < |s| ==> s[i] >= 0.0
    ensures Sum(s) >= 0.0
  {
    if s != [] {
      SumNonNegative(s[..|s| - 1]);
    }
  }

  /** A sum of terms each at most M is at most |s| M. */
  lemma {:induction false} SumBounded(s: seq<real>, M: real)
    requires forall i :: 0 <= i < |s| ==> s[i] <= M
    ensures Sum(s) <= |s| as real * M
  {
    if s != [] {
      var m := |s| - 1;
      SumBounded(s[..m], M);
      assert |s| as real * M == m as real * M + M;
    }
  }

  /** Sums are linear: when a[i] - b[i] = c[i] - k everywhere,
      Sum(a) - Sum(b) = Sum(c) - |a| k. */
  lemma {:induction false} SumDifference(a: seq<real>, b: seq<real>, c: seq<real>, k: real)
    requires |a| == |b| == |c|
    requires forall i :: 0 <= i < |a| ==> a[i] - b[i] == c[i] - k
    ensures Sum(a) - Sum(b) == Sum(c) - |a| as real * k
  {
    if a != [] {
      var m := |a| - 1;
      SumDifference(a[..m], b[..m], c[..m], k);
      assert Sum(a) - Sum(b) == (Sum(a[..m]) - Sum(b[..m])) + (a[m] - b[m]);
      assert Sum(c) == Sum(c[..m]) + c[m];
      assert |a| as real * k == m as real * k + k;
    }
  }

  /** The Monte Carlo price is never negative. */
  lemma PriceNonNegative(opt: EuropeanOption, lib: Library, draws: seq<real>)
    requires opt.T >= 0.0 && |draws| > 0 && IsExp(lib.exp)
    ensures Price(opt, lib, draws) >= 0.0
  {
    var payoffs := Payoffs(opt, Spots(lib, opt.S, opt.T, opt.r, opt.sigma, draws));
    var disc := Discount(lib, opt.r, opt.T);
    SumNonNegative(payoffs);
    assert Mean(payoffs) >= 0.0;
    NonNegativeProduct(disc, Mean(payoffs));
  }

  /** Terminal spots are positive when the initial spot is. */
  lemma SpotsPositive(lib: Library, S: real, T: real, r: real, sigma: real, draws: seq<real>)
    requires S > 0.0 && IsExp(lib.exp)
    ensures forall i :: 0 <= i < |draws| ==> Spots(lib, S, T, r, sigma, draws)[i] > 0.0
  {
    forall i | 0 <= i < |draws|
      ensures Spots(lib, S, T, r, sigma, draws)[i] > 0.0
    {
      var growth := lib.exp((r - 0.5 * sigma * sigma) * T + sigma * lib.sqrt(T) * draws[i]);
      assert growth > 0.0;
      assert S * growth > 0.0;
    }
  }

  /** Every put payoff at a positive spot is at most the strike. */
  lemma PutPayoffsBounded(opt: EuropeanOption, spots: seq<real>)
    requires opt.optionType == Put && opt.K >= 0.0
    requires forall i :: 0 <= i < |spots| ==> spots[i] > 0.0
    ensures forall i :: 0 <= i < |spots| ==> Payoffs(opt, spots)[i] <= opt.K
  {
    forall i | 0 <= i < |spots|
      ensures Payoffs(opt, spots)[i] <= opt.K
    {
      PutPayoffBounded(opt, spots[i]);
    }
  }

  /** Discounting the mean of terms each at most k gives at most disc k. */
  lemma DiscountedMeanBounded(disc: real, s: seq<real>, k: real)
    requires disc >= 0.0 && |s| > 0
    requires forall i :: 0 <= i < |s| ==> s[i] <= k
    ensures disc * Mean(s) <= disc * k
  {
    SumBounded(s, k);
    QuotientBounded(Sum(s), |s| as real, k);
    MonotoneProduct(disc, Mean(s), k);
  }

  /** A put's Monte Carlo price never exceeds its discounted strike. */
  lemma PutPriceBounded(opt: EuropeanOption, lib: Library, draws: seq<real>)
    requires opt.S > 0.0 && opt.K >= 0.0 && opt.T >= 0.0 && |draws| > 0 && IsExp(lib.exp)
    requires opt.optionType == Put
    ensures Price(opt, lib, draws) <= opt.K * Discount(lib, opt.r, opt.T)
  {
    var spots := Spots(lib, opt.S, opt.T, opt.r, opt.sigma, draws);
    var disc := Discount(lib, opt.r, opt.T);
    assert disc > 0.0;
    SpotsPositive(lib, opt.S, opt.T, opt.r, opt.sigma, draws);
    PutPayoffsBounded(opt, spots);
    DiscountedMeanBounded(disc, Payoffs(opt, spots), opt.K);
  }

  /** Means are linear: when a[i] - b[i] = c[i] - k everywhere,
      Mean(a) - Mean(b) = Mean(c) - k. */
  lemma MeanDifference(a: seq<real>, b: seq<real>, c: seq<real>, k: real)
    requires |a| == |b| == |c| > 0
    requires forall i :: 0 <= i < |a| ==> a[i] - b[i] == c[i] - k
    ensures Mean(a) - Mean(b) == Mean(c) - k
  {
    var n := |a| as real;
    SumDifference(a, b, c, k);
    assert Mean(a) - Mean(b) == (Sum(a) - Sum(b)) / n;
    assert (Sum(c) - n * k) / n == Sum(c) / n - k;
  }

  /** Put-call parity on the same draws: Call - Put = e^(-rT) (mean(ST) - K). */
  lemma PriceParity(opt: EuropeanOption, lib: Library, draws: seq<real>)
    requires opt.T >= 0.0 && |draws| > 0
    ensures Price(AsCall(opt), lib, draws) - Price(AsPut(opt), lib, draws)
            == Discount(lib, opt.r, opt.T) * (Mean(Spots(lib, opt.S, opt.T, opt.r, opt.sigma, draws)) - opt.K)
  {
    var spots := Spots(lib, opt.S, opt.T, opt.r, opt.sigma, draws);
    var calls, puts := Payoffs(AsCall(opt), spots), Payoffs(AsPut(opt), spots);
    var disc := Discount(lib, opt.r, opt.T);
    PayoffParityLevel(opt, spots);
    MeanDifference(calls, puts, spots, opt.K);
    assert disc * Mean(calls) - disc * Mean(puts) == disc * (Mean(calls) - Mean(puts));
  }
}
