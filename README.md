# European option pricing, modelled in Dafny

This project models the pricing core of a small options library. The library
prices a European call or put on a non-dividend-paying underlying in three
ways:

- the Black-Scholes closed form;
- a Monte Carlo simulation of terminal prices;
- a Cox-Ross-Rubinstein (CRR) binomial lattice.

It also computes the five closed-form sensitivities (Delta, Gamma, Theta,
Vega, Rho). Each pricer exists twice: once in Python (`option_pricing.py`)
and once in C++ (`bindings.cpp`). The model follows both. For Monte Carlo
and the lattice it proves that the two versions compute the same price. The
two closed forms are one `ClosedForm` taking the normal distribution
function as a parameter: Python passes the library's, C++ its erfc-based
`norm_cdf`. Each is proved to satisfy put-call parity on its own
(`PriceParity`, `CppPriceParity`). Their equality is not proved: it holds
only under the hypothesis that the two distribution functions agree
pointwise (`CppPriceMatchesPrice`).

Files and modules:

- `numerics.dfy` (`Numerics`): the library functions the pricers call and the
  laws the proofs rely on. ln, sqrt, exp, the normal distribution and density,
  and erfc cannot be computed over `real`, so a `Library` value supplies them.
  Predicates such as `IsExp`, `IsSymmetricProbability` and `IsErfc` state the few facts a
  faithful implementation satisfies, and the lemmas take them as hypotheses.
  Whole powers `Pow` are exact.
- `options.dfy` (`Options`): the option type, the contract, the payoff, and
  the shared closed-form terms d1, d2 and e^(-rT). There is one definition of
  d1, used by the pricer and by every sensitivity.
- `black_scholes.dfy` (`BlackScholes`): the closed form, with the library's
  normal distribution function (Python) or with the erfc-based `norm_cdf`
  (C++).
- `greeks.dfy` (`Greeks`): Delta, Gamma, Theta, Vega and Rho.
- `monte_carlo.dfy` (`MonteCarlo`): the array form (Python) and the
  accumulating loop (C++) over a given sequence of standard-normal draws.
- `binomial.dfy` (`Binomial`): the Python lattice is a loop that rebinds a
  shrinking list. The C++ lattice overwrites one array in place, with nodes
  in the opposite order. Both are methods proved equal to one specification
  function, `LatticePrice`, and its properties are proved as lemmas.

The option type is the datatype `OptionType` with `Call` and `Put`
(option_pricing.py:6-8, bindings.cpp:7). The contract is the datatype
`EuropeanOption` with fields S, K, T, r, sigma and the option type.
Neither program changes a contract after construction, so two things hold
by construction. The constructor stores its
six arguments unchanged (bindings.cpp:14-15, option_pricing.py:11-17). Every
pricer is `const`: pricers are functions, or methods without a `modifies`
clause (bindings.cpp:29, 45, 66). The model classes (`MonteCarloModel(N)`,
`BinomialModel(steps)`) hold one count that is never changed, so that count
is a parameter.

Neither program validates its inputs. Each pricer fails on its own set of
inputs, and the model states that set, pricer by pricer, as a precondition:

- Black-Scholes and the sensitivities require `ValidContract` (S, K, T and
  sigma positive). In Python, K = 0 divides by zero, and S / K negative or
  zero makes the logarithm raise. In C++, S / K negative (or 0 / 0) gives
  NaN. Some non-positive S or K still give finite numbers; see
  "Left out". T = 0 or sigma = 0 makes the denominator of d1 zero: Python
  raises `ZeroDivisionError`, while in C++ d1 and d2 become infinite and
  the price is usually still finite (see "Left out"). T < 0 takes the square
  root of a negative number (Python raises, C++ gives NaN). A negative
  sigma gives finite numbers in both programs; see "Left out".
- Monte Carlo requires T >= 0 and at least one draw. S and K are
  unrestricted: any values give a finite price. T < 0 makes sqrt(T) NaN in
  both programs. With no draws Python's `np.mean` of an empty array returns
  NaN without raising, and C++ divides 0 by 0; neither is a price.
- The lattice requires T > 0, sigma > 0 and steps > 0; S and K are
  unrestricted. steps = 0 divides by zero in Python, while C++ then returns
  the payoff at S (see "Left out"). T = 0 or sigma = 0 gives u = d, so
  computing p divides by zero. Python raises. In C++, p is NaN when T = 0
  or r = 0, and is infinite otherwise; either way the rolled-back price is
  NaN. T < 0 takes the square root of a negative number (Python raises,
  C++ gives NaN). A negative sigma again gives finite numbers.

## Model

| member | source | states |
|---|---|---|
| Numerics.Pow | option_pricing.py:56 | a whole power of a non-negative (positive) base is non-negative (positive) |
| Numerics.ExpPow | option_pricing.py:54 | compounding: exp(a)^n = exp(n a), from the additive law of exp |
| Options.D1 | option_pricing.py:22 | d1 = (ln(S / K) + (r + sigma^2 / 2) T) / (sigma sqrt T), the one definition shared by the pricer and every sensitivity (bindings.cpp:30 computes the same term) |
| Options.D2 | option_pricing.py:23 | d2 = d1 - sigma sqrt T (also bindings.cpp:31) |
| Options.Discount | option_pricing.py:26 | the discount factor e^(-rT) (also bindings.cpp:33 and the e^(-r dt) of the lattice) |
| Options.Max | bindings.cpp:18-19 | the larger of two reals, as std::max and Python's max (option_pricing.py:58, 60) return it |
| Options.Payoff | bindings.cpp:17-20 | the payoff is never negative, is at least the intrinsic value (ST - K for a call, K - ST for a put), and equals either 0 or that intrinsic value |
| Options.Payoffs | option_pricing.py:57-60 | one payoff per terminal price, every one of them non-negative |
| Options.PayoffParity | bindings.cpp:17-20 | call payoff minus put payoff is ST - K for every ST |
| Options.PayoffParityLevel | option_pricing.py:57-60 | call minus put at every terminal price is that price minus K |
| Options.PutPayoffBounded | option_pricing.py:60 | a put pays at most K when ST >= 0 |
| Options.SigmaSqrtT | option_pricing.py:22 | sigma sqrt(T) > 0 for a valid contract, so the division in d1 is defined |
| BlackScholes.ClosedForm | option_pricing.py:19-28 | the Black-Scholes price over a given distribution function Phi: S Phi(d1) - K e^(-rT) Phi(d2) for a call, K e^(-rT) Phi(-d2) - S Phi(-d1) for a put |
| BlackScholes.Price | option_pricing.py:19-28 | the Python price: the closed form with the library's normal distribution function |
| BlackScholes.NormCdf | bindings.cpp:25-27 | the C++ normal distribution function 0.5 erfc(-x / sqrt 2), with 1 / sqrt 2 the constant `Sqrt1Over2` holding the decimal value of M_SQRT1_2 |
| BlackScholes.CppPrice | bindings.cpp:29-36 | the C++ price: the closed form with the erfc-based distribution function |
| BlackScholes.ClosedFormParity | option_pricing.py:22-28 | for any Phi with Phi(x) + Phi(-x) = 1, call minus put is S - K e^(-rT) |
| BlackScholes.PriceParity | option_pricing.py:19-28 | put-call parity of the Python closed form |
| BlackScholes.NormCdfIsSymmetricProbability | bindings.cpp:25-27 | 0.5 erfc(-x / sqrt 2) is a probability and satisfies Phi(x) + Phi(-x) = 1 whenever erfc satisfies erfc(x) + erfc(-x) = 2 |
| BlackScholes.CppPriceParity | bindings.cpp:29-36 | put-call parity of the C++ closed form, from the erfc complement identity alone |
| BlackScholes.CppPriceMatchesPrice | bindings.cpp:29-36 | the C++ and Python closed forms are equal under the hypothesis that the library's normal distribution function is pointwise the erfc-based one; the lemma is congruence, the hypothesis carries the content |
| BlackScholes.ClosedFormBounded | bindings.cpp:32-35 | a call is worth at most S and a put at most K e^(-rT) |
| BlackScholes.PriceBounded | option_pricing.py:25-28 | the same bounds for the Python closed form |
| Greeks.Delta | option_pricing.py:67-74 | Phi(d1) for a call, Phi(d1) - 1 for a put |
| Greeks.Gamma | option_pricing.py:76-80 | phi(d1) / (S sigma sqrt T), the same for both types |
| Greeks.Theta | option_pricing.py:82-93 | -S phi(d1) sigma / (2 sqrt T), minus r K e^(-rT) Phi(d2) for a call, plus r K e^(-rT) Phi(-d2) for a put |
| Greeks.Vega | option_pricing.py:95-99 | S phi(d1) sqrt(T) / 100, the same for both types |
| Greeks.Rho | option_pricing.py:101-110 | K T e^(-rT) Phi(d2) / 100 for a call, -K T e^(-rT) Phi(-d2) / 100 for a put |
| Greeks.DeltaBounded | option_pricing.py:67-74 | a call's Delta lies in [0, 1] and a put's in [-1, 0] |
| Greeks.DeltaParity | option_pricing.py:71-74 | Delta(Call) - Delta(Put) = 1 |
| Greeks.GammaTypeIndependent | option_pricing.py:76-80 | Gamma is the same for a call and a put, and never negative |
| Greeks.ThetaParity | option_pricing.py:82-93 | Theta(Call) - Theta(Put) = -r K e^(-rT) |
| Greeks.CallThetaNonPositive | option_pricing.py:88-91 | with r >= 0 a call's Theta is never positive |
| Greeks.VegaTypeIndependent | option_pricing.py:95-99 | Vega is the same for a call and a put, and never negative |
| Greeks.RhoParity | option_pricing.py:101-110 | Rho(Call) - Rho(Put) = K T e^(-rT) / 100 |
| Greeks.RhoSigns | option_pricing.py:107-110 | a call's Rho is never negative and a put's never positive |
| MonteCarlo.TerminalSpot | option_pricing.py:37 | S exp((r - sigma^2 / 2) T + sigma sqrt(T) Z) for one draw Z (also bindings.cpp:52) |
| MonteCarlo.Sum | option_pricing.py:42 | the sum of the payoffs |
| MonteCarlo.Mean | option_pricing.py:42 | the sum divided by the number of draws |
| MonteCarlo.Price | option_pricing.py:34-42 | the Python price e^(-rT) mean(payoff) on a given non-empty sequence of draws with T >= 0 |
| MonteCarlo.Spots | option_pricing.py:37 | one terminal spot per draw |
| MonteCarlo.CppPrice | bindings.cpp:45-57 | after i iterations payoff_sum is the sum of the first i payoffs; the result is exactly the Python price e^(-rT) mean(payoff) on the same draws |
| MonteCarlo.SumNonNegative | option_pricing.py:42 | a sum of non-negative payoffs is non-negative |
| MonteCarlo.SumBounded | option_pricing.py:42 | a sum of n terms each at most M is at most n M |
| MonteCarlo.SumDifference | option_pricing.py:42 | the sum is linear: termwise a - b = c - k gives Sum(a) - Sum(b) = Sum(c) - n k |
| MonteCarlo.MeanDifference | option_pricing.py:42 | the mean is linear: termwise a - b = c - k gives Mean(a) - Mean(b) = Mean(c) - k |
| MonteCarlo.PriceNonNegative | option_pricing.py:34-42 | the Monte Carlo price is never negative |
| MonteCarlo.SpotsPositive | bindings.cpp:52 | every simulated terminal spot is positive when S is |
| MonteCarlo.PutPayoffsBounded | option_pricing.py:40-41 | every simulated put payoff is at most K |
| MonteCarlo.DiscountedMeanBounded | option_pricing.py:42 | a discounted mean of terms each at most k is at most the discounted k |
| MonteCarlo.PutPriceBounded | option_pricing.py:34-42 | a put's Monte Carlo price is at most K e^(-rT) |
| MonteCarlo.PriceParity | option_pricing.py:34-42 | on the same draws, call minus put is e^(-rT) (mean(ST) - K) |
| Binomial.NodePrice | option_pricing.py:56 | the underlying's price S u^j d^k after j up and k down moves |
| Binomial.RollNode | option_pricing.py:63 | one node of a backward pass: discount (p up + (1 - p) down) (also bindings.cpp:84) |
| Binomial.BackwardInduction | option_pricing.py:62-65 | a level rolled back pass by pass until one node remains, which is returned |
| Binomial.LatticePrice | option_pricing.py:48-65 | the lattice price: the CRR parameters, the terminal payoffs, then backward induction to the root |
| Binomial.Growth | option_pricing.py:53 | the risk-free growth factor e^(r dt) over one step (also bindings.cpp:70) |
| Binomial.CrrParams | option_pricing.py:50-54 | u > 1 > d > 0, u d = 1, and the one-step discount is positive |
| Binomial.TerminalPrices | option_pricing.py:56 | the last level has steps + 1 nodes |
| Binomial.Step | option_pricing.py:63 | each backward pass leaves one node fewer |
| Binomial.Levels | option_pricing.py:62-63 | the level after k backward passes has k fewer nodes |
| Binomial.BackwardInductionLevels | option_pricing.py:62-65 | rolling a level back k passes first leaves the root price unchanged, so every level the loops hold prices the option the same |
| Binomial.PythonPrice | option_pricing.py:48-65 | after the pass for i the list is the level i + 1 nodes from the root (`Levels` of the terminal payoffs), and the single value left at the end is `LatticePrice` |
| Binomial.MirroredStep | bindings.cpp:83-85 | one in-place pass shortens the level by one node |
| Binomial.MirroredStepReverses | bindings.cpp:84 | a C++ pass over the reversed level is the reversed Python pass: C++ node i is Python node step - i |
| Binomial.RollBack | bindings.cpp:83-85 | the inner loop turns entries 0..step into the rolled-back level, reading only values of the previous level, and leaves every entry past step unchanged |
| Binomial.TerminalNode | bindings.cpp:76-79 | the C++ terminal node i (u^(N-i) d^i) is Python node N - i |
| Binomial.TerminalPayoffs | bindings.cpp:73-79 | a fresh array of N + 1 entries holding the Python last level of payoffs in reverse order |
| Binomial.RollBackAll | bindings.cpp:81-88 | with every index inside the array, after each outer pass the first step + 2 entries are the Python level of the same depth (`Levels`) in reverse, and entry 0 ends as the root of backward induction |
| Binomial.CppPrice | bindings.cpp:66-89 | the in-place lattice returns exactly the Python lattice price |
| Binomial.BackwardInductionNonNegative | option_pricing.py:62-63 | with 0 <= p <= 1 and discount >= 0, non-negative terminal values roll back to a non-negative value |
| Binomial.BackwardInductionBounded | option_pricing.py:62-63 | with 0 <= p <= 1 and discount >= 0, terminal values at most M roll back to at most discount^steps M |
| Binomial.BackwardInductionDifference | option_pricing.py:62-63 | backward induction is linear in the terminal values |
| Binomial.BackwardInductionConstant | option_pricing.py:62-63 | a constant x at every terminal node rolls back to discount^steps x |
| Binomial.WeightedBound | option_pricing.py:63 | a (p, 1 - p) weighting of two values at most M is at most M |
| Binomial.StepTerminalNode | option_pricing.py:56-63 | when p u + (1 - p) d = 1 / discount, rolling back the underlying's prices at a node's two children gives the node's own price |
| Binomial.StepTerminalPrices | option_pricing.py:56-63 | when p u + (1 - p) d = 1 / discount, one pass over the underlying's node prices gives its node prices one level earlier |
| Binomial.BackwardInductionForward | option_pricing.py:56-63 | under the same condition the lattice values the underlying at S |
| Binomial.BackwardInductionParity | option_pricing.py:57-63 | rolled-back call minus rolled-back put is the rolled-back underlying minus a rolled-back constant K |
| Binomial.LatticeParityAt | option_pricing.py:53-63 | if p u + (1 - p) d = 1 / discount then call minus put is S - K discount^steps |
| Binomial.WeightedFactors | option_pricing.py:53 | p = (E - d) / (u - d) makes p u + (1 - p) d = E |
| Binomial.DiscountGrowth | option_pricing.py:53-54 | e^(-r dt) e^(r dt) = 1 |
| Binomial.CrrRiskNeutral | option_pricing.py:50-54 | the CRR probability satisfies p u + (1 - p) d = 1 / discount |
| Binomial.DiscountCompounds | option_pricing.py:50-54 | discount^steps = e^(-rT) |
| Binomial.LatticeParity | option_pricing.py:48-65 | lattice put-call parity: call minus put is S - K e^(-rT), the closed form's right-hand side |
| Binomial.LatticeNonNegative | option_pricing.py:57-65 | with 0 <= p <= 1 the lattice price is never negative |
| Binomial.TerminalPricesPositive | option_pricing.py:56 | every terminal node price is positive |
| Binomial.LatticePutBounded | option_pricing.py:48-65 | with 0 <= p <= 1 a put's lattice price is at most K e^(-rT) |
| Binomial.LatticeCallBounded | option_pricing.py:48-65 | with 0 <= p <= 1 a call's lattice price is at most S |

## Left out

- Random number generation (numpy's normal generator, `std::mt19937` seeded from `std::random_device`): the draws are an input sequence. The C++ generator's draw order is therefore not modelled, and neither are unbiasedness and statistical convergence.
- Transcendental functions (ln, sqrt, exp, normal distribution and density, erfc) are not computed. Only the laws stated in `Numerics` are assumed, as lemma hypotheses.
- IEEE 754 rounding, overflow, infinities and NaN: prices are exact reals. The behaviour of the source outside the preconditions is not modelled: Python exceptions, and C++ results that are NaN, infinite, or finite values reached through infinite intermediate terms (the lines below list the finite ones).
- Convergence of the lattice and Monte Carlo prices to the closed form, the T → 0 intrinsic-value limit, monotonicity in S and sigma, and the finite-difference consistency of the sensitivities: these are limits and derivatives, not finite identities over the model.
- The pybind11 registration (bindings.cpp:93-119), the Streamlit dashboard and the market-data script: user interface and I/O, no pricing logic.
- Options.ValidContract: requires S > 0 and K > 0, the condition under which both programs take a finite logarithm of S / K. Some other cases give finite results that the model does not describe. If S and K are both negative, S / K is positive, so both programs return finite prices, and Python returns finite sensitivities. In C++, S = 0 with K > 0 gives d1 = d2 = -infinity and norm_cdf = 0: the call is 0 and the put K e^(-rT). In C++, K = 0 with S > 0 gives d1 = d2 = +infinity: the call is S and the put 0.
- BlackScholes.CppPrice: requires T > 0 and sigma > 0 through `ValidContract`, and so does not describe how C++ handles a zero denominator in d1, where Python raises. With T = 0 and S ≠ K, d1 = d2 = ±infinity, norm_cdf gives 1 or 0 and e^(-r 0) = 1: the call is max(S - K, 0) and the put max(K - S, 0), the exact intrinsic value. With sigma = 0, T > 0 and ln(S / K) + r T ≠ 0, the call is max(S - K e^(-rT), 0) and the put max(K e^(-rT) - S, 0). NaN results only at S = K (T = 0) or S = K e^(-rT) (sigma = 0).
- Options.SigmaSqrtT: requires sigma > 0, although the source formulas also evaluate with a negative volatility. The same holds for `Options.ValidContract` (and so for Black-Scholes and every sensitivity), `Binomial.CrrParams` and `Binomial.LatticePrice`: with sigma < 0 both programs return finite numbers (for the lattice, u < 1 < d), which the model does not describe.
- Binomial.CppPrice: requires steps > 0. With zero steps C++ computes dt = T / 0 = infinity and u = infinity, but its one-node vector holds payoff(S) (both powers are raised to the power 0) and no rollback runs, so it returns the intrinsic value at S; Python raises instead. A negative step count is not modelled either.
- MonteCarlo.CppPrice: requires n > 0. With a negative count the C++ loop does not run and the result is a zero of negative sign, not a price.
- MonteCarlo.Price: requires T >= 0. For T < 0 both programs return NaN, which the exact-real model cannot represent.
- Binomial.LatticeNonNegative: assumes 0 <= p <= 1. The source does not check this; it holds when d < e^(r dt) < u.
