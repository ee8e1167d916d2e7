/** The numeric primitives the pricers call.

    The pricing code relies on transcendental library functions (natural
    logarithm, square root, exponential, the standard normal distribution
    and the complementary error function). None of them can be computed over
    `real`, so each is a value of type `real -> real` supplied by the caller,
    and the few facts the pricers depend on are stated as predicates that a
    faithful implementation satisfies. Integer powers, in contrast, are exact
    and are defined here. */
module Numerics {

  /** The library functions one pricing call may use. */
  datatype Library = Library(
    ln: real -> real,    // natural logarithm
    sqrt: real -> real,  // square root
    exp: real -> real,   // exponential
    cdf: real -> real,   // standard normal cumulative distribution function
    pdf: real -> real,   // standard normal density
    erfc: real -> real)  // complementary error function

  /** A square root is positive on positive arguments. */
  ghost predicate IsSqrt(sqrt: real -> real) {
    forall x :: x > 0.0 ==> sqrt(x) > 0.0
  }

  /** The exponential is positive and exceeds one on positive arguments. */
  ghost predicate IsExp(exp: real -> real) {
    && (forall x :: exp(x) > 0.0)
    && (forall x :: x > 0.0 ==> exp(x) > 1.0)
  }

  /** z is the sum of x and y. */
  ghost predicate SumOf(x: real, y: real, z: real) {
    z == x + y
  }

  /** The exponential turns sums into products. The law is instantiated only
      where a proof names the sum (see ExpAdd), which keeps it from being
      applied to every pair of exponentials in sight. */
  ghost predicate ExpAdditive(exp: real -> real) {
    forall x, y, z {:trigger SumOf(x, y, z)} :: SumOf(x, y, z) ==> exp(z) == exp(x) * exp(y)
  }

  /** A cumulative distribution function of a symmetric law: a probability,
      with Phi(x) + Phi(-x) = 1. */
  ghost predicate IsSymmetricProbability(cdf: real -> real) {
    && (forall x :: 0.0 <= cdf(x) <= 1.0)
    && (forall x :: cdf(x) + cdf(-x) == 1.0)
  }

  /** A probability density is never negative. */
  ghost predicate IsDensity(pdf: real -> real) {
    forall x :: pdf(x) >= 0.0
  }

  /** The complementary error function lies in [0, 2] and satisfies
      erfc(x) + erfc(-x) = 2. */
  ghost predicate IsErfc(erfc: real -> real) {
    && (forall x :: 0.0 <= erfc(x) <= 2.0)
    && (forall x :: erfc(x) + erfc(-x) == 2.0)
  }

  /** x raised to a natural power, as `u ** j` and `std::pow(u, N - i)`
      compute it for a whole exponent. */
  function Pow(x: real, n: nat): (r: real)
    ensures x >= 0.0 ==> r >= 0.0
    ensures x > 0.0 ==> r > 0.0
  {
    if n == 0 then 1.0 else x * Pow(x, n - 1)
  }

  /** One instance of the additive law. */
  lemma ExpAdd(exp: real -> real, x: real, y: real, z: real)
    requires ExpAdditive(exp) && z == x + y
    ensures exp(z) == exp(x) * exp(y)
  {
    assert SumOf(x, y, z);
  }

  /** A weight in [0, 1] scales a non-negative amount to at most itself. */
  lemma ScaledByProbability(c: real, q: real)
    requires c >= 0.0 && 0.0 <= q <= 1.0
    ensures 0.0 <= c * q <= c
  {
  }

  /** Products of non-negative reals are non-negative. */
  lemma NonNegativeProduct(a: real, b: real)
    requires a >= 0.0 && b >= 0.0
    ensures a * b >= 0.0
  {
  }

  /** A non-negative real over a positive one is non-negative. */
  lemma NonNegativeQuotient(a: real, b: real)
    requires a >= 0.0 && b > 0.0
    ensures a / b >= 0.0
  {
  }

  /** Multiplying by a non-negative factor keeps an inequality. */
  lemma MonotoneProduct(c: real, a: real, b: real)
    requires c >= 0.0 && a <= b
    ensures c * a <= c * b
  {
  }

  /** a <= n k gives a / n <= k for positive n. */
  lemma QuotientBounded(a: real, n: real, k: real)
    requires n > 0.0 && a <= n * k
    ensures a / n <= k
  {
  }

  /** Equal arguments give equal values, also when the solver sees the
      arguments only as different arithmetic terms. */
  lemma Congruent(f: real -> real, x: real, y: real)
    requires x == y
    ensures f(x) == f(y)
  {
  }

  /** exp(0) = 1. */
  lemma ExpZero(exp: real -> real)
    requires IsExp(exp) && ExpAdditive(exp)
    ensures exp(0.0) == 1.0
  {
    ExpAdd(exp, 0.0, 0.0, 0.0);
  }

  /** n a = a + (n - 1) a, the step of an induction on whole powers. */
  lemma Distribute(n: nat, a: real)
    requires n > 0
    ensures n as real * a == a + (n - 1) as real * a
  {
  }

  /** Compounding: exp(a)^n = exp(n * a). */
  lemma {:induction false} ExpPow(exp: real -> real, a: real, n: nat)
    requires ExpAdditive(exp) && exp(0.0) == 1.0
    ensures Pow(exp(a), n) == exp(n as real * a)
  {
    if n == 0 {
      Congruent(exp, 0 as real * a, 0.0);
    } else {
      var k: nat := n - 1;
      var m := k as real * a;
      ExpPow(exp, a, k);
      Distribute(n, a);
      ExpAdd(exp, a, m, n as real * a);
      assert Pow(exp(a), n) == exp(a) * Pow(exp(a), k);
    }
  }
}
