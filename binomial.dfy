/** The Cox-Ross-Rubinstein binomial lattice pricer. The Python pricer
    rebuilds the list of node values once per time step; the C++ pricer
    overwrites one array in place and indexes its nodes in the opposite
    order. Both are proved to compute the same backward induction. */
module Binomial {
  import opened Numerics
  import opened Options

  /** The parameters of one lattice step: up and down factors, the
      risk-neutral up probability and the one-step discount factor. */
  datatype Crr = Crr(u: real, d: real, p: real, discount: real)

  /** dt = T / steps, u = exp(sigma sqrt(dt)), d = 1 / u,
      p = (exp(r dt) - d) / (u - d) and discount = exp(-r dt). */
  function CrrParams(lib: Library, T: real, r: real, sigma: real, steps: nat): (c: Crr)
    requires steps > 0 && T > 0.0 && sigma > 0.0 && IsSqrt(lib.sqrt) && IsExp(lib.exp)
    ensures c.u > 1.0 && 0.0 < c.d < 1.0 && c.u * c.d == 1.0
    ensures c.discount > 0.0
  {
    var dt := T / steps as real;
    var u := lib.exp(sigma * lib.sqrt(dt));
    var d := 1.0 / u;
    Crr(u, d, (Growth(lib, r, dt) - d) / (u - d), Discount(lib, r, dt))
  }

  /** The risk-free growth factor e^(r t) over a time t. */
  function Growth(lib: Library, r: real, t: real): real {
    lib.exp(r * t)
  }

  /** The underlying's price after some up moves and some down moves. */
  function NodePrice(S: real, u: real, d: real, ups: nat, downs: nat): real {
    S * Pow(u, ups) * Pow(d, downs)
  }

  /** The underlying's price at each node of the last level, node j having
      gone up j times and down steps - j times. */
  function TerminalPrices(S: real, u: real, d: real, steps: nat): (prices: seq<real>)
    ensures |prices| == steps + 1
  {
    seq(steps + 1, j requires 0 <= j <= steps => NodePrice(S, u, d, j, steps - j))
  }

  /** The discounted risk-neutral expectation of a node's two children. */
  function RollNode(up: real, down: real, p: real, discount: real): real {
    discount * (p * up + (1.0 - p) * down)
  }

  /** One rollback in the Python order: node j of the new level discounts
      the expectation of its up child j + 1 and its down child j. */
  function Step(v: seq<real>, p: real, discount: real): (w: seq<real>)
    requires |v| > 0
    ensures |w| == |v| - 1
  {
    seq(|v| - 1, j requires 0 <= j < |v| - 1 => RollNode(v[j + 1], v[j], p, discount))
  }

  /** Roll a level back to the root. */
  function BackwardInduction(v: seq<real>, p: real, discount: real): real
    requires |v| > 0
    decreases |v|
  {
    if |v| == 1 then v[0] else BackwardInduction(Step(v, p, discount), p, discount)
  }

  /** The level reached after k rollbacks. */
  function Levels(v: seq<real>, p: real, discount: real, k: nat): (w: seq<real>)
    requires k < |v|
    ensures |w| == |v| - k
  {
    if k == 0 then v else Step(Levels(v, p, discount, k - 1), p, discount)
  }

  /** One more rollback extends the levels by one. */
  lemma LevelsStep(v: seq<real>, p: real, discount: real, k: nat)
    requires k + 1 < |v|
    ensures Levels(v, p, discount, k + 1) == Step(Levels(v, p, discount, k), p, discount)
  {
  }

  /** Rolling back part of the way first does not change the root. */
  lemma {:induction false} BackwardInductionLevels(v: seq<real>, p: real, discount: real, k: nat)
    requires k < |v|
    ensures BackwardInduction(Levels(v, p, discount, k), p, discount) == BackwardInduction(v, p, discount)
  {
    if k > 0 {
      BackwardInductionLevels(v, p, discount, k - 1);
    }
  }

  /** The lattice price of the option: its payoffs at the last level rolled
      back to the root. */
  function LatticePrice(opt: EuropeanOption, lib: Library, steps: nat): real
    requires opt.T > 0.0 && opt.sigma > 0.0 && steps > 0 && IsSqrt(lib.sqrt) && IsExp(lib.exp)
  {
    var c := CrrParams(lib, opt.T, opt.r, opt.sigma, steps);
    BackwardInduction(Payoffs(opt, TerminalPrices(opt.S, c.u, c.d, steps)), c.p, c.discount)
  }

  /** The Python pricer: the list of values shrinks by one node per pass
      until the root alone remains. */
  method PythonPrice(opt: EuropeanOption, lib: Library, steps: nat) returns (price: real)
    requires opt.T > 0.0 && opt.sigma > 0.0 && steps > 0 && IsSqrt(lib.sqrt) && IsExp(lib.exp)
    ensures price == LatticePrice(opt, lib, steps)
  {
    var c := CrrParams(lib, opt.T, opt.r, opt.sigma, steps);
    var values := Payoffs(opt, TerminalPrices(opt.S, c.u, c.d, steps));
    ghost var terminal := values;
    assert BackwardInduction(terminal, c.p, c.discount) == LatticePrice(opt, lib, steps);
    var i := steps;
    ghost var passes: nat := 0;
    while i > 0
      invariant i <= steps && passes == steps - i
      invariant |values| == i + 1
      invariant values == Levels(terminal, c.p, c.discount, passes)
    {
      LevelsStep(terminal, c.p, c.discount, passes);
      i := i - 1;
      values := Step(values, c.p, c.discount);
      passes := passes + 1;
    }
    BackwardInductionLevels(terminal, c.p, c.discount, steps);
    assert |values| == 1;
    price := values[0];
  }

  /** A sequence read from its last element to its first. */
  function Reverse(s: seq<real>): (r: seq<real>)
    ensures |r| == |s|
  {
    seq(|s|, i requires 0 <= i < |s| => s[|s| - 1 - i])
  }

  /** One rollback in the C++ order: node i of the new level discounts the
      expectation of its up child i and its down child i + 1. */
  function MirroredStep(v: seq<real>, p: real, discount: real): (w: seq<real>)
    requires |v| > 0
    ensures |w| == |v| - 1
  {
    seq(|v| - 1, i requires 0 <= i < |v| - 1 => RollNode(v[i], v[i + 1], p, discount))
  }

  /** The C++ node order is the Python order reversed, level by level: a
      C++ rollback of the reversed level is the reversed Python rollback. */
  lemma MirroredStepReverses(v: seq<real>, p: real, discount: real)
    requires |v| > 0
    ensures MirroredStep(Reverse(v), p, discount) == Reverse(Step(v, p, discount))
  {
    var n := |v| - 1;
    forall i | 0 <= i < n
      ensures MirroredStep(Reverse(v), p, discount)[i] == Reverse(Step(v, p, discount))[i]
    {
      assert Reverse(v)[i] == v[n - 1 - i + 1];
      assert Reverse(v)[i + 1] == v[n - 1 - i];
    }
  }

  /** One pass of the inner C++ loop over nodes 0..step: each node is
      overwritten after its own old value and before its right neighbour's,
      so every read sees the previous level. Nodes past step are untouched. */
  method RollBack(values: array<real>, step: nat, p: real, discount: real)
    requires step + 1 < values.Length
    modifies values
    ensures values[..step + 1] == MirroredStep(old(values[..step + 2]), p, discount)
    ensures values[step + 1..] == old(values[step + 1..])
  {
    ghost var level := values[..step + 2];
    for i := 0 to step + 1
      invariant forall k :: 0 <= k < i ==> values[k] == RollNode(level[k], level[k + 1], p, discount)
      invariant forall k :: i <= k < values.Length ==> values[k] == old(values[k])
    {
      assert values[i] == level[i] && values[i + 1] == level[i + 1];
      values[i] := discount * (p * values[i] + (1.0 - p) * values[i + 1]);
      assert values[i] == RollNode(level[i], level[i + 1], p, discount);
    }
    forall k | 0 <= k < step + 1
      ensures values[..step + 1][k] == MirroredStep(level, p, discount)[k]
    {
    }
  }

  /** C++ node i of the last level is Python node steps - i. */
  lemma TerminalNode(opt: EuropeanOption, u: real, d: real, steps: nat, i: nat)
    requires i <= steps
    ensures Reverse(Payoffs(opt, TerminalPrices(opt.S, u, d, steps)))[i]
            == Payoff(opt, NodePrice(opt.S, u, d, steps - i, i))
  {
    var prices := TerminalPrices(opt.S, u, d, steps);
    var j := steps - i;
    assert steps - j == i;
    assert Reverse(Payoffs(opt, prices))[i] == Payoffs(opt, prices)[j];
    assert prices[j] == NodePrice(opt.S, u, d, j, i);
  }

  /** The first C++ loop: a fresh array of the terminal payoffs, node i
      having gone up n - i times, which is the Python last level reversed. */
  method TerminalPayoffs(opt: EuropeanOption, u: real, d: real, n: nat) returns (values: array<real>)
    ensures fresh(values)
    ensures values[..] == Reverse(Payoffs(opt, TerminalPrices(opt.S, u, d, n)))
  {
    values := new real[n + 1];
    for i := 0 to n + 1
      invariant forall k :: 0 <= k < i ==> values[k] == Payoff(opt, NodePrice(opt.S, u, d, n - k, k))
    {
      var st := NodePrice(opt.S, u, d, n - i, i);
      values[i] := Payoff(opt, st);
    }
    forall k | 0 <= k < n + 1
      ensures values[k] == Reverse(Payoffs(opt, TerminalPrices(opt.S, u, d, n)))[k]
    {
      TerminalNode(opt, u, d, n, k);
    }
  }

  /** The second C++ loop: pass after pass over a shrinking prefix of the
      array. When the array holds a level in reverse, every pass leaves the
      next level in reverse in front of it, and the root ends in entry 0. */
  method RollBackAll(values: array<real>, n: nat, p: real, discount: real, ghost terminal: seq<real>)
    requires values.Length == n + 1 && values[..] == Reverse(terminal)
    modifies values
    ensures values[0] == BackwardInduction(terminal, p, discount)
  {
    ghost var level := terminal;
    ghost var passes: nat := 0;
    assert values[..n + 1] == values[..];
    var step := n - 1;
    while step >= 0
      invariant -1 <= step < n && passes == n - 1 - step
      invariant |level| == step + 2
      invariant level == Levels(terminal, p, discount, passes)
      invariant values[..step + 2] == Reverse(level)
    {
      RollBack(values, step, p, discount);
      MirroredStepReverses(level, p, discount);
      LevelsStep(terminal, p, discount, passes);
      level := Step(level, p, discount);
      step := step - 1;
      passes := passes + 1;
    }
    assert values[0] == values[..1][0] == Reverse(level)[0] == level[0];
    assert BackwardInduction(level, p, discount) == level[0];
    BackwardInductionLevels(terminal, p, discount, passes);
  }

  /** The C++ pricer: the terminal payoffs are written with node i having
      gone up steps - i times, then each pass rolls the array back in place.
      It computes exactly the Python lattice price. */
  method CppPrice(opt: EuropeanOption, lib: Library, n: nat) returns (price: real)
    requires opt.T > 0.0 && opt.sigma > 0.0 && n > 0 && IsSqrt(lib.sqrt) && IsExp(lib.exp)
    ensures price == LatticePrice(opt, lib, n)
  {
    var c := CrrParams(lib, opt.T, opt.r, opt.sigma, n);
    var values := TerminalPayoffs(opt, c.u, c.d, n);
    RollBackAll(values, n, c.p, c.discount, Payoffs(opt, TerminalPrices(opt.S, c.u, c.d, n)));
    price := values[0];
  }

  /* Properties of backward induction. */

  /** A node rolled back from non-negative children is non-negative. */
  lemma RollNodeNonNegative(up: real, down: real, p: real, discount: real)
    requires up >= 0.0 && down >= 0.0 && 0.0 <= p <= 1.0 && discount >= 0.0
    ensures RollNode(up, down, p, discount) >= 0.0
  {
    NonNegativeProduct(p, up);
    NonNegativeProduct(1.0 - p, down);
    NonNegativeProduct(discount, p * up + (1.0 - p) * down);
  }

  /** A weighted average of two amounts at most M is at most M. */
  lemma WeightedBound(p: real, up: real, down: real, M: real)
    requires up <= M && down <= M && 0.0 <= p <= 1.0
    ensures p * up + (1.0 - p) * down <= M
  {
    var q := 1.0 - p;
    if down <= up {
      MonotoneProduct(q, down, up);
      assert q * down <= q * up;
      assert p * up + q * up == (p + q) * up;
      assert p * up + q * down <= up;
    } else {
      MonotoneProduct(p, up, down);
      assert p * up <= p * down;
      assert p * down + q * down == (p + q) * down;
      assert p * up + q * down <= down;
    }
  }

  /** A node rolled back from children at most M is at most discount * M. */
  lemma RollNodeBounded(up: real, down: real, p: real, discount: real, M: real)
    requires up <= M && down <= M && 0.0 <= p <= 1.0 && discount >= 0.0
    ensures RollNode(up, down, p, discount) <= discount * M
  {
    WeightedBound(p, up, down, M);
    MonotoneProduct(discount, p * up + (1.0 - p) * down, M);
  }

  /** Rolling back is linear in the level. */
  lemma RollNodeDifference(a1: real, a0: real, b1: real, b0: real, p: real, discount: real)
    ensures RollNode(a1, a0, p, discount) - RollNode(b1, b0, p, discount)
            == RollNode(a1 - b1, a0 - b0, p, discount)
  {
    calc {
      RollNode(a1, a0, p, discount) - RollNode(b1, b0, p, discount);
      discount * ((p * a1 + (1.0 - p) * a0) - (p * b1 + (1.0 - p) * b0));
      { assert (p * a1 + (1.0 - p) * a0) - (p * b1 + (1.0 - p) * b0)
               == p * (a1 - b1) + (1.0 - p) * (a0 - b0); }
      RollNode(a1 - b1, a0 - b0, p, discount);
    }
  }

  /** With p in [0, 1] and a non-negative discount, non-negative terminal
      values roll back to a non-negative price. */
  lemma {:induction false} BackwardInductionNonNegative(v: seq<real>, p: real, discount: real)
    requires |v| > 0 && 0.0 <= p <= 1.0 && discount >= 0.0
    requires forall i :: 0 <= i < |v| ==> v[i] >= 0.0
    ensures BackwardInduction(v, p, discount) >= 0.0
    decreases |v|
  {
    if |v| > 1 {
      var w := Step(v, p, discount);
      forall j | 0 <= j < |w|
        ensures w[j] >= 0.0
      {
        RollNodeNonNegative(v[j + 1], v[j], p, discount);
      }
      BackwardInductionNonNegative(w, p, discount);
    }
  }

  /** With p in [0, 1] and a non-negative discount, a level whose values
      are all at most M rolls back to at most discount^(|v|-1) M. */
  lemma {:induction false} BackwardInductionBounded(v: seq<real>, p: real, discount: real, M: real)
    requires |v| > 0 && 0.0 <= p <= 1.0 && discount >= 0.0
    requires forall i :: 0 <= i < |v| ==> v[i] <= M
    ensures BackwardInduction(v, p, discount) <= Pow(discount, |v| - 1) * M
    decreases |v|
  {
    if |v| > 1 {
      var w := Step(v, p, discount);
      forall j | 0 <= j < |w|
        ensures w[j] <= discount * M
      {
        RollNodeBounded(v[j + 1], v[j], p, discount, M);
      }
      BackwardInductionBounded(w, p, discount, discount * M);
      var k := |w| - 1;
      assert Pow(discount, k) * (discount * M) == (discount * Pow(discount, k)) * M;
    }
  }

  /** Backward induction is linear: the difference of two rolled-back
      levels is the rolled-back difference. */
  lemma {:induction false} BackwardInductionDifference(a: seq<real>, b: seq<real>, c: seq<real>, p: real, discount: real)
    requires |a| == |b| == |c| > 0
    requires forall i :: 0 <= i < |a| ==> a[i] - b[i] == c[i]
    ensures BackwardInduction(a, p, discount) - BackwardInduction(b, p, discount)
            == BackwardInduction(c, p, discount)
    decreases |a|
  {
    if |a| > 1 {
      var a', b', c' := Step(a, p, discount), Step(b, p, discount), Step(c, p, discount);
      forall j | 0 <= j < |a'|
        ensures a'[j] - b'[j] == c'[j]
      {
        RollNodeDifference(a[j + 1], a[j], b[j + 1], b[j], p, discount);
      }
      BackwardInductionDifference(a', b', c', p, discount);
    }
  }

  /** A level holding one amount x at each of its n nodes. */
  function Constant(x: real, n: nat): (s: seq<real>)
    ensures |s| == n
  {
    seq(n, _ => x)
  }

  /** An amount held at every terminal node is worth that amount
      discounted over all steps, whatever p is. */
  lemma {:induction false} BackwardInductionConstant(x: real, n: nat, p: real, discount: real)
    ensures BackwardInduction(Constant(x, n + 1), p, discount) == Pow(discount, n) * x
    decreases n
  {
    if n > 0 {
      var w := Step(Constant(x, n + 1), p, discount);
      assert RollNode(x, x, p, discount) == discount * x;
      assert w == Constant(discount * x, n);
      BackwardInductionConstant(discount * x, n - 1, p, discount);
      assert Pow(discount, n - 1) * (discount * x) == (discount * Pow(discount, n - 1)) * x;
    }
  }

  /** The risk-neutral condition: one step's discounted expected growth is
      one, that is p u + (1 - p) d = 1 / discount. */
  predicate RiskNeutral(c: Crr) {
    c.discount * (c.p * c.u + (1.0 - c.p) * c.d) == 1.0
  }

  /** Under the risk-neutral condition a node whose children hold A u and
      A d rolls back to A. */
  lemma RollNodeRiskNeutral(A: real, c: Crr)
    requires RiskNeutral(c)
    ensures RollNode(A * c.u, A * c.d, c.p, c.discount) == A
  {
    calc {
      RollNode(A * c.u, A * c.d, c.p, c.discount);
      A * (c.discount * (c.p * c.u + (1.0 - c.p) * c.d));
    }
  }

  /** S u^(j+1) d^k = (S u^j d^k) u and S u^j d^(k+1) = (S u^j d^k) d. */
  lemma NodePriceMoves(S: real, u: real, d: real, j: nat, k: nat)
    ensures NodePrice(S, u, d, j + 1, k) == NodePrice(S, u, d, j, k) * u
    ensures NodePrice(S, u, d, j, k + 1) == NodePrice(S, u, d, j, k) * d
  {
    assert Pow(u, j + 1) == u * Pow(u, j);
    assert Pow(d, k + 1) == d * Pow(d, k);
  }

  /** Under the risk-neutral condition a node rolled back from its two
      children's prices is the node's own price. */
  lemma StepTerminalNode(S: real, c: Crr, j: nat, k: nat)
    requires RiskNeutral(c)
    ensures RollNode(NodePrice(S, c.u, c.d, j + 1, k), NodePrice(S, c.u, c.d, j, k + 1), c.p, c.discount)
            == NodePrice(S, c.u, c.d, j, k)
  {
    NodePriceMoves(S, c.u, c.d, j, k);
    RollNodeRiskNeutral(NodePrice(S, c.u, c.d, j, k), c);
  }

  /** Under the risk-neutral condition one rollback of the underlying's
      prices gives its prices one level earlier. */
  lemma StepTerminalPrices(S: real, c: Crr, n: nat)
    requires n > 0 && RiskNeutral(c)
    ensures Step(TerminalPrices(S, c.u, c.d, n), c.p, c.discount) == TerminalPrices(S, c.u, c.d, n - 1)
  {
    var prices := TerminalPrices(S, c.u, c.d, n);
    forall j | 0 <= j < n
      ensures Step(prices, c.p, c.discount)[j] == TerminalPrices(S, c.u, c.d, n - 1)[j]
    {
      var k := n - 1 - j;
      assert prices[j + 1] == NodePrice(S, c.u, c.d, j + 1, k);
      assert prices[j] == NodePrice(S, c.u, c.d, j, k + 1);
      StepTerminalNode(S, c, j, k);
    }
  }

  /** Under the risk-neutral condition the lattice prices the underlying
      itself at its spot. */
  lemma {:induction false} BackwardInductionForward(S: real, c: Crr, n: nat)
    requires RiskNeutral(c)
    ensures BackwardInduction(TerminalPrices(S, c.u, c.d, n), c.p, c.discount) == S
  {
    if n > 0 {
      StepTerminalPrices(S, c, n);
      BackwardInductionForward(S, c, n - 1);
    } else {
      assert TerminalPrices(S, c.u, c.d, 0)[0] == NodePrice(S, c.u, c.d, 0, 0);
    }
  }

  /** By linearity, call minus put on the lattice is the underlying minus
      a bond paying K, each rolled back. */
  lemma BackwardInductionParity(opt: EuropeanOption, prices: seq<real>, p: real, discount: real)
    requires |prices| > 0
    ensures BackwardInduction(Payoffs(AsCall(opt), prices), p, discount)
            - BackwardInduction(Payoffs(AsPut(opt), prices), p, discount)
            == BackwardInduction(prices, p, discount) - BackwardInduction(Constant(opt.K, |prices|), p, discount)
  {
    var forward := Forward(prices, opt.K);
    PayoffParityLevel(opt, prices);
    BackwardInductionDifference(Payoffs(AsCall(opt), prices), Payoffs(AsPut(opt), prices), forward, p, discount);
    BackwardInductionDifference(prices, Constant(opt.K, |prices|), forward, p, discount);
  }

  /** Put-call parity on the lattice: under the risk-neutral condition,
      call minus put is S - K discount^n. */
  lemma LatticeParityAt(opt: EuropeanOption, c: Crr, n: nat)
    requires RiskNeutral(c)
    ensures BackwardInduction(Payoffs(AsCall(opt), TerminalPrices(opt.S, c.u, c.d, n)), c.p, c.discount)
            - BackwardInduction(Payoffs(AsPut(opt), TerminalPrices(opt.S, c.u, c.d, n)), c.p, c.discount)
            == opt.S - opt.K * Pow(c.discount, n)
  {
    BackwardInductionParity(opt, TerminalPrices(opt.S, c.u, c.d, n), c.p, c.discount);
    BackwardInductionForward(opt.S, c, n);
    BackwardInductionConstant(opt.K, n, c.p, c.discount);
  }

  /* The lattice price built from the CRR parameters. */

  /** p = (E - d) / (u - d) makes p u + (1 - p) d equal E. */
  lemma WeightedFactors(u: real, d: real, E: real, p: real)
    requires u != d && p == (E - d) / (u - d)
    ensures p * u + (1.0 - p) * d == E
  {
    assert p * (u - d) == E - d;
    assert p * u + (1.0 - p) * d == d + p * (u - d);
  }

  /** Discounting undoes growth over the same time. */
  lemma DiscountGrowth(lib: Library, r: real, t: real)
    requires IsExp(lib.exp) && ExpAdditive(lib.exp)
    ensures Discount(lib, r, t) * Growth(lib, r, t) == 1.0
  {
    ExpZero(lib.exp);
    ExpAdd(lib.exp, -r * t, r * t, 0.0);
  }

  /** The CRR up probability satisfies the risk-neutral condition: this is
      what its definition is for. */
  lemma CrrRiskNeutral(lib: Library, T: real, r: real, sigma: real, steps: nat)
    requires steps > 0 && T > 0.0 && sigma > 0.0 && IsSqrt(lib.sqrt) && IsExp(lib.exp)
    requires ExpAdditive(lib.exp)
    ensures RiskNeutral(CrrParams(lib, T, r, sigma, steps))
  {
    var c := CrrParams(lib, T, r, sigma, steps);
    var dt := T / steps as real;
    WeightedFactors(c.u, c.d, Growth(lib, r, dt), c.p);
    DiscountGrowth(lib, r, dt);
  }

  /** n (-r (T / n)) = -r T. */
  lemma SplitEvenly(n: nat, r: real, T: real)
    requires n > 0
    ensures n as real * (-r * (T / n as real)) == -r * T
  {
    assert n as real * (T / n as real) == T;
  }

  /** Discounting over every step of the lattice is discounting over the
      life of the option: discount^steps = e^(-rT). */
  lemma DiscountCompounds(lib: Library, r: real, T: real, steps: nat)
    requires steps > 0 && IsExp(lib.exp) && ExpAdditive(lib.exp)
    ensures Pow(Discount(lib, r, T / steps as real), steps) == Discount(lib, r, T)
  {
    var dt := T / steps as real;
    ExpZero(lib.exp);
    var perStep := -r * dt;
    ExpPow(lib.exp, perStep, steps);
    SplitEvenly(steps, r, T);
    DiscountExponent(lib, r, dt, perStep);
    DiscountExponent(lib, r, T, steps as real * perStep);
  }

  /** Put-call parity of the lattice price: call minus put is
      S - K e^(-rT), the same right-hand side as the closed form. */
  lemma LatticeParity(opt: EuropeanOption, lib: Library, steps: nat)
    requires opt.T > 0.0 && opt.sigma > 0.0 && steps > 0 && IsSqrt(lib.sqrt) && IsExp(lib.exp)
    requires ExpAdditive(lib.exp)
    ensures LatticePrice(AsCall(opt), lib, steps) - LatticePrice(AsPut(opt), lib, steps)
            == opt.S - opt.K * Discount(lib, opt.r, opt.T)
  {
    var c := CrrParams(lib, opt.T, opt.r, opt.sigma, steps);
    CrrRiskNeutral(lib, opt.T, opt.r, opt.sigma, steps);
    DiscountCompounds(lib, opt.r, opt.T, steps);
    LatticeParityAt(opt, c, steps);
  }

  /** When the up probability lies in [0, 1] the lattice price is never
      negative. */
  lemma LatticeNonNegative(opt: EuropeanOption, lib: Library, steps: nat)
    requires opt.T > 0.0 && opt.sigma > 0.0 && steps > 0 && IsSqrt(lib.sqrt) && IsExp(lib.exp)
    requires 0.0 <= CrrParams(lib, opt.T, opt.r, opt.sigma, steps).p <= 1.0
    ensures LatticePrice(opt, lib, steps) >= 0.0
  {
    var c := CrrParams(lib, opt.T, opt.r, opt.sigma, steps);
    BackwardInductionNonNegative(Payoffs(opt, TerminalPrices(opt.S, c.u, c.d, steps)), c.p, c.discount);
  }

  /** Prices at the nodes are positive when the spot and factors are. */
  lemma TerminalPricesPositive(S: real, u: real, d: real, n: nat)
    requires S > 0.0 && u > 0.0 && d > 0.0
    ensures forall i :: 0 <= i <= n ==> TerminalPrices(S, u, d, n)[i] > 0.0
  {
    forall i | 0 <= i <= n
      ensures TerminalPrices(S, u, d, n)[i] > 0.0
    {
      var a, b := Pow(u, i), Pow(d, n - i);
      assert S * a > 0.0;
      assert S * a * b > 0.0;
    }
  }

  /** When the up probability lies in [0, 1] a put is worth at most its
      discounted strike on the lattice. */
  lemma LatticePutBounded(opt: EuropeanOption, lib: Library, steps: nat)
    requires ValidContract(opt) && steps > 0 && IsSqrt(lib.sqrt) && IsExp(lib.exp)
    requires ExpAdditive(lib.exp) && opt.optionType == Put
    requires 0.0 <= CrrParams(lib, opt.T, opt.r, opt.sigma, steps).p <= 1.0
    ensures LatticePrice(opt, lib, steps) <= opt.K * Discount(lib, opt.r, opt.T)
  {
    var c := CrrParams(lib, opt.T, opt.r, opt.sigma, steps);
    var prices := TerminalPrices(opt.S, c.u, c.d, steps);
    TerminalPricesPositive(opt.S, c.u, c.d, steps);
    forall i | 0 <= i <= steps
      ensures Payoffs(opt, prices)[i] <= opt.K
    {
      PutPayoffBounded(opt, prices[i]);
    }
    BackwardInductionBounded(Payoffs(opt, prices), c.p, c.discount, opt.K);
    DiscountCompounds(lib, opt.r, opt.T, steps);
  }

  /** When the up probability lies in [0, 1] a call is worth at most the
      spot on the lattice. */
  lemma LatticeCallBounded(opt: EuropeanOption, lib: Library, steps: nat)
    requires ValidContract(opt) && steps > 0 && IsSqrt(lib.sqrt) && IsExp(lib.exp)
    requires ExpAdditive(lib.exp) && opt.optionType == Call
    requires 0.0 <= CrrParams(lib, opt.T, opt.r, opt.sigma, steps).p <= 1.0
    ensures LatticePrice(opt, lib, steps) <= opt.S
  {
    var c := CrrParams(lib, opt.T, opt.r, opt.sigma, steps);
    var prices := TerminalPrices(opt.S, c.u, c.d, steps);
    var calls := Payoffs(opt, prices);
    var rest := seq(steps + 1, i requires 0 <= i <= steps => prices[i] - calls[i]);
    TerminalPricesPositive(opt.S, c.u, c.d, steps);
    BackwardInductionNonNegative(rest, c.p, c.discount);
    BackwardInductionDifference(prices, calls, rest, c.p, c.discount);
    CrrRiskNeutral(lib, opt.T, opt.r, opt.sigma, steps);
    BackwardInductionForward(opt.S, c, steps);
  }
}
