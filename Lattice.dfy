/**
 * The Cox-Ross-Rubinstein binomial lattice as mathematics over `real`.
 *
 * Node (j, i) of a lattice is the state after `i` time steps of which `j`
 * were down-moves, so 0 <= j <= i.  This module states what every node of
 * the underlying-price lattice and of the option-value lattice must hold;
 * the array-filling algorithm in module Pricer is proved against it.
 */
module Lattice {

  /** The inputs of one pricing run, after parameter derivation:
      spot S, strike K, up and down factors u and d, risk-neutral
      up-probability p, per-step discount factor disc, and the option's
      type (call or put) and exercise style (American or European). */
  datatype Params = Params(
    S: real, K: real,
    u: real, d: real,
    p: real, disc: real,
    call: bool, american: bool)

  /** The weights of one backward step form a discounted probability. */
  predicate Sane(m: Params) {
    0.0 <= m.p <= 1.0 && 0.0 <= m.disc
  }

  function Max(a: real, b: real): (r: real)
    ensures r >= a && r >= b
    ensures r == a || r == b
  {
    if a >= b then a else b
  }

  function Min(a: real, b: real): (r: real)
    ensures r <= a && r <= b
    ensures r == a || r == b
  {
    if a <= b then a else b
  }

  function Pow(x: real, n: nat): (r: real) {
    if n == 0 then 1.0 else x * Pow(x, n - 1)
  }

  /** Closed form of the recombining tree: i - j up-moves and j down-moves. */
  function NodePrice(m: Params, i: nat, j: nat): (r: real)
    requires j <= i
  {
    m.S * Pow(m.u, i - j) * Pow(m.d, j)
  }

  /** The value of exercising now, NOT floored at zero:
      price - K for a call, K - price for a put. */
  function Intrinsic(call: bool, K: real, price: real): (r: real)
    ensures r > 0.0 <==> (call && price > K) || (!call && price < K)
    ensures r == 0.0 <==> price == K
  {
    if call then price - K else K - price
  }

  /** The option's value at expiry: the exercise value floored at zero. */
  function Payoff(call: bool, K: real, price: real): (r: real)
    ensures r >= 0.0
    ensures r >= Intrinsic(call, K, price)
    ensures r == 0.0 || r == Intrinsic(call, K, price)
  {
    Max(Intrinsic(call, K, price), 0.0)
  }

  /** Continuation value: the discounted p-weighted mean of the up child
      (row j of the next column) and the down child (row j + 1). */
  function Hold(p: real, disc: real, up: real, down: real): (r: real)
    ensures 0.0 <= p <= 1.0 && 0.0 <= disc ==> disc * Min(up, down) <= r <= disc * Max(up, down)
  {
    var mean := up * p + (1.0 - p) * down;
    if 0.0 <= p <= 1.0 && 0.0 <= disc then
      var lo, hi := Min(up, down), Max(up, down);
      assert mean - lo == p * (up - lo) + (1.0 - p) * (down - lo);
      assert hi - mean == p * (hi - up) + (1.0 - p) * (hi - down);
      MulNonNegative(p, up - lo);
      MulNonNegative(1.0 - p, down - lo);
      MulNonNegative(p, hi - up);
      MulNonNegative(1.0 - p, hi - down);
      MulNonNegative(disc, mean - lo);
      MulNonNegative(disc, hi - mean);
      disc * mean
    else
      disc * mean
  }

  /** A node's value given its underlying price and its continuation value:
      an American option may be exercised early, a European one may not. */
  function NodeValue(m: Params, price: real, hold: real): (r: real)
    ensures m.american ==> r >= hold && r >= Intrinsic(m.call, m.K, price)
    ensures m.american ==> r == hold || r == Intrinsic(m.call, m.K, price)
    ensures !m.american ==> r == hold
  {
    if m.american then Max(Intrinsic(m.call, m.K, price), hold) else hold
  }

  /** The option value at node (j, i) of a lattice with `steps` steps,
      defined by backward induction from the terminal payoff. */
  function Value(m: Params, steps: nat, i: nat, j: nat): (r: real)
    requires j <= i <= steps
    ensures m.american ==> r >= Intrinsic(m.call, m.K, NodePrice(m, i, j))
    decreases steps - i
  {
    if i == steps then
      Payoff(m.call, m.K, NodePrice(m, steps, j))
    else
      NodeValue(m, NodePrice(m, i, j),
                Hold(m.p, m.disc, Value(m, steps, i + 1, j), Value(m, steps, i + 1, j + 1)))
  }

  lemma MulNonNegative(a: real, b: real)
    requires 0.0 <= a && 0.0 <= b
    ensures 0.0 <= a * b
  {
  }

  // ---------------------------------------------------------------------------
  // The underlying-price lattice

  lemma {:induction false} PowPositive(x: real, n: nat)
    requires x > 0.0
    ensures Pow(x, n) > 0.0
  {
    if n > 0 {
      PowPositive(x, n - 1);
      assert x * Pow(x, n - 1) > 0.0;
    }
  }

  /** Moving up: node (j, i) is u times node (j, i - 1). */
  lemma NodePriceUp(m: Params, i: nat, j: nat)
    requires j < i
    ensures NodePrice(m, i, j) == NodePrice(m, i - 1, j) * m.u
  {
  }

  /** Moving down from the bottom node: node (i, i) is d times node (i - 1, i - 1). */
  lemma NodePriceDown(m: Params, i: nat)
    requires 0 < i
    ensures NodePrice(m, i, i) == NodePrice(m, i - 1, i - 1) * m.d
  {
  }

  /** With a positive spot and positive factors every node price is positive. */
  lemma NodePricePositive(m: Params, i: nat, j: nat)
    requires m.S > 0.0 && m.u > 0.0 && m.d > 0.0
    requires j <= i
    ensures NodePrice(m, i, j) > 0.0
  {
    PowPositive(m.u, i - j);
    PowPositive(m.d, j);
    assert m.S * Pow(m.u, i - j) > 0.0;
  }

  // ---------------------------------------------------------------------------
  // Order properties of backward induction

  /** The continuation value is monotone in both children when the weights are sane. */
  lemma HoldMonotone(p: real, disc: real, up: real, down: real, up': real, down': real)
    requires 0.0 <= p <= 1.0 && 0.0 <= disc
    requires up <= up' && down <= down'
    ensures Hold(p, disc, up, down) <= Hold(p, disc, up', down')
  {
    MulNonNegative(p, up' - up);
    MulNonNegative(1.0 - p, down' - down);
    var e, e' := up * p + (1.0 - p) * down, up' * p + (1.0 - p) * down';
    assert e' - e == p * (up' - up) + (1.0 - p) * (down' - down);
    MulNonNegative(disc, e' - e);
  }

  /** The continuation value of non-negative children is non-negative. */
  lemma HoldNonNegative(p: real, disc: real, up: real, down: real)
    requires 0.0 <= p <= 1.0 && 0.0 <= disc
    requires 0.0 <= up && 0.0 <= down
    ensures 0.0 <= Hold(p, disc, up, down)
  {
    HoldMonotone(p, disc, 0.0, 0.0, up, down);
  }

  /** Every option value is non-negative. */
  lemma {:induction false} ValueNonNegative(m: Params, steps: nat, i: nat, j: nat)
    requires Sane(m)
    requires j <= i <= steps
    ensures Value(m, steps, i, j) >= 0.0
    decreases steps - i
  {
    if i < steps {
      ValueNonNegative(m, steps, i + 1, j);
      ValueNonNegative(m, steps, i + 1, j + 1);
      HoldNonNegative(m.p, m.disc, Value(m, steps, i + 1, j), Value(m, steps, i + 1, j + 1));
    }
  }

  /** The right of early exercise is worth something: at every node the
      American value is at least the European value of the same option. */
  lemma {:induction false} AmericanGeEuropean(m: Params, steps: nat, i: nat, j: nat)
    requires Sane(m)
    requires j <= i <= steps
    ensures Value(m.(american := true), steps, i, j) >= Value(m.(american := false), steps, i, j)
    decreases steps - i
  {
    if i < steps {
      var am, eu := m.(american := true), m.(american := false);
      AmericanGeEuropean(m, steps, i + 1, j);
      AmericanGeEuropean(m, steps, i + 1, j + 1);
      HoldMonotone(m.p, m.disc,
                   Value(eu, steps, i + 1, j), Value(eu, steps, i + 1, j + 1),
                   Value(am, steps, i + 1, j), Value(am, steps, i + 1, j + 1));
    }
  }

  /** An American option is worth at least its exercise payoff at every node. */
  lemma {:induction false} AmericanGePayoff(m: Params, steps: nat, i: nat, j: nat)
    requires Sane(m) && m.american
    requires j <= i <= steps
    ensures Value(m, steps, i, j) >= Payoff(m.call, m.K, NodePrice(m, i, j))
  {
    ValueNonNegative(m, steps, i, j);
  }

  /** Under sane weights the early-exercise comparison with the unfloored
      exercise value (as the pricer does it) agrees with the comparison with
      the floored payoff: both give max(payoff, hold). */
  lemma {:induction false} OverrideUsesPayoff(m: Params, steps: nat, i: nat, j: nat)
    requires Sane(m) && m.american
    requires j <= i < steps
    ensures Value(m, steps, i, j) ==
            Max(Payoff(m.call, m.K, NodePrice(m, i, j)),
                Hold(m.p, m.disc, Value(m, steps, i + 1, j), Value(m, steps, i + 1, j + 1)))
  {
    ValueNonNegative(m, steps, i + 1, j);
    ValueNonNegative(m, steps, i + 1, j + 1);
    HoldNonNegative(m.p, m.disc, Value(m, steps, i + 1, j), Value(m, steps, i + 1, j + 1));
  }

  /** At an American node the override with the unfloored exercise value and
      the one with the floored payoff differ exactly when the exercise value
      and the continuation value are both negative. */
  lemma OverrideDiffersFromPayoff(m: Params, price: real, hold: real)
    requires m.american
    ensures NodeValue(m, price, hold) != Max(Payoff(m.call, m.K, price), hold) <==>
            Intrinsic(m.call, m.K, price) < 0.0 && hold < 0.0
  {
  }

  /** With a negative weight p the two overrides give different root values:
      a one-step American call with S = 100, K = 150, u = 2, d = 0.5, p = -2
      and disc = 1 is worth -50, where the floored comparison gives 0. */
  lemma NegativeWeightExample()
    ensures var m := Params(100.0, 150.0, 2.0, 0.5, -2.0, 1.0, true, true);
      Value(m, 1, 0, 0) == -50.0 &&
      Max(Payoff(m.call, m.K, NodePrice(m, 0, 0)),
          Hold(m.p, m.disc, Value(m, 1, 1, 0), Value(m, 1, 1, 1))) == 0.0
  {
  }
}
