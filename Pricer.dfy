/**
 * The pricer `crr`: it fills the underlying-price lattice forward from the
 * spot, sets the option's terminal payoffs, and fills the option-value
 * lattice backward column by column, raising each node to its exercise
 * value when the option is American.
 *
 * Both lattices are square (steps + 1) x (steps + 1) arrays indexed
 * [row, column] = [down-moves j, time step i]; only cells with j <= i are
 * meaningful, and the others stay 0.
 */
module Pricer {
  import opened Lattice

  /** A square lattice whose cells [j, i] with j > i (more down-moves than steps) are 0. */
  ghost predicate IsLattice(a: array2<real>, steps: nat)
    reads a
  {
    a.Length0 == steps + 1 && a.Length1 == steps + 1 &&
    forall i, j :: 0 <= i < j <= steps ==> a[j, i] == 0.0
  }

  /** Every populated cell of the price lattice holds the recombining-tree closed form. */
  ghost predicate ClosedForm(price: array2<real>, m: Params, steps: nat)
    reads price
    requires price.Length0 == steps + 1 && price.Length1 == steps + 1
  {
    forall i, j :: 0 <= j <= i <= steps ==> price[j, i] == NodePrice(m, i, j)
  }

  /** The last column of the option lattice holds the payoff of the last column of prices. */
  ghost predicate TerminalPayoff(option: array2<real>, price: array2<real>, m: Params, steps: nat)
    reads option, price
    requires option.Length0 == steps + 1 && option.Length1 == steps + 1
    requires price.Length0 == steps + 1 && price.Length1 == steps + 1
  {
    forall j :: 0 <= j <= steps ==> option[j, steps] == Payoff(m.call, m.K, price[j, steps])
  }

  /** Node [j, i] of column i is computed from its up child [j, i + 1] and
      its down child [j + 1, i + 1], for every column lo <= i < steps. */
  ghost predicate BackwardFrom(option: array2<real>, price: array2<real>, m: Params, steps: nat, lo: nat)
    reads option, price
    requires option.Length0 == steps + 1 && option.Length1 == steps + 1
    requires price.Length0 == steps + 1 && price.Length1 == steps + 1
  {
    forall i, j :: lo <= i < steps && 0 <= j <= i ==>
      option[j, i] == NodeValue(m, price[j, i], Hold(m.p, m.disc, option[j, i + 1], option[j + 1, i + 1]))
  }

  /** Forward construction of the underlying-price lattice from the spot m.S. */
  method BuildPriceTree(m: Params, steps: nat) returns (price: array2<real>)
    ensures fresh(price)
    ensures IsLattice(price, steps)
    ensures ClosedForm(price, m, steps)
  {
    price := new real[steps + 1, steps + 1]((_, _) => 0.0);
    price[0, 0] := m.S;
    for i := 1 to steps + 1
      invariant forall c, r :: 0 <= r <= c < i ==> price[r, c] == NodePrice(m, c, r)
      invariant forall c, r :: 0 <= c <= steps && 0 <= r <= steps && (i <= c || c < r) ==> price[r, c] == 0.0
    {
      // Rows 0 .. i - 1 move up from column i - 1.
      for j := 0 to i
        invariant forall c, r :: 0 <= r <= c < i ==> price[r, c] == NodePrice(m, c, r)
        invariant forall r :: 0 <= r < j ==> price[r, i] == NodePrice(m, i, r)
        invariant forall c, r :: 0 <= c <= steps && 0 <= r <= steps && (i < c || c < r || (c == i && j <= r)) ==>
                    price[r, c] == 0.0
      {
        NodePriceUp(m, i, j);
        price[j, i] := price[j, i - 1] * m.u;
      }
      // The new bottom row i moves down from the bottom of column i - 1.
      NodePriceDown(m, i);
      price[i, i] := price[i - 1, i - 1] * m.d;
    }
  }

  /** Rows 0 .. i of column i become the continuation values of their
      children in column i + 1; every other cell is left as it was. */
  method HoldColumn(option: array2<real>, p: real, disc: real, i: nat)
    requires i + 1 < option.Length0 && i + 1 < option.Length1
    modifies option
    ensures forall r :: 0 <= r <= i ==> option[r, i] == Hold(p, disc, option[r, i + 1], option[r + 1, i + 1])
    ensures forall r, c :: 0 <= r < option.Length0 && 0 <= c < option.Length1 && (c != i || i < r) ==>
              option[r, c] == old(option[r, c])
  {
    for j := 0 to i + 1
      invariant forall r :: 0 <= r < j ==> option[r, i] == Hold(p, disc, option[r, i + 1], option[r + 1, i + 1])
      invariant forall r, c :: 0 <= r < option.Length0 && 0 <= c < option.Length1 && (c != i || j <= r) ==>
                  option[r, c] == old(option[r, c])
    {
      option[j, i] := Hold(p, disc, option[j, i + 1], option[j + 1, i + 1]);
    }
  }

  /** Early exercise: rows 0 .. i of column i are raised to the exercise
      value of the underlying price at the same node. */
  method ExerciseColumn(option: array2<real>, price: array2<real>, m: Params, i: nat)
    requires option != price
    requires i < option.Length0 && i < option.Length1
    requires i < price.Length0 && i < price.Length1
    modifies option
    ensures forall r :: 0 <= r <= i ==> option[r, i] == Max(Intrinsic(m.call, m.K, price[r, i]), old(option[r, i]))
    ensures forall r, c :: 0 <= r < option.Length0 && 0 <= c < option.Length1 && (c != i || i < r) ==>
              option[r, c] == old(option[r, c])
  {
    for j := 0 to i + 1
      invariant forall r :: 0 <= r < j ==> option[r, i] == Max(Intrinsic(m.call, m.K, price[r, i]), old(option[r, i]))
      invariant forall r, c :: 0 <= r < option.Length0 && 0 <= c < option.Length1 && (c != i || j <= r) ==>
                  option[r, c] == old(option[r, c])
    {
      option[j, i] := Max(Intrinsic(m.call, m.K, price[j, i]), option[j, i]);
    }
  }

  /** Terminal payoff and backward induction over a given price lattice. */
  method ValueTree(price: array2<real>, m: Params, steps: nat) returns (option: array2<real>)
    requires price.Length0 == steps + 1 && price.Length1 == steps + 1
    ensures fresh(option)
    ensures IsLattice(option, steps)
    ensures TerminalPayoff(option, price, m, steps)
    ensures BackwardFrom(option, price, m, steps, 0)
  {
    option := new real[steps + 1, steps + 1]((_, _) => 0.0);
    for j := 0 to steps + 1
      invariant forall r :: 0 <= r < j ==> option[r, steps] == Payoff(m.call, m.K, price[r, steps])
      invariant forall c, r :: 0 <= c < steps && 0 <= r <= steps ==> option[r, c] == 0.0
    {
      option[j, steps] := Payoff(m.call, m.K, price[j, steps]);
    }

    for i := steps downto 0
      invariant TerminalPayoff(option, price, m, steps)
      invariant BackwardFrom(option, price, m, steps, i)
      invariant forall c, r :: 0 <= c < steps && 0 <= r <= steps && (c < i || c < r) ==> option[r, c] == 0.0
    {
      HoldColumn(option, m.p, m.disc, i);
      if m.american {
        ExerciseColumn(option, price, m, i);
      }
    }
  }

  /** A lattice filled by the local rules holds the backward-induction value at every node. */
  lemma {:induction false} FilledLatticeIsValue(
    option: array2<real>, price: array2<real>, m: Params, steps: nat, i: nat, j: nat)
    requires option.Length0 == steps + 1 && option.Length1 == steps + 1
    requires price.Length0 == steps + 1 && price.Length1 == steps + 1
    requires ClosedForm(price, m, steps)
    requires TerminalPayoff(option, price, m, steps)
    requires BackwardFrom(option, price, m, steps, 0)
    requires j <= i <= steps
    ensures option[j, i] == Value(m, steps, i, j)
    decreases steps - i
  {
    if i < steps {
      FilledLatticeIsValue(option, price, m, steps, i + 1, j);
      FilledLatticeIsValue(option, price, m, steps, i + 1, j + 1);
    }
  }

  /** The whole pricer: returns the fair value option[0, 0] and both lattices. */
  method Crr(m: Params, steps: nat) returns (value: real, price: array2<real>, option: array2<real>)
    requires steps >= 1
    ensures fresh(price) && fresh(option)
    ensures IsLattice(price, steps) && IsLattice(option, steps)
    ensures ClosedForm(price, m, steps)
    ensures TerminalPayoff(option, price, m, steps)
    ensures BackwardFrom(option, price, m, steps, 0)
    ensures forall i, j :: 0 <= j <= i <= steps ==> option[j, i] == Value(m, steps, i, j)
    ensures value == option[0, 0] == Value(m, steps, 0, 0)
  {
    price := BuildPriceTree(m, steps);
    option := ValueTree(price, m, steps);
    forall i, j | 0 <= j <= i <= steps
      ensures option[j, i] == Value(m, steps, i, j)
    {
      FilledLatticeIsValue(option, price, m, steps, i, j);
    }
    value := option[0, 0];
  }
}
