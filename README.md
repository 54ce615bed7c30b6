# Cox-Ross-Rubinstein binomial lattice pricer

This project models the pricer `crr` in `CoxRossRubinstein.py`. It values a
European or American call or put on one underlying asset, using a recombining
binomial lattice.

The pricer has three stages. Each stage fills one of two square
`(steps + 1) x (steps + 1)` arrays in place. Cell `[j, i]` is the node after
`i` time steps, `j` of which were down-moves; only cells with `j <= i` are
meaningful.

1. **Forward construction of the price lattice.** `[0, 0]` is the spot `S`.
   Rows `0 .. i-1` of column `i` are the same rows of column `i-1` times `u`.
   The new bottom cell `[i, i]` is `[i-1, i-1]` times `d`.
2. **Terminal payoff.** The last column of the option lattice is
   `max(price - K, 0)` for a call and `max(K - price, 0)` for a put.
3. **Backward induction.** Columns `steps-1` down to `0` are filled in turn.
   Node `[j, i]` gets `disc * (p * up + (1 - p) * down)`, where the up child
   is `[j, i+1]` and the down child is `[j+1, i+1]`. For an American option
   each node of the column is then raised to its exercise value.

Files:

- `Lattice.dfy` (module `Lattice`) is the mathematics over `real`:
  - the closed form `NodePrice = S * u^(i-j) * d^j`;
  - the payoff and the continuation value `Hold`;
  - `Value`, the option value at every node, defined by backward induction;
  - the order properties (non-negativity, American >= European, and the
    early-exercise bounds).
- `Pricer.dfy` (module `Pricer`) is the array algorithm over
  `array2<real>`. Its methods and their contracts are proved against
  `Lattice`. `Crr` returns the fair value `option[0, 0]` and both lattices,
  and every populated cell of the option lattice equals `Value`.

The parameter derivation is not modelled. `u`, `d`, the risk-neutral
probability `p` and the per-step discount `disc = exp(-r*dt)` come in as
`real` inputs, in `Lattice.Params`.

The early-exercise step (`CoxRossRubinstein.py:48-52`) compares the
continuation value with the unfloored exercise value `price - K` (or
`K - price` for a put). It does not use the floored payoff
`max(price - K, 0)` that the terminal column uses (lines 38, 40).
`Lattice.Intrinsic` and `Lattice.NodeValue` model the comparison as written.
`Lattice.OverrideUsesPayoff` proves the two comparisons agree when
`0 <= p <= 1` and `disc >= 0`. `Lattice.OverrideDiffersFromPayoff` proves they
differ exactly when the exercise value and the continuation value are both
negative. `Lattice.NegativeWeightExample` gives such a case, with `p = -2`.

## Model

| member | source | states |
|---|---|---|
| `Lattice.Payoff` | CoxRossRubinstein.py:37-40 | The terminal value is non-negative, at least the exercise value `price - K` (call) or `K - price` (put), and equal to one of 0 or that exercise value. |
| `Lattice.Intrinsic` | CoxRossRubinstein.py:48-52 | The unfloored exercise value `price - K` (call) or `K - price` (put) that the early-exercise step compares with. It is positive exactly when the option is in the money (call: `price > K`; put: `price < K`), and zero exactly at `price == K`. |
| `Lattice.Hold` | CoxRossRubinstein.py:43-44 | The continuation value `disc * (p * up + (1 - p) * down)` of a node. When `0 <= p <= 1` and `disc >= 0`, it lies between `disc` times the smaller child and `disc` times the larger child. |
| `Lattice.Value` | CoxRossRubinstein.py:36-52 | The option value at node `[j, i]`: the terminal payoff at `i == steps`, and otherwise the node value of the node's price and the continuation value of its two children. For an American option it is at least the unfloored exercise value at every node. |
| `Lattice.NodeValue` | CoxRossRubinstein.py:42-52 | A European node takes the continuation value. An American node takes the larger of the continuation value and the unfloored exercise value, so it is at least both and equal to one of them. |
| `Lattice.NodePriceUp` | CoxRossRubinstein.py:32 | For `j < i`, the closed form at `[j, i]` is `u` times the closed form at `[j, i-1]`, so the up-move rule keeps the closed form. |
| `Lattice.NodePriceDown` | CoxRossRubinstein.py:33 | The closed form at the new bottom node `[i, i]` is `d` times the closed form at `[i-1, i-1]`. |
| `Lattice.NodePricePositive` | CoxRossRubinstein.py:27-33 | With `S, u, d > 0`, every price-lattice node `S * u^(i-j) * d^j` is positive. |
| `Lattice.ValueNonNegative` | CoxRossRubinstein.py:36-52 | When `0 <= p <= 1` and `disc >= 0`, every option value in the lattice is `>= 0`, for calls and puts and for both exercise styles. |
| `Lattice.AmericanGeEuropean` | CoxRossRubinstein.py:42-52 | Under the same inputs with `0 <= p <= 1` and `disc >= 0`, the American value at every node is `>=` the European value. |
| `Lattice.AmericanGePayoff` | CoxRossRubinstein.py:37-52 | When `0 <= p <= 1` and `disc >= 0`, an American option is worth at least its floored exercise payoff at every node. |
| `Lattice.OverrideUsesPayoff` | CoxRossRubinstein.py:46-52 | When `0 <= p <= 1` and `disc >= 0`, the American override against the unfloored exercise value equals `max(floored payoff, continuation value)`. |
| `Lattice.OverrideDiffersFromPayoff` | CoxRossRubinstein.py:46-52 | At an American node, the override with the unfloored exercise value differs from `max(floored payoff, hold)` if and only if the exercise value and the continuation value are both negative. |
| `Lattice.NegativeWeightExample` | CoxRossRubinstein.py:36-52 | A one-step American call with `S = 100`, `K = 150`, `u = 2`, `d = 0.5`, `p = -2` and `disc = 1` is worth `-50` at the root. The floored comparison would give `0` there. |
| `Pricer.BuildPriceTree` | CoxRossRubinstein.py:26-33 | Returns a fresh square lattice. Every cell `[j, i]` with `j <= i` holds `S * u^(i-j) * d^j`. Every cell with `j > i` is never written and stays 0. |
| `Pricer.HoldColumn` | CoxRossRubinstein.py:43-44 | Rows `0 .. i` of column `i` become `disc * (p * [j, i+1] + (1-p) * [j+1, i+1])`: the up child is row `j`, the down child row `j+1`. No other cell changes. |
| `Pricer.ExerciseColumn` | CoxRossRubinstein.py:46-52 | Rows `0 .. i` of column `i` become the larger of the old value and the exercise value of the price at the same node. No other cell changes. |
| `Pricer.ValueTree` | CoxRossRubinstein.py:35-52 | Returns a fresh square lattice with three properties. The terminal column is the payoff of the last price column. Every node `[j, i]` with `j <= i < steps` is the node value of its own price and its two children. Cells with `j > i` stay 0. |
| `Pricer.FilledLatticeIsValue` | CoxRossRubinstein.py:36-52 | Suppose a price lattice is in closed form and an option lattice obeys the terminal and backward rules. Then every node `[j, i]` with `j <= i` equals the backward-induction value `Lattice.Value`. |
| `Pricer.Crr` | CoxRossRubinstein.py:19-56 | Returns the fair value `option[0, 0] == Value(0, 0)` with both fresh lattices. The price lattice is in closed form, every populated option node equals `Value`, and the cells with `j > i` of both lattices are 0. |

## Left out

- Parameter derivation (`CoxRossRubinstein.py:21-24`: `dt`, `exp`, `sqrt`, the formula for `p`) involves transcendental floating-point functions. `u`, `d`, `p` and `disc` are real-valued inputs instead.
- Floating-point semantics (rounding, NaN and infinity, division by zero when `u == d`) are not modelled. The arithmetic is over `real`, so the incremental price lattice equals the closed form exactly, not just within rounding.
- Pricer.Crr requires `steps >= 1`, because the source's parameter derivation divides by `steps`. The stage methods accept any `steps >= 0`. Negative `steps` is not modelled (`nat`).
- numpy whole-column slice assignments are modelled as per-node loops within each column. Each column is computed from one neighbouring column: the previous price column in the forward construction, the next option column in backward induction. The early-exercise override also reads each node's own value and the price at the same node. So the order within a column does not matter. The order across columns (forward, then backward) is kept.
- The module-level example run (`CoxRossRubinstein.py:63-71`) is a script side effect, not part of the pricer.
- Convergence as `steps` grows and no-arbitrage bounds involving `exp(-r*T)` need real analysis, and they are not stated.
- The defaults of the calling convention (`q=0`, `call=True`, `american=True` at `CoxRossRubinstein.py:19`) are not modelled: `Lattice.Params` has no defaults, and the dividend yield `q` enters only through the abstracted `p`.
