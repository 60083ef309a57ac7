# Retirement drawdown simulator (iDeCo + NISA), modelled in Dafny

`life_simulator_pro/life_simulator_pro.py` projects two retirement balances,
an iDeCo account and a NISA account, year by year from a start age to an end
age inclusive. Each year at age `開始年齢 + i` it

1. grows both balances by the factor `1 + 運用利回り`;
2. pays out twelve monthly amounts from the iDeCo balance if the age has
   reached the iDeCo payout start age and the grown balance is positive, and
   records that age as the iDeCo depletion age (`ideco終了年`) if the balance
   is now at or below zero and no depletion age was recorded before;
3. does the same for NISA with its own start age and monthly amount;
4. clamps both balances at 0 (`max(0, …)`);
5. appends the age, the two balances and their sum to four lists.

The model:

- `wrappers.dfy` — `Option`, for the depletion ages that start as `None`.
- `drawdown.dfy` (module `Drawdown`) — the reference definitions, as pure functions.
  `Scenario` and `Account` hold the script's constants (lines 7-23) as
  parameters; `SourceScenario` is the shipped configuration. `AccountYear`
  is one account's year; `Step` is the year of both accounts; `Trace(p, k)`
  is the state after `k` years, and `AccountTrace` is one account's own
  trajectory. The lemmas prove the drawdown's properties about these.
- `simulator.dfy` (module `Simulator`) — `Simulate`, the loop itself as an
  imperative method. Local balances and markers are updated in place in
  the script's order. The four result lists are sequences that grow by one
  entry per year. Its postcondition ties every recorded entry to `Trace`.

Balances, the rate and the monthly amounts are `real`. Every parameter is
unrestricted, as in the script: a negative opening balance, a rate below
-1 or a negative monthly amount are run as written. Lemmas need a
non-negative balance or rate ≥ -1 only where their statement does.

Points of the code the model follows exactly:

- The number of years is `range(終了年齢 - 開始年齢 + 1)`. When
  `終了年齢 < 開始年齢`, `range` of a non-positive count is empty: no
  entries, no depletion (`Drawdown.Years`).
- A paying year subtracts the full `12 × monthly` even when it exceeds the
  balance, then clamps at 0.
- Depletion is tracked per account, and only inside the payout branch. A
  balance that reaches 0 through growth alone is never marked as depleted.

## Model

| member | source | states |
|---|---|---|
| `Drawdown.Years` | life_simulator_pro/life_simulator_pro.py:9 | the number of simulated years: 0 when `終了年齢 < 開始年齢`, otherwise exactly enough that the last simulated age `開始年齢 + 年数 - 1` is `終了年齢` |
| `Drawdown.SourceYears` | life_simulator_pro/life_simulator_pro.py:7-9 | the shipped configuration (ages 60 to 90) simulates 31 years |
| `Drawdown.Init` | life_simulator_pro/life_simulator_pro.py:34-38 | reference definition of the state before the loop: both opening balances, both depletion ages `None`; `Simulate` is proved against it through `Trace` |
| `Drawdown.Step` | life_simulator_pro/life_simulator_pro.py:44-60 | reference definition of the loop body: each account takes its own `AccountYear`; `Simulate`'s loop is proved to match it |
| `Drawdown.Trace` | life_simulator_pro/life_simulator_pro.py:40-60 | reference definition of the state after `k` years of `Step` from `Init`; `Simulate` and `Independence` are proved against it |
| `Drawdown.AccountTrace` | life_simulator_pro/life_simulator_pro.py:40-60 | reference definition of one account's own run of the loop; `Independence` ties it to `Trace`, and the depletion lemmas are stated about it |
| `Drawdown.Clamp` | life_simulator_pro/life_simulator_pro.py:59-60 | `max(0, x)`: the result is non-negative, at least `x`, and is either `x` or 0 |
| `Drawdown.AccountYear` | life_simulator_pro/life_simulator_pro.py:44-60 | one account's year: the balance is never negative. Before the payout start age it is only compounded (exactly `b·(1+rate)` for `b ≥ 0`, rate ≥ -1) and the marker is untouched. In a paying year exactly 12 × monthly is subtracted and the result is clamped. A set marker is never overwritten. An unset marker becomes this age exactly when this year's payout leaves the balance ≤ 0. An empty account stays empty |
| `Drawdown.Independence` | life_simulator_pro/life_simulator_pro.py:40-60 | for either account, its part of the joint state after `k` years is that account's own trajectory, which depends only on its own parameters, the rate and the start age |
| `Drawdown.AccountsDoNotInteract` | life_simulator_pro/life_simulator_pro.py:44-60 | two scenarios that agree on one account's parameters, the rate and the start age give that account the same state after every number of years, whatever the other account's parameters are |
| `Drawdown.DepletionSticky` | life_simulator_pro/life_simulator_pro.py:50-57 | once a depletion age is recorded, every later year keeps exactly that age |
| `Drawdown.DepletionIsFirst` | life_simulator_pro/life_simulator_pro.py:48-57 | after `k` years the depletion age is unset iff no year so far had a payout that left the balance ≤ 0. Otherwise it is the age of the first such year, and it is set in every case where such a first year exists |
| `Drawdown.DepletionAgeInRange` | life_simulator_pro/life_simulator_pro.py:40-57 | a recorded depletion age is ≥ the account's payout start age and lies within the simulated ages `[start, start + k - 1]` |
| `Drawdown.ScenarioDepletionInRange` | life_simulator_pro/life_simulator_pro.py:40-57 | for a whole scenario, each reported depletion age is ≥ that account's payout start age and lies in `[開始年齢, 終了年齢]` |
| `Drawdown.DepletionSplitsTrajectory` | life_simulator_pro/life_simulator_pro.py:48-60 | if an account is depleted at age `start + j`, every balance recorded for an earlier age is positive, and every balance from age `start + j` on is 0 |
| `Drawdown.ZeroIsAbsorbing` | life_simulator_pro/life_simulator_pro.py:44-60 | a balance that has reached 0 stays 0, and its marker stays as it was, in every later year |
| `Drawdown.CompoundingBeforePayout` | life_simulator_pro/life_simulator_pro.py:44-48 | for years before the payout start age, a non-negative opening balance is only compounded `k` times at the rate, and no depletion is recorded |
| `Drawdown.ZeroRateDrawdown` | life_simulator_pro/life_simulator_pro.py:44-60 | at a zero rate with payouts from the first year, the balance after `k` years is the opening balance less the sum of `k` annual payouts, floored at 0 |
| `Drawdown.PaidOverIsLinear` | life_simulator_pro/life_simulator_pro.py:49 | the sum of `k` annual payouts of `12 × monthly` is `k × 12 × monthly` |
| `Drawdown.ZeroRateClosedForm` | life_simulator_pro/life_simulator_pro.py:44-60 | the same drawdown in closed form: the balance after `k` years is `max(0, opening − k × 12 × monthly)` |
| `Simulator.Simulate` | life_simulator_pro/life_simulator_pro.py:29-65 | the loop returns four lists, each with one entry per simulated age (`終了年齢 − 開始年齢 + 1` of them when the range is non-empty). Entry `i` is age `開始年齢 + i`, both balances are the state after that year and never negative, and the total is their sum. The two depletion ages are those of the full trajectory |

## Left out

- Plotting with matplotlib (lines 71-82): presentation through a foreign library.
- The console summary (lines 88-97): output only. Its truthiness test would print "not depleted" for a depletion age of 0; the model returns the `Option` itself.
- Floating-point rounding: balances and the rate are exact `real`s, so IEEE 754 rounding of `*=` and `-=` is not captured.
- `nisa_拠出終了年齢` (line 21): declared but never read by the loop, so no contributions are modelled.
- Module-level constants (lines 7-23): they become parameters of `Simulate`. `Drawdown.SourceScenario` records the shipped values.
- `life_simulator_pro.py` has no income, expenses, cash, contributions, one-off events, random returns, trials or statistics, so none are modelled.
