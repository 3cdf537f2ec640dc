# Retirement withdrawal simulator — Dafny model

This project models the computational core of `myscript.js`. That script runs a
retirement-withdrawal simulation over the S&P 500 returns of 1999–2016. An
initial balance is drawn down year by year. The first year withdraws a fixed
rate of the balance. After that the withdrawal may only shrink: it is capped by
the year's end-of-year value. A TOTAL row reports the terminal balance, the sum
of withdrawals and the internal rate of return of the whole schedule. The IRR
comes from a five-step secant search on the net present value.

Modules, one per part of the script:

- `Stats` (`stats.dfy`): `arrayMin` and `arrayMax`. They are seeded with ±Infinity, so
  the result type `ExtReal` adds the two infinities to the reals.
- `Shuffling` (`shuffle.dfy`): the in-place Durstenfeld shuffle on an `array`. The
  random indices are an input sequence of draws.
- `Finance` (`finance.dfy`): net present value, the bounded secant root finder and IRR.
  Net present value and the secant finder are methods with loops, each proved
  against a recursive specification function (`Npv`, `SecantTrace`/`SecantRoot`).
  IRR is a single call of the finder, with no loop of its own.
- `Withdrawal` (`ledger.dfy`): `calcTable`. The table is a `Ledger` object whose
  `rows` field the method rewrites in place. The method is specified by `Fill`
  (the rows after the main loop) and `TotalRow` (the appended summary row).
- `Inputs` (`inputs.dfy`): the numeric part of `myFunction`. It covers the
  year-range clamps, the 18-entry return series and the year list with its
  optional shuffle. It also builds the three tables (historical, capped
  participation, uncapped participation) and runs the simulation on each.

Behaviour of the script that the model keeps as written:

- table1 covers every year of the range except the last, using the raw market
  return.
- Tables 2 and 3 cover every year, in chronological order. Only table1 follows
  the shuffled order.
- The TOTAL row's `year` field is the string "TOTAL"; here it is the `Total`
  period.

## Model

| member | source | states |
|---|---|---|
| Stats.ArrayMin | myscript.js:4-12 | An empty series gives +Infinity. Otherwise the result is finite, is one of the elements, and is at most every element. |
| Stats.ArrayMax | myscript.js:14-22 | An empty series gives -Infinity. Otherwise the result is finite, is one of the elements, and is at least every element. |
| Shuffling.ShuffleArray | myscript.js:24-32 | Returns the same array. Its new contents are the shuffle of the old contents under the draws, so the multiset of elements is unchanged. |
| Shuffling.SwapPermutes | myscript.js:27-29 | Swapping two positions keeps the multiset of elements. |
| Shuffling.ShuffleFromPermutes | myscript.js:25-30 | The remaining passes, from any position down to 1, keep the length and the multiset of elements. |
| Shuffling.ShuffledPermutes | myscript.js:24-32 | For any valid draws, the shuffle is a permutation of its input. |
| Shuffling.ShuffleFromReaches | myscript.js:25-30 | Any arrangement of the prefix up to position i is produced by some valid draws for the passes from i down. |
| Shuffling.ShuffledReachesEveryPermutation | myscript.js:24-32 | Every permutation of the input is the outcome of some valid draws, each draw j at position i lying in 0..i. |
| Finance.CalcNPV | myscript.js:61-70 | The loop computes the sum of values[n] / (1+r)^n, which is `Npv`. An empty series gives 0. |
| Finance.NpvAtZeroIsSum | myscript.js:61-70 | At a discount rate of 0 the net present value equals the plain sum of the flows. |
| Finance.NpvFirstFlow | myscript.js:36-58 | The second form of the formula: the first flow is undiscounted and the rest are discounted once more, i.e. NPV(c::v) = c + NPV(v)/(1+r). |
| Finance.OnePeriodRoot | myscript.js:96-105 | For paying c and receiving c(1+g) one period later, the net present value at rate g is 0, so g is the internal rate of return. |
| Finance.SecantTrace | myscript.js:83-91 | The finder computes at most `budget` points. |
| Finance.Secant | myscript.js:78-94 | The loop returns exactly the last point of the trace from guess ± dx within 5 iterations, or the guess if no point was computed. |
| Finance.SecantPointOnLine | myscript.js:88 | The update x2 is where the secant line through (x0,y0) and (x1,y1) crosses zero. |
| Finance.SecantTraceSteps | myscript.js:83-91 | Every computed point is the secant point of a non-degenerate pair, so the division is never by zero. Stopping before the budget means the last pair was degenerate (x0 == x1 or y0 == y1). |
| Finance.SecantDegenerateStart | myscript.js:79-87 | If the first pair is degenerate, the guess itself is returned. |
| Finance.SecantProperStart | myscript.js:79-91 | Otherwise between 1 and `budget` updates are made. The result is the last one, and the first is the secant point of guess ± dx. |
| Finance.SecantStopsAtRoot | myscript.js:84-91 | Once a trial point is an exact root of f, the next update returns it and the iteration stops there. |
| Finance.NpvObjective | myscript.js:61-70 | Wherever 1 + r ≠ 0 the objective handed to the finder is the net present value. |
| Finance.IRR | myscript.js:106-109 | The result is the secant finder on the net present value from `guess` with a bracket of 0.025 and 5 iterations. |
| Withdrawal.FillRow | myscript.js:232-250 | After the main loop every row keeps its year and its return. |
| Withdrawal.FillRecurrence | myscript.js:232-250 | Row 0 is (initial balance, initial balance × rate). Every later row follows the balance and withdrawal recurrence. |
| Withdrawal.WithdrawalsBounded | myscript.js:246-248 | No withdrawal exceeds the previous one, and none after the first exceeds its own year's end-of-year value. |
| Withdrawal.WithdrawalsNonIncreasing | myscript.js:232-250 | A withdrawal is at most that of any earlier year. |
| Withdrawal.BalancesNonNegative | myscript.js:241-262 | From the third row on every balance is ≥ 0. With at least two rows the terminal (TOTAL) balance is ≥ 0 too. |
| Withdrawal.SumWithdrawalsBound | myscript.js:265-267 | If each withdrawal is at most a cap, the total is at most the number of rows times the cap. |
| Withdrawal.TotalWithdrawalBound | myscript.js:232-267 | The total withdrawn is at most the number of years times the first withdrawal. |
| Withdrawal.CashFlowsShape | myscript.js:257-263 | The IRR cash flows have n+1 entries. They start with minus the initial balance and carry each withdrawal but the last. They end with the last withdrawal plus the terminal balance. |
| Withdrawal.SumOfWithdrawals | myscript.js:265-267 | Adding up the withdrawals of any rows as one list gives the same total as the TOTAL section's accumulation loop, which adds them one row at a time. |
| Withdrawal.CashFlowsNetAtZero | myscript.js:257-263 | Undiscounted, the cash flows net to the withdrawals plus the terminal balance, less the initial balance. |
| Withdrawal.CalcTable | myscript.js:226-272 | The table's rows become the filled rows followed by exactly one TOTAL row. |
| Withdrawal.FillRows | myscript.js:229-250 | The main loop rewrites the rows in place into `Fill` of the rows it found: same count, same years and returns, and the balance/withdrawal recurrence. |
| Withdrawal.CashFlowsSum | myscript.js:257-263 | The plain sum of the cash flows is minus the initial balance, plus every withdrawal but the last, plus the last withdrawal and the terminal balance. |
| Withdrawal.AppendTotalRow | myscript.js:252-270 | Exactly one row is appended: the TOTAL row of the rows present. |
| Inputs.ClampYears | myscript.js:321-328 | After the clamps 1999 ≤ begYr ≤ 2015 and begYr < endYr ≤ 2016. A range already inside these bounds is unchanged. An endYr within bounds and past begYr is kept. |
| Inputs.ClampedYearsIndexable | myscript.js:362 | Every year of a clamped range indexes the 18-entry return series. |
| Inputs.YearOrderInRange | myscript.js:354-358 | The year list, shuffled or not, holds exactly the years of the range, so each of its years lies in the range. |
| Inputs.UncappedReturn | myscript.js:389-393 | A participation fraction ≥ 0 never gives a negative return. A fraction ≤ 1 never exceeds the positive part of the market return. A market loss gives 0. |
| Inputs.CappedReturn | myscript.js:373-379 | The capped return is at most the cap and at most the uncapped return, and is one of the two. |
| Inputs.HistoricalTable | myscript.js:360-365 | table1 has one row per year it is given. |
| Inputs.CappedTable | myscript.js:369-382 | table2 has one row per year of the range, in year order, and every return is at most the cap. |
| Inputs.UncappedTable | myscript.js:385-396 | table3 has one row per year of the range, in year order, and every return is ≥ 0 when the fraction is ≥ 0. |
| Inputs.Table1Years | myscript.js:354-361 | table1's years are all years of the (possibly shuffled) list but the last, and all lie in 1999–2016. |
| Inputs.OrderYears | myscript.js:354-358 | Builds the year list b..e and shuffles it in place under the draws when randomization is requested. |
| Inputs.BuildHistoricalTable | myscript.js:360-365 | The table1 loop builds `HistoricalTable` of all years of the list but the last. |
| Inputs.BuildCappedTable | myscript.js:368-382 | The table2 loop builds `CappedTable`. |
| Inputs.BuildUncappedTable | myscript.js:384-396 | The table3 loop builds `UncappedTable`. |
| Inputs.PrepareTables | myscript.js:320-396 | table1 has endYr-begYr ≥ 1 rows and tables 2 and 3 have endYr-begYr+1 rows, for the clamped years. Each table is the specified table. |
| Inputs.Percent | myscript.js:314-318 | A form percentage becomes the fraction that gives it back when multiplied by 100. |
| Inputs.Simulated | myscript.js:226-272 | A table after `calcTable` has one more row than before, and that last row is the TOTAL row. |
| Inputs.SimulateTable | myscript.js:399-401 | A fresh ledger holding the table ends as `Simulated` of the table. |
| Inputs.RunSimulation | myscript.js:313-401 | Each of the three ledgers ends as its table filled in by the withdrawal recurrence plus its TOTAL row. Rate, gains and cap are read as percentages. |

## Left out

- `plotData`, `drawTheGraph`, `drawTable`, the chart data built after the simulation, and the button handlers: presentation and DOM I/O. Reading the form and writing the clamped years back into it are I/O too; the form's values are parameters of `RunSimulation`.
- IEEE-754 arithmetic: the model computes with exact reals. Rounding, overflow to ±Infinity and NaN are not modelled. The two infinities appear only as the seeds of `ArrayMin`/`ArrayMax`.
- Finance.NpvObjective: at a rate of exactly -1 the script divides by zero and yields ±Infinity or NaN. The model keeps only the undiscounted first flow there, which is the script's value only for a single flow.
- Finance.CalcNPV: requires 1 + r ≠ 0. At r = -1 the script divides by a zero power from the second flow on, so with two or more flows its result is an IEEE infinity or NaN, which reals cannot express. With no flows it returns 0, and with one flow it returns values[0], because `Math.pow(0, 0)` is 1; `NpvObjective` keeps those two cases.
- Randomness: `Math.random` is replaced by the sequence of drawn indices, each in 0..i. The uniform distribution over permutations is not modelled; `ShuffledReachesEveryPermutation` states only that every permutation can be reached.
- Convergence of the secant method: only the bounded iteration, its stopping rule and its fixed points are modelled.
- Withdrawal.CalcTable: requires a non-empty table. The script would fail reading `table[0]` on an empty one, and every table `myFunction` builds has at least one row.
- Rows are values in a sequence field of the `Ledger`, not shared objects, so aliasing between rows and other references to them is not modelled.
- `calcTable` is one function in the script. Here its two commented sections are two methods, `FillRows` (main algorithm) and `AppendTotalRow` (TOTAL row), and `CalcTable` calls them in turn.
- The `i` counters that the table2 and table3 loops increment but never read are not modelled.
