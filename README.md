# Compounding cross-listing arbitrage backtest (SHOP.TO / SHOP)

This project models the backtest engine of a Shopify cross-listing arbitrage
script. The script builds a daily table that holds, for each date:

- the TSX close in CAD;
- the CAD price implied by the NYSE close, which is the USD close divided by the CAD→USD rate;
- the USD close;
- the rate itself (USD per 1 CAD).

The engine, `buy_sell_compounding`, makes one pass over that table and threads a running `capital` value from day to day. For each day it does the following:

- It skips the day when the rate is not positive.
- It takes the absolute spread between the two CAD prices and the lower of the two.
- It rejects spreads whose ratio to the lower price is below `min_rel_spread`.
- It sizes a trade at `floor(capital / lower)` whole shares.
- It charges a flat CAD fee plus a USD-side fee on the USD notional, converted to CAD at `1 / rate`.
- It trades only when the gross edge strictly exceeds those fees, adding the net edge to capital.

Every day yields one record holding the date, the equity and whether a trade ran. Afterwards the engine derives a profit column as equity minus the initial capital.

The model uses exact `real` arithmetic. It has four modules:

- `Market` (market.dfy) holds the rows, the parameters, the output records and the script's constants. It also has `MakeRow`, which derives the implied price of a row.
- `Strategy` (strategy.dfy) holds the specification. It has one day's decision, `Step`, and the fold of that decision over the rows, `Trajectory`. It has a second fold, `Accumulate`, which keeps only the final capital. `Backtest` assembles the equity table. The module also holds the lemmas that give the engine's properties.
- `Engine` (engine.dfy) is the imperative engine. Its loop updates `capital` in place and appends to the date, capital and trade columns. After the loop it builds the table. It is proved equal to `Backtest`. The loop body is written as a method of its own, `TradeDay`, and the loop calls it once per row.
- `Scenarios` (scenarios.dfy) holds four worked runs over the same two sample days, computed exactly. They are `ScriptParamsTradeOnSecondDay` (the script's parameters), `WideThresholdNeverTrades` (a 5% threshold), `SmallCapitalNeverTrades` (a capital of 50) and `DefaultThresholdStopsAtFees` (the default threshold of 0).

The engine's `executed` flag is 0 or 1 in the script; here it is a `bool`. Dates are opaque `int` keys. The script's engine reads each day's fields by looking up that day's date, so a repeated date makes it raise an error. The model's engine therefore requires distinct dates (`DistinctDates`), reads rows by position, and copies the dates to the output. The specification functions are defined for any rows. The code does not check that the initial capital is positive, and the contracts do not require it either. Every property below holds for any initial capital, any fee values and any threshold.

## Model

| member | source | states |
|---|---|---|
| `Market.MakeRow` | SHOP_arb_project/first_SHOP_strat.py:76 | the implied CAD price times the rate gives back the USD close (rate nonzero); it is positive when the rate and the USD close are |
| `Strategy.Spread` | SHOP_arb_project/first_SHOP_strat.py:109 | the spread is non-negative and is one of the two signed differences of the CAD prices |
| `Strategy.Lower` | SHOP_arb_project/first_SHOP_strat.py:110 | the lower price is at most both CAD prices and equal to one of them |
| `Strategy.CadPerUsd` | SHOP_arb_project/first_SHOP_strat.py:108 | CAD per USD is positive and is the inverse of the rate |
| `Strategy.NumShares` | SHOP_arb_project/first_SHOP_strat.py:113 | the share count is affordable (`n * lower <= capital`) and maximal (`capital < (n + 1) * lower`) |
| `Strategy.PassesNoiseGate` | SHOP_arb_project/first_SHOP_strat.py:112 | the noise gate passes exactly when the lower price is positive and the spread is at least `min_rel_spread` times the lower price |
| `Strategy.Fees` | SHOP_arb_project/first_SHOP_strat.py:115-117 | the fee computed with `1/rate` equals the flat fee plus `n*usd_close*usd_fee_rate/rate`, and is at least the flat fee for non-negative shares, close and rate |
| `Strategy.GrossEdge` | SHOP_arb_project/first_SHOP_strat.py:119 | the gross edge is the proceeds of selling `n` shares at the higher CAD price less the cost of buying them at the lower one, and is non-negative for `n >= 0` |
| `Strategy.Step` | SHOP_arb_project/first_SHOP_strat.py:105-123 | one day never lowers capital, and it trades exactly when capital strictly rises |
| `Strategy.StepUnaffordable` | SHOP_arb_project/first_SHOP_strat.py:113-114 | capital below the lower price means no trade and unchanged capital, whatever the spread and fees |
| `Strategy.StepTradesIffProfitable` | SHOP_arb_project/first_SHOP_strat.py:107-122 | a day trades if and only if the rate is positive, the noise gate passes, at least one share is affordable and `spread*n > cad_fee + n*usd_close*usd_fee_rate/rate`; a trade adds exactly `spread*n - (cad_fee + n*usd_close*usd_fee_rate/rate)` |
| `Strategy.Trajectory` | SHOP_arb_project/first_SHOP_strat.py:100-126 | one decision per row, and no decision's capital is below the starting capital |
| `Strategy.Accumulate` | SHOP_arb_project/first_SHOP_strat.py:95-121 | the final accumulator is at least the starting capital |
| `Strategy.Backtest` | SHOP_arb_project/first_SHOP_strat.py:124-130 | one record per row, dates in row order, and `profit == equity - initial_capital` in every record |
| `Strategy.CheckpointResume` | SHOP_arb_project/first_SHOP_strat.py:100-126 | the decisions from row `j` onward equal a fresh run on the remaining rows from the capital held before row `j` |
| `Strategy.TrajectoryAt` | SHOP_arb_project/first_SHOP_strat.py:100-126 | decision `k` is one step taken from the capital held before row `k` |
| `Strategy.CapitalMonotone` | SHOP_arb_project/first_SHOP_strat.py:120-121 | the capital held before a later row is never less than before an earlier row |
| `Strategy.AccumulateIsLastCapital` | SHOP_arb_project/first_SHOP_strat.py:121-125 | the capital after the last row, as the fold records it, equals the final accumulator |
| `Strategy.NeverAffordableKeepsCapital` | SHOP_arb_project/first_SHOP_strat.py:113-114 | a start below every positive lower price keeps every decision at that capital with no trade |
| `Strategy.DayRecord` | SHOP_arb_project/first_SHOP_strat.py:95-126 | record `k` is the step from the previous record's equity (the initial capital for the first record) |
| `Strategy.NoTradeCarriesCapital` | SHOP_arb_project/first_SHOP_strat.py:105-125 | a record without a trade has the previous equity (or the initial capital) and one with a trade has strictly more, both ways |
| `Strategy.EquityNonDecreasing` | SHOP_arb_project/first_SHOP_strat.py:120-125 | `initial_capital <= equity[i] <= equity[j]` for `i <= j` |
| `Strategy.FxGate` | SHOP_arb_project/first_SHOP_strat.py:107 | a day whose rate is not positive does not trade and keeps its capital |
| `Strategy.NoiseGate` | SHOP_arb_project/first_SHOP_strat.py:112 | a day with `lower <= 0` or `spread/lower < min_rel_spread` does not trade and keeps its capital |
| `Strategy.UnaffordableDay` | SHOP_arb_project/first_SHOP_strat.py:113-114 | a day whose opening capital is below the lower price does not trade and keeps its capital |
| `Strategy.RecordTradesIffProfitable` | SHOP_arb_project/first_SHOP_strat.py:107-122 | record `k` shows a trade if and only if the day is profitable from its opening capital, and its equity is then the opening capital plus the exact net edge |
| `Strategy.NoAffordableDayFromHereOn` | SHOP_arb_project/first_SHOP_strat.py:113-114 | once the capital held cannot buy one share at any later positive lower price, every later record keeps that equity with no trade |
| `Strategy.FinalRecord` | SHOP_arb_project/first_SHOP_strat.py:125-129 | the last record's equity is the final accumulator, and its profit is that minus the initial capital |
| `Engine.TradeDay` | SHOP_arb_project/first_SHOP_strat.py:105-122 | the loop body's imperative gates, sizing, fees and update compute exactly `Step`; capital does not fall; it trades if and only if the day is profitable |
| `Engine.BuySellCompounding` | SHOP_arb_project/first_SHOP_strat.py:94-130 | for rows with distinct dates, the loop with its in-place accumulator and appended columns returns exactly `Backtest`: one record per row in order, with the profit identity |
| `Scenarios.ScriptParamsTradeOnSecondDay` | SHOP_arb_project/first_SHOP_strat.py:10-12 | with the script's parameters (`Market.ScriptParams`: capital 10000, fee 30, rate 0.0003, and the 10 bps threshold set at line 92), a zero-spread day does not trade and a 100/37 spread on 100 shares trades, giving equity 378776/37 |
| `Scenarios.WideThresholdNeverTrades` | SHOP_arb_project/first_SHOP_strat.py:112 | with a 5% threshold, the same two days do not trade |
| `Scenarios.SmallCapitalNeverTrades` | SHOP_arb_project/first_SHOP_strat.py:113-114 | 50 CAD against a lower price of 100 buys no share, so neither day trades |
| `Scenarios.DefaultThresholdStopsAtFees` | SHOP_arb_project/first_SHOP_strat.py:94 | with the default threshold of 0, a zero-spread day passes the noise gate but its zero gross edge does not beat the fees, so it does not trade; the second day trades as before |

## Left out

- Engine.BuySellCompounding: the script raises an error when two rows share a date, because looking up that date returns several values. The model does not produce that error; it requires distinct dates instead.
- Market-data downloads (company metadata, price and FX history) are network I/O against a library that is not part of this model. The model takes the merged table as its input.
- The table plumbing is left out: the inner join, the forward fill of the rate, the column renames and both `dropna` calls. Rows are fully populated records, so there is nothing left to drop.
- Date handling and datetime index conversion are left out. Dates are opaque integer keys, copied through unchanged.
- The summary printout and the profit plot are left out, because they are output only. This includes the trade count that sums the executed column.
- IEEE floating point is not modelled: amounts are exact reals. Rounding in the division, in `np.floor` and in the fee products is not captured. NaN and infinite values do not exist in the model.
- Market.MakeRow: a zero rate has no finite implied price. With a nonzero USD close, pandas stores an infinity there and the row reaches the engine. The model stores 0.0 instead, and this is harmless because the engine checks the rate before it reads the implied price. With a zero USD close, pandas stores NaN and the `dropna` removes the row before the engine sees it. The model keeps such a row, with 0.0, and the engine records it as a day without a trade.
