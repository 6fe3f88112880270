/** The compounding cross-listing arbitrage backtest as functions: one day's
    decision, its fold over the table, the assembled equity table, and the
    properties the strategy promises about them. */
module Strategy {
  import opened Market

  function Abs(x: real): real { if x < 0.0 then -x else x }

  function Min(a: real, b: real): real { if b < a then b else a }

  function Max(a: real, b: real): real { if b < a then a else b }

  /** Absolute gap between the domestic close and the implied price. */
  function Spread(r: Row): (s: real)
    ensures s >= 0.0
    ensures s == r.closeDomestic - r.cadImplied || s == r.cadImplied - r.closeDomestic
  {
    Abs(r.closeDomestic - r.cadImplied)
  }

  /** The cheaper of the two CAD prices, at which the position is sized. */
  function Lower(r: Row): (l: real)
    ensures l <= r.closeDomestic && l <= r.cadImplied
    ensures l == r.closeDomestic || l == r.cadImplied
  {
    Min(r.closeDomestic, r.cadImplied)
  }

  /** The noise filter: a positive lower price and a relative spread of at
      least `minRelSpread`. */
  predicate PassesNoiseGate(p: Params, r: Row): (b: bool)
    ensures b <==> Lower(r) > 0.0 && Spread(r) >= p.minRelSpread * Lower(r)
  {
    Lower(r) > 0.0 && Spread(r) / Lower(r) >= p.minRelSpread
  }

  /** CAD paid for one USD at the day's rate. */
  function CadPerUsd(r: Row): (k: real)
    requires r.exchangeRate > 0.0
    ensures k > 0.0 && k * r.exchangeRate == 1.0
  {
    1.0 / r.exchangeRate
  }

  /** Whole shares bought with `capital` at price `lower`: the largest
      integer count whose cost does not exceed the capital. */
  function NumShares(capital: real, lower: real): (n: int)
    requires lower > 0.0
    ensures n as real * lower <= capital < (n + 1) as real * lower
  {
    var q := capital / lower;
    var f := q.Floor;
    assert q * lower == capital;
    assert f as real <= q < f as real + 1.0;
    MulMonotone(f as real, q, lower);
    MulMonotone(q, f as real + 1.0, lower);
    assert capital < (f as real + 1.0) * lower;
    assert capital < (f + 1) as real * lower;
    f
  }

  lemma MulMonotone(x: real, y: real, k: real)
    requires k > 0.0
    ensures x <= y ==> x * k <= y * k
    ensures x < y ==> x * k < y * k
  {
  }

  /** Fees of a round trip of `n` shares: the flat CAD fee plus the USD-side
      fee on the USD notional, converted to CAD. */
  function Fees(p: Params, r: Row, n: int): (f: real)
    requires r.exchangeRate > 0.0
    ensures f == p.cadFee + n as real * r.closeForeign * p.usdFeeRate / r.exchangeRate
    ensures 0 <= n && 0.0 <= r.closeForeign && 0.0 <= p.usdFeeRate ==> p.cadFee <= f
  {
    var usdNotional := n as real * r.closeForeign;
    var usdFeeCad := usdNotional * p.usdFeeRate * CadPerUsd(r);
    p.cadFee + usdFeeCad
  }

  /** The spread captured on `n` shares: selling them at the higher of the
      two CAD prices and buying them at the lower. */
  function GrossEdge(r: Row, n: int): (g: real)
    ensures g == n as real * Max(r.closeDomestic, r.cadImplied) - n as real * Lower(r)
    ensures 0 <= n ==> 0.0 <= g
  {
    Spread(r) * n as real
  }

  /** Capital after one day, and whether that day traded. */
  datatype Decision = Decision(capital: real, executed: bool)

  /** One day of the backtest. Capital never falls, and it rises exactly on
      the days that trade. */
  function Step(p: Params, capital: real, r: Row): (d: Decision)
    ensures d.capital >= capital
    ensures d.executed <==> d.capital > capital
  {
    if r.exchangeRate > 0.0 then
      if PassesNoiseGate(p, r) then
        var n := NumShares(capital, Lower(r));
        if n > 0 then
          var fees := Fees(p, r, n);
          var gross := GrossEdge(r, n);
          if gross > fees then Decision(capital + (gross - fees), true)
          else Decision(capital, false)
        else Decision(capital, false)
      else Decision(capital, false)
    else Decision(capital, false)
  }

  /** A day whose capital cannot buy one share at the lower price does not
      trade, whatever the spread and the fees. */
  lemma StepUnaffordable(p: Params, capital: real, r: Row)
    requires capital < Lower(r)
    ensures Step(p, capital, r) == Decision(capital, false)
  {
  }

  /** The decisions of the day loop, started with `capital`, one per row. */
  function Trajectory(p: Params, capital: real, rows: seq<Row>): (ds: seq<Decision>)
    ensures |ds| == |rows|
    ensures forall k :: 0 <= k < |ds| ==> capital <= ds[k].capital
    decreases |rows|
  {
    if rows == [] then []
    else
      var d := Step(p, capital, rows[0]);
      [d] + Trajectory(p, d.capital, rows[1..])
  }

  /** The capital the loop holds before row `j` (after the last row when
      `j == |rows|`). */
  function CapitalBefore(p: Params, capital: real, rows: seq<Row>, j: nat): real
    requires j <= |rows|
  {
    if j == 0 then capital else Trajectory(p, capital, rows)[j - 1].capital
  }

  /** The accumulator as the loop leaves it: capital threaded through every
      row, keeping nothing else. */
  function Accumulate(p: Params, capital: real, rows: seq<Row>): (final: real)
    ensures capital <= final
    decreases |rows|
  {
    if rows == [] then capital
    else Accumulate(p, Step(p, capital, rows[0]).capital, rows[1..])
  }

  /** The equity table: one record per row, in row order, with the profit
      column derived from the equity column. */
  function Backtest(p: Params, rows: seq<Row>): (out: seq<Record>)
    ensures |out| == |rows|
    ensures forall k :: 0 <= k < |out| ==> out[k].date == rows[k].date
    ensures forall k :: 0 <= k < |out| ==> out[k].profit == out[k].equity - p.initialCapital
  {
    var ds := Trajectory(p, p.initialCapital, rows);
    seq(|rows|, k requires 0 <= k < |rows| =>
      Record(rows[k].date, ds[k].capital, ds[k].executed, ds[k].capital - p.initialCapital))
  }

  // ---------------------------------------------------------------------
  // The fold
  // ---------------------------------------------------------------------

  /** State is checkpointed after every row: the decisions from row `j` on
      are those of a fresh run on the remaining rows from the capital held
      before row `j`. */
  lemma {:induction false} CheckpointResume(p: Params, capital: real, rows: seq<Row>, j: nat)
    requires j <= |rows|
    ensures Trajectory(p, capital, rows)[j..]
         == Trajectory(p, CapitalBefore(p, capital, rows, j), rows[j..])
    decreases j
  {
    if j > 0 {
      var c1 := Step(p, capital, rows[0]).capital;
      var tail := rows[1..];
      CheckpointResume(p, c1, tail, j - 1);
      assert Trajectory(p, capital, rows)[1..] == Trajectory(p, c1, tail);
      assert tail[j - 1..] == rows[j..];
      if j > 1 {
        assert Trajectory(p, c1, tail)[j - 2] == Trajectory(p, capital, rows)[j - 1];
      }
      assert CapitalBefore(p, c1, tail, j - 1) == CapitalBefore(p, capital, rows, j);
    }
  }

  /** Row `k`'s decision is one step from the capital held before it. */
  lemma {:induction false} TrajectoryAt(p: Params, capital: real, rows: seq<Row>, k: nat)
    requires k < |rows|
    ensures Trajectory(p, capital, rows)[k] == Step(p, CapitalBefore(p, capital, rows, k), rows[k])
  {
    CheckpointResume(p, capital, rows, k);
    assert Trajectory(p, capital, rows)[k] == Trajectory(p, capital, rows)[k..][0];
  }

  /** The capital held before later rows is never less than before earlier
      ones. */
  lemma {:induction false} CapitalMonotone(p: Params, capital: real, rows: seq<Row>, i: nat, j: nat)
    requires i <= j <= |rows|
    ensures CapitalBefore(p, capital, rows, i) <= CapitalBefore(p, capital, rows, j)
    decreases j
  {
    if i < j {
      CapitalMonotone(p, capital, rows, i, j - 1);
      TrajectoryAt(p, capital, rows, j - 1);
    }
  }

  /** The accumulator left after the last row is the capital of the last
      decision (the starting capital when there are no rows). */
  lemma {:induction false} AccumulateIsLastCapital(p: Params, capital: real, rows: seq<Row>)
    ensures CapitalBefore(p, capital, rows, |rows|) == Accumulate(p, capital, rows)
    decreases |rows|
  {
    if rows != [] {
      var c1 := Step(p, capital, rows[0]).capital;
      AccumulateIsLastCapital(p, c1, rows[1..]);
      if |rows| > 1 {
        assert Trajectory(p, capital, rows)[|rows| - 1] == Trajectory(p, c1, rows[1..])[|rows| - 2];
      }
    }
  }

  /** Started with less capital than any positive lower price in the rows,
      the loop never buys a share: every day keeps the capital and none
      trades. */
  lemma {:induction false} NeverAffordableKeepsCapital(p: Params, capital: real, rows: seq<Row>)
    requires forall k :: 0 <= k < |rows| ==> Lower(rows[k]) > 0.0 ==> capital < Lower(rows[k])
    ensures forall k :: 0 <= k < |rows| ==> Trajectory(p, capital, rows)[k] == Decision(capital, false)
    decreases |rows|
  {
    if rows != [] {
      if Lower(rows[0]) > 0.0 {
        StepUnaffordable(p, capital, rows[0]);
      }
      assert Step(p, capital, rows[0]) == Decision(capital, false);
      var tail := rows[1..];
      forall k | 0 <= k < |tail| ensures Lower(tail[k]) > 0.0 ==> capital < Lower(tail[k]) {
        assert tail[k] == rows[k + 1];
      }
      NeverAffordableKeepsCapital(p, capital, tail);
      forall k | 0 <= k < |rows| ensures Trajectory(p, capital, rows)[k] == Decision(capital, false) {
        if k > 0 {
          assert Trajectory(p, capital, rows)[k] == Trajectory(p, capital, tail)[k - 1];
        }
      }
    }
  }

  // ---------------------------------------------------------------------
  // The equity table
  // ---------------------------------------------------------------------

  /** Record `k` is the decision of one day taken from the capital held
      before it: the initial capital for the first record, the previous
      record's equity otherwise. */
  lemma DayRecord(p: Params, rows: seq<Row>, k: nat)
    requires k < |rows|
    ensures CapitalBefore(p, p.initialCapital, rows, k)
         == if k == 0 then p.initialCapital else Backtest(p, rows)[k - 1].equity
    ensures var d := Step(p, CapitalBefore(p, p.initialCapital, rows, k), rows[k]);
            Backtest(p, rows)[k].equity == d.capital && Backtest(p, rows)[k].tradeExecuted == d.executed
  {
    TrajectoryAt(p, p.initialCapital, rows, k);
  }

  /** A day without a trade records the capital it started with, and a day
      with a trade records strictly more. */
  lemma NoTradeCarriesCapital(p: Params, rows: seq<Row>, k: nat)
    requires k < |rows|
    ensures var before := if k == 0 then p.initialCapital else Backtest(p, rows)[k - 1].equity;
            && (!Backtest(p, rows)[k].tradeExecuted <==> Backtest(p, rows)[k].equity == before)
            && (Backtest(p, rows)[k].tradeExecuted <==> Backtest(p, rows)[k].equity > before)
  {
    DayRecord(p, rows, k);
  }

  /** Equity never decreases along the table, and never falls below the
      initial capital. */
  lemma EquityNonDecreasing(p: Params, rows: seq<Row>, i: nat, j: nat)
    requires i <= j < |rows|
    ensures p.initialCapital <= Backtest(p, rows)[i].equity <= Backtest(p, rows)[j].equity
  {
    CapitalMonotone(p, p.initialCapital, rows, i + 1, j + 1);
  }

  /** A day whose rate is not positive does not trade. */
  lemma FxGate(p: Params, rows: seq<Row>, k: nat)
    requires k < |rows| && rows[k].exchangeRate <= 0.0
    ensures !Backtest(p, rows)[k].tradeExecuted
    ensures Backtest(p, rows)[k].equity == CapitalBefore(p, p.initialCapital, rows, k)
  {
    DayRecord(p, rows, k);
  }

  /** A day with a non-positive lower price, or with a relative spread below
      the threshold, does not trade, whatever the fees. */
  lemma NoiseGate(p: Params, rows: seq<Row>, k: nat)
    requires k < |rows|
    requires Lower(rows[k]) <= 0.0 || Spread(rows[k]) / Lower(rows[k]) < p.minRelSpread
    ensures !Backtest(p, rows)[k].tradeExecuted
    ensures Backtest(p, rows)[k].equity == CapitalBefore(p, p.initialCapital, rows, k)
  {
    DayRecord(p, rows, k);
  }

  /** A day whose capital buys no whole share at the lower price does not
      trade. */
  lemma UnaffordableDay(p: Params, rows: seq<Row>, k: nat)
    requires k < |rows| && CapitalBefore(p, p.initialCapital, rows, k) < Lower(rows[k])
    ensures !Backtest(p, rows)[k].tradeExecuted
    ensures Backtest(p, rows)[k].equity == CapitalBefore(p, p.initialCapital, rows, k)
  {
    DayRecord(p, rows, k);
    StepUnaffordable(p, CapitalBefore(p, p.initialCapital, rows, k), rows[k]);
  }

  /** The trading condition restated from the gates: a positive rate, the
      noise filter, at least one affordable share, and a spread on those
      shares above the flat fee plus the USD-side fee divided by the rate. */
  predicate Profitable(p: Params, capital: real, r: Row)
  {
    && r.exchangeRate > 0.0
    && PassesNoiseGate(p, r)
    && var n := NumShares(capital, Lower(r));
    && n > 0
    && Spread(r) * n as real > p.cadFee + n as real * r.closeForeign * p.usdFeeRate / r.exchangeRate
  }

  /** The net edge of a profitable day, in the same terms. */
  function NetEdge(p: Params, capital: real, r: Row): real
    requires Profitable(p, capital, r)
  {
    var n := NumShares(capital, Lower(r));
    Spread(r) * n as real - (p.cadFee + n as real * r.closeForeign * p.usdFeeRate / r.exchangeRate)
  }

  /** A day trades exactly when it is profitable, and then its capital grows
      by exactly the net edge. */
  lemma StepTradesIffProfitable(p: Params, capital: real, r: Row)
    ensures Step(p, capital, r).executed <==> Profitable(p, capital, r)
    ensures Profitable(p, capital, r) ==> Step(p, capital, r).capital == capital + NetEdge(p, capital, r)
  {
  }

  /** Record `k` shows a trade exactly when its day was profitable from the
      capital held before it, and a trade adds exactly the net edge. */
  lemma RecordTradesIffProfitable(p: Params, rows: seq<Row>, k: nat)
    requires k < |rows|
    ensures var before := CapitalBefore(p, p.initialCapital, rows, k);
            && (Backtest(p, rows)[k].tradeExecuted <==> Profitable(p, before, rows[k]))
            && (Profitable(p, before, rows[k]) ==>
                  Backtest(p, rows)[k].equity == before + NetEdge(p, before, rows[k]))
  {
    DayRecord(p, rows, k);
    StepTradesIffProfitable(p, CapitalBefore(p, p.initialCapital, rows, k), rows[k]);
  }

  /** From some day on, if the capital held then cannot buy one share at any
      later positive lower price, the equity stays at that capital and no
      later day trades. */
  lemma NoAffordableDayFromHereOn(p: Params, rows: seq<Row>, j: nat)
    requires j <= |rows|
    requires forall k :: j <= k < |rows| ==>
               Lower(rows[k]) > 0.0 ==> CapitalBefore(p, p.initialCapital, rows, j) < Lower(rows[k])
    ensures forall k :: j <= k < |rows| ==>
              && Backtest(p, rows)[k].equity == CapitalBefore(p, p.initialCapital, rows, j)
              && !Backtest(p, rows)[k].tradeExecuted
  {
    var c := CapitalBefore(p, p.initialCapital, rows, j);
    var rest := rows[j..];
    CheckpointResume(p, p.initialCapital, rows, j);
    forall k | 0 <= k < |rest| ensures Lower(rest[k]) > 0.0 ==> c < Lower(rest[k]) {
      assert rest[k] == rows[j + k];
    }
    NeverAffordableKeepsCapital(p, c, rest);
    forall k | j <= k < |rows|
      ensures Backtest(p, rows)[k].equity == c && !Backtest(p, rows)[k].tradeExecuted
    {
      assert Trajectory(p, p.initialCapital, rows)[k] == Trajectory(p, c, rest)[k - j];
    }
  }

  /** The last record holds the final value of the capital accumulator, and
      its profit is that value less the initial capital. */
  lemma FinalRecord(p: Params, rows: seq<Row>)
    requires |rows| > 0
    ensures Backtest(p, rows)[|rows| - 1].equity == Accumulate(p, p.initialCapital, rows)
    ensures Backtest(p, rows)[|rows| - 1].profit == Accumulate(p, p.initialCapital, rows) - p.initialCapital
  {
    AccumulateIsLastCapital(p, p.initialCapital, rows);
  }
}
